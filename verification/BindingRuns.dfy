/** Run-time behaviour of one scope's statements: which names are bound, and to what. */
module BindingRuns {
  import opened Prelude
  import opened DefiniteBinding

  /** The names bound, with the canonical name of the object where the object has one. */
  type Store = map<Name, Option<string>>

  function CanonicalAt(store: Store, ref: Ref): Option<string> {
    if ref.root in store && store[ref.root].Some? then Some(Dotted(store[ref.root].value, ref.suffix)) else None
  }

  // ---------------------------------------------------------------------------------------------
  // Tests
  // ---------------------------------------------------------------------------------------------

  /**
   The test may come out as `v`.  The guard is false, anything else may be either, and two evaluations of one
   expression need not agree.  A name that is not bound here may be found outside the scope.
   */
  ghost predicate May(test: Test, store: Store, v: bool)
    decreases test
  {
    match test
    case Named(ref) => IsGuard(CanonicalAt(store, ref)) ==> !v
    case Not(operand) => May(operand, store, !v)
    case And(values) =>
      if v then forall i :: 0 <= i < |values| ==> May(values[i], store, true)
      else values == [] || exists i :: 0 <= i < |values| && May(values[i], store, false)
    case Or(values) =>
      if v then values == [] || exists i :: 0 <= i < |values| && May(values[i], store, true)
      else forall i :: 0 <= i < |values| ==> May(values[i], store, false)
    case Other => true
  }

  /** Judged by the names' run-time objects, the static truth of a test is exactly what it must come out as. */
  lemma {:induction false} StaticTruthIsExact(test: Test, store: Store, v: bool)
    ensures May(test, store, v) <==> StaticTruth(test, ref => CanonicalAt(store, ref)) != Some(!v)
    decreases test
  {
    match test
    case Named(_) =>
    case Not(operand) =>
      StaticTruthIsExact(operand, store, !v);
    case And(values) =>
      forall i, w | 0 <= i < |values|
        ensures May(values[i], store, w) <==> StaticTruth(values[i], ref => CanonicalAt(store, ref)) != Some(!w)
      {
        StaticTruthIsExact(values[i], store, w);
      }
    case Or(values) =>
      forall i, w | 0 <= i < |values|
        ensures May(values[i], store, w) <==> StaticTruth(values[i], ref => CanonicalAt(store, ref)) != Some(!w)
      {
        StaticTruthIsExact(values[i], store, w);
      }
    case Other =>
  }

  /** What the resolution takes for a guard, of the names in question, is one. */
  ghost predicate RightAbout(names: set<Name>, canonicalName: Resolution, store: Store) {
    forall ref: Ref :: ref.root in names && IsGuard(canonicalName(ref)) ==> IsGuard(CanonicalAt(store, ref))
  }

  /** A statically decided test has that value at run time, if what is known of its names is right. */
  lemma {:induction false} StaticTruthIsRuntimeTruth(test: Test, canonicalName: Resolution, store: Store, v: bool)
    requires RightAbout(TestNames(test), canonicalName, store)
    requires StaticTruth(test, canonicalName).Some? && May(test, store, v)
    ensures StaticTruth(test, canonicalName) == Some(v)
    decreases test
  {
    match test
    case Named(_) =>
    case Not(operand) =>
      StaticTruthIsRuntimeTruth(operand, canonicalName, store, !v);
    case And(values) =>
      forall i, w | 0 <= i < |values| && StaticTruth(values[i], canonicalName).Some? && May(values[i], store, w)
        ensures StaticTruth(values[i], canonicalName) == Some(w)
      {
        assert forall n :: n in TestNames(values[i]) ==> n in TestNames(test);
        StaticTruthIsRuntimeTruth(values[i], canonicalName, store, w);
      }
    case Or(values) =>
      forall i, w | 0 <= i < |values| && StaticTruth(values[i], canonicalName).Some? && May(values[i], store, w)
        ensures StaticTruth(values[i], canonicalName) == Some(w)
      {
        assert forall n :: n in TestNames(values[i]) ==> n in TestNames(test);
        StaticTruthIsRuntimeTruth(values[i], canonicalName, store, w);
      }
    case Other =>
  }

  // ---------------------------------------------------------------------------------------------
  // Runs
  // ---------------------------------------------------------------------------------------------

  /** How a run ends, with the store it leaves. */
  datatype Outcome = Normal(store: Store) | Raised(store: Store) {
    function Without(n: Name): Outcome {
      if Normal? then Normal(store - {n}) else Raised(store - {n})
    }
  }

  /** What a value may evaluate to: imports and copies carry the canonical name on. */
  ghost predicate Yields(value: BoundValue, store: Store, v: Option<string>) {
    match value
    case Opaque => true
    case Imported(canonical) => v == Some(canonical)
    case CopyOf(ref) => CanonicalAt(store, ref).Some? ==> v == CanonicalAt(store, ref)
    case CallOf(ref) =>
      var factory := CanonicalAt(store, ref);
      factory.Some? && factory.value in FACTORIES ==> v == Some(factory.value + ".instance")
  }

  /** The names are bound to what the value yields; nothing else changes. */
  ghost predicate Assigned(before: Store, after: Store, names: set<Name>, value: BoundValue) {
    && after.Keys == before.Keys + names
    && (forall n :: n in names ==> Yields(value, before, after[n]))
    && (forall n :: n in before && n !in names ==> after[n] == before[n])
  }

  /** Names are bound from left to right; an exception may leave a part of them bound. */
  ghost predicate Binds(names: seq<Name>, value: BoundValue, store: Store, o: Outcome) {
    exists k :: 0 <= k <= |names| && Assigned(store, o.store, NameSet(names[..k]), value) && (o.Normal? ==> k == |names|)
  }

  /** Names are unbound from left to right, up to the first that is not bound. */
  ghost predicate Unbinds(names: seq<Name>, store: Store, o: Outcome) {
    exists k :: 0 <= k <= |names| && Distinct(names[..k]) && NameSet(names[..k]) <= store.Keys
                && o.store == store - NameSet(names[..k]) && (o.Normal? ==> k == |names|)
  }

  /** A statement list may run to an outcome; an exception may come at any point, also behind the last statement. */
  ghost predicate Runs(statements: seq<Stmt>, store: Store, o: Outcome)
    decreases statements
  {
    if statements == [] then o.store == store
    else
      var front, last := statements[..|statements| - 1], statements[|statements| - 1];
      || (o.Raised? && Runs(front, store, o))
      || exists mid :: Runs(front, store, Normal(mid)) && (RunsStmt(last, mid, o) || (o.Raised? && RunsStmt(last, mid, Normal(o.store))))
  }

  ghost predicate RunsStmt(s: Stmt, store: Store, o: Outcome)
    decreases s, 1
  {
    || (o.Raised? && o.store == store)
    || match s
       case Bind(names, value) => Binds(names, value, store, o)
       case Del(names) => Unbinds(names, store, o)
       case If(test, body, orelse) =>
         (May(test, store, true) && Runs(body, store, o)) || (May(test, store, false) && Runs(orelse, store, o))
       case For(_, _, _) => RunsLoop(s, store, o)
       case While(_, _) => RunsLoop(s, store, o)
       case Try(_, _, _, finalbody) =>
         exists mid :: RunsGuarded(s, store, mid) &&
           if mid.Normal? then Runs(finalbody, mid.store, o)
           else o.Raised? && (Runs(finalbody, mid.store, o) || Runs(finalbody, mid.store, Normal(o.store)))
       case With(targets, suppresses, body) =>
         || (o.Raised? && Binds(targets, Opaque, store, o))
         || exists entered, mid ::
              Assigned(store, entered, NameSet(targets), Opaque) && Runs(body, entered, mid)
              && mid.store == o.store && (mid.Raised? && o.Normal? ==> suppresses)
       case Match(cases) =>
         exists extra, tried :: extra <= CaseNames(cases) && Assigned(store, tried, extra, Opaque) &&
           (|| o == Normal(tried)
            || o == Raised(tried)
            || exists i :: 0 <= i < |cases| && RunsCase(cases[i], tried, o))
  }

  /** The names that patterns capture; a pattern that fails in the end may have captured some of its names. */
  function CaseNames(cases: seq<Case>): set<Name> {
    set i, n | 0 <= i < |cases| && n in cases[i].names :: n
  }

  ghost predicate RunsCase(c: Case, store: Store, o: Outcome)
    decreases c
  {
    exists entered :: Assigned(store, entered, NameSet(c.names), Opaque) && Runs(c.body, entered, o)
  }

  function Targets(s: Stmt): seq<Name> {
    if s.For? then s.targets else []
  }

  /** One pass over a loop body. */
  ghost predicate RunsBody(s: Stmt, head: Store, o: Outcome)
    requires s.For? || s.While?
    decreases s, 0, 0
  {
    exists entered :: Assigned(head, entered, NameSet(Targets(s)), Opaque) && Runs(s.body, entered, o)
  }

  /** The stores at the loop head, iteration by iteration. */
  ghost predicate Iterations(s: Stmt, heads: seq<Store>)
    requires s.For? || s.While?
    decreases s, 0, 1
  {
    |heads| > 0 && forall i :: 0 < i < |heads| ==> RunsBody(s, heads[i - 1], Normal(heads[i]))
  }

  /** Any number of iterations, then the else branch; or an exception at the head, in the body or in the else branch. */
  ghost predicate RunsLoop(s: Stmt, store: Store, o: Outcome)
    requires s.For? || s.While?
    decreases s, 0, 2
  {
    exists heads :: Iterations(s, heads) && heads[0] == store && LeavesLoop(s, heads[|heads| - 1], o)
  }

  ghost predicate LeavesLoop(s: Stmt, head: Store, o: Outcome)
    requires s.For? || s.While?
    decreases s, 0, 1
  {
    || (o.Raised? && Binds(Targets(s), Opaque, head, o))
    || (o.Raised? && RunsBody(s, head, o))
    || Runs(s.orelse, head, o)
  }

  ghost predicate RunsHandler(h: Handler, store: Store, o: Outcome)
    decreases h
  {
    match h.name
    case None => Runs(h.body, store, o)
    case Some(n) => exists entered, inner :: Assigned(store, entered, {n}, Opaque) && Runs(h.body, entered, inner) && o == inner.Without(n)
  }

  /** A try statement before its finally part. */
  ghost predicate RunsGuarded(s: Stmt, store: Store, o: Outcome)
    requires s.Try?
    decreases s, 0
  {
    || (exists mid :: Runs(s.body, store, Normal(mid)) && Runs(s.orelse, mid, o))
    || (o.Raised? && Runs(s.body, store, o))
    || exists mid, i :: 0 <= i < |s.handlers| && Runs(s.body, store, Raised(mid)) && RunsHandler(s.handlers[i], mid, o)
  }

  // ---------------------------------------------------------------------------------------------
  // Names a statement may bind or unbind
  // ---------------------------------------------------------------------------------------------

  function Touched(statements: seq<Stmt>): set<Name>
    decreases statements
  {
    if statements == [] then {} else Touched(statements[..|statements| - 1]) + TouchedBy(statements[|statements| - 1])
  }

  function TouchedBy(s: Stmt): set<Name>
    decreases s
  {
    match s
    case Bind(names, _) => NameSet(names)
    case Del(names) => NameSet(names)
    case If(_, body, orelse) => Touched(body) + Touched(orelse)
    case For(targets, body, orelse) => NameSet(targets) + Touched(body) + Touched(orelse)
    case While(body, orelse) => Touched(body) + Touched(orelse)
    case Try(body, handlers, orelse, finalbody) => Touched(body) + TouchedByHandlers(handlers) + Touched(orelse) + Touched(finalbody)
    case With(targets, _, body) => NameSet(targets) + Touched(body)
    case Match(cases) => TouchedByCases(cases)
  }

  function TouchedByHandlers(handlers: seq<Handler>): set<Name>
    decreases handlers
  {
    if handlers == [] then {}
    else
      var last := handlers[|handlers| - 1];
      TouchedByHandlers(handlers[..|handlers| - 1]) + (if last.name.Some? then {last.name.value} else {}) + Touched(last.body)
  }

  function TouchedByCases(cases: seq<Case>): set<Name>
    decreases cases
  {
    if cases == [] then {}
    else
      var last := cases[|cases| - 1];
      TouchedByCases(cases[..|cases| - 1]) + NameSet(last.names) + Touched(last.body)
  }

  lemma {:induction false} HandlerTouches(handlers: seq<Handler>, i: nat)
    requires i < |handlers|
    ensures Touched(handlers[i].body) <= TouchedByHandlers(handlers)
    ensures handlers[i].name.Some? ==> handlers[i].name.value in TouchedByHandlers(handlers)
    decreases |handlers|
  {
    if i == |handlers| - 1 {
    } else {
      HandlerTouches(handlers[..|handlers| - 1], i);
    }
  }

  lemma {:induction false} CaseTouches(cases: seq<Case>, i: nat)
    requires i < |cases|
    ensures Touched(cases[i].body) + NameSet(cases[i].names) <= TouchedByCases(cases)
    decreases |cases|
  {
    if i == |cases| - 1 {
    } else {
      CaseTouches(cases[..|cases| - 1], i);
    }
  }

  lemma CaseNamesAreTouched(cases: seq<Case>)
    ensures CaseNames(cases) <= TouchedByCases(cases)
  {
    forall i, n | 0 <= i < |cases| && n in cases[i].names
      ensures n in TouchedByCases(cases)
    {
      CaseTouches(cases, i);
      assert n in NameSet(cases[i].names);
    }
  }

  /** The name is bound to the same in both stores, or in neither. */
  ghost predicate SameAt(n: Name, a: Store, b: Store) {
    (n in a <==> n in b) && (n in a ==> a[n] == b[n])
  }

  /** A run leaves the names alone that its statements do not touch, however it ends. */
  lemma {:induction false} UntouchedStay(statements: seq<Stmt>, store: Store, o: Outcome, n: Name)
    requires n !in Touched(statements) && Runs(statements, store, o)
    ensures SameAt(n, store, o.store)
    decreases statements
  {
    if statements == [] {
    } else {
      var front, last := statements[..|statements| - 1], statements[|statements| - 1];
      if o.Raised? && Runs(front, store, o) {
        UntouchedStay(front, store, o, n);
      } else {
        var mid :| Runs(front, store, Normal(mid)) && (RunsStmt(last, mid, o) || (o.Raised? && RunsStmt(last, mid, Normal(o.store))));
        UntouchedStay(front, store, Normal(mid), n);
        UntouchedStaysInStmt(last, mid, if RunsStmt(last, mid, o) then o else Normal(o.store), n);
      }
    }
  }

  lemma {:induction false} UntouchedStaysInStmt(s: Stmt, store: Store, o: Outcome, n: Name)
    requires n !in TouchedBy(s) && RunsStmt(s, store, o)
    ensures SameAt(n, store, o.store)
    decreases s, 1
  {
    if !(o.Raised? && o.store == store) {
      match s
      case Bind(names, value) =>
        PrefixNames(names);
      case Del(names) =>
        PrefixNames(names);
      case If(test, body, orelse) =>
        if May(test, store, true) && Runs(body, store, o) {
          UntouchedStay(body, store, o, n);
        } else {
          UntouchedStay(orelse, store, o, n);
        }
      case For(_, _, _) =>
        UntouchedStaysInLoop(s, store, o, n);
      case While(_, _) =>
        UntouchedStaysInLoop(s, store, o, n);
      case Try(_, _, _, finalbody) =>
        var mid :| RunsGuarded(s, store, mid) &&
          if mid.Normal? then Runs(finalbody, mid.store, o)
          else o.Raised? && (Runs(finalbody, mid.store, o) || Runs(finalbody, mid.store, Normal(o.store)));
        UntouchedStaysGuarded(s, store, mid, n);
        UntouchedStay(finalbody, mid.store, if Runs(finalbody, mid.store, o) then o else Normal(o.store), n);
      case With(targets, suppresses, body) =>
        PrefixNames(targets);
        if entered, mid :| Assigned(store, entered, NameSet(targets), Opaque) && Runs(body, entered, mid) && mid.store == o.store {
          UntouchedStay(body, entered, mid, n);
        }
      case Match(cases) =>
        CaseNamesAreTouched(cases);
        var extra, tried :| extra <= CaseNames(cases) && Assigned(store, tried, extra, Opaque) &&
          (o == Normal(tried) || o == Raised(tried) || exists i :: 0 <= i < |cases| && RunsCase(cases[i], tried, o));
        if i :| 0 <= i < |cases| && RunsCase(cases[i], tried, o) {
          CaseTouches(cases, i);
          var entered :| Assigned(tried, entered, NameSet(cases[i].names), Opaque) && Runs(cases[i].body, entered, o);
          UntouchedStay(cases[i].body, entered, o, n);
        }
    }
  }

  lemma PrefixNames(names: seq<Name>)
    ensures forall k :: 0 <= k <= |names| ==> NameSet(names[..k]) <= NameSet(names)
  {
    forall k, n | 0 <= k <= |names| && n in names[..k]
      ensures n in names
    {
    }
  }

  lemma {:induction false} UntouchedStaysInLoop(s: Stmt, store: Store, o: Outcome, n: Name)
    requires (s.For? || s.While?) && n !in TouchedBy(s) && RunsLoop(s, store, o)
    ensures SameAt(n, store, o.store)
    decreases s, 0
  {
    PrefixNames(Targets(s));
    var heads :| Iterations(s, heads) && heads[0] == store && LeavesLoop(s, heads[|heads| - 1], o);
    for i := 1 to |heads|
      invariant SameAt(n, store, heads[i - 1])
    {
      assert RunsBody(s, heads[i - 1], Normal(heads[i]));
      var entered :| Assigned(heads[i - 1], entered, NameSet(Targets(s)), Opaque) && Runs(s.body, entered, Normal(heads[i]));
      UntouchedStay(s.body, entered, Normal(heads[i]), n);
    }
    var head := heads[|heads| - 1];
    if Runs(s.orelse, head, o) {
      UntouchedStay(s.orelse, head, o, n);
    } else if RunsBody(s, head, o) {
      var entered :| Assigned(head, entered, NameSet(Targets(s)), Opaque) && Runs(s.body, entered, o);
      UntouchedStay(s.body, entered, o, n);
    }
  }

  lemma {:induction false} UntouchedStaysGuarded(s: Stmt, store: Store, o: Outcome, n: Name)
    requires s.Try? && n !in Touched(s.body) + TouchedByHandlers(s.handlers) + Touched(s.orelse) && RunsGuarded(s, store, o)
    ensures SameAt(n, store, o.store)
    decreases s, 0
  {
    if mid :| Runs(s.body, store, Normal(mid)) && Runs(s.orelse, mid, o) {
      UntouchedStay(s.body, store, Normal(mid), n);
      UntouchedStay(s.orelse, mid, o, n);
    } else if o.Raised? && Runs(s.body, store, o) {
      UntouchedStay(s.body, store, o, n);
    } else {
      var mid, i :| 0 <= i < |s.handlers| && Runs(s.body, store, Raised(mid)) && RunsHandler(s.handlers[i], mid, o);
      HandlerTouches(s.handlers, i);
      UntouchedStay(s.body, store, Raised(mid), n);
      UntouchedStaysInHandler(s.handlers[i], mid, o, n);
    }
  }

  lemma {:induction false} UntouchedStaysInHandler(h: Handler, store: Store, o: Outcome, n: Name)
    requires n !in Touched(h.body) && h.name != Some(n) && RunsHandler(h, store, o)
    ensures SameAt(n, store, o.store)
    decreases h
  {
    match h.name
    case None =>
      UntouchedStay(h.body, store, o, n);
    case Some(m) =>
      var entered, inner :| Assigned(store, entered, {m}, Opaque) && Runs(h.body, entered, inner) && o == inner.Without(m);
      UntouchedStay(h.body, entered, inner, n);
  }
}
