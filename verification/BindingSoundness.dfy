/** Why the definite-binding audit is right: every completed run respects its transfer. */
module BindingSoundness {
  import opened Prelude
  import opened DefiniteBinding
  import opened BindingRuns
  import opened BindingTransfer

  // ---------------------------------------------------------------------------------------------
  // What the audit knows of guards is right
  // ---------------------------------------------------------------------------------------------

  /** What the audit takes for a guard, or a way to one, of the names in question, is bound to that object. */
  ghost predicate AccurateOn(guards: iset<Name>, st: ScopeState, store: Store) {
    forall n :: n in guards && st.GuardName(n).Some? ==> n in store && store[n] == st.GuardName(n)
  }

  /**
   What the audit knows of guard names stays right: tests are about guard names; no loop, try statement or match
   pattern rebinds or unbinds a guard name that is known when it is entered; and no guard name that is touched under
   a context manager that swallows exceptions is known behind it.
   */
  ghost predicate Steady(runtimeNames: set<Name>, guards: iset<Name>, statements: seq<Stmt>, st: ScopeState)
    decreases statements
  {
    statements != [] ==>
      var front, last := statements[..|statements| - 1], statements[|statements| - 1];
      Steady(runtimeNames, guards, front, st) && SteadyStmt(runtimeNames, guards, last, After(runtimeNames, front, st))
  }

  ghost predicate SteadyStmt(runtimeNames: set<Name>, guards: iset<Name>, s: Stmt, st: ScopeState)
    decreases s
  {
    match s
    case Bind(names, value) => FromGuards(guards, names, value)
    case Del(_) => true
    case If(test, body, orelse) =>
      && TestsOnly(guards, test)
      && (st.Truth(runtimeNames, test) != Some(false) ==> Steady(runtimeNames, guards, body, st))
      && (st.Truth(runtimeNames, test) != Some(true) ==> Steady(runtimeNames, guards, orelse, st))
    case For(targets, body, orelse) =>
      && NoneKnown(guards, st, NameSet(targets) + Touched(body))
      && Steady(runtimeNames, guards, body, LoopEntry(s, st)) && Steady(runtimeNames, guards, orelse, LoopExit(runtimeNames, s, st))
    case While(body, orelse) =>
      && NoneKnown(guards, st, Touched(body))
      && Steady(runtimeNames, guards, body, LoopEntry(s, st)) && Steady(runtimeNames, guards, orelse, LoopExit(runtimeNames, s, st))
    case Try(body, handlers, orelse, finalbody) =>
      && NoneKnown(guards, st, Touched(body) + TouchedByHandlers(handlers) + Touched(orelse))
      && Steady(runtimeNames, guards, body, st) && Steady(runtimeNames, guards, orelse, After(runtimeNames, body, st))
      && (forall i :: 0 <= i < |handlers| ==> Steady(runtimeNames, guards, handlers[i].body, HandlerEntry(handlers[i], st)))
      && Steady(runtimeNames, guards, finalbody, BeforeFinally(runtimeNames, s, st))
    case With(targets, suppresses, body) =>
      && (suppresses ==> NoneKnown(guards, AfterStmt(runtimeNames, s, st), Touched(body)))
      && Steady(runtimeNames, guards, body, st.BindNames(targets, None))
    case Match(cases) =>
      && NoneKnown(guards, st, CaseNames(cases))
      && forall i :: 0 <= i < |cases| ==> Steady(runtimeNames, guards, cases[i].body, st.BindNames(cases[i].names, None))
  }

  /** A test decided by the audit comes out that way. */
  lemma DecidedBranch(runtimeNames: set<Name>, guards: iset<Name>, test: Test, st: ScopeState, store: Store, v: bool)
    requires TestsOnly(guards, test) && AccurateOn(guards, st, store) && May(test, store, v)
    ensures st.Truth(runtimeNames, test) != Some(!v)
  {
    var canonicalName := (ref: Ref) => st.CanonicalName(runtimeNames, ref);
    forall ref: Ref | ref.root in TestNames(test) && IsGuard(canonicalName(ref))
      ensures IsGuard(CanonicalAt(store, ref))
    {
      GuardPath(st.resolved[ref.root], ref.suffix);
      assert st.GuardName(ref.root).Some?;
    }
    if StaticTruth(test, canonicalName).Some? {
      StaticTruthIsRuntimeTruth(test, canonicalName, store, v);
    }
  }

  lemma {:induction false} MergeAllBelow(states: seq<ScopeState>, i: nat)
    requires i < |states|
    ensures forall n :: n in MergeAll(states).resolved ==> states[i].Lookup(n) == Some(MergeAll(states).resolved[n])
    decreases |states|
  {
    if i == |states| - 1 {
    } else {
      MergeAllBelow(states[..|states| - 1], i);
    }
  }

  lemma {:induction false} CaseStateAt(runtimeNames: set<Name>, cases: seq<Case>, st: ScopeState, i: nat)
    requires i < |cases|
    ensures CaseStates(runtimeNames, cases, st)[i] == After(runtimeNames, cases[i].body, st.BindNames(cases[i].names, None))
    decreases |cases|
  {
    if i == |cases| - 1 {
    } else {
      CaseStateAt(runtimeNames, cases[..|cases| - 1], st, i);
    }
  }

  lemma AccurateOnEntry(guards: iset<Name>, st: ScopeState, names: seq<Name>, store: Store, entered: Store)
    requires AccurateOn(guards, st, store) && Assigned(store, entered, NameSet(names), Opaque)
    ensures AccurateOn(guards, st.BindNames(names, None), entered)
  {
    BindLookups(st, names, None);
    forall n | n in guards && st.BindNames(names, None).GuardName(n).Some?
      ensures n in entered && entered[n] == st.BindNames(names, None).GuardName(n)
    {
      assert st.GuardName(n).Some? && n !in NameSet(names);
    }
  }

  /** A state that knows no more than `st`, at a store that has not changed where `st` knows something. */
  lemma AccurateBelow(guards: iset<Name>, st: ScopeState, store: Store, lower: ScopeState, now: Store)
    requires AccurateOn(guards, st, store)
    requires forall n :: n in lower.resolved ==> st.Lookup(n) == Some(lower.resolved[n])
    requires forall n :: n in guards && st.GuardName(n).Some? ==> SameAt(n, store, now)
    ensures AccurateOn(guards, lower, now)
  {
    assert forall n :: lower.GuardName(n).Some? ==> n in lower.resolved && st.GuardName(n) == lower.GuardName(n);
  }

  lemma {:induction false} RunKeepsAccuracy(runtimeNames: set<Name>, guards: iset<Name>, statements: seq<Stmt>, st: ScopeState, store: Store, end: Store)
    requires Steady(runtimeNames, guards, statements, st) && st.Tidy(runtimeNames) && AccurateOn(guards, st, store)
    requires Runs(statements, store, Normal(end))
    ensures AccurateOn(guards, After(runtimeNames, statements, st), end)
    decreases statements
  {
    if statements == [] {
    } else {
      var front, last := statements[..|statements| - 1], statements[|statements| - 1];
      var mid :| Runs(front, store, Normal(mid)) && RunsStmt(last, mid, Normal(end));
      RunKeepsAccuracy(runtimeNames, guards, front, st, store, mid);
      StaysTidy(runtimeNames, front, st);
      StmtKeepsAccuracy(runtimeNames, guards, last, After(runtimeNames, front, st), mid, end);
    }
  }

  lemma {:induction false} StmtKeepsAccuracy(runtimeNames: set<Name>, guards: iset<Name>, s: Stmt, st: ScopeState, store: Store, end: Store)
    requires SteadyStmt(runtimeNames, guards, s, st) && st.Tidy(runtimeNames) && AccurateOn(guards, st, store)
    requires RunsStmt(s, store, Normal(end))
    ensures AccurateOn(guards, AfterStmt(runtimeNames, s, st), end)
    decreases s, 1
  {
    StmtStaysTidy(runtimeNames, s, st);
    match s
    case Bind(names, value) =>
      BindKeepsAccuracy(runtimeNames, guards, names, value, st, store, end);
    case Del(names) =>
      UnbindKeepsAccuracy(runtimeNames, guards, names, st, store, end);
    case If(test, body, orelse) =>
      if May(test, store, true) && Runs(body, store, Normal(end)) {
        DecidedBranch(runtimeNames, guards, test, st, store, true);
        RunKeepsAccuracy(runtimeNames, guards, body, st, store, end);
      } else {
        DecidedBranch(runtimeNames, guards, test, st, store, false);
        RunKeepsAccuracy(runtimeNames, guards, orelse, st, store, end);
      }
    case For(_, _, _) =>
      LoopKeepsAccuracy(runtimeNames, guards, s, st, store, end);
    case While(_, _) =>
      LoopKeepsAccuracy(runtimeNames, guards, s, st, store, end);
    case Try(_, _, _, finalbody) =>
      var mid :| RunsGuarded(s, store, mid) && mid.Normal? && Runs(finalbody, mid.store, Normal(end));
      GuardedIsAccurate(runtimeNames, guards, s, st, store, mid);
      RunKeepsAccuracy(runtimeNames, guards, finalbody, BeforeFinally(runtimeNames, s, st), mid.store, end);
    case With(_, _, _) =>
      WithKeepsAccuracy(runtimeNames, guards, s, st, store, end);
    case Match(_) =>
      MatchKeepsAccuracy(runtimeNames, guards, s, st, store, end);
  }

  lemma UnbindKeepsAccuracy(runtimeNames: set<Name>, guards: iset<Name>, names: seq<Name>, st: ScopeState, store: Store, end: Store)
    requires AccurateOn(guards, st, store) && Unbinds(names, store, Normal(end))
    ensures AccurateOn(guards, st.UnbindNames(runtimeNames, names), end)
  {
    assert names[..|names|] == names;
    UnbindLookups(st, runtimeNames, names);
    forall n | n in guards && st.UnbindNames(runtimeNames, names).GuardName(n).Some?
      ensures n in end && end[n] == st.UnbindNames(runtimeNames, names).GuardName(n)
    {
      assert st.GuardName(n).Some? && n !in NameSet(names);
    }
  }

  lemma {:induction false} LoopKeepsAccuracy(runtimeNames: set<Name>, guards: iset<Name>, s: Stmt, st: ScopeState, store: Store, end: Store)
    requires (s.For? || s.While?) && SteadyStmt(runtimeNames, guards, s, st) && st.Tidy(runtimeNames) && AccurateOn(guards, st, store)
    requires RunsLoop(s, store, Normal(end))
    ensures AccurateOn(guards, AfterStmt(runtimeNames, s, st), end)
    decreases s, 0
  {
    var exit := LoopExit(runtimeNames, s, st);
    StmtStaysTidy(runtimeNames, s, st);
    var heads :| Iterations(s, heads) && heads[0] == store && LeavesLoop(s, heads[|heads| - 1], Normal(end));
    HeadsAreAccurate(runtimeNames, guards, s, st, heads);
    RunKeepsAccuracy(runtimeNames, guards, s.orelse, exit, heads[|heads| - 1], end);
    AccurateBelow(guards, After(runtimeNames, s.orelse, exit), end, AfterStmt(runtimeNames, s, st), end);
  }

  lemma {:induction false} WithKeepsAccuracy(runtimeNames: set<Name>, guards: iset<Name>, s: Stmt, st: ScopeState, store: Store, end: Store)
    requires s.With? && SteadyStmt(runtimeNames, guards, s, st) && st.Tidy(runtimeNames) && AccurateOn(guards, st, store)
    requires RunsStmt(s, store, Normal(end))
    ensures AccurateOn(guards, AfterStmt(runtimeNames, s, st), end)
    decreases s, 0
  {
    var entry := st.BindNames(s.targets, None);
    var entered, mid :|
      Assigned(store, entered, NameSet(s.targets), Opaque) && Runs(s.body, entered, mid) && mid.store == end && (mid.Raised? ==> s.suppresses);
    NamesKeepTidy(runtimeNames, st, s.targets, None);
    AccurateOnEntry(guards, st, s.targets, store, entered);
    if mid.Normal? {
      RunKeepsAccuracy(runtimeNames, guards, s.body, entry, entered, end);
    } else {
      UntouchedGuards(runtimeNames, guards, s.body, entry, entered, mid);
    }
  }

  /** A value that the audit takes for a guard, or a way to one, evaluates to it. */
  lemma ValueIsAccurate(runtimeNames: set<Name>, guards: iset<Name>, value: BoundValue, st: ScopeState, store: Store)
    requires AccurateOn(guards, st, store) && (value.CopyOf? ==> value.ref.root in guards)
    ensures var canonical := st.ValueName(runtimeNames, value);
      GuardPart(canonical).Some? ==> forall v :: Yields(value, store, v) ==> v == canonical
  {
    match value
    case Opaque =>
    case Imported(_) =>
    case CopyOf(ref) =>
      if GuardPart(st.CanonicalName(runtimeNames, ref)).Some? {
        GuardPath(st.resolved[ref.root], ref.suffix);
        assert st.GuardName(ref.root).Some?;
      }
    case CallOf(ref) =>
      forall factory | factory in FACTORIES ensures GuardPart(Some(factory + ".instance")) == None { NoInstanceIsAGuard(factory); }
  }

  lemma BindKeepsAccuracy(runtimeNames: set<Name>, guards: iset<Name>, names: seq<Name>, value: BoundValue, st: ScopeState, store: Store, end: Store)
    requires FromGuards(guards, names, value) && AccurateOn(guards, st, store) && Binds(names, value, store, Normal(end))
    ensures AccurateOn(guards, st.BindNames(names, st.ValueName(runtimeNames, value)), end)
  {
    var canonical := st.ValueName(runtimeNames, value);
    var after := st.BindNames(names, canonical);
    assert names[..|names|] == names;
    BindLookups(st, names, canonical);
    forall n | n in guards && after.GuardName(n).Some?
      ensures n in end && end[n] == after.GuardName(n)
    {
      assert after.Lookup(n) == if n in names then canonical else st.Lookup(n);
      if n in names {
        assert n in NameSet(names) && Yields(value, store, end[n]);
        ValueIsAccurate(runtimeNames, guards, value, st, store);
      } else {
        assert st.GuardName(n).Some?;
      }
    }
  }

  /** Of a body cut short, what is known behind it is right if nothing touched is known. */
  lemma UntouchedGuards(runtimeNames: set<Name>, guards: iset<Name>, statements: seq<Stmt>, st: ScopeState, store: Store, o: Outcome)
    requires st.Tidy(runtimeNames) && AccurateOn(guards, st, store) && Runs(statements, store, o)
    requires NoneKnown(guards, After(runtimeNames, statements, st), Touched(statements))
    ensures AccurateOn(guards, After(runtimeNames, statements, st), o.store)
  {
    forall n | n in guards && After(runtimeNames, statements, st).GuardName(n).Some?
      ensures n in o.store && o.store[n] == After(runtimeNames, statements, st).GuardName(n)
    {
      UntouchedKept(runtimeNames, statements, st, n);
      UntouchedStay(statements, store, o, n);
      assert st.GuardName(n).Some?;
    }
  }

  lemma PassKeepsAccuracy(guards: iset<Name>, s: Stmt, st: ScopeState, head: Store, next: Store)
    requires (s.For? || s.While?) && NoneKnown(guards, st, NameSet(Targets(s)) + Touched(s.body))
    requires AccurateOn(guards, st, head) && RunsBody(s, head, Normal(next))
    ensures AccurateOn(guards, st, next)
  {
    var entered :| Assigned(head, entered, NameSet(Targets(s)), Opaque) && Runs(s.body, entered, Normal(next));
    forall n | n in guards && st.GuardName(n).Some?
      ensures n in next && next[n] == st.GuardName(n)
    {
      UntouchedStay(s.body, entered, Normal(next), n);
    }
  }

  lemma HeadsAreAccurate(runtimeNames: set<Name>, guards: iset<Name>, s: Stmt, st: ScopeState, heads: seq<Store>)
    requires (s.For? || s.While?) && SteadyStmt(runtimeNames, guards, s, st) && st.Tidy(runtimeNames)
    requires Iterations(s, heads) && AccurateOn(guards, st, heads[0])
    ensures forall i :: 0 <= i < |heads| ==> AccurateOn(guards, st, heads[i]) && AccurateOn(guards, LoopExit(runtimeNames, s, st), heads[i])
  {
    assert NoneKnown(guards, st, NameSet(Targets(s)) + Touched(s.body));
    for i := 1 to |heads|
      invariant forall j :: 0 <= j < i ==> AccurateOn(guards, st, heads[j])
    {
      assert RunsBody(s, heads[i - 1], Normal(heads[i]));
      PassKeepsAccuracy(guards, s, st, heads[i - 1], heads[i]);
    }
    forall i | 0 <= i < |heads|
      ensures AccurateOn(guards, LoopExit(runtimeNames, s, st), heads[i])
    {
      AccurateBelow(guards, st, heads[i], LoopExit(runtimeNames, s, st), heads[i]);
    }
  }

  /** Once the guarded parts of a try statement are left, in whatever way, the merged state is right. */
  lemma GuardedIsAccurate(runtimeNames: set<Name>, guards: iset<Name>, s: Stmt, st: ScopeState, store: Store, mid: Outcome)
    requires s.Try? && SteadyStmt(runtimeNames, guards, s, st) && AccurateOn(guards, st, store) && RunsGuarded(s, store, mid)
    ensures AccurateOn(guards, BeforeFinally(runtimeNames, s, st), mid.store)
  {
    var completed := After(runtimeNames, s.orelse, After(runtimeNames, s.body, st));
    MergeAllBelow([st, completed] + HandlerStates(runtimeNames, s.handlers, st), 0);
    forall n | n in guards && st.GuardName(n).Some?
      ensures SameAt(n, store, mid.store)
    {
      UntouchedStaysGuarded(s, store, mid, n);
    }
    AccurateBelow(guards, st, store, BeforeFinally(runtimeNames, s, st), mid.store);
  }

  lemma AccurateOnTrying(guards: iset<Name>, st: ScopeState, cases: seq<Case>, extra: set<Name>, store: Store, tried: Store)
    requires AccurateOn(guards, st, store) && NoneKnown(guards, st, CaseNames(cases))
    requires extra <= CaseNames(cases) && Assigned(store, tried, extra, Opaque)
    ensures AccurateOn(guards, st, tried)
  {
  }

  lemma {:induction false} CaseKeepsAccuracy(runtimeNames: set<Name>, guards: iset<Name>, cases: seq<Case>, i: nat, st: ScopeState, tried: Store, end: Store)
    requires i < |cases| && Steady(runtimeNames, guards, cases[i].body, st.BindNames(cases[i].names, None))
    requires st.Tidy(runtimeNames) && AccurateOn(guards, st, tried) && RunsCase(cases[i], tried, Normal(end))
    ensures AccurateOn(guards, After(runtimeNames, cases[i].body, st.BindNames(cases[i].names, None)), end)
    decreases cases, 0
  {
    var entered :| Assigned(tried, entered, NameSet(cases[i].names), Opaque) && Runs(cases[i].body, entered, Normal(end));
    NamesKeepTidy(runtimeNames, st, cases[i].names, None);
    AccurateOnEntry(guards, st, cases[i].names, tried, entered);
    RunKeepsAccuracy(runtimeNames, guards, cases[i].body, st.BindNames(cases[i].names, None), entered, end);
  }

  lemma CaseBelow(runtimeNames: set<Name>, guards: iset<Name>, cases: seq<Case>, i: nat, st: ScopeState, end: Store)
    requires i < |cases| && AccurateOn(guards, After(runtimeNames, cases[i].body, st.BindNames(cases[i].names, None)), end)
    ensures AccurateOn(guards, MergeAll([st] + CaseStates(runtimeNames, cases, st)), end)
  {
    var states := [st] + CaseStates(runtimeNames, cases, st);
    CaseStateAt(runtimeNames, cases, st, i);
    MergeAllBelow(states, i + 1);
    AccurateBelow(guards, states[i + 1], end, MergeAll(states), end);
  }

  lemma {:induction false} MatchKeepsAccuracy(runtimeNames: set<Name>, guards: iset<Name>, s: Stmt, st: ScopeState, store: Store, end: Store)
    requires s.Match? && SteadyStmt(runtimeNames, guards, s, st) && st.Tidy(runtimeNames) && AccurateOn(guards, st, store)
    requires RunsStmt(s, store, Normal(end))
    ensures AccurateOn(guards, AfterStmt(runtimeNames, s, st), end)
    decreases s, 0
  {
    var cases, states := s.cases, [st] + CaseStates(runtimeNames, s.cases, st);
    var extra, tried :| extra <= CaseNames(cases) && Assigned(store, tried, extra, Opaque) &&
      (Normal(end) == Normal(tried) || exists i :: 0 <= i < |cases| && RunsCase(cases[i], tried, Normal(end)));
    AccurateOnTrying(guards, st, cases, extra, store, tried);
    if i :| 0 <= i < |cases| && RunsCase(cases[i], tried, Normal(end)) {
      CaseKeepsAccuracy(runtimeNames, guards, cases, i, st, tried, end);
      CaseBelow(runtimeNames, guards, cases, i, st, end);
    } else {
      MergeAllBelow(states, 0);
      AccurateBelow(guards, st, tried, MergeAll(states), end);
    }
  }

  // ---------------------------------------------------------------------------------------------
  // Losing a name
  // ---------------------------------------------------------------------------------------------

  /** Live code unbinds the name: by `del`, or by leaving a handler that binds it. */
  predicate CanLose(runtimeNames: set<Name>, statements: seq<Stmt>, st: ScopeState, n: Name)
    decreases statements
  {
    statements != [] &&
      var front, last := statements[..|statements| - 1], statements[|statements| - 1];
      CanLose(runtimeNames, front, st, n) || StmtCanLose(runtimeNames, last, After(runtimeNames, front, st), n)
  }

  predicate StmtCanLose(runtimeNames: set<Name>, s: Stmt, st: ScopeState, n: Name)
    decreases s
  {
    match s
    case Bind(_, _) => false
    case Del(names) => n in names
    case If(test, body, orelse) =>
      || (st.Truth(runtimeNames, test) != Some(false) && CanLose(runtimeNames, body, st, n))
      || (st.Truth(runtimeNames, test) != Some(true) && CanLose(runtimeNames, orelse, st, n))
    case For(_, body, orelse) =>
      CanLose(runtimeNames, body, LoopEntry(s, st), n) || CanLose(runtimeNames, orelse, LoopExit(runtimeNames, s, st), n)
    case While(body, orelse) =>
      CanLose(runtimeNames, body, LoopEntry(s, st), n) || CanLose(runtimeNames, orelse, LoopExit(runtimeNames, s, st), n)
    case Try(body, handlers, orelse, finalbody) =>
      || CanLose(runtimeNames, body, st, n)
      || CanLose(runtimeNames, orelse, After(runtimeNames, body, st), n)
      || CanLose(runtimeNames, finalbody, BeforeFinally(runtimeNames, s, st), n)
      || exists i :: 0 <= i < |handlers| && HandlerCanLose(runtimeNames, handlers[i], st, n)
    case With(targets, _, body) => CanLose(runtimeNames, body, st.BindNames(targets, None), n)
    case Match(cases) => exists i :: 0 <= i < |cases| && CanLose(runtimeNames, cases[i].body, st.BindNames(cases[i].names, None), n)
  }

  predicate HandlerCanLose(runtimeNames: set<Name>, h: Handler, st: ScopeState, n: Name)
    decreases h
  {
    h.name == Some(n) || CanLose(runtimeNames, h.body, HandlerEntry(h, st), n)
  }

  /** Code that cannot lose a name keeps it bound, however its run ends. */
  lemma {:induction false} NeverUnbound(runtimeNames: set<Name>, guards: iset<Name>, statements: seq<Stmt>, st: ScopeState, n: Name, store: Store, o: Outcome)
    requires Steady(runtimeNames, guards, statements, st) && st.Tidy(runtimeNames) && AccurateOn(guards, st, store)
    requires !CanLose(runtimeNames, statements, st, n) && n in store && Runs(statements, store, o)
    ensures n in o.store
    decreases statements
  {
    if statements == [] {
    } else {
      var front, last := statements[..|statements| - 1], statements[|statements| - 1];
      if o.Raised? && Runs(front, store, o) {
        NeverUnbound(runtimeNames, guards, front, st, n, store, o);
      } else {
        var mid :| Runs(front, store, Normal(mid)) && (RunsStmt(last, mid, o) || (o.Raised? && RunsStmt(last, mid, Normal(o.store))));
        NeverUnbound(runtimeNames, guards, front, st, n, store, Normal(mid));
        RunKeepsAccuracy(runtimeNames, guards, front, st, store, mid);
        StaysTidy(runtimeNames, front, st);
        StmtNeverUnbound(runtimeNames, guards, last, After(runtimeNames, front, st), n, mid, if RunsStmt(last, mid, o) then o else Normal(o.store));
      }
    }
  }

  lemma {:induction false} StmtNeverUnbound(runtimeNames: set<Name>, guards: iset<Name>, s: Stmt, st: ScopeState, n: Name, store: Store, o: Outcome)
    requires SteadyStmt(runtimeNames, guards, s, st) && st.Tidy(runtimeNames) && AccurateOn(guards, st, store)
    requires !StmtCanLose(runtimeNames, s, st, n) && n in store && RunsStmt(s, store, o)
    ensures n in o.store
    decreases s, 1
  {
    StmtStaysTidy(runtimeNames, s, st);
    if !(o.Raised? && o.store == store) {
      match s
      case Bind(_, _) =>
      case Del(names) =>
        PrefixNames(names);
      case If(test, body, orelse) =>
        if May(test, store, true) && Runs(body, store, o) {
          DecidedBranch(runtimeNames, guards, test, st, store, true);
          NeverUnbound(runtimeNames, guards, body, st, n, store, o);
        } else {
          DecidedBranch(runtimeNames, guards, test, st, store, false);
          NeverUnbound(runtimeNames, guards, orelse, st, n, store, o);
        }
      case For(_, _, _) =>
        LoopNeverUnbound(runtimeNames, guards, s, st, n, store, o);
      case While(_, _) =>
        LoopNeverUnbound(runtimeNames, guards, s, st, n, store, o);
      case Try(_, _, _, finalbody) =>
        var mid :| RunsGuarded(s, store, mid) &&
          if mid.Normal? then Runs(finalbody, mid.store, o)
          else o.Raised? && (Runs(finalbody, mid.store, o) || Runs(finalbody, mid.store, Normal(o.store)));
        GuardedNeverUnbound(runtimeNames, guards, s, st, n, store, mid);
        GuardedIsAccurate(runtimeNames, guards, s, st, store, mid);
        NeverUnbound(runtimeNames, guards, finalbody, BeforeFinally(runtimeNames, s, st), n, mid.store,
                     if Runs(finalbody, mid.store, o) then o else Normal(o.store));
      case With(_, _, _) =>
        WithNeverUnbound(runtimeNames, guards, s, st, n, store, o);
      case Match(_) =>
        MatchNeverUnbound(runtimeNames, guards, s, st, n, store, o);
    }
  }

  lemma {:induction false} WithNeverUnbound(runtimeNames: set<Name>, guards: iset<Name>, s: Stmt, st: ScopeState, n: Name, store: Store, o: Outcome)
    requires s.With? && SteadyStmt(runtimeNames, guards, s, st) && st.Tidy(runtimeNames) && AccurateOn(guards, st, store)
    requires !StmtCanLose(runtimeNames, s, st, n) && n in store && RunsStmt(s, store, o)
    ensures n in o.store
    decreases s, 0
  {
    if entered, mid :| Assigned(store, entered, NameSet(s.targets), Opaque) && Runs(s.body, entered, mid) && mid.store == o.store {
      NamesKeepTidy(runtimeNames, st, s.targets, None);
      AccurateOnEntry(guards, st, s.targets, store, entered);
      NeverUnbound(runtimeNames, guards, s.body, st.BindNames(s.targets, None), n, entered, mid);
    }
  }

  lemma {:induction false} MatchNeverUnbound(runtimeNames: set<Name>, guards: iset<Name>, s: Stmt, st: ScopeState, n: Name, store: Store, o: Outcome)
    requires s.Match? && SteadyStmt(runtimeNames, guards, s, st) && st.Tidy(runtimeNames) && AccurateOn(guards, st, store)
    requires !StmtCanLose(runtimeNames, s, st, n) && n in store && RunsStmt(s, store, o) && !(o.Raised? && o.store == store)
    ensures n in o.store
    decreases s, 0
  {
    var cases := s.cases;
    var extra, tried :| extra <= CaseNames(cases) && Assigned(store, tried, extra, Opaque) &&
      (o == Normal(tried) || o == Raised(tried) || exists i :: 0 <= i < |cases| && RunsCase(cases[i], tried, o));
    AccurateOnTrying(guards, st, cases, extra, store, tried);
    if i :| 0 <= i < |cases| && RunsCase(cases[i], tried, o) {
      CaseNeverUnbound(runtimeNames, guards, cases[i], st, n, tried, o);
    }
  }

  lemma {:induction false} CaseNeverUnbound(runtimeNames: set<Name>, guards: iset<Name>, c: Case, st: ScopeState, n: Name, tried: Store, o: Outcome)
    requires Steady(runtimeNames, guards, c.body, st.BindNames(c.names, None)) && st.Tidy(runtimeNames) && AccurateOn(guards, st, tried)
    requires !CanLose(runtimeNames, c.body, st.BindNames(c.names, None), n) && n in tried && RunsCase(c, tried, o)
    ensures n in o.store
    decreases c
  {
    var entered :| Assigned(tried, entered, NameSet(c.names), Opaque) && Runs(c.body, entered, o);
    NamesKeepTidy(runtimeNames, st, c.names, None);
    AccurateOnEntry(guards, st, c.names, tried, entered);
    NeverUnbound(runtimeNames, guards, c.body, st.BindNames(c.names, None), n, entered, o);
  }

  lemma {:induction false} LoopNeverUnbound(runtimeNames: set<Name>, guards: iset<Name>, s: Stmt, st: ScopeState, n: Name, store: Store, o: Outcome)
    requires s.For? || s.While?
    requires SteadyStmt(runtimeNames, guards, s, st) && st.Tidy(runtimeNames) && AccurateOn(guards, st, store)
    requires !StmtCanLose(runtimeNames, s, st, n) && n in store && RunsLoop(s, store, o)
    ensures n in o.store
    decreases s, 0
  {
    StmtStaysTidy(runtimeNames, s, st);
    var heads :| Iterations(s, heads) && heads[0] == store && LeavesLoop(s, heads[|heads| - 1], o);
    HeadsAreAccurate(runtimeNames, guards, s, st, heads);
    for i := 1 to |heads|
      invariant n in heads[i - 1]
    {
      assert RunsBody(s, heads[i - 1], Normal(heads[i]));
      BodyNeverUnbound(runtimeNames, guards, s, st, n, heads[i - 1], Normal(heads[i]));
    }
    var head := heads[|heads| - 1];
    if Runs(s.orelse, head, o) {
      NeverUnbound(runtimeNames, guards, s.orelse, LoopExit(runtimeNames, s, st), n, head, o);
    } else if RunsBody(s, head, o) {
      BodyNeverUnbound(runtimeNames, guards, s, st, n, head, o);
    }
  }

  lemma {:induction false} BodyNeverUnbound(runtimeNames: set<Name>, guards: iset<Name>, s: Stmt, st: ScopeState, n: Name, head: Store, o: Outcome)
    requires s.For? || s.While?
    requires SteadyStmt(runtimeNames, guards, s, st) && st.Tidy(runtimeNames) && AccurateOn(guards, st, head)
    requires !StmtCanLose(runtimeNames, s, st, n) && n in head && RunsBody(s, head, o)
    ensures n in o.store
    decreases s, 0, 0
  {
    StmtStaysTidy(runtimeNames, s, st);
    var entered :| Assigned(head, entered, NameSet(Targets(s)), Opaque) && Runs(s.body, entered, o);
    AccurateOnEntry(guards, st, Targets(s), head, entered);
    NeverUnbound(runtimeNames, guards, s.body, LoopEntry(s, st), n, entered, o);
  }

  lemma {:induction false} GuardedNeverUnbound(runtimeNames: set<Name>, guards: iset<Name>, s: Stmt, st: ScopeState, n: Name, store: Store, o: Outcome)
    requires s.Try? && SteadyStmt(runtimeNames, guards, s, st) && st.Tidy(runtimeNames) && AccurateOn(guards, st, store)
    requires !StmtCanLose(runtimeNames, s, st, n) && n in store && RunsGuarded(s, store, o)
    ensures n in o.store
    decreases s, 0
  {
    if mid :| Runs(s.body, store, Normal(mid)) && Runs(s.orelse, mid, o) {
      NeverUnbound(runtimeNames, guards, s.body, st, n, store, Normal(mid));
      RunKeepsAccuracy(runtimeNames, guards, s.body, st, store, mid);
      StaysTidy(runtimeNames, s.body, st);
      NeverUnbound(runtimeNames, guards, s.orelse, After(runtimeNames, s.body, st), n, mid, o);
    } else if o.Raised? && Runs(s.body, store, o) {
      NeverUnbound(runtimeNames, guards, s.body, st, n, store, o);
    } else {
      var mid, i :| 0 <= i < |s.handlers| && Runs(s.body, store, Raised(mid)) && RunsHandler(s.handlers[i], mid, o);
      NeverUnbound(runtimeNames, guards, s.body, st, n, store, Raised(mid));
      RaisedBodyIsAccurate(guards, s, st, store, mid);
      HandlerNeverUnbound(runtimeNames, guards, s.handlers[i], st, n, mid, o);
    }
  }

  lemma RaisedBodyIsAccurate(guards: iset<Name>, s: Stmt, st: ScopeState, store: Store, mid: Store)
    requires s.Try? && NoneKnown(guards, st, Touched(s.body)) && AccurateOn(guards, st, store) && Runs(s.body, store, Raised(mid))
    ensures AccurateOn(guards, st, mid)
  {
    forall n | n in guards && st.GuardName(n).Some?
      ensures SameAt(n, store, mid)
    {
      UntouchedStay(s.body, store, Raised(mid), n);
    }
  }

  lemma {:induction false} HandlerNeverUnbound(runtimeNames: set<Name>, guards: iset<Name>, h: Handler, st: ScopeState, n: Name, store: Store, o: Outcome)
    requires Steady(runtimeNames, guards, h.body, HandlerEntry(h, st)) && st.Tidy(runtimeNames) && AccurateOn(guards, st, store)
    requires !HandlerCanLose(runtimeNames, h, st, n) && n in store && RunsHandler(h, store, o)
    ensures n in o.store
    decreases h
  {
    match h.name
    case None =>
      NeverUnbound(runtimeNames, guards, h.body, st, n, store, o);
    case Some(m) =>
      var entered, inner :| Assigned(store, entered, {m}, Opaque) && Runs(h.body, entered, inner) && o == inner.Without(m);
      assert AccurateOn(guards, HandlerEntry(h, st), entered);
      NeverUnbound(runtimeNames, guards, h.body, HandlerEntry(h, st), n, entered, inner);
  }

  // ---------------------------------------------------------------------------------------------
  // Runs respect the transfer
  // ---------------------------------------------------------------------------------------------

  /** No handled try body can lose the name, and no context manager swallows exceptions. */
  ghost predicate Guarded(runtimeNames: set<Name>, statements: seq<Stmt>, st: ScopeState, n: Name)
    decreases statements
  {
    statements != [] ==>
      var front, last := statements[..|statements| - 1], statements[|statements| - 1];
      Guarded(runtimeNames, front, st, n) && StmtGuarded(runtimeNames, last, After(runtimeNames, front, st), n)
  }

  ghost predicate StmtGuarded(runtimeNames: set<Name>, s: Stmt, st: ScopeState, n: Name)
    decreases s
  {
    match s
    case Bind(_, _) => true
    case Del(_) => true
    case If(test, body, orelse) =>
      && (st.Truth(runtimeNames, test) != Some(false) ==> Guarded(runtimeNames, body, st, n))
      && (st.Truth(runtimeNames, test) != Some(true) ==> Guarded(runtimeNames, orelse, st, n))
    case For(_, body, orelse) =>
      Guarded(runtimeNames, body, LoopEntry(s, st), n) && Guarded(runtimeNames, orelse, LoopExit(runtimeNames, s, st), n)
    case While(body, orelse) =>
      Guarded(runtimeNames, body, LoopEntry(s, st), n) && Guarded(runtimeNames, orelse, LoopExit(runtimeNames, s, st), n)
    case Try(body, handlers, orelse, finalbody) =>
      && (handlers != [] ==> !CanLose(runtimeNames, body, st, n))
      && Guarded(runtimeNames, body, st, n) && Guarded(runtimeNames, orelse, After(runtimeNames, body, st), n)
      && Guarded(runtimeNames, finalbody, BeforeFinally(runtimeNames, s, st), n)
      && forall i :: 0 <= i < |handlers| ==> Guarded(runtimeNames, handlers[i].body, HandlerEntry(handlers[i], st), n)
    case With(targets, suppresses, body) => !suppresses && Guarded(runtimeNames, body, st.BindNames(targets, None), n)
    case Match(cases) => forall i :: 0 <= i < |cases| ==> Guarded(runtimeNames, cases[i].body, st.BindNames(cases[i].names, None), n)
  }

  /** A completed run does to every guarded name at least what the audit says. */
  lemma {:induction false} RunRespectsEffect(runtimeNames: set<Name>, guards: iset<Name>, statements: seq<Stmt>, st: ScopeState, n: Name, store: Store, end: Store)
    requires Steady(runtimeNames, guards, statements, st) && st.Tidy(runtimeNames) && AccurateOn(guards, st, store)
    requires Guarded(runtimeNames, statements, st, n) && Runs(statements, store, Normal(end))
    ensures EffectOfAll(runtimeNames, statements, st, n).Apply(n in store) ==> n in end
    decreases statements
  {
    if statements == [] {
    } else {
      var front, last := statements[..|statements| - 1], statements[|statements| - 1];
      var mid :| Runs(front, store, Normal(mid)) && RunsStmt(last, mid, Normal(end));
      RunRespectsEffect(runtimeNames, guards, front, st, n, store, mid);
      RunKeepsAccuracy(runtimeNames, guards, front, st, store, mid);
      StaysTidy(runtimeNames, front, st);
      StmtRespectsEffect(runtimeNames, guards, last, After(runtimeNames, front, st), n, mid, end);
    }
  }

  lemma {:induction false} StmtRespectsEffect(runtimeNames: set<Name>, guards: iset<Name>, s: Stmt, st: ScopeState, n: Name, store: Store, end: Store)
    requires SteadyStmt(runtimeNames, guards, s, st) && st.Tidy(runtimeNames) && AccurateOn(guards, st, store)
    requires StmtGuarded(runtimeNames, s, st, n) && RunsStmt(s, store, Normal(end))
    ensures EffectOf(runtimeNames, s, st, n).Apply(n in store) ==> n in end
    decreases s, 1
  {
    StmtStaysTidy(runtimeNames, s, st);
    match s
    case Bind(names, _) =>
      assert names[..|names|] == names;
    case Del(names) =>
      assert names[..|names|] == names;
    case If(test, body, orelse) =>
      if May(test, store, true) && Runs(body, store, Normal(end)) {
        DecidedBranch(runtimeNames, guards, test, st, store, true);
        RunRespectsEffect(runtimeNames, guards, body, st, n, store, end);
      } else {
        DecidedBranch(runtimeNames, guards, test, st, store, false);
        RunRespectsEffect(runtimeNames, guards, orelse, st, n, store, end);
      }
    case For(_, _, _) =>
      LoopRespectsEffect(runtimeNames, guards, s, st, n, store, end);
    case While(_, _) =>
      LoopRespectsEffect(runtimeNames, guards, s, st, n, store, end);
    case Try(_, _, _, finalbody) =>
      var mid :| RunsGuarded(s, store, mid) && mid.Normal? && Runs(finalbody, mid.store, Normal(end));
      TryRespectsEffect(runtimeNames, guards, s, st, n, store, mid.store);
      GuardedIsAccurate(runtimeNames, guards, s, st, store, mid);
      RunRespectsEffect(runtimeNames, guards, finalbody, BeforeFinally(runtimeNames, s, st), n, mid.store, end);
    case With(_, _, _) =>
      WithRespectsEffect(runtimeNames, guards, s, st, n, store, end);
    case Match(_) =>
      MatchRespectsEffect(runtimeNames, guards, s, st, n, store, end);
  }

  lemma {:induction false} WithRespectsEffect(runtimeNames: set<Name>, guards: iset<Name>, s: Stmt, st: ScopeState, n: Name, store: Store, end: Store)
    requires s.With? && SteadyStmt(runtimeNames, guards, s, st) && st.Tidy(runtimeNames) && AccurateOn(guards, st, store)
    requires StmtGuarded(runtimeNames, s, st, n) && RunsStmt(s, store, Normal(end))
    ensures EffectOf(runtimeNames, s, st, n).Apply(n in store) ==> n in end
    decreases s, 0
  {
    var entered :| Assigned(store, entered, NameSet(s.targets), Opaque) && Runs(s.body, entered, Normal(end));
    NamesKeepTidy(runtimeNames, st, s.targets, None);
    AccurateOnEntry(guards, st, s.targets, store, entered);
    RunRespectsEffect(runtimeNames, guards, s.body, st.BindNames(s.targets, None), n, entered, end);
  }

  /** Any number of iterations: what one pass promises holds at every loop head. */
  lemma {:induction false} LoopRespectsEffect(runtimeNames: set<Name>, guards: iset<Name>, s: Stmt, st: ScopeState, n: Name, store: Store, end: Store)
    requires s.For? || s.While?
    requires SteadyStmt(runtimeNames, guards, s, st) && st.Tidy(runtimeNames) && AccurateOn(guards, st, store)
    requires StmtGuarded(runtimeNames, s, st, n) && RunsLoop(s, store, Normal(end))
    ensures EffectOf(runtimeNames, s, st, n).Apply(n in store) ==> n in end
    decreases s, 0
  {
    StmtStaysTidy(runtimeNames, s, st);
    var heads :| Iterations(s, heads) && heads[0] == store && LeavesLoop(s, heads[|heads| - 1], Normal(end));
    HeadsAreAccurate(runtimeNames, guards, s, st, heads);
    for i := 1 to |heads|
      invariant LoopEffect(runtimeNames, s, st, n).Apply(n in store) ==> n in heads[i - 1]
    {
      assert RunsBody(s, heads[i - 1], Normal(heads[i]));
      var entered :| Assigned(heads[i - 1], entered, NameSet(Targets(s)), Opaque) && Runs(s.body, entered, Normal(heads[i]));
      AccurateOnEntry(guards, st, Targets(s), heads[i - 1], entered);
      RunRespectsEffect(runtimeNames, guards, s.body, LoopEntry(s, st), n, entered, heads[i]);
    }
    RunRespectsEffect(runtimeNames, guards, s.orelse, LoopExit(runtimeNames, s, st), n, heads[|heads| - 1], end);
  }

  lemma {:induction false} TryRespectsEffect(runtimeNames: set<Name>, guards: iset<Name>, s: Stmt, st: ScopeState, n: Name, store: Store, end: Store)
    requires s.Try? && SteadyStmt(runtimeNames, guards, s, st) && st.Tidy(runtimeNames) && AccurateOn(guards, st, store)
    requires StmtGuarded(runtimeNames, s, st, n) && RunsGuarded(s, store, Normal(end))
    ensures GuardedEffect(runtimeNames, s, st, n).Apply(n in store) ==> n in end
    decreases s, 0
  {
    HandlersArePerName(runtimeNames, s.handlers, st, n);
    if mid :| Runs(s.body, store, Normal(mid)) && Runs(s.orelse, mid, Normal(end)) {
      RunRespectsEffect(runtimeNames, guards, s.body, st, n, store, mid);
      RunKeepsAccuracy(runtimeNames, guards, s.body, st, store, mid);
      StaysTidy(runtimeNames, s.body, st);
      RunRespectsEffect(runtimeNames, guards, s.orelse, After(runtimeNames, s.body, st), n, mid, end);
    } else {
      var mid, i :| 0 <= i < |s.handlers| && Runs(s.body, store, Raised(mid)) && RunsHandler(s.handlers[i], mid, Normal(end));
      if n in store {
        NeverUnbound(runtimeNames, guards, s.body, st, n, store, Raised(mid));
        RaisedBodyIsAccurate(guards, s, st, store, mid);
        HandlerCounts(runtimeNames, s.handlers, st, n, i);
        HandlerRespectsEffect(runtimeNames, guards, s.handlers[i], st, n, mid, end);
      }
    }
  }

  lemma {:induction false} HandlerRespectsEffect(runtimeNames: set<Name>, guards: iset<Name>, h: Handler, st: ScopeState, n: Name, store: Store, end: Store)
    requires Steady(runtimeNames, guards, h.body, HandlerEntry(h, st)) && st.Tidy(runtimeNames) && AccurateOn(guards, st, store)
    requires Guarded(runtimeNames, h.body, HandlerEntry(h, st), n) && RunsHandler(h, store, Normal(end))
    ensures HandlerEffect(runtimeNames, h, st, n).Apply(n in store) ==> n in end
    decreases h
  {
    match h.name
    case None =>
      RunRespectsEffect(runtimeNames, guards, h.body, st, n, store, end);
    case Some(m) =>
      var entered, inner :| Assigned(store, entered, {m}, Opaque) && Runs(h.body, entered, inner) && Normal(end) == inner.Without(m);
      assert inner == Normal(inner.store);
      assert AccurateOn(guards, HandlerEntry(h, st), entered);
      RunRespectsEffect(runtimeNames, guards, h.body, HandlerEntry(h, st), n, entered, inner.store);
  }

  /** The meet over the handlers is at most what each handler does. */
  lemma {:induction false} HandlerCounts(runtimeNames: set<Name>, handlers: seq<Handler>, st: ScopeState, n: Name, i: nat)
    requires i < |handlers|
    ensures HandlersEffect(runtimeNames, handlers, st, n).Apply(true) ==> HandlerEffect(runtimeNames, handlers[i], st, n).Apply(true)
    decreases handlers
  {
    if i == |handlers| - 1 {
    } else {
      HandlerCounts(runtimeNames, handlers[..|handlers| - 1], st, n, i);
    }
  }

  lemma {:induction false} CaseCounts(runtimeNames: set<Name>, cases: seq<Case>, st: ScopeState, n: Name, i: nat)
    requires i < |cases|
    ensures CasesEffect(runtimeNames, cases, st, n).Apply(true) ==> CaseEffect(runtimeNames, cases[i], st, n).Apply(true)
    decreases cases
  {
    if i == |cases| - 1 {
    } else {
      CaseCounts(runtimeNames, cases[..|cases| - 1], st, n, i);
    }
  }

  lemma {:induction false} MatchRespectsEffect(runtimeNames: set<Name>, guards: iset<Name>, s: Stmt, st: ScopeState, n: Name, store: Store, end: Store)
    requires s.Match? && SteadyStmt(runtimeNames, guards, s, st) && st.Tidy(runtimeNames) && AccurateOn(guards, st, store)
    requires StmtGuarded(runtimeNames, s, st, n) && RunsStmt(s, store, Normal(end))
    ensures EffectOf(runtimeNames, s, st, n).Apply(n in store) ==> n in end
    decreases s, 0
  {
    var cases := s.cases;
    CasesArePerName(runtimeNames, cases, st, n);
    var extra, tried :| extra <= CaseNames(cases) && Assigned(store, tried, extra, Opaque) &&
      (Normal(end) == Normal(tried) || exists i :: 0 <= i < |cases| && RunsCase(cases[i], tried, Normal(end)));
    AccurateOnTrying(guards, st, cases, extra, store, tried);
    if i :| 0 <= i < |cases| && RunsCase(cases[i], tried, Normal(end)) {
      var entered :| Assigned(tried, entered, NameSet(cases[i].names), Opaque) && Runs(cases[i].body, entered, Normal(end));
      NamesKeepTidy(runtimeNames, st, cases[i].names, None);
      AccurateOnEntry(guards, st, cases[i].names, tried, entered);
      CaseCounts(runtimeNames, cases, st, n, i);
      RunRespectsEffect(runtimeNames, guards, cases[i].body, st.BindNames(cases[i].names, None), n, entered, end);
    }
  }

  /**
   Definite binding is sound: when a run of the scope completes, every name the audit calls definitely
   bound is bound, for any number of loop iterations and any point at which a try body raises.  The name must be
   guarded, and what the audit knows of guards must stay right.
   */
  lemma DefiniteBindingIsSound(runtimeNames: set<Name>, guards: iset<Name>, program: seq<Stmt>, st: ScopeState, store: Store, end: Store, n: Name)
    requires st.Tidy(runtimeNames) && st.bound <= store.Keys && AccurateOn(guards, st, store) && Runs(program, store, Normal(end))
    requires Steady(runtimeNames, guards, program, st) && Guarded(runtimeNames, program, st, n)
    ensures n in After(runtimeNames, program, st).bound ==> n in end
  {
    TransferIsPerName(runtimeNames, program, st, n);
    RunRespectsEffect(runtimeNames, guards, program, st, n, store, end);
  }
}
