/** Whatever the structure of a program says may happen to a name does happen in some run. */
module BindingWitnesses {
  import opened Prelude
  import opened DefiniteBinding
  import opened BindingRuns
  import opened BindingTransfer
  import opened BindingSoundness
  import opened BindingExactness

  // ---------------------------------------------------------------------------------------------
  // Deletions
  // ---------------------------------------------------------------------------------------------

  /** No other name is deleted, whose deletion could fail and so cut a run short. */
  predicate DeletesOnly(statements: seq<Stmt>, n: Name)
    decreases statements
  {
    statements != [] ==> DeletesOnly(statements[..|statements| - 1], n) && StmtDeletesOnly(statements[|statements| - 1], n)
  }

  predicate StmtDeletesOnly(s: Stmt, n: Name)
    decreases s
  {
    match s
    case Bind(_, _) => true
    case Del(names) => names == [] || names == [n]
    case If(_, body, orelse) => DeletesOnly(body, n) && DeletesOnly(orelse, n)
    case For(_, body, orelse) => DeletesOnly(body, n) && DeletesOnly(orelse, n)
    case While(body, orelse) => DeletesOnly(body, n) && DeletesOnly(orelse, n)
    case Try(body, handlers, orelse, finalbody) =>
      && DeletesOnly(body, n) && DeletesOnly(orelse, n) && DeletesOnly(finalbody, n)
      && forall i :: 0 <= i < |handlers| ==> DeletesOnly(handlers[i].body, n)
    case With(_, _, body) => DeletesOnly(body, n)
    case Match(cases) => forall i :: 0 <= i < |cases| ==> DeletesOnly(cases[i].body, n)
  }

  // ---------------------------------------------------------------------------------------------
  // Guards that all ways through the code leave alike
  // ---------------------------------------------------------------------------------------------

  /** The guard names that the audit knows, and those that hold such an object at run time. */
  ghost function Knows(guards: iset<Name>, st: ScopeState): map<Name, string> {
    map n | n in st.resolved && n in guards && st.GuardName(n).Some? :: st.resolved[n]
  }

  ghost function Held(guards: iset<Name>, store: Store): map<Name, string> {
    map n | n in store && n in guards && GuardPart(store[n]).Some? :: store[n].value
  }

  /** The audit knows of the guard names exactly what is so at run time. */
  ghost predicate ExactOn(guards: iset<Name>, st: ScopeState, store: Store) {
    Knows(guards, st) == Held(guards, store)
  }

  /** A guard, or a way to one, where only the names held are known. */
  predicate IsGuardValue(held: map<Name, string>, value: BoundValue) {
    match value
    case Opaque => false
    case Imported(canonical) => canonical in GUARD_PATHS
    case CopyOf(ref) => ref.root in held && Dotted(held[ref.root], ref.suffix) in GUARD_PATHS
    case CallOf(_) => false
  }

  /** No guard name is bound to a guard, or to a way to one. */
  ghost predicate BindsNoGuard(guards: iset<Name>, held: map<Name, string>, statements: seq<Stmt>)
    decreases statements
  {
    statements != [] ==>
      BindsNoGuard(guards, held, statements[..|statements| - 1]) && StmtBindsNoGuard(guards, held, statements[|statements| - 1])
  }

  ghost predicate StmtBindsNoGuard(guards: iset<Name>, held: map<Name, string>, s: Stmt)
    decreases s
  {
    match s
    case Bind(names, value) => !IsGuardValue(held, value) || forall n :: n in names ==> n !in guards
    case Del(_) => true
    case If(_, body, orelse) => BindsNoGuard(guards, held, body) && BindsNoGuard(guards, held, orelse)
    case For(_, body, orelse) => BindsNoGuard(guards, held, body) && BindsNoGuard(guards, held, orelse)
    case While(body, orelse) => BindsNoGuard(guards, held, body) && BindsNoGuard(guards, held, orelse)
    case Try(body, handlers, orelse, finalbody) =>
      && BindsNoGuard(guards, held, body) && BindsNoGuard(guards, held, orelse) && BindsNoGuard(guards, held, finalbody)
      && forall i :: 0 <= i < |handlers| ==> BindsNoGuard(guards, held, handlers[i].body)
    case With(_, _, body) => BindsNoGuard(guards, held, body)
    case Match(cases) => forall i :: 0 <= i < |cases| ==> BindsNoGuard(guards, held, cases[i].body)
  }

  /** The statements touch none of the guards held and bind no other. */
  ghost predicate Quiet(guards: iset<Name>, held: map<Name, string>, statements: seq<Stmt>) {
    BindsNoGuard(guards, held, statements) && Touched(statements) !! held.Keys
  }

  ghost predicate StmtQuiet(guards: iset<Name>, held: map<Name, string>, s: Stmt) {
    StmtBindsNoGuard(guards, held, s) && TouchedBy(s) !! held.Keys
  }

  /**
   Where ways through the statements meet, they know the same of the guard names; where an exception may lead there,
   no guard name is bound to a guard on the way.
   */
  ghost predicate Uniform(runtimeNames: set<Name>, guards: iset<Name>, statements: seq<Stmt>, st: ScopeState)
    decreases statements
  {
    statements != [] ==>
      var front, last := statements[..|statements| - 1], statements[|statements| - 1];
      Uniform(runtimeNames, guards, front, st) && UniformStmt(runtimeNames, guards, last, After(runtimeNames, front, st))
  }

  ghost predicate UniformStmt(runtimeNames: set<Name>, guards: iset<Name>, s: Stmt, st: ScopeState)
    decreases s
  {
    match s
    case Bind(_, _) => true
    case Del(_) => true
    case If(test, body, orelse) =>
      && (st.Truth(runtimeNames, test) != Some(false) ==> Uniform(runtimeNames, guards, body, st))
      && (st.Truth(runtimeNames, test) != Some(true) ==> Uniform(runtimeNames, guards, orelse, st))
      && (st.Truth(runtimeNames, test).None? ==> AgreeOn(guards, After(runtimeNames, body, st), After(runtimeNames, orelse, st)))
    case For(_, body, orelse) =>
      var entry, exit := LoopEntry(s, st), LoopExit(runtimeNames, s, st);
      && Uniform(runtimeNames, guards, body, entry) && AgreeOn(guards, st, After(runtimeNames, body, entry))
      && Uniform(runtimeNames, guards, orelse, exit) && AgreeOn(guards, exit, After(runtimeNames, orelse, exit))
    case While(body, orelse) =>
      var exit := LoopExit(runtimeNames, s, st);
      && Uniform(runtimeNames, guards, body, st) && AgreeOn(guards, st, After(runtimeNames, body, st))
      && Uniform(runtimeNames, guards, orelse, exit) && AgreeOn(guards, exit, After(runtimeNames, orelse, exit))
    case Try(body, handlers, orelse, finalbody) =>
      var held := Knows(guards, st);
      && BindsNoGuard(guards, held, body) && BindsNoGuard(guards, held, orelse)
      && (forall i :: 0 <= i < |handlers| ==>
            BindsNoGuard(guards, held, handlers[i].body) && Uniform(runtimeNames, guards, handlers[i].body, HandlerEntry(handlers[i], st)))
      && Uniform(runtimeNames, guards, body, st) && Uniform(runtimeNames, guards, orelse, After(runtimeNames, body, st))
      && Uniform(runtimeNames, guards, finalbody, BeforeFinally(runtimeNames, s, st))
    case With(targets, suppresses, body) =>
      var entry := st.BindNames(targets, None);
      && Uniform(runtimeNames, guards, body, entry)
      && (suppresses ==> BindsNoGuard(guards, Knows(guards, entry), body) && AgreeOn(guards, entry, After(runtimeNames, body, entry)))
    case Match(cases) =>
      forall i :: 0 <= i < |cases| ==>
        var entry := st.BindNames(cases[i].names, None);
        Uniform(runtimeNames, guards, cases[i].body, entry) && AgreeOn(guards, st, After(runtimeNames, cases[i].body, entry))
  }

  lemma KnowsByName(guards: iset<Name>, st: ScopeState)
    ensures forall n :: n in Knows(guards, st) <==> n in guards && st.GuardName(n).Some?
    ensures forall n :: n in Knows(guards, st) ==> st.GuardName(n) == Some(Knows(guards, st)[n])
  {
  }

  lemma AgreeingKnowSame(guards: iset<Name>, a: ScopeState, b: ScopeState)
    requires AgreeOn(guards, a, b)
    ensures Knows(guards, a) == Knows(guards, b)
  {
    KnowsByName(guards, a);
    KnowsByName(guards, b);
    assert forall n :: n in guards ==> a.GuardName(n) == b.GuardName(n);
  }

  /** A meet of states that know what `st` knows. */
  lemma {:induction false} MeetIsAlike(runtimeNames: set<Name>, guards: iset<Name>, st: ScopeState, states: seq<ScopeState>)
    requires states != [] && forall i :: 0 <= i < |states| ==> Alike(runtimeNames, guards, st, states[i])
    ensures Alike(runtimeNames, guards, st, MergeAll(states))
    decreases |states|
  {
    if |states| == 1 {
    } else {
      var i := |states| - 1;
      MeetIsAlike(runtimeNames, guards, st, states[..i]);
      MergeKnows(runtimeNames, MergeAll(states[..i]), states[i]);
    }
  }

  lemma LoopExitIsAlike(runtimeNames: set<Name>, guards: iset<Name>, s: Stmt, st: ScopeState)
    requires (s.For? || s.While?) && st.Tidy(runtimeNames) && AgreeOn(guards, st, After(runtimeNames, s.body, LoopEntry(s, st)))
    ensures Alike(runtimeNames, guards, st, LoopExit(runtimeNames, s, st)) && LoopEntry(s, st).Tidy(runtimeNames)
  {
    NamesKeepTidy(runtimeNames, st, Targets(s), None);
    StaysTidy(runtimeNames, s.body, LoopEntry(s, st));
    MergeKnows(runtimeNames, st, After(runtimeNames, s.body, LoopEntry(s, st)));
  }

  lemma BeforeFinallyIsAlike(runtimeNames: set<Name>, guards: iset<Name>, s: Stmt, st: ScopeState)
    requires s.Try? && st.Tidy(runtimeNames) && NoneKnown(guards, st, Touched(s.body) + TouchedByHandlers(s.handlers) + Touched(s.orelse))
    ensures Alike(runtimeNames, guards, st, BeforeFinally(runtimeNames, s, st))
  {
    var before, unfinished := BeforeFinally(runtimeNames, s, st), s.(finalbody := []);
    StmtStaysTidy(runtimeNames, s, st);
    assert BeforeFinally(runtimeNames, unfinished, st) == before;
    MergeAllBelow([st, After(runtimeNames, s.orelse, After(runtimeNames, s.body, st))] + HandlerStates(runtimeNames, s.handlers, st), 0);
    forall n | n in guards
      ensures st.GuardName(n) == before.GuardName(n)
    {
      if st.GuardName(n).Some? {
        UntouchedKeptByStmt(runtimeNames, unfinished, st, n);
      }
    }
  }

  lemma AfterMatchIsAlike(runtimeNames: set<Name>, guards: iset<Name>, s: Stmt, st: ScopeState)
    requires s.Match? && st.Tidy(runtimeNames) && UniformStmt(runtimeNames, guards, s, st)
    ensures Alike(runtimeNames, guards, st, AfterStmt(runtimeNames, s, st))
  {
    var states := CaseStates(runtimeNames, s.cases, st);
    CasesStayTidy(runtimeNames, s.cases, st);
    forall i | 0 <= i < |states| ensures Alike(runtimeNames, guards, st, states[i]) {
      CaseStateAt(runtimeNames, s.cases, st, i);
    }
    MeetIsAlike(runtimeNames, guards, st, [st] + states);
  }

  // ---------------------------------------------------------------------------------------------
  // Steps of the runs built
  // ---------------------------------------------------------------------------------------------

  /** One value that the expression may yield. */
  function Pick(value: BoundValue, store: Store): (v: Option<string>)
    ensures Yields(value, store, v)
  {
    match value
    case Opaque => None
    case Imported(canonical) => Some(canonical)
    case CopyOf(ref) => CanonicalAt(store, ref)
    case CallOf(ref) =>
      var factory := CanonicalAt(store, ref);
      if factory.Some? && factory.value in FACTORIES then Some(factory.value + ".instance") else None
  }

  function Assign(store: Store, names: set<Name>, value: BoundValue): (after: Store)
    ensures Assigned(store, after, names, value)
  {
    map m | m in store.Keys + names :: if m in names then Pick(value, store) else store[m]
  }

  /** A reference resolves to a guard, or a way to one, if what is held under its root says so. */
  lemma GuardsHeld(guards: iset<Name>, ref: Ref, store: Store)
    requires ref.root in guards
    ensures var held, canonical := Held(guards, store), CanonicalAt(store, ref);
      && GuardPart(canonical) == (if ref.root in held then GuardPart(Some(Dotted(held[ref.root], ref.suffix))) else None)
      && (IsGuard(canonical) ==> GuardPart(canonical).Some?)
  {
    if ref.root in store && store[ref.root].Some? {
      GuardPath(store[ref.root].value, ref.suffix);
    }
  }

  lemma SameGuard(runtimeNames: set<Name>, guards: iset<Name>, ref: Ref, st: ScopeState, store: Store)
    requires ref.root in guards && st.Tidy(runtimeNames) && ExactOn(guards, st, store)
    ensures GuardPart(st.CanonicalName(runtimeNames, ref)) == GuardPart(CanonicalAt(store, ref))
    ensures IsGuard(st.CanonicalName(runtimeNames, ref)) <==> IsGuard(CanonicalAt(store, ref))
  {
    KnowsByName(guards, st);
    GuardsByRoot(runtimeNames, ref, st);
    GuardsHeld(guards, ref, store);
  }

  /** A test that the audit does not decide may come out either way, and a decided one as decided. */
  lemma BranchIsOpen(runtimeNames: set<Name>, guards: iset<Name>, test: Test, st: ScopeState, store: Store, v: bool)
    requires TestsOnly(guards, test) && st.Tidy(runtimeNames) && ExactOn(guards, st, store)
    requires st.Truth(runtimeNames, test) != Some(!v)
    ensures May(test, store, v)
  {
    forall ref: Ref | ref.root in TestNames(test)
      ensures IsGuard(st.CanonicalName(runtimeNames, ref)) <==> IsGuard(CanonicalAt(store, ref))
    {
      SameGuard(runtimeNames, guards, ref, st, store);
    }
    StaticTruthDependsOnNames(test, ref => st.CanonicalName(runtimeNames, ref), ref => CanonicalAt(store, ref));
    StaticTruthIsExact(test, store, v);
  }

  lemma PickIsExact(runtimeNames: set<Name>, guards: iset<Name>, value: BoundValue, st: ScopeState, store: Store)
    requires st.Tidy(runtimeNames) && ExactOn(guards, st, store) && (value.CopyOf? ==> value.ref.root in guards)
    ensures GuardPart(Pick(value, store)) == GuardPart(st.ValueName(runtimeNames, value))
    ensures !IsGuardValue(Held(guards, store), value) ==> GuardPart(Pick(value, store)).None?
  {
    match value
    case Opaque =>
    case Imported(_) =>
    case CopyOf(ref) =>
      SameGuard(runtimeNames, guards, ref, st, store);
      GuardsHeld(guards, ref, store);
    case CallOf(_) =>
      forall factory | factory in FACTORIES ensures GuardPart(Some(factory + ".instance")) == None { NoInstanceIsAGuard(factory); }
  }

  /** What is known, or held, once names are bound to something that is a guard, or a way to one, or is not. */
  ghost function Updated(guards: iset<Name>, known: map<Name, string>, names: set<Name>, v: Option<string>): map<Name, string> {
    map n | n in known.Keys + names && n in guards && (n in names ==> v.Some?) :: if n in names then v.value else known[n]
  }

  lemma HeldAssigned(guards: iset<Name>, names: set<Name>, value: BoundValue, store: Store)
    ensures Held(guards, Assign(store, names, value)) == Updated(guards, Held(guards, store), names, GuardPart(Pick(value, store)))
  {
  }

  lemma KnownBound(guards: iset<Name>, names: seq<Name>, canonical: Option<string>, st: ScopeState)
    ensures Knows(guards, st.BindNames(names, canonical)) == Updated(guards, Knows(guards, st), NameSet(names), GuardPart(canonical))
  {
    var after, known := st.BindNames(names, canonical), Updated(guards, Knows(guards, st), NameSet(names), GuardPart(canonical));
    BindLookups(st, names, canonical);
    forall n: Name
      ensures n in Knows(guards, after) <==> n in known
      ensures n in known ==> Knows(guards, after)[n] == known[n]
    {
      assert after.Lookup(n) == if n in names then canonical else st.Lookup(n);
    }
  }

  lemma NothingUpdated(guards: iset<Name>, known: map<Name, string>, names: set<Name>, v: Option<string>)
    requires (forall n :: n in known ==> n in guards) && ((forall n :: n in names ==> n !in guards) || (v.None? && names !! known.Keys))
    ensures Updated(guards, known, names, v) == known
  {
  }

  /** Binding names keeps the audit exact, and what is held as it was where no guard is bound or lost. */
  lemma AssignIsExact(runtimeNames: set<Name>, guards: iset<Name>, names: seq<Name>, value: BoundValue, st: ScopeState, store: Store)
    requires st.Tidy(runtimeNames) && ExactOn(guards, st, store) && FromGuards(guards, names, value)
    ensures var after, end := st.BindNames(names, st.ValueName(runtimeNames, value)), Assign(store, NameSet(names), value);
      && after.Tidy(runtimeNames) && ExactOn(guards, after, end)
      && (StmtQuiet(guards, Held(guards, store), Bind(names, value)) ==> Held(guards, end) == Held(guards, store))
  {
    var canonical, picked := st.ValueName(runtimeNames, value), GuardPart(Pick(value, store));
    NamesKeepTidy(runtimeNames, st, names, canonical);
    HeldAssigned(guards, NameSet(names), value, store);
    KnownBound(guards, names, canonical, st);
    if n :| n in names && n in guards {
      PickIsExact(runtimeNames, guards, value, st, store);
      if StmtQuiet(guards, Held(guards, store), Bind(names, value)) {
        NothingUpdated(guards, Held(guards, store), NameSet(names), picked);
      }
    } else {
      NothingUpdated(guards, Held(guards, store), NameSet(names), picked);
      NothingUpdated(guards, Knows(guards, st), NameSet(names), GuardPart(canonical));
    }
  }

  /** The same for targets, whose values the audit does not follow. */
  lemma EntryIsExact(runtimeNames: set<Name>, guards: iset<Name>, names: seq<Name>, st: ScopeState, store: Store)
    requires st.Tidy(runtimeNames) && ExactOn(guards, st, store)
    ensures var entry, entered := st.BindNames(names, None), Assign(store, NameSet(names), Opaque);
      && entry.Tidy(runtimeNames) && ExactOn(guards, entry, entered)
      && (NameSet(names) !! Held(guards, store).Keys ==> Held(guards, entered) == Held(guards, store))
  {
    AssignIsExact(runtimeNames, guards, names, Opaque, st, store);
  }

  lemma UnbindIsExact(runtimeNames: set<Name>, guards: iset<Name>, names: seq<Name>, st: ScopeState, store: Store)
    requires st.Tidy(runtimeNames) && ExactOn(guards, st, store)
    ensures var after, end := st.UnbindNames(runtimeNames, names), store - NameSet(names);
      && ExactOn(guards, after, end)
      && (NameSet(names) !! Held(guards, store).Keys ==> Held(guards, end) == Held(guards, store))
  {
    var after, end := st.UnbindNames(runtimeNames, names), store - NameSet(names);
    UnbindLookups(st, runtimeNames, names);
    KnowsByName(guards, st);
    KnowsByName(guards, after);
    forall n: Name
      ensures n in Knows(guards, after) <==> n in Held(guards, end)
      ensures n in Knows(guards, after) ==> Knows(guards, after)[n] == Held(guards, end)[n]
    {
      assert after.Lookup(n) == if n in names then None else st.Lookup(n);
      assert n in NameSet(names) <==> n in names;
      assert n in Knows(guards, st) <==> n in Held(guards, store);
    }
  }

  lemma RunsSnoc(front: seq<Stmt>, last: Stmt, store: Store, mid: Store, o: Outcome)
    requires Runs(front, store, Normal(mid)) && RunsStmt(last, mid, o)
    ensures Runs(front + [last], store, o)
  {
    assert (front + [last])[..|front|] == front;
  }

  // ---------------------------------------------------------------------------------------------
  // Runs for everything that may happen
  // ---------------------------------------------------------------------------------------------

  /** What is fixed while runs are built: the audit is exact and stays so, and only the name itself is deleted. */
  ghost predicate Setting(runtimeNames: set<Name>, guards: iset<Name>, statements: seq<Stmt>, st: ScopeState, n: Name, store: Store) {
    && Steady(runtimeNames, guards, statements, st) && Uniform(runtimeNames, guards, statements, st) && DeletesOnly(statements, n)
    && st.Tidy(runtimeNames) && ExactOn(guards, st, store)
  }

  ghost predicate StmtSetting(runtimeNames: set<Name>, guards: iset<Name>, s: Stmt, st: ScopeState, n: Name, store: Store) {
    && SteadyStmt(runtimeNames, guards, s, st) && UniformStmt(runtimeNames, guards, s, st) && StmtDeletesOnly(s, n)
    && st.Tidy(runtimeNames) && ExactOn(guards, st, store)
  }

  /** Quiet statements leave what is held as it was. */
  ghost predicate Calm(guards: iset<Name>, statements: seq<Stmt>, store: Store, end: Store) {
    Quiet(guards, Held(guards, store), statements) ==> Held(guards, end) == Held(guards, store)
  }

  ghost predicate StmtCalm(guards: iset<Name>, s: Stmt, store: Store, end: Store) {
    StmtQuiet(guards, Held(guards, store), s) ==> Held(guards, end) == Held(guards, store)
  }

  lemma SettingBehind(runtimeNames: set<Name>, guards: iset<Name>, statements: seq<Stmt>, st: ScopeState, n: Name, store: Store)
    requires statements != [] && Setting(runtimeNames, guards, statements, st, n, store)
    ensures var front, last := statements[..|statements| - 1], statements[|statements| - 1];
      && Setting(runtimeNames, guards, front, st, n, store)
      && forall mid :: ExactOn(guards, After(runtimeNames, front, st), mid) ==> StmtSetting(runtimeNames, guards, last, After(runtimeNames, front, st), n, mid)
  {
    StaysTidy(runtimeNames, statements[..|statements| - 1], st);
  }

  lemma CalmBehind(guards: iset<Name>, statements: seq<Stmt>, store: Store, mid: Store, end: Store)
    requires statements != []
    requires Calm(guards, statements[..|statements| - 1], store, mid) && StmtCalm(guards, statements[|statements| - 1], mid, end)
    ensures Calm(guards, statements, store, end)
  {
  }

  lemma {:induction false} RealizeEnd(runtimeNames: set<Name>, guards: iset<Name>, statements: seq<Stmt>, st: ScopeState, n: Name, store: Store, c: bool)
    returns (end: Store)
    requires Setting(runtimeNames, guards, statements, st, n, store)
    requires MayEnd(runtimeNames, statements, st, n, n in store, c)
    ensures Runs(statements, store, Normal(end)) && (n in end <==> c)
    ensures ExactOn(guards, After(runtimeNames, statements, st), end) && Calm(guards, statements, store, end)
    decreases statements
  {
    if statements == [] {
      end := store;
    } else {
      var front, last := statements[..|statements| - 1], statements[|statements| - 1];
      var m: bool :| MayEnd(runtimeNames, front, st, n, n in store, m) && MayEndStmt(runtimeNames, last, After(runtimeNames, front, st), n, m, c);
      SettingBehind(runtimeNames, guards, statements, st, n, store);
      var mid := RealizeEnd(runtimeNames, guards, front, st, n, store, m);
      end := RealizeStmtEnd(runtimeNames, guards, last, After(runtimeNames, front, st), n, mid, c);
      CalmBehind(guards, statements, store, mid, end);
    }
  }

  lemma {:induction false} RealizeRaise(runtimeNames: set<Name>, guards: iset<Name>, statements: seq<Stmt>, st: ScopeState, n: Name, store: Store, c: bool)
    returns (end: Store)
    requires Setting(runtimeNames, guards, statements, st, n, store)
    requires MayRaise(runtimeNames, statements, st, n, n in store, c)
    ensures Runs(statements, store, Raised(end)) && (n in end <==> c)
    ensures Calm(guards, statements, store, end)
    decreases statements
  {
    if statements == [] {
      end := store;
    } else {
      var front, last := statements[..|statements| - 1], statements[|statements| - 1];
      var behind := After(runtimeNames, front, st);
      SettingBehind(runtimeNames, guards, statements, st, n, store);
      if MayRaise(runtimeNames, front, st, n, n in store, c) {
        end := RealizeRaise(runtimeNames, guards, front, st, n, store, c);
      } else {
        var m: bool :| MayEnd(runtimeNames, front, st, n, n in store, m) &&
          (MayRaiseStmt(runtimeNames, last, behind, n, m, c) || MayEndStmt(runtimeNames, last, behind, n, m, c));
        var mid := RealizeEnd(runtimeNames, guards, front, st, n, store, m);
        if MayRaiseStmt(runtimeNames, last, behind, n, m, c) {
          end := RealizeStmtRaise(runtimeNames, guards, last, behind, n, mid, c);
        } else {
          end := RealizeStmtEnd(runtimeNames, guards, last, behind, n, mid, c);
        }
        CalmBehind(guards, statements, store, mid, end);
      }
    }
  }

  lemma {:induction false} RealizeStmtEnd(runtimeNames: set<Name>, guards: iset<Name>, s: Stmt, st: ScopeState, n: Name, store: Store, c: bool)
    returns (end: Store)
    requires StmtSetting(runtimeNames, guards, s, st, n, store)
    requires MayEndStmt(runtimeNames, s, st, n, n in store, c)
    ensures RunsStmt(s, store, Normal(end)) && (n in end <==> c)
    ensures ExactOn(guards, AfterStmt(runtimeNames, s, st), end) && StmtCalm(guards, s, store, end)
    decreases s, 2
  {
    match s
    case Bind(names, value) =>
      end := Assign(store, NameSet(names), value);
      assert names[..|names|] == names;
      AssignIsExact(runtimeNames, guards, names, value, st, store);
    case Del(names) =>
      end := store - NameSet(names);
      assert names[..|names|] == names;
      UnbindIsExact(runtimeNames, guards, names, st, store);
    case If(_, _, _) =>
      end := RealizeIfEnd(runtimeNames, guards, s, st, n, store, c);
    case For(_, _, _) =>
      end := RealizeLoopEnd(runtimeNames, guards, s, st, n, store, c);
    case While(_, _) =>
      end := RealizeLoopEnd(runtimeNames, guards, s, st, n, store, c);
    case Try(_, _, _, _) =>
      end := RealizeTryEnd(runtimeNames, guards, s, st, n, store, c);
    case With(_, _, _) =>
      end := RealizeWithEnd(runtimeNames, guards, s, st, n, store, c);
    case Match(_) =>
      end := RealizeMatchEnd(runtimeNames, guards, s, st, n, store, c);
  }

  lemma {:induction false} RealizeStmtRaise(runtimeNames: set<Name>, guards: iset<Name>, s: Stmt, st: ScopeState, n: Name, store: Store, c: bool)
    returns (end: Store)
    requires StmtSetting(runtimeNames, guards, s, st, n, store)
    requires MayRaiseStmt(runtimeNames, s, st, n, n in store, c)
    ensures RunsStmt(s, store, Raised(end)) && (n in end <==> c)
    ensures StmtCalm(guards, s, store, end)
    decreases s, 2
  {
    if (n in store) == c {
      end := store;
    } else {
      match s
      case Bind(names, value) =>
        end := Assign(store, NameSet(names), value);
        assert names[..|names|] == names;
        AssignIsExact(runtimeNames, guards, names, value, st, store);
      case Del(names) =>
        end := store - NameSet(names);
        assert names[..|names|] == names;
        UnbindIsExact(runtimeNames, guards, names, st, store);
      case If(_, _, _) =>
        end := RealizeIfRaise(runtimeNames, guards, s, st, n, store, c);
      case For(_, _, _) =>
        end := RealizeLoopRaise(runtimeNames, guards, s, st, n, store, c);
      case While(_, _) =>
        end := RealizeLoopRaise(runtimeNames, guards, s, st, n, store, c);
      case Try(_, _, _, _) =>
        end := RealizeTryRaise(runtimeNames, guards, s, st, n, store, c);
      case With(_, _, _) =>
        end := RealizeWithRaise(runtimeNames, guards, s, st, n, store, c);
      case Match(_) =>
        end := RealizeMatchRaise(runtimeNames, guards, s, st, n, store, c);
    }
  }

  // ---------------------------------------------------------------------------------------------
  // Branches
  // ---------------------------------------------------------------------------------------------

  /** Behind an undecided test both branches know the same. */
  lemma BranchesMeet(runtimeNames: set<Name>, guards: iset<Name>, s: Stmt, st: ScopeState)
    requires s.If? && st.Tidy(runtimeNames) && UniformStmt(runtimeNames, guards, s, st) && st.Truth(runtimeNames, s.test).None?
    ensures Knows(guards, AfterStmt(runtimeNames, s, st)) == Knows(guards, After(runtimeNames, s.body, st)) == Knows(guards, After(runtimeNames, s.orelse, st))
  {
    var yes, no := After(runtimeNames, s.body, st), After(runtimeNames, s.orelse, st);
    StaysTidy(runtimeNames, s.body, st);
    StaysTidy(runtimeNames, s.orelse, st);
    MergeKnows(runtimeNames, yes, no);
    AgreeingKnowSame(guards, yes, no);
    AgreeingKnowSame(guards, yes, yes.Merge(no));
  }

  lemma QuietIf(guards: iset<Name>, held: map<Name, string>, s: Stmt)
    requires s.If? && StmtQuiet(guards, held, s)
    ensures Quiet(guards, held, s.body) && Quiet(guards, held, s.orelse)
  {
  }

  lemma {:induction false} RealizeIfEnd(runtimeNames: set<Name>, guards: iset<Name>, s: Stmt, st: ScopeState, n: Name, store: Store, c: bool)
    returns (end: Store)
    requires s.If? && StmtSetting(runtimeNames, guards, s, st, n, store)
    requires MayEndStmt(runtimeNames, s, st, n, n in store, c)
    ensures RunsStmt(s, store, Normal(end)) && (n in end <==> c)
    ensures ExactOn(guards, AfterStmt(runtimeNames, s, st), end) && StmtCalm(guards, s, store, end)
    decreases s, 1
  {
    var truth := st.Truth(runtimeNames, s.test);
    if truth != Some(false) && MayEnd(runtimeNames, s.body, st, n, n in store, c) {
      BranchIsOpen(runtimeNames, guards, s.test, st, store, true);
      end := RealizeEnd(runtimeNames, guards, s.body, st, n, store, c);
    } else {
      BranchIsOpen(runtimeNames, guards, s.test, st, store, false);
      end := RealizeEnd(runtimeNames, guards, s.orelse, st, n, store, c);
    }
    if truth.None? {
      BranchesMeet(runtimeNames, guards, s, st);
    }
    if StmtQuiet(guards, Held(guards, store), s) {
      QuietIf(guards, Held(guards, store), s);
    }
  }

  lemma {:induction false} RealizeIfRaise(runtimeNames: set<Name>, guards: iset<Name>, s: Stmt, st: ScopeState, n: Name, store: Store, c: bool)
    returns (end: Store)
    requires s.If? && StmtSetting(runtimeNames, guards, s, st, n, store)
    requires MayRaiseStmt(runtimeNames, s, st, n, n in store, c) && (n in store) != c
    ensures RunsStmt(s, store, Raised(end)) && (n in end <==> c)
    ensures StmtCalm(guards, s, store, end)
    decreases s, 1
  {
    if st.Truth(runtimeNames, s.test) != Some(false) && MayRaise(runtimeNames, s.body, st, n, n in store, c) {
      BranchIsOpen(runtimeNames, guards, s.test, st, store, true);
      end := RealizeRaise(runtimeNames, guards, s.body, st, n, store, c);
    } else {
      BranchIsOpen(runtimeNames, guards, s.test, st, store, false);
      end := RealizeRaise(runtimeNames, guards, s.orelse, st, n, store, c);
    }
  }

  // ---------------------------------------------------------------------------------------------
  // Context managers and patterns
  // ---------------------------------------------------------------------------------------------

  /** A body whose exceptions are swallowed touches and binds no guard. */
  lemma SwallowedIsQuiet(runtimeNames: set<Name>, guards: iset<Name>, s: Stmt, st: ScopeState)
    requires s.With? && s.suppresses && SteadyStmt(runtimeNames, guards, s, st) && UniformStmt(runtimeNames, guards, s, st)
    ensures Quiet(guards, Knows(guards, st.BindNames(s.targets, None)), s.body)
    ensures Knows(guards, st.BindNames(s.targets, None)) == Knows(guards, AfterStmt(runtimeNames, s, st))
  {
    var entry := st.BindNames(s.targets, None);
    AgreeingKnowSame(guards, entry, After(runtimeNames, s.body, entry));
    KnowsByName(guards, After(runtimeNames, s.body, entry));
  }

  lemma {:induction false} RealizeWithEnd(runtimeNames: set<Name>, guards: iset<Name>, s: Stmt, st: ScopeState, n: Name, store: Store, c: bool)
    returns (end: Store)
    requires s.With? && StmtSetting(runtimeNames, guards, s, st, n, store)
    requires MayEndStmt(runtimeNames, s, st, n, n in store, c)
    ensures RunsStmt(s, store, Normal(end)) && (n in end <==> c)
    ensures ExactOn(guards, AfterStmt(runtimeNames, s, st), end) && StmtCalm(guards, s, store, end)
    decreases s, 1
  {
    var entry, entered := st.BindNames(s.targets, None), Assign(store, NameSet(s.targets), Opaque);
    EntryIsExact(runtimeNames, guards, s.targets, st, store);
    if MayEnd(runtimeNames, s.body, entry, n, n in entered, c) {
      end := RealizeEnd(runtimeNames, guards, s.body, entry, n, entered, c);
      var mid := Normal(end);
      assert Runs(s.body, entered, mid);
    } else {
      SwallowedIsQuiet(runtimeNames, guards, s, st);
      end := RealizeRaise(runtimeNames, guards, s.body, entry, n, entered, c);
      var mid := Raised(end);
      assert Runs(s.body, entered, mid);
    }
  }

  lemma {:induction false} RealizeWithRaise(runtimeNames: set<Name>, guards: iset<Name>, s: Stmt, st: ScopeState, n: Name, store: Store, c: bool)
    returns (end: Store)
    requires s.With? && StmtSetting(runtimeNames, guards, s, st, n, store)
    requires MayRaiseStmt(runtimeNames, s, st, n, n in store, c) && (n in store) != c
    ensures RunsStmt(s, store, Raised(end)) && (n in end <==> c)
    ensures StmtCalm(guards, s, store, end)
    decreases s, 1
  {
    var targets := s.targets;
    var entry, entered := st.BindNames(targets, None), Assign(store, NameSet(targets), Opaque);
    EntryIsExact(runtimeNames, guards, targets, st, store);
    if c && n in targets {
      end := entered;
      assert targets[..|targets|] == targets;
      assert Binds(targets, Opaque, store, Raised(end));
    } else {
      end := RealizeRaise(runtimeNames, guards, s.body, entry, n, entered, c);
      var mid := Raised(end);
      assert Runs(s.body, entered, mid);
    }
  }

  /** Patterns that fail may capture the name; names of patterns hold no guard. */
  lemma RealizeTrying(guards: iset<Name>, cases: seq<Case>, st: ScopeState, n: Name, store: Store, x: bool) returns (extra: set<Name>, tried: Store)
    requires NoneKnown(guards, st, CaseNames(cases)) && ExactOn(guards, st, store) && MayTry(cases, n, n in store, x)
    ensures extra <= CaseNames(cases) && Assigned(store, tried, extra, Opaque)
    ensures (n in tried <==> x) && Held(guards, tried) == Held(guards, store)
  {
    extra := if x && n !in store then {n} else {};
    tried := Assign(store, extra, Opaque);
    KnowsByName(guards, st);
    assert forall m :: m in Held(guards, store) ==> m !in extra;
  }

  lemma {:induction false} RealizeCaseEnd(runtimeNames: set<Name>, guards: iset<Name>, s: Stmt, i: nat, st: ScopeState, n: Name, tried: Store, c: bool)
    returns (end: Store)
    requires s.Match? && i < |s.cases| && StmtSetting(runtimeNames, guards, s, st, n, tried)
    requires MayEnd(runtimeNames, s.cases[i].body, st.BindNames(s.cases[i].names, None), n, n in tried || n in s.cases[i].names, c)
    ensures RunsCase(s.cases[i], tried, Normal(end)) && (n in end <==> c) && ExactOn(guards, st, end)
    decreases s, 0
  {
    var chosen := s.cases[i];
    var entry, entered := st.BindNames(chosen.names, None), Assign(tried, NameSet(chosen.names), Opaque);
    EntryIsExact(runtimeNames, guards, chosen.names, st, tried);
    end := RealizeEnd(runtimeNames, guards, chosen.body, entry, n, entered, c);
    AgreeingKnowSame(guards, st, After(runtimeNames, chosen.body, entry));
  }

  lemma {:induction false} RealizeMatchEnd(runtimeNames: set<Name>, guards: iset<Name>, s: Stmt, st: ScopeState, n: Name, store: Store, c: bool)
    returns (end: Store)
    requires s.Match? && StmtSetting(runtimeNames, guards, s, st, n, store)
    requires MayEndStmt(runtimeNames, s, st, n, n in store, c)
    ensures RunsStmt(s, store, Normal(end)) && (n in end <==> c)
    ensures ExactOn(guards, AfterStmt(runtimeNames, s, st), end) && StmtCalm(guards, s, store, end)
    decreases s, 1
  {
    var cases := s.cases;
    var x: bool :| MayTry(cases, n, n in store, x) &&
      (x == c || exists i :: 0 <= i < |cases| && MayEnd(runtimeNames, cases[i].body, st.BindNames(cases[i].names, None), n, x || n in cases[i].names, c));
    var extra, tried := RealizeTrying(guards, cases, st, n, store, x);
    if x == c {
      end := tried;
    } else {
      var i :| 0 <= i < |cases| && MayEnd(runtimeNames, cases[i].body, st.BindNames(cases[i].names, None), n, x || n in cases[i].names, c);
      end := RealizeCaseEnd(runtimeNames, guards, s, i, st, n, tried, c);
    }
    assert extra <= CaseNames(cases) && Assigned(store, tried, extra, Opaque);
    AfterMatchIsAlike(runtimeNames, guards, s, st);
    AgreeingKnowSame(guards, st, AfterStmt(runtimeNames, s, st));
  }

  lemma {:induction false} RealizeCaseRaise(runtimeNames: set<Name>, guards: iset<Name>, s: Stmt, i: nat, st: ScopeState, n: Name, tried: Store, c: bool)
    returns (end: Store)
    requires s.Match? && i < |s.cases| && StmtSetting(runtimeNames, guards, s, st, n, tried)
    requires MayRaise(runtimeNames, s.cases[i].body, st.BindNames(s.cases[i].names, None), n, n in tried || n in s.cases[i].names, c)
    ensures RunsCase(s.cases[i], tried, Raised(end)) && (n in end <==> c) && StmtCalm(guards, s, tried, end)
    decreases s, 0
  {
    var chosen := s.cases[i];
    var entry, entered := st.BindNames(chosen.names, None), Assign(tried, NameSet(chosen.names), Opaque);
    EntryIsExact(runtimeNames, guards, chosen.names, st, tried);
    CaseTouches(s.cases, i);
    end := RealizeRaise(runtimeNames, guards, chosen.body, entry, n, entered, c);
  }

  lemma {:induction false} RealizeMatchRaise(runtimeNames: set<Name>, guards: iset<Name>, s: Stmt, st: ScopeState, n: Name, store: Store, c: bool)
    returns (end: Store)
    requires s.Match? && StmtSetting(runtimeNames, guards, s, st, n, store)
    requires MayRaiseStmt(runtimeNames, s, st, n, n in store, c) && (n in store) != c
    ensures RunsStmt(s, store, Raised(end)) && (n in end <==> c)
    ensures StmtCalm(guards, s, store, end)
    decreases s, 1
  {
    var cases := s.cases;
    var x: bool :| MayTry(cases, n, n in store, x) &&
      (x == c || exists i :: 0 <= i < |cases| && MayRaise(runtimeNames, cases[i].body, st.BindNames(cases[i].names, None), n, x || n in cases[i].names, c));
    var extra, tried := RealizeTrying(guards, cases, st, n, store, x);
    if x == c {
      end := tried;
    } else {
      var i :| 0 <= i < |cases| && MayRaise(runtimeNames, cases[i].body, st.BindNames(cases[i].names, None), n, x || n in cases[i].names, c);
      end := RealizeCaseRaise(runtimeNames, guards, s, i, st, n, tried, c);
    }
    assert extra <= CaseNames(cases) && Assigned(store, tried, extra, Opaque);
  }

  // ---------------------------------------------------------------------------------------------
  // Loops
  // ---------------------------------------------------------------------------------------------

  lemma LoopSetting(runtimeNames: set<Name>, guards: iset<Name>, s: Stmt, st: ScopeState, n: Name, head: Store)
    requires (s.For? || s.While?) && StmtSetting(runtimeNames, guards, s, st, n, head)
    ensures Knows(guards, LoopExit(runtimeNames, s, st)) == Knows(guards, st) == Knows(guards, After(runtimeNames, s.body, LoopEntry(s, st)))
    ensures var entered := Assign(head, NameSet(Targets(s)), Opaque);
      && Setting(runtimeNames, guards, s.body, LoopEntry(s, st), n, entered)
      && (NameSet(Targets(s)) !! Held(guards, head).Keys ==> Held(guards, entered) == Held(guards, head))
    ensures Setting(runtimeNames, guards, s.orelse, LoopExit(runtimeNames, s, st), n, head)
  {
    LoopExitIsAlike(runtimeNames, guards, s, st);
    AgreeingKnowSame(guards, st, LoopExit(runtimeNames, s, st));
    AgreeingKnowSame(guards, st, After(runtimeNames, s.body, LoopEntry(s, st)));
    EntryIsExact(runtimeNames, guards, Targets(s), st, head);
  }

  lemma QuietLoop(guards: iset<Name>, held: map<Name, string>, s: Stmt)
    requires (s.For? || s.While?) && StmtQuiet(guards, held, s)
    ensures Quiet(guards, held, s.body) && Quiet(guards, held, s.orelse) && NameSet(Targets(s)) !! held.Keys
  {
  }

  /** A run of the loop up to the head at which the name is as wanted. */
  lemma {:induction false} RealizeHead(runtimeNames: set<Name>, guards: iset<Name>, s: Stmt, st: ScopeState, n: Name, store: Store, h: bool)
    returns (heads: seq<Store>)
    requires (s.For? || s.While?) && StmtSetting(runtimeNames, guards, s, st, n, store)
    requires MayHead(runtimeNames, s, st, n, n in store, h)
    ensures Iterations(s, heads) && heads[0] == store && (n in heads[|heads| - 1] <==> h)
    ensures Held(guards, heads[|heads| - 1]) == Held(guards, store)
    decreases s, 0
  {
    heads := [store];
    if (n in store) != h {
      var entered := Assign(store, NameSet(Targets(s)), Opaque);
      LoopSetting(runtimeNames, guards, s, st, n, store);
      var head := RealizeEnd(runtimeNames, guards, s.body, LoopEntry(s, st), n, entered, h);
      assert RunsBody(s, store, Normal(head));
      heads := [store, head];
    }
  }

  lemma {:induction false} RealizeLoopEnd(runtimeNames: set<Name>, guards: iset<Name>, s: Stmt, st: ScopeState, n: Name, store: Store, c: bool)
    returns (end: Store)
    requires (s.For? || s.While?) && StmtSetting(runtimeNames, guards, s, st, n, store)
    requires MayEndStmt(runtimeNames, s, st, n, n in store, c)
    ensures RunsStmt(s, store, Normal(end)) && (n in end <==> c)
    ensures ExactOn(guards, AfterStmt(runtimeNames, s, st), end) && StmtCalm(guards, s, store, end)
    decreases s, 1
  {
    var exit := LoopExit(runtimeNames, s, st);
    var h: bool :| MayHead(runtimeNames, s, st, n, n in store, h) && MayEnd(runtimeNames, s.orelse, exit, n, h, c);
    var heads := RealizeHead(runtimeNames, guards, s, st, n, store, h);
    var head := heads[|heads| - 1];
    LoopSetting(runtimeNames, guards, s, st, n, head);
    end := RealizeEnd(runtimeNames, guards, s.orelse, exit, n, head, c);
    assert LeavesLoop(s, head, Normal(end));
    LoopElseMeets(runtimeNames, guards, s, st);
    if StmtQuiet(guards, Held(guards, store), s) {
      QuietLoop(guards, Held(guards, store), s);
    }
  }

  lemma LoopElseMeets(runtimeNames: set<Name>, guards: iset<Name>, s: Stmt, st: ScopeState)
    requires (s.For? || s.While?) && UniformStmt(runtimeNames, guards, s, st) && st.Tidy(runtimeNames)
    ensures Knows(guards, AfterStmt(runtimeNames, s, st)) == Knows(guards, After(runtimeNames, s.orelse, LoopExit(runtimeNames, s, st)))
  {
    var exit := LoopExit(runtimeNames, s, st);
    StmtStaysTidy(runtimeNames, s, st);
    StaysTidy(runtimeNames, s.orelse, exit);
    MergeKnows(runtimeNames, exit, After(runtimeNames, s.orelse, exit));
    AgreeingKnowSame(guards, After(runtimeNames, s.orelse, exit), AfterStmt(runtimeNames, s, st));
  }

  lemma {:induction false} RealizeLoopRaise(runtimeNames: set<Name>, guards: iset<Name>, s: Stmt, st: ScopeState, n: Name, store: Store, c: bool)
    returns (end: Store)
    requires (s.For? || s.While?) && StmtSetting(runtimeNames, guards, s, st, n, store)
    requires MayRaiseInLoop(runtimeNames, s, st, n, n in store, c)
    ensures RunsStmt(s, store, Raised(end)) && (n in end <==> c)
    ensures StmtCalm(guards, s, store, end)
    decreases s, 1
  {
    var h: bool :| MayHead(runtimeNames, s, st, n, n in store, h) &&
      (|| c == h
       || (c && n in Targets(s))
       || MayRaise(runtimeNames, s.body, LoopEntry(s, st), n, h || n in Targets(s), c)
       || MayRaise(runtimeNames, s.orelse, LoopExit(runtimeNames, s, st), n, h, c));
    var heads := RealizeHead(runtimeNames, guards, s, st, n, store, h);
    var head := heads[|heads| - 1];
    LoopSetting(runtimeNames, guards, s, st, n, head);
    end := RealizeLeaving(runtimeNames, guards, s, st, n, head, c);
    assert RunsLoop(s, store, Raised(end));
    if StmtQuiet(guards, Held(guards, store), s) {
      QuietLoop(guards, Held(guards, store), s);
    }
  }

  /** From a loop head, an exception at the head, in the body or in the else part. */
  lemma {:induction false} RealizeLeaving(runtimeNames: set<Name>, guards: iset<Name>, s: Stmt, st: ScopeState, n: Name, head: Store, c: bool)
    returns (end: Store)
    requires s.For? || s.While?
    requires var entered := Assign(head, NameSet(Targets(s)), Opaque);
      && Setting(runtimeNames, guards, s.body, LoopEntry(s, st), n, entered)
      && (NameSet(Targets(s)) !! Held(guards, head).Keys ==> Held(guards, entered) == Held(guards, head))
    requires Setting(runtimeNames, guards, s.orelse, LoopExit(runtimeNames, s, st), n, head)
    requires || c == (n in head)
             || (c && n in Targets(s))
             || MayRaise(runtimeNames, s.body, LoopEntry(s, st), n, n in head || n in Targets(s), c)
             || MayRaise(runtimeNames, s.orelse, LoopExit(runtimeNames, s, st), n, n in head, c)
    ensures LeavesLoop(s, head, Raised(end)) && (n in end <==> c)
    ensures var held := Held(guards, head);
      Quiet(guards, held, s.body) && Quiet(guards, held, s.orelse) && NameSet(Targets(s)) !! held.Keys ==> Held(guards, end) == held
    decreases s, 0
  {
    var targets := Targets(s);
    var entered := Assign(head, NameSet(targets), Opaque);
    if c == (n in head) {
      end := head;
      assert targets[..0] == [] && Binds(targets, Opaque, head, Raised(head));
    } else if c && n in targets {
      end := entered;
      assert targets[..|targets|] == targets;
      assert Binds(targets, Opaque, head, Raised(end));
    } else if MayRaise(runtimeNames, s.body, LoopEntry(s, st), n, n in head || n in targets, c) {
      end := RealizeRaise(runtimeNames, guards, s.body, LoopEntry(s, st), n, entered, c);
      assert RunsBody(s, head, Raised(end));
    } else {
      end := RealizeRaise(runtimeNames, guards, s.orelse, LoopExit(runtimeNames, s, st), n, head, c);
    }
  }

  // ---------------------------------------------------------------------------------------------
  // Exceptions
  // ---------------------------------------------------------------------------------------------

  ghost predicate HandlerQuiet(guards: iset<Name>, held: map<Name, string>, h: Handler) {
    Quiet(guards, held, h.body) && (h.name.Some? ==> h.name.value !in held)
  }

  /** The parts of a try statement before its finally part touch and bind no guard. */
  lemma GuardedIsQuiet(runtimeNames: set<Name>, guards: iset<Name>, s: Stmt, st: ScopeState)
    requires s.Try? && SteadyStmt(runtimeNames, guards, s, st) && UniformStmt(runtimeNames, guards, s, st)
    ensures Quiet(guards, Knows(guards, st), s.body) && Quiet(guards, Knows(guards, st), s.orelse)
    ensures forall i :: 0 <= i < |s.handlers| ==> HandlerQuiet(guards, Knows(guards, st), s.handlers[i])
  {
    KnowsByName(guards, st);
    forall i | 0 <= i < |s.handlers| ensures HandlerQuiet(guards, Knows(guards, st), s.handlers[i]) {
      HandlerTouches(s.handlers, i);
    }
  }

  ghost predicate HandlerSetting(runtimeNames: set<Name>, guards: iset<Name>, h: Handler, st: ScopeState, n: Name, store: Store) {
    && Steady(runtimeNames, guards, h.body, HandlerEntry(h, st)) && Uniform(runtimeNames, guards, h.body, HandlerEntry(h, st))
    && DeletesOnly(h.body, n) && st.Tidy(runtimeNames) && ExactOn(guards, st, store) && HandlerQuiet(guards, Knows(guards, st), h)
  }

  function EnterHandler(h: Handler, store: Store): Store {
    if h.name.Some? then Assign(store, {h.name.value}, Opaque) else store
  }

  lemma {:induction false} RealizeHandlerEnd(runtimeNames: set<Name>, guards: iset<Name>, h: Handler, st: ScopeState, n: Name, store: Store, c: bool)
    returns (end: Store)
    requires HandlerSetting(runtimeNames, guards, h, st, n, store)
    requires MayEndHandler(runtimeNames, h, st, n, n in store, c)
    ensures RunsHandler(h, store, Normal(end)) && (n in end <==> c) && Held(guards, end) == Held(guards, store)
    decreases h
  {
    var entry, entered := HandlerEntry(h, st), EnterHandler(h, store);
    HandlerEntryIsExact(runtimeNames, guards, h, st, store);
    var x := c;
    if h.name == Some(n) {
      x :| MayEnd(runtimeNames, h.body, entry, n, true, x);
    }
    var left := RealizeEnd(runtimeNames, guards, h.body, entry, n, entered, x);
    var o := LeaveHandler(guards, h, store, Normal(left));
    end := o.store;
  }

  lemma {:induction false} RealizeHandlerRaise(runtimeNames: set<Name>, guards: iset<Name>, h: Handler, st: ScopeState, n: Name, store: Store, c: bool)
    returns (end: Store)
    requires HandlerSetting(runtimeNames, guards, h, st, n, store)
    requires MayRaiseHandler(runtimeNames, h, st, n, n in store, c)
    ensures RunsHandler(h, store, Raised(end)) && (n in end <==> c) && Held(guards, end) == Held(guards, store)
    decreases h
  {
    var entry, entered := HandlerEntry(h, st), EnterHandler(h, store);
    HandlerEntryIsExact(runtimeNames, guards, h, st, store);
    if h.name == Some(n) {
      AtOnceMayRaise(runtimeNames, h.body, entry, n, true);
    }
    var left := RealizeRaise(runtimeNames, guards, h.body, entry, n, entered, if h.name == Some(n) then true else c);
    var o := LeaveHandler(guards, h, store, Raised(left));
    end := o.store;
  }

  /** Leaving a handler unbinds its name. */
  lemma LeaveHandler(guards: iset<Name>, h: Handler, store: Store, inner: Outcome) returns (o: Outcome)
    requires Runs(h.body, EnterHandler(h, store), inner) && Held(guards, inner.store) == Held(guards, store)
    requires h.name.Some? ==> h.name.value !in Held(guards, store)
    ensures RunsHandler(h, store, o) && o == (if h.name.Some? then inner.Without(h.name.value) else inner)
    ensures Held(guards, o.store) == Held(guards, store)
  {
    o := if h.name.Some? then inner.Without(h.name.value) else inner;
    assert forall m :: m in Held(guards, inner.store) ==> h.name != Some(m);
  }

  lemma HandlerEntryIsExact(runtimeNames: set<Name>, guards: iset<Name>, h: Handler, st: ScopeState, store: Store)
    requires st.Tidy(runtimeNames) && ExactOn(guards, st, store) && (h.name.Some? ==> h.name.value !in Held(guards, store))
    ensures HandlerEntry(h, st).Tidy(runtimeNames) && ExactOn(guards, HandlerEntry(h, st), EnterHandler(h, store))
    ensures Held(guards, EnterHandler(h, store)) == Held(guards, store)
  {
    if h.name.Some? {
      var m := h.name.value;
      assert NameSet([m]) == {m} && [m][..0] == [];
      EntryIsExact(runtimeNames, guards, [m], st, store);
      assert st.BindNames([m], None) == st.BindName(m, None);
    }
  }

  /** A run of the parts before the finally part, completed or not. */
  lemma {:induction false} RealizeLeave(runtimeNames: set<Name>, guards: iset<Name>, s: Stmt, st: ScopeState, n: Name, store: Store, m: bool)
    returns (o: Outcome)
    requires s.Try? && StmtSetting(runtimeNames, guards, s, st, n, store)
    requires MayLeave(runtimeNames, s, st, n, n in store, m)
    ensures RunsGuarded(s, store, o) && (n in o.store <==> m) && o.Normal?
    ensures Held(guards, o.store) == Held(guards, store)
    decreases s, 0
  {
    var behind := After(runtimeNames, s.body, st);
    GuardedIsQuiet(runtimeNames, guards, s, st);
    StaysTidy(runtimeNames, s.body, st);
    if MayComplete(runtimeNames, s, st, n, n in store, m) {
      var x: bool :| MayEnd(runtimeNames, s.body, st, n, n in store, x) && MayEnd(runtimeNames, s.orelse, behind, n, x, m);
      var mid := RealizeEnd(runtimeNames, guards, s.body, st, n, store, x);
      var end := RealizeEnd(runtimeNames, guards, s.orelse, behind, n, mid, m);
      o := Normal(end);
    } else {
      var i, x: bool :| 0 <= i < |s.handlers| && MayRaise(runtimeNames, s.body, st, n, n in store, x) && MayEndHandler(runtimeNames, s.handlers[i], st, n, x, m);
      var mid := RealizeRaise(runtimeNames, guards, s.body, st, n, store, x);
      var end := RealizeHandlerEnd(runtimeNames, guards, s.handlers[i], st, n, mid, m);
      o := Normal(end);
    }
  }

  lemma {:induction false} RealizeEscape(runtimeNames: set<Name>, guards: iset<Name>, s: Stmt, st: ScopeState, n: Name, store: Store, m: bool)
    returns (o: Outcome)
    requires s.Try? && StmtSetting(runtimeNames, guards, s, st, n, store)
    requires MayEscape(runtimeNames, s, st, n, n in store, m)
    ensures RunsGuarded(s, store, o) && (n in o.store <==> m) && o.Raised?
    ensures Held(guards, o.store) == Held(guards, store)
    decreases s, 0
  {
    var behind := After(runtimeNames, s.body, st);
    GuardedIsQuiet(runtimeNames, guards, s, st);
    StaysTidy(runtimeNames, s.body, st);
    if MayRaise(runtimeNames, s.body, st, n, n in store, m) {
      var end := RealizeRaise(runtimeNames, guards, s.body, st, n, store, m);
      o := Raised(end);
    } else if x: bool :| MayEnd(runtimeNames, s.body, st, n, n in store, x) && MayRaise(runtimeNames, s.orelse, behind, n, x, m) {
      var mid := RealizeEnd(runtimeNames, guards, s.body, st, n, store, x);
      var end := RealizeRaise(runtimeNames, guards, s.orelse, behind, n, mid, m);
      o := Raised(end);
    } else {
      var i, x: bool :| 0 <= i < |s.handlers| && MayRaise(runtimeNames, s.body, st, n, n in store, x) && MayRaiseHandler(runtimeNames, s.handlers[i], st, n, x, m);
      var mid := RealizeRaise(runtimeNames, guards, s.body, st, n, store, x);
      var end := RealizeHandlerRaise(runtimeNames, guards, s.handlers[i], st, n, mid, m);
      o := Raised(end);
    }
  }

  lemma ExactBeforeFinally(runtimeNames: set<Name>, guards: iset<Name>, s: Stmt, st: ScopeState)
    requires s.Try? && st.Tidy(runtimeNames) && SteadyStmt(runtimeNames, guards, s, st)
    ensures BeforeFinally(runtimeNames, s, st).Tidy(runtimeNames)
    ensures Knows(guards, BeforeFinally(runtimeNames, s, st)) == Knows(guards, st)
  {
    BeforeFinallyIsAlike(runtimeNames, guards, s, st);
    AgreeingKnowSame(guards, st, BeforeFinally(runtimeNames, s, st));
  }

  lemma {:induction false} RealizeTryEnd(runtimeNames: set<Name>, guards: iset<Name>, s: Stmt, st: ScopeState, n: Name, store: Store, c: bool)
    returns (end: Store)
    requires s.Try? && StmtSetting(runtimeNames, guards, s, st, n, store)
    requires MayEndStmt(runtimeNames, s, st, n, n in store, c)
    ensures RunsStmt(s, store, Normal(end)) && (n in end <==> c)
    ensures ExactOn(guards, AfterStmt(runtimeNames, s, st), end) && StmtCalm(guards, s, store, end)
    decreases s, 1
  {
    var finally_ := BeforeFinally(runtimeNames, s, st);
    var m: bool :| MayLeave(runtimeNames, s, st, n, n in store, m) && MayEnd(runtimeNames, s.finalbody, finally_, n, m, c);
    var mid := RealizeLeave(runtimeNames, guards, s, st, n, store, m);
    ExactBeforeFinally(runtimeNames, guards, s, st);
    end := RealizeEnd(runtimeNames, guards, s.finalbody, finally_, n, mid.store, c);
  }

  lemma {:induction false} RealizeTryRaise(runtimeNames: set<Name>, guards: iset<Name>, s: Stmt, st: ScopeState, n: Name, store: Store, c: bool)
    returns (end: Store)
    requires s.Try? && StmtSetting(runtimeNames, guards, s, st, n, store)
    requires MayRaiseStmt(runtimeNames, s, st, n, n in store, c) && (n in store) != c
    ensures RunsStmt(s, store, Raised(end)) && (n in end <==> c)
    ensures StmtCalm(guards, s, store, end)
    decreases s, 1
  {
    var finally_ := BeforeFinally(runtimeNames, s, st);
    var m: bool :| (MayLeave(runtimeNames, s, st, n, n in store, m) || MayEscape(runtimeNames, s, st, n, n in store, m)) &&
      MayRaise(runtimeNames, s.finalbody, finally_, n, m, c);
    var mid: Outcome;
    if MayLeave(runtimeNames, s, st, n, n in store, m) {
      mid := RealizeLeave(runtimeNames, guards, s, st, n, store, m);
    } else {
      mid := RealizeEscape(runtimeNames, guards, s, st, n, store, m);
    }
    ExactBeforeFinally(runtimeNames, guards, s, st);
    end := RealizeRaise(runtimeNames, guards, s.finalbody, finally_, n, mid.store, c);
  }
}
