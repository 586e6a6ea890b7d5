/** A way in which the definite-binding audit errs: a guard that is bound anew where it has been decided. */
module GuardRebinding {
  import opened Prelude
  import opened DefiniteBinding
  import opened BindingRuns
  import opened BindingTransfer
  import opened BindingSoundness
  import opened BindingExactness
  import opened BindingWitnesses
  import opened BindingVerdict

  // ---------------------------------------------------------------------------------------------
  // Where a guard may be bound anew unseen
  // ---------------------------------------------------------------------------------------------

  /** The statements in which code is judged by the state before, though it may run behind a rebinding. */
  datatype Kind = Loop | Handling | Matching {
    predicate Of(s: Stmt) {
      match this
      case Loop => s.For? || s.While?
      case Handling => s.Try?
      case Matching => s.Match?
    }
  }

  /** The names bound or unbound before such code may run. */
  function Crossed(s: Stmt): set<Name> {
    match s
    case For(targets, body, _) => NameSet(targets) + Touched(body)
    case While(body, _) => Touched(body)
    case Try(body, handlers, orelse, _) => Touched(body) + TouchedByHandlers(handlers) + Touched(orelse)
    case Match(cases) => CaseNames(cases)
    case _ => {}
  }

  /** What the audit knows of guards stays right inside every part of the statement. */
  ghost predicate PartsSteady(runtimeNames: set<Name>, s: Stmt, st: ScopeState) {
    match s
    case For(_, body, orelse) =>
      Steady(runtimeNames, EVERY, body, LoopEntry(s, st)) && Steady(runtimeNames, EVERY, orelse, LoopExit(runtimeNames, s, st))
    case While(body, orelse) =>
      Steady(runtimeNames, EVERY, body, LoopEntry(s, st)) && Steady(runtimeNames, EVERY, orelse, LoopExit(runtimeNames, s, st))
    case Try(body, handlers, orelse, finalbody) =>
      && Steady(runtimeNames, EVERY, body, st) && Steady(runtimeNames, EVERY, orelse, After(runtimeNames, body, st))
      && Steady(runtimeNames, EVERY, finalbody, BeforeFinally(runtimeNames, s, st))
      && forall i :: 0 <= i < |handlers| ==> Steady(runtimeNames, EVERY, handlers[i].body, HandlerEntry(handlers[i], st))
    case Match(cases) =>
      forall i :: 0 <= i < |cases| ==> Steady(runtimeNames, EVERY, cases[i].body, st.BindNames(cases[i].names, None))
    case _ => SteadyStmt(runtimeNames, EVERY, s, st)
  }

  lemma SteadyByParts(runtimeNames: set<Name>, s: Stmt, st: ScopeState)
    ensures SteadyStmt(runtimeNames, EVERY, s, st) <==> PartsSteady(runtimeNames, s, st) && NoneKnown(EVERY, st, Crossed(s))
  {
  }

  /** Of every statement of the kind that crosses these names only, the audit's claims about guarded names are right. */
  ghost predicate ClaimsHold(runtimeNames: set<Name>, kind: Kind, names: set<Name>, st: ScopeState) {
    forall s, n ::
      kind.Of(s) && Crossed(s) <= names && PartsSteady(runtimeNames, s, st) && StmtGuarded(runtimeNames, s, st, n) && n in AfterStmt(runtimeNames, s, st).bound ==>
        ClaimIsRight([s], st, n)
  }

  /** For every loop that binds and unbinds these names only, the single pass gives the iterated fixed point. */
  ghost predicate SinglePassSuffices(runtimeNames: set<Name>, names: set<Name>, before: ScopeState) {
    forall targets: seq<Name>, body: seq<Stmt>, k: nat :: k > 0 && NameSet(targets) + Touched(body) <= names ==>
      LoopHead(runtimeNames, targets, body, before, k).bound == LoopHead(runtimeNames, targets, body, before, 1).bound
  }

  // ---------------------------------------------------------------------------------------------
  // Code that goes wrong behind a rebinding
  // ---------------------------------------------------------------------------------------------

  /** The guard to which a known name leads. */
  function GuardUnder(x: Name, canonical: string): Ref {
    Ref(x, if canonical in GUARDS then "" else "TYPE_CHECKING")
  }

  /** `if guard: del x` */
  function GuardedDelete(guard: Ref): Stmt {
    If(Named(guard), [Del([guard.root])], [])
  }

  /** `if other(): x = 1` */
  function Rebind(x: Name): Stmt {
    If(Other, [Bind([x], Opaque)], [])
  }

  function RebindingBody(guard: Ref): seq<Stmt> {
    [GuardedDelete(guard), Rebind(guard.root)]
  }

  /** `while ...: (if guard: del x); (if other(): x = 1)`, `try: x = 1 except: (if guard: del x)`, or the same in a `match` */
  function Misleading(kind: Kind, guard: Ref): Stmt {
    var x := guard.root;
    match kind
    case Loop => While(RebindingBody(guard), [])
    case Handling => Try([Bind([x], Opaque)], [Handler(None, [GuardedDelete(guard)])], [], [])
    case Matching => Match([Case([x], []), Case([], [GuardedDelete(guard)])])
  }

  lemma OneName(runtimeNames: set<Name>, st: ScopeState, name: Name, canonical: Option<string>)
    ensures st.BindNames([name], canonical) == st.BindName(name, canonical)
    ensures st.UnbindNames(runtimeNames, [name]) == st.UnbindName(runtimeNames, name)
  {
    assert [name][..0] == [];
  }

  lemma AfterTwo(runtimeNames: set<Name>, first: Stmt, second: Stmt, st: ScopeState)
    ensures After(runtimeNames, [first, second], st) == AfterStmt(runtimeNames, second, AfterStmt(runtimeNames, first, st))
  {
    assert [first, second][..1] == [first];
    OneStatement(runtimeNames, first, st, "");
  }

  lemma KnownGuardIsDecided(runtimeNames: set<Name>, st: ScopeState, x: Name)
    requires st.Tidy(runtimeNames) && st.GuardName(x).Some?
    ensures var guard := GuardUnder(x, st.resolved[x]);
      && IsGuard(st.CanonicalName(runtimeNames, guard))
      && st.Truth(runtimeNames, Named(guard)) == Some(false)
      && AfterStmt(runtimeNames, GuardedDelete(guard), st) == st
  {
    GuardPath(st.resolved[x], "TYPE_CHECKING");
  }

  /** While the guard is known the `del` is dead, and the pass only forgets the guard. */
  lemma PassWithGuard(runtimeNames: set<Name>, st: ScopeState, x: Name)
    requires st.Tidy(runtimeNames) && st.GuardName(x).Some?
    ensures After(runtimeNames, RebindingBody(GuardUnder(x, st.resolved[x])), st) == st.BindName(x, None).Merge(st)
  {
    var guard := GuardUnder(x, st.resolved[x]);
    KnownGuardIsDecided(runtimeNames, st, x);
    AfterTwo(runtimeNames, GuardedDelete(guard), Rebind(x), st);
    OneStatement(runtimeNames, Bind([x], Opaque), st, x);
    OneName(runtimeNames, st, x, None);
  }

  /** Once it is unknown the pass loses the name. */
  lemma PassWithoutGuard(runtimeNames: set<Name>, guard: Ref, st: ScopeState)
    requires guard.root !in st.resolved
    ensures guard.root !in After(runtimeNames, RebindingBody(guard), st).bound
  {
    var x, mid := guard.root, AfterStmt(runtimeNames, GuardedDelete(guard), st);
    AfterTwo(runtimeNames, GuardedDelete(guard), Rebind(x), st);
    OneStatement(runtimeNames, Del([x]), st, x);
    OneName(runtimeNames, st, x, None);
    assert x !in mid.bound;
    OneStatement(runtimeNames, Bind([x], Opaque), mid, x);
  }

  lemma TouchedByOne(s: Stmt)
    ensures Touched([s]) == TouchedBy(s)
  {
    assert [s][..0] == [];
  }

  lemma CodeTouches(guard: Ref)
    ensures TouchedBy(GuardedDelete(guard)) == TouchedBy(Rebind(guard.root)) == {guard.root}
    ensures Touched(RebindingBody(guard)) == {guard.root}
  {
    var x, body := guard.root, RebindingBody(guard);
    assert NameSet([x]) == {x} && body[..1] == [body[0]];
    TouchedByOne(Del([x]));
    TouchedByOne(Bind([x], Opaque));
    TouchedByOne(body[0]);
  }

  /** One pass is not enough for a loop that may bind its guard anew. */
  lemma SecondPassDiffers(runtimeNames: set<Name>, before: ScopeState, x: Name)
    requires before.Tidy(runtimeNames) && before.GuardName(x).Some?
    ensures var body := RebindingBody(GuardUnder(x, before.resolved[x]));
      x in LoopHead(runtimeNames, [], body, before, 1).bound && x !in LoopHead(runtimeNames, [], body, before, 2).bound
  {
    var guard := GuardUnder(x, before.resolved[x]);
    var once := LoopHead(runtimeNames, [], RebindingBody(guard), before, 1);
    assert LoopHead(runtimeNames, [], RebindingBody(guard), before, 0) == before;
    PassWithGuard(runtimeNames, before, x);
    PassWithoutGuard(runtimeNames, guard, once);
  }

  /**
   The single pass over loops is exact if and only if no name they bind or unbind is known as a guard, or as a way to
   one, before.
   */
  lemma SinglePassSufficesIff(runtimeNames: set<Name>, names: set<Name>, before: ScopeState)
    requires before.Tidy(runtimeNames)
    ensures SinglePassSuffices(runtimeNames, names, before) <==> forall x :: x in names ==> before.GuardName(x).None?
  {
    if x :| x in names && before.GuardName(x).Some? {
      var guard := GuardUnder(x, before.resolved[x]);
      SecondPassDiffers(runtimeNames, before, x);
      CodeTouches(guard);
      assert NameSet([]) + Touched(RebindingBody(guard)) <= names;
    } else {
      forall targets: seq<Name>, body: seq<Stmt>, k: nat | k > 0 && NameSet(targets) + Touched(body) <= names
        ensures LoopHead(runtimeNames, targets, body, before, k).bound == LoopHead(runtimeNames, targets, body, before, 1).bound
      {
        EveryProgramIsClosed(body);
        OnePassIsEnough(runtimeNames, EVERY, targets, body, before, k, before);
      }
    }
  }

  // ---------------------------------------------------------------------------------------------
  // The runs that go wrong
  // ---------------------------------------------------------------------------------------------

  lemma BindRuns(name: Name, value: BoundValue, store: Store, v: Option<string>)
    requires Yields(value, store, v)
    ensures RunsStmt(Bind([name], value), store, Normal(store[name := v]))
  {
    assert [name][..1] == [name] && NameSet([name]) == {name};
    assert Assigned(store, store[name := v], NameSet([name][..1]), value);
  }

  lemma RunsOne(s: Stmt, store: Store, o: Outcome)
    requires RunsStmt(s, store, o)
    ensures Runs([s], store, o)
  {
    assert Runs([], store, Normal(store));
    RunsSnoc([], s, store, store, o);
    assert [] + [s] == [s];
  }

  lemma RunsTwo(first: Stmt, second: Stmt, store: Store, mid: Store, o: Outcome)
    requires RunsStmt(first, store, Normal(mid)) && RunsStmt(second, mid, o)
    ensures Runs([first, second], store, o)
  {
    RunsOne(first, store, Normal(mid));
    RunsSnoc([first], second, store, mid, o);
    assert [first] + [second] == [first, second];
  }

  /** A name that holds no guard may be deleted under the test. */
  lemma DeleteRuns(guard: Ref, store: Store)
    requires guard.root in store && store[guard.root].None?
    ensures Runs([GuardedDelete(guard)], store, Normal(store - {guard.root}))
  {
    var x := guard.root;
    assert [x][..1] == [x] && NameSet([x]) == {x};
    assert Unbinds([x], store, Normal(store - {x}));
    RunsOne(Del([x]), store, Normal(store - {x}));
    assert May(Named(guard), store, true);
    assert RunsStmt(GuardedDelete(guard), store, Normal(store - {x}));
    RunsOne(GuardedDelete(guard), store, Normal(store - {x}));
  }

  lemma SkipRuns(test: Test, body: seq<Stmt>, store: Store)
    requires May(test, store, false)
    ensures RunsStmt(If(test, body, []), store, Normal(store))
  {
    assert Runs([], store, Normal(store));
  }

  lemma BodyRuns(guard: Ref, store: Store, mid: Store, next: Store)
    requires RunsStmt(GuardedDelete(guard), store, Normal(mid)) && RunsStmt(Rebind(guard.root), mid, Normal(next))
    ensures RunsBody(Misleading(Loop, guard), store, Normal(next))
  {
    RunsTwo(GuardedDelete(guard), Rebind(guard.root), store, mid, Normal(next));
    assert Assigned(store, store, NameSet(Targets(Misleading(Loop, guard))), Opaque);
  }

  lemma IterateTwice(loop: Stmt, first: Store, second: Store, third: Store)
    requires loop.While? && loop.orelse == []
    requires RunsBody(loop, first, Normal(second)) && RunsBody(loop, second, Normal(third))
    ensures RunsStmt(loop, first, Normal(third))
  {
    var heads := [first, second, third];
    forall i | 0 < i < |heads|
      ensures RunsBody(loop, heads[i - 1], Normal(heads[i]))
    {
      assert i == 1 || i == 2;
    }
    assert Iterations(loop, heads);
    assert Runs(loop.orelse, third, Normal(third));
    assert LeavesLoop(loop, third, Normal(third)) && heads[|heads| - 1] == third;
    assert RunsLoop(loop, heads[0], Normal(third));
  }

  /** The first iteration binds the guard anew. */
  lemma FirstIteration(guard: Ref, store: Store)
    requires guard.root in store && IsGuard(CanonicalAt(store, guard))
    ensures RunsBody(Misleading(Loop, guard), store, Normal(store[guard.root := None]))
  {
    var x := guard.root;
    SkipRuns(Named(guard), [Del([x])], store);
    BindRuns(x, Opaque, store, None);
    RunsOne(Bind([x], Opaque), store, Normal(store[x := None]));
    BodyRuns(guard, store, store, store[x := None]);
  }

  /** The second deletes it. */
  lemma SecondIteration(guard: Ref, store: Store)
    requires guard.root in store && store[guard.root].None?
    ensures RunsBody(Misleading(Loop, guard), store, Normal(store - {guard.root}))
  {
    var x := guard.root;
    DeleteRuns(guard, store);
    OneRun(guard, store, store - {x});
    SkipRuns(Other, [Bind([x], Opaque)], store - {x});
    BodyRuns(guard, store, store - {x}, store - {x});
  }

  lemma LoopMisleads(guard: Ref, store: Store)
    requires guard.root in store && IsGuard(CanonicalAt(store, guard))
    ensures RunsStmt(Misleading(Loop, guard), store, Normal(store - {guard.root}))
  {
    var rebound: Store := store[guard.root := None];
    FirstIteration(guard, store);
    SecondIteration(guard, rebound);
    IterateTwice(Misleading(Loop, guard), store, rebound, rebound - {guard.root});
    assert rebound - {guard.root} == store - {guard.root};
  }

  lemma OneRun(guard: Ref, store: Store, end: Store)
    requires Runs([GuardedDelete(guard)], store, Normal(end))
    ensures RunsStmt(GuardedDelete(guard), store, Normal(end))
  {
    assert [GuardedDelete(guard)][..0] == [];
  }

  /** The body raises behind the rebinding. */
  lemma TryMisleads(guard: Ref, store: Store)
    requires guard.root in store
    ensures RunsStmt(Misleading(Handling, guard), store, Normal(store - {guard.root}))
  {
    var s, x := Misleading(Handling, guard), guard.root;
    var rebound: Store, h := store[x := None], s.handlers[0];
    var end := rebound - {x};
    BindRuns(x, Opaque, store, None);
    assert s.body[..0] == [] && Runs([], store, Normal(store)) && Runs(s.body, store, Raised(rebound));
    DeleteRuns(guard, rebound);
    assert RunsHandler(h, rebound, Normal(end));
    assert RunsGuarded(s, store, Normal(end)) && Runs(s.finalbody, end, Normal(end));
    assert end == store - {x} && Normal(end).Normal?;
  }

  /** The first pattern captures the name and fails in the end. */
  lemma MatchMisleads(guard: Ref, store: Store)
    requires guard.root in store
    ensures RunsStmt(Misleading(Matching, guard), store, Normal(store - {guard.root}))
  {
    var s, x := Misleading(Matching, guard), guard.root;
    var rebound: Store := store[x := None];
    var end := rebound - {x};
    DeleteRuns(guard, rebound);
    assert x in s.cases[0].names && {x} <= CaseNames(s.cases);
    assert Assigned(store, rebound, {x}, Opaque) && Assigned(rebound, rebound, NameSet(s.cases[1].names), Opaque);
    assert RunsCase(s.cases[1], rebound, Normal(end));
    assert end == store - {x};
  }

  // ---------------------------------------------------------------------------------------------
  // Exactly when claims are right
  // ---------------------------------------------------------------------------------------------

  lemma DeleteIsDead(runtimeNames: set<Name>, st: ScopeState, x: Name)
    requires st.Tidy(runtimeNames) && st.GuardName(x).Some?
    ensures var code := [GuardedDelete(GuardUnder(x, st.resolved[x]))];
      After(runtimeNames, code, st) == st && Steady(runtimeNames, EVERY, code, st) && Guarded(runtimeNames, code, st, x)
  {
    var s := GuardedDelete(GuardUnder(x, st.resolved[x]));
    assert [s][..0] == [];
    KnownGuardIsDecided(runtimeNames, st, x);
    OneStatement(runtimeNames, s, st, x);
  }

  lemma BindIsSteady(runtimeNames: set<Name>, st: ScopeState, x: Name)
    ensures var code := [Bind([x], Opaque)];
      Steady(runtimeNames, EVERY, code, st) && Guarded(runtimeNames, code, st, x) && !CanLose(runtimeNames, code, st, x)
  {
    assert [Bind([x], Opaque)][..0] == [];
  }

  /** Nothing but the rebinding stands against the misleading statements, and the audit keeps the name. */
  lemma MisleadingIsClaimed(runtimeNames: set<Name>, kind: Kind, st: ScopeState, x: Name)
    requires st.Tidy(runtimeNames) && st.GuardName(x).Some?
    ensures var s := Misleading(kind, GuardUnder(x, st.resolved[x]));
      && Crossed(s) == {x} && PartsSteady(runtimeNames, s, st) && StmtGuarded(runtimeNames, s, st, x)
      && x in AfterStmt(runtimeNames, s, st).bound
  {
    var guard := GuardUnder(x, st.resolved[x]);
    assert NameSet([x]) == {x};
    DeleteIsDead(runtimeNames, st, x);
    match kind
    case Loop =>
      CodeTouches(guard);
      LoopIsClaimed(runtimeNames, st, x);
    case Handling =>
      BindIsSteady(runtimeNames, st, x);
      TryCrosses(guard);
      TryIsClaimed(runtimeNames, st, x);
    case Matching =>
      MatchIsClaimed(runtimeNames, st, x);
      MatchIsSteady(runtimeNames, st, x);
  }

  lemma LoopIsClaimed(runtimeNames: set<Name>, st: ScopeState, x: Name)
    requires st.Tidy(runtimeNames) && st.GuardName(x).Some?
    ensures var s := Misleading(Loop, GuardUnder(x, st.resolved[x]));
      PartsSteady(runtimeNames, s, st) && StmtGuarded(runtimeNames, s, st, x) && x in AfterStmt(runtimeNames, s, st).bound
  {
    var guard := GuardUnder(x, st.resolved[x]);
    var body := RebindingBody(guard);
    DeleteIsDead(runtimeNames, st, x);
    BindIsSteady(runtimeNames, st, x);
    PassWithGuard(runtimeNames, st, x);
    assert body[..1] == [body[0]];
    assert Steady(runtimeNames, EVERY, body, st) && Guarded(runtimeNames, body, st, x);
  }

  lemma HandlerIsDead(runtimeNames: set<Name>, st: ScopeState, x: Name)
    requires st.Tidy(runtimeNames) && st.GuardName(x).Some?
    ensures HandlersEffect(runtimeNames, Misleading(Handling, GuardUnder(x, st.resolved[x])).handlers, st, x) == Keeps
  {
    var guard := GuardUnder(x, st.resolved[x]);
    var h := Misleading(Handling, guard).handlers[0];
    KnownGuardIsDecided(runtimeNames, st, x);
    assert EffectOf(runtimeNames, GuardedDelete(guard), st, x) == Keeps;
    assert h.body[..0] == [] && EffectOfAll(runtimeNames, h.body, st, x) == Keeps;
    assert [h][..0] == [] && HandlerEffect(runtimeNames, h, st, x) == Keeps;
  }

  lemma TryIsClaimed(runtimeNames: set<Name>, st: ScopeState, x: Name)
    requires st.Tidy(runtimeNames) && st.GuardName(x).Some?
    ensures x in AfterStmt(runtimeNames, Misleading(Handling, GuardUnder(x, st.resolved[x])), st).bound
  {
    var s := Misleading(Handling, GuardUnder(x, st.resolved[x]));
    StmtTransferIsPerName(runtimeNames, s, st, x);
    HandlerIsDead(runtimeNames, st, x);
    assert EffectOfAll(runtimeNames, s.body, st, x) == Sets by {
      assert s.body[..0] == [] && EffectOf(runtimeNames, s.body[0], st, x) == Sets;
    }
    assert EffectOfAll(runtimeNames, s.orelse, After(runtimeNames, s.body, st), x) == Keeps;
    assert EffectOfAll(runtimeNames, s.finalbody, BeforeFinally(runtimeNames, s, st), x) == Keeps;
    assert GuardedEffect(runtimeNames, s, st, x) == Keeps;
  }

  lemma TryCrosses(guard: Ref)
    ensures Crossed(Misleading(Handling, guard)) == {guard.root}
  {
    var s, x := Misleading(Handling, guard), guard.root;
    CodeTouches(guard);
    TouchedByOne(s.handlers[0].body[0]);
    TouchedByOne(s.body[0]);
    assert Touched(s.body) == {x} by { assert NameSet([x]) == {x}; }
    assert TouchedByHandlers(s.handlers) == {x} by { assert s.handlers[..0] == []; }
    assert Touched(s.orelse) == {};
  }

  lemma MatchIsClaimed(runtimeNames: set<Name>, st: ScopeState, x: Name)
    requires st.Tidy(runtimeNames) && st.GuardName(x).Some?
    ensures x in AfterStmt(runtimeNames, Misleading(Matching, GuardUnder(x, st.resolved[x])), st).bound
  {
    var s := Misleading(Matching, GuardUnder(x, st.resolved[x]));
    DeleteIsDead(runtimeNames, st, x);
    assert st.BindNames([], None) == st;
    var states := [st] + CaseStates(runtimeNames, s.cases, st);
    forall i | 0 <= i < |states| ensures x in states[i].bound {
      if i > 0 {
        CaseStateAt(runtimeNames, s.cases, st, i - 1);
      }
    }
    assert InAll(x, states);
  }

  lemma MatchIsSteady(runtimeNames: set<Name>, st: ScopeState, x: Name)
    requires st.Tidy(runtimeNames) && st.GuardName(x).Some?
    ensures var s := Misleading(Matching, GuardUnder(x, st.resolved[x]));
      Crossed(s) == {x} && PartsSteady(runtimeNames, s, st) && StmtGuarded(runtimeNames, s, st, x)
  {
    var s := Misleading(Matching, GuardUnder(x, st.resolved[x]));
    DeleteIsDead(runtimeNames, st, x);
    assert st.BindNames([], None) == st && x in s.cases[0].names && |s.cases| == 2;
  }

  /** A run of the misleading statement loses the name that the audit keeps. */
  lemma ReboundGuardMisleads(runtimeNames: set<Name>, kind: Kind, st: ScopeState, x: Name)
    requires st.Tidy(runtimeNames) && st.GuardName(x).Some?
    ensures var s := Misleading(kind, GuardUnder(x, st.resolved[x]));
      x in After(runtimeNames, [s], st).bound && !ClaimIsRight([s], st, x)
  {
    var guard, store := GuardUnder(x, st.resolved[x]), PlainStore(st, x, true);
    var s := Misleading(kind, guard);
    MisleadingIsClaimed(runtimeNames, kind, st, x);
    OneStatement(runtimeNames, s, st, x);
    PlainStoreFits(runtimeNames, EVERY, st, x, true);
    match kind {
      case Loop =>
        KnownGuardIsDecided(runtimeNames, st, x);
        LoopMisleads(guard, store);
      case Handling =>
        TryMisleads(guard, store);
      case Matching =>
        MatchMisleads(guard, store);
    }
    RunsOne(s, store, Normal(store - {x}));
  }

  /**
   The audit's claims behind loops, try statements or match statements are right if and only if no name that they
   bind or unbind before other code is judged by the state before is known there as a guard, or as a way to one.
   */
  lemma ClaimsHoldIff(runtimeNames: set<Name>, kind: Kind, names: set<Name>, st: ScopeState)
    requires st.Tidy(runtimeNames)
    ensures ClaimsHold(runtimeNames, kind, names, st) <==> forall x :: x in names ==> st.GuardName(x).None?
  {
    if x :| x in names && st.GuardName(x).Some? {
      var s := Misleading(kind, GuardUnder(x, st.resolved[x]));
      MisleadingIsClaimed(runtimeNames, kind, st, x);
      ReboundGuardMisleads(runtimeNames, kind, st, x);
      assert kind.Of(s) && Crossed(s) <= names;
    } else {
      forall s, n | Crossed(s) <= names && PartsSteady(runtimeNames, s, st) && StmtGuarded(runtimeNames, s, st, n) && n in AfterStmt(runtimeNames, s, st).bound
        ensures ClaimIsRight([s], st, n)
      {
        SteadyByParts(runtimeNames, s, st);
        SteadyClaimIsRight(runtimeNames, s, st, n);
      }
    }
  }

  lemma SteadyClaimIsRight(runtimeNames: set<Name>, s: Stmt, st: ScopeState, n: Name)
    requires st.Tidy(runtimeNames) && SteadyStmt(runtimeNames, EVERY, s, st) && StmtGuarded(runtimeNames, s, st, n)
    requires n in AfterStmt(runtimeNames, s, st).bound
    ensures ClaimIsRight([s], st, n)
  {
    assert [s][..0] == [];
    OneStatement(runtimeNames, s, st, n);
    forall store, end | Fits(st, store) && Runs([s], store, Normal(end))
      ensures n in end
    {
      DefiniteBindingIsSound(runtimeNames, EVERY, [s], st, store, end, n);
    }
  }
}
