/** The verdict on the definite-binding audit: exactly when its claims are right. */
module BindingVerdict {
  import opened Prelude
  import opened DefiniteBinding
  import opened BindingRuns
  import opened BindingTransfer
  import opened BindingSoundness
  import opened BindingExactness
  import opened BindingWitnesses

  // ---------------------------------------------------------------------------------------------
  // Programs on which the audit can be judged
  // ---------------------------------------------------------------------------------------------

  /**
   What the audit knows of guards stays right and is the same on all ways through the program, and only the name
   itself is deleted.
   */
  ghost predicate Decidable(runtimeNames: set<Name>, guards: iset<Name>, program: seq<Stmt>, st: ScopeState, n: Name) {
    Steady(runtimeNames, guards, program, st) && Uniform(runtimeNames, guards, program, st) && DeletesOnly(program, n)
  }

  lemma SameKnowledgeAgrees(guards: iset<Name>, a: ScopeState, b: ScopeState)
    requires Knows(guards, a) == Knows(guards, b)
    ensures AgreeOn(guards, a, b)
  {
    KnowsByName(guards, a);
    KnowsByName(guards, b);
    forall n | n in guards ensures a.GuardName(n) == b.GuardName(n) {
      assert n in Knows(guards, a) <==> n in Knows(guards, b);
    }
  }

  lemma QuietValue(runtimeNames: set<Name>, guards: iset<Name>, names: seq<Name>, value: BoundValue, st: ScopeState)
    requires st.Tidy(runtimeNames) && FromGuards(guards, names, value) && StmtQuiet(guards, Knows(guards, st), Bind(names, value))
    ensures Alike(runtimeNames, guards, st, st.BindNames(names, st.ValueName(runtimeNames, value)))
  {
    var canonical := st.ValueName(runtimeNames, value);
    NamesKeepTidy(runtimeNames, st, names, canonical);
    KnownBound(guards, names, canonical, st);
    if n :| n in names && n in guards {
      ValueIsNoGuard(runtimeNames, guards, value, st);
    }
    NothingUpdated(guards, Knows(guards, st), NameSet(names), GuardPart(canonical));
    SameKnowledgeAgrees(guards, st, st.BindNames(names, canonical));
  }

  lemma ValueIsNoGuard(runtimeNames: set<Name>, guards: iset<Name>, value: BoundValue, st: ScopeState)
    requires st.Tidy(runtimeNames) && !IsGuardValue(Knows(guards, st), value) && (value.CopyOf? ==> value.ref.root in guards)
    ensures GuardPart(st.ValueName(runtimeNames, value)).None?
  {
    match value
    case Opaque =>
    case Imported(_) =>
    case CopyOf(ref) =>
      KnowsByName(guards, st);
      GuardsByRoot(runtimeNames, ref, st);
    case CallOf(_) =>
      forall factory | factory in FACTORIES ensures GuardPart(Some(factory + ".instance")) == None { NoInstanceIsAGuard(factory); }
  }

  lemma QuietNames(runtimeNames: set<Name>, guards: iset<Name>, names: seq<Name>, st: ScopeState)
    requires st.Tidy(runtimeNames) && NameSet(names) !! Knows(guards, st).Keys
    ensures Alike(runtimeNames, guards, st, st.BindNames(names, None)) && Alike(runtimeNames, guards, st, st.UnbindNames(runtimeNames, names))
    ensures Knows(guards, st.BindNames(names, None)) == Knows(guards, st)
  {
    QuietValue(runtimeNames, guards, names, Opaque, st);
    AgreeingKnowSame(guards, st, st.BindNames(names, None));
    NamesKeepTidy(runtimeNames, st, names, None);
    UnbindLookups(st, runtimeNames, names);
    KnowsByName(guards, st);
    forall n | n in guards ensures st.GuardName(n) == st.UnbindNames(runtimeNames, names).GuardName(n) {
      assert st.UnbindNames(runtimeNames, names).Lookup(n) == if n in names then None else st.Lookup(n);
      assert n in NameSet(names) <==> n in names;
    }
  }

  /**
   It is enough to look at the text of a program: where it touches no known guard and binds none, what the audit knows
   of guards never changes.
   */
  lemma {:induction false} QuietIsUniform(runtimeNames: set<Name>, guards: iset<Name>, statements: seq<Stmt>, st: ScopeState)
    requires st.Tidy(runtimeNames) && Closed(guards, statements) && Quiet(guards, Knows(guards, st), statements)
    ensures Steady(runtimeNames, guards, statements, st) && Uniform(runtimeNames, guards, statements, st)
    ensures Alike(runtimeNames, guards, st, After(runtimeNames, statements, st))
    ensures Knows(guards, After(runtimeNames, statements, st)) == Knows(guards, st)
    decreases statements
  {
    if statements == [] {
    } else {
      var front, last := statements[..|statements| - 1], statements[|statements| - 1];
      var behind := After(runtimeNames, front, st);
      QuietIsUniform(runtimeNames, guards, front, st);
      QuietStmtIsUniform(runtimeNames, guards, last, behind);
      AgreeingKnowSame(guards, behind, AfterStmt(runtimeNames, last, behind));
      SameKnowledgeAgrees(guards, st, AfterStmt(runtimeNames, last, behind));
    }
  }

  /** Guards may be bound by statements that come before. */
  lemma {:induction false} QuietBehind(runtimeNames: set<Name>, guards: iset<Name>, front: seq<Stmt>, back: seq<Stmt>, st: ScopeState)
    requires st.Tidy(runtimeNames) && Steady(runtimeNames, guards, front, st) && Uniform(runtimeNames, guards, front, st)
    requires Closed(guards, back) && Quiet(guards, Knows(guards, After(runtimeNames, front, st)), back)
    ensures Steady(runtimeNames, guards, front + back, st) && Uniform(runtimeNames, guards, front + back, st)
    ensures After(runtimeNames, front + back, st) == After(runtimeNames, back, After(runtimeNames, front, st))
    decreases |back|
  {
    if back == [] {
      assert front + back == front;
    } else {
      var rest := back[..|back| - 1];
      assert (front + back)[..|front + back| - 1] == front + rest;
      QuietBehind(runtimeNames, guards, front, rest, st);
      StaysTidy(runtimeNames, front, st);
      QuietIsUniform(runtimeNames, guards, back, After(runtimeNames, front, st));
    }
  }

  lemma {:induction false} QuietStmtIsUniform(runtimeNames: set<Name>, guards: iset<Name>, s: Stmt, st: ScopeState)
    requires st.Tidy(runtimeNames) && ClosedStmt(guards, s) && StmtQuiet(guards, Knows(guards, st), s)
    ensures SteadyStmt(runtimeNames, guards, s, st) && UniformStmt(runtimeNames, guards, s, st)
    ensures Alike(runtimeNames, guards, st, AfterStmt(runtimeNames, s, st))
    decreases s, 1
  {
    match s
    case Bind(names, value) =>
      QuietValue(runtimeNames, guards, names, value, st);
    case Del(names) =>
      QuietNames(runtimeNames, guards, names, st);
    case If(_, _, _) =>
      QuietIfIsUniform(runtimeNames, guards, s, st);
    case For(_, _, _) =>
      QuietLoopIsUniform(runtimeNames, guards, s, st);
    case While(_, _) =>
      QuietLoopIsUniform(runtimeNames, guards, s, st);
    case Try(_, _, _, _) =>
      QuietTryIsUniform(runtimeNames, guards, s, st);
    case With(_, _, _) =>
      QuietWithIsUniform(runtimeNames, guards, s, st);
    case Match(_) =>
      QuietMatchIsUniform(runtimeNames, guards, s, st);
  }

  lemma {:induction false} QuietIfIsUniform(runtimeNames: set<Name>, guards: iset<Name>, s: Stmt, st: ScopeState)
    requires s.If?
    requires st.Tidy(runtimeNames) && ClosedStmt(guards, s) && StmtQuiet(guards, Knows(guards, st), s)
    ensures SteadyStmt(runtimeNames, guards, s, st) && UniformStmt(runtimeNames, guards, s, st)
    ensures Alike(runtimeNames, guards, st, AfterStmt(runtimeNames, s, st))
    decreases s, 0
  {
    var yes, no := After(runtimeNames, s.body, st), After(runtimeNames, s.orelse, st);
    QuietIsUniform(runtimeNames, guards, s.body, st);
    QuietIsUniform(runtimeNames, guards, s.orelse, st);
    SameKnowledgeAgrees(guards, yes, no);
    MergeKnows(runtimeNames, yes, no);
  }

  lemma {:induction false} QuietLoopIsUniform(runtimeNames: set<Name>, guards: iset<Name>, s: Stmt, st: ScopeState)
    requires s.For? || s.While?
    requires st.Tidy(runtimeNames) && ClosedStmt(guards, s) && StmtQuiet(guards, Knows(guards, st), s)
    ensures SteadyStmt(runtimeNames, guards, s, st) && UniformStmt(runtimeNames, guards, s, st)
    ensures Alike(runtimeNames, guards, st, AfterStmt(runtimeNames, s, st))
    decreases s, 0
  {
    var entry, exit := LoopEntry(s, st), LoopExit(runtimeNames, s, st);
    KnowsByName(guards, st);
    QuietNames(runtimeNames, guards, Targets(s), st);
    QuietIsUniform(runtimeNames, guards, s.body, entry);
    SameKnowledgeAgrees(guards, st, After(runtimeNames, s.body, entry));
    LoopExitIsAlike(runtimeNames, guards, s, st);
    AgreeingKnowSame(guards, st, exit);
    QuietIsUniform(runtimeNames, guards, s.orelse, exit);
    LoopStaysAlike(runtimeNames, guards, s, st);
  }

  lemma LoopStaysAlike(runtimeNames: set<Name>, guards: iset<Name>, s: Stmt, st: ScopeState)
    requires s.For? || s.While?
    requires var exit := LoopExit(runtimeNames, s, st);
      Alike(runtimeNames, guards, st, exit) && Alike(runtimeNames, guards, exit, After(runtimeNames, s.orelse, exit))
    ensures Alike(runtimeNames, guards, st, AfterStmt(runtimeNames, s, st))
  {
    var exit := LoopExit(runtimeNames, s, st);
    MergeKnows(runtimeNames, exit, After(runtimeNames, s.orelse, exit));
    forall n | n in guards ensures st.GuardName(n) == AfterStmt(runtimeNames, s, st).GuardName(n) {
      assert st.GuardName(n) == exit.GuardName(n);
    }
  }

  lemma {:induction false} QuietTryIsUniform(runtimeNames: set<Name>, guards: iset<Name>, s: Stmt, st: ScopeState)
    requires s.Try?
    requires st.Tidy(runtimeNames) && ClosedStmt(guards, s) && StmtQuiet(guards, Knows(guards, st), s)
    ensures SteadyStmt(runtimeNames, guards, s, st) && UniformStmt(runtimeNames, guards, s, st)
    ensures Alike(runtimeNames, guards, st, AfterStmt(runtimeNames, s, st))
    decreases s, 0
  {
    var finally_ := BeforeFinally(runtimeNames, s, st);
    KnowsByName(guards, st);
    QuietIsUniform(runtimeNames, guards, s.body, st);
    QuietIsUniform(runtimeNames, guards, s.orelse, After(runtimeNames, s.body, st));
    forall i | 0 <= i < |s.handlers|
      ensures Steady(runtimeNames, guards, s.handlers[i].body, HandlerEntry(s.handlers[i], st))
      ensures Uniform(runtimeNames, guards, s.handlers[i].body, HandlerEntry(s.handlers[i], st))
    {
      HandlerTouches(s.handlers, i);
      QuietHandlerIsUniform(runtimeNames, guards, s.handlers[i], st);
    }
    BeforeFinallyIsAlike(runtimeNames, guards, s, st);
    AgreeingKnowSame(guards, st, finally_);
    QuietIsUniform(runtimeNames, guards, s.finalbody, finally_);
    SameKnowledgeAgrees(guards, st, After(runtimeNames, s.finalbody, finally_));
  }

  lemma {:induction false} QuietHandlerIsUniform(runtimeNames: set<Name>, guards: iset<Name>, h: Handler, st: ScopeState)
    requires st.Tidy(runtimeNames) && Closed(guards, h.body) && HandlerQuiet(guards, Knows(guards, st), h)
    ensures Steady(runtimeNames, guards, h.body, HandlerEntry(h, st)) && Uniform(runtimeNames, guards, h.body, HandlerEntry(h, st))
    decreases h
  {
    if h.name.Some? {
      var m := h.name.value;
      assert NameSet([m]) == {m} && [m][..0] == [];
      QuietNames(runtimeNames, guards, [m], st);
      assert st.BindNames([m], None) == st.BindName(m, None);
    }
    QuietIsUniform(runtimeNames, guards, h.body, HandlerEntry(h, st));
  }

  lemma {:induction false} QuietWithIsUniform(runtimeNames: set<Name>, guards: iset<Name>, s: Stmt, st: ScopeState)
    requires s.With?
    requires st.Tidy(runtimeNames) && ClosedStmt(guards, s) && StmtQuiet(guards, Knows(guards, st), s)
    ensures SteadyStmt(runtimeNames, guards, s, st) && UniformStmt(runtimeNames, guards, s, st)
    ensures Alike(runtimeNames, guards, st, AfterStmt(runtimeNames, s, st))
    decreases s, 0
  {
    var entry := st.BindNames(s.targets, None);
    QuietNames(runtimeNames, guards, s.targets, st);
    QuietIsUniform(runtimeNames, guards, s.body, entry);
    KnowsByName(guards, After(runtimeNames, s.body, entry));
    SameKnowledgeAgrees(guards, st, After(runtimeNames, s.body, entry));
  }

  lemma {:induction false} QuietMatchIsUniform(runtimeNames: set<Name>, guards: iset<Name>, s: Stmt, st: ScopeState)
    requires s.Match?
    requires st.Tidy(runtimeNames) && ClosedStmt(guards, s) && StmtQuiet(guards, Knows(guards, st), s)
    ensures SteadyStmt(runtimeNames, guards, s, st) && UniformStmt(runtimeNames, guards, s, st)
    ensures Alike(runtimeNames, guards, st, AfterStmt(runtimeNames, s, st))
    decreases s, 0
  {
    KnowsByName(guards, st);
    CaseNamesAreTouched(s.cases);
    forall i | 0 <= i < |s.cases|
      ensures Steady(runtimeNames, guards, s.cases[i].body, st.BindNames(s.cases[i].names, None))
      ensures Uniform(runtimeNames, guards, s.cases[i].body, st.BindNames(s.cases[i].names, None))
      ensures AgreeOn(guards, st, After(runtimeNames, s.cases[i].body, st.BindNames(s.cases[i].names, None)))
    {
      CaseTouches(s.cases, i);
      QuietNames(runtimeNames, guards, s.cases[i].names, st);
      QuietIsUniform(runtimeNames, guards, s.cases[i].body, st.BindNames(s.cases[i].names, None));
      SameKnowledgeAgrees(guards, st, After(runtimeNames, s.cases[i].body, st.BindNames(s.cases[i].names, None)));
    }
    AfterMatchIsAlike(runtimeNames, guards, s, st);
  }

  // ---------------------------------------------------------------------------------------------
  // The verdict
  // ---------------------------------------------------------------------------------------------

  /** A store that the state may stand for: what is definitely bound is bound, and what is known of guards is so. */
  ghost predicate Fits(st: ScopeState, store: Store) {
    st.bound <= store.Keys && AccurateOn(EVERY, st, store)
  }

  /** The audit's claim that the name is definitely bound behind the program is right. */
  ghost predicate ClaimIsRight(program: seq<Stmt>, st: ScopeState, n: Name) {
    forall store, end :: Fits(st, store) && Runs(program, store, Normal(end)) ==> n in end
  }

  /** The store in which nothing is known beyond what the audit knows. */
  function PlainStore(st: ScopeState, n: Name, b: bool): Store {
    map m | m in st.bound + (if b then {n} else {}) :: if m in st.resolved then Some(st.resolved[m]) else None
  }

  lemma PlainStoreFits(runtimeNames: set<Name>, guards: iset<Name>, st: ScopeState, n: Name, b: bool)
    requires st.Tidy(runtimeNames) && (n in st.bound ==> b)
    ensures Fits(st, PlainStore(st, n, b)) && ExactOn(guards, st, PlainStore(st, n, b)) && (n in PlainStore(st, n, b) <==> b)
  {
  }

  /**
   The audit's claim is right if and only if no completed run may end with the name unbound, judged by the
   structure of the program; a name not definitely bound at the start may be bound or not.
   */
  lemma ClaimIsRightIff(runtimeNames: set<Name>, guards: iset<Name>, program: seq<Stmt>, st: ScopeState, n: Name)
    requires st.Tidy(runtimeNames) && Decidable(runtimeNames, guards, program, st, n)
    ensures ClaimIsRight(program, st, n) <==>
      !MayEnd(runtimeNames, program, st, n, true, false) && (n in st.bound || !MayEnd(runtimeNames, program, st, n, false, false))
  {
    var b := MayEnd(runtimeNames, program, st, n, true, false);
    if MayEnd(runtimeNames, program, st, n, b, false) && (n in st.bound ==> b) {
      PlainStoreFits(runtimeNames, guards, st, n, b);
      var end := RealizeEnd(runtimeNames, guards, program, st, n, PlainStore(st, n, b), false);
      assert Fits(st, PlainStore(st, n, b)) && Runs(program, PlainStore(st, n, b), Normal(end)) && n !in end;
    } else {
      forall store, end | Fits(st, store) && Runs(program, store, Normal(end))
        ensures n in end
      {
        FittingIsAccurate(guards, st, store);
        RunIsFound(runtimeNames, guards, program, st, n, store, Normal(end));
        assert !MayEnd(runtimeNames, program, st, n, n in store, false);
      }
    }
  }

  lemma FittingIsAccurate(guards: iset<Name>, st: ScopeState, store: Store)
    requires Fits(st, store)
    ensures AccurateOn(guards, st, store)
  {
    assert forall n :: n in EVERY;
  }

  /** Some run of the code, completed or not, starts with the name bound and leaves it unbound. */
  ghost predicate Loses(statements: seq<Stmt>, st: ScopeState, n: Name) {
    exists store, o :: Fits(st, store) && n in store && Runs(statements, store, o) && n !in o.store
  }

  /** Code can lose a name, by a live `del` or a handler's exit, if and only if some run does. */
  lemma CanLoseIff(runtimeNames: set<Name>, guards: iset<Name>, statements: seq<Stmt>, st: ScopeState, n: Name)
    requires st.Tidy(runtimeNames) && Decidable(runtimeNames, guards, statements, st, n)
    ensures CanLose(runtimeNames, statements, st, n) <==> Loses(statements, st, n)
  {
    if CanLose(runtimeNames, statements, st, n) {
      LosesWhatItCan(runtimeNames, statements, st, n);
      PlainStoreFits(runtimeNames, guards, st, n, true);
      var end := RealizeRaise(runtimeNames, guards, statements, st, n, PlainStore(st, n, true), false);
      assert Runs(statements, PlainStore(st, n, true), Raised(end)) && n !in Raised(end).store;
    }
    if Loses(statements, st, n) {
      var store, o :| Fits(st, store) && n in store && Runs(statements, store, o) && n !in o.store;
      FittingIsAccurate(guards, st, store);
      RunIsFound(runtimeNames, guards, statements, st, n, store, o);
      if !CanLose(runtimeNames, statements, st, n) {
        KeepsWhatItCannotLose(runtimeNames, statements, st, n);
      }
    }
  }

  lemma OneStatement(runtimeNames: set<Name>, s: Stmt, st: ScopeState, n: Name)
    ensures After(runtimeNames, [s], st) == AfterStmt(runtimeNames, s, st)
    ensures forall b: bool, c: bool :: MayEnd(runtimeNames, [s], st, n, b, c) <==> MayEndStmt(runtimeNames, s, st, n, b, c)
  {
    assert [s][..0] == [];
    forall b: bool, c: bool
      ensures MayEnd(runtimeNames, [s], st, n, b, c) <==> MayEndStmt(runtimeNames, s, st, n, b, c)
    {
      var front := [s][..|[s]| - 1];
      assert front == [] && [s][|[s]| - 1] == s && After(runtimeNames, front, st) == st;
      assert forall m: bool :: MayEnd(runtimeNames, front, st, n, b, m) <==> b == m;
      if MayEndStmt(runtimeNames, s, st, n, b, c) {
        assert MayEnd(runtimeNames, front, st, n, b, b);
      }
    }
  }

  /** What is asked of the text of a program, statement by statement. */
  lemma OneMore(guards: iset<Name>, held: map<Name, string>, front: seq<Stmt>, last: Stmt, n: Name)
    ensures Closed(guards, front + [last]) <==> Closed(guards, front) && ClosedStmt(guards, last)
    ensures Quiet(guards, held, front + [last]) <==> Quiet(guards, held, front) && StmtQuiet(guards, held, last)
    ensures DeletesOnly(front + [last], n) <==> DeletesOnly(front, n) && StmtDeletesOnly(last, n)
  {
    assert (front + [last])[..|front|] == front;
  }

  lemma OnlyOne(guards: iset<Name>, held: map<Name, string>, s: Stmt, n: Name)
    ensures Closed(guards, [s]) <==> ClosedStmt(guards, s)
    ensures Quiet(guards, held, [s]) <==> StmtQuiet(guards, held, s)
    ensures DeletesOnly([s], n) <==> StmtDeletesOnly(s, n)
  {
    OneMore(guards, held, [], s, n);
    assert [] + [s] == [s];
  }

  // ---------------------------------------------------------------------------------------------
  // Why the ways through a program must agree
  // ---------------------------------------------------------------------------------------------

  /** `if other(): from typing import TYPE_CHECKING as g else: from typing_extensions import TYPE_CHECKING as g`, then `if g: del y` */
  function TwoImports(g: Name, y: Name): seq<Stmt> {
    [If(Other, [Bind([g], Imported("typing.TYPE_CHECKING"))], [Bind([g], Imported("typing_extensions.TYPE_CHECKING"))]),
     If(Named(Ref(g, "")), [Del([y])], [])]
  }

  lemma RunOfOne(s: Stmt, store: Store, end: Store)
    requires Runs([s], store, Normal(end))
    ensures RunsStmt(s, store, Normal(end))
  {
    assert [s][..0] == [];
    assert forall mid :: Runs([], store, Normal(mid)) ==> mid == store;
  }

  /** The imported name holds a guard whichever branch has run. */
  lemma EitherImport(g: Name, y: Name, store: Store, mid: Store)
    requires g != y && y in store && RunsStmt(TwoImports(g, y)[0], store, Normal(mid))
    ensures y in mid && IsGuard(CanonicalAt(mid, Ref(g, "")))
  {
    var s := TwoImports(g, y)[0];
    var chosen := if Runs(s.body, store, Normal(mid)) then s.body[0] else s.orelse[0];
    RunOfOne(chosen, store, mid);
    assert [g][..1] == [g] && g in NameSet([g]) && y !in NameSet([g]);
  }

  lemma SkippedDelete(g: Name, y: Name, mid: Store, end: Store)
    requires IsGuard(CanonicalAt(mid, Ref(g, ""))) && RunsStmt(TwoImports(g, y)[1], mid, Normal(end))
    ensures end == mid
  {
    var s := TwoImports(g, y)[1];
    assert s == If(Named(Ref(g, "")), [Del([y])], []) && !May(s.test, mid, true);
    assert Runs([], mid, Normal(end));
  }

  /**
   Both ways know a guard, but under different names, and the audit forgets it: no run deletes `y`, though the structure
   of the program has it that one may.
   */
  lemma WaysMustAgree(runtimeNames: set<Name>, g: Name, y: Name, st: ScopeState)
    requires g != y && st.Tidy(runtimeNames) && y in st.bound
    ensures ClaimIsRight(TwoImports(g, y), st, y) && MayEnd(runtimeNames, TwoImports(g, y), st, y, true, false)
  {
    var program := TwoImports(g, y);
    assert program[..1] == [program[0]];
    forall store, end | Fits(st, store) && Runs(program, store, Normal(end))
      ensures y in end
    {
      var mid :| Runs([program[0]], store, Normal(mid)) && RunsStmt(program[1], mid, Normal(end));
      RunOfOne(program[0], store, mid);
      EitherImport(g, y, store, mid);
      SkippedDelete(g, y, mid, end);
    }
    ForgottenImport(runtimeNames, g, y, st);
  }

  lemma ForgottenImport(runtimeNames: set<Name>, g: Name, y: Name, st: ScopeState)
    requires g != y && st.Tidy(runtimeNames)
    ensures MayEnd(runtimeNames, TwoImports(g, y), st, y, true, false)
  {
    var program := TwoImports(g, y);
    var first, second, behind := program[0], program[1], AfterStmt(runtimeNames, program[0], st);
    assert program[..1] == [first] && [g][..0] == [];
    OneStatement(runtimeNames, first, st, y);
    OneStatement(runtimeNames, first.body[0], st, y);
    OneStatement(runtimeNames, first.orelse[0], st, y);
    OneStatement(runtimeNames, second.body[0], behind, y);
    assert MayEndStmt(runtimeNames, first, st, y, true, true);
    assert g !in behind.resolved && behind.Truth(runtimeNames, second.test).None?;
    assert MayEndStmt(runtimeNames, second, behind, y, true, false);
  }

  /** How a try statement's parts before the finally part may leave a name that is bound when it is entered. */
  predicate LeavesName(runtimeNames: set<Name>, s: Stmt, st: ScopeState, n: Name, m: bool)
    requires s.Try?
  {
    || MayComplete(runtimeNames, s, st, n, true, m)
    || exists i :: 0 <= i < |s.handlers| &&
         (|| MayEndHandler(runtimeNames, s.handlers[i], st, n, true, m)
          || (CanLose(runtimeNames, s.body, st, n) && MayEndHandler(runtimeNames, s.handlers[i], st, n, false, m)))
  }

  /**
   A bound name is rightly kept through a try statement, with any handlers, if and only if it comes out bound of the
   finally part whenever body and else part complete, some handler entered with the name bound completes, or, where
   the body can lose it, some handler entered with the name unbound does.
   */
  lemma TryIsRightIff(runtimeNames: set<Name>, guards: iset<Name>, s: Stmt, st: ScopeState, n: Name)
    requires s.Try? && st.Tidy(runtimeNames) && n in st.bound && Decidable(runtimeNames, guards, [s], st, n)
    ensures ClaimIsRight([s], st, n) <==>
      forall m: bool :: LeavesName(runtimeNames, s, st, n, m) ==> !MayEnd(runtimeNames, s.finalbody, BeforeFinally(runtimeNames, s, st), n, m, false)
  {
    ClaimIsRightIff(runtimeNames, guards, [s], st, n);
    OneStatement(runtimeNames, s, st, n);
    AtOnceMayRaise(runtimeNames, s.body, st, n, true);
    assert MayRaise(runtimeNames, s.body, st, n, true, false) <==> CanLose(runtimeNames, s.body, st, n) by {
      if CanLose(runtimeNames, s.body, st, n) {
        LosesWhatItCan(runtimeNames, s.body, st, n);
      } else {
        KeepsWhatItCannotLose(runtimeNames, s.body, st, n);
      }
    }
    forall m: bool
      ensures MayLeave(runtimeNames, s, st, n, true, m) <==> LeavesName(runtimeNames, s, st, n, m)
    {
      LeavingIsByParts(runtimeNames, s, st, n, m);
    }
    assert MayEndStmt(runtimeNames, s, st, n, true, false) <==>
      exists m: bool :: MayLeave(runtimeNames, s, st, n, true, m) && MayEnd(runtimeNames, s.finalbody, BeforeFinally(runtimeNames, s, st), n, m, false);
  }

  lemma LeavingIsByParts(runtimeNames: set<Name>, s: Stmt, st: ScopeState, n: Name, m: bool)
    requires s.Try? && MayRaise(runtimeNames, s.body, st, n, true, true)
    requires MayRaise(runtimeNames, s.body, st, n, true, false) <==> CanLose(runtimeNames, s.body, st, n)
    ensures MayLeave(runtimeNames, s, st, n, true, m) <==> LeavesName(runtimeNames, s, st, n, m)
  {
    if i, x: bool :| 0 <= i < |s.handlers| && MayRaise(runtimeNames, s.body, st, n, true, x) && MayEndHandler(runtimeNames, s.handlers[i], st, n, x, m) {
      assert x || CanLose(runtimeNames, s.body, st, n);
      assert LeavesName(runtimeNames, s, st, n, m);
    }
  }

  /** Behind a context manager that may swallow exceptions a name is rightly called bound if and only if it is bound on entry and the body cannot lose it. */
  lemma WithIsRightIff(runtimeNames: set<Name>, guards: iset<Name>, targets: seq<Name>, body: seq<Stmt>, st: ScopeState, n: Name)
    requires st.Tidy(runtimeNames) && Decidable(runtimeNames, guards, [With(targets, true, body)], st, n)
    ensures ClaimIsRight([With(targets, true, body)], st, n) <==>
      (n in st.bound || n in targets) && !CanLose(runtimeNames, body, st.BindNames(targets, None), n)
  {
    var s, entry := With(targets, true, body), st.BindNames(targets, None);
    ClaimIsRightIff(runtimeNames, guards, [s], st, n);
    OneStatement(runtimeNames, s, st, n);
    AtOnceMayRaise(runtimeNames, body, entry, n, false);
    if CanLose(runtimeNames, body, entry, n) {
      LosesWhatItCan(runtimeNames, body, entry, n);
      assert MayEndStmt(runtimeNames, s, st, n, true, false);
    } else {
      KeepsWhatItCannotLose(runtimeNames, body, entry, n);
      assert !MayEndStmt(runtimeNames, s, st, n, true, false);
      assert MayEndStmt(runtimeNames, s, st, n, false, false) <==> n !in targets;
    }
  }

  // ---------------------------------------------------------------------------------------------
  // Rebinding under a handler
  // ---------------------------------------------------------------------------------------------

  /** A try body that rebinds the name at its end, under a handler that does nothing. */
  function Rebinding(body: seq<Stmt>, n: Name): Stmt {
    Try(body + [Bind([n], Opaque)], [Handler(None, [])], [], [])
  }

  /** The audit keeps the name through the rebinding try, whatever the body is. */
  lemma RebindingIsKeptByAudit(runtimeNames: set<Name>, body: seq<Stmt>, n: Name, st: ScopeState)
    requires n in st.bound
    ensures n in AfterStmt(runtimeNames, Rebinding(body, n), st).bound
  {
    var s := Rebinding(body, n);
    StmtTransferIsPerName(runtimeNames, s, st, n);
    assert s.body[..|s.body| - 1] == body && s.body[|s.body| - 1] == Bind([n], Opaque);
    assert EffectOf(runtimeNames, s.body[|s.body| - 1], After(runtimeNames, body, st), n) == Sets;
    assert EffectOfAll(runtimeNames, s.body, st, n) == Sets;
    assert s.handlers[..0] == [] && HandlerEffect(runtimeNames, s.handlers[0], st, n) == Keeps;
    assert HandlersEffect(runtimeNames, s.handlers, st, n) == Keeps;
    assert EffectOfAll(runtimeNames, s.orelse, After(runtimeNames, s.body, st), n) == Keeps;
    assert GuardedEffect(runtimeNames, s, st, n) == Keeps;
    assert EffectOfAll(runtimeNames, s.finalbody, BeforeFinally(runtimeNames, s, st), n) == Keeps;
  }

  /** It is right to do so if and only if the body cannot lose the name. */
  lemma RebindingIsSoundIff(runtimeNames: set<Name>, guards: iset<Name>, body: seq<Stmt>, n: Name, st: ScopeState)
    requires st.Tidy(runtimeNames) && n in st.bound && Decidable(runtimeNames, guards, [Rebinding(body, n)], st, n)
    ensures ClaimIsRight([Rebinding(body, n)], st, n) <==> !CanLose(runtimeNames, body, st, n)
  {
    var s := Rebinding(body, n);
    assert s.body[..|s.body| - 1] == body;
    TryIsRightIff(runtimeNames, guards, s, st, n);
    assert CanLose(runtimeNames, s.body, st, n) <==> CanLose(runtimeNames, body, st, n);
    assert !MayEnd(runtimeNames, s.body, st, n, true, false);
    assert MayEndHandler(runtimeNames, s.handlers[0], st, n, false, false) && !MayEndHandler(runtimeNames, s.handlers[0], st, n, true, false);
    assert !MayComplete(runtimeNames, s, st, n, true, false) && |s.handlers| == 1;
    assert LeavesName(runtimeNames, s, st, n, false) <==> CanLose(runtimeNames, body, st, n);
  }

  /** A single `del` in the body is enough to be wrong: the audit keeps the name, a run loses it. */
  lemma HandledDeleteIsUnsound(runtimeNames: set<Name>, n: Name, st: ScopeState)
    requires st.Tidy(runtimeNames) && n in st.bound
    ensures n in After(runtimeNames, [Rebinding([Del([n])], n)], st).bound && !ClaimIsRight([Rebinding([Del([n])], n)], st, n)
  {
    var none: iset<Name>, held: map<Name, string>, body := iset{}, map[], [Del([n])];
    var s := Rebinding(body, n);
    assert Knows(none, st) == held;
    OneStatement(runtimeNames, s, st, n);
    OneStatement(runtimeNames, Del([n]), st, n);
    OnlyOne(none, held, Del([n]), n);
    OneMore(none, held, body, Bind([n], Opaque), n);
    OnlyOne(none, held, s, n);
    QuietIsUniform(runtimeNames, none, [s], st);
    assert body[..0] == [] && CanLose(runtimeNames, body, st, n);
    RebindingIsKeptByAudit(runtimeNames, body, n, st);
    RebindingIsSoundIff(runtimeNames, none, body, n, st);
  }

  /** A name bound only under a context manager that swallows exceptions is called bound, and need not be. */
  lemma SuppressingManagerIsUnsound(runtimeNames: set<Name>, n: Name, st: ScopeState)
    requires st.Tidy(runtimeNames) && n !in st.bound
    ensures var program := [With([], true, [Bind([n], Opaque)])];
      n in After(runtimeNames, program, st).bound && !ClaimIsRight(program, st, n)
  {
    var none: iset<Name>, held: map<Name, string>, body := iset{}, map[], [Bind([n], Opaque)];
    var s := With([], true, body);
    assert Knows(none, st) == held;
    OneStatement(runtimeNames, s, st, n);
    OneStatement(runtimeNames, body[0], st.BindNames([], None), n);
    OnlyOne(none, held, body[0], n);
    OnlyOne(none, held, s, n);
    QuietIsUniform(runtimeNames, none, [s], st);
    WithIsRightIff(runtimeNames, none, [], body, st, n);
  }
}
