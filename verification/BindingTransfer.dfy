/** The transfer of the definite-binding audit: it works name by name, and one pass over a loop body is enough. */
module BindingTransfer {
  import opened Prelude
  import opened DefiniteBinding
  import opened BindingRuns

  // ---------------------------------------------------------------------------------------------
  // Per name, every statement keeps, sets or clears
  // ---------------------------------------------------------------------------------------------

  /** What a statement does to the definite binding of one name. */
  datatype Effect = Keeps | Sets | Clears {
    predicate Apply(bound: bool) {
      match this
      case Keeps => bound
      case Sets => true
      case Clears => false
    }

    function Then(next: Effect): Effect {
      if next.Keeps? then this else next
    }

    function Meet(other: Effect): Effect {
      if this.Clears? || other.Clears? then Clears
      else if this.Keeps? then this
      else other
    }
  }

  function BindEffect(names: seq<Name>, n: Name): Effect {
    if n in names then Sets else Keeps
  }

  function EffectOfAll(runtimeNames: set<Name>, statements: seq<Stmt>, st: ScopeState, n: Name): Effect
    decreases statements
  {
    if statements == [] then Keeps
    else
      var front, last := statements[..|statements| - 1], statements[|statements| - 1];
      EffectOfAll(runtimeNames, front, st, n).Then(EffectOf(runtimeNames, last, After(runtimeNames, front, st), n))
  }

  /** What one pass over a loop body leaves: the state before met with the state after the body. */
  function LoopEffect(runtimeNames: set<Name>, s: Stmt, st: ScopeState, n: Name): Effect
    requires s.For? || s.While?
    decreases s, 0
  {
    Keeps.Meet(BindEffect(Targets(s), n).Then(EffectOfAll(runtimeNames, s.body, LoopEntry(s, st), n)))
  }

  /** Of the state, the effect depends on what is known of the names in tests. */
  function EffectOf(runtimeNames: set<Name>, s: Stmt, st: ScopeState, n: Name): Effect
    decreases s, 1
  {
    match s
    case Bind(names, _) => BindEffect(names, n)
    case Del(names) => if n in names then Clears else Keeps
    case If(test, body, orelse) =>
      var truth := st.Truth(runtimeNames, test);
      if truth.Some? then EffectOfAll(runtimeNames, if truth.value then body else orelse, st, n)
      else EffectOfAll(runtimeNames, body, st, n).Meet(EffectOfAll(runtimeNames, orelse, st, n))
    case For(_, _, orelse) =>
      LoopEffect(runtimeNames, s, st, n).Meet(LoopEffect(runtimeNames, s, st, n).Then(EffectOfAll(runtimeNames, orelse, LoopExit(runtimeNames, s, st), n)))
    case While(_, orelse) =>
      LoopEffect(runtimeNames, s, st, n).Meet(LoopEffect(runtimeNames, s, st, n).Then(EffectOfAll(runtimeNames, orelse, LoopExit(runtimeNames, s, st), n)))
    case Try(_, _, _, finalbody) =>
      GuardedEffect(runtimeNames, s, st, n).Then(EffectOfAll(runtimeNames, finalbody, BeforeFinally(runtimeNames, s, st), n))
    case With(targets, _, body) =>
      BindEffect(targets, n).Then(EffectOfAll(runtimeNames, body, st.BindNames(targets, None), n))
    case Match(cases) => CasesEffect(runtimeNames, cases, st, n)
  }

  /** A try statement before its finally part. */
  function GuardedEffect(runtimeNames: set<Name>, s: Stmt, st: ScopeState, n: Name): Effect
    requires s.Try?
    decreases s, 0
  {
    var completed := EffectOfAll(runtimeNames, s.body, st, n).Then(EffectOfAll(runtimeNames, s.orelse, After(runtimeNames, s.body, st), n));
    Keeps.Meet(completed).Meet(HandlersEffect(runtimeNames, s.handlers, st, n))
  }

  function HandlerEffect(runtimeNames: set<Name>, h: Handler, st: ScopeState, n: Name): Effect
    decreases h
  {
    if h.name == Some(n) then Clears else EffectOfAll(runtimeNames, h.body, HandlerEntry(h, st), n)
  }

  function HandlersEffect(runtimeNames: set<Name>, handlers: seq<Handler>, st: ScopeState, n: Name): Effect
    decreases handlers
  {
    if handlers == [] then Keeps
    else HandlersEffect(runtimeNames, handlers[..|handlers| - 1], st, n).Meet(HandlerEffect(runtimeNames, handlers[|handlers| - 1], st, n))
  }

  function CasesEffect(runtimeNames: set<Name>, cases: seq<Case>, st: ScopeState, n: Name): Effect
    decreases cases
  {
    if cases == [] then Keeps
    else CasesEffect(runtimeNames, cases[..|cases| - 1], st, n).Meet(CaseEffect(runtimeNames, cases[|cases| - 1], st, n))
  }

  function CaseEffect(runtimeNames: set<Name>, c: Case, st: ScopeState, n: Name): Effect
    decreases c
  {
    BindEffect(c.names, n).Then(EffectOfAll(runtimeNames, c.body, st.BindNames(c.names, None), n))
  }

  /** The audit's transfer works name by name: a name stays bound as the statements' effect on it says. */
  lemma {:induction false} TransferIsPerName(runtimeNames: set<Name>, statements: seq<Stmt>, st: ScopeState, n: Name)
    ensures n in After(runtimeNames, statements, st).bound <==> EffectOfAll(runtimeNames, statements, st, n).Apply(n in st.bound)
    decreases statements
  {
    if statements == [] {
    } else {
      var front, last := statements[..|statements| - 1], statements[|statements| - 1];
      TransferIsPerName(runtimeNames, front, st, n);
      StmtTransferIsPerName(runtimeNames, last, After(runtimeNames, front, st), n);
    }
  }

  lemma {:induction false} StmtTransferIsPerName(runtimeNames: set<Name>, s: Stmt, st: ScopeState, n: Name)
    ensures n in AfterStmt(runtimeNames, s, st).bound <==> EffectOf(runtimeNames, s, st, n).Apply(n in st.bound)
    decreases s
  {
    match s
    case Bind(_, _) =>
    case Del(_) =>
    case If(_, body, orelse) =>
      TransferIsPerName(runtimeNames, body, st, n);
      TransferIsPerName(runtimeNames, orelse, st, n);
    case For(targets, body, orelse) =>
      TransferIsPerName(runtimeNames, body, LoopEntry(s, st), n);
      TransferIsPerName(runtimeNames, orelse, LoopExit(runtimeNames, s, st), n);
    case While(body, orelse) =>
      TransferIsPerName(runtimeNames, body, LoopEntry(s, st), n);
      TransferIsPerName(runtimeNames, orelse, LoopExit(runtimeNames, s, st), n);
    case Try(_, _, _, _) =>
      TryTransferIsPerName(runtimeNames, s, st, n);
    case With(targets, _, body) =>
      TransferIsPerName(runtimeNames, body, st.BindNames(targets, None), n);
    case Match(cases) =>
      CasesArePerName(runtimeNames, cases, st, n);
      InAllConcatenated(n, [st], CaseStates(runtimeNames, cases, st));
      InAllOne(n, st);
  }

  lemma InAllConcatenated(n: Name, left: seq<ScopeState>, right: seq<ScopeState>)
    ensures InAll(n, left + right) <==> InAll(n, left) && InAll(n, right)
  {
    if InAll(n, left + right) {
      forall i | 0 <= i < |left| ensures n in left[i].bound { assert left[i] == (left + right)[i]; }
      forall i | 0 <= i < |right| ensures n in right[i].bound { assert right[i] == (left + right)[|left| + i]; }
    }
  }

  lemma InAllOne(n: Name, st: ScopeState)
    ensures InAll(n, [st]) <==> n in st.bound
  {
    assert [st][0] == st;
  }

  lemma {:induction false} TryTransferIsPerName(runtimeNames: set<Name>, s: Stmt, st: ScopeState, n: Name)
    requires s.Try?
    ensures n in AfterStmt(runtimeNames, s, st).bound <==> EffectOf(runtimeNames, s, st, n).Apply(n in st.bound)
    decreases s, 0
  {
    var bodyDone := After(runtimeNames, s.body, st);
    var completed := After(runtimeNames, s.orelse, bodyDone);
    TransferIsPerName(runtimeNames, s.body, st, n);
    TransferIsPerName(runtimeNames, s.orelse, bodyDone, n);
    HandlersArePerName(runtimeNames, s.handlers, st, n);
    var handled := HandlerStates(runtimeNames, s.handlers, st);
    InAllConcatenated(n, [st, completed], handled);
    assert InAll(n, [st, completed]) <==> n in st.bound && n in completed.bound by {
      if InAll(n, [st, completed]) {
        assert n in [st, completed][1].bound && n in [st, completed][0].bound;
      }
    }
    TransferIsPerName(runtimeNames, s.finalbody, BeforeFinally(runtimeNames, s, st), n);
  }

  lemma {:induction false} HandlersArePerName(runtimeNames: set<Name>, handlers: seq<Handler>, st: ScopeState, n: Name)
    ensures n in st.bound ==> (InAll(n, HandlerStates(runtimeNames, handlers, st)) <==> HandlersEffect(runtimeNames, handlers, st, n).Apply(true))
    ensures !HandlersEffect(runtimeNames, handlers, st, n).Sets?
    decreases handlers
  {
    if handlers == [] {
    } else {
      var front, last := handlers[..|handlers| - 1], handlers[|handlers| - 1];
      HandlersArePerName(runtimeNames, front, st, n);
      TransferIsPerName(runtimeNames, last.body, HandlerEntry(last, st), n);
      InAllConcatenated(n, HandlerStates(runtimeNames, front, st), [AfterHandler(runtimeNames, last, st)]);
      InAllOne(n, AfterHandler(runtimeNames, last, st));
    }
  }

  lemma {:induction false} CasesArePerName(runtimeNames: set<Name>, cases: seq<Case>, st: ScopeState, n: Name)
    ensures n in st.bound ==> (InAll(n, CaseStates(runtimeNames, cases, st)) <==> CasesEffect(runtimeNames, cases, st, n).Apply(true))
    ensures !CasesEffect(runtimeNames, cases, st, n).Sets?
    decreases cases
  {
    if cases == [] {
    } else {
      var front, last := cases[..|cases| - 1], cases[|cases| - 1];
      CasesArePerName(runtimeNames, front, st, n);
      TransferIsPerName(runtimeNames, last.body, st.BindNames(last.names, None), n);
      var left := After(runtimeNames, last.body, st.BindNames(last.names, None));
      InAllConcatenated(n, CaseStates(runtimeNames, front, st), [left]);
      InAllOne(n, left);
    }
  }

  // ---------------------------------------------------------------------------------------------
  // What the audit knows of names
  // ---------------------------------------------------------------------------------------------

  lemma {:induction false} BindLookups(st: ScopeState, names: seq<Name>, canonical: Option<string>)
    ensures forall n :: st.BindNames(names, canonical).Lookup(n) == if n in names then canonical else st.Lookup(n)
  {
    if names == [] {
    } else {
      BindLookups(st, names[..|names| - 1], canonical);
      assert forall n :: n in names <==> n in names[..|names| - 1] || n == names[|names| - 1];
    }
  }

  lemma {:induction false} UnbindLookups(st: ScopeState, runtimeNames: set<Name>, names: seq<Name>)
    ensures forall n :: st.UnbindNames(runtimeNames, names).Lookup(n) == if n in names then None else st.Lookup(n)
  {
    if names == [] {
    } else {
      UnbindLookups(st, runtimeNames, names[..|names| - 1]);
      assert forall n :: n in names <==> n in names[..|names| - 1] || n == names[|names| - 1];
    }
  }

  /** Through every statement, a name with a known canonical name is definitely bound and of this scope. */
  lemma {:induction false} StaysTidy(runtimeNames: set<Name>, statements: seq<Stmt>, st: ScopeState)
    requires st.Tidy(runtimeNames)
    ensures After(runtimeNames, statements, st).Tidy(runtimeNames)
    decreases statements
  {
    if statements == [] {
    } else {
      var front := statements[..|statements| - 1];
      StaysTidy(runtimeNames, front, st);
      StmtStaysTidy(runtimeNames, statements[|statements| - 1], After(runtimeNames, front, st));
    }
  }

  lemma {:induction false} NamesKeepTidy(runtimeNames: set<Name>, st: ScopeState, names: seq<Name>, canonical: Option<string>)
    requires st.Tidy(runtimeNames)
    ensures st.BindNames(names, canonical).Tidy(runtimeNames)
    ensures st.UnbindNames(runtimeNames, names).Tidy(runtimeNames)
  {
    if names == [] {
    } else {
      NamesKeepTidy(runtimeNames, st, names[..|names| - 1], canonical);
    }
  }

  lemma {:induction false} MergeAllKeepsTidy(runtimeNames: set<Name>, states: seq<ScopeState>)
    requires states != [] && forall i :: 0 <= i < |states| ==> states[i].Tidy(runtimeNames)
    ensures MergeAll(states).Tidy(runtimeNames)
  {
    if |states| == 1 {
    } else {
      MergeAllKeepsTidy(runtimeNames, states[..|states| - 1]);
    }
  }

  lemma {:induction false} StmtStaysTidy(runtimeNames: set<Name>, s: Stmt, st: ScopeState)
    requires st.Tidy(runtimeNames)
    ensures AfterStmt(runtimeNames, s, st).Tidy(runtimeNames)
    ensures s.For? || s.While? ==> LoopEntry(s, st).Tidy(runtimeNames) && LoopExit(runtimeNames, s, st).Tidy(runtimeNames)
    ensures s.Try? ==> BeforeFinally(runtimeNames, s, st).Tidy(runtimeNames)
    decreases s
  {
    match s
    case Bind(names, value) =>
      NamesKeepTidy(runtimeNames, st, names, st.ValueName(runtimeNames, value));
    case Del(names) =>
      NamesKeepTidy(runtimeNames, st, names, None);
    case If(_, body, orelse) =>
      StaysTidy(runtimeNames, body, st);
      StaysTidy(runtimeNames, orelse, st);
    case For(targets, body, orelse) =>
      NamesKeepTidy(runtimeNames, st, targets, None);
      StaysTidy(runtimeNames, body, LoopEntry(s, st));
      StaysTidy(runtimeNames, orelse, LoopExit(runtimeNames, s, st));
    case While(body, orelse) =>
      StaysTidy(runtimeNames, body, LoopEntry(s, st));
      StaysTidy(runtimeNames, orelse, LoopExit(runtimeNames, s, st));
    case Try(body, handlers, orelse, finalbody) =>
      StaysTidy(runtimeNames, body, st);
      StaysTidy(runtimeNames, orelse, After(runtimeNames, body, st));
      HandlersStayTidy(runtimeNames, handlers, st);
      MergeAllKeepsTidy(runtimeNames, [st, After(runtimeNames, orelse, After(runtimeNames, body, st))] + HandlerStates(runtimeNames, handlers, st));
      StaysTidy(runtimeNames, finalbody, BeforeFinally(runtimeNames, s, st));
    case With(targets, _, body) =>
      NamesKeepTidy(runtimeNames, st, targets, None);
      StaysTidy(runtimeNames, body, st.BindNames(targets, None));
    case Match(cases) =>
      CasesStayTidy(runtimeNames, cases, st);
      MergeAllKeepsTidy(runtimeNames, [st] + CaseStates(runtimeNames, cases, st));
  }

  lemma {:induction false} HandlersStayTidy(runtimeNames: set<Name>, handlers: seq<Handler>, st: ScopeState)
    requires st.Tidy(runtimeNames)
    ensures forall i :: 0 <= i < |handlers| ==> HandlerStates(runtimeNames, handlers, st)[i].Tidy(runtimeNames)
    decreases handlers
  {
    if handlers == [] {
    } else {
      var last := handlers[|handlers| - 1];
      HandlersStayTidy(runtimeNames, handlers[..|handlers| - 1], st);
      StaysTidy(runtimeNames, last.body, HandlerEntry(last, st));
    }
  }

  lemma {:induction false} CasesStayTidy(runtimeNames: set<Name>, cases: seq<Case>, st: ScopeState)
    requires st.Tidy(runtimeNames)
    ensures forall i :: 0 <= i < |cases| ==> CaseStates(runtimeNames, cases, st)[i].Tidy(runtimeNames)
    decreases cases
  {
    if cases == [] {
    } else {
      var last := cases[|cases| - 1];
      CasesStayTidy(runtimeNames, cases[..|cases| - 1], st);
      NamesKeepTidy(runtimeNames, st, last.names, None);
      StaysTidy(runtimeNames, last.body, st.BindNames(last.names, None));
    }
  }

  /** The two states know the same of the name. */
  ghost predicate KeptAt(n: Name, a: ScopeState, b: ScopeState) {
    (n in a.bound <==> n in b.bound) && a.Lookup(n) == b.Lookup(n)
  }

  /** The audit's knowledge of a name stays while no statement touches it. */
  lemma {:induction false} UntouchedKept(runtimeNames: set<Name>, statements: seq<Stmt>, st: ScopeState, n: Name)
    requires st.Tidy(runtimeNames) && n !in Touched(statements)
    ensures KeptAt(n, st, After(runtimeNames, statements, st))
    decreases statements
  {
    if statements == [] {
    } else {
      var front := statements[..|statements| - 1];
      UntouchedKept(runtimeNames, front, st, n);
      StaysTidy(runtimeNames, front, st);
      UntouchedKeptByStmt(runtimeNames, statements[|statements| - 1], After(runtimeNames, front, st), n);
    }
  }

  lemma {:induction false} MergeAllKeeps(states: seq<ScopeState>, runtimeNames: set<Name>, st: ScopeState, n: Name)
    requires states != [] && st.Tidy(runtimeNames) && forall i :: 0 <= i < |states| ==> KeptAt(n, st, states[i])
    ensures KeptAt(n, st, MergeAll(states))
  {
    if |states| == 1 {
    } else {
      MergeAllKeeps(states[..|states| - 1], runtimeNames, st, n);
    }
  }

  lemma {:induction false} UntouchedKeptByStmt(runtimeNames: set<Name>, s: Stmt, st: ScopeState, n: Name)
    requires st.Tidy(runtimeNames) && n !in TouchedBy(s)
    ensures KeptAt(n, st, AfterStmt(runtimeNames, s, st))
    ensures s.For? || s.While? ==> KeptAt(n, st, LoopEntry(s, st)) && KeptAt(n, st, LoopExit(runtimeNames, s, st))
    ensures s.Try? ==> KeptAt(n, st, BeforeFinally(runtimeNames, s, st))
    decreases s
  {
    StmtStaysTidy(runtimeNames, s, st);
    match s
    case Bind(names, value) =>
      BindLookups(st, names, st.ValueName(runtimeNames, value));
    case Del(names) =>
      UnbindLookups(st, runtimeNames, names);
    case If(_, body, orelse) =>
      UntouchedKept(runtimeNames, body, st, n);
      UntouchedKept(runtimeNames, orelse, st, n);
    case For(targets, body, orelse) =>
      BindLookups(st, targets, None);
      UntouchedKept(runtimeNames, body, LoopEntry(s, st), n);
      UntouchedKept(runtimeNames, orelse, LoopExit(runtimeNames, s, st), n);
    case While(body, orelse) =>
      UntouchedKept(runtimeNames, body, LoopEntry(s, st), n);
      UntouchedKept(runtimeNames, orelse, LoopExit(runtimeNames, s, st), n);
    case Try(body, handlers, orelse, finalbody) =>
      var completed := After(runtimeNames, orelse, After(runtimeNames, body, st));
      UntouchedKept(runtimeNames, body, st, n);
      StaysTidy(runtimeNames, body, st);
      UntouchedKept(runtimeNames, orelse, After(runtimeNames, body, st), n);
      UntouchedKeptByHandlers(runtimeNames, handlers, st, n);
      MergeAllKeeps([st, completed] + HandlerStates(runtimeNames, handlers, st), runtimeNames, st, n);
      UntouchedKept(runtimeNames, finalbody, BeforeFinally(runtimeNames, s, st), n);
    case With(targets, _, body) =>
      BindLookups(st, targets, None);
      NamesKeepTidy(runtimeNames, st, targets, None);
      UntouchedKept(runtimeNames, body, st.BindNames(targets, None), n);
    case Match(cases) =>
      UntouchedKeptByCases(runtimeNames, cases, st, n);
      MergeAllKeeps([st] + CaseStates(runtimeNames, cases, st), runtimeNames, st, n);
  }

  lemma {:induction false} UntouchedKeptByHandlers(runtimeNames: set<Name>, handlers: seq<Handler>, st: ScopeState, n: Name)
    requires st.Tidy(runtimeNames) && n !in TouchedByHandlers(handlers)
    ensures forall i :: 0 <= i < |handlers| ==> KeptAt(n, st, HandlerStates(runtimeNames, handlers, st)[i])
    decreases handlers
  {
    if handlers == [] {
    } else {
      var last := handlers[|handlers| - 1];
      UntouchedKeptByHandlers(runtimeNames, handlers[..|handlers| - 1], st, n);
      UntouchedKept(runtimeNames, last.body, HandlerEntry(last, st), n);
    }
  }

  lemma {:induction false} UntouchedKeptByCases(runtimeNames: set<Name>, cases: seq<Case>, st: ScopeState, n: Name)
    requires st.Tidy(runtimeNames) && n !in TouchedByCases(cases)
    ensures forall i :: 0 <= i < |cases| ==> KeptAt(n, st, CaseStates(runtimeNames, cases, st)[i])
    decreases cases
  {
    if cases == [] {
    } else {
      var last := cases[|cases| - 1];
      UntouchedKeptByCases(runtimeNames, cases[..|cases| - 1], st, n);
      BindLookups(st, last.names, None);
      NamesKeepTidy(runtimeNames, st, last.names, None);
      UntouchedKept(runtimeNames, last.body, st.BindNames(last.names, None), n);
    }
  }

  // ---------------------------------------------------------------------------------------------
  // What the audit knows of guards
  // ---------------------------------------------------------------------------------------------

  /** A value given to a guard name is computed from guard names. */
  ghost predicate FromGuards(guards: iset<Name>, names: seq<Name>, value: BoundValue) {
    || (forall n :: n in names ==> n !in guards)
    || match value
       case CopyOf(ref) => ref.root in guards
       case CallOf(ref) => ref.root in guards
       case _ => true
  }

  ghost predicate TestsOnly(guards: iset<Name>, test: Test) {
    forall n :: n in TestNames(test) ==> n in guards
  }

  /** All tests are about guard names, and guard names are computed from guard names. */
  ghost predicate Closed(guards: iset<Name>, statements: seq<Stmt>)
    decreases statements
  {
    statements != [] ==> Closed(guards, statements[..|statements| - 1]) && ClosedStmt(guards, statements[|statements| - 1])
  }

  ghost predicate ClosedStmt(guards: iset<Name>, s: Stmt)
    decreases s
  {
    match s
    case Bind(names, value) => FromGuards(guards, names, value)
    case Del(_) => true
    case If(test, body, orelse) => TestsOnly(guards, test) && Closed(guards, body) && Closed(guards, orelse)
    case For(_, body, orelse) => Closed(guards, body) && Closed(guards, orelse)
    case While(body, orelse) => Closed(guards, body) && Closed(guards, orelse)
    case Try(body, handlers, orelse, finalbody) =>
      && Closed(guards, body) && Closed(guards, orelse) && Closed(guards, finalbody)
      && forall i :: 0 <= i < |handlers| ==> Closed(guards, handlers[i].body)
    case With(_, _, body) => Closed(guards, body)
    case Match(cases) => forall i :: 0 <= i < |cases| ==> Closed(guards, cases[i].body)
  }

  /** All names there are: among them every program is closed. */
  ghost const EVERY: iset<Name> := iset n: Name | true

  lemma {:induction false} EveryProgramIsClosed(statements: seq<Stmt>)
    ensures Closed(EVERY, statements)
    decreases statements
  {
    if statements == [] {
    } else {
      EveryProgramIsClosed(statements[..|statements| - 1]);
      EveryStmtIsClosed(statements[|statements| - 1]);
    }
  }

  lemma {:induction false} EveryStmtIsClosed(s: Stmt)
    ensures ClosedStmt(EVERY, s)
    decreases s
  {
    match s
    case Bind(_, _) =>
    case Del(_) =>
    case If(_, body, orelse) =>
      EveryProgramIsClosed(body);
      EveryProgramIsClosed(orelse);
    case For(_, body, orelse) =>
      EveryProgramIsClosed(body);
      EveryProgramIsClosed(orelse);
    case While(body, orelse) =>
      EveryProgramIsClosed(body);
      EveryProgramIsClosed(orelse);
    case Try(body, handlers, orelse, finalbody) =>
      EveryProgramIsClosed(body);
      EveryProgramIsClosed(orelse);
      EveryProgramIsClosed(finalbody);
      forall i | 0 <= i < |handlers| {
        EveryProgramIsClosed(handlers[i].body);
      }
    case With(_, _, body) =>
      EveryProgramIsClosed(body);
    case Match(cases) =>
      forall i | 0 <= i < |cases| {
        EveryProgramIsClosed(cases[i].body);
      }
  }

  /** The two states know the same of the guard names. */
  ghost predicate AgreeOn(guards: iset<Name>, a: ScopeState, b: ScopeState) {
    forall n :: n in guards ==> a.GuardName(n) == b.GuardName(n)
  }

  /** None of the names touched is a guard name that the state knows. */
  ghost predicate NoneKnown(guards: iset<Name>, st: ScopeState, touched: set<Name>) {
    forall n :: n in touched && n in guards ==> st.GuardName(n).None?
  }

  lemma {:induction false} StaticTruthDependsOnNames(test: Test, a: Resolution, b: Resolution)
    requires forall ref: Ref :: ref.root in TestNames(test) ==> (IsGuard(a(ref)) <==> IsGuard(b(ref)))
    ensures StaticTruth(test, a) == StaticTruth(test, b)
    decreases test
  {
    match test
    case Named(_) =>
    case Not(operand) =>
      StaticTruthDependsOnNames(operand, a, b);
    case And(values) =>
      forall i | 0 <= i < |values|
        ensures StaticTruth(values[i], a) == StaticTruth(values[i], b)
      {
        assert forall n :: n in TestNames(values[i]) ==> n in TestNames(test);
        StaticTruthDependsOnNames(values[i], a, b);
      }
    case Or(values) =>
      forall i | 0 <= i < |values|
        ensures StaticTruth(values[i], a) == StaticTruth(values[i], b)
      {
        assert forall n :: n in TestNames(values[i]) ==> n in TestNames(test);
        StaticTruthDependsOnNames(values[i], a, b);
      }
    case Other =>
  }

  /** Of the canonical names of its root, only those that may lead to a guard make a reference one. */
  lemma GuardsByRoot(runtimeNames: set<Name>, ref: Ref, st: ScopeState)
    requires st.Tidy(runtimeNames)
    ensures var known, canonical := st.GuardName(ref.root), st.CanonicalName(runtimeNames, ref);
      && GuardPart(canonical) == (if known.Some? then GuardPart(Some(Dotted(known.value, ref.suffix))) else None)
      && (IsGuard(canonical) ==> GuardPart(canonical).Some?)
  {
    if ref.root in st.resolved {
      GuardPath(st.resolved[ref.root], ref.suffix);
    }
  }

  lemma SameTruth(runtimeNames: set<Name>, guards: iset<Name>, test: Test, a: ScopeState, b: ScopeState)
    requires a.Tidy(runtimeNames) && b.Tidy(runtimeNames) && AgreeOn(guards, a, b) && TestsOnly(guards, test)
    ensures a.Truth(runtimeNames, test) == b.Truth(runtimeNames, test)
  {
    forall ref: Ref | ref.root in TestNames(test)
      ensures IsGuard(a.CanonicalName(runtimeNames, ref)) <==> IsGuard(b.CanonicalName(runtimeNames, ref))
    {
      assert a.GuardName(ref.root) == b.GuardName(ref.root);
      GuardsByRoot(runtimeNames, ref, a);
      GuardsByRoot(runtimeNames, ref, b);
    }
    StaticTruthDependsOnNames(test, ref => a.CanonicalName(runtimeNames, ref), ref => b.CanonicalName(runtimeNames, ref));
  }

  lemma SameValue(runtimeNames: set<Name>, guards: iset<Name>, value: BoundValue, a: ScopeState, b: ScopeState)
    requires a.Tidy(runtimeNames) && b.Tidy(runtimeNames) && AgreeOn(guards, a, b)
    requires value.CopyOf? ==> value.ref.root in guards
    ensures GuardPart(a.ValueName(runtimeNames, value)) == GuardPart(b.ValueName(runtimeNames, value))
  {
    match value
    case Opaque =>
    case Imported(_) =>
    case CopyOf(ref) =>
      GuardsByRoot(runtimeNames, ref, a);
      GuardsByRoot(runtimeNames, ref, b);
    case CallOf(ref) =>
      forall factory | factory in FACTORIES ensures GuardPart(Some(factory + ".instance")) == None { NoInstanceIsAGuard(factory); }
  }

  /** What both states of a meet know alike stays known. */
  lemma MergeKnows(runtimeNames: set<Name>, a: ScopeState, b: ScopeState)
    requires a.Tidy(runtimeNames) && b.Tidy(runtimeNames)
    ensures forall n :: a.Merge(b).GuardName(n) == if a.GuardName(n) == b.GuardName(n) then a.GuardName(n) else None
  {
  }

  /** One state knows the same as the other, and both are tidy. */
  ghost predicate Alike(runtimeNames: set<Name>, guards: iset<Name>, a: ScopeState, b: ScopeState) {
    a.Tidy(runtimeNames) && b.Tidy(runtimeNames) && AgreeOn(guards, a, b)
  }

  lemma MergesAlike(runtimeNames: set<Name>, guards: iset<Name>, a: ScopeState, a': ScopeState, b: ScopeState, b': ScopeState)
    requires Alike(runtimeNames, guards, a, b) && Alike(runtimeNames, guards, a', b')
    ensures Alike(runtimeNames, guards, a.Merge(a'), b.Merge(b'))
  {
    MergeKnows(runtimeNames, a, a');
    MergeKnows(runtimeNames, b, b');
  }

  ghost predicate AllAlike(runtimeNames: set<Name>, guards: iset<Name>, a: seq<ScopeState>, b: seq<ScopeState>) {
    |a| == |b| && forall i :: 0 <= i < |a| ==> Alike(runtimeNames, guards, a[i], b[i])
  }

  lemma AlikeConcatenated(runtimeNames: set<Name>, guards: iset<Name>, a: seq<ScopeState>, b: seq<ScopeState>, moreA: seq<ScopeState>, moreB: seq<ScopeState>)
    requires AllAlike(runtimeNames, guards, a, b) && AllAlike(runtimeNames, guards, moreA, moreB)
    ensures AllAlike(runtimeNames, guards, a + moreA, b + moreB)
  {
    forall i | 0 <= i < |a + moreA| ensures Alike(runtimeNames, guards, (a + moreA)[i], (b + moreB)[i]) {
      if i < |a| {
        assert Alike(runtimeNames, guards, a[i], b[i]);
      } else {
        assert Alike(runtimeNames, guards, moreA[i - |a|], moreB[i - |a|]);
      }
    }
  }

  lemma {:induction false} AllMergeAlike(runtimeNames: set<Name>, guards: iset<Name>, a: seq<ScopeState>, b: seq<ScopeState>)
    requires a != [] && AllAlike(runtimeNames, guards, a, b)
    ensures Alike(runtimeNames, guards, MergeAll(a), MergeAll(b))
    decreases |a|
  {
    if |a| == 1 {
    } else {
      var i := |a| - 1;
      assert Alike(runtimeNames, guards, a[i], b[i]);
      AllMergeAlike(runtimeNames, guards, a[..i], b[..i]);
      MergesAlike(runtimeNames, guards, MergeAll(a[..i]), a[i], MergeAll(b[..i]), b[i]);
    }
  }

  lemma NamesAlike(runtimeNames: set<Name>, guards: iset<Name>, a: ScopeState, b: ScopeState, names: seq<Name>, forA: Option<string>, forB: Option<string>)
    requires Alike(runtimeNames, guards, a, b)
    requires GuardPart(forA) == GuardPart(forB) || forall n :: n in names ==> n !in guards
    ensures Alike(runtimeNames, guards, a.BindNames(names, forA), b.BindNames(names, forB))
    ensures Alike(runtimeNames, guards, a.UnbindNames(runtimeNames, names), b.UnbindNames(runtimeNames, names))
  {
    NamesKeepTidy(runtimeNames, a, names, forA);
    NamesKeepTidy(runtimeNames, b, names, forB);
    BindLookups(a, names, forA);
    BindLookups(b, names, forB);
    UnbindLookups(a, runtimeNames, names);
    UnbindLookups(b, runtimeNames, names);
    forall n | n in guards
      ensures a.BindNames(names, forA).GuardName(n) == b.BindNames(names, forB).GuardName(n)
      ensures a.UnbindNames(runtimeNames, names).GuardName(n) == b.UnbindNames(runtimeNames, names).GuardName(n)
    {
      assert a.GuardName(n) == b.GuardName(n);
    }
  }

  /** States that know the same of the guard names still do behind the statements. */
  lemma {:induction false} AlikeBehind(runtimeNames: set<Name>, guards: iset<Name>, statements: seq<Stmt>, a: ScopeState, b: ScopeState)
    requires Alike(runtimeNames, guards, a, b) && Closed(guards, statements)
    ensures Alike(runtimeNames, guards, After(runtimeNames, statements, a), After(runtimeNames, statements, b))
    decreases statements
  {
    if statements == [] {
    } else {
      var front := statements[..|statements| - 1];
      AlikeBehind(runtimeNames, guards, front, a, b);
      AlikeBehindStmt(runtimeNames, guards, statements[|statements| - 1], After(runtimeNames, front, a), After(runtimeNames, front, b));
    }
  }

  lemma {:induction false} AlikeBehindStmt(runtimeNames: set<Name>, guards: iset<Name>, s: Stmt, a: ScopeState, b: ScopeState)
    requires Alike(runtimeNames, guards, a, b) && ClosedStmt(guards, s)
    ensures Alike(runtimeNames, guards, AfterStmt(runtimeNames, s, a), AfterStmt(runtimeNames, s, b))
    decreases s, 1
  {
    match s
    case Bind(names, value) =>
      if exists n :: n in names && n in guards {
        SameValue(runtimeNames, guards, value, a, b);
      }
      NamesAlike(runtimeNames, guards, a, b, names, a.ValueName(runtimeNames, value), b.ValueName(runtimeNames, value));
    case Del(names) =>
      NamesAlike(runtimeNames, guards, a, b, names, None, None);
    case If(test, body, orelse) =>
      SameTruth(runtimeNames, guards, test, a, b);
      AlikeBehind(runtimeNames, guards, body, a, b);
      AlikeBehind(runtimeNames, guards, orelse, a, b);
      MergesAlike(runtimeNames, guards, After(runtimeNames, body, a), After(runtimeNames, orelse, a), After(runtimeNames, body, b), After(runtimeNames, orelse, b));
    case For(_, _, orelse) =>
      AlikeBehindLoop(runtimeNames, guards, s, orelse, a, b);
    case While(_, orelse) =>
      AlikeBehindLoop(runtimeNames, guards, s, orelse, a, b);
    case Try(_, _, _, finalbody) =>
      AlikeBeforeFinally(runtimeNames, guards, s, a, b);
      AlikeBehind(runtimeNames, guards, finalbody, BeforeFinally(runtimeNames, s, a), BeforeFinally(runtimeNames, s, b));
    case With(targets, _, body) =>
      NamesAlike(runtimeNames, guards, a, b, targets, None, None);
      AlikeBehind(runtimeNames, guards, body, a.BindNames(targets, None), b.BindNames(targets, None));
    case Match(cases) =>
      CasesAlike(runtimeNames, guards, cases, a, b);
      AlikeConcatenated(runtimeNames, guards, [a], [b], CaseStates(runtimeNames, cases, a), CaseStates(runtimeNames, cases, b));
      AllMergeAlike(runtimeNames, guards, [a] + CaseStates(runtimeNames, cases, a), [b] + CaseStates(runtimeNames, cases, b));
  }

  lemma {:induction false} AlikeInLoop(runtimeNames: set<Name>, guards: iset<Name>, s: Stmt, a: ScopeState, b: ScopeState)
    requires s.For? || s.While?
    requires Alike(runtimeNames, guards, a, b) && Closed(guards, s.body)
    ensures Alike(runtimeNames, guards, LoopEntry(s, a), LoopEntry(s, b))
    ensures Alike(runtimeNames, guards, LoopExit(runtimeNames, s, a), LoopExit(runtimeNames, s, b))
    decreases s, 0, 0
  {
    NamesAlike(runtimeNames, guards, a, b, Targets(s), None, None);
    AlikeBehind(runtimeNames, guards, s.body, LoopEntry(s, a), LoopEntry(s, b));
    MergesAlike(runtimeNames, guards, a, After(runtimeNames, s.body, LoopEntry(s, a)), b, After(runtimeNames, s.body, LoopEntry(s, b)));
  }

  lemma {:induction false} AlikeBehindLoop(runtimeNames: set<Name>, guards: iset<Name>, s: Stmt, orelse: seq<Stmt>, a: ScopeState, b: ScopeState)
    requires (s.For? || s.While?) && orelse == s.orelse
    requires Alike(runtimeNames, guards, a, b) && ClosedStmt(guards, s)
    ensures Alike(runtimeNames, guards, AfterStmt(runtimeNames, s, a), AfterStmt(runtimeNames, s, b))
    decreases s, 0, 1
  {
    var exitA, exitB := LoopExit(runtimeNames, s, a), LoopExit(runtimeNames, s, b);
    AlikeInLoop(runtimeNames, guards, s, a, b);
    AlikeBehind(runtimeNames, guards, orelse, exitA, exitB);
    MergesAlike(runtimeNames, guards, exitA, After(runtimeNames, orelse, exitA), exitB, After(runtimeNames, orelse, exitB));
  }

  lemma {:induction false} AlikeBeforeFinally(runtimeNames: set<Name>, guards: iset<Name>, s: Stmt, a: ScopeState, b: ScopeState)
    requires s.Try? && Alike(runtimeNames, guards, a, b) && ClosedStmt(guards, s)
    ensures Alike(runtimeNames, guards, BeforeFinally(runtimeNames, s, a), BeforeFinally(runtimeNames, s, b))
    decreases s, 0
  {
    AlikeBehind(runtimeNames, guards, s.body, a, b);
    AlikeBehind(runtimeNames, guards, s.orelse, After(runtimeNames, s.body, a), After(runtimeNames, s.body, b));
    HandlersAlike(runtimeNames, guards, s.handlers, a, b);
    var a', b' := [a, After(runtimeNames, s.orelse, After(runtimeNames, s.body, a))], [b, After(runtimeNames, s.orelse, After(runtimeNames, s.body, b))];
    AlikeConcatenated(runtimeNames, guards, a', b', HandlerStates(runtimeNames, s.handlers, a), HandlerStates(runtimeNames, s.handlers, b));
    AllMergeAlike(runtimeNames, guards, a' + HandlerStates(runtimeNames, s.handlers, a), b' + HandlerStates(runtimeNames, s.handlers, b));
  }

  lemma HandlerEntersAlike(runtimeNames: set<Name>, guards: iset<Name>, h: Handler, a: ScopeState, b: ScopeState)
    requires Alike(runtimeNames, guards, a, b)
    ensures Alike(runtimeNames, guards, HandlerEntry(h, a), HandlerEntry(h, b))
  {
    forall n | n in guards ensures HandlerEntry(h, a).GuardName(n) == HandlerEntry(h, b).GuardName(n) {
      assert a.GuardName(n) == b.GuardName(n);
    }
  }

  lemma {:induction false} HandlersAlike(runtimeNames: set<Name>, guards: iset<Name>, handlers: seq<Handler>, a: ScopeState, b: ScopeState)
    requires Alike(runtimeNames, guards, a, b) && forall i :: 0 <= i < |handlers| ==> Closed(guards, handlers[i].body)
    ensures AllAlike(runtimeNames, guards, HandlerStates(runtimeNames, handlers, a), HandlerStates(runtimeNames, handlers, b))
    decreases handlers
  {
    if handlers == [] {
    } else {
      var last := handlers[|handlers| - 1];
      var front := handlers[..|handlers| - 1];
      HandlersAlike(runtimeNames, guards, front, a, b);
      HandlerEntersAlike(runtimeNames, guards, last, a, b);
      var left, right := After(runtimeNames, last.body, HandlerEntry(last, a)), After(runtimeNames, last.body, HandlerEntry(last, b));
      AlikeBehind(runtimeNames, guards, last.body, HandlerEntry(last, a), HandlerEntry(last, b));
      forall n | n in guards ensures AfterHandler(runtimeNames, last, a).GuardName(n) == AfterHandler(runtimeNames, last, b).GuardName(n) {
        assert left.GuardName(n) == right.GuardName(n);
      }
      AlikeConcatenated(runtimeNames, guards, HandlerStates(runtimeNames, front, a), HandlerStates(runtimeNames, front, b),
                        [AfterHandler(runtimeNames, last, a)], [AfterHandler(runtimeNames, last, b)]);
    }
  }

  lemma {:induction false} CasesAlike(runtimeNames: set<Name>, guards: iset<Name>, cases: seq<Case>, a: ScopeState, b: ScopeState)
    requires Alike(runtimeNames, guards, a, b) && forall i :: 0 <= i < |cases| ==> Closed(guards, cases[i].body)
    ensures AllAlike(runtimeNames, guards, CaseStates(runtimeNames, cases, a), CaseStates(runtimeNames, cases, b))
    decreases cases
  {
    if cases == [] {
    } else {
      var last := cases[|cases| - 1];
      var front := cases[..|cases| - 1];
      CasesAlike(runtimeNames, guards, front, a, b);
      NamesAlike(runtimeNames, guards, a, b, last.names, None, None);
      AlikeBehind(runtimeNames, guards, last.body, a.BindNames(last.names, None), b.BindNames(last.names, None));
      AlikeConcatenated(runtimeNames, guards, CaseStates(runtimeNames, front, a), CaseStates(runtimeNames, front, b),
                        [After(runtimeNames, last.body, a.BindNames(last.names, None))], [After(runtimeNames, last.body, b.BindNames(last.names, None))]);
    }
  }

  // ---------------------------------------------------------------------------------------------
  // One pass over a loop body is enough
  // ---------------------------------------------------------------------------------------------

  /** The effect of statements depends on what is known of the guards at the start and on nothing else. */
  lemma {:induction false} SameEffect(runtimeNames: set<Name>, guards: iset<Name>, statements: seq<Stmt>, a: ScopeState, b: ScopeState, n: Name)
    requires a.Tidy(runtimeNames) && b.Tidy(runtimeNames) && AgreeOn(guards, a, b) && Closed(guards, statements)
    ensures EffectOfAll(runtimeNames, statements, a, n) == EffectOfAll(runtimeNames, statements, b, n)
    decreases statements
  {
    if statements == [] {
    } else {
      var front := statements[..|statements| - 1];
      SameEffect(runtimeNames, guards, front, a, b, n);
      AlikeBehind(runtimeNames, guards, front, a, b);
      SameEffectOfStmt(runtimeNames, guards, statements[|statements| - 1], After(runtimeNames, front, a), After(runtimeNames, front, b), n);
    }
  }

  lemma {:induction false} SameEffectOfStmt(runtimeNames: set<Name>, guards: iset<Name>, s: Stmt, a: ScopeState, b: ScopeState, n: Name)
    requires a.Tidy(runtimeNames) && b.Tidy(runtimeNames) && AgreeOn(guards, a, b) && ClosedStmt(guards, s)
    ensures EffectOf(runtimeNames, s, a, n) == EffectOf(runtimeNames, s, b, n)
    decreases s, 1
  {
    match s
    case Bind(_, _) =>
    case Del(_) =>
    case If(test, body, orelse) =>
      SameTruth(runtimeNames, guards, test, a, b);
      SameEffect(runtimeNames, guards, body, a, b, n);
      SameEffect(runtimeNames, guards, orelse, a, b, n);
    case For(_, body, orelse) =>
      AlikeInLoop(runtimeNames, guards, s, a, b);
      SameEffect(runtimeNames, guards, body, LoopEntry(s, a), LoopEntry(s, b), n);
      SameEffect(runtimeNames, guards, orelse, LoopExit(runtimeNames, s, a), LoopExit(runtimeNames, s, b), n);
    case While(body, orelse) =>
      AlikeInLoop(runtimeNames, guards, s, a, b);
      SameEffect(runtimeNames, guards, body, LoopEntry(s, a), LoopEntry(s, b), n);
      SameEffect(runtimeNames, guards, orelse, LoopExit(runtimeNames, s, a), LoopExit(runtimeNames, s, b), n);
    case Try(body, handlers, orelse, finalbody) =>
      SameEffect(runtimeNames, guards, body, a, b, n);
      AlikeBehind(runtimeNames, guards, body, a, b);
      SameEffect(runtimeNames, guards, orelse, After(runtimeNames, body, a), After(runtimeNames, body, b), n);
      SameEffectOfHandlers(runtimeNames, guards, handlers, a, b, n);
      AlikeBeforeFinally(runtimeNames, guards, s, a, b);
      SameEffect(runtimeNames, guards, finalbody, BeforeFinally(runtimeNames, s, a), BeforeFinally(runtimeNames, s, b), n);
    case With(targets, _, body) =>
      NamesAlike(runtimeNames, guards, a, b, targets, None, None);
      SameEffect(runtimeNames, guards, body, a.BindNames(targets, None), b.BindNames(targets, None), n);
    case Match(cases) =>
      SameEffectOfCases(runtimeNames, guards, cases, a, b, n);
  }

  lemma {:induction false} SameEffectOfHandlers(runtimeNames: set<Name>, guards: iset<Name>, handlers: seq<Handler>, a: ScopeState, b: ScopeState, n: Name)
    requires Alike(runtimeNames, guards, a, b) && forall i :: 0 <= i < |handlers| ==> Closed(guards, handlers[i].body)
    ensures HandlersEffect(runtimeNames, handlers, a, n) == HandlersEffect(runtimeNames, handlers, b, n)
    decreases handlers
  {
    if handlers == [] {
    } else {
      var last := handlers[|handlers| - 1];
      SameEffectOfHandlers(runtimeNames, guards, handlers[..|handlers| - 1], a, b, n);
      HandlerEntersAlike(runtimeNames, guards, last, a, b);
      SameEffect(runtimeNames, guards, last.body, HandlerEntry(last, a), HandlerEntry(last, b), n);
    }
  }

  lemma {:induction false} SameEffectOfCases(runtimeNames: set<Name>, guards: iset<Name>, cases: seq<Case>, a: ScopeState, b: ScopeState, n: Name)
    requires Alike(runtimeNames, guards, a, b) && forall i :: 0 <= i < |cases| ==> Closed(guards, cases[i].body)
    ensures CasesEffect(runtimeNames, cases, a, n) == CasesEffect(runtimeNames, cases, b, n)
    decreases cases
  {
    if cases == [] {
    } else {
      var last := cases[|cases| - 1];
      SameEffectOfCases(runtimeNames, guards, cases[..|cases| - 1], a, b, n);
      NamesAlike(runtimeNames, guards, a, b, last.names, None, None);
      SameEffect(runtimeNames, guards, last.body, a.BindNames(last.names, None), b.BindNames(last.names, None), n);
    }
  }

  /**
   On bound names a transfer distributes over the meet of states that know the same of the guards; it is idempotent
   where it leaves what is known of them as it was.
   */
  lemma TransferIsIdempotentAndDistributive(runtimeNames: set<Name>, guards: iset<Name>, statements: seq<Stmt>, left: ScopeState, right: ScopeState)
    requires left.Tidy(runtimeNames) && right.Tidy(runtimeNames) && AgreeOn(guards, left, right) && Closed(guards, statements)
    ensures AgreeOn(guards, left, After(runtimeNames, statements, left)) ==>
      After(runtimeNames, statements, After(runtimeNames, statements, left)).bound == After(runtimeNames, statements, left).bound
    ensures After(runtimeNames, statements, left.Merge(right)).bound
            == After(runtimeNames, statements, left).bound * After(runtimeNames, statements, right).bound
  {
    var once, met := After(runtimeNames, statements, left), left.Merge(right);
    StaysTidy(runtimeNames, statements, left);
    MergeKnows(runtimeNames, left, right);
    forall n: Name
      ensures AgreeOn(guards, left, once) && n in After(runtimeNames, statements, once).bound ==> n in once.bound
      ensures AgreeOn(guards, left, once) && n in once.bound ==> n in After(runtimeNames, statements, once).bound
      ensures n in After(runtimeNames, statements, met).bound <==> n in once.bound && n in After(runtimeNames, statements, right).bound
    {
      TransferIsPerName(runtimeNames, statements, left, n);
      TransferIsPerName(runtimeNames, statements, right, n);
      TransferIsPerName(runtimeNames, statements, met, n);
      SameEffect(runtimeNames, guards, statements, left, right, n);
      SameEffect(runtimeNames, guards, statements, left, met, n);
      if AgreeOn(guards, left, once) {
        TransferIsPerName(runtimeNames, statements, once, n);
        SameEffect(runtimeNames, guards, statements, left, once, n);
      }
    }
  }

  /** `if guard: pass else: y = 1`, and only then `from typing import TYPE_CHECKING as guard` */
  function LateGuard(guard: Name, y: Name): seq<Stmt> {
    [If(Named(Ref(guard, "")), [], [Bind([y], Opaque)]), Bind([guard], Imported("typing.TYPE_CHECKING"))]
  }

  /** Statements that learn of a guard they have tested are not idempotent, though they touch no known one. */
  lemma LearntGuardIsNotIdempotent(runtimeNames: set<Name>, guard: Name, y: Name)
    requires guard != y
    ensures var once := After(runtimeNames, LateGuard(guard, y), ScopeState({}, map[], {}));
      y !in once.bound && y in After(runtimeNames, LateGuard(guard, y), once).bound
  {
    var program, st := LateGuard(guard, y), ScopeState({}, map[], {});
    LateGuardPass(runtimeNames, guard, y, st);
    LateGuardPass(runtimeNames, guard, y, After(runtimeNames, program, st));
  }

  lemma LateGuardPass(runtimeNames: set<Name>, guard: Name, y: Name, st: ScopeState)
    requires guard != y && st.Tidy(runtimeNames) && y !in st.bound && st.Lookup(guard) in {None, Some("typing.TYPE_CHECKING")}
    ensures var once := After(runtimeNames, LateGuard(guard, y), st);
      && (y in once.bound <==> st.Lookup(guard).Some?)
      && once.Tidy(runtimeNames) && once.Lookup(guard) == Some("typing.TYPE_CHECKING")
  {
    var program := LateGuard(guard, y);
    var test, orelse := program[0].test, program[0].orelse;
    StaysTidy(runtimeNames, program, st);
    TransferIsPerName(runtimeNames, program, st, y);
    assert program[..1] == [program[0]] && [program[0]][..0] == [] && orelse[..0] == [] && [guard][..0] == [];
    assert EffectOf(runtimeNames, orelse[0], st, y) == Sets;
    assert EffectOfAll(runtimeNames, orelse, st, y) == Sets && EffectOfAll(runtimeNames, [], st, y) == Keeps;
    assert st.Truth(runtimeNames, test) == if st.Lookup(guard).Some? then Some(false) else None;
    assert EffectOfAll(runtimeNames, [program[0]], st, y) == EffectOf(runtimeNames, program[0], st, y);
  }

  /** The state at the loop head after `k` more passes of "before met with the body's result". */
  function LoopHead(runtimeNames: set<Name>, targets: seq<Name>, body: seq<Stmt>, before: ScopeState, k: nat): ScopeState {
    if k == 0 then before
    else before.Merge(After(runtimeNames, body, LoopHead(runtimeNames, targets, body, before, k - 1).BindNames(targets, None)))
  }

  /** A guard name that the pass over a loop touches is unknown before and so at every head; any other is kept. */
  lemma HeadIsAlike(runtimeNames: set<Name>, guards: iset<Name>, targets: seq<Name>, body: seq<Stmt>, before: ScopeState, head: ScopeState)
    requires Alike(runtimeNames, guards, before, head) && NoneKnown(guards, before, NameSet(targets) + Touched(body))
    ensures Alike(runtimeNames, guards, before, before.Merge(After(runtimeNames, body, head.BindNames(targets, None))))
  {
    var entry := head.BindNames(targets, None);
    NamesKeepTidy(runtimeNames, head, targets, None);
    StaysTidy(runtimeNames, body, entry);
    BindLookups(head, targets, None);
    MergeKnows(runtimeNames, before, After(runtimeNames, body, entry));
    forall n | n in guards && before.GuardName(n).Some?
      ensures After(runtimeNames, body, entry).GuardName(n) == before.GuardName(n)
    {
      assert n !in NameSet(targets) && head.GuardName(n) == before.GuardName(n);
      UntouchedKept(runtimeNames, body, entry, n);
    }
  }

  lemma {:induction false} HeadsAgree(runtimeNames: set<Name>, guards: iset<Name>, targets: seq<Name>, body: seq<Stmt>, before: ScopeState, k: nat)
    requires before.Tidy(runtimeNames) && NoneKnown(guards, before, NameSet(targets) + Touched(body))
    ensures Alike(runtimeNames, guards, before, LoopHead(runtimeNames, targets, body, before, k))
  {
    if k == 0 {
    } else {
      var i := k - 1;
      HeadsAgree(runtimeNames, guards, targets, body, before, i);
      HeadIsAlike(runtimeNames, guards, targets, body, before, LoopHead(runtimeNames, targets, body, before, i));
    }
  }

  /**
   Where no statement of a loop rebinds or unbinds a known guard: the single pass already gives the iterated fixed
   point, and every solution of the loop equation that knows the guards lies below it.
   */
  lemma {:induction false} OnePassIsEnough(runtimeNames: set<Name>, guards: iset<Name>, targets: seq<Name>, body: seq<Stmt>, before: ScopeState, k: nat, solution: ScopeState)
    requires k > 0 && before.Tidy(runtimeNames) && Closed(guards, body) && NoneKnown(guards, before, NameSet(targets) + Touched(body))
    requires solution.Tidy(runtimeNames) && AgreeOn(guards, before, solution)
    ensures LoopHead(runtimeNames, targets, body, before, k).bound == LoopHead(runtimeNames, targets, body, before, 1).bound
    ensures solution.bound == before.bound * After(runtimeNames, body, solution.BindNames(targets, None)).bound ==>
      solution.bound <= LoopHead(runtimeNames, targets, body, before, 1).bound
    decreases k
  {
    var once := LoopHead(runtimeNames, targets, body, before, 1);
    assert LoopHead(runtimeNames, targets, body, before, 0) == before;
    var i := k - 1;
    if i == 0 {
    } else {
      OnePassIsEnough(runtimeNames, guards, targets, body, before, i, solution);
    }
    var previous := LoopHead(runtimeNames, targets, body, before, i);
    HeadsAgree(runtimeNames, guards, targets, body, before, i);
    NamesAlike(runtimeNames, guards, before, previous, targets, None, None);
    NamesAlike(runtimeNames, guards, before, solution, targets, None, None);
    forall n
      ensures n in LoopHead(runtimeNames, targets, body, before, k).bound <==> n in once.bound
      ensures solution.bound == before.bound * After(runtimeNames, body, solution.BindNames(targets, None)).bound && n in solution.bound ==> n in once.bound
    {
      TransferIsPerName(runtimeNames, body, before.BindNames(targets, None), n);
      TransferIsPerName(runtimeNames, body, previous.BindNames(targets, None), n);
      TransferIsPerName(runtimeNames, body, solution.BindNames(targets, None), n);
      SameEffect(runtimeNames, guards, body, before.BindNames(targets, None), previous.BindNames(targets, None), n);
      SameEffect(runtimeNames, guards, body, before.BindNames(targets, None), solution.BindNames(targets, None), n);
    }
  }
}
