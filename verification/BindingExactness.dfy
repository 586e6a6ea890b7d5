/** Exactly when the definite-binding audit is right: what every run can do to one name, and where the audit errs. */
module BindingExactness {
  import opened Prelude
  import opened DefiniteBinding
  import opened BindingRuns
  import opened BindingTransfer
  import opened BindingSoundness

  // ---------------------------------------------------------------------------------------------
  // What runs may do to one name
  // ---------------------------------------------------------------------------------------------

  /** A completed run may take the name from bound or not (`b`) to bound or not (`c`). */
  predicate MayEnd(runtimeNames: set<Name>, statements: seq<Stmt>, st: ScopeState, n: Name, b: bool, c: bool)
    decreases statements
  {
    if statements == [] then b == c
    else
      var front, last := statements[..|statements| - 1], statements[|statements| - 1];
      exists m: bool :: MayEnd(runtimeNames, front, st, n, b, m) && MayEndStmt(runtimeNames, last, After(runtimeNames, front, st), n, m, c)
  }

  /** A run cut short by an exception may. */
  predicate MayRaise(runtimeNames: set<Name>, statements: seq<Stmt>, st: ScopeState, n: Name, b: bool, c: bool)
    decreases statements
  {
    if statements == [] then b == c
    else
      var front, last := statements[..|statements| - 1], statements[|statements| - 1];
      var behind := After(runtimeNames, front, st);
      || MayRaise(runtimeNames, front, st, n, b, c)
      || exists m: bool :: MayEnd(runtimeNames, front, st, n, b, m) &&
           (MayRaiseStmt(runtimeNames, last, behind, n, m, c) || MayEndStmt(runtimeNames, last, behind, n, m, c))
  }

  predicate MayEndStmt(runtimeNames: set<Name>, s: Stmt, st: ScopeState, n: Name, b: bool, c: bool)
    decreases s, 2
  {
    match s
    case Bind(names, _) => c == (b || n in names)
    case Del(names) => if n in names then b && !c else b == c
    case If(test, body, orelse) =>
      || (st.Truth(runtimeNames, test) != Some(false) && MayEnd(runtimeNames, body, st, n, b, c))
      || (st.Truth(runtimeNames, test) != Some(true) && MayEnd(runtimeNames, orelse, st, n, b, c))
    case For(_, _, orelse) =>
      exists h: bool :: MayHead(runtimeNames, s, st, n, b, h) && MayEnd(runtimeNames, orelse, LoopExit(runtimeNames, s, st), n, h, c)
    case While(_, orelse) =>
      exists h: bool :: MayHead(runtimeNames, s, st, n, b, h) && MayEnd(runtimeNames, orelse, LoopExit(runtimeNames, s, st), n, h, c)
    case Try(_, _, _, finalbody) =>
      exists m: bool :: MayLeave(runtimeNames, s, st, n, b, m) && MayEnd(runtimeNames, finalbody, BeforeFinally(runtimeNames, s, st), n, m, c)
    case With(targets, suppresses, body) =>
      var entry := st.BindNames(targets, None);
      || MayEnd(runtimeNames, body, entry, n, b || n in targets, c)
      || (suppresses && MayRaise(runtimeNames, body, entry, n, b || n in targets, c))
    case Match(cases) =>
      exists x: bool :: MayTry(cases, n, b, x) &&
        (x == c || exists i :: 0 <= i < |cases| && MayEnd(runtimeNames, cases[i].body, st.BindNames(cases[i].names, None), n, x || n in cases[i].names, c))
  }

  predicate MayRaiseStmt(runtimeNames: set<Name>, s: Stmt, st: ScopeState, n: Name, b: bool, c: bool)
    decreases s, 2
  {
    || b == c
    || match s
       case Bind(names, _) => c && n in names
       case Del(names) => n in names && b && !c
       case If(test, body, orelse) =>
         || (st.Truth(runtimeNames, test) != Some(false) && MayRaise(runtimeNames, body, st, n, b, c))
         || (st.Truth(runtimeNames, test) != Some(true) && MayRaise(runtimeNames, orelse, st, n, b, c))
       case For(_, _, _) => MayRaiseInLoop(runtimeNames, s, st, n, b, c)
       case While(_, _) => MayRaiseInLoop(runtimeNames, s, st, n, b, c)
       case Try(_, _, _, finalbody) =>
         exists m: bool :: (MayLeave(runtimeNames, s, st, n, b, m) || MayEscape(runtimeNames, s, st, n, b, m)) &&
           MayRaise(runtimeNames, finalbody, BeforeFinally(runtimeNames, s, st), n, m, c)
       case With(targets, _, body) =>
         (c && n in targets) || MayRaise(runtimeNames, body, st.BindNames(targets, None), n, b || n in targets, c)
       case Match(cases) =>
         exists x: bool :: MayTry(cases, n, b, x) &&
           (x == c || exists i :: 0 <= i < |cases| && MayRaise(runtimeNames, cases[i].body, st.BindNames(cases[i].names, None), n, x || n in cases[i].names, c))
  }

  /** At the loop head: after no iteration, or after one, which is as good as any number. */
  predicate MayHead(runtimeNames: set<Name>, s: Stmt, st: ScopeState, n: Name, b: bool, h: bool)
    requires s.For? || s.While?
    decreases s, 0
  {
    b == h || MayEnd(runtimeNames, s.body, LoopEntry(s, st), n, b || n in Targets(s), h)
  }

  predicate MayRaiseInLoop(runtimeNames: set<Name>, s: Stmt, st: ScopeState, n: Name, b: bool, c: bool)
    requires s.For? || s.While?
    decreases s, 1
  {
    exists h: bool :: MayHead(runtimeNames, s, st, n, b, h) &&
      (|| c == h
       || (c && n in Targets(s))
       || MayRaise(runtimeNames, s.body, LoopEntry(s, st), n, h || n in Targets(s), c)
       || MayRaise(runtimeNames, s.orelse, LoopExit(runtimeNames, s, st), n, h, c))
  }

  /** The parts of a try statement before its finally part, left normally. */
  predicate MayLeave(runtimeNames: set<Name>, s: Stmt, st: ScopeState, n: Name, b: bool, m: bool)
    requires s.Try?
    decreases s, 1
  {
    || MayComplete(runtimeNames, s, st, n, b, m)
    || exists i, x: bool :: 0 <= i < |s.handlers| && MayRaise(runtimeNames, s.body, st, n, b, x) && MayEndHandler(runtimeNames, s.handlers[i], st, n, x, m)
  }

  /** The body and the else part of a try statement, without any exception. */
  predicate MayComplete(runtimeNames: set<Name>, s: Stmt, st: ScopeState, n: Name, b: bool, m: bool)
    requires s.Try?
    decreases s, 0
  {
    exists x: bool :: MayEnd(runtimeNames, s.body, st, n, b, x) && MayEnd(runtimeNames, s.orelse, After(runtimeNames, s.body, st), n, x, m)
  }

  /** Left by an exception. */
  predicate MayEscape(runtimeNames: set<Name>, s: Stmt, st: ScopeState, n: Name, b: bool, m: bool)
    requires s.Try?
    decreases s, 1
  {
    || MayRaise(runtimeNames, s.body, st, n, b, m)
    || (exists x: bool :: MayEnd(runtimeNames, s.body, st, n, b, x) && MayRaise(runtimeNames, s.orelse, After(runtimeNames, s.body, st), n, x, m))
    || exists i, x: bool :: 0 <= i < |s.handlers| && MayRaise(runtimeNames, s.body, st, n, b, x) && MayRaiseHandler(runtimeNames, s.handlers[i], st, n, x, m)
  }

  predicate MayEndHandler(runtimeNames: set<Name>, h: Handler, st: ScopeState, n: Name, b: bool, c: bool)
    decreases h
  {
    if h.name == Some(n) then !c && exists x: bool :: MayEnd(runtimeNames, h.body, HandlerEntry(h, st), n, true, x)
    else MayEnd(runtimeNames, h.body, HandlerEntry(h, st), n, b, c)
  }

  predicate MayRaiseHandler(runtimeNames: set<Name>, h: Handler, st: ScopeState, n: Name, b: bool, c: bool)
    decreases h
  {
    if h.name == Some(n) then !c else MayRaise(runtimeNames, h.body, HandlerEntry(h, st), n, b, c)
  }

  /** Patterns that fail in the end may have captured the name. */
  predicate MayTry(cases: seq<Case>, n: Name, b: bool, x: bool) {
    x == b || (x && n in CaseNames(cases))
  }

  lemma EndMayRaise(runtimeNames: set<Name>, statements: seq<Stmt>, st: ScopeState, n: Name, b: bool, c: bool)
    requires MayEnd(runtimeNames, statements, st, n, b, c)
    ensures MayRaise(runtimeNames, statements, st, n, b, c)
  {
  }

  lemma {:induction false} AtOnceMayRaise(runtimeNames: set<Name>, statements: seq<Stmt>, st: ScopeState, n: Name, b: bool)
    ensures MayRaise(runtimeNames, statements, st, n, b, b)
    decreases |statements|
  {
    if statements == [] {
    } else {
      AtOnceMayRaise(runtimeNames, statements[..|statements| - 1], st, n, b);
    }
  }

  // ---------------------------------------------------------------------------------------------
  // Losing a name, once more
  // ---------------------------------------------------------------------------------------------

  /** Code that cannot lose a name has a completed run that keeps it, and none that does not. */
  lemma {:induction false} KeepsWhatItCannotLose(runtimeNames: set<Name>, statements: seq<Stmt>, st: ScopeState, n: Name)
    requires !CanLose(runtimeNames, statements, st, n)
    ensures MayEnd(runtimeNames, statements, st, n, true, true)
    ensures !MayEnd(runtimeNames, statements, st, n, true, false) && !MayRaise(runtimeNames, statements, st, n, true, false)
    decreases statements
  {
    if statements == [] {
    } else {
      var front, last := statements[..|statements| - 1], statements[|statements| - 1];
      KeepsWhatItCannotLose(runtimeNames, front, st, n);
      StmtKeepsWhatItCannotLose(runtimeNames, last, After(runtimeNames, front, st), n);
    }
  }

  lemma {:induction false} StmtKeepsWhatItCannotLose(runtimeNames: set<Name>, s: Stmt, st: ScopeState, n: Name)
    requires !StmtCanLose(runtimeNames, s, st, n)
    ensures MayEndStmt(runtimeNames, s, st, n, true, true)
    ensures !MayEndStmt(runtimeNames, s, st, n, true, false) && !MayRaiseStmt(runtimeNames, s, st, n, true, false)
    decreases s
  {
    match s
    case Bind(_, _) =>
    case Del(_) =>
    case If(test, body, orelse) =>
      if st.Truth(runtimeNames, test) != Some(false) {
        KeepsWhatItCannotLose(runtimeNames, body, st, n);
      }
      if st.Truth(runtimeNames, test) != Some(true) {
        KeepsWhatItCannotLose(runtimeNames, orelse, st, n);
      }
    case For(_, body, orelse) =>
      KeepsWhatItCannotLose(runtimeNames, body, LoopEntry(s, st), n);
      KeepsWhatItCannotLose(runtimeNames, orelse, LoopExit(runtimeNames, s, st), n);
      assert MayHead(runtimeNames, s, st, n, true, true) && !MayHead(runtimeNames, s, st, n, true, false);
      assert !MayRaiseInLoop(runtimeNames, s, st, n, true, false);
    case While(body, orelse) =>
      KeepsWhatItCannotLose(runtimeNames, body, LoopEntry(s, st), n);
      KeepsWhatItCannotLose(runtimeNames, orelse, LoopExit(runtimeNames, s, st), n);
      assert MayHead(runtimeNames, s, st, n, true, true) && !MayHead(runtimeNames, s, st, n, true, false);
      assert !MayRaiseInLoop(runtimeNames, s, st, n, true, false);
    case Try(body, handlers, orelse, finalbody) =>
      KeepsWhatItCannotLose(runtimeNames, body, st, n);
      KeepsWhatItCannotLose(runtimeNames, orelse, After(runtimeNames, body, st), n);
      KeepsWhatItCannotLose(runtimeNames, finalbody, BeforeFinally(runtimeNames, s, st), n);
      forall i | 0 <= i < |handlers|
        ensures !MayEndHandler(runtimeNames, handlers[i], st, n, true, false) && !MayRaiseHandler(runtimeNames, handlers[i], st, n, true, false)
      {
        assert !HandlerCanLose(runtimeNames, handlers[i], st, n);
        KeepsWhatItCannotLose(runtimeNames, handlers[i].body, HandlerEntry(handlers[i], st), n);
      }
      assert MayComplete(runtimeNames, s, st, n, true, true) && !MayComplete(runtimeNames, s, st, n, true, false);
      assert MayLeave(runtimeNames, s, st, n, true, true) && !MayLeave(runtimeNames, s, st, n, true, false);
      assert !MayEscape(runtimeNames, s, st, n, true, false);
    case With(targets, _, body) =>
      KeepsWhatItCannotLose(runtimeNames, body, st.BindNames(targets, None), n);
    case Match(cases) =>
      forall i | 0 <= i < |cases|
        ensures !MayEnd(runtimeNames, cases[i].body, st.BindNames(cases[i].names, None), n, true, false)
        ensures !MayRaise(runtimeNames, cases[i].body, st.BindNames(cases[i].names, None), n, true, false)
      {
        KeepsWhatItCannotLose(runtimeNames, cases[i].body, st.BindNames(cases[i].names, None), n);
      }
      assert MayTry(cases, n, true, true);
  }

  /** Code that can lose a name may do so when an exception cuts it short. */
  lemma {:induction false} LosesWhatItCan(runtimeNames: set<Name>, statements: seq<Stmt>, st: ScopeState, n: Name)
    requires CanLose(runtimeNames, statements, st, n)
    ensures MayRaise(runtimeNames, statements, st, n, true, false)
    decreases statements
  {
    var front, last := statements[..|statements| - 1], statements[|statements| - 1];
    if CanLose(runtimeNames, front, st, n) {
      LosesWhatItCan(runtimeNames, front, st, n);
    } else {
      KeepsWhatItCannotLose(runtimeNames, front, st, n);
      StmtLosesWhatItCan(runtimeNames, last, After(runtimeNames, front, st), n);
    }
  }

  lemma {:induction false} StmtLosesWhatItCan(runtimeNames: set<Name>, s: Stmt, st: ScopeState, n: Name)
    requires StmtCanLose(runtimeNames, s, st, n)
    ensures MayRaiseStmt(runtimeNames, s, st, n, true, false)
    decreases s
  {
    match s
    case Bind(_, _) =>
    case Del(_) =>
    case If(test, body, orelse) =>
      if st.Truth(runtimeNames, test) != Some(false) && CanLose(runtimeNames, body, st, n) {
        LosesWhatItCan(runtimeNames, body, st, n);
      } else {
        LosesWhatItCan(runtimeNames, orelse, st, n);
      }
    case For(_, body, orelse) =>
      assert MayHead(runtimeNames, s, st, n, true, true);
      if CanLose(runtimeNames, body, LoopEntry(s, st), n) {
        LosesWhatItCan(runtimeNames, body, LoopEntry(s, st), n);
      } else {
        LosesWhatItCan(runtimeNames, orelse, LoopExit(runtimeNames, s, st), n);
      }
      assert MayRaiseInLoop(runtimeNames, s, st, n, true, false);
    case While(body, orelse) =>
      assert MayHead(runtimeNames, s, st, n, true, true);
      if CanLose(runtimeNames, body, LoopEntry(s, st), n) {
        LosesWhatItCan(runtimeNames, body, LoopEntry(s, st), n);
      } else {
        LosesWhatItCan(runtimeNames, orelse, LoopExit(runtimeNames, s, st), n);
      }
      assert MayRaiseInLoop(runtimeNames, s, st, n, true, false);
    case Try(_, _, _, _) =>
      TryLosesWhatItCan(runtimeNames, s, st, n);
    case With(targets, _, body) =>
      LosesWhatItCan(runtimeNames, body, st.BindNames(targets, None), n);
    case Match(cases) =>
      var i :| 0 <= i < |cases| && CanLose(runtimeNames, cases[i].body, st.BindNames(cases[i].names, None), n);
      LosesWhatItCan(runtimeNames, cases[i].body, st.BindNames(cases[i].names, None), n);
      assert MayTry(cases, n, true, true);
  }

  lemma {:induction false} TryLosesWhatItCan(runtimeNames: set<Name>, s: Stmt, st: ScopeState, n: Name)
    requires s.Try? && StmtCanLose(runtimeNames, s, st, n)
    ensures MayRaiseStmt(runtimeNames, s, st, n, true, false)
    decreases s, 0
  {
    var finally_ := BeforeFinally(runtimeNames, s, st);
    AtOnceMayRaise(runtimeNames, s.finalbody, finally_, n, false);
    AtOnceMayRaise(runtimeNames, s.body, st, n, true);
    if CanLose(runtimeNames, s.body, st, n) {
      LosesWhatItCan(runtimeNames, s.body, st, n);
      assert MayEscape(runtimeNames, s, st, n, true, false);
    } else if i :| 0 <= i < |s.handlers| && HandlerCanLose(runtimeNames, s.handlers[i], st, n) {
      if s.handlers[i].name != Some(n) {
        LosesWhatItCan(runtimeNames, s.handlers[i].body, HandlerEntry(s.handlers[i], st), n);
      }
      assert MayRaiseHandler(runtimeNames, s.handlers[i], st, n, true, false);
      assert MayEscape(runtimeNames, s, st, n, true, false);
    } else {
      KeepsWhatItCannotLose(runtimeNames, s.body, st, n);
      if CanLose(runtimeNames, s.orelse, After(runtimeNames, s.body, st), n) {
        LosesWhatItCan(runtimeNames, s.orelse, After(runtimeNames, s.body, st), n);
        assert MayEscape(runtimeNames, s, st, n, true, false);
      } else {
        KeepsWhatItCannotLose(runtimeNames, s.orelse, After(runtimeNames, s.body, st), n);
        LosesWhatItCan(runtimeNames, s.finalbody, finally_, n);
        assert MayComplete(runtimeNames, s, st, n, true, true) && MayLeave(runtimeNames, s, st, n, true, true);
      }
    }
  }

  // ---------------------------------------------------------------------------------------------
  // Every run is among what the analysis says may happen
  // ---------------------------------------------------------------------------------------------

  ghost predicate Found(runtimeNames: set<Name>, statements: seq<Stmt>, st: ScopeState, n: Name, store: Store, o: Outcome) {
    if o.Normal? then MayEnd(runtimeNames, statements, st, n, n in store, n in o.store)
    else MayRaise(runtimeNames, statements, st, n, n in store, n in o.store)
  }

  lemma {:induction false} RunIsFound(runtimeNames: set<Name>, guards: iset<Name>, statements: seq<Stmt>, st: ScopeState, n: Name, store: Store, o: Outcome)
    requires Steady(runtimeNames, guards, statements, st) && st.Tidy(runtimeNames) && AccurateOn(guards, st, store)
    requires Runs(statements, store, o)
    ensures Found(runtimeNames, statements, st, n, store, o)
    decreases statements
  {
    if statements == [] {
    } else {
      var front, last := statements[..|statements| - 1], statements[|statements| - 1];
      if o.Raised? && Runs(front, store, o) {
        RunIsFound(runtimeNames, guards, front, st, n, store, o);
      } else {
        var mid :| Runs(front, store, Normal(mid)) && (RunsStmt(last, mid, o) || (o.Raised? && RunsStmt(last, mid, Normal(o.store))));
        RunIsFound(runtimeNames, guards, front, st, n, store, Normal(mid));
        RunKeepsAccuracy(runtimeNames, guards, front, st, store, mid);
        StaysTidy(runtimeNames, front, st);
        StmtRunIsFound(runtimeNames, guards, last, After(runtimeNames, front, st), n, mid, if RunsStmt(last, mid, o) then o else Normal(o.store));
      }
    }
  }

  lemma {:induction false} StmtRunIsFound(runtimeNames: set<Name>, guards: iset<Name>, s: Stmt, st: ScopeState, n: Name, store: Store, o: Outcome)
    requires SteadyStmt(runtimeNames, guards, s, st) && st.Tidy(runtimeNames) && AccurateOn(guards, st, store)
    requires RunsStmt(s, store, o)
    ensures o.Normal? ==> MayEndStmt(runtimeNames, s, st, n, n in store, n in o.store)
    ensures o.Raised? ==> MayRaiseStmt(runtimeNames, s, st, n, n in store, n in o.store)
    decreases s, 2
  {
    if o.Raised? && o.store == store {
    } else {
      match s
      case Bind(names, _) =>
        assert names[..|names|] == names;
        PrefixNames(names);
      case Del(names) =>
        assert names[..|names|] == names;
        PrefixNames(names);
      case If(test, body, orelse) =>
        if May(test, store, true) && Runs(body, store, o) {
          DecidedBranch(runtimeNames, guards, test, st, store, true);
          RunIsFound(runtimeNames, guards, body, st, n, store, o);
        } else {
          DecidedBranch(runtimeNames, guards, test, st, store, false);
          RunIsFound(runtimeNames, guards, orelse, st, n, store, o);
        }
      case For(_, _, _) =>
        LoopRunIsFound(runtimeNames, guards, s, st, n, store, o);
      case While(_, _) =>
        LoopRunIsFound(runtimeNames, guards, s, st, n, store, o);
      case Try(_, _, _, _) =>
        TryRunIsFound(runtimeNames, guards, s, st, n, store, o);
      case With(_, _, _) =>
        WithRunIsFound(runtimeNames, guards, s, st, n, store, o);
      case Match(_) =>
        MatchRunIsFound(runtimeNames, guards, s, st, n, store, o);
    }
  }

  lemma {:induction false} WithRunIsFound(runtimeNames: set<Name>, guards: iset<Name>, s: Stmt, st: ScopeState, n: Name, store: Store, o: Outcome)
    requires s.With? && SteadyStmt(runtimeNames, guards, s, st) && st.Tidy(runtimeNames) && AccurateOn(guards, st, store)
    requires RunsStmt(s, store, o) && !(o.Raised? && o.store == store)
    ensures o.Normal? ==> MayEndStmt(runtimeNames, s, st, n, n in store, n in o.store)
    ensures o.Raised? ==> MayRaiseStmt(runtimeNames, s, st, n, n in store, n in o.store)
    decreases s, 1
  {
    var targets, body, entry := s.targets, s.body, st.BindNames(s.targets, None);
    if o.Raised? && Binds(targets, Opaque, store, o) {
      PrefixNames(targets);
    } else {
      var entered, mid :|
        Assigned(store, entered, NameSet(targets), Opaque) && Runs(body, entered, mid) && mid.store == o.store && (mid.Raised? && o.Normal? ==> s.suppresses);
      NamesKeepTidy(runtimeNames, st, targets, None);
      AccurateOnEntry(guards, st, targets, store, entered);
      RunIsFound(runtimeNames, guards, body, entry, n, entered, mid);
      if mid.Normal? {
        EndMayRaise(runtimeNames, body, entry, n, n in entered, n in mid.store);
      }
    }
  }

  lemma {:induction false} BodyRunIsFound(runtimeNames: set<Name>, guards: iset<Name>, s: Stmt, st: ScopeState, n: Name, head: Store, o: Outcome)
    requires (s.For? || s.While?) && SteadyStmt(runtimeNames, guards, s, st) && st.Tidy(runtimeNames) && AccurateOn(guards, st, head)
    requires RunsBody(s, head, o)
    ensures o.Normal? ==> MayEnd(runtimeNames, s.body, LoopEntry(s, st), n, n in head || n in Targets(s), n in o.store)
    ensures o.Raised? ==> MayRaise(runtimeNames, s.body, LoopEntry(s, st), n, n in head || n in Targets(s), n in o.store)
    decreases s, 0
  {
    var entered :| Assigned(head, entered, NameSet(Targets(s)), Opaque) && Runs(s.body, entered, o);
    StmtStaysTidy(runtimeNames, s, st);
    AccurateOnEntry(guards, st, Targets(s), head, entered);
    RunIsFound(runtimeNames, guards, s.body, LoopEntry(s, st), n, entered, o);
  }

  /** Any number of iterations: with one bit to keep, the first has already been as far as any later one gets. */
  lemma {:induction false} HeadsAreFound(runtimeNames: set<Name>, guards: iset<Name>, s: Stmt, st: ScopeState, n: Name, heads: seq<Store>)
    requires (s.For? || s.While?) && SteadyStmt(runtimeNames, guards, s, st) && st.Tidy(runtimeNames)
    requires Iterations(s, heads) && AccurateOn(guards, st, heads[0])
    ensures AccurateOn(guards, st, heads[|heads| - 1]) && AccurateOn(guards, LoopExit(runtimeNames, s, st), heads[|heads| - 1])
    ensures MayHead(runtimeNames, s, st, n, n in heads[0], n in heads[|heads| - 1])
    decreases s, 1, 1
  {
    HeadsAreAccurate(runtimeNames, guards, s, st, heads);
    assert MayHead(runtimeNames, s, st, n, n in heads[0], n in heads[0]);
    for i := 1 to |heads|
      invariant MayHead(runtimeNames, s, st, n, n in heads[0], n in heads[i - 1])
    {
      assert RunsBody(s, heads[i - 1], Normal(heads[i]));
      BodyRunIsFound(runtimeNames, guards, s, st, n, heads[i - 1], Normal(heads[i]));
    }
  }

  lemma {:induction false} LoopRunIsFound(runtimeNames: set<Name>, guards: iset<Name>, s: Stmt, st: ScopeState, n: Name, store: Store, o: Outcome)
    requires (s.For? || s.While?) && SteadyStmt(runtimeNames, guards, s, st) && st.Tidy(runtimeNames) && AccurateOn(guards, st, store)
    requires RunsLoop(s, store, o)
    ensures o.Normal? ==> MayEndStmt(runtimeNames, s, st, n, n in store, n in o.store)
    ensures o.Raised? ==> MayRaiseStmt(runtimeNames, s, st, n, n in store, n in o.store)
    decreases s, 1, 2
  {
    var heads :| Iterations(s, heads) && heads[0] == store && LeavesLoop(s, heads[|heads| - 1], o);
    var head := heads[|heads| - 1];
    StmtStaysTidy(runtimeNames, s, st);
    HeadsAreFound(runtimeNames, guards, s, st, n, heads);
    if Runs(s.orelse, head, o) {
      RunIsFound(runtimeNames, guards, s.orelse, LoopExit(runtimeNames, s, st), n, head, o);
    } else if o.Raised? && RunsBody(s, head, o) {
      BodyRunIsFound(runtimeNames, guards, s, st, n, head, o);
    } else {
      PrefixNames(Targets(s));
      assert n in o.store <==> n in head || (n in o.store && n in Targets(s));
    }
    assert o.Raised? ==> MayRaiseInLoop(runtimeNames, s, st, n, n in store, n in o.store);
  }

  lemma {:induction false} GuardedRunIsFound(runtimeNames: set<Name>, guards: iset<Name>, s: Stmt, st: ScopeState, n: Name, store: Store, o: Outcome)
    requires s.Try? && SteadyStmt(runtimeNames, guards, s, st) && st.Tidy(runtimeNames) && AccurateOn(guards, st, store)
    requires RunsGuarded(s, store, o)
    ensures o.Normal? ==> MayLeave(runtimeNames, s, st, n, n in store, n in o.store)
    ensures o.Raised? ==> MayEscape(runtimeNames, s, st, n, n in store, n in o.store)
    decreases s, 0
  {
    if mid :| Runs(s.body, store, Normal(mid)) && Runs(s.orelse, mid, o) {
      RunIsFound(runtimeNames, guards, s.body, st, n, store, Normal(mid));
      RunKeepsAccuracy(runtimeNames, guards, s.body, st, store, mid);
      StaysTidy(runtimeNames, s.body, st);
      RunIsFound(runtimeNames, guards, s.orelse, After(runtimeNames, s.body, st), n, mid, o);
      assert o.Normal? ==> MayComplete(runtimeNames, s, st, n, n in store, n in o.store);
    } else if o.Raised? && Runs(s.body, store, o) {
      RunIsFound(runtimeNames, guards, s.body, st, n, store, o);
    } else {
      var mid, i :| 0 <= i < |s.handlers| && Runs(s.body, store, Raised(mid)) && RunsHandler(s.handlers[i], mid, o);
      RunIsFound(runtimeNames, guards, s.body, st, n, store, Raised(mid));
      RaisedBodyIsAccurate(guards, s, st, store, mid);
      HandlerRunIsFound(runtimeNames, guards, s.handlers[i], st, n, mid, o);
    }
  }

  lemma {:induction false} HandlerRunIsFound(runtimeNames: set<Name>, guards: iset<Name>, h: Handler, st: ScopeState, n: Name, store: Store, o: Outcome)
    requires Steady(runtimeNames, guards, h.body, HandlerEntry(h, st)) && st.Tidy(runtimeNames) && AccurateOn(guards, st, store)
    requires RunsHandler(h, store, o)
    ensures o.Normal? ==> MayEndHandler(runtimeNames, h, st, n, n in store, n in o.store)
    ensures o.Raised? ==> MayRaiseHandler(runtimeNames, h, st, n, n in store, n in o.store)
    decreases h
  {
    match h.name
    case None =>
      RunIsFound(runtimeNames, guards, h.body, st, n, store, o);
    case Some(m) =>
      var entered, inner :| Assigned(store, entered, {m}, Opaque) && Runs(h.body, entered, inner) && o == inner.Without(m);
      assert AccurateOn(guards, HandlerEntry(h, st), entered);
      RunIsFound(runtimeNames, guards, h.body, HandlerEntry(h, st), n, entered, inner);
  }

  lemma {:induction false} TryRunIsFound(runtimeNames: set<Name>, guards: iset<Name>, s: Stmt, st: ScopeState, n: Name, store: Store, o: Outcome)
    requires s.Try? && SteadyStmt(runtimeNames, guards, s, st) && st.Tidy(runtimeNames) && AccurateOn(guards, st, store)
    requires RunsStmt(s, store, o) && !(o.Raised? && o.store == store)
    ensures o.Normal? ==> MayEndStmt(runtimeNames, s, st, n, n in store, n in o.store)
    ensures o.Raised? ==> MayRaiseStmt(runtimeNames, s, st, n, n in store, n in o.store)
    decreases s, 1
  {
    var finally_ := BeforeFinally(runtimeNames, s, st);
    var mid :| RunsGuarded(s, store, mid) &&
      if mid.Normal? then Runs(s.finalbody, mid.store, o)
      else o.Raised? && (Runs(s.finalbody, mid.store, o) || Runs(s.finalbody, mid.store, Normal(o.store)));
    GuardedRunIsFound(runtimeNames, guards, s, st, n, store, mid);
    StmtStaysTidy(runtimeNames, s, st);
    GuardedIsAccurate(runtimeNames, guards, s, st, store, mid);
    var left := if Runs(s.finalbody, mid.store, o) then o else Normal(o.store);
    RunIsFound(runtimeNames, guards, s.finalbody, finally_, n, mid.store, left);
    if left.Normal? {
      EndMayRaise(runtimeNames, s.finalbody, finally_, n, n in mid.store, n in o.store);
    }
  }

  lemma {:induction false} CaseRunIsFound(runtimeNames: set<Name>, guards: iset<Name>, c: Case, st: ScopeState, n: Name, tried: Store, o: Outcome)
    requires Steady(runtimeNames, guards, c.body, st.BindNames(c.names, None)) && st.Tidy(runtimeNames) && AccurateOn(guards, st, tried)
    requires RunsCase(c, tried, o)
    ensures o.Normal? ==> MayEnd(runtimeNames, c.body, st.BindNames(c.names, None), n, n in tried || n in c.names, n in o.store)
    ensures o.Raised? ==> MayRaise(runtimeNames, c.body, st.BindNames(c.names, None), n, n in tried || n in c.names, n in o.store)
    decreases c
  {
    var entered :| Assigned(tried, entered, NameSet(c.names), Opaque) && Runs(c.body, entered, o);
    NamesKeepTidy(runtimeNames, st, c.names, None);
    AccurateOnEntry(guards, st, c.names, tried, entered);
    RunIsFound(runtimeNames, guards, c.body, st.BindNames(c.names, None), n, entered, o);
    assert n in entered <==> n in tried || n in c.names;
  }

  lemma {:induction false} MatchRunIsFound(runtimeNames: set<Name>, guards: iset<Name>, s: Stmt, st: ScopeState, n: Name, store: Store, o: Outcome)
    requires s.Match? && SteadyStmt(runtimeNames, guards, s, st) && st.Tidy(runtimeNames) && AccurateOn(guards, st, store)
    requires RunsStmt(s, store, o) && !(o.Raised? && o.store == store)
    ensures o.Normal? ==> MayEndStmt(runtimeNames, s, st, n, n in store, n in o.store)
    ensures o.Raised? ==> MayRaiseStmt(runtimeNames, s, st, n, n in store, n in o.store)
    decreases s, 1
  {
    var cases := s.cases;
    var extra, tried :| extra <= CaseNames(cases) && Assigned(store, tried, extra, Opaque) &&
      (o == Normal(tried) || o == Raised(tried) || exists i :: 0 <= i < |cases| && RunsCase(cases[i], tried, o));
    AccurateOnTrying(guards, st, cases, extra, store, tried);
    assert MayTry(cases, n, n in store, n in tried);
    if i :| 0 <= i < |cases| && RunsCase(cases[i], tried, o) {
      CaseRunIsFound(runtimeNames, guards, cases[i], st, n, tried, o);
    }
  }
}
