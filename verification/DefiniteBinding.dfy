/** Definite binding: the flow-sensitive part of the annotation audit for the statements of one scope. */
module DefiniteBinding {
  import opened Prelude

  type Name = string

  /** A dotted expression: a name and the attributes behind it, empty for the name alone. */
  datatype Ref = Ref(root: Name, suffix: string)

  function Dotted(canonical: string, suffix: string): string {
    if suffix == "" then canonical else canonical + "." + suffix
  }

  /** Tests over names, one of which may be the TYPE_CHECKING guard, and other expressions unknown to the audit. */
  datatype Test = Named(ref: Ref) | Not(operand: Test) | And(values: seq<Test>) | Or(values: seq<Test>) | Other

  /** The canonical names of the guard, which is False at run time. */
  const GUARDS: set<string> := {"typing.TYPE_CHECKING", "typing_extensions.TYPE_CHECKING"}

  /** What a name may be known as for it, or an attribute of it, to be a guard. */
  const GUARD_PATHS: set<string> := {"typing", "typing_extensions"} + GUARDS

  /** What of a canonical name may lead to a guard. */
  function GuardPart(canonical: Option<string>): Option<string> {
    if canonical.Some? && canonical.value in GUARD_PATHS then canonical else None
  }

  predicate IsGuard(canonical: Option<string>) {
    canonical.Some? && canonical.value in GUARDS
  }

  /** Only along these paths does one come to a guard. */
  lemma GuardPath(canonical: string, suffix: string)
    ensures Dotted(canonical, suffix) in GUARD_PATHS ==> canonical in GUARD_PATHS
    ensures canonical in GUARD_PATHS && canonical !in GUARDS ==> Dotted(canonical, "TYPE_CHECKING") in GUARDS
  {
    var dotted := Dotted(canonical, suffix);
    if suffix != "" && dotted in GUARD_PATHS {
      assert dotted[|canonical|] == '.' && dotted[..|canonical|] == canonical;
      assert dotted == "typing.TYPE_CHECKING" ==> |canonical| == 6 && dotted[..6] == "typing";
      assert dotted == "typing_extensions.TYPE_CHECKING" ==> |canonical| == 17 && dotted[..17] == "typing_extensions";
    }
    assert "typing" + "." + "TYPE_CHECKING" == "typing.TYPE_CHECKING";
    assert "typing_extensions" + "." + "TYPE_CHECKING" == "typing_extensions.TYPE_CHECKING";
  }

  /** Instances are no guards. */
  lemma NoInstanceIsAGuard(factory: string)
    requires factory in FACTORIES
    ensures factory + ".instance" !in GUARD_PATHS
  {
    assert (factory + ".instance")[0] == 'f';
  }

  /** The classes whose instances are followed. */
  const FACTORIES: set<string> := {"fastapi.FastAPI", "fastapi.APIRouter"}

  /** What a name is bound to, as far as canonical names are tracked. */
  datatype BoundValue = Opaque | Imported(canonical: string) | CopyOf(ref: Ref) | CallOf(ref: Ref)

  datatype Stmt =
    | Bind(names: seq<Name>, value: BoundValue)  // assignment, import, function or class definition
    | Del(names: seq<Name>)
    | If(test: Test, body: seq<Stmt>, orelse: seq<Stmt>)
    | For(targets: seq<Name>, body: seq<Stmt>, orelse: seq<Stmt>)
    | While(body: seq<Stmt>, orelse: seq<Stmt>)
    | Try(body: seq<Stmt>, handlers: seq<Handler>, orelse: seq<Stmt>, finalbody: seq<Stmt>)
    | With(targets: seq<Name>, suppresses: bool, body: seq<Stmt>)
    | Match(cases: seq<Case>)

  datatype Handler = Handler(name: Option<Name>, body: seq<Stmt>)
  datatype Case = Case(names: seq<Name>, body: seq<Stmt>)

  function NameSet(names: seq<Name>): set<Name> {
    set n | n in names
  }

  // ---------------------------------------------------------------------------------------------
  // Static truth of TYPE_CHECKING tests
  // ---------------------------------------------------------------------------------------------

  /** The canonical name of a dotted expression, where it is known. */
  type Resolution = Ref -> Option<string>

  /** `_runtime_type_checking_truth`: the run-time truth of a test, when guards alone decide it. */
  function StaticTruth(test: Test, canonicalName: Resolution): Option<bool> {
    match test
    case Named(ref) => if IsGuard(canonicalName(ref)) then Some(false) else None
    case Not(operand) =>
      var truth := StaticTruth(operand, canonicalName);
      if truth.Some? then Some(!truth.value) else None
    case And(values) =>
      if exists i :: 0 <= i < |values| && StaticTruth(values[i], canonicalName) == Some(false) then Some(false)
      else if values != [] && forall i :: 0 <= i < |values| ==> StaticTruth(values[i], canonicalName) == Some(true) then Some(true)
      else None
    case Or(values) =>
      if exists i :: 0 <= i < |values| && StaticTruth(values[i], canonicalName) == Some(true) then Some(true)
      else if values != [] && forall i :: 0 <= i < |values| ==> StaticTruth(values[i], canonicalName) == Some(false) then Some(false)
      else None
    case Other => None
  }

  /** The names whose resolution a test depends on. */
  function TestNames(test: Test): set<Name> {
    match test
    case Named(ref) => {ref.root}
    case Not(operand) => TestNames(operand)
    case And(values) => set i, n | 0 <= i < |values| && n in TestNames(values[i]) :: n
    case Or(values) => set i, n | 0 <= i < |values| && n in TestNames(values[i]) :: n
    case Other => {}
  }

  // ---------------------------------------------------------------------------------------------
  // Scope states
  // ---------------------------------------------------------------------------------------------

  datatype ScopeState = ScopeState(bound: set<Name>, resolved: map<Name, string>, overrides: set<Name>) {
    function Lookup(name: Name): Option<string> {
      if name in resolved then Some(resolved[name]) else None
    }

    /** Every name with a known canonical name is definitely bound, and a name of this scope. */
    ghost predicate Tidy(runtimeNames: set<Name>) {
      resolved.Keys <= bound && resolved.Keys <= overrides + runtimeNames
    }

    /** `_canonical_name`, for the names of one scope. */
    function CanonicalName(runtimeNames: set<Name>, ref: Ref): Option<string> {
      if (ref.root in overrides || ref.root in runtimeNames) && ref.root in resolved
      then Some(Dotted(resolved[ref.root], ref.suffix)) else None
    }

    /** What the name is known as, if it may lead to a guard. */
    function GuardName(name: Name): Option<string> {
      GuardPart(Lookup(name))
    }

    /** What the audit makes of a test in this state. */
    function Truth(runtimeNames: set<Name>, test: Test): Option<bool> {
      StaticTruth(test, ref => CanonicalName(runtimeNames, ref))
    }

    function BindName(name: Name, canonical: Option<string>): ScopeState {
      ScopeState(
        bound + {name},
        if canonical.Some? then resolved[name := canonical.value] else resolved - {name},
        overrides + {name})
    }

    function UnbindName(runtimeNames: set<Name>, name: Name): ScopeState {
      ScopeState(
        bound - {name},
        resolved - {name},
        if name in runtimeNames then overrides - {name} else overrides + {name})
    }

    function BindNames(names: seq<Name>, canonical: Option<string>): (st: ScopeState)
      ensures st.bound == bound + NameSet(names)
    {
      if names == [] then this else BindNames(names[..|names| - 1], canonical).BindName(names[|names| - 1], canonical)
    }

    function UnbindNames(runtimeNames: set<Name>, names: seq<Name>): (st: ScopeState)
      ensures st.bound == bound - NameSet(names)
    {
      if names == [] then this else UnbindNames(runtimeNames, names[..|names| - 1]).UnbindName(runtimeNames, names[|names| - 1])
    }

    /** The canonical name an assigned value stands for. */
    function ValueName(runtimeNames: set<Name>, value: BoundValue): Option<string> {
      match value
      case Opaque => None
      case Imported(canonical) => Some(canonical)
      case CopyOf(ref) => CanonicalName(runtimeNames, ref)
      case CallOf(ref) =>
        var factory := CanonicalName(runtimeNames, ref);
        if factory.Some? && factory.value in FACTORIES then Some(factory.value + ".instance") else None
    }

    /** The meet of two flow states: what holds on both paths. */
    function Merge(other: ScopeState): ScopeState {
      ScopeState(
        bound * other.bound,
        map n | n in resolved && n in bound * other.bound && other.Lookup(n) == Some(resolved[n]) :: resolved[n],
        overrides * other.overrides)
    }
  }

  /** What a value is known as: the guards, and the instances of two classes that are followed from their call on. */
  lemma KnownValues(st: ScopeState, runtimeNames: set<Name>, n: Name, attribute: string, canonical: string)
    requires n in st.overrides + runtimeNames && st.Lookup(n) == Some(canonical)
    ensures IsGuard(st.Lookup(n)) <==> canonical == "typing.TYPE_CHECKING" || canonical == "typing_extensions.TYPE_CHECKING"
    ensures st.ValueName(runtimeNames, Imported(canonical)) == Some(canonical)
    ensures st.ValueName(runtimeNames, CopyOf(Ref(n, ""))) == Some(canonical)
    ensures attribute != "" ==> st.ValueName(runtimeNames, CopyOf(Ref(n, attribute))) == Some(canonical + "." + attribute)
    ensures canonical == "fastapi.FastAPI" ==> st.ValueName(runtimeNames, CallOf(Ref(n, ""))) == Some("fastapi.FastAPI.instance")
    ensures canonical == "fastapi.APIRouter" ==> st.ValueName(runtimeNames, CallOf(Ref(n, ""))) == Some("fastapi.APIRouter.instance")
    ensures canonical == "fastapi" && attribute == "FastAPI" ==> st.ValueName(runtimeNames, CallOf(Ref(n, attribute))) == Some("fastapi.FastAPI.instance")
    ensures canonical != "fastapi.FastAPI" && canonical != "fastapi.APIRouter" ==> st.ValueName(runtimeNames, CallOf(Ref(n, ""))) == None
    ensures st.ValueName(runtimeNames, Opaque) == None
    ensures forall ref: Ref :: (ref.root !in st.overrides + runtimeNames || st.Lookup(ref.root) == None) ==>
      st.ValueName(runtimeNames, CopyOf(ref)) == None && st.ValueName(runtimeNames, CallOf(ref)) == None
  {
    assert "fastapi" + "." + "FastAPI" == "fastapi.FastAPI";
    assert "fastapi.FastAPI" + ".instance" == "fastapi.FastAPI.instance";
    assert "fastapi.APIRouter" + ".instance" == "fastapi.APIRouter.instance";
  }

  ghost predicate InAll(n: Name, states: seq<ScopeState>) {
    forall i :: 0 <= i < |states| ==> n in states[i].bound
  }

  /** The meet of several flow states, from the left. */
  function MergeAll(states: seq<ScopeState>): (st: ScopeState)
    requires states != []
    ensures forall n :: n in st.bound <==> InAll(n, states)
  {
    if |states| == 1 then states[0] else MergeAll(states[..|states| - 1]).Merge(states[|states| - 1])
  }

  // ---------------------------------------------------------------------------------------------
  // The transfer of statements
  // ---------------------------------------------------------------------------------------------

  function After(runtimeNames: set<Name>, statements: seq<Stmt>, st: ScopeState): ScopeState
    decreases statements
  {
    if statements == [] then st
    else AfterStmt(runtimeNames, statements[|statements| - 1], After(runtimeNames, statements[..|statements| - 1], st))
  }

  function AfterStmt(runtimeNames: set<Name>, s: Stmt, st: ScopeState): ScopeState
    decreases s, 1
  {
    match s
    case Bind(names, value) => st.BindNames(names, st.ValueName(runtimeNames, value))
    case Del(names) => st.UnbindNames(runtimeNames, names)
    case If(test, body, orelse) =>
      var truth := st.Truth(runtimeNames, test);
      if truth.Some? then After(runtimeNames, if truth.value then body else orelse, st)
      else After(runtimeNames, body, st).Merge(After(runtimeNames, orelse, st))
    case For(_, _, orelse) => LoopExit(runtimeNames, s, st).Merge(After(runtimeNames, orelse, LoopExit(runtimeNames, s, st)))
    case While(_, orelse) => LoopExit(runtimeNames, s, st).Merge(After(runtimeNames, orelse, LoopExit(runtimeNames, s, st)))
    case Try(_, _, _, finalbody) => After(runtimeNames, finalbody, BeforeFinally(runtimeNames, s, st))
    case With(targets, _, body) => After(runtimeNames, body, st.BindNames(targets, None))
    case Match(cases) => MergeAll([st] + CaseStates(runtimeNames, cases, st))
  }

  /** The state a loop body starts from, and the state met at the loop's exit. */
  function LoopEntry(s: Stmt, st: ScopeState): ScopeState
    requires s.For? || s.While?
  {
    if s.For? then st.BindNames(s.targets, None) else st
  }

  function LoopExit(runtimeNames: set<Name>, s: Stmt, st: ScopeState): ScopeState
    requires s.For? || s.While?
    decreases s, 0
  {
    st.Merge(After(runtimeNames, s.body, LoopEntry(s, st)))
  }

  /** The state a finally part starts from. */
  function BeforeFinally(runtimeNames: set<Name>, s: Stmt, st: ScopeState): ScopeState
    requires s.Try?
    decreases s, 0
  {
    var completed := After(runtimeNames, s.orelse, After(runtimeNames, s.body, st));
    MergeAll([st, completed] + HandlerStates(runtimeNames, s.handlers, st))
  }

  function HandlerEntry(h: Handler, st: ScopeState): ScopeState {
    if h.name.Some? then st.BindName(h.name.value, None) else st
  }

  function AfterHandler(runtimeNames: set<Name>, h: Handler, st: ScopeState): ScopeState
    decreases h
  {
    var left := After(runtimeNames, h.body, HandlerEntry(h, st));
    if h.name.Some? then left.UnbindName(runtimeNames, h.name.value) else left
  }

  function HandlerStates(runtimeNames: set<Name>, handlers: seq<Handler>, st: ScopeState): (states: seq<ScopeState>)
    ensures |states| == |handlers|
    decreases handlers
  {
    if handlers == [] then []
    else HandlerStates(runtimeNames, handlers[..|handlers| - 1], st) + [AfterHandler(runtimeNames, handlers[|handlers| - 1], st)]
  }

  function CaseStates(runtimeNames: set<Name>, cases: seq<Case>, st: ScopeState): (states: seq<ScopeState>)
    ensures |states| == |cases|
    decreases cases
  {
    if cases == [] then []
    else
      var last := cases[|cases| - 1];
      CaseStates(runtimeNames, cases[..|cases| - 1], st) + [After(runtimeNames, last.body, st.BindNames(last.names, None))]
  }

  lemma OneMoreCase(runtimeNames: set<Name>, cases: seq<Case>, st: ScopeState, i: nat)
    requires i < |cases|
    ensures CaseStates(runtimeNames, cases[..i + 1], st) ==
      CaseStates(runtimeNames, cases[..i], st) + [After(runtimeNames, cases[i].body, st.BindNames(cases[i].names, None))]
  {
    assert cases[..i + 1][..i] == cases[..i] && cases[..i + 1][i] == cases[i];
  }

  /** The audit visitor: three fields of the current scope, saved, restored and met along the flow. */
  class AuditVisitor {
    const runtimeNames: set<Name>
    var definitelyBoundNames: set<Name>
    var resolvedNames: map<Name, string>
    var resolutionOverrides: set<Name>

    constructor (runtimeNames: set<Name>, parameters: set<Name>)
      ensures this.runtimeNames == runtimeNames
      ensures CurrentScopeState() == ScopeState(parameters, map[], {})
    {
      this.runtimeNames := runtimeNames;
      definitelyBoundNames := parameters;
      resolvedNames := map[];
      resolutionOverrides := {};
    }

    function CurrentScopeState(): ScopeState
      reads this
    {
      ScopeState(definitelyBoundNames, resolvedNames, resolutionOverrides)
    }

    method RestoreCurrentScopeState(st: ScopeState)
      modifies this
      ensures CurrentScopeState() == st
    {
      definitelyBoundNames := st.bound;
      resolvedNames := st.resolved;
      resolutionOverrides := st.overrides;
    }

    method MergeCurrentScopeStates(left: ScopeState, right: ScopeState)
      modifies this
      ensures CurrentScopeState() == left.Merge(right)
    {
      var commonBound := left.bound * right.bound;
      definitelyBoundNames := commonBound;
      resolvedNames := map n | n in left.resolved && n in commonBound && right.Lookup(n) == Some(left.resolved[n]) :: left.resolved[n];
      resolutionOverrides := left.overrides * right.overrides;
    }

    method MergeMultipleCurrentScopeStates(states: seq<ScopeState>)
      requires states != []
      modifies this
      ensures CurrentScopeState() == MergeAll(states)
    {
      var merged := states[0];
      for i := 1 to |states|
        invariant merged == MergeAll(states[..i])
      {
        assert states[..i + 1][..i] == states[..i];
        RestoreCurrentScopeState(merged);
        MergeCurrentScopeStates(merged, states[i]);
        merged := CurrentScopeState();
      }
      assert states[..|states|] == states;
      RestoreCurrentScopeState(merged);
    }

    method BindRuntimeName(name: Name, resolved: Option<string>)
      modifies this
      ensures CurrentScopeState() == old(CurrentScopeState()).BindName(name, resolved)
    {
      definitelyBoundNames := definitelyBoundNames + {name};
      resolutionOverrides := resolutionOverrides + {name};
      if resolved.None? {
        resolvedNames := resolvedNames - {name};
      } else {
        resolvedNames := resolvedNames[name := resolved.value];
      }
    }

    method BindAssignmentTargets(names: seq<Name>, resolved: Option<string>)
      modifies this
      ensures CurrentScopeState() == old(CurrentScopeState()).BindNames(names, resolved)
    {
      for i := 0 to |names|
        invariant CurrentScopeState() == old(CurrentScopeState()).BindNames(names[..i], resolved)
      {
        assert names[..i + 1][..i] == names[..i];
        BindRuntimeName(names[i], resolved);
      }
      assert names[..|names|] == names;
    }

    method UnbindRuntimeName(name: Name)
      modifies this
      ensures CurrentScopeState() == old(CurrentScopeState()).UnbindName(runtimeNames, name)
    {
      definitelyBoundNames := definitelyBoundNames - {name};
      resolvedNames := resolvedNames - {name};
      if name in runtimeNames {
        resolutionOverrides := resolutionOverrides - {name};
      } else {
        resolutionOverrides := resolutionOverrides + {name};
      }
    }

    method VisitDelete(names: seq<Name>)
      modifies this
      ensures CurrentScopeState() == old(CurrentScopeState()).UnbindNames(runtimeNames, names)
    {
      for i := 0 to |names|
        invariant CurrentScopeState() == old(CurrentScopeState()).UnbindNames(runtimeNames, names[..i])
      {
        assert names[..i + 1][..i] == names[..i];
        UnbindRuntimeName(names[i]);
      }
      assert names[..|names|] == names;
    }

    method VisitStatements(statements: seq<Stmt>)
      modifies this
      ensures CurrentScopeState() == After(runtimeNames, statements, old(CurrentScopeState()))
      decreases statements, 0
    {
      for i := 0 to |statements|
        invariant CurrentScopeState() == After(runtimeNames, statements[..i], old(CurrentScopeState()))
      {
        assert statements[..i + 1][..i] == statements[..i];
        Visit(statements[i]);
      }
      assert statements[..|statements|] == statements;
    }

    method Visit(s: Stmt)
      modifies this
      ensures CurrentScopeState() == AfterStmt(runtimeNames, s, old(CurrentScopeState()))
      decreases s, 1
    {
      match s
      case Bind(names, value) =>
        BindAssignmentTargets(names, CurrentScopeState().ValueName(runtimeNames, value));
      case Del(names) =>
        VisitDelete(names);
      case If(_, _, _) =>
        VisitIf(s);
      case For(targets, body, orelse) =>
        VisitLoop(s);
      case While(body, orelse) =>
        VisitWhile(s);
      case Try(_, _, _, _) =>
        VisitTry(s);
      case With(targets, _, body) =>
        BindAssignmentTargets(targets, None);
        VisitStatements(body);
      case Match(_) =>
        VisitMatch(s);
    }

    method VisitIf(s: Stmt)
      requires s.If?
      modifies this
      ensures CurrentScopeState() == AfterStmt(runtimeNames, s, old(CurrentScopeState()))
      decreases s, 0
    {
      var runtimeTruth := CurrentScopeState().Truth(runtimeNames, s.test);
      if runtimeTruth.Some? {
        VisitStatements(if runtimeTruth.value then s.body else s.orelse);
        return;
      }
      var before := CurrentScopeState();
      VisitStatements(s.body);
      var bodyState := CurrentScopeState();
      RestoreCurrentScopeState(before);
      VisitStatements(s.orelse);
      var elseState := CurrentScopeState();
      MergeCurrentScopeStates(bodyState, elseState);
    }

    method VisitLoop(s: Stmt)
      requires s.For?
      modifies this
      ensures CurrentScopeState() == AfterStmt(runtimeNames, s, old(CurrentScopeState()))
      decreases s, 0
    {
      var before := CurrentScopeState();
      BindAssignmentTargets(s.targets, None);
      VisitStatements(s.body);
      var bodyState := CurrentScopeState();
      MergeCurrentScopeStates(before, bodyState);
      var withoutElse := CurrentScopeState();
      VisitStatements(s.orelse);
      var elseState := CurrentScopeState();
      MergeCurrentScopeStates(withoutElse, elseState);
    }

    method VisitWhile(s: Stmt)
      requires s.While?
      modifies this
      ensures CurrentScopeState() == AfterStmt(runtimeNames, s, old(CurrentScopeState()))
      decreases s, 0
    {
      var before := CurrentScopeState();
      VisitStatements(s.body);
      var bodyState := CurrentScopeState();
      MergeCurrentScopeStates(before, bodyState);
      var withoutElse := CurrentScopeState();
      VisitStatements(s.orelse);
      var elseState := CurrentScopeState();
      MergeCurrentScopeStates(withoutElse, elseState);
    }

    method VisitTry(s: Stmt)
      requires s.Try?
      modifies this
      ensures CurrentScopeState() == AfterStmt(runtimeNames, s, old(CurrentScopeState()))
      decreases s, 0
    {
      var before := CurrentScopeState();
      VisitStatements(s.body);
      VisitStatements(s.orelse);
      var states := [before, CurrentScopeState()];
      ghost var first := states;
      for i := 0 to |s.handlers|
        invariant states == first + HandlerStates(runtimeNames, s.handlers[..i], before)
      {
        assert s.handlers[..i + 1][..i] == s.handlers[..i];
        var handler := s.handlers[i];
        RestoreCurrentScopeState(before);
        if handler.name.Some? {
          BindRuntimeName(handler.name.value, None);
        }
        VisitStatements(handler.body);
        if handler.name.Some? {
          UnbindRuntimeName(handler.name.value);
        }
        states := states + [CurrentScopeState()];
      }
      assert s.handlers[..|s.handlers|] == s.handlers;
      MergeMultipleCurrentScopeStates(states);
      VisitStatements(s.finalbody);
    }

    method VisitMatch(s: Stmt)
      requires s.Match?
      modifies this
      ensures CurrentScopeState() == AfterStmt(runtimeNames, s, old(CurrentScopeState()))
      decreases s, 0
    {
      var before := CurrentScopeState();
      var states := [before];
      for i := 0 to |s.cases|
        invariant states == [before] + CaseStates(runtimeNames, s.cases[..i], before)
      {
        OneMoreCase(runtimeNames, s.cases, before, i);
        RestoreCurrentScopeState(before);
        BindAssignmentTargets(s.cases[i].names, None);
        VisitStatements(s.cases[i].body);
        states := states + [CurrentScopeState()];
      }
      assert s.cases[..|s.cases|] == s.cases;
      MergeMultipleCurrentScopeStates(states);
    }
  }
}
