/** The TPY4026 coverage check over inferred and declared effect summaries. */
module EffectCheck {
  import opened Prelude
  import opened EffectRows
  import opened EffectInference

  /** One reported call: the caller's name, the line and the callee as displayed. */
  datatype CallReport = CallReport(owner: string, line: nat, callee: string)

  predicate RowCovers(row: EffectRow, required: EffectRow) {
    required <= row
  }

  predicate CallerRowAllows(caller: Option<EffectSummary>, required: EffectRow) {
    && caller.Some?
    && !caller.value.pure
    && caller.value.HasDeclaredEffectRow()
    && RowCovers(caller.value.row, required)
  }

  predicate CapabilityScopesAllow(scopes: seq<CapabilityScope>, line: nat, row: EffectRow) {
    && row != {}
    && exists i :: 0 <= i < |scopes| && scopes[i].lineStart <= line <= scopes[i].lineEnd && RowCovers(scopes[i].grants, row)
  }

  /** The caller side as the checker resolves it, by-name fallback for methods included. */
  ghost function ResolvedCaller(visible: seq<EffectSummary>, call: CallEdge): Option<EffectSummary> {
    if call.ownerType.Some? && First(visible, call.OwnerKey()).Some? then First(visible, call.OwnerKey())
    else First(visible, Key(None, call.ownerName))
  }

  /** The summary is not pure and declares the effect, by anything but inference. */
  ghost predicate Declares(summary: Option<EffectSummary>, e: EffectKind) {
    && summary.Some? && !summary.value.pure && e in summary.value.row
    && exists source :: source in summary.value.sources && !source.Inferred?
  }

  /** One of the scopes around the line grants every effect of the row. */
  ghost predicate Granted(scopes: seq<CapabilityScope>, line: nat, row: EffectRow) {
    exists scope :: scope in scopes && scope.lineStart <= line <= scope.lineEnd && forall e :: e in row ==> e in scope.grants
  }

  /** The callee shows an effect that the caller does not declare, and no scope around the line grants all it shows. */
  ghost predicate Uncovered(visible: seq<EffectSummary>, scopes: seq<CapabilityScope>, call: CallEdge) {
    var row := FirstRow(visible, call.callee.CalleeKey());
    (exists e :: e in row && !Declares(ResolvedCaller(visible, call), e)) && !Granted(scopes, call.line, row)
  }

  /** The two tests of the check, on an effectful callee. */
  lemma TestsMeanUncovered(visible: seq<EffectSummary>, scopes: seq<CapabilityScope>, call: CallEdge)
    requires FirstRow(visible, call.callee.CalleeKey()) != {}
    ensures var row := FirstRow(visible, call.callee.CalleeKey());
      !CallerRowAllows(ResolvedCaller(visible, call), row) && !CapabilityScopesAllow(scopes, call.line, row) <==> Uncovered(visible, scopes, call)
  {
    var caller, row := ResolvedCaller(visible, call), FirstRow(visible, call.callee.CalleeKey());
    if CallerRowAllows(caller, row) {
      var i :| 0 <= i < |caller.value.sources| && !caller.value.sources[i].Inferred?;
      assert caller.value.sources[i] in caller.value.sources;
    }
    if CapabilityScopesAllow(scopes, call.line, row) {
      var i :| 0 <= i < |scopes| && scopes[i].lineStart <= call.line <= scopes[i].lineEnd && RowCovers(scopes[i].grants, row);
      assert scopes[i] in scopes;
    }
  }

  ghost function ReportOf(visible: seq<EffectSummary>, call: CallEdge): CallReport
    requires First(visible, call.callee.CalleeKey()).Some?
  {
    CallReport(call.ownerName, call.line, First(visible, call.callee.CalleeKey()).value.DisplayName())
  }

  ghost predicate ReportsExactly(reports: seq<CallReport>, calls: seq<CallEdge>, visible: seq<EffectSummary>, scopes: seq<CapabilityScope>) {
    && Distinct(reports)
    && forall r :: r in reports <==> exists i :: 0 <= i < |calls| && Uncovered(visible, scopes, calls[i]) && r == ReportOf(visible, calls[i])
  }

  /** The reporting loop over every call surface: each uncovered call once per caller, line and callee. */
  method ReportUncoveredCalls(calls: seq<CallEdge>, visible: seq<EffectSummary>, scopes: seq<CapabilityScope>)
    returns (reports: seq<CallReport>)
    ensures ReportsExactly(reports, calls, visible, scopes)
  {
    reports := [];
    var reported: set<CallReport> := {};
    var tables := BuildSummaryTables(visible);
    for i := 0 to |calls|
      invariant forall r :: r in reported <==> r in reports
      invariant ReportsExactly(reports, calls[..i], visible, scopes)
    {
      var call := calls[i];
      ghost var was := reports;
      assert calls[..i + 1] == calls[..i] + [call];
      assert tables.Lookup(call.callee.CalleeKey()) == First(visible, call.callee.CalleeKey());
      var caller := tables.CallerSummary(call.ownerType, call.ownerName);
      assert caller == ResolvedCaller(visible, call);
      var callee := tables.EffectfulCallee(call.callee);
      if callee.Some? {
        TestsMeanUncovered(visible, scopes, call);
        var report := CallReport(call.ownerName, call.line, callee.value.DisplayName());
        if !CallerRowAllows(caller, callee.value.row)
           && !CapabilityScopesAllow(scopes, call.line, callee.value.row)
           && report !in reported
        {
          reported := reported + {report};
          reports := reports + [report];
        }
      }
      ExtendReports(was, reports, calls[..i], call, visible, scopes);
    }
    assert calls[..|calls|] == calls;
  }

  lemma ExtendReports(was: seq<CallReport>, now: seq<CallReport>, calls: seq<CallEdge>, call: CallEdge, visible: seq<EffectSummary>, scopes: seq<CapabilityScope>)
    requires ReportsExactly(was, calls, visible, scopes)
    requires now == (if Uncovered(visible, scopes, call) && ReportOf(visible, call) !in was then was + [ReportOf(visible, call)] else was)
    ensures ReportsExactly(now, calls + [call], visible, scopes)
  {
    var all := calls + [call];
    forall r | r in now
      ensures exists i :: 0 <= i < |all| && Uncovered(visible, scopes, all[i]) && r == ReportOf(visible, all[i])
    {
      if r in was {
        var i :| 0 <= i < |calls| && Uncovered(visible, scopes, calls[i]) && r == ReportOf(visible, calls[i]);
        assert all[i] == calls[i];
      } else {
        assert all[|calls|] == call;
      }
    }
    forall i | 0 <= i < |all| && Uncovered(visible, scopes, all[i])
      ensures ReportOf(visible, all[i]) in now
    {
      if i < |calls| {
        assert all[i] == calls[i];
        assert ReportOf(visible, calls[i]) in was;
      }
    }
  }

  /** What a call is reported as: the callee under its own name, a method behind its type. */
  ghost predicate Names(r: CallReport, call: CallEdge) {
    && r.owner == call.ownerName && r.line == call.line
    && r.callee == match call.callee
                   case Function(name) => name
                   case Method(typeName, name) => typeName + "." + name
  }

  /**
   The reports name the calls to which someone does not answer: at each there is an effect of the callee that the caller
   does not declare, and each scope around the line lacks an effect of the callee.
   */
  lemma ReportsNameUncoveredCalls(reports: seq<CallReport>, calls: seq<CallEdge>, visible: seq<EffectSummary>, scopes: seq<CapabilityScope>, r: CallReport)
    requires ReportsExactly(reports, calls, visible, scopes)
    ensures r in reports <==> exists call :: call in calls && Names(r, call) && Uncovered(visible, scopes, call)
  {
    if r in reports {
      var i :| 0 <= i < |calls| && Uncovered(visible, scopes, calls[i]) && r == ReportOf(visible, calls[i]);
      assert calls[i] in calls && Names(r, calls[i]);
    }
    if call :| call in calls && Names(r, call) && Uncovered(visible, scopes, call) {
      var i :| 0 <= i < |calls| && calls[i] == call;
      assert r == ReportOf(visible, calls[i]);
    }
  }

  /** Without a report, each effect a callee shows is declared by the caller or granted by a scope around the line. */
  lemma UnreportedIsAnswered(calls: seq<CallEdge>, visible: seq<EffectSummary>, scopes: seq<CapabilityScope>, call: CallEdge, e: EffectKind)
    requires ReportsExactly([], calls, visible, scopes)
    requires call in calls && e in FirstRow(visible, call.callee.CalleeKey())
    ensures Declares(ResolvedCaller(visible, call), e)
            || exists scope :: scope in scopes && scope.lineStart <= call.line <= scope.lineEnd && e in scope.grants
  {
    ReportsNameUncoveredCalls([], calls, visible, scopes, ReportOf(visible, call));
    assert !Uncovered(visible, scopes, call);
  }

  // ---------------------------------------------------------------------------------------------
  // Effect confinement
  // ---------------------------------------------------------------------------------------------

  /** A call path: consecutive call edges, from the first edge's owner to the last edge's callee. */
  ghost predicate CallPath(edges: seq<CallEdge>, path: seq<CallEdge>) {
    && |path| > 0
    && (forall i :: 0 <= i < |path| ==> path[i] in edges)
    && forall i :: 0 < i < |path| ==> path[i].OwnerKey() == path[i - 1].callee.CalleeKey()
  }

  /** The edge lies in a capability scope that grants everything its callee is known to do. */
  ghost predicate Excused(edges: seq<CallEdge>, seeds: seq<EffectSummary>, scopes: seq<CapabilityScope>, edge: CallEdge) {
    var seen := Seen(edges, seeds, MAX_ROUNDS, edge.callee.CalleeKey());
    seen != {} && Granted(scopes, edge.line, seen)
  }

  /** The callable's own first summary is not pure and declares `e`. */
  ghost predicate Admits(seeds: seq<EffectSummary>, key: Key, e: EffectKind) {
    Declares(First(seeds, key), e)
  }

  /** A call path without excused edges that ends in a seeded callee doing `e`. */
  ghost predicate ExposedPath(edges: seq<CallEdge>, seeds: seq<EffectSummary>, scopes: seq<CapabilityScope>, path: seq<CallEdge>, e: EffectKind) {
    && CallPath(edges, path)
    && e in FirstRow(seeds, path[|path| - 1].callee.CalleeKey())
    && forall i :: 0 <= i < |path| ==> !Excused(edges, seeds, scopes, path[i])
  }

  /**
   Effects never escape a declaration: on every call path, of any length, that has no excused edge and
   ends in a seeded callee doing `e`, every caller itself declares `e` and is not pure.
   */
  ghost predicate Confined(edges: seq<CallEdge>, seeds: seq<EffectSummary>, scopes: seq<CapabilityScope>) {
    forall path: seq<CallEdge>, e: EffectKind :: ExposedPath(edges, seeds, scopes, path, e) ==>
      forall i :: 0 <= i < |path| ==> Admits(seeds, path[i].OwnerKey(), e)
  }

  /**
   A caller without a seed summary is reported on its first call of a seeded effectful callee: one round
   gives it an inferred summary, which shadows any by-name fallback and never counts as a declaration.
   */
  lemma UnseededCallerIsUncovered(edges: seq<CallEdge>, seeds: seq<EffectSummary>, inferred: InferredMap, values: seq<EffectSummary>,
                                  scopes: seq<CapabilityScope>, edge: CallEdge, e: EffectKind)
    requires RowsOfRound(edges, seeds, inferred, MAX_ROUNDS) && Enumerates(values, inferred)
    requires edge in edges && !HasSeed(seeds, edge.OwnerKey())
    requires !Excused(edges, seeds, scopes, edge)
    requires e in FirstRow(seeds, edge.callee.CalleeKey())
    ensures Uncovered(seeds + values, scopes, edge)
  {
    var owner := edge.OwnerKey();
    LookupSeesRound(edges, seeds, inferred, MAX_ROUNDS, values, edge.callee.CalleeKey());
    LookupSeesRound(edges, seeds, inferred, MAX_ROUNDS, values, owner);
    UnseededIsUndeclared(seeds, owner);
    assert Chain(edges, seeds, owner, e, [edge]);
    RowFromChain(edges, seeds, MAX_ROUNDS, owner, e, [edge]);
    assert RowOf(inferred, owner) == RowAfter(edges, seeds, MAX_ROUNDS, owner);
    assert First(seeds + values, owner) == Some(inferred[owner]);
  }

  /** The last step: a caller of a seeded effectful callee on an unreported, unexcused edge admits the effect. */
  lemma CallerOfSeedAdmits(edges: seq<CallEdge>, seeds: seq<EffectSummary>, inferred: InferredMap, values: seq<EffectSummary>,
                           scopes: seq<CapabilityScope>, edge: CallEdge, e: EffectKind)
    requires RowsOfRound(edges, seeds, inferred, MAX_ROUNDS) && Enumerates(values, inferred)
    requires edge in edges && !Uncovered(seeds + values, scopes, edge)
    requires !Excused(edges, seeds, scopes, edge)
    requires e in FirstRow(seeds, edge.callee.CalleeKey())
    ensures Admits(seeds, edge.OwnerKey(), e)
  {
    LookupSeesRound(edges, seeds, inferred, MAX_ROUNDS, values, edge.callee.CalleeKey());
    LookupSeesRound(edges, seeds, inferred, MAX_ROUNDS, values, edge.OwnerKey());
    if HasSeed(seeds, edge.OwnerKey()) {
      assert ResolvedCaller(seeds + values, edge) == First(seeds, edge.OwnerKey());
    } else {
      UnseededCallerIsUncovered(edges, seeds, inferred, values, scopes, edge, e);
    }
  }

  lemma {:induction false} PathAdmits(edges: seq<CallEdge>, seeds: seq<EffectSummary>, inferred: InferredMap, values: seq<EffectSummary>,
                                      scopes: seq<CapabilityScope>, path: seq<CallEdge>, e: EffectKind)
    requires RowsOfRound(edges, seeds, inferred, MAX_ROUNDS) && Enumerates(values, inferred)
    requires forall edge :: edge in edges ==> !Uncovered(seeds + values, scopes, edge)
    requires ExposedPath(edges, seeds, scopes, path, e)
    ensures forall i :: 0 <= i < |path| ==> Admits(seeds, path[i].OwnerKey(), e)
    decreases |path|
  {
    var last := |path| - 1;
    CallerOfSeedAdmits(edges, seeds, inferred, values, scopes, path[last], e);
    if last == 0 {
    } else {
      var front := path[..last];
      PathAdmits(edges, seeds, inferred, values, scopes, front, e);
      forall i | 0 <= i < |path|
        ensures Admits(seeds, path[i].OwnerKey(), e)
      {
        if i < last {
          assert front[i] == path[i];
        }
      }
    }
  }

  lemma CleanIsConfined(edges: seq<CallEdge>, seeds: seq<EffectSummary>, inferred: InferredMap, values: seq<EffectSummary>, scopes: seq<CapabilityScope>)
    requires RowsOfRound(edges, seeds, inferred, MAX_ROUNDS) && Enumerates(values, inferred)
    requires forall edge :: edge in edges ==> !Uncovered(seeds + values, scopes, edge)
    ensures Confined(edges, seeds, scopes)
  {
    forall path: seq<CallEdge>, e: EffectKind | ExposedPath(edges, seeds, scopes, path, e)
      ensures forall i :: 0 <= i < |path| ==> Admits(seeds, path[i].OwnerKey(), e)
    {
      PathAdmits(edges, seeds, inferred, values, scopes, path, e);
    }
  }

  /** In a confined module no call path out of a pure function ends in an effect. */
  lemma PureFunctionsReachNoEffect(edges: seq<CallEdge>, seeds: seq<EffectSummary>, scopes: seq<CapabilityScope>, path: seq<CallEdge>, e: EffectKind)
    requires Confined(edges, seeds, scopes) && CallPath(edges, path)
    requires forall i :: 0 <= i < |path| ==> !Excused(edges, seeds, scopes, path[i])
    requires First(seeds, path[0].OwnerKey()).Some? && First(seeds, path[0].OwnerKey()).value.pure
    ensures e !in FirstRow(seeds, path[|path| - 1].callee.CalleeKey())
  {
    assert ExposedPath(edges, seeds, scopes, path, e) ==> Admits(seeds, path[0].OwnerKey(), e);
  }

  /**
   `effect_capability_diagnostics`, effect part: `surfaces` are the calls met directly in assignments,
   returns, call sites and method calls, `edges` the collected call edges.  An empty report on a checked
   module means effects are confined, whatever the length of the call paths.
   */
  method EffectCapabilityDiagnostics(strict: bool, isTypePython: bool, effectRowsEnabled: bool,
                                     surfaces: seq<CallEdge>, edges: seq<CallEdge>, seeds: seq<EffectSummary>,
                                     scopes: seq<CapabilityScope>)
    returns (reports: seq<CallReport>)
    ensures !(strict && isTypePython && effectRowsEnabled) ==> reports == []
    ensures strict && isTypePython && effectRowsEnabled && reports == [] ==> Confined(edges, seeds, scopes)
    ensures strict && isTypePython && effectRowsEnabled ==>
      exists inferred, values :: RowsOfRound(edges, seeds, inferred, MAX_ROUNDS) && Enumerates(values, inferred)
                                 && ReportsExactly(reports, surfaces + edges, seeds + values, scopes)
  {
    if !strict || !isTypePython || !effectRowsEnabled {
      return [];
    }
    var inferred := CollectInferredEffectSummaries(edges, seeds);
    var values := Values(inferred);
    reports := ReportUncoveredCalls(surfaces + edges, seeds + values, scopes);
    if reports == [] {
      forall edge | edge in edges
        ensures !Uncovered(seeds + values, scopes, edge)
      {
        var i :| 0 <= i < |edges| && edges[i] == edge;
        assert (surfaces + edges)[|surfaces| + i] == edge;
        assert Uncovered(seeds + values, scopes, edge) ==> ReportOf(seeds + values, edge) in reports;
      }
      CleanIsConfined(edges, seeds, inferred, values, scopes);
    }
  }
}
