/** The inference loop itself: at most eight rounds over the call edges, updating one summary map. */
module EffectInference {
  import opened Prelude
  import opened EffectRows

  const MAX_ROUNDS: nat := 8

  type InferredMap = map<Key, EffectSummary>

  ghost function RowOf(inferred: InferredMap, key: Key): EffectRow {
    if key in inferred then inferred[key].row else {}
  }

  ghost predicate SourcesOf(inferred: InferredMap, key: Key, source: EffectSource) {
    key in inferred && source in inferred[key].sources
  }

  /** Entries are filed under their own key, are never pure, never count as declared and name each callee once. */
  ghost predicate WellFiled(inferred: InferredMap) {
    forall key :: key in inferred ==>
      && inferred[key].SummaryKey() == key
      && !inferred[key].pure
      && inferred[key].row != {}
      && Distinct(inferred[key].sources)
      && forall i :: 0 <= i < |inferred[key].sources| ==> inferred[key].sources[i].Inferred?
  }

  /** The map holds exactly the rows of round `n`. */
  ghost predicate RowsOfRound(edges: seq<CallEdge>, seeds: seq<EffectSummary>, inferred: InferredMap, n: nat) {
    && WellFiled(inferred)
    && forall key: Key :: RowOf(inferred, key) == RowAfter(edges, seeds, n, key)
  }

  /** Part of a round is done: the rows of round `n` plus what the visited edges contribute. */
  ghost predicate RowsMidRound(visited: seq<CallEdge>, edges: seq<CallEdge>, seeds: seq<EffectSummary>, inferred: InferredMap, n: nat) {
    && WellFiled(inferred)
    && forall key: Key :: RowOf(inferred, key) == RowAfter(edges, seeds, n, key) + Gather(visited, edges, seeds, n, key)
  }

  /** The summaries a map holds, one per key, in some order. */
  ghost predicate Enumerates(values: seq<EffectSummary>, inferred: InferredMap) {
    && (forall s :: s in values ==> s.SummaryKey() in inferred && inferred[s.SummaryKey()] == s)
    && forall key :: key in inferred ==> inferred[key] in values
  }

  method Values(inferred: InferredMap) returns (values: seq<EffectSummary>)
    requires WellFiled(inferred)
    ensures Enumerates(values, inferred)
  {
    values := [];
    var left := inferred.Keys;
    while left != {}
      invariant left <= inferred.Keys
      invariant forall s :: s in values ==> s.SummaryKey() in inferred && inferred[s.SummaryKey()] == s
      invariant forall key :: key in inferred && key !in left ==> inferred[key] in values
      decreases left
    {
      var key :| key in left;
      values := values + [inferred[key]];
      left := left - {key};
    }
  }

  /** Seeds first, inferred summaries after them: what lookups in the next round see. */
  lemma LookupSeesRound(edges: seq<CallEdge>, seeds: seq<EffectSummary>, inferred: InferredMap, n: nat,
                        values: seq<EffectSummary>, key: Key)
    requires RowsOfRound(edges, seeds, inferred, n) && Enumerates(values, inferred)
    ensures FirstRow(seeds + values, key) == Seen(edges, seeds, n, key)
    ensures HasSeed(seeds, key) ==> First(seeds + values, key) == First(seeds, key)
    ensures !HasSeed(seeds, key) ==>
      First(seeds + values, key) == if key in inferred then Some(inferred[key]) else None
  {
    FirstOfConcatenation(seeds, values, key);
    assert RowOf(inferred, key) == RowAfter(edges, seeds, n, key);
  }

  /** One call edge: the callee's row flows into the caller's entry. */
  method PropagateEdge(inferred: InferredMap, edge: CallEdge, callee: EffectSummary)
    returns (updated: InferredMap, grew: bool)
    requires WellFiled(inferred) && callee.row != {}
    ensures WellFiled(updated)
    ensures forall key: Key :: RowOf(updated, key) == RowOf(inferred, key) + if key == edge.OwnerKey() then callee.row else {}
    ensures forall key: Key :: key != edge.OwnerKey() ==> (key in updated <==> key in inferred) && (key in inferred ==> updated[key] == inferred[key])
    ensures edge.OwnerKey() in updated && var entry := updated[edge.OwnerKey()];
      && (forall source :: source in entry.sources <==> SourcesOf(inferred, edge.OwnerKey(), source) || source == Inferred(callee.DisplayName()))
      && entry.line <= edge.line
      && (if edge.OwnerKey() in inferred then entry.line <= inferred[edge.OwnerKey()].line && entry.line in {edge.line, inferred[edge.OwnerKey()].line} else entry.line == edge.line)
    ensures !grew <==> RowOf(updated, edge.OwnerKey()) == RowOf(inferred, edge.OwnerKey())
  {
    var key := edge.OwnerKey();
    var entry := if key in inferred then inferred[key]
                 else EffectSummary(key.name, key.owner, false, {}, [], edge.line);
    var before := entry.row;
    entry := entry.(row := entry.row + callee.row);
    var source := Inferred(callee.DisplayName());
    if source !in entry.sources {
      entry := entry.(sources := entry.sources + [source]);
    }
    entry := entry.(line := if edge.line < entry.line then edge.line else entry.line);
    updated := inferred[key := entry];
    grew := entry.row != before;
  }

  /** One round: every edge of an undeclared caller takes in what the tables say its callee does. */
  method PropagateRound(edges: seq<CallEdge>, ghost seeds: seq<EffectSummary>, declaredKeys: set<Key>, tables: SummaryTables,
                        start: InferredMap, ghost values: seq<EffectSummary>, ghost n: nat)
    returns (inferred: InferredMap, changed: bool)
    requires RowsOfRound(edges, seeds, start, n) && Enumerates(values, start)
    requires forall key: Key :: key in declaredKeys <==> IsDeclared(seeds, key)
    requires forall key: Key :: tables.Lookup(key) == First(seeds + values, key)
    ensures RowsOfRound(edges, seeds, inferred, n + 1)
    ensures !changed ==> Stable(edges, seeds, n)
  {
    inferred := start;
    changed := false;
    for i := 0 to |edges|
      invariant RowsMidRound(edges[..i], edges, seeds, inferred, n)
      invariant !changed ==> SameRows(inferred, start)
    {
      ghost var was := inferred;
      LookupSeesRound(edges, seeds, start, n, values, edges[i].callee.CalleeKey());
      var grew;
      inferred, grew := ReadEdge(inferred, edges[i], edges[i].OwnerKey() in declaredKeys, tables.EffectfulCallee(edges[i].callee));
      changed := changed || grew;
      VisitEdge(edges, seeds, was, inferred, n, i);
    }
    assert edges[..|edges|] == edges;
    RoundCompletes(edges, seeds, start, inferred, n);
  }

  ghost predicate SameRows(a: InferredMap, b: InferredMap) {
    forall key: Key :: RowOf(a, key) == RowOf(b, key)
  }

  ghost function ReadRow(edge: CallEdge, declared: bool, callee: Option<EffectSummary>, key: Key): EffectRow {
    if key == edge.OwnerKey() && !declared && callee.Some? then callee.value.row else {}
  }

  /** The loop body: skip declared callers and callees without effects. */
  method ReadEdge(inferred: InferredMap, edge: CallEdge, declared: bool, callee: Option<EffectSummary>)
    returns (updated: InferredMap, grew: bool)
    requires WellFiled(inferred) && (callee.Some? ==> callee.value.row != {})
    ensures WellFiled(updated)
    ensures forall key: Key :: RowOf(updated, key) == RowOf(inferred, key) + ReadRow(edge, declared, callee, key)
    ensures !grew ==> SameRows(updated, inferred)
  {
    updated, grew := inferred, false;
    if !declared && callee.Some? {
      updated, grew := PropagateEdge(inferred, edge, callee.value);
    }
  }

  /** What a single edge contributes to `key` in the round that follows round `n`. */
  ghost function EdgeContribution(edges: seq<CallEdge>, seeds: seq<EffectSummary>, n: nat, edge: CallEdge, key: Key): EffectRow {
    if edge.OwnerKey() == key && !IsDeclared(seeds, key) then Seen(edges, seeds, n, edge.callee.CalleeKey()) else {}
  }

  /** Visiting edge `i` adds exactly that edge's contribution. */
  lemma VisitEdge(edges: seq<CallEdge>, seeds: seq<EffectSummary>, was: InferredMap, now: InferredMap, n: nat, i: nat)
    requires i < |edges| && RowsMidRound(edges[..i], edges, seeds, was, n) && WellFiled(now)
    requires forall key: Key :: RowOf(now, key) == RowOf(was, key) + EdgeContribution(edges, seeds, n, edges[i], key)
    ensures RowsMidRound(edges[..i + 1], edges, seeds, now, n)
  {
    assert edges[..i + 1][..i] == edges[..i];
  }

  /**
   `collect_inferred_effect_summaries`: at most eight rounds, each reading the summaries the previous
   round left, stopping early when no row changed.  Whether it stops early or not, the rows are those
   of round eight.
   */
  method CollectInferredEffectSummaries(edges: seq<CallEdge>, seeds: seq<EffectSummary>) returns (inferred: InferredMap)
    ensures RowsOfRound(edges, seeds, inferred, MAX_ROUNDS)
    ensures forall key: Key, e: EffectKind :: e in RowOf(inferred, key) <==>
      exists c :: Chain(edges, seeds, key, e, c) && |c| <= 8
  {
    var declaredKeys := set i | 0 <= i < |seeds| && seeds[i].IsDeclaration() :: seeds[i].SummaryKey();
    inferred := map[];
    var summaries := seeds;
    ghost var values: seq<EffectSummary> := [];
    var round := 0;
    var changed := true;
    while round < MAX_ROUNDS && changed
      invariant 0 <= round <= MAX_ROUNDS
      invariant RowsOfRound(edges, seeds, inferred, round)
      invariant summaries == seeds + values && Enumerates(values, inferred)
      invariant !changed ==> round > 0 && Stable(edges, seeds, round - 1)
    {
      var tables := BuildSummaryTables(summaries);
      inferred, changed := PropagateRound(edges, seeds, declaredKeys, tables, inferred, values, round);
      var ordered := Values(inferred);
      summaries := seeds + ordered;
      values := ordered;
      round := round + 1;
    }
    if round < MAX_ROUNDS {
      forall key: Key
        ensures RowAfter(edges, seeds, MAX_ROUNDS, key) == RowAfter(edges, seeds, round, key)
      {
        StableForever(edges, seeds, round - 1, MAX_ROUNDS, key);
        StableForever(edges, seeds, round - 1, round, key);
      }
    }
    forall key: Key, e
      ensures e in RowOf(inferred, key) <==> exists c :: Chain(edges, seeds, key, e, c) && |c| <= MAX_ROUNDS
    {
      RoundsAreBoundedReachability(edges, seeds, MAX_ROUNDS, key, e);
    }
  }

  /** Accumulating into the previous rows and recomputing them from scratch come to the same. */
  lemma RoundCompletes(edges: seq<CallEdge>, seeds: seq<EffectSummary>, start: InferredMap, end: InferredMap, n: nat)
    requires RowsOfRound(edges, seeds, start, n) && RowsMidRound(edges, edges, seeds, end, n)
    ensures RowsOfRound(edges, seeds, end, n + 1)
    ensures SameRows(end, start) ==> Stable(edges, seeds, n)
  {
    forall key: Key
      ensures RowOf(end, key) == RowAfter(edges, seeds, n + 1, key)
    {
      RoundsGrow(edges, seeds, n, key);
    }
    if SameRows(end, start) {
      forall key: Key
        ensures RowAfter(edges, seeds, n + 1, key) == RowAfter(edges, seeds, n, key)
      {
        assert RowOf(end, key) == RowOf(start, key);
      }
    }
  }

  // ---------------------------------------------------------------------------------------------
  // The cut is real: a straight line of nine calls is not inferred to its far end
  // ---------------------------------------------------------------------------------------------

  /** Function number `i` of the straight-line module is called "f" repeated `i + 1` times. */
  function LineName(i: nat): (name: string)
    ensures |name| == i + 1
  {
    seq(i + 1, _ => 'f')
  }

  /** Function `i` calls function `i + 1`, for every `i` below `length`. */
  function LineEdges(length: nat): (edges: seq<CallEdge>)
    ensures |edges| == length
    ensures forall i :: 0 <= i < length ==> edges[i] == CallEdge(None, LineName(i), Function(LineName(i + 1)), i + 1)
  {
    seq(length, i requires 0 <= i < length => CallEdge(None, LineName(i), Function(LineName(i + 1)), i + 1))
  }

  /** The last function of the line is the only declared one. */
  function LineSeeds(length: nat, e: EffectKind): seq<EffectSummary> {
    [EffectSummary(LineName(length), None, false, {e}, [Decorator("effect")], length + 1)]
  }

  /** Function `i` of the line makes exactly one call, to function `i + 1`, and only the last function is seeded. */
  lemma LineShape(length: nat, e: EffectKind, i: nat)
    requires i < length
    ensures var edges, seeds := LineEdges(length), LineSeeds(length, e);
      && edges[i] in edges
      && (forall edge :: edge in edges && edge.OwnerKey() == Key(None, LineName(i)) ==> edge == edges[i])
      && edges[i].OwnerKey() == Key(None, LineName(i)) && edges[i].callee.CalleeKey() == Key(None, LineName(i + 1))
      && !HasSeed(seeds, Key(None, LineName(i))) && !IsDeclared(seeds, Key(None, LineName(i)))
      && First(seeds, Key(None, LineName(length))) == Some(seeds[0])
  {
    var edges, seeds := LineEdges(length), LineSeeds(length, e);
    forall edge | edge in edges && edge.OwnerKey() == Key(None, LineName(i))
      ensures edge == edges[i]
    {
      assert |edge.ownerName| == i + 1;
    }
    assert |LineName(i)| != |LineName(length)|;
  }

  /** One round moves the effect one call up the line. */
  lemma LineStep(length: nat, e: EffectKind, n: nat, i: nat)
    requires i < length
    ensures e in RowAfter(LineEdges(length), LineSeeds(length, e), n + 1, Key(None, LineName(i)))
            <==> e in Seen(LineEdges(length), LineSeeds(length, e), n, Key(None, LineName(i + 1)))
  {
    var edges, seeds, key := LineEdges(length), LineSeeds(length, e), Key(None, LineName(i));
    LineShape(length, e, i);
    GatherMembership(edges, edges, seeds, n, key, e);
  }

  /** In the straight line, function `i` carries the effect after `n` rounds exactly when it is at most `n` calls away. */
  lemma {:induction false} LineRow(length: nat, e: EffectKind, n: nat, i: nat)
    requires i < length
    ensures e in RowAfter(LineEdges(length), LineSeeds(length, e), n, Key(None, LineName(i))) <==> length - i <= n
    decreases n
  {
    if n == 0 {
    } else {
      var m, next := n - 1, i + 1;
      LineStep(length, e, m, i);
      LineShape(length, e, i);
      if next < length {
        LineShape(length, e, next);
        LineRow(length, e, m, next);
      }
    }
  }

  /** What the inference returns is the least fixed point of the call edges if and only if chains of at most eight calls reach all that chains reach. */
  lemma EightRoundsAreEnoughIff(edges: seq<CallEdge>, seeds: seq<EffectSummary>, inferred: InferredMap)
    requires RowsOfRound(edges, seeds, inferred, MAX_ROUNDS)
    ensures (forall key: Key, e: EffectKind :: e in RowOf(inferred, key) <==> Reachable(edges, seeds, key, e))
            <==> forall key: Key, e: EffectKind :: Reachable(edges, seeds, key, e) ==> ReachableWithin(edges, seeds, 8, key, e)
  {
    forall key: Key, e
      ensures e in RowOf(inferred, key) <==> ReachableWithin(edges, seeds, MAX_ROUNDS, key, e)
      ensures ReachableWithin(edges, seeds, MAX_ROUNDS, key, e) ==> Reachable(edges, seeds, key, e)
    {
      RoundsAreBoundedReachability(edges, seeds, MAX_ROUNDS, key, e);
    }
  }

  /**
   The eight-round rows are not always the least fixed point: on a straight line of more than eight
   calls the far end reaches the effect by a chain, yet its inferred row stays empty of it.
   */
  lemma EightRoundsCanMiss(length: nat, e: EffectKind)
    requires 8 < length
    ensures exists c :: Chain(LineEdges(length), LineSeeds(length, e), Key(None, LineName(0)), e, c)
    ensures e !in RowAfter(LineEdges(length), LineSeeds(length, e), MAX_ROUNDS, Key(None, LineName(0)))
    ensures !Stable(LineEdges(length), LineSeeds(length, e), MAX_ROUNDS)
  {
    LineRow(length, e, length, 0);
    LineRow(length, e, MAX_ROUNDS, 0);
    if Stable(LineEdges(length), LineSeeds(length, e), MAX_ROUNDS) {
      StableForever(LineEdges(length), LineSeeds(length, e), MAX_ROUNDS, length, Key(None, LineName(0)));
    }
    var c := ChainFromRow(LineEdges(length), LineSeeds(length, e), length, Key(None, LineName(0)), e);
  }
}
