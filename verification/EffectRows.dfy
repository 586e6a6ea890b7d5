/** Effect rows: first-summary-wins lookup and the rows that spread along call edges round by round. */
module EffectRows {
  import opened Prelude

  datatype EffectKind =
    | Unsafe
    | IoFs
    | IoNet
    | IoProc
    | Time
    | Random
    | RuntimeValidation
    | TaintSanitize
    | Declared(name: string)

  type EffectRow = set<EffectKind>

  datatype EffectSource =
    | Decorator(name: string)
    | Lifecycle(name: string)
    | UnsafeBlock
    | Inferred(name: string)
    | Stdlib(name: string)

  /** A callable is identified by its owning type, if any, and its name. */
  datatype Key = Key(owner: Option<string>, name: string)

  datatype EffectSummary = EffectSummary(
    callable: string,
    owner: Option<string>,
    pure: bool,
    row: EffectRow,
    sources: seq<EffectSource>,
    line: nat
  ) {
    function SummaryKey(): Key {
      Key(owner, callable)
    }

    function DisplayName(): string {
      match owner
      case Some(typeName) => typeName + "." + callable
      case None => callable
    }

    predicate HasDeclaredEffectRow()
      ensures HasDeclaredEffectRow() <==> row != {} && NotOnlyInferred(this)
    {
      row != {} && exists i :: 0 <= i < |sources| && !sources[i].Inferred?
    }

    /** The summary of a key that is exempt from inference: declared pure, or declared with a row. */
    predicate IsDeclaration() {
      pure || HasDeclaredEffectRow()
    }
  }

  datatype Callee = Function(name: string) | Method(typeName: string, name: string) {
    /** The key tells the callee back. */
    function CalleeKey(): (key: Key)
      ensures this == if key.owner == None then Function(key.name) else Method(key.owner.value, key.name)
    {
      match this
      case Function(name) => Key(None, name)
      case Method(typeName, name) => Key(Some(typeName), name)
    }
  }

  datatype CallEdge = CallEdge(ownerType: Option<string>, ownerName: string, callee: Callee, line: nat) {
    function OwnerKey(): Key {
      Key(ownerType, ownerName)
    }
  }

  datatype CapabilityScope = CapabilityScope(lineStart: nat, lineEnd: nat, grants: EffectRow)

  // ---------------------------------------------------------------------------------------------
  // First-summary-wins lookup
  // ---------------------------------------------------------------------------------------------

  /** The first summary recorded for a key. */
  function First(summaries: seq<EffectSummary>, key: Key): (found: Option<EffectSummary>)
    ensures found.Some? ==> found.value in summaries && found.value.SummaryKey() == key
    ensures found.None? ==> forall s :: s in summaries ==> s.SummaryKey() != key
  {
    if summaries == [] then None
    else if summaries[0].SummaryKey() == key then Some(summaries[0])
    else First(summaries[1..], key)
  }

  /** The row the first summary of a key carries; empty when the key has none. */
  function FirstRow(summaries: seq<EffectSummary>, key: Key): EffectRow {
    match First(summaries, key)
    case Some(summary) => summary.row
    case None => {}
  }

  ghost predicate HasSeed(seeds: seq<EffectSummary>, key: Key) {
    First(seeds, key).Some?
  }

  /** Something besides inference stands behind the summary. */
  ghost predicate NotOnlyInferred(summary: EffectSummary) {
    exists source :: source in summary.sources && !source.Inferred?
  }

  /** A seed summary of the callable is pure, or has effects that are not all inferred. */
  ghost predicate IsDeclared(seeds: seq<EffectSummary>, key: Key) {
    exists s :: s in seeds && s.owner == key.owner && s.callable == key.name && (s.pure || (s.row != {} && NotOnlyInferred(s)))
  }

  lemma {:induction false} FirstOfConcatenation(left: seq<EffectSummary>, right: seq<EffectSummary>, key: Key)
    ensures First(left + right, key) == if First(left, key).Some? then First(left, key) else First(right, key)
  {
    if left == [] {
      assert left + right == right;
    } else {
      assert (left + right)[1..] == left[1..] + right;
      FirstOfConcatenation(left[1..], right, key);
    }
  }

  lemma {:induction false} FirstIsEarliest(summaries: seq<EffectSummary>, key: Key, i: nat)
    requires i < |summaries| && summaries[i].SummaryKey() == key
    requires forall j :: 0 <= j < i ==> summaries[j].SummaryKey() != key
    ensures First(summaries, key) == Some(summaries[i])
  {
    if i == 0 {
    } else {
      FirstIsEarliest(summaries[1..], key, i - 1);
    }
  }

  /** `by_name` keeps the first free-function summary of every name. */
  method FunctionSummariesByName(summaries: seq<EffectSummary>) returns (byName: map<string, EffectSummary>)
    ensures forall name :: name in byName <==> First(summaries, Key(None, name)).Some?
    ensures forall name :: name in byName ==> First(summaries, Key(None, name)) == Some(byName[name])
  {
    byName := map[];
    for i := 0 to |summaries|
      invariant forall name :: name in byName <==> First(summaries[..i], Key(None, name)).Some?
      invariant forall name :: name in byName ==> First(summaries[..i], Key(None, name)) == Some(byName[name])
    {
      var summary := summaries[i];
      assert summaries[..i + 1] == summaries[..i] + [summary];
      forall key: Key {
        FirstOfConcatenation(summaries[..i], [summary], key);
      }
      if summary.owner.None? && summary.callable !in byName {
        byName := byName[summary.callable := summary];
      }
    }
    assert summaries[..|summaries|] == summaries;
  }

  /** `by_method` keeps the first method summary of every type and name. */
  method MethodSummariesByName(summaries: seq<EffectSummary>) returns (byMethod: map<(string, string), EffectSummary>)
    ensures forall m :: m in byMethod <==> First(summaries, Key(Some(m.0), m.1)).Some?
    ensures forall m :: m in byMethod ==> First(summaries, Key(Some(m.0), m.1)) == Some(byMethod[m])
  {
    byMethod := map[];
    for i := 0 to |summaries|
      invariant forall m :: m in byMethod <==> First(summaries[..i], Key(Some(m.0), m.1)).Some?
      invariant forall m :: m in byMethod ==> First(summaries[..i], Key(Some(m.0), m.1)) == Some(byMethod[m])
    {
      var summary := summaries[i];
      assert summaries[..i + 1] == summaries[..i] + [summary];
      forall key: Key {
        FirstOfConcatenation(summaries[..i], [summary], key);
      }
      if summary.owner.Some? && (summary.owner.value, summary.callable) !in byMethod {
        byMethod := byMethod[(summary.owner.value, summary.callable) := summary];
      }
    }
    assert summaries[..|summaries|] == summaries;
  }

  /** The two by-name tables, joined on the key they answer for. */
  datatype SummaryTables = SummaryTables(
    byName: map<string, EffectSummary>,
    byMethod: map<(string, string), EffectSummary>
  ) {
    function Lookup(key: Key): Option<EffectSummary> {
      match key.owner
      case None => if key.name in byName then Some(byName[key.name]) else None
      case Some(typeName) =>
        if (typeName, key.name) in byMethod then Some(byMethod[(typeName, key.name)]) else None
    }

    /** `caller_effect_summary`: the method's own summary, else the function of the same name. */
    function CallerSummary(ownerType: Option<string>, ownerName: string): Option<EffectSummary> {
      if ownerType.Some? && Lookup(Key(ownerType, ownerName)).Some? then Lookup(Key(ownerType, ownerName))
      else Lookup(Key(None, ownerName))
    }

    /** Lookup in the tables filtered to summaries with a nonempty row. */
    function EffectfulCallee(callee: Callee): Option<EffectSummary> {
      var found := Lookup(callee.CalleeKey());
      if found.Some? && found.value.row != {} then found else None
    }
  }

  method BuildSummaryTables(summaries: seq<EffectSummary>) returns (tables: SummaryTables)
    ensures forall key: Key :: tables.Lookup(key) == First(summaries, key)
  {
    var byName := FunctionSummariesByName(summaries);
    var byMethod := MethodSummariesByName(summaries);
    tables := SummaryTables(byName, byMethod);
    forall key: Key
      ensures tables.Lookup(key) == First(summaries, key)
    {
      if key.owner.Some? {
        assert key == Key(Some(key.owner.value), key.name);
        var m := (key.owner.value, key.name);
        assert First(summaries, Key(Some(m.0), m.1)) == First(summaries, key);
      } else {
        assert key == Key(None, key.name);
      }
    }
  }

  // ---------------------------------------------------------------------------------------------
  // Round semantics of the inference
  // ---------------------------------------------------------------------------------------------

  /** The row inferred for `key` after `n` rounds. */
  ghost function RowAfter(edges: seq<CallEdge>, seeds: seq<EffectSummary>, n: nat, key: Key): EffectRow
    decreases n, 0, 0
  {
    if n == 0 then {} else Gather(edges, edges, seeds, n - 1, key)
  }

  /** The row a call of `key` exposes when `n` rounds are done: seeds shadow inferred summaries. */
  ghost function Seen(edges: seq<CallEdge>, seeds: seq<EffectSummary>, n: nat, key: Key): EffectRow
    decreases n, 1, 0
  {
    if HasSeed(seeds, key) then FirstRow(seeds, key) else RowAfter(edges, seeds, n, key)
  }

  /** What the edges in `part` contribute to `key` in the round that follows round `n`. */
  ghost function Gather(part: seq<CallEdge>, edges: seq<CallEdge>, seeds: seq<EffectSummary>, n: nat, key: Key): EffectRow
    decreases n, 2, |part|
  {
    if part == [] then {}
    else
      var last := part[|part| - 1];
      Gather(part[..|part| - 1], edges, seeds, n, key)
      + if last.OwnerKey() == key && !IsDeclared(seeds, key) then Seen(edges, seeds, n, last.callee.CalleeKey()) else {}
  }

  lemma {:induction false} GatherMembership(part: seq<CallEdge>, edges: seq<CallEdge>, seeds: seq<EffectSummary>, n: nat, key: Key, e: EffectKind)
    ensures e in Gather(part, edges, seeds, n, key) <==>
            !IsDeclared(seeds, key)
            && exists edge :: edge in part && edge.OwnerKey() == key && e in Seen(edges, seeds, n, edge.callee.CalleeKey())
  {
    if part == [] {
    } else {
      GatherMembership(part[..|part| - 1], edges, seeds, n, key, e);
      assert part == part[..|part| - 1] + [part[|part| - 1]];
    }
  }

  /** Rounds only add effects. */
  lemma {:induction false} RoundsGrow(edges: seq<CallEdge>, seeds: seq<EffectSummary>, n: nat, key: Key)
    ensures RowAfter(edges, seeds, n, key) <= RowAfter(edges, seeds, n + 1, key)
    decreases n
  {
    if n == 0 {
    } else {
      forall e | e in RowAfter(edges, seeds, n, key)
        ensures e in RowAfter(edges, seeds, n + 1, key)
      {
        GatherMembership(edges, edges, seeds, n - 1, key, e);
        GatherMembership(edges, edges, seeds, n, key, e);
        var edge :| edge in edges && edge.OwnerKey() == key && e in Seen(edges, seeds, n - 1, edge.callee.CalleeKey());
        RoundsGrow(edges, seeds, n - 1, edge.callee.CalleeKey());
      }
    }
  }

  ghost predicate Stable(edges: seq<CallEdge>, seeds: seq<EffectSummary>, n: nat) {
    forall key: Key :: RowAfter(edges, seeds, n + 1, key) == RowAfter(edges, seeds, n, key)
  }

  /** A round that changes no row ends the inference: all later rounds give the same rows. */
  lemma {:induction false} StableForever(edges: seq<CallEdge>, seeds: seq<EffectSummary>, n: nat, later: nat, key: Key)
    requires Stable(edges, seeds, n) && n <= later
    ensures RowAfter(edges, seeds, later, key) == RowAfter(edges, seeds, n, key)
    decreases later
  {
    if n == later {
    } else {
      forall e
        ensures e in RowAfter(edges, seeds, later, key) <==> e in RowAfter(edges, seeds, n + 1, key)
      {
        GatherMembership(edges, edges, seeds, later - 1, key, e);
        GatherMembership(edges, edges, seeds, n, key, e);
        forall edge | edge in edges {
          StableForever(edges, seeds, n, later - 1, edge.callee.CalleeKey());
        }
      }
    }
  }

  // ---------------------------------------------------------------------------------------------
  // Rounds are bounded reachability
  // ---------------------------------------------------------------------------------------------

  /** The next edge is a call by the previous edge's callee, which has no seed summary. */
  ghost predicate Continues(seeds: seq<EffectSummary>, previous: CallEdge, next: CallEdge) {
    next.OwnerKey() == previous.callee.CalleeKey() && !HasSeed(seeds, next.OwnerKey())
  }

  /**
   A chain of call edges from an undeclared caller, through callers without any seed summary, to a
   callee whose first seed summary carries `e`.
   */
  ghost predicate Chain(edges: seq<CallEdge>, seeds: seq<EffectSummary>, key: Key, e: EffectKind, c: seq<CallEdge>) {
    && |c| > 0
    && (forall i :: 0 <= i < |c| ==> c[i] in edges)
    && c[0].OwnerKey() == key
    && !IsDeclared(seeds, key)
    && (forall i :: 0 < i < |c| ==> Continues(seeds, c[i - 1], c[i]))
    && e in FirstRow(seeds, c[|c| - 1].callee.CalleeKey())
  }

  lemma UnseededIsUndeclared(seeds: seq<EffectSummary>, key: Key)
    requires !HasSeed(seeds, key)
    ensures !IsDeclared(seeds, key)
  {
  }

  lemma {:induction false} RowFromChain(edges: seq<CallEdge>, seeds: seq<EffectSummary>, n: nat, key: Key, e: EffectKind, c: seq<CallEdge>)
    requires Chain(edges, seeds, key, e, c) && |c| <= n
    ensures e in RowAfter(edges, seeds, n, key)
    decreases n
  {
    GatherMembership(edges, edges, seeds, n - 1, key, e);
    var next := c[0].callee.CalleeKey();
    if |c| == 1 {
      assert e in Seen(edges, seeds, n - 1, next);
    } else {
      assert Continues(seeds, c[0], c[1]);
      UnseededIsUndeclared(seeds, next);
      RowFromChain(edges, seeds, n - 1, next, e, c[1..]);
      assert e in Seen(edges, seeds, n - 1, next);
    }
  }

  lemma {:induction false} ChainFromRow(edges: seq<CallEdge>, seeds: seq<EffectSummary>, n: nat, key: Key, e: EffectKind)
    returns (c: seq<CallEdge>)
    requires e in RowAfter(edges, seeds, n, key)
    ensures Chain(edges, seeds, key, e, c) && |c| <= n
    decreases n
  {
    GatherMembership(edges, edges, seeds, n - 1, key, e);
    var edge :| edge in edges && edge.OwnerKey() == key && e in Seen(edges, seeds, n - 1, edge.callee.CalleeKey());
    var next := edge.callee.CalleeKey();
    if HasSeed(seeds, next) {
      c := [edge];
    } else {
      var rest := ChainFromRow(edges, seeds, n - 1, next, e);
      c := [edge] + rest;
    }
  }

  /** After `n` rounds a row holds exactly the effects at the end of chains of at most `n` calls. */
  lemma RoundsAreBoundedReachability(edges: seq<CallEdge>, seeds: seq<EffectSummary>, n: nat, key: Key, e: EffectKind)
    ensures e in RowAfter(edges, seeds, n, key) <==> exists c :: Chain(edges, seeds, key, e, c) && |c| <= n
  {
    if e in RowAfter(edges, seeds, n, key) {
      var c := ChainFromRow(edges, seeds, n, key, e);
    }
    if exists c :: Chain(edges, seeds, key, e, c) && |c| <= n {
      var c :| Chain(edges, seeds, key, e, c) && |c| <= n;
      RowFromChain(edges, seeds, n, key, e, c);
    }
  }

  /** The rows do not depend on the order, or the multiplicity, in which edges are visited. */
  lemma RowsIgnoreEdgeOrder(edges: seq<CallEdge>, reordered: seq<CallEdge>, seeds: seq<EffectSummary>, n: nat, key: Key)
    requires forall edge :: edge in edges <==> edge in reordered
    ensures RowAfter(edges, seeds, n, key) == RowAfter(reordered, seeds, n, key)
  {
    forall e
      ensures e in RowAfter(edges, seeds, n, key) <==> e in RowAfter(reordered, seeds, n, key)
    {
      RoundsAreBoundedReachability(edges, seeds, n, key, e);
      RoundsAreBoundedReachability(reordered, seeds, n, key, e);
      forall c
        ensures Chain(edges, seeds, key, e, c) <==> Chain(reordered, seeds, key, e, c)
      {
      }
    }
  }

  /** An assignment of rows that every call edge of an undeclared caller already respects. */
  ghost predicate Closed(edges: seq<CallEdge>, seeds: seq<EffectSummary>, rows: Key -> EffectRow) {
    forall edge :: edge in edges && !IsDeclared(seeds, edge.OwnerKey()) ==>
      (if HasSeed(seeds, edge.callee.CalleeKey()) then FirstRow(seeds, edge.callee.CalleeKey()) else rows(edge.callee.CalleeKey()))
      <= rows(edge.OwnerKey())
  }

  lemma {:induction false} ChainsStayInClosed(edges: seq<CallEdge>, seeds: seq<EffectSummary>, rows: Key -> EffectRow, key: Key, e: EffectKind, c: seq<CallEdge>)
    requires Closed(edges, seeds, rows) && Chain(edges, seeds, key, e, c)
    ensures e in rows(key)
    decreases |c|
  {
    assert c[0] in edges;
    if |c| == 1 {
    } else {
      assert Continues(seeds, c[0], c[1]);
      UnseededIsUndeclared(seeds, c[1].OwnerKey());
      ChainsStayInClosed(edges, seeds, rows, c[1].OwnerKey(), e, c[1..]);
    }
  }

  /** Stopping at an unchanged round yields the least fixed point of the call edges. */
  lemma StableRowsAreLeastFixedPoint(edges: seq<CallEdge>, seeds: seq<EffectSummary>, n: nat, rows: Key -> EffectRow)
    requires Stable(edges, seeds, n)
    ensures Closed(edges, seeds, key => RowAfter(edges, seeds, n, key))
    ensures Closed(edges, seeds, rows) ==> forall key: Key :: RowAfter(edges, seeds, n, key) <= rows(key)
  {
    forall edge | edge in edges && !IsDeclared(seeds, edge.OwnerKey())
      ensures Seen(edges, seeds, n, edge.callee.CalleeKey()) <= RowAfter(edges, seeds, n, edge.OwnerKey())
    {
      forall e | e in Seen(edges, seeds, n, edge.callee.CalleeKey())
        ensures e in RowAfter(edges, seeds, n, edge.OwnerKey())
      {
        GatherMembership(edges, edges, seeds, n, edge.OwnerKey(), e);
        assert e in RowAfter(edges, seeds, n + 1, edge.OwnerKey());
      }
    }
    if Closed(edges, seeds, rows) {
      forall key: Key, e | e in RowAfter(edges, seeds, n, key)
        ensures e in rows(key)
      {
        var c := ChainFromRow(edges, seeds, n, key, e);
        ChainsStayInClosed(edges, seeds, rows, key, e, c);
      }
    }
  }

  // ---------------------------------------------------------------------------------------------
  // How many rounds are enough
  // ---------------------------------------------------------------------------------------------

  /** The callers inference may write to. */
  ghost function UndeclaredCallers(edges: seq<CallEdge>, seeds: seq<EffectSummary>): set<Key> {
    set i | 0 <= i < |edges| && !IsDeclared(seeds, edges[i].OwnerKey()) :: edges[i].OwnerKey()
  }

  ghost function Owners(c: seq<CallEdge>): seq<Key> {
    seq(|c|, i requires 0 <= i < |c| => c[i].OwnerKey())
  }

  /** A chain that visits a caller twice can skip the detour. */
  lemma SkipDetour(edges: seq<CallEdge>, seeds: seq<EffectSummary>, key: Key, e: EffectKind, c: seq<CallEdge>, i: nat, j: nat)
    returns (shorter: seq<CallEdge>)
    requires Chain(edges, seeds, key, e, c)
    requires i < j < |c| && c[i].OwnerKey() == c[j].OwnerKey()
    ensures Chain(edges, seeds, key, e, shorter) && |shorter| < |c|
  {
    var head, tail := c[..i], c[j..];
    shorter := head + tail;
    assert tail[0] == c[j] && shorter[|shorter| - 1] == c[|c| - 1];
    assert i > 0 ==> shorter[0] == c[0];
    forall k | 0 < k < |shorter|
      ensures Continues(seeds, shorter[k - 1], shorter[k])
    {
      if k < i {
        assert shorter[k - 1] == c[k - 1] && shorter[k] == c[k];
      } else if k == i {
        assert shorter[k - 1] == c[i - 1] && shorter[k] == c[j] && Continues(seeds, c[i - 1], c[i]);
      } else {
        assert shorter[k - 1] == c[k - 1 - i + j] && shorter[k] == c[k - i + j];
      }
    }
  }

  /** Path shortening: a chain need never be longer than the number of undeclared callers. */
  lemma {:induction false} ShortenChain(edges: seq<CallEdge>, seeds: seq<EffectSummary>, key: Key, e: EffectKind, c: seq<CallEdge>)
    returns (short: seq<CallEdge>)
    requires Chain(edges, seeds, key, e, c)
    ensures Chain(edges, seeds, key, e, short) && |short| <= |UndeclaredCallers(edges, seeds)|
    decreases |c|
  {
    if Distinct(Owners(c)) {
      forall i | 0 <= i < |c|
        ensures Owners(c)[i] in UndeclaredCallers(edges, seeds)
      {
        var at :| 0 <= at < |edges| && edges[at] == c[i];
        if i > 0 {
          assert Continues(seeds, c[i - 1], c[i]);
          UnseededIsUndeclared(seeds, c[i].OwnerKey());
        }
      }
      DistinctFits(Owners(c), UndeclaredCallers(edges, seeds));
      short := c;
    } else {
      var i, j :| 0 <= i < j < |Owners(c)| && Owners(c)[i] == Owners(c)[j];
      var shorter := SkipDetour(edges, seeds, key, e, c, i, j);
      short := ShortenChain(edges, seeds, key, e, shorter);
    }
  }

  /** As many rounds as there are undeclared callers reach every chain, however long. */
  lemma EnoughRounds(edges: seq<CallEdge>, seeds: seq<EffectSummary>, n: nat, key: Key, e: EffectKind)
    requires |UndeclaredCallers(edges, seeds)| <= n
    ensures e in RowAfter(edges, seeds, n, key) <==> exists c :: Chain(edges, seeds, key, e, c)
  {
    RoundsAreBoundedReachability(edges, seeds, n, key, e);
    if exists c :: Chain(edges, seeds, key, e, c) {
      var c :| Chain(edges, seeds, key, e, c);
      var short := ShortenChain(edges, seeds, key, e, c);
    }
  }

  /** With at most eight undeclared callers the eight rounds reach a stable, hence least, solution. */
  lemma EightRoundsSuffice(edges: seq<CallEdge>, seeds: seq<EffectSummary>)
    requires |UndeclaredCallers(edges, seeds)| <= 8
    ensures Stable(edges, seeds, 8)
  {
    forall key: Key, e
      ensures e in RowAfter(edges, seeds, 9, key) <==> e in RowAfter(edges, seeds, 8, key)
    {
      EnoughRounds(edges, seeds, 8, key, e);
      EnoughRounds(edges, seeds, 9, key, e);
    }
  }

  ghost predicate Reachable(edges: seq<CallEdge>, seeds: seq<EffectSummary>, key: Key, e: EffectKind) {
    exists c :: Chain(edges, seeds, key, e, c)
  }

  ghost predicate ReachableWithin(edges: seq<CallEdge>, seeds: seq<EffectSummary>, n: nat, key: Key, e: EffectKind) {
    exists c :: Chain(edges, seeds, key, e, c) && |c| <= n
  }

  /** The rows after `n` rounds are the least fixed point if and only if whatever a chain reaches, a chain of at most `n` calls reaches. */
  lemma StableIffChainsAreShort(edges: seq<CallEdge>, seeds: seq<EffectSummary>, n: nat)
    ensures Stable(edges, seeds, n) <==>
      forall key: Key, e: EffectKind :: Reachable(edges, seeds, key, e) ==> ReachableWithin(edges, seeds, n, key, e)
  {
    if Stable(edges, seeds, n) {
      forall key: Key, e: EffectKind | Reachable(edges, seeds, key, e)
        ensures ReachableWithin(edges, seeds, n, key, e)
      {
        var c :| Chain(edges, seeds, key, e, c);
        if |c| > n {
          RowFromChain(edges, seeds, |c|, key, e, c);
          StableForever(edges, seeds, n, |c|, key);
          var short := ChainFromRow(edges, seeds, n, key, e);
        }
      }
    }
    if forall key: Key, e: EffectKind :: Reachable(edges, seeds, key, e) ==> ReachableWithin(edges, seeds, n, key, e) {
      forall key: Key, e
        ensures e in RowAfter(edges, seeds, n + 1, key) <==> e in RowAfter(edges, seeds, n, key)
      {
        RoundsAreBoundedReachability(edges, seeds, n, key, e);
        RoundsAreBoundedReachability(edges, seeds, n + 1, key, e);
        assert ReachableWithin(edges, seeds, n, key, e) <==> e in RowAfter(edges, seeds, n, key);
        if e in RowAfter(edges, seeds, n + 1, key) {
          assert Reachable(edges, seeds, key, e);
        }
      }
    }
  }
}
