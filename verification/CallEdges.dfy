/** Collecting call edges from the expressions and guards of a function body. */
module CallEdges {
  import opened Prelude
  import opened EffectRows

  /** An expression as far as calls are recorded in it. */
  datatype Expr = Expr(
    callee: Option<string>,
    methodOwner: Option<string>,
    methodName: Option<string>,
    operands: seq<Expr>,  // subscript target, boolean, conditional and binary operands
    elements: seq<Expr>,  // list and set elements
    entries: seq<DictEntry>,
    comprehensions: seq<Comprehension>
  )

  datatype DictEntry = DictEntry(key: Option<Expr>, value: Expr)

  datatype Comprehension = Comprehension(key: Option<Expr>, element: Expr, iterables: seq<Expr>)

  datatype Guard =
    | PredicateCall(callee: string)
    | Not(inner: Guard)
    | And(guards: seq<Guard>)
    | Or(guards: seq<Guard>)
    | Plain  // None tests, isinstance tests and truthiness of names

  /** Where the calls of an expression are made. */
  datatype Site = Site(ownerType: Option<string>, ownerName: string, line: nat) {
    function Edge(callee: Callee): CallEdge {
      CallEdge(ownerType, ownerName, callee, line)
    }
  }

  /** The calls an expression makes at its own top. */
  function OwnCalls(e: Expr): seq<Callee> {
    (if e.callee.Some? then [Function(e.callee.value)] else [])
    + (if e.methodOwner.Some? && e.methodName.Some? then [Method(e.methodOwner.value, e.methodName.value)] else [])
  }

  // ---------------------------------------------------------------------------------------------
  // Calls at any depth
  // ---------------------------------------------------------------------------------------------

  /** The call is made somewhere in the expression, at any depth. */
  ghost predicate Calls(e: Expr, c: Callee)
    decreases e
  {
    || c in OwnCalls(e)
    || (exists i :: 0 <= i < |e.operands| && Calls(e.operands[i], c))
    || (exists i :: 0 <= i < |e.elements| && Calls(e.elements[i], c))
    || (exists i :: 0 <= i < |e.entries| && EntryCalls(e.entries[i], c))
    || (exists i :: 0 <= i < |e.comprehensions| && ComprehensionCalls(e.comprehensions[i], c))
  }

  ghost predicate EntryCalls(entry: DictEntry, c: Callee)
    decreases entry
  {
    (entry.key.Some? && Calls(entry.key.value, c)) || Calls(entry.value, c)
  }

  ghost predicate ComprehensionCalls(comprehension: Comprehension, c: Callee)
    decreases comprehension
  {
    || (comprehension.key.Some? && Calls(comprehension.key.value, c))
    || Calls(comprehension.element, c)
    || exists i :: 0 <= i < |comprehension.iterables| && Calls(comprehension.iterables[i], c)
  }

  ghost predicate GuardCalls(g: Guard, c: Callee)
    decreases g
  {
    match g
    case PredicateCall(callee) => c == Function(callee)
    case Not(inner) => GuardCalls(inner, c)
    case And(guards) => exists i :: 0 <= i < |guards| && GuardCalls(guards[i], c)
    case Or(guards) => exists i :: 0 <= i < |guards| && GuardCalls(guards[i], c)
    case Plain => false
  }

  ghost predicate FirstCall(values: seq<Expr>, n: nat, c: Callee)
    requires n <= |values|
  {
    exists i :: 0 <= i < n && Calls(values[i], c)
  }

  ghost predicate FirstEntriesCall(entries: seq<DictEntry>, n: nat, c: Callee)
    requires n <= |entries|
  {
    exists i :: 0 <= i < n && EntryCalls(entries[i], c)
  }

  ghost predicate FirstComprehensionsCall(comprehensions: seq<Comprehension>, n: nat, c: Callee)
    requires n <= |comprehensions|
  {
    exists i :: 0 <= i < n && ComprehensionCalls(comprehensions[i], c)
  }

  ghost predicate FirstGuardsCall(guards: seq<Guard>, n: nat, c: Callee)
    requires n <= |guards|
  {
    exists i :: 0 <= i < n && GuardCalls(guards[i], c)
  }

  /** The collector only appends, and what it appends is the site's edges for the calls `made`. */
  ghost predicate Appends(before: seq<CallEdge>, after: seq<CallEdge>, site: Site, made: iset<Callee>) {
    before <= after && forall edge :: edge in after <==> edge in before || exists c :: c in made && edge == CallEdge(site.ownerType, site.ownerName, c, site.line)
  }

  // ---------------------------------------------------------------------------------------------
  // The collectors
  // ---------------------------------------------------------------------------------------------

  method CollectAll(values: seq<Expr>, site: Site, edges: seq<CallEdge>) returns (edges': seq<CallEdge>)
    ensures Appends(edges, edges', site, iset c: Callee | FirstCall(values, |values|, c))
    decreases values, 0
  {
    edges' := edges;
    for i := 0 to |values|
      invariant Appends(edges, edges', site, iset c: Callee | FirstCall(values, i, c))
    {
      edges' := CollectExprCallEdges(values[i], site, edges');
    }
  }

  method CollectOption(value: Option<Expr>, site: Site, edges: seq<CallEdge>) returns (edges': seq<CallEdge>)
    ensures Appends(edges, edges', site, iset c: Callee | value.Some? && Calls(value.value, c))
    decreases value, 0
  {
    edges' := edges;
    if value.Some? {
      edges' := CollectExprCallEdges(value.value, site, edges');
    }
  }

  method CollectEntry(entry: DictEntry, site: Site, edges: seq<CallEdge>) returns (edges': seq<CallEdge>)
    ensures Appends(edges, edges', site, iset c: Callee | EntryCalls(entry, c))
    decreases entry, 0
  {
    edges' := CollectOption(entry.key, site, edges);
    edges' := CollectExprCallEdges(entry.value, site, edges');
  }

  method CollectEntries(entries: seq<DictEntry>, site: Site, edges: seq<CallEdge>) returns (edges': seq<CallEdge>)
    ensures Appends(edges, edges', site, iset c: Callee | FirstEntriesCall(entries, |entries|, c))
    decreases entries, 0
  {
    edges' := edges;
    for i := 0 to |entries|
      invariant Appends(edges, edges', site, iset c: Callee | FirstEntriesCall(entries, i, c))
    {
      edges' := CollectEntry(entries[i], site, edges');
    }
  }

  method CollectComprehensions(comprehensions: seq<Comprehension>, site: Site, edges: seq<CallEdge>) returns (edges': seq<CallEdge>)
    ensures Appends(edges, edges', site, iset c: Callee | FirstComprehensionsCall(comprehensions, |comprehensions|, c))
    decreases comprehensions, 0
  {
    edges' := edges;
    for i := 0 to |comprehensions|
      invariant Appends(edges, edges', site, iset c: Callee | FirstComprehensionsCall(comprehensions, i, c))
    {
      edges' := CollectOption(comprehensions[i].key, site, edges');
      edges' := CollectExprCallEdges(comprehensions[i].element, site, edges');
      edges' := CollectAll(comprehensions[i].iterables, site, edges');
    }
  }

  /** `collect_expr_call_edges`: exactly the calls made anywhere in the expression become edges. */
  method CollectExprCallEdges(e: Expr, site: Site, edges: seq<CallEdge>) returns (edges': seq<CallEdge>)
    ensures Appends(edges, edges', site, iset c: Callee | Calls(e, c))
    decreases e, 1
  {
    edges' := edges;
    if e.callee.Some? {
      edges' := edges' + [site.Edge(Function(e.callee.value))];
    }
    if e.methodOwner.Some? && e.methodName.Some? {
      edges' := edges' + [site.Edge(Method(e.methodOwner.value, e.methodName.value))];
    }
    assert Appends(edges, edges', site, iset c: Callee | c in OwnCalls(e));
    edges' := CollectAll(e.operands, site, edges');
    edges' := CollectAll(e.elements, site, edges');
    edges' := CollectEntries(e.entries, site, edges');
    edges' := CollectComprehensions(e.comprehensions, site, edges');
  }

  /** `collect_guard_call_edges`: the predicate calls of a guard, through negation, conjunction and disjunction. */
  method CollectGuardCallEdges(g: Guard, site: Site, edges: seq<CallEdge>) returns (edges': seq<CallEdge>)
    ensures Appends(edges, edges', site, iset c: Callee | GuardCalls(g, c))
    decreases g
  {
    edges' := edges;
    match g
    case PredicateCall(callee) =>
      edges' := edges + [site.Edge(Function(callee))];
    case Not(inner) =>
      edges' := CollectGuardCallEdges(inner, site, edges);
    case And(guards) =>
      for i := 0 to |guards|
        invariant Appends(edges, edges', site, iset c: Callee | FirstGuardsCall(guards, i, c))
      {
        edges' := CollectGuardCallEdges(guards[i], site, edges');
      }
    case Or(guards) =>
      for i := 0 to |guards|
        invariant Appends(edges, edges', site, iset c: Callee | FirstGuardsCall(guards, i, c))
      {
        edges' := CollectGuardCallEdges(guards[i], site, edges');
      }
    case Plain =>
  }
}
