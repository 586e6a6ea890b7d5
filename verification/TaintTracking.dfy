/** Taint tracking: a forward event loop over per-function maps, and what each map entry means. */
module TaintTracking {
  import opened Prelude

  datatype TaintFactKind = Source | Sink | Sanitizer

  /** A context of None applies everywhere. */
  type Context = Option<string>
  type Contexts = set<Context>

  datatype TaintFact = TaintFact(kind: TaintFactKind, context: Context)

  /** An argument or assigned value, reduced to what taint tracking looks at. */
  datatype Expr = Expr(
    callee: Option<string>,
    methodOwner: Option<string>,
    methodName: Option<string>,
    name: Option<string>,
    inner: seq<Expr>,  // subscript target, branches, boolean and binary operands
    args: seq<Expr>    // what a call passes on; the checker does not look at it
  )

  /** The taint decorators known for functions and methods. */
  datatype Decorations = Decorations(
    functions: map<string, set<TaintFact>>,
    methods: map<(string, string), set<TaintFact>>
  ) {
    function FunctionContexts(callee: Option<string>, kind: TaintFactKind): Contexts {
      if callee.Some? && callee.value in functions then ContextsForKind(functions[callee.value], kind) else {}
    }

    function MethodContexts(owner: Option<string>, name: Option<string>, kind: TaintFactKind): Contexts {
      if owner.Some? && name.Some? && (owner.value, name.value) in methods
      then ContextsForKind(methods[(owner.value, name.value)], kind)
      else {}
    }

    /** The context sets declared for a kind, one per decorated callable. */
    ghost function DeclaredContexts(kind: TaintFactKind): set<Contexts> {
      (set f | f in functions :: ContextsForKind(functions[f], kind))
      + (set m | m in methods :: ContextsForKind(methods[m], kind))
    }

    /** A declared sanitizer that does not clean a context some declared sink asks about. */
    ghost predicate Gap(sanitizer: Contexts, sinks: Contexts, sink: Context) {
      && sanitizer in DeclaredContexts(Sanitizer) && sanitizer != {}
      && sinks in DeclaredContexts(Sink) && sink in sinks
      && !CoveredByAny(sanitizer, sink)
    }

    /** No sanitizer leaves a sink context open; unconditional sanitizers never do. */
    ghost predicate SanitizersCoverSinks() {
      forall sanitizer, sinks, sink :: !Gap(sanitizer, sinks, sink)
    }
  }

  function ContextsForKind(facts: set<TaintFact>, kind: TaintFactKind): Contexts {
    set fact | fact in facts && fact.kind == kind :: fact.context
  }

  predicate CoversAll(contexts: Contexts) {
    None in contexts
  }

  predicate ContextMatches(source: Context, sink: Context) {
    source.None? || sink.None? || source == sink
  }

  predicate SanitizerCovers(sanitizer: Context, required: Context) {
    sanitizer.None? || (required.Some? && sanitizer == required)
  }

  predicate MatchesAny(source: Context, sinks: Contexts) {
    exists sink :: sink in sinks && ContextMatches(source, sink)
  }

  predicate CoveredByAny(sanitizers: Contexts, sink: Context) {
    exists s :: s in sanitizers && SanitizerCovers(s, sink)
  }

  function MatchingRequired(contexts: Contexts, required: Option<Contexts>): Contexts {
    match required
    case None => contexts
    case Some(sinks) => set c | c in contexts && MatchesAny(c, sinks)
  }

  function UnsanitizedAfter(sanitizers: Contexts, required: Option<Contexts>): Contexts {
    match required
    case None => {}
    case Some(sinks) => set sink | sink in sinks && !CoveredByAny(sanitizers, sink)
  }

  // ---------------------------------------------------------------------------------------------
  // Taint of an expression
  // ---------------------------------------------------------------------------------------------

  /** The sanitizer contexts an expression is wrapped in at its top, function before method. */
  function SanitizedBy(d: Decorations, e: Expr): Contexts {
    var byFunction := d.FunctionContexts(e.callee, Sanitizer);
    if byFunction != {} then byFunction else d.MethodContexts(e.methodOwner, e.methodName, Sanitizer)
  }

  /** What an expression carries in an environment, independently of any sink. */
  function TaintOf(d: Decorations, e: Expr, env: string -> Contexts): Contexts
    decreases e, 0
  {
    if SanitizedBy(d, e) != {} then {}
    else
      d.FunctionContexts(e.callee, Source)
      + d.MethodContexts(e.methodOwner, e.methodName, Source)
      + (if e.name.Some? then env(e.name.value) else {})
      + TaintOfAll(d, e.inner, env)
  }

  function TaintOfAll(d: Decorations, es: seq<Expr>, env: string -> Contexts): Contexts
    decreases es, 1
  {
    if es == [] then {}
    else TaintOfAll(d, es[..|es| - 1], env) + TaintOf(d, es[|es| - 1], env)
  }

  /** The sink contexts that some sanitizer inside the expression fails to cover. */
  function Residue(d: Decorations, e: Expr, required: Option<Contexts>): Contexts
    decreases e, 0
  {
    if SanitizedBy(d, e) != {} then UnsanitizedAfter(SanitizedBy(d, e), required) else ResidueOfAll(d, e.inner, required)
  }

  function ResidueOfAll(d: Decorations, es: seq<Expr>, required: Option<Contexts>): Contexts
    decreases es, 1
  {
    if es == [] then {}
    else ResidueOfAll(d, es[..|es| - 1], required) + Residue(d, es[|es| - 1], required)
  }

  type Locals = map<string, Contexts>
  type TaintedLocals = map<Option<string>, Locals>

  function LocalTaint(tainted: TaintedLocals, owner: Option<string>, name: string): Contexts {
    if owner in tainted && name in tainted[owner] then tainted[owner][name] else {}
  }

  function EnvOf(tainted: TaintedLocals, owner: Option<string>): string -> Contexts {
    name => LocalTaint(tainted, owner, name)
  }

  lemma MatchingDistributes(left: Contexts, right: Contexts, required: Option<Contexts>)
    ensures MatchingRequired(left + right, required) == MatchingRequired(left, required) + MatchingRequired(right, required)
  {
  }

  /**
   `argument_taint_contexts`: recursion with an accumulator that filters by the sink as it goes.  It
   finds the taint that matches the sink, plus what partial sanitizers leave open.
   */
  method ArgumentTaintContexts(d: Decorations, arg: Expr, tainted: TaintedLocals, owner: Option<string>, required: Option<Contexts>)
    returns (contexts: Contexts)
    ensures contexts == MatchingRequired(TaintOf(d, arg, EnvOf(tainted, owner)), required) + Residue(d, arg, required)
    decreases arg, 1
  {
    contexts := {};
    var functionSanitizers := d.FunctionContexts(arg.callee, Sanitizer);
    if functionSanitizers != {} {
      return UnsanitizedAfter(functionSanitizers, required);
    }
    var functionSources := d.FunctionContexts(arg.callee, Source);
    contexts := contexts + MatchingRequired(functionSources, required);
    var methodSanitizers := d.MethodContexts(arg.methodOwner, arg.methodName, Sanitizer);
    if methodSanitizers != {} {
      return UnsanitizedAfter(methodSanitizers, required);
    }
    var methodSources := d.MethodContexts(arg.methodOwner, arg.methodName, Source);
    contexts := contexts + MatchingRequired(methodSources, required);
    MatchingDistributes(functionSources, methodSources, required);
    ghost var direct := functionSources + methodSources;
    ghost var env := EnvOf(tainted, owner);
    if arg.name.Some? {
      var local := LocalTaint(tainted, owner, arg.name.value);
      contexts := contexts + MatchingRequired(local, required);
      MatchingDistributes(direct, local, required);
      direct := direct + local;
    }
    assert contexts == MatchingRequired(direct, required);
    contexts := ExtendWithOperands(d, arg, tainted, owner, required, contexts, direct);
  }

  /** The loop over an expression's operands. */
  method ExtendWithOperands(d: Decorations, arg: Expr, tainted: TaintedLocals, owner: Option<string>, required: Option<Contexts>,
                            start: Contexts, ghost direct: Contexts)
    returns (contexts: Contexts)
    requires start == MatchingRequired(direct, required)
    ensures contexts == MatchingRequired(direct + TaintOfAll(d, arg.inner, EnvOf(tainted, owner)), required)
                        + ResidueOfAll(d, arg.inner, required)
    decreases arg, 0
  {
    contexts := start;
    ghost var env := EnvOf(tainted, owner);
    ghost var carried, left := direct, {};
    for i := 0 to |arg.inner|
      invariant carried == direct + TaintOfAll(d, arg.inner[..i], env)
      invariant left == ResidueOfAll(d, arg.inner[..i], required)
      invariant contexts == MatchingRequired(carried, required) + left
    {
      assert arg.inner[..i + 1][..i] == arg.inner[..i];
      var nested := ArgumentTaintContexts(d, arg.inner[i], tainted, owner, required);
      MatchingDistributes(carried, TaintOf(d, arg.inner[i], env), required);
      carried, left := carried + TaintOf(d, arg.inner[i], env), left + Residue(d, arg.inner[i], required);
      contexts := contexts + nested;
    }
    assert arg.inner[..|arg.inner|] == arg.inner;
  }

  /** Sanitizers that cover the sinks leave nothing open. */
  lemma {:induction false} CoveringLeavesNothing(d: Decorations, e: Expr, sinks: Contexts)
    requires d.SanitizersCoverSinks() && (sinks == {} || sinks in d.DeclaredContexts(Sink))
    ensures Residue(d, e, Some(sinks)) == {}
    decreases e, 0
  {
    if SanitizedBy(d, e) == {} {
      CoveringLeavesNothingInAll(d, e.inner, sinks);
    } else {
      var sanitizer := SanitizedBy(d, e);
      forall sink | sink in sinks
        ensures CoveredByAny(sanitizer, sink)
      {
        assert !d.Gap(sanitizer, sinks, sink);
      }
    }
  }

  lemma {:induction false} CoveringLeavesNothingInAll(d: Decorations, es: seq<Expr>, sinks: Contexts)
    requires d.SanitizersCoverSinks() && (sinks == {} || sinks in d.DeclaredContexts(Sink))
    ensures ResidueOfAll(d, es, Some(sinks)) == {}
    decreases es, 1
  {
    if es == [] {
    } else {
      CoveringLeavesNothingInAll(d, es[..|es| - 1], sinks);
      CoveringLeavesNothing(d, es[|es| - 1], sinks);
    }
  }

  // ---------------------------------------------------------------------------------------------
  // Events and their reference meaning
  // ---------------------------------------------------------------------------------------------

  datatype Event =
    | Call(owner: Option<string>, line: nat, callee: string, args: seq<Expr>)
    | MethodCall(owner: Option<string>, line: nat, receiver: string, method_: string, args: seq<Expr>)
    | Assignment(owner: Option<string>, line: nat, target: string, value: Option<Expr>,
                 valueCallee: Option<string>, valueMethodOwner: Option<string>, valueMethodName: Option<string>)
  {
    /** Calls sort before an assignment on the same line. */
    function Rank(): nat {
      if Assignment? then 1 else 0
    }

    predicate NotAfter(other: Event) {
      line < other.line || (line == other.line && Rank() <= other.Rank())
    }

    /** The sink contexts of a call, empty when its callee is no sink. */
    function SinkContexts(d: Decorations): Contexts {
      match this
      case Call(_, _, callee, _) => d.FunctionContexts(Some(callee), Sink)
      case MethodCall(_, _, receiver, name, _) => d.MethodContexts(Some(receiver), Some(name), Sink)
      case Assignment(_, _, _, _, _, _, _) => {}
    }

    function SinkName(): string {
      match this
      case Call(_, _, callee, _) => callee
      case MethodCall(_, _, receiver, name, _) => receiver + "." + name
      case Assignment(_, _, _, _, _, _, _) => ""
    }
  }

  /** The contexts of the last method call of `kind` that `owner` made on `line`. */
  function LineContexts(d: Decorations, events: seq<Event>, owner: Option<string>, line: nat, kind: TaintFactKind): Contexts {
    if events == [] then {}
    else
      var last := events[|events| - 1];
      if last.MethodCall? && last.owner == owner && last.line == line
         && d.MethodContexts(Some(last.receiver), Some(last.method_), kind) != {}
      then d.MethodContexts(Some(last.receiver), Some(last.method_), kind)
      else LineContexts(d, events[..|events| - 1], owner, line, kind)
  }

  /** The contexts an assignment sanitizes, given the events before it. */
  function AssignmentSanitizers(d: Decorations, before: seq<Event>, a: Event): Contexts
    requires a.Assignment?
  {
    d.FunctionContexts(a.valueCallee, Sanitizer)
    + d.MethodContexts(a.valueMethodOwner, a.valueMethodName, Sanitizer)
    + LineContexts(d, before, a.owner, a.line, Sanitizer)
  }

  /** The contexts that flow into an assignment, given the events before it. */
  function AssignmentSources(d: Decorations, before: seq<Event>, a: Event): Contexts
    requires a.Assignment?
    decreases |before|, 1
  {
    (if a.value.Some? then TaintOf(d, a.value.value, (name: string) => TaintAt(d, before, a.owner, name)) else {})
    + d.FunctionContexts(a.valueCallee, Source)
    + d.MethodContexts(a.valueMethodOwner, a.valueMethodName, Source)
    + LineContexts(d, before, a.owner, a.line, Source)
  }

  /**
   Reference meaning, read backwards: the taint of a local is decided by the last assignment to it, in
   the environment before that assignment.  A sanitizer for every context clears it; a sanitizer for
   some contexts only strikes them from the taint the local had before.
   */
  function TaintAt(d: Decorations, events: seq<Event>, owner: Option<string>, name: string): Contexts
    decreases |events|, 0
  {
    if events == [] then {}
    else
      var last, before := events[|events| - 1], events[..|events| - 1];
      if !(last.Assignment? && last.owner == owner && last.target == name) then TaintAt(d, before, owner, name)
      else
        var sanitized := AssignmentSanitizers(d, before, last);
        if sanitized == {} then AssignmentSources(d, before, last)
        else if CoversAll(sanitized) then {}
        else TaintAt(d, before, owner, name) - sanitized
  }

  /** The environment a function sees after some events. */
  ghost function EnvAt(d: Decorations, events: seq<Event>, owner: Option<string>): string -> Contexts {
    (name: string) => TaintAt(d, events, owner, name)
  }

  /** What an argument brings to a sink: matching taint, or a context its sanitizers leave open. */
  ghost function Reaching(d: Decorations, before: seq<Event>, owner: Option<string>, arg: Expr, sinks: Contexts): Contexts {
    MatchingRequired(TaintOf(d, arg, EnvAt(d, before, owner)), Some(sinks)) + Residue(d, arg, Some(sinks))
  }

  /** A sink call is flagged when something reaches it through an argument. */
  ghost predicate Flagged(d: Decorations, before: seq<Event>, event: Event) {
    && !event.Assignment?
    && exists i :: 0 <= i < |event.args| && Reaching(d, before, event.owner, event.args[i], event.SinkContexts(d)) != {}
  }

  datatype SinkReport = SinkReport(sink: string, line: nat)

  /** The reports of an event sequence, in event order. */
  ghost function ReportsOf(d: Decorations, events: seq<Event>): seq<SinkReport> {
    if events == [] then []
    else
      var last, before := events[|events| - 1], events[..|events| - 1];
      ReportsOf(d, before) + if Flagged(d, before, last) then [SinkReport(last.SinkName(), last.line)] else []
  }

  // ---------------------------------------------------------------------------------------------
  // The event loop
  // ---------------------------------------------------------------------------------------------

  /** The loop's variables: taint by function and local, and the last source and sanitizer calls by line. */
  datatype Tracker = Tracker(
    tainted: TaintedLocals,
    sourceLines: map<(Option<string>, nat), Contexts>,
    sanitizerLines: map<(Option<string>, nat), Contexts>
  ) {
    /** The tracker agrees with the reference meaning of the events so far, for every function and local. */
    ghost predicate Tracks(d: Decorations, events: seq<Event>) {
      && (forall owner, name: string :: LocalTaint(tainted, owner, name) == TaintAt(d, events, owner, name))
      && (forall owner, line: nat :: LineEntry(sourceLines, owner, line) == LineContexts(d, events, owner, line, Source))
      && (forall owner, line: nat :: LineEntry(sanitizerLines, owner, line) == LineContexts(d, events, owner, line, Sanitizer))
    }
  }

  function LineEntry(lines: map<(Option<string>, nat), Contexts>, owner: Option<string>, line: nat): Contexts {
    if (owner, line) in lines then lines[(owner, line)] else {}
  }

  /** Environments that agree on every name give an expression the same taint. */
  lemma {:induction false} TaintDependsOnEnvOnly(d: Decorations, e: Expr, env: string -> Contexts, env': string -> Contexts)
    requires forall name :: env(name) == env'(name)
    ensures TaintOf(d, e, env) == TaintOf(d, e, env')
    decreases e, 0
  {
    TaintOfAllDependsOnEnvOnly(d, e.inner, env, env');
  }

  lemma {:induction false} TaintOfAllDependsOnEnvOnly(d: Decorations, es: seq<Expr>, env: string -> Contexts, env': string -> Contexts)
    requires forall name :: env(name) == env'(name)
    ensures TaintOfAll(d, es, env) == TaintOfAll(d, es, env')
    decreases es, 1
  {
    if es == [] {
    } else {
      TaintOfAllDependsOnEnvOnly(d, es[..|es| - 1], env, env');
      TaintDependsOnEnvOnly(d, es[|es| - 1], env, env');
    }
  }

  method AnyArgumentFlagged(d: Decorations, event: Event, tracker: Tracker, ghost before: seq<Event>) returns (flagged: bool)
    requires !event.Assignment? && tracker.Tracks(d, before)
    ensures flagged <==> Flagged(d, before, event)
  {
    flagged := false;
    var sinks := event.SinkContexts(d);
    for i := 0 to |event.args|
      invariant flagged <==> exists j :: 0 <= j < i && Reaching(d, before, event.owner, event.args[j], sinks) != {}
    {
      var contexts := ArgumentTaintContexts(d, event.args[i], tracker.tainted, event.owner, Some(sinks));
      TaintDependsOnEnvOnly(d, event.args[i], EnvOf(tracker.tainted, event.owner), EnvAt(d, before, event.owner));
      if contexts != {} {
        flagged := true;
      }
    }
  }

  method TrackMethodCall(d: Decorations, tracker: Tracker, call: Event, ghost before: seq<Event>) returns (next: Tracker)
    requires call.MethodCall? && tracker.Tracks(d, before)
    ensures next.Tracks(d, before + [call])
  {
    next := tracker;
    var sources := d.MethodContexts(Some(call.receiver), Some(call.method_), Source);
    if sources != {} {
      next := next.(sourceLines := next.sourceLines[(call.owner, call.line) := sources]);
    }
    var sanitizers := d.MethodContexts(Some(call.receiver), Some(call.method_), Sanitizer);
    if sanitizers != {} {
      next := next.(sanitizerLines := next.sanitizerLines[(call.owner, call.line) := sanitizers]);
    }
    assert (before + [call])[..|before|] == before;
  }

  /** Replace one local's taint; an empty taint removes the entry. */
  function WithLocal(tainted: TaintedLocals, owner: Option<string>, name: string, contexts: Contexts): (r: TaintedLocals)
    ensures forall o, n: string :: LocalTaint(r, o, n) == if o == owner && n == name then contexts else LocalTaint(tainted, o, n)
  {
    var locals := if owner in tainted then tainted[owner] else map[];
    tainted[owner := if contexts == {} then locals - {name} else locals[name := contexts]]
  }

  /** The taint an assignment leaves on its target. */
  function AssignedTaint(sources: Contexts, sanitized: Contexts, had: Contexts): Contexts {
    if sanitized == {} then sources
    else if CoversAll(sanitized) then {}
    else had - sanitized
  }

  lemma TaintAtAssigned(d: Decorations, before: seq<Event>, a: Event)
    requires a.Assignment?
    ensures TaintAt(d, before + [a], a.owner, a.target) ==
            AssignedTaint(AssignmentSources(d, before, a), AssignmentSanitizers(d, before, a), TaintAt(d, before, a.owner, a.target))
    ensures forall owner, name :: owner != a.owner || name != a.target ==> TaintAt(d, before + [a], owner, name) == TaintAt(d, before, owner, name)
    ensures forall owner, line, kind :: LineContexts(d, before + [a], owner, line, kind) == LineContexts(d, before, owner, line, kind)
  {
    assert (before + [a])[..|before|] == before;
  }

  /** The contexts of an assignment's value, read from the tracker. */
  method AssignedSources(d: Decorations, tracker: Tracker, a: Event, ghost before: seq<Event>) returns (sources: Contexts)
    requires a.Assignment? && tracker.Tracks(d, before)
    ensures sources == AssignmentSources(d, before, a)
  {
    sources := {};
    if a.value.Some? {
      sources := ArgumentTaintContexts(d, a.value.value, tracker.tainted, a.owner, None);
      NoSinkNoResidue(d, a.value.value);
      TaintDependsOnEnvOnly(d, a.value.value, EnvOf(tracker.tainted, a.owner), (name: string) => TaintAt(d, before, a.owner, name));
    }
    sources := sources + d.FunctionContexts(a.valueCallee, Source)
               + d.MethodContexts(a.valueMethodOwner, a.valueMethodName, Source)
               + LineEntry(tracker.sourceLines, a.owner, a.line);
  }

  method TrackAssignment(d: Decorations, tracker: Tracker, a: Event, ghost before: seq<Event>) returns (next: Tracker)
    requires a.Assignment? && tracker.Tracks(d, before)
    ensures next.Tracks(d, before + [a])
  {
    var sources := AssignedSources(d, tracker, a, before);
    var sanitized := d.FunctionContexts(a.valueCallee, Sanitizer)
                     + d.MethodContexts(a.valueMethodOwner, a.valueMethodName, Sanitizer)
                     + LineEntry(tracker.sanitizerLines, a.owner, a.line);
    var had := LocalTaint(tracker.tainted, a.owner, a.target);
    next := tracker.(tainted := WithLocal(tracker.tainted, a.owner, a.target, AssignedTaint(sources, sanitized, had)));
    TaintAtAssigned(d, before, a);
  }

  lemma {:induction false} NoSinkNoResidue(d: Decorations, e: Expr)
    ensures Residue(d, e, None) == {}
    decreases e, 0
  {
    NoSinkNoResidueInAll(d, e.inner);
  }

  lemma {:induction false} NoSinkNoResidueInAll(d: Decorations, es: seq<Expr>)
    ensures ResidueOfAll(d, es, None) == {}
    decreases es, 1
  {
    if es == [] {
    } else {
      NoSinkNoResidueInAll(d, es[..|es| - 1]);
      NoSinkNoResidue(d, es[|es| - 1]);
    }
  }

  /** Stable insertion of one event behind everything it must not precede. */
  function InsertEvent(sorted: seq<Event>, event: Event): seq<Event> {
    if sorted != [] && !sorted[|sorted| - 1].NotAfter(event)
    then InsertEvent(sorted[..|sorted| - 1], event) + [sorted[|sorted| - 1]]
    else sorted + [event]
  }

  function SortEvents(events: seq<Event>): seq<Event> {
    if events == [] then [] else InsertEvent(SortEvents(events[..|events| - 1]), events[|events| - 1])
  }

  ghost predicate InOrder(events: seq<Event>) {
    forall i, j :: 0 <= i < j < |events| ==> events[i].NotAfter(events[j])
  }

  lemma {:induction false} InsertAddsOne(sorted: seq<Event>, event: Event)
    ensures multiset(InsertEvent(sorted, event)) == multiset(sorted) + multiset{event}
    ensures forall e :: e in InsertEvent(sorted, event) ==> e in sorted || e == event
  {
    if sorted == [] || sorted[|sorted| - 1].NotAfter(event) {
    } else {
      var front, last := sorted[..|sorted| - 1], sorted[|sorted| - 1];
      InsertAddsOne(front, event);
      assert sorted == front + [last];
    }
  }

  lemma {:induction false} InsertKeepsOrder(sorted: seq<Event>, event: Event)
    requires InOrder(sorted)
    ensures InOrder(InsertEvent(sorted, event))
  {
    if sorted == [] || sorted[|sorted| - 1].NotAfter(event) {
    } else {
      var front, last := sorted[..|sorted| - 1], sorted[|sorted| - 1];
      InsertKeepsOrder(front, event);
      InsertAddsOne(front, event);
      assert forall e :: e in front ==> e.NotAfter(last);
      assert event.NotAfter(last);
    }
  }

  /** The loop visits the module's events in line order, calls before an assignment on their line. */
  lemma {:induction false} SortedEventsAreOrdered(events: seq<Event>)
    ensures InOrder(SortEvents(events))
    ensures multiset(SortEvents(events)) == multiset(events)
  {
    if events == [] {
    } else {
      SortedEventsAreOrdered(events[..|events| - 1]);
      InsertKeepsOrder(SortEvents(events[..|events| - 1]), events[|events| - 1]);
      InsertAddsOne(SortEvents(events[..|events| - 1]), events[|events| - 1]);
      assert events == events[..|events| - 1] + [events[|events| - 1]];
    }
  }

  /** `taint_source_sink_diagnostics`: one pass over the sorted events. */
  method TaintSourceSinkDiagnostics(d: Decorations, assignments: seq<Event>, calls: seq<Event>, methodCalls: seq<Event>)
    returns (reports: seq<SinkReport>)
    ensures reports == ReportsOf(d, SortEvents(assignments + calls + methodCalls))
  {
    var events := SortEvents(assignments + calls + methodCalls);
    reports := [];
    var tracker := Tracker(map[], map[], map[]);
    for i := 0 to |events|
      invariant tracker.Tracks(d, events[..i])
      invariant reports == ReportsOf(d, events[..i])
    {
      var event := events[i];
      assert events[..i + 1] == events[..i] + [event];
      assert events[..i + 1][..i] == events[..i];
      match event
      case Assignment(_, _, _, _, _, _, _) =>
        tracker := TrackAssignment(d, tracker, event, events[..i]);
      case Call(_, _, _, _) =>
        var flagged := AnyArgumentFlagged(d, event, tracker, events[..i]);
        if flagged {
          reports := reports + [SinkReport(event.SinkName(), event.line)];
        }
      case MethodCall(_, _, _, _, _) =>
        var flagged := AnyArgumentFlagged(d, event, tracker, events[..i]);
        tracker := TrackMethodCall(d, tracker, event, events[..i]);
        if flagged {
          reports := reports + [SinkReport(event.SinkName(), event.line)];
        }
    }
    assert events[..|events|] == events;
  }

  // ---------------------------------------------------------------------------------------------
  // Flags and recorded taint
  // ---------------------------------------------------------------------------------------------

  /** The taint recorded for an argument has a context that one of the call's sink contexts matches. */
  ghost predicate CarriesRecordedTaint(d: Decorations, before: seq<Event>, event: Event)
    requires !event.Assignment?
  {
    exists i, source, sink ::
      && 0 <= i < |event.args|
      && source in TaintOf(d, event.args[i], EnvAt(d, before, event.owner))
      && sink in event.SinkContexts(d)
      && ContextMatches(source, sink)
  }

  /** Matching recorded taint always raises the flag. */
  lemma RecordedTaintIsFlagged(d: Decorations, before: seq<Event>, event: Event)
    requires !event.Assignment? && CarriesRecordedTaint(d, before, event)
    ensures Flagged(d, before, event)
  {
    var sinks := event.SinkContexts(d);
    var i, source, sink :|
      && 0 <= i < |event.args|
      && source in TaintOf(d, event.args[i], EnvAt(d, before, event.owner))
      && sink in sinks
      && ContextMatches(source, sink);
    assert source in Reaching(d, before, event.owner, event.args[i], sinks);
  }

  /** Without gaps in the sanitizers nothing else does. */
  lemma FlagMeansRecordedTaint(d: Decorations, before: seq<Event>, event: Event)
    requires !event.Assignment? && d.SanitizersCoverSinks() && Flagged(d, before, event)
    ensures CarriesRecordedTaint(d, before, event)
  {
    var sinks := event.SinkContexts(d);
    var i :| 0 <= i < |event.args| && Reaching(d, before, event.owner, event.args[i], sinks) != {};
    SinksAreDeclared(d, event);
    CoveringLeavesNothing(d, event.args[i], sinks);
    var source :| source in Reaching(d, before, event.owner, event.args[i], sinks);
    var sink :| sink in sinks && ContextMatches(source, sink);
  }

  lemma SinksAreDeclared(d: Decorations, event: Event)
    ensures event.SinkContexts(d) == {} || event.SinkContexts(d) in d.DeclaredContexts(Sink)
  {
  }

  /** A gap in some sanitizer is enough for a call to be flagged although the sanitizer is passed nothing at all. */
  lemma GapRaisesFalseFlag(d: Decorations) returns (event: Event)
    requires !d.SanitizersCoverSinks()
    ensures !event.Assignment? && Flagged(d, [], event) && !CarriesRecordedTaint(d, [], event)
    ensures |event.args| == 1 && SanitizedBy(d, event.args[0]) != {} && event.args[0].args == []
  {
    var sanitizer, sinks, sink :| d.Gap(sanitizer, sinks, sink);
    var arg;
    if f :| f in d.functions && ContextsForKind(d.functions[f], Sanitizer) == sanitizer {
      arg := Expr(Some(f), None, None, None, [], []);
    } else {
      var m :| m in d.methods && ContextsForKind(d.methods[m], Sanitizer) == sanitizer;
      arg := Expr(None, Some(m.0), Some(m.1), None, [], []);
    }
    if g :| g in d.functions && ContextsForKind(d.functions[g], Sink) == sinks {
      event := Call(None, 1, g, [arg]);
    } else {
      var m :| m in d.methods && ContextsForKind(d.methods[m], Sink) == sinks;
      event := MethodCall(None, 1, m.0, m.1, [arg]);
    }
    assert SanitizedBy(d, arg) == sanitizer && event.SinkContexts(d) == sinks && event.args[0] == arg;
    assert sink in Reaching(d, [], None, arg, sinks);
    assert TaintOf(d, arg, EnvAt(d, [], None)) == {};
  }

  /** Event `k` is the last assignment its function makes to the local. */
  ghost predicate IsLastAssignment(events: seq<Event>, k: nat, owner: Option<string>, name: string) {
    && k < |events|
    && events[k].Assignment? && events[k].owner == owner && events[k].target == name
    && forall j :: k < j < |events| ==> !(events[j].Assignment? && events[j].owner == owner && events[j].target == name)
  }

  /** The last assignment decides, judged by the events before it; without any assignment a local is clean. */
  lemma {:induction false} LastAssignmentDecides(d: Decorations, events: seq<Event>, k: nat, owner: Option<string>, name: string)
    requires IsLastAssignment(events, k, owner, name)
    ensures TaintAt(d, events, owner, name) ==
            AssignedTaint(AssignmentSources(d, events[..k], events[k]), AssignmentSanitizers(d, events[..k], events[k]), TaintAt(d, events[..k], owner, name))
    decreases |events|
  {
    var before := events[..|events| - 1];
    if k == |before| {
    } else {
      assert before[..k] == events[..k];
      LastAssignmentDecides(d, before, k, owner, name);
    }
  }

  /** The events one function owns, in order. */
  function OwnEvents(events: seq<Event>, owner: Option<string>): seq<Event> {
    if events == [] then []
    else OwnEvents(events[..|events| - 1], owner) + if events[|events| - 1].owner == owner then [events[|events| - 1]] else []
  }

  lemma OwnEventsSnoc(events: seq<Event>, owner: Option<string>)
    requires events != []
    ensures events[|events| - 1].owner != owner ==> OwnEvents(events, owner) == OwnEvents(events[..|events| - 1], owner)
    ensures events[|events| - 1].owner == owner ==>
      OwnEvents(events, owner) != [] && OwnEvents(events, owner)[|OwnEvents(events, owner)| - 1] == events[|events| - 1]
      && OwnEvents(events, owner)[..|OwnEvents(events, owner)| - 1] == OwnEvents(events[..|events| - 1], owner)
  {
  }

  lemma {:induction false} LineContextsAreLocal(d: Decorations, events: seq<Event>, owner: Option<string>, line: nat, kind: TaintFactKind)
    ensures LineContexts(d, OwnEvents(events, owner), owner, line, kind) == LineContexts(d, events, owner, line, kind)
  {
    if events == [] {
    } else {
      var before, last := events[..|events| - 1], events[|events| - 1];
      LineContextsAreLocal(d, before, owner, line, kind);
      OwnEventsSnoc(events, owner);
    }
  }

  /** An assignment reads only what its own function's events decide. */
  lemma {:induction false} AssignmentIsLocal(d: Decorations, before: seq<Event>, a: Event)
    requires a.Assignment?
    requires forall n: string :: TaintAt(d, OwnEvents(before, a.owner), a.owner, n) == TaintAt(d, before, a.owner, n)
    ensures AssignmentSources(d, OwnEvents(before, a.owner), a) == AssignmentSources(d, before, a)
    ensures AssignmentSanitizers(d, OwnEvents(before, a.owner), a) == AssignmentSanitizers(d, before, a)
  {
    var own := OwnEvents(before, a.owner);
    LineContextsAreLocal(d, before, a.owner, a.line, Source);
    LineContextsAreLocal(d, before, a.owner, a.line, Sanitizer);
    if a.value.Some? {
      TaintDependsOnEnvOnly(d, a.value.value, (n: string) => TaintAt(d, own, a.owner, n), (n: string) => TaintAt(d, before, a.owner, n));
    }
  }

  /** Functions do not disturb each other: a local's taint is decided by its own function's events alone. */
  lemma {:induction false} FunctionsAreIndependent(d: Decorations, events: seq<Event>, owner: Option<string>, name: string)
    ensures TaintAt(d, OwnEvents(events, owner), owner, name) == TaintAt(d, events, owner, name)
    decreases |events|
  {
    if events == [] {
    } else {
      var before, last := events[..|events| - 1], events[|events| - 1];
      OwnEventsSnoc(events, owner);
      FunctionsAreIndependent(d, before, owner, name);
      if last.Assignment? && last.owner == owner && last.target == name {
        forall n: string
          ensures TaintAt(d, OwnEvents(before, owner), owner, n) == TaintAt(d, before, owner, n)
        {
          FunctionsAreIndependent(d, before, owner, n);
        }
        AssignmentIsLocal(d, before, last);
      }
    }
  }

  /** A sink argument is judged before an assignment on its own line takes effect. */
  lemma SameLineAssignmentComesLater(events: seq<Event>, call: nat, assignment: nat)
    requires call < |SortEvents(events)| && assignment < |SortEvents(events)|
    requires !SortEvents(events)[call].Assignment? && SortEvents(events)[assignment].Assignment?
    requires SortEvents(events)[call].line == SortEvents(events)[assignment].line
    ensures call < assignment
  {
    SortedEventsAreOrdered(events);
  }
}
