/** What TPY4028 is for: flows from source calls to sink arguments, and when the reports are exactly those. */
module TaintFlow {
  import opened Prelude
  import opened TaintTracking

  // ---------------------------------------------------------------------------------------------
  // What the decorators say
  // ---------------------------------------------------------------------------------------------

  ghost predicate FunctionFact(d: Decorations, callee: Option<string>, fact: TaintFact) {
    callee.Some? && callee.value in d.functions && fact in d.functions[callee.value]
  }

  ghost predicate MethodFact(d: Decorations, owner: Option<string>, name: Option<string>, fact: TaintFact) {
    owner.Some? && name.Some? && (owner.value, name.value) in d.methods && fact in d.methods[(owner.value, name.value)]
  }

  /** The call an expression is has the fact. */
  ghost predicate ExprFact(d: Decorations, e: Expr, fact: TaintFact) {
    FunctionFact(d, e.callee, fact) || MethodFact(d, e.methodOwner, e.methodName, fact)
  }

  /** The call an expression is sanitizes for the context; a method does so only where no sanitizer function is called as well. */
  ghost predicate Sanitizes(d: Decorations, e: Expr, c: Context) {
    || FunctionFact(d, e.callee, TaintFact(Sanitizer, c))
    || (MethodFact(d, e.methodOwner, e.methodName, TaintFact(Sanitizer, c)) && forall x :: !FunctionFact(d, e.callee, TaintFact(Sanitizer, x)))
  }

  /** The call an event is has the fact. */
  ghost predicate EventFact(d: Decorations, event: Event, fact: TaintFact) {
    match event
    case Call(_, _, callee, _) => FunctionFact(d, Some(callee), fact)
    case MethodCall(_, _, receiver, name, _) => MethodFact(d, Some(receiver), Some(name), fact)
    case Assignment(_, _, _, _, _, _, _) => false
  }

  /** A bare source or a bare sink matches any other; contexts match themselves. */
  ghost predicate Meets(source: Context, sink: Context) {
    source == None || sink == None || source == sink
  }

  lemma ContextsAreFacts(d: Decorations, e: Expr, kind: TaintFactKind, c: Context)
    ensures c in d.FunctionContexts(e.callee, kind) <==> FunctionFact(d, e.callee, TaintFact(kind, c))
    ensures c in d.MethodContexts(e.methodOwner, e.methodName, kind) <==> MethodFact(d, e.methodOwner, e.methodName, TaintFact(kind, c))
  {
    if c in d.FunctionContexts(e.callee, kind) {
      var fact :| fact in d.functions[e.callee.value] && fact.kind == kind && fact.context == c;
      assert fact == TaintFact(kind, c);
    }
    if c in d.MethodContexts(e.methodOwner, e.methodName, kind) {
      var fact :| fact in d.methods[(e.methodOwner.value, e.methodName.value)] && fact.kind == kind && fact.context == c;
      assert fact == TaintFact(kind, c);
    }
  }

  lemma SanitizersAreFacts(d: Decorations, e: Expr, c: Context)
    ensures c in SanitizedBy(d, e) <==> Sanitizes(d, e, c)
  {
    forall x {
      ContextsAreFacts(d, e, Sanitizer, x);
    }
  }

  lemma SinksAreFacts(d: Decorations, event: Event, c: Context)
    ensures c in event.SinkContexts(d) <==> EventFact(d, event, TaintFact(Sink, c))
  {
    match event
    case Call(_, _, callee, _) =>
      ContextsAreFacts(d, Expr(Some(callee), None, None, None, [], []), Sink, c);
    case MethodCall(_, _, receiver, name, _) =>
      ContextsAreFacts(d, Expr(None, Some(receiver), Some(name), None, [], []), Sink, c);
    case Assignment(_, _, _, _, _, _, _) =>
  }

  // ---------------------------------------------------------------------------------------------
  // Flows
  // ---------------------------------------------------------------------------------------------

  ghost predicate MatchedBy(contexts: Contexts, sink: Context) {
    exists c :: c in contexts && ContextMatches(c, sink)
  }

  /** The source contexts of the call an expression is. */
  function OwnSources(d: Decorations, e: Expr): Contexts {
    d.FunctionContexts(e.callee, Source) + d.MethodContexts(e.methodOwner, e.methodName, Source)
  }

  /**
   A source that the sink context asks about flows into the expression: the expression calls it, or has it in
   an operand, or names a local it flows into, or passes it to a sanitizer that does not cover the context.
   */
  ghost predicate Flows(d: Decorations, before: seq<Event>, owner: Option<string>, e: Expr, sink: Context)
    decreases |before|, 1, e
  {
    if exists c :: Sanitizes(d, e, c) then
      && !Sanitizes(d, e, None) && !Sanitizes(d, e, sink)
      && exists i :: 0 <= i < |e.args| && Flows(d, before, owner, e.args[i], sink)
    else
      || (exists c :: ExprFact(d, e, TaintFact(Source, c)) && Meets(c, sink))
      || (e.name.Some? && LocalFlows(d, before, owner, e.name.value, sink))
      || exists i :: 0 <= i < |e.inner| && Flows(d, before, owner, e.inner[i], sink)
  }

  /** Def-use: a source flows into a local when it flows into the value last assigned to it. */
  ghost predicate LocalFlows(d: Decorations, before: seq<Event>, owner: Option<string>, name: string, sink: Context)
    decreases |before|, 0
  {
    exists k: nat :: IsLastAssignment(before, k, owner, name) && before[k].value.Some?
                     && Flows(d, before[..k], owner, before[k].value.value, sink)
  }

  /** A source that the sink asks about flows into one of the call's arguments. */
  ghost predicate Reached(d: Decorations, before: seq<Event>, event: Event)
    requires !event.Assignment?
  {
    exists i, sink :: 0 <= i < |event.args| && EventFact(d, event, TaintFact(Sink, sink)) && Flows(d, before, event.owner, event.args[i], sink)
  }

  /** The same in terms of the sets of contexts that the check computes. */
  lemma FlowsByContexts(d: Decorations, before: seq<Event>, owner: Option<string>, e: Expr, sink: Context)
    ensures Flows(d, before, owner, e, sink) <==>
      if SanitizedBy(d, e) != {} then
        !CoveredByAny(SanitizedBy(d, e), sink) && exists i :: 0 <= i < |e.args| && Flows(d, before, owner, e.args[i], sink)
      else
        || MatchedBy(OwnSources(d, e), sink)
        || (e.name.Some? && LocalFlows(d, before, owner, e.name.value, sink))
        || exists i :: 0 <= i < |e.inner| && Flows(d, before, owner, e.inner[i], sink)
  {
    forall c
      ensures c in SanitizedBy(d, e) <==> Sanitizes(d, e, c)
      ensures c in OwnSources(d, e) <==> ExprFact(d, e, TaintFact(Source, c))
    {
      SanitizersAreFacts(d, e, c);
      ContextsAreFacts(d, e, Source, c);
    }
    CoveredByFacts(SanitizedBy(d, e), sink);
    assert MatchedBy(OwnSources(d, e), sink) <==> exists c :: ExprFact(d, e, TaintFact(Source, c)) && Meets(c, sink) by {
      MatchedByFacts(OwnSources(d, e), sink);
    }
  }

  lemma CoveredByFacts(contexts: Contexts, sink: Context)
    ensures CoveredByAny(contexts, sink) <==> None in contexts || sink in contexts
  {
    if sink in contexts {
      assert SanitizerCovers(sink, sink);
    }
    if None in contexts {
      assert SanitizerCovers(None, sink);
    }
  }

  lemma MatchedByFacts(contexts: Contexts, sink: Context)
    ensures MatchedBy(contexts, sink) <==> exists c :: c in contexts && Meets(c, sink)
  {
    forall c ensures ContextMatches(c, sink) <==> Meets(c, sink) {
    }
  }

  // ---------------------------------------------------------------------------------------------
  // Callables
  // ---------------------------------------------------------------------------------------------

  /** A function or method, with the events and expressions that a call of it gives rise to. */
  datatype Callable = Function(name: string) | Method(owner: string, name: string) {
    function Contexts(d: Decorations, kind: TaintFactKind): Contexts {
      if Function? then d.FunctionContexts(Some(name), kind) else d.MethodContexts(Some(owner), Some(name), kind)
    }

    ghost predicate Has(d: Decorations, fact: TaintFact) {
      if Function? then FunctionFact(d, Some(name), fact) else MethodFact(d, Some(owner), Some(name), fact)
    }

    function Calling(args: seq<Expr>): Expr {
      if Function? then Expr(Some(name), None, None, None, [], args) else Expr(None, Some(owner), Some(name), None, [], args)
    }

    function Announcement(line: nat): seq<Event> {
      if Function? then [] else [MethodCall(None, line, owner, name, [])]
    }

    /** `target = callable(args)` */
    function Assigning(line: nat, target: string, args: seq<Expr>): Event {
      var e := Calling(args);
      Assignment(None, line, target, Some(e), e.callee, e.methodOwner, e.methodName)
    }

    /** `callable(args)` as a statement of its own. */
    function Calls(line: nat, args: seq<Expr>): Event {
      if Function? then Call(None, line, name, args) else MethodCall(None, line, owner, name, args)
    }
  }

  function Named(name: string): Expr {
    Expr(None, None, None, Some(name), [], [])
  }

  // ---------------------------------------------------------------------------------------------
  // Programs and conditions
  // ---------------------------------------------------------------------------------------------

  /** The assignment repeats its value's call beside the value, as the binder does. */
  ghost predicate Coherent(a: Event)
    requires a.Assignment?
  {
    match a.value
    case None => a.valueCallee.None? && a.valueMethodOwner.None? && a.valueMethodName.None?
    case Some(e) => a.valueCallee == e.callee && a.valueMethodOwner == e.methodOwner && a.valueMethodName == e.methodName
  }

  /** A method call that an assigned value is has an event of its own, before the assignment. */
  ghost predicate Announced(events: seq<Event>, k: nat)
    requires k < |events| && events[k].Assignment?
  {
    events[k].valueMethodOwner.Some? && events[k].valueMethodName.Some? ==>
      exists j :: 0 <= j < k && IsOnLineOf(events[j], events[k]) && IsValueOf(events[j], events[k])
  }

  ghost predicate IsOnLineOf(call: Event, a: Event) {
    call.MethodCall? && call.owner == a.owner && call.line == a.line
  }

  ghost predicate IsValueOf(call: Event, a: Event)
    requires call.MethodCall? && a.Assignment?
  {
    a.valueMethodOwner == Some(call.receiver) && a.valueMethodName == Some(call.method_)
  }

  /** Events as the loop meets them: sorted, assignments coherent, their method calls present. */
  ghost predicate WellFormed(events: seq<Event>) {
    && InOrder(events)
    && forall k :: 0 <= k < |events| && events[k].Assignment? ==> Coherent(events[k]) && Announced(events, k)
  }

  /** A source or sanitizer method called on an assignment's line is that assignment's own value. */
  ghost predicate OwnLines(d: Decorations, events: seq<Event>) {
    forall j, k :: 0 <= j < k < |events| && events[k].Assignment? && IsOnLineOf(events[j], events[k]) && IsTaintMethod(d, events[j]) ==>
      IsValueOf(events[j], events[k])
  }

  ghost predicate IsTaintMethod(d: Decorations, call: Event)
    requires call.MethodCall?
  {
    exists c :: EventFact(d, call, TaintFact(Source, c)) || EventFact(d, call, TaintFact(Sanitizer, c))
  }

  /** Some sink asks about the context. */
  ghost predicate SinkAsks(d: Decorations, sink: Context) {
    exists f: Callable :: f.Has(d, TaintFact(Sink, sink))
  }

  ghost predicate IsSanitizer(d: Decorations, f: Callable) {
    exists c :: f.Has(d, TaintFact(Sanitizer, c))
  }

  /** Declared a source of the context, and not a sanitizer as well. */
  ghost predicate Gives(d: Decorations, f: Callable, c: Context) {
    f.Has(d, TaintFact(Source, c)) && !IsSanitizer(d, f)
  }

  /**
   What the decorators must say where taint methods keep to their own lines: every sanitizer is for all that sinks ask
   about, and a bare source does not meet a sanitizer for some contexts only and a sink.
   */
  ghost predicate Sharp(d: Decorations) {
    && (forall f: Callable, sink :: IsSanitizer(d, f) && SinkAsks(d, sink) ==> f.Has(d, TaintFact(Sanitizer, None)) || f.Has(d, TaintFact(Sanitizer, sink)))
    && !(&& (exists f: Callable :: Gives(d, f, None))
         && (exists f: Callable :: IsSanitizer(d, f) && !f.Has(d, TaintFact(Sanitizer, None)))
         && exists sink :: SinkAsks(d, sink))
  }

  /** What they must say for taint methods to be harmless on any line. */
  ghost predicate LinesAreHarmless(d: Decorations) {
    && (forall f: Callable, c, sink :: f.Method? && Gives(d, f, c) && SinkAsks(d, sink) ==> !Meets(c, sink))
    && ((exists f: Callable :: f.Method? && IsSanitizer(d, f)) ==>
          forall f: Callable, c, sink :: Gives(d, f, c) && SinkAsks(d, sink) ==> !Meets(c, sink))
  }

  /** Some callable is declared a source of the context, and not a sanitizer as well. */
  ghost predicate Emits(d: Decorations, c: Context) {
    exists f: Callable :: c in f.Contexts(d, Source) && f.Contexts(d, Sanitizer) == {}
  }

  ghost predicate MethodEmits(d: Decorations, c: Context) {
    exists f: Callable :: f.Method? && c in f.Contexts(d, Source) && f.Contexts(d, Sanitizer) == {}
  }

  ghost predicate IsSinkContext(d: Decorations, sink: Context) {
    exists sinks :: sinks in d.DeclaredContexts(Sink) && sink in sinks
  }

  /** Some sanitizer is for some contexts only. */
  ghost predicate HasConditionalSanitizer(d: Decorations) {
    exists sanitizers :: sanitizers in d.DeclaredContexts(Sanitizer) && sanitizers != {} && !CoversAll(sanitizers)
  }

  /** A bare source, whose taint no conditional sanitizer strikes, meets such a sanitizer and a sink. */
  ghost predicate BareSourceSurvives(d: Decorations) {
    Emits(d, None) && HasConditionalSanitizer(d) && exists sink :: IsSinkContext(d, sink)
  }

  /** What the decorations must satisfy where taint methods keep to their own lines. */
  ghost predicate SharpContexts(d: Decorations) {
    d.SanitizersCoverSinks() && !BareSourceSurvives(d)
  }

  /** What they must satisfy for taint methods to be harmless on any line. */
  ghost predicate ContextsAreHarmless(d: Decorations) {
    && (forall c, sink :: MethodEmits(d, c) && IsSinkContext(d, sink) ==> !ContextMatches(c, sink))
    && (HasSanitizerMethod(d) ==> forall c, sink :: Emits(d, c) && IsSinkContext(d, sink) ==> !ContextMatches(c, sink))
  }

  ghost predicate HasSanitizerMethod(d: Decorations) {
    exists f: Callable :: f.Method? && f.Contexts(d, Sanitizer) != {}
  }

  lemma CallableHas(d: Decorations, f: Callable, kind: TaintFactKind, c: Context)
    ensures c in f.Contexts(d, kind) <==> f.Has(d, TaintFact(kind, c))
  {
    ContextsAreFacts(d, f.Calling([]), kind, c);
  }

  lemma FactsByContexts(d: Decorations, f: Callable, c: Context)
    ensures IsSanitizer(d, f) <==> f.Contexts(d, Sanitizer) != {}
    ensures Gives(d, f, c) <==> c in f.Contexts(d, Source) && f.Contexts(d, Sanitizer) == {}
    ensures f.Contexts(d, Sanitizer) != {} ==> (CoversAll(f.Contexts(d, Sanitizer)) <==> f.Has(d, TaintFact(Sanitizer, None)))
    ensures CoveredByAny(f.Contexts(d, Sanitizer), c) <==> f.Has(d, TaintFact(Sanitizer, None)) || f.Has(d, TaintFact(Sanitizer, c))
  {
    forall x, kind ensures x in f.Contexts(d, kind) <==> f.Has(d, TaintFact(kind, x)) {
      CallableHas(d, f, kind, x);
    }
    CoveredByFacts(f.Contexts(d, Sanitizer), c);
  }

  lemma SinksByContexts(d: Decorations, sink: Context)
    ensures SinkAsks(d, sink) <==> IsSinkContext(d, sink)
  {
    if f: Callable :| f.Has(d, TaintFact(Sink, sink)) {
      CallableHas(d, f, Sink, sink);
      ContextsAreDeclared(d, f, Sink);
    }
    if sinks :| sinks in d.DeclaredContexts(Sink) && sink in sinks {
      var f := CallableOfContexts(d, sinks, Sink);
      CallableHas(d, f, Sink, sink);
    }
  }

  lemma EmittersGive(d: Decorations, c: Context)
    ensures Emits(d, c) <==> exists f: Callable :: Gives(d, f, c)
    ensures MethodEmits(d, c) <==> exists f: Callable :: f.Method? && Gives(d, f, c)
  {
    forall f: Callable ensures Gives(d, f, c) <==> c in f.Contexts(d, Source) && f.Contexts(d, Sanitizer) == {} {
      FactsByContexts(d, f, c);
    }
  }

  lemma ConditionalSanitizersByFacts(d: Decorations)
    ensures HasConditionalSanitizer(d) <==> exists f: Callable :: IsSanitizer(d, f) && !f.Has(d, TaintFact(Sanitizer, None))
  {
    if HasConditionalSanitizer(d) {
      var sanitizers :| sanitizers in d.DeclaredContexts(Sanitizer) && sanitizers != {} && !CoversAll(sanitizers);
      var f := CallableOfContexts(d, sanitizers, Sanitizer);
      FactsByContexts(d, f, None);
    }
    if f: Callable :| IsSanitizer(d, f) && !f.Has(d, TaintFact(Sanitizer, None)) {
      FactsByContexts(d, f, None);
      ContextsAreDeclared(d, f, Sanitizer);
    }
  }

  /** The conditions in terms of the sets of contexts that the check computes. */
  lemma SharpByContexts(d: Decorations)
    ensures Sharp(d) <==> SharpContexts(d)
  {
    EmittersGive(d, None);
    ConditionalSanitizersByFacts(d);
    CoveringByFacts(d);
    forall sink ensures SinkAsks(d, sink) <==> IsSinkContext(d, sink) {
      SinksByContexts(d, sink);
    }
  }

  lemma CoveringByFacts(d: Decorations)
    ensures d.SanitizersCoverSinks() <==>
      forall f: Callable, sink :: IsSanitizer(d, f) && SinkAsks(d, sink) ==> f.Has(d, TaintFact(Sanitizer, None)) || f.Has(d, TaintFact(Sanitizer, sink))
  {
    if d.SanitizersCoverSinks() {
      forall f: Callable, sink | IsSanitizer(d, f) && SinkAsks(d, sink)
        ensures f.Has(d, TaintFact(Sanitizer, None)) || f.Has(d, TaintFact(Sanitizer, sink))
      {
        FactsByContexts(d, f, sink);
        ContextsAreDeclared(d, f, Sanitizer);
        SinksByContexts(d, sink);
        var sinks :| sinks in d.DeclaredContexts(Sink) && sink in sinks;
        assert !d.Gap(f.Contexts(d, Sanitizer), sinks, sink);
      }
    } else {
      var sanitizer, sinks, sink :| d.Gap(sanitizer, sinks, sink);
      var f := CallableOfContexts(d, sanitizer, Sanitizer);
      FactsByContexts(d, f, sink);
      SinksByContexts(d, sink);
    }
  }

  lemma LinesByContexts(d: Decorations)
    ensures LinesAreHarmless(d) <==> ContextsAreHarmless(d)
  {
    forall f: Callable, c
      ensures IsSanitizer(d, f) <==> f.Contexts(d, Sanitizer) != {}
      ensures Gives(d, f, c) <==> c in f.Contexts(d, Source) && f.Contexts(d, Sanitizer) == {}
      ensures SinkAsks(d, c) <==> IsSinkContext(d, c)
    {
      FactsByContexts(d, f, c);
      SinksByContexts(d, c);
    }
    forall c
      ensures MethodEmits(d, c) <==> exists f: Callable :: f.Method? && Gives(d, f, c)
      ensures Emits(d, c) <==> exists f: Callable :: Gives(d, f, c)
    {
      EmittersGive(d, c);
    }
    assert forall c, sink :: ContextMatches(c, sink) <==> Meets(c, sink);
  }

  // ---------------------------------------------------------------------------------------------
  // Recorded taint is flow
  // ---------------------------------------------------------------------------------------------

  /** A line entry is the entry of some method call on that line. */
  lemma {:induction false} LineEntryHasCall(d: Decorations, events: seq<Event>, owner: Option<string>, line: nat, kind: TaintFactKind)
    returns (j: nat)
    requires LineContexts(d, events, owner, line, kind) != {}
    ensures j < |events| && events[j].MethodCall? && events[j].owner == owner && events[j].line == line
    ensures d.MethodContexts(Some(events[j].receiver), Some(events[j].method_), kind) == LineContexts(d, events, owner, line, kind)
  {
    j := |events| - 1;
    var last := events[j];
    if last.MethodCall? && last.owner == owner && last.line == line && d.MethodContexts(Some(last.receiver), Some(last.method_), kind) != {} {
    } else {
      j := LineEntryHasCall(d, events[..j], owner, line, kind);
    }
  }

  /** A method call on the line leaves an entry there. */
  lemma {:induction false} CallLeavesLineEntry(d: Decorations, events: seq<Event>, j: nat, kind: TaintFactKind)
    requires j < |events| && events[j].MethodCall?
    requires d.MethodContexts(Some(events[j].receiver), Some(events[j].method_), kind) != {}
    ensures LineContexts(d, events, events[j].owner, events[j].line, kind) != {}
    decreases |events|
  {
    if j == |events| - 1 {
    } else {
      CallLeavesLineEntry(d, events[..|events| - 1], j, kind);
    }
  }

  /** What a call without any decorated operand carries by itself. */
  lemma {:induction false} TaintIsEmitted(d: Decorations, e: Expr, env: string -> Contexts, c: Context)
    requires forall name, x :: x in env(name) ==> Emits(d, x)
    requires c in TaintOf(d, e, env)
    ensures Emits(d, c)
    decreases e, 0
  {
    if c in OwnSources(d, e) {
      OwnSourceIsEmitted(d, e, c);
    } else if !(e.name.Some? && c in env(e.name.value)) {
      AllTaintIsEmitted(d, e.inner, env, c);
    }
  }

  lemma {:induction false} AllTaintIsEmitted(d: Decorations, es: seq<Expr>, env: string -> Contexts, c: Context)
    requires forall name, x :: x in env(name) ==> Emits(d, x)
    requires c in TaintOfAll(d, es, env)
    ensures Emits(d, c)
    decreases es, 1
  {
    if c in TaintOfAll(d, es[..|es| - 1], env) {
      AllTaintIsEmitted(d, es[..|es| - 1], env, c);
    } else {
      TaintIsEmitted(d, es[|es| - 1], env, c);
    }
  }

  lemma OwnSourceIsEmitted(d: Decorations, e: Expr, c: Context)
    requires SanitizedBy(d, e) == {} && c in OwnSources(d, e)
    ensures Emits(d, c)
    ensures c in d.MethodContexts(e.methodOwner, e.methodName, Source) ==> MethodEmits(d, c)
  {
    if c in d.FunctionContexts(e.callee, Source) {
      assert c in Function(e.callee.value).Contexts(d, Source);
    }
    if c in d.MethodContexts(e.methodOwner, e.methodName, Source) {
      assert c in Method(e.methodOwner.value, e.methodName.value).Contexts(d, Source);
    }
  }

  lemma LineSourceIsEmitted(d: Decorations, before: seq<Event>, a: Event, c: Context)
    requires a.Assignment? && AssignmentSanitizers(d, before, a) == {}
    requires c in LineContexts(d, before, a.owner, a.line, Source)
    ensures MethodEmits(d, c)
  {
    var j := LineEntryHasCall(d, before, a.owner, a.line, Source);
    var f := Method(before[j].receiver, before[j].method_);
    if f.Contexts(d, Sanitizer) != {} {
      CallLeavesLineEntry(d, before, j, Sanitizer);
      assert false;
    }
    assert c in f.Contexts(d, Source);
  }

  /** Recorded taint comes from callables that are sources and not sanitizers. */
  lemma {:induction false} RecordedIsEmitted(d: Decorations, events: seq<Event>, owner: Option<string>, name: string, c: Context)
    requires forall k :: 0 <= k < |events| && events[k].Assignment? ==> Coherent(events[k])
    requires c in TaintAt(d, events, owner, name)
    ensures Emits(d, c)
    decreases |events|
  {
    var last, before := events[|events| - 1], events[..|events| - 1];
    if !(last.Assignment? && last.owner == owner && last.target == name) || AssignmentSanitizers(d, before, last) != {} {
      RecordedIsEmitted(d, before, owner, name, c);
    } else if c in LineContexts(d, before, last.owner, last.line, Source) {
      LineSourceIsEmitted(d, before, last, c);
    } else {
      assert Coherent(last);
      var e := last.value.value;
      if c in OwnSources(d, e) {
        OwnSourceIsEmitted(d, e, c);
      } else {
        var env := (n: string) => TaintAt(d, before, owner, n);
        forall n, x | x in env(n)
          ensures Emits(d, x)
        {
          RecordedIsEmitted(d, before, owner, n, x);
        }
        TaintIsEmitted(d, e, env, c);
      }
    }
  }

  /** Either taint methods keep to their own lines, or they are harmless on any line. */
  ghost predicate LinesAreFine(d: Decorations, events: seq<Event>) {
    OwnLines(d, events) || ContextsAreHarmless(d)
  }

  ghost predicate AllCoherent(events: seq<Event>) {
    forall k :: 0 <= k < |events| && events[k].Assignment? ==> Coherent(events[k])
  }

  lemma PrefixIsFine(d: Decorations, events: seq<Event>, k: nat)
    requires AllCoherent(events) && LinesAreFine(d, events) && k <= |events|
    ensures AllCoherent(events[..k]) && LinesAreFine(d, events[..k])
  {
    assert forall i :: 0 <= i < k ==> events[..k][i] == events[i];
  }

  /** An expression flows as its recorded taint says, if the locals it names do. */
  lemma {:induction false} ExpressionFlowsAsRecorded(d: Decorations, before: seq<Event>, owner: Option<string>, e: Expr, env: string -> Contexts, sink: Context)
    requires d.SanitizersCoverSinks() && IsSinkContext(d, sink)
    requires forall name: string :: LocalFlows(d, before, owner, name, sink) <==> MatchedBy(env(name), sink)
    ensures Flows(d, before, owner, e, sink) <==> MatchedBy(TaintOf(d, e, env), sink)
    decreases e, 0
  {
    FlowsByContexts(d, before, owner, e, sink);
    if SanitizedBy(d, e) != {} {
      SinkIsCovered(d, e, sink);
    } else {
      OperandsFlowAsRecorded(d, before, owner, e.inner, env, sink);
      var own, local, inner := OwnSources(d, e), if e.name.Some? then env(e.name.value) else {}, TaintOfAll(d, e.inner, env);
      assert TaintOf(d, e, env) == own + local + inner;
      MatchedByUnion(own + local, inner, sink);
      MatchedByUnion(own, local, sink);
    }
  }

  ghost predicate SomeFlows(d: Decorations, before: seq<Event>, owner: Option<string>, es: seq<Expr>, sink: Context) {
    exists i :: 0 <= i < |es| && Flows(d, before, owner, es[i], sink)
  }

  lemma SomeFlowsSnoc(d: Decorations, before: seq<Event>, owner: Option<string>, front: seq<Expr>, last: Expr, sink: Context)
    ensures SomeFlows(d, before, owner, front + [last], sink) <==> SomeFlows(d, before, owner, front, sink) || Flows(d, before, owner, last, sink)
  {
    var es := front + [last];
    assert es[|front|] == last && forall i :: 0 <= i < |front| ==> es[i] == front[i];
  }

  lemma {:induction false} OperandsFlowAsRecorded(d: Decorations, before: seq<Event>, owner: Option<string>, es: seq<Expr>, env: string -> Contexts, sink: Context)
    requires d.SanitizersCoverSinks() && IsSinkContext(d, sink)
    requires forall name: string :: LocalFlows(d, before, owner, name, sink) <==> MatchedBy(env(name), sink)
    ensures SomeFlows(d, before, owner, es, sink) <==> MatchedBy(TaintOfAll(d, es, env), sink)
    decreases es, 1
  {
    if es == [] {
    } else {
      var front, last := es[..|es| - 1], es[|es| - 1];
      OperandsFlowAsRecorded(d, before, owner, front, env, sink);
      ExpressionFlowsAsRecorded(d, before, owner, last, env, sink);
      MatchedByUnion(TaintOfAll(d, front, env), TaintOf(d, last, env), sink);
      assert es == front + [last];
      SomeFlowsSnoc(d, before, owner, front, last, sink);
    }
  }

  lemma MatchedByUnion(left: Contexts, right: Contexts, sink: Context)
    ensures MatchedBy(left + right, sink) <==> MatchedBy(left, sink) || MatchedBy(right, sink)
  {
  }

  lemma SinkIsCovered(d: Decorations, e: Expr, sink: Context)
    requires d.SanitizersCoverSinks() && IsSinkContext(d, sink) && SanitizedBy(d, e) != {}
    ensures CoveredByAny(SanitizedBy(d, e), sink)
  {
    var sinks :| sinks in d.DeclaredContexts(Sink) && sink in sinks;
    assert !d.Gap(SanitizedBy(d, e), sinks, sink);
  }

  /** With sharp decorations, what is left of the old taint behind a sanitized assignment matches no sink. */
  lemma NothingSurvives(d: Decorations, before: seq<Event>, a: Event, sink: Context)
    requires SharpContexts(d) && IsSinkContext(d, sink) && AllCoherent(before) && a.Assignment?
    requires AssignmentSanitizers(d, before, a) != {} && !CoversAll(AssignmentSanitizers(d, before, a))
    ensures !MatchedBy(TaintAt(d, before, a.owner, a.target) - AssignmentSanitizers(d, before, a), sink)
  {
    var sanitized := AssignmentSanitizers(d, before, a);
    var sanitizers := ASanitizer(d, before, a);
    var sinks :| sinks in d.DeclaredContexts(Sink) && sink in sinks;
    assert !d.Gap(sanitizers, sinks, sink);
    forall c | c in TaintAt(d, before, a.owner, a.target) - sanitized
      ensures !ContextMatches(c, sink)
    {
      RecordedIsEmitted(d, before, a.owner, a.target, c);
      assert c.Some?;
    }
  }

  /** Some declared sanitizer takes part in a sanitized assignment. */
  lemma ASanitizer(d: Decorations, before: seq<Event>, a: Event) returns (sanitizers: Contexts)
    requires a.Assignment? && AssignmentSanitizers(d, before, a) != {}
    ensures sanitizers in d.DeclaredContexts(Sanitizer) && sanitizers != {} && sanitizers <= AssignmentSanitizers(d, before, a)
  {
    if d.FunctionContexts(a.valueCallee, Sanitizer) != {} {
      sanitizers := d.FunctionContexts(a.valueCallee, Sanitizer);
    } else if d.MethodContexts(a.valueMethodOwner, a.valueMethodName, Sanitizer) != {} {
      sanitizers := d.MethodContexts(a.valueMethodOwner, a.valueMethodName, Sanitizer);
    } else {
      var j := LineEntryHasCall(d, before, a.owner, a.line, Sanitizer);
      sanitizers := LineContexts(d, before, a.owner, a.line, Sanitizer);
    }
  }

  /** What an assignment records flows into its value, and nothing else does. */
  lemma AssignmentFlowsAsRecorded(d: Decorations, before: seq<Event>, a: Event, sink: Context)
    requires SharpContexts(d) && IsSinkContext(d, sink) && a.Assignment?
    requires AllCoherent(before + [a]) && LinesAreFine(d, before + [a])
    requires forall name: string :: LocalFlows(d, before, a.owner, name, sink) <==> MatchedBy(TaintAt(d, before, a.owner, name), sink)
    ensures (a.value.Some? && Flows(d, before, a.owner, a.value.value, sink)) <==> MatchedBy(TaintAt(d, before + [a], a.owner, a.target), sink)
  {
    var env := (name: string) => TaintAt(d, before, a.owner, name);
    var sanitized := AssignmentSanitizers(d, before, a);
    assert (before + [a])[|before|] == a && forall i :: 0 <= i < |before| ==> (before + [a])[i] == before[i];
    assert Coherent(a) && AllCoherent(before);
    TaintAtAssigned(d, before, a);
    if a.value.Some? {
      ExpressionFlowsAsRecorded(d, before, a.owner, a.value.value, env, sink);
    }
    if sanitized == {} {
      LineSourcesAddNothing(d, before, a, sink);
      var value := if a.value.Some? then TaintOf(d, a.value.value, env) else {};
      var line := LineContexts(d, before, a.owner, a.line, Source);
      assert AssignmentSources(d, before, a) == value + line;
      MatchedByUnion(value, line, sink);
    } else {
      if !CoversAll(sanitized) {
        NothingSurvives(d, before, a, sink);
      }
      if a.value.Some? {
        SanitizedValueDoesNotFlow(d, before, a, sink);
      }
    }
  }

  /** Source calls on the line match no sink, unless the value is such a call itself. */
  lemma LineSourcesAddNothing(d: Decorations, before: seq<Event>, a: Event, sink: Context)
    requires IsSinkContext(d, sink) && a.Assignment? && Coherent(a) && LinesAreFine(d, before + [a])
    requires AssignmentSanitizers(d, before, a) == {}
    ensures MatchedBy(LineContexts(d, before, a.owner, a.line, Source), sink) ==>
              a.value.Some? && LineContexts(d, before, a.owner, a.line, Source) <= OwnSources(d, a.value.value)
  {
    var line := LineContexts(d, before, a.owner, a.line, Source);
    if MatchedBy(line, sink) {
      var c :| c in line && ContextMatches(c, sink);
      LineSourceIsEmitted(d, before, a, c);
      var j := LineEntryHasCall(d, before, a.owner, a.line, Source);
      assert (before + [a])[|before|] == a && (before + [a])[j] == before[j];
      assert IsValueOf(before[j], a);
    }
  }

  /** Behind a sanitizer no source flows into the value that a sink asks about. */
  lemma SanitizedValueDoesNotFlow(d: Decorations, before: seq<Event>, a: Event, sink: Context)
    requires SharpContexts(d) && IsSinkContext(d, sink) && a.Assignment?
    requires AllCoherent(before + [a]) && LinesAreFine(d, before + [a])
    requires forall name: string :: LocalFlows(d, before, a.owner, name, sink) <==> MatchedBy(TaintAt(d, before, a.owner, name), sink)
    requires AssignmentSanitizers(d, before, a) != {} && a.value.Some?
    ensures !Flows(d, before, a.owner, a.value.value, sink)
  {
    var e := a.value.value;
    assert (before + [a])[|before|] == a && forall i :: 0 <= i < |before| ==> (before + [a])[i] == before[i];
    FlowsByContexts(d, before, a.owner, e, sink);
    if SanitizedBy(d, e) != {} {
      SinkIsCovered(d, e, sink);
    } else {
      assert Coherent(a);
      var j := LineEntryHasCall(d, before, a.owner, a.line, Sanitizer);
      assert IsOnLineOf(before[j], a) && IsTaintMethod(d, before[j]) && !IsValueOf(before[j], a);
      assert ContextsAreHarmless(d);
      assert Method(before[j].receiver, before[j].method_).Contexts(d, Sanitizer) != {};
      var env := (name: string) => TaintAt(d, before, a.owner, name);
      ExpressionFlowsAsRecorded(d, before, a.owner, e, env, sink);
      forall name, x | x in env(name)
        ensures Emits(d, x)
      {
        RecordedIsEmitted(d, before, a.owner, name, x);
      }
      forall c | c in TaintOf(d, e, env)
        ensures !ContextMatches(c, sink)
      {
        TaintIsEmitted(d, e, env, c);
      }
    }
  }

  lemma LocalFlowsSnoc(d: Decorations, before: seq<Event>, last: Event, owner: Option<string>, name: string, sink: Context)
    ensures !(last.Assignment? && last.owner == owner && last.target == name) ==>
              (LocalFlows(d, before + [last], owner, name, sink) <==> LocalFlows(d, before, owner, name, sink))
    ensures last.Assignment? && last.owner == owner && last.target == name ==>
              (LocalFlows(d, before + [last], owner, name, sink) <==> last.value.Some? && Flows(d, before, owner, last.value.value, sink))
  {
    var events := before + [last];
    assert events[|before|] == last && events[..|before|] == before;
    forall k: nat | k < |before|
      ensures events[k] == before[k] && events[..k] == before[..k]
    {
    }
    if last.Assignment? && last.owner == owner && last.target == name {
      assert IsLastAssignment(events, |before|, owner, name);
      assert forall k: nat :: IsLastAssignment(events, k, owner, name) ==> k == |before|;
    } else {
      assert forall k: nat :: IsLastAssignment(events, k, owner, name) ==> k < |before| && IsLastAssignment(before, k, owner, name);
      assert forall k: nat :: IsLastAssignment(before, k, owner, name) ==> IsLastAssignment(events, k, owner, name);
    }
  }

  /** Recorded taint is flow: for every sink context, a local's recorded taint matches it exactly when a source flows into the local. */
  lemma {:induction false} LocalFlowsAsRecorded(d: Decorations, events: seq<Event>, owner: Option<string>, name: string, sink: Context)
    requires SharpContexts(d) && IsSinkContext(d, sink) && AllCoherent(events) && LinesAreFine(d, events)
    ensures LocalFlows(d, events, owner, name, sink) <==> MatchedBy(TaintAt(d, events, owner, name), sink)
    decreases |events|
  {
    if events == [] {
    } else {
      var last, before := events[|events| - 1], events[..|events| - 1];
      assert events == before + [last];
      PrefixIsFine(d, events, |before|);
      LocalFlowsSnoc(d, before, last, owner, name, sink);
      forall n: string
        ensures LocalFlows(d, before, owner, n, sink) <==> MatchedBy(TaintAt(d, before, owner, n), sink)
      {
        LocalFlowsAsRecorded(d, before, owner, n, sink);
      }
      if last.Assignment? && last.owner == owner && last.target == name {
        AssignmentFlowsAsRecorded(d, before, last, sink);
      }
    }
  }

  /** A sink call is flagged exactly when a source that it asks about flows into one of its arguments. */
  lemma FlaggedIffReached(d: Decorations, before: seq<Event>, event: Event)
    requires SharpContexts(d) && AllCoherent(before) && LinesAreFine(d, before) && !event.Assignment?
    ensures Flagged(d, before, event) <==> Reached(d, before, event)
  {
    var env := EnvAt(d, before, event.owner);
    SinksAreDeclared(d, event);
    forall i, sink | 0 <= i < |event.args| && sink in event.SinkContexts(d)
      ensures Flows(d, before, event.owner, event.args[i], sink) <==> MatchedBy(TaintOf(d, event.args[i], env), sink)
    {
      forall name: string
        ensures LocalFlows(d, before, event.owner, name, sink) <==> MatchedBy(env(name), sink)
      {
        LocalFlowsAsRecorded(d, before, event.owner, name, sink);
      }
      ExpressionFlowsAsRecorded(d, before, event.owner, event.args[i], env, sink);
    }
    if Flagged(d, before, event) {
      FlagMeansRecordedTaint(d, before, event);
      var i, source, sink :| 0 <= i < |event.args| && source in TaintOf(d, event.args[i], env)
                             && sink in event.SinkContexts(d) && ContextMatches(source, sink);
      assert MatchedBy(TaintOf(d, event.args[i], env), sink);
      SinksAreFacts(d, event, sink);
    }
    if Reached(d, before, event) {
      var i, sink :| 0 <= i < |event.args| && EventFact(d, event, TaintFact(Sink, sink)) && Flows(d, before, event.owner, event.args[i], sink);
      SinksAreFacts(d, event, sink);
      var source :| source in TaintOf(d, event.args[i], env) && ContextMatches(source, sink);
      RecordedTaintIsFlagged(d, before, event);
    }
  }

  // ---------------------------------------------------------------------------------------------
  // The conditions are exact
  // ---------------------------------------------------------------------------------------------

  lemma CallableOfContexts(d: Decorations, contexts: Contexts, kind: TaintFactKind) returns (f: Callable)
    requires contexts in d.DeclaredContexts(kind) && contexts != {}
    ensures f.Contexts(d, kind) == contexts
  {
    if g :| g in d.functions && ContextsForKind(d.functions[g], kind) == contexts {
      f := Function(g);
    } else {
      var m :| m in d.methods && ContextsForKind(d.methods[m], kind) == contexts;
      f := Method(m.0, m.1);
    }
  }

  lemma ContextsAreDeclared(d: Decorations, f: Callable, kind: TaintFactKind)
    ensures f.Contexts(d, kind) != {} ==> f.Contexts(d, kind) in d.DeclaredContexts(kind)
  {
  }

  lemma {:induction false} EmptyLine(d: Decorations, events: seq<Event>, line: nat, kind: TaintFactKind)
    requires forall i :: 0 <= i < |events| ==> events[i].line < line
    ensures LineContexts(d, events, None, line, kind) == {}
    decreases |events|
  {
    if events == [] {
    } else {
      EmptyLine(d, events[..|events| - 1], line, kind);
    }
  }

  lemma AnnouncementTaintsNothing(d: Decorations, before: seq<Event>, f: Callable, line: nat, name: string)
    ensures TaintAt(d, before + f.Announcement(line), None, name) == TaintAt(d, before, None, name)
  {
    if f.Method? {
      assert (before + f.Announcement(line))[..|before|] == before;
    } else {
      assert before + f.Announcement(line) == before;
    }
  }

  lemma AnnouncementOnFreshLine(d: Decorations, before: seq<Event>, f: Callable, line: nat, kind: TaintFactKind)
    requires forall i :: 0 <= i < |before| ==> before[i].line < line
    ensures LineContexts(d, before + f.Announcement(line), None, line, kind) == if f.Method? then f.Contexts(d, kind) else {}
  {
    EmptyLine(d, before, line, kind);
    if f.Method? {
      assert (before + f.Announcement(line))[..|before|] == before;
    } else {
      assert before + f.Announcement(line) == before;
    }
  }

  lemma CallCarriesItsSources(d: Decorations, f: Callable, args: seq<Expr>, env: string -> Contexts)
    ensures SanitizedBy(d, f.Calling(args)) == f.Contexts(d, Sanitizer)
    ensures OwnSources(d, f.Calling(args)) == f.Contexts(d, Source)
    ensures f.Contexts(d, Sanitizer) == {} ==> TaintOf(d, f.Calling(args), env) == f.Contexts(d, Source)
  {
    assert TaintOfAll(d, [], env) == {};
  }

  /** What `target = f(args)` on a line of its own records. */
  lemma AfterAssigning(d: Decorations, before: seq<Event>, f: Callable, line: nat, target: string, args: seq<Expr>)
    requires forall i :: 0 <= i < |before| ==> before[i].line < line
    ensures TaintAt(d, before + f.Announcement(line) + [f.Assigning(line, target, args)], None, target) ==
            AssignedTaint(f.Contexts(d, Source), f.Contexts(d, Sanitizer), TaintAt(d, before, None, target))
  {
    var announced, a := before + f.Announcement(line), f.Assigning(line, target, args);
    AnnouncementTaintsNothing(d, before, f, line, target);
    AnnouncementOnFreshLine(d, before, f, line, Source);
    AnnouncementOnFreshLine(d, before, f, line, Sanitizer);
    CallCarriesItsSources(d, f, args, (name: string) => TaintAt(d, announced, None, name));
    TaintAtAssigned(d, announced, a);
    assert AssignmentSanitizers(d, announced, a) == f.Contexts(d, Sanitizer);
    assert f.Contexts(d, Sanitizer) == {} ==> AssignmentSources(d, announced, a) == f.Contexts(d, Source);
  }

  /** The line `target = f(args)`, with the method call's own event where `f` is a method. */
  function LineOf(f: Callable, line: nat, target: string, args: seq<Expr>): seq<Event> {
    f.Announcement(line) + [f.Assigning(line, target, args)]
  }

  lemma {:induction false} LineIsAnnounced(before: seq<Event>, f: Callable, line: nat, target: string, args: seq<Expr>)
    requires WellFormed(before)
    requires forall i :: 0 <= i < |before| ==> before[i].line < line
    ensures var events := before + LineOf(f, line, target, args);
      WellFormed(events) && forall i :: 0 <= i < |events| ==> events[i].line < line + 1
  {
    var own := LineOf(f, line, target, args);
    var events := before + own;
    assert forall i :: 0 <= i < |before| ==> events[i] == before[i];
    assert forall i :: 0 <= i < |own| ==> events[|before| + i] == own[i] && own[i].line == line;
    forall k | 0 <= k < |events| && events[k].Assignment?
      ensures Coherent(events[k]) && Announced(events, k)
    {
      if k < |before| {
        assert Announced(before, k);
      } else if f.Method? {
        assert IsValueOf(events[k - 1], events[k]);
      }
    }
  }

  lemma {:induction false} LineIsOwn(d: Decorations, before: seq<Event>, f: Callable, line: nat, target: string, args: seq<Expr>)
    requires OwnLines(d, before)
    requires forall i :: 0 <= i < |before| ==> before[i].line < line
    ensures OwnLines(d, before + LineOf(f, line, target, args))
  {
    var own := LineOf(f, line, target, args);
    var events := before + own;
    assert forall i :: 0 <= i < |before| ==> events[i] == before[i];
    assert forall i :: 0 <= i < |own| ==> events[|before| + i] == own[i] && own[i].line == line;
  }

  /** One more line behind a well-formed program. */
  lemma LineIsWellFormed(d: Decorations, before: seq<Event>, f: Callable, line: nat, target: string, args: seq<Expr>)
    requires WellFormed(before) && OwnLines(d, before)
    requires forall i :: 0 <= i < |before| ==> before[i].line < line
    ensures var events := before + f.Announcement(line) + [f.Assigning(line, target, args)];
      WellFormed(events) && OwnLines(d, events) && forall i :: 0 <= i < |events| ==> events[i].line < line + 1
  {
    assert before + f.Announcement(line) + [f.Assigning(line, target, args)] == before + LineOf(f, line, target, args);
    LineIsAnnounced(before, f, line, target, args);
    LineIsOwn(d, before, f, line, target, args);
  }

  lemma StatementIsWellFormed(before: seq<Event>, f: Callable, line: nat, args: seq<Expr>)
    requires WellFormed(before)
    requires forall i :: 0 <= i < |before| ==> before[i].line < line
    ensures WellFormed(before + [f.Calls(line, args)])
  {
    var events := before + [f.Calls(line, args)];
    assert forall i :: 0 <= i < |before| ==> events[i] == before[i];
    forall k | 0 <= k < |events| && events[k].Assignment?
      ensures Coherent(events[k]) && Announced(events, k)
    {
      assert Announced(before, k);
    }
  }

  /** `raw = source(); raw = clean(raw); sink(raw)`, source and sink bare or not. */
  function CleanedBeforeSink(source: Callable, clean: Callable): seq<Event> {
    source.Announcement(1) + [source.Assigning(1, "raw", [])]
    + clean.Announcement(2) + [clean.Assigning(2, "raw", [Named("raw")])]
  }

  lemma CleanedValueDoesNotFlow(d: Decorations, before: seq<Event>, clean: Callable, s: Context)
    requires d.SanitizersCoverSinks() && IsSinkContext(d, s) && clean.Contexts(d, Sanitizer) != {}
    ensures !Flows(d, before, None, clean.Calling([Named("raw")]), s)
  {
    var e := clean.Calling([Named("raw")]);
    CallCarriesItsSources(d, clean, [Named("raw")], (name: string) => {});
    SinkIsCovered(d, e, s);
    FlowsByContexts(d, before, None, e, s);
  }

  /** A bare source cleaned by a conditional sanitizer is flagged, although the sanitizer covers the sink. */
  lemma CleanedSourceIsFlagged(d: Decorations, source: Callable, clean: Callable, sink: Callable)
    requires d.SanitizersCoverSinks() && sink.Contexts(d, Sink) != {}
    requires None in source.Contexts(d, Source) && source.Contexts(d, Sanitizer) == {}
    requires clean.Contexts(d, Sanitizer) != {} && !CoversAll(clean.Contexts(d, Sanitizer))
    ensures var before, event := CleanedBeforeSink(source, clean), sink.Calls(3, [Named("raw")]);
      WellFormed(before + [event]) && OwnLines(d, before) && Flagged(d, before, event) && !Reached(d, before, event)
  {
    var first := source.Announcement(1) + [source.Assigning(1, "raw", [])];
    var second := first + clean.Announcement(2);
    var a := clean.Assigning(2, "raw", [Named("raw")]);
    var before, event := CleanedBeforeSink(source, clean), sink.Calls(3, [Named("raw")]);
    assert before == second + [a];
    assert [] + source.Announcement(1) == source.Announcement(1);
    LineIsWellFormed(d, [], source, 1, "raw", []);
    LineIsWellFormed(d, first, clean, 2, "raw", [Named("raw")]);
    StatementIsWellFormed(before, sink, 3, [Named("raw")]);
    AfterAssigning(d, [], source, 1, "raw", []);
    AfterAssigning(d, first, clean, 2, "raw", [Named("raw")]);
    NamedIsFlagged(d, before, sink, 3, "raw", None);
    forall s | s in sink.Contexts(d, Sink)
      ensures !LocalFlows(d, before, None, "raw", s)
    {
      ContextsAreDeclared(d, sink, Sink);
      LocalFlowsSnoc(d, second, a, None, "raw", s);
      CleanedValueDoesNotFlow(d, second, clean, s);
    }
    NamedIsNotReached(d, before, sink, 3, "raw");
  }

  /** A sink call on a local whose recorded taint matches. */
  lemma NamedIsFlagged(d: Decorations, before: seq<Event>, sink: Callable, line: nat, name: string, c: Context)
    requires c in TaintAt(d, before, None, name) && exists s :: s in sink.Contexts(d, Sink) && ContextMatches(c, s)
    ensures Flagged(d, before, sink.Calls(line, [Named(name)]))
  {
    var event := sink.Calls(line, [Named(name)]);
    var s :| s in sink.Contexts(d, Sink) && ContextMatches(c, s);
    assert event.args[0] == Named(name) && event.SinkContexts(d) == sink.Contexts(d, Sink);
    assert c in TaintOf(d, Named(name), EnvAt(d, before, None));
    RecordedTaintIsFlagged(d, before, event);
  }

  /** A sink call on a local into which nothing flows that the sink asks about. */
  lemma NamedIsNotReached(d: Decorations, before: seq<Event>, sink: Callable, line: nat, name: string)
    requires forall s :: s in sink.Contexts(d, Sink) ==> !LocalFlows(d, before, None, name, s)
    ensures !Reached(d, before, sink.Calls(line, [Named(name)]))
  {
    var event := sink.Calls(line, [Named(name)]);
    forall s
      ensures !(EventFact(d, event, TaintFact(Sink, s)) && Flows(d, before, None, Named(name), s))
    {
      SinksAreFacts(d, event, s);
      FlowsByContexts(d, before, None, Named(name), s);
    }
  }

  /** `x = constant` on the line of a source method call. */
  function SourceBeside(source: Callable): seq<Event> {
    source.Announcement(1) + [PlainAssignment(Expr(None, None, None, None, [], []))]
  }

  /** `x = e`, for a value that is no call itself */
  function PlainAssignment(e: Expr): Event {
    Assignment(None, 1, "x", Some(e), None, None, None)
  }

  lemma PlainIsWellFormed(calls: seq<Event>, e: Expr, sink: Callable)
    requires AllCalls(calls) && e.callee.None? && e.methodOwner.None? && e.methodName.None?
    requires forall i :: 0 <= i < |calls| ==> calls[i].line == 1
    ensures WellFormed(calls + [PlainAssignment(e)] + [sink.Calls(2, [Named("x")])])
  {
    assert WellFormed(calls + [PlainAssignment(e)]);
    StatementIsWellFormed(calls + [PlainAssignment(e)], sink, 2, [Named("x")]);
  }

  /** A source method called on the line of an assignment taints whatever is assigned. */
  lemma SourceOnLineIsFlagged(d: Decorations, source: Callable, sink: Callable, c: Context, s: Context)
    requires source.Method? && c in source.Contexts(d, Source) && source.Contexts(d, Sanitizer) == {}
    requires s in sink.Contexts(d, Sink) && ContextMatches(c, s)
    ensures var before, event := SourceBeside(source), sink.Calls(2, [Named("x")]);
      WellFormed(before + [event]) && Flagged(d, before, event) && !Reached(d, before, event)
  {
    var call, constant := source.Announcement(1), Expr(None, None, None, None, [], []);
    var a, before := PlainAssignment(constant), SourceBeside(source);
    PlainIsWellFormed(call, constant, sink);
    assert [] + call == call;
    AnnouncementOnFreshLine(d, [], source, 1, Source);
    AnnouncementOnFreshLine(d, [], source, 1, Sanitizer);
    TaintAtAssigned(d, call, a);
    assert AssignmentSanitizers(d, call, a) == {} && c in AssignmentSources(d, call, a);
    NamedIsFlagged(d, before, sink, 2, "x", c);
    forall t
      ensures !LocalFlows(d, before, None, "x", t)
    {
      LocalFlowsSnoc(d, call, a, None, "x", t);
      assert SanitizedBy(d, constant) == {} && OwnSources(d, constant) == {};
      FlowsByContexts(d, call, None, constant, t);
    }
    NamedIsNotReached(d, before, sink, 2, "x");
  }

  /** `source() + clean()` */
  function SourcePlusClean(source: Callable, clean: Callable): Expr {
    Expr(None, None, None, None, [source.Calling([]), clean.Calling([])], [])
  }

  /** `x = source() + clean()`, with the method calls of the line. */
  function SanitizerBeside(source: Callable, clean: Callable): seq<Event> {
    source.Announcement(1) + clean.Announcement(1) + [PlainAssignment(SourcePlusClean(source, clean))]
  }

  /** A sanitizer method called on the line of an assignment hides a source that flows into the value. */
  lemma SanitizerOnLineHidesSource(d: Decorations, source: Callable, clean: Callable, sink: Callable, c: Context, s: Context)
    requires d.SanitizersCoverSinks()
    requires c in source.Contexts(d, Source) && source.Contexts(d, Sanitizer) == {}
    requires clean.Method? && clean.Contexts(d, Sanitizer) != {}
    requires s in sink.Contexts(d, Sink) && ContextMatches(c, s)
    ensures var before, event := SanitizerBeside(source, clean), sink.Calls(2, [Named("x")]);
      WellFormed(before + [event]) && !Flagged(d, before, event) && Reached(d, before, event)
  {
    var front, e := source.Announcement(1) + clean.Announcement(1), SourcePlusClean(source, clean);
    var a, before, event := PlainAssignment(e), SanitizerBeside(source, clean), sink.Calls(2, [Named("x")]);
    PlainIsWellFormed(front, e, sink);
    NothingRecordedBesideSanitizer(d, front, a);
    assert TaintOf(d, Named("x"), EnvAt(d, before, None)) == {};
    if Flagged(d, before, event) {
      FlagMeansRecordedTaint(d, before, event);
      assert false;
    }
    LocalFlowsSnoc(d, front, a, None, "x", s);
    SourceFlowsIntoSum(d, front, source, clean, c, s);
    FlowsByContexts(d, before, None, Named("x"), s);
    SinksAreFacts(d, event, s);
    assert event.args[0] == Named("x");
  }

  lemma NothingRecordedBesideSanitizer(d: Decorations, calls: seq<Event>, a: Event)
    requires AllCalls(calls) && calls != [] && a.Assignment? && a.owner == None
    requires var last := calls[|calls| - 1];
      last.owner == None && last.line == a.line && d.MethodContexts(Some(last.receiver), Some(last.method_), Sanitizer) != {}
    ensures TaintAt(d, calls + [a], None, a.target) == {}
  {
    NoTaintYet(d, calls, a.target);
    CallLeavesLineEntry(d, calls, |calls| - 1, Sanitizer);
    TaintAtAssigned(d, calls, a);
  }

  lemma SourceFlowsIntoSum(d: Decorations, before: seq<Event>, source: Callable, clean: Callable, c: Context, s: Context)
    requires c in source.Contexts(d, Source) && source.Contexts(d, Sanitizer) == {} && ContextMatches(c, s)
    ensures Flows(d, before, None, SourcePlusClean(source, clean), s)
  {
    var e := SourcePlusClean(source, clean);
    CallCarriesItsSources(d, source, [], (name: string) => {});
    assert MatchedBy(OwnSources(d, source.Calling([])), s);
    FlowsByContexts(d, before, None, e.inner[0], s);
    assert Flows(d, before, None, e.inner[0], s);
    assert SanitizedBy(d, e) == {};
    FlowsByContexts(d, before, None, e, s);
  }

  ghost predicate AllCalls(events: seq<Event>) {
    forall i :: 0 <= i < |events| ==> events[i].MethodCall?
  }

  lemma {:induction false} NoTaintYet(d: Decorations, events: seq<Event>, name: string)
    requires AllCalls(events)
    ensures TaintAt(d, events, None, name) == {}
    decreases |events|
  {
    if events == [] {
    } else {
      NoTaintYet(d, events[..|events| - 1], name);
    }
  }

  /** A gap in the sanitizers is enough for a flag where nothing flows. */
  lemma GapIsFlagged(d: Decorations) returns (event: Event)
    requires !d.SanitizersCoverSinks()
    ensures !event.Assignment? && WellFormed([event]) && Flagged(d, [], event) && !Reached(d, [], event)
  {
    event := GapRaisesFalseFlag(d);
    forall s ensures !Flows(d, [], event.owner, event.args[0], s) {
      FlowsByContexts(d, [], event.owner, event.args[0], s);
    }
  }

  ghost predicate IsExact(d: Decorations, before: seq<Event>, event: Event)
    requires !event.Assignment?
  {
    Flagged(d, before, event) <==> Reached(d, before, event)
  }

  /** A program in which the flags are wrong although taint methods keep to their own lines. */
  lemma BluntDecorationsMislead(d: Decorations) returns (before: seq<Event>, event: Event)
    requires !SharpContexts(d)
    ensures !event.Assignment? && WellFormed(before + [event]) && OwnLines(d, before) && !IsExact(d, before, event)
  {
    if d.SanitizersCoverSinks() {
      var source: Callable :| None in source.Contexts(d, Source) && source.Contexts(d, Sanitizer) == {};
      var sanitizers :| sanitizers in d.DeclaredContexts(Sanitizer) && sanitizers != {} && !CoversAll(sanitizers);
      var clean := CallableOfContexts(d, sanitizers, Sanitizer);
      var s :| IsSinkContext(d, s);
      var sinks :| sinks in d.DeclaredContexts(Sink) && s in sinks;
      var sink := CallableOfContexts(d, sinks, Sink);
      CleanedSourceIsFlagged(d, source, clean, sink);
      before, event := CleanedBeforeSink(source, clean), sink.Calls(3, [Named("raw")]);
    } else {
      event := GapIsFlagged(d);
      before := [];
      assert [] + [event] == [event];
    }
  }

  /** A program in which a taint method beside an assignment makes the flags wrong. */
  lemma HarmfulLinesMislead(d: Decorations) returns (before: seq<Event>, event: Event)
    requires d.SanitizersCoverSinks() && !ContextsAreHarmless(d)
    ensures !event.Assignment? && WellFormed(before + [event]) && !IsExact(d, before, event)
  {
    if c, s :| MethodEmits(d, c) && IsSinkContext(d, s) && ContextMatches(c, s) {
      var source: Callable :| source.Method? && c in source.Contexts(d, Source) && source.Contexts(d, Sanitizer) == {};
      var sinks :| sinks in d.DeclaredContexts(Sink) && s in sinks;
      var sink := CallableOfContexts(d, sinks, Sink);
      SourceOnLineIsFlagged(d, source, sink, c, s);
      before, event := SourceBeside(source), sink.Calls(2, [Named("x")]);
    } else {
      var c, s :| Emits(d, c) && IsSinkContext(d, s) && ContextMatches(c, s);
      var source: Callable :| c in source.Contexts(d, Source) && source.Contexts(d, Sanitizer) == {};
      var clean: Callable :| clean.Method? && clean.Contexts(d, Sanitizer) != {};
      var sinks :| sinks in d.DeclaredContexts(Sink) && s in sinks;
      var sink := CallableOfContexts(d, sinks, Sink);
      SanitizerOnLineHidesSource(d, source, clean, sink, c, s);
      before, event := SanitizerBeside(source, clean), sink.Calls(2, [Named("x")]);
    }
  }

  lemma WellFormedPrefix(before: seq<Event>, event: Event)
    requires WellFormed(before + [event])
    ensures AllCoherent(before)
  {
    assert forall i :: 0 <= i < |before| ==> (before + [event])[i] == before[i];
  }

  /**
   Where source and sanitizer methods are called only as the value of the assignment on their line, sink calls
   are flagged exactly when a source flows into an argument, in every program, if and only if the sanitizers
   cover the sinks and no bare source can meet a conditional sanitizer.
   */
  lemma FlagsAreExactIff(d: Decorations)
    ensures (forall before, event: Event :: !event.Assignment? && WellFormed(before + [event]) && OwnLines(d, before) ==> IsExact(d, before, event))
            <==> Sharp(d)
  {
    SharpByContexts(d);
    if SharpContexts(d) {
      forall before, event: Event | !event.Assignment? && WellFormed(before + [event]) && OwnLines(d, before)
        ensures IsExact(d, before, event)
      {
        WellFormedPrefix(before, event);
        FlaggedIffReached(d, before, event);
      }
    } else {
      var before, event := BluntDecorationsMislead(d);
    }
  }

  /**
   In every program whatever, if and only if, in addition, no source method matches a sink, and with any
   sanitizer method declared no source at all does.
   */
  lemma FlagsAreExactOnAllLinesIff(d: Decorations)
    ensures (forall before, event: Event :: !event.Assignment? && WellFormed(before + [event]) ==> IsExact(d, before, event))
            <==> Sharp(d) && LinesAreHarmless(d)
  {
    SharpByContexts(d);
    LinesByContexts(d);
    if SharpContexts(d) && ContextsAreHarmless(d) {
      forall before, event: Event | !event.Assignment? && WellFormed(before + [event])
        ensures IsExact(d, before, event)
      {
        WellFormedPrefix(before, event);
        FlaggedIffReached(d, before, event);
      }
    } else if SharpContexts(d) {
      var before, event := HarmfulLinesMislead(d);
    } else {
      var before, event := BluntDecorationsMislead(d);
    }
  }

  // ---------------------------------------------------------------------------------------------
  // What is reported
  // ---------------------------------------------------------------------------------------------

  /** The report is on this call: under its callee's name, a method behind its receiver, and its line. */
  ghost predicate IsReportOf(r: SinkReport, event: Event) {
    match event
    case Call(_, line, callee, _) => r == SinkReport(callee, line)
    case MethodCall(_, line, receiver, name, _) => r == SinkReport(receiver + "." + name, line)
    case Assignment(_, _, _, _, _, _, _) => false
  }

  ghost predicate IsReported(d: Decorations, events: seq<Event>, k: nat, r: SinkReport)
    requires k < |events|
  {
    IsReportOf(r, events[k]) && Flagged(d, events[..k], events[k])
  }

  lemma {:induction false} ReportsAreFlags(d: Decorations, events: seq<Event>, r: SinkReport)
    ensures r in ReportsOf(d, events) <==> exists k: nat :: k < |events| && IsReported(d, events, k, r)
    decreases |events|
  {
    if events == [] {
    } else {
      var last, before := |events| - 1, events[..|events| - 1];
      ReportsAreFlags(d, before, r);
      forall k: nat | k < last ensures IsReported(d, before, k, r) <==> IsReported(d, events, k, r) {
        assert before[..k] == events[..k];
      }
      assert r in ReportsOf(d, events) <==> r in ReportsOf(d, before) || IsReported(d, events, last, r);
    }
  }

  /** With sharp decorators the reports are on the calls into whose arguments a source flows that their sink asks about. */
  lemma ReportsAreFlows(d: Decorations, events: seq<Event>, r: SinkReport)
    requires Sharp(d) && WellFormed(events) && (OwnLines(d, events) || LinesAreHarmless(d))
    ensures r in ReportsOf(d, events) <==>
      exists k: nat :: k < |events| && IsReportOf(r, events[k]) && Reached(d, events[..k], events[k])
  {
    SharpByContexts(d);
    LinesByContexts(d);
    ReportsAreFlags(d, events, r);
    forall k: nat | k < |events| && IsReportOf(r, events[k])
      ensures IsReported(d, events, k, r) <==> Reached(d, events[..k], events[k])
    {
      PrefixIsFine(d, events, k);
      FlaggedIffReached(d, events[..k], events[k]);
    }
  }

  /** The call `sink(source())` outside any function. */
  function SinkOfSource(sink: string, source: string, line: nat): Event {
    Event.Call(None, line, sink, [Expr(Some(source), None, None, None, [], [])])
  }

  /** A source passed straight to a sink is reported if and only if two of their contexts are equal or one of the two is bare. */
  lemma SinkOfSourceIsReportedIff(d: Decorations, sink: string, source: string, line: nat)
    requires forall c :: !FunctionFact(d, Some(source), TaintFact(Sanitizer, c))
    ensures ReportsOf(d, SortEvents([SinkOfSource(sink, source, line)])) ==
      if exists c, s :: FunctionFact(d, Some(source), TaintFact(Source, c)) && FunctionFact(d, Some(sink), TaintFact(Sink, s)) && (c == s || c == None || s == None)
      then [SinkReport(sink, line)] else []
  {
    var event := SinkOfSource(sink, source, line);
    var e := event.args[0];
    assert [event][..0] == [] && SortEvents([event]) == [event];
    forall c
      ensures c in d.FunctionContexts(e.callee, Source) <==> FunctionFact(d, e.callee, TaintFact(Source, c))
      ensures c in event.SinkContexts(d) <==> FunctionFact(d, Some(sink), TaintFact(Sink, c))
      ensures c !in SanitizedBy(d, e)
    {
      ContextsAreFacts(d, e, Source, c);
      SinksAreFacts(d, event, c);
      SanitizersAreFacts(d, e, c);
    }
    assert TaintOf(d, e, EnvAt(d, [], None)) == d.FunctionContexts(e.callee, Source) && Residue(d, e, Some(event.SinkContexts(d))) == {};
    assert Flagged(d, [], event) <==> exists c, s :: c in d.FunctionContexts(e.callee, Source) && s in event.SinkContexts(d) && ContextMatches(c, s);
  }
}
