/** Override compatibility of methods, along chains of classes and for callers. */
module OverrideCompatibility {
  import opened Prelude
  import opened SemanticTypes

  datatype MethodKind = Instance | ClassMethod | Static | Property | PropertySetter

  datatype Param = Param(
    name: string,
    annotation: Option<SemanticType>,
    hasDefault: bool,
    positionalOnly: bool,
    keywordOnly: bool,
    variadic: bool,
    keywordVariadic: bool
  ) {
    predicate SameModifiers(other: Param) {
      && positionalOnly == other.positionalOnly
      && keywordOnly == other.keywordOnly
      && variadic == other.variadic
      && keywordVariadic == other.keywordVariadic
      && hasDefault == other.hasDefault
    }

    /** May be filled by a positional argument of its own. */
    ghost predicate TakesPosition() {
      !keywordOnly && !variadic && !keywordVariadic
    }

    /** May be filled by a keyword argument of its own name. */
    ghost predicate TakesKeyword() {
      !positionalOnly && !variadic && !keywordVariadic
    }
  }

  datatype Signature = Signature(params: seq<Param>, returns_: Option<SemanticType>)

  datatype Member = Member(name: string, owner: Option<string>, methodKind: Option<MethodKind>, signature: Option<Signature>)

  datatype Failure =
    | ContextManagerArityMismatch
    | MethodKindMismatch
    | ParameterCountMismatch
    | ParameterModifierMismatch(name: string)
    | ParameterNameMismatch(child: string, base: string)
    | ParameterTypeMismatch(name: string)
    | ReturnTypeMismatch

  /** `assignable(expected, actual)`, as the checker decides it. */
  type Assignability = (SemanticType, SemanticType) -> bool

  // ---------------------------------------------------------------------------------------------
  // The check
  // ---------------------------------------------------------------------------------------------

  function Arity(m: Member): Option<nat> {
    if m.signature.Some? then Some(|m.signature.value.params|) else None
  }

  /** `__enter__` and `__exit__` of context managers are compared by arity only. */
  predicate IsContextManagerPair(member: Member, base: Member) {
    && member.name in {"__enter__", "__exit__"}
    && base.owner.Some? && base.owner.value in {"ContextManager", "AbstractContextManager"}
    && member.methodKind == Some(Instance) && base.methodKind == Some(Instance)
  }

  /** What is wrong with one parameter of the overriding member. */
  function ParamFailure(assignable: Assignability, child: Param, base: Param): Option<Failure> {
    if !child.SameModifiers(base) then Some(ParameterModifierMismatch(child.name))
    else if child.name != base.name then Some(ParameterNameMismatch(child.name, base.name))
    else if child.annotation.Some? && base.annotation.Some? && !assignable(child.annotation.value, base.annotation.value)
    then Some(ParameterTypeMismatch(child.name))
    else None
  }

  // ---------------------------------------------------------------------------------------------
  // What the check must find
  // ---------------------------------------------------------------------------------------------

  /** Bound alike: in the same way, with or without a default. */
  ghost predicate BindsAlike(child: Param, base: Param) {
    && (child.positionalOnly <==> base.positionalOnly) && (child.keywordOnly <==> base.keywordOnly)
    && (child.variadic <==> base.variadic) && (child.keywordVariadic <==> base.keywordVariadic)
    && (child.hasDefault <==> base.hasDefault)
  }

  /** What the base parameter is annotated with is assignable to what the overriding one is annotated with. */
  ghost predicate AnnotatedAlike(assignable: Assignability, child: Param, base: Param) {
    child.annotation.Some? && base.annotation.Some? ==> assignable(child.annotation.value, base.annotation.value)
  }

  ghost predicate ParamCompatible(assignable: Assignability, child: Param, base: Param) {
    BindsAlike(child, base) && child.name == base.name && AnnotatedAlike(assignable, child, base)
  }

  ghost predicate ManagesContext(member: Member, base: Member) {
    && (member.name == "__enter__" || member.name == "__exit__")
    && (base.owner == Some("ContextManager") || base.owner == Some("AbstractContextManager"))
    && member.methodKind == Some(Instance) && base.methodKind == Some(Instance)
  }

  ghost predicate SameCount(member: Member, base: Member) {
    if member.signature.Some? && base.signature.Some? then |member.signature.value.params| == |base.signature.value.params|
    else member.signature.None? && base.signature.None?
  }

  /** What an override must satisfy, parameter by parameter and for the result. */
  ghost predicate Compatible(assignable: Assignability, member: Member, base: Member) {
    if member.methodKind == base.methodKind && member.signature.Some? && member.signature == base.signature then true
    else if ManagesContext(member, base) then SameCount(member, base)
    else
      && member.methodKind == base.methodKind
      && (member.signature.Some? && base.signature.Some? ==> SignatureCompatible(assignable, member.signature.value, base.signature.value))
  }

  ghost predicate SignatureCompatible(assignable: Assignability, child: Signature, base: Signature) {
    && |child.params| == |base.params|
    && (forall i :: 0 <= i < |child.params| ==> ParamCompatible(assignable, child.params[i], base.params[i]))
    && (child.returns_.Some? && base.returns_.Some? ==> assignable(base.returns_.value, child.returns_.value))
  }

  /** The failure says what is wrong with the parameter: first how it is bound, then its name, then its annotation. */
  ghost predicate FailsAs(assignable: Assignability, child: Param, base: Param, failure: Failure) {
    match failure
    case ParameterModifierMismatch(name) => name == child.name && !BindsAlike(child, base)
    case ParameterNameMismatch(c, b) => c == child.name && b == base.name && c != b && BindsAlike(child, base)
    case ParameterTypeMismatch(name) => name == child.name == base.name && BindsAlike(child, base) && !AnnotatedAlike(assignable, child, base)
    case _ => false
  }

  lemma ParamFailureSays(assignable: Assignability, child: Param, base: Param)
    ensures ParamFailure(assignable, child, base).None? <==> ParamCompatible(assignable, child, base)
    ensures ParamFailure(assignable, child, base).Some? ==> FailsAs(assignable, child, base, ParamFailure(assignable, child, base).value)
  {
  }

  /** Parameter `i` is the first with something wrong, and the failure says what. */
  ghost predicate IsFirstParamFailure(assignable: Assignability, child: seq<Param>, base: seq<Param>, i: nat, failure: Failure)
    requires i < |child| == |base|
  {
    && FailsAs(assignable, child[i], base[i], failure)
    && forall j :: 0 <= j < i ==> ParamCompatible(assignable, child[j], base[j])
  }

  /** Beyond the kind of member: the two are compared by their signatures. */
  ghost predicate ComparesSignatures(member: Member, base: Member) {
    !ManagesContext(member, base) && member.methodKind == base.methodKind && member.signature.Some? && base.signature.Some?
  }

  /** The reason given is true of the pair, and none that comes before it is. */
  ghost predicate Explains(assignable: Assignability, member: Member, base: Member, failure: Failure) {
    match failure
    case ContextManagerArityMismatch => ManagesContext(member, base) && !SameCount(member, base)
    case MethodKindMismatch => !ManagesContext(member, base) && member.methodKind != base.methodKind
    case ParameterCountMismatch => ComparesSignatures(member, base) && !SameCount(member, base)
    case ReturnTypeMismatch =>
      && ComparesSignatures(member, base)
      && SignatureCompatible(assignable, member.signature.value.(returns_ := None), base.signature.value)
      && member.signature.value.returns_.Some? && base.signature.value.returns_.Some?
      && !assignable(base.signature.value.returns_.value, member.signature.value.returns_.value)
    case _ =>
      && ComparesSignatures(member, base) && SameCount(member, base)
      && exists i :: 0 <= i < |member.signature.value.params| &&
           IsFirstParamFailure(assignable, member.signature.value.params, base.signature.value.params, i, failure)
  }

  /** `method_override_incompatibility`: the first reason against the override, if there is one. */
  method MethodOverrideIncompatibility(assignable: Assignability, member: Member, base: Member) returns (failure: Option<Failure>)
    ensures failure.None? <==> Compatible(assignable, member, base)
    ensures failure.Some? ==> Explains(assignable, member, base, failure.value)
  {
    if member.methodKind == base.methodKind && member.signature.Some? && member.signature == base.signature {
      return None;
    }
    if IsContextManagerPair(member, base) {
      return if Arity(member) != Arity(base) then Some(ContextManagerArityMismatch) else None;
    }
    if member.methodKind != base.methodKind {
      return Some(MethodKindMismatch);
    }
    if member.signature.None? || base.signature.None? {
      return None;
    }
    var childParams, baseParams := member.signature.value.params, base.signature.value.params;
    if |childParams| != |baseParams| {
      return Some(ParameterCountMismatch);
    }
    for i := 0 to |childParams|
      invariant forall j :: 0 <= j < i ==> ParamCompatible(assignable, childParams[j], baseParams[j])
    {
      ParamFailureSays(assignable, childParams[i], baseParams[i]);
      failure := ParamFailure(assignable, childParams[i], baseParams[i]);
      if failure.Some? {
        assert IsFirstParamFailure(assignable, childParams, baseParams, i, failure.value);
        return;
      }
    }
    var childReturn, baseReturn := member.signature.value.returns_, base.signature.value.returns_;
    if childReturn.None? || baseReturn.None? {
      return None;
    }
    failure := if assignable(baseReturn.value, childReturn.value) then None else Some(ReturnTypeMismatch);
  }

  // ---------------------------------------------------------------------------------------------
  // Chains of overrides
  // ---------------------------------------------------------------------------------------------

  ghost predicate IsPreorder(assignable: Assignability) {
    && (forall t :: assignable(t, t))
    && (forall a, b, c :: assignable(a, b) && assignable(b, c) ==> assignable(a, c))
  }

  /** A place in a signature where an annotation may stand. */
  datatype Spot = Parameter(index: nat) | Result {
    predicate In(s: Signature) {
      Parameter? ==> index < |s.params|
    }

    predicate AnnotatedIn(s: Signature) {
      match this
      case Parameter(i) => i < |s.params| && s.params[i].annotation.Some?
      case Result => s.returns_.Some?
    }

    predicate AnnotatedBy(m: Member) {
      m.signature.Some? && AnnotatedIn(m.signature.value)
    }
  }

  /** Where both neighbours are annotated, the member between them is; a receiver that no class annotates does not matter. */
  ghost predicate Bridges(low: Member, middle: Member, high: Member) {
    low.signature.Some? && high.signature.Some? ==>
      middle.signature.Some? && forall spot: Spot :: spot.AnnotatedBy(low) && spot.AnnotatedBy(high) ==> spot.AnnotatedBy(middle)
  }

  /** Outside the arity-only rule for context managers. */
  ghost predicate Ordinary(m: Member) {
    m.name !in {"__enter__", "__exit__"}
  }

  lemma {:induction false} SelfCompatible(assignable: Assignability, s: Signature)
    requires IsPreorder(assignable)
    ensures SignatureCompatible(assignable, s, s)
  {
  }

  /** Outside the arity-only rule the identical-signature shortcut changes nothing. */
  lemma CompatibleMeansSignatures(assignable: Assignability, member: Member, base: Member)
    requires IsPreorder(assignable) && Ordinary(member)
    ensures Compatible(assignable, member, base) <==>
      && member.methodKind == base.methodKind
      && (member.signature.Some? && base.signature.Some? ==> SignatureCompatible(assignable, member.signature.value, base.signature.value))
  {
    if member.signature.Some? {
      SelfCompatible(assignable, member.signature.value);
    }
  }

  /** Compatibility is transitive through a member that is annotated wherever both its neighbours are. */
  lemma CompatibleThroughAnnotated(assignable: Assignability, low: Member, middle: Member, high: Member)
    requires IsPreorder(assignable) && Bridges(low, middle, high) && Ordinary(low) && Ordinary(middle)
    requires Compatible(assignable, low, middle) && Compatible(assignable, middle, high)
    ensures Compatible(assignable, low, high)
  {
    CompatibleMeansSignatures(assignable, low, middle);
    CompatibleMeansSignatures(assignable, middle, high);
    CompatibleMeansSignatures(assignable, low, high);
    if low.signature.Some? && high.signature.Some? {
      var a, b, c := low.signature.value.params, middle.signature.value.params, high.signature.value.params;
      forall i: nat | i < |a|
        ensures ParamCompatible(assignable, a[i], c[i])
      {
        assert ParamCompatible(assignable, a[i], b[i]) && ParamCompatible(assignable, b[i], c[i]);
        assert Parameter(i).AnnotatedBy(low) && Parameter(i).AnnotatedBy(high) ==> Parameter(i).AnnotatedBy(middle);
      }
      assert Result.AnnotatedBy(low) && Result.AnnotatedBy(high) ==> Result.AnnotatedBy(middle);
    }
  }

  /** Members of one name that pass their direct checks around `middle`, and share annotated spots among `spots` only. */
  ghost predicate AreNeighbours(assignable: Assignability, low: Member, middle: Member, high: Member, spots: iset<Spot>) {
    && low.name == middle.name == high.name
    && Compatible(assignable, low, middle) && Compatible(assignable, middle, high)
    && forall spot: Spot :: spot.AnnotatedBy(low) && spot.AnnotatedBy(high) ==> spot in spots
  }

  /** Direct checks on both sides of a member compose, for all its neighbours. */
  ghost predicate ComposesThrough(assignable: Assignability, middle: Member, spots: iset<Spot>) {
    forall low: Member, high: Member :: AreNeighbours(assignable, low, middle, high, spots) ==> Compatible(assignable, low, high)
  }

  /** The member has a signature and annotates those of its spots that are among `spots`. */
  ghost predicate Annotates(m: Member, spots: iset<Spot>) {
    m.signature.Some? && forall spot: Spot :: spot in spots && spot.In(m.signature.value) ==> spot.AnnotatedBy(m)
  }

  /** The signature with one annotation put in. */
  function Annotated(s: Signature, spot: Spot, ty: SemanticType): Signature
    requires spot.In(s)
  {
    match spot
    case Parameter(i) => s.(params := s.params[i := s.params[i].(annotation := Some(ty))])
    case Result => s.(returns_ := Some(ty))
  }

  /** The signature without any annotation. */
  function Bare(s: Signature): Signature {
    Signature(seq(|s.params|, i requires 0 <= i < |s.params| => s.params[i].(annotation := None)), None)
  }

  /** Two signatures, annotated at one spot only and with clashing types, both agree with one unannotated there. */
  lemma AnnotateOne(assignable: Assignability, s: Signature, spot: Spot, wide: SemanticType, other: SemanticType)
    returns (low: Signature, high: Signature)
    requires !assignable(other, wide) && spot.In(s) && !spot.AnnotatedIn(s)
    ensures SignatureCompatible(assignable, low, s) && SignatureCompatible(assignable, s, high) && !SignatureCompatible(assignable, low, high)
    ensures forall x: Spot :: x.AnnotatedIn(low) ==> x == spot
  {
    var below, above := if spot.Parameter? then other else wide, if spot.Parameter? then wide else other;
    low, high := Annotated(Bare(s), spot, below), Annotated(Bare(s), spot, above);
    if spot.Parameter? {
      assert !ParamCompatible(assignable, low.params[spot.index], high.params[spot.index]);
    }
  }

  /** A member left unannotated at a spot has neighbours that each pass their check and yet clash there. */
  lemma UnannotatedHidesClash(assignable: Assignability, middle: Member, spots: iset<Spot>, wide: SemanticType, other: SemanticType)
    returns (low: Member, high: Member)
    requires IsPreorder(assignable) && Ordinary(middle) && !Annotates(middle, spots) && !assignable(other, wide)
    ensures AreNeighbours(assignable, low, middle, high, spots) && !Compatible(assignable, low, high)
  {
    if middle.signature.None? {
      var p := Param("x", None, false, false, false, false, false);
      low, high := middle.(signature := Some(Signature([p], None))), middle.(signature := Some(Signature([], None)));
    } else {
      var s := middle.signature.value;
      var spot: Spot :| spot in spots && spot.In(s) && !spot.AnnotatedBy(middle);
      var lowSignature, highSignature := AnnotateOne(assignable, s, spot, wide, other);
      low, high := middle.(signature := Some(lowSignature)), middle.(signature := Some(highSignature));
    }
    CompatibleMeansSignatures(assignable, low, middle);
    CompatibleMeansSignatures(assignable, middle, high);
    CompatibleMeansSignatures(assignable, low, high);
  }

  /**
   Direct-base checks compose through a member exactly when it annotates every spot at which both neighbours may
   be annotated: all of them in general, all but the receiver where no class annotates its receiver.
   */
  lemma ComposesIffAnnotated(assignable: Assignability, middle: Member, spots: iset<Spot>, wide: SemanticType, other: SemanticType)
    requires IsPreorder(assignable) && Ordinary(middle) && !assignable(other, wide)
    ensures ComposesThrough(assignable, middle, spots) <==> Annotates(middle, spots)
  {
    if Annotates(middle, spots) {
      forall low: Member, high: Member | AreNeighbours(assignable, low, middle, high, spots)
        ensures Compatible(assignable, low, high)
      {
        CompatibleMeansSignatures(assignable, low, middle);
        CompatibleMeansSignatures(assignable, middle, high);
        CompatibleThroughAnnotated(assignable, low, middle, high);
      }
    } else {
      var low, high := UnannotatedHidesClash(assignable, middle, spots, wide, other);
    }
  }

  /**
   Members redeclared along a chain of classes, ancestor first, each checked against its direct base; what two
   members annotate, the members between them annotate.
   */
  ghost predicate CheckedChain(assignable: Assignability, chain: seq<Member>) {
    && |chain| > 0
    && (forall i :: 0 <= i < |chain| ==> Ordinary(chain[i]))
    && (forall i, j, k :: 0 <= i < j < k < |chain| ==> Bridges(chain[k], chain[j], chain[i]))
    && forall i :: 0 < i < |chain| ==> Compatible(assignable, chain[i], chain[i - 1])
  }

  /** Direct-base checks compose: the last member of the chain is compatible with the first. */
  lemma {:induction false} ChecksCompose(assignable: Assignability, chain: seq<Member>)
    requires IsPreorder(assignable) && CheckedChain(assignable, chain)
    ensures Compatible(assignable, chain[|chain| - 1], chain[0])
    decreases |chain|
  {
    var last := |chain| - 1;
    if last == 0 {
      CompatibleMeansSignatures(assignable, chain[0], chain[0]);
      if chain[0].signature.Some? {
        SelfCompatible(assignable, chain[0].signature.value);
      }
    } else if last > 1 {
      ChecksCompose(assignable, chain[..last]);
      assert Compatible(assignable, chain[last], chain[last - 1]);
      CompatibleThroughAnnotated(assignable, chain[last], chain[last - 1], chain[0]);
    }
  }

  // ---------------------------------------------------------------------------------------------
  // Callers
  // ---------------------------------------------------------------------------------------------

  /** The types of a call's positional and keyword arguments. */
  datatype Arguments = Arguments(positional: seq<SemanticType>, keywords: map<string, SemanticType>)

  /** The positional parameters before parameter `i`. */
  ghost function PositionsBefore(params: seq<Param>, i: nat): nat
    requires i <= |params|
  {
    if i == 0 then 0 else PositionsBefore(params, i - 1) + if params[i - 1].TakesPosition() then 1 else 0
  }

  /** Parameter `i` is filled by the positional argument of its rank. */
  ghost predicate FilledByPosition(params: seq<Param>, args: Arguments, i: nat)
    requires i < |params|
  {
    params[i].TakesPosition() && PositionsBefore(params, i) < |args.positional|
  }

  ghost predicate FilledByKeyword(params: seq<Param>, args: Arguments, i: nat)
    requires i < |params|
  {
    params[i].TakesKeyword() && params[i].name in args.keywords
  }

  ghost predicate Takes(assignable: Assignability, p: Param, argument: SemanticType) {
    p.annotation.Some? ==> assignable(p.annotation.value, argument)
  }

  ghost predicate HasKeyword(params: seq<Param>, name: string) {
    exists i :: 0 <= i < |params| && params[i].TakesKeyword() && params[i].name == name
  }

  ghost predicate TakesSurplus(assignable: Assignability, params: seq<Param>, argument: SemanticType) {
    exists i :: 0 <= i < |params| && params[i].variadic && Takes(assignable, params[i], argument)
  }

  ghost predicate TakesUnknown(assignable: Assignability, params: seq<Param>, argument: SemanticType) {
    exists i :: 0 <= i < |params| && params[i].keywordVariadic && Takes(assignable, params[i], argument)
  }

  /** The call binds: every argument finds a parameter of its type, no parameter is filled twice, none is left out. */
  ghost predicate Accepts(assignable: Assignability, params: seq<Param>, args: Arguments) {
    // Each parameter takes the arguments bound to it.
    && (forall i :: 0 <= i < |params| && FilledByPosition(params, args, i) ==> Takes(assignable, params[i], args.positional[PositionsBefore(params, i)]))
    && (forall i :: 0 <= i < |params| && FilledByKeyword(params, args, i) ==> Takes(assignable, params[i], args.keywords[params[i].name]))
    && (forall i :: 0 <= i < |params| ==> !(FilledByPosition(params, args, i) && FilledByKeyword(params, args, i)))
    // Parameters without a default are filled.
    && (forall i :: 0 <= i < |params| && !params[i].hasDefault && !params[i].variadic && !params[i].keywordVariadic ==>
          FilledByPosition(params, args, i) || FilledByKeyword(params, args, i))
    // Surplus positional arguments go to *args, unknown keywords to **kwargs.
    && (forall k :: PositionsBefore(params, |params|) <= k < |args.positional| ==> TakesSurplus(assignable, params, args.positional[k]))
    && (forall name :: name in args.keywords && !HasKeyword(params, name) ==> TakesUnknown(assignable, params, args.keywords[name]))
  }

  lemma {:induction false} SamePositions(assignable: Assignability, child: seq<Param>, base: seq<Param>, i: nat)
    requires |child| == |base| && i <= |child|
    requires forall j :: 0 <= j < |child| ==> ParamCompatible(assignable, child[j], base[j])
    ensures PositionsBefore(child, i) == PositionsBefore(base, i)
  {
    if i == 0 {
    } else {
      SamePositions(assignable, child, base, i - 1);
    }
  }

  /** An argument the base parameter takes is taken by a compatible child parameter. */
  lemma TakesOn(assignable: Assignability, child: Param, base: Param, argument: SemanticType)
    requires IsPreorder(assignable) && ParamCompatible(assignable, child, base)
    requires child.annotation.Some? ==> base.annotation.Some?
    ensures Takes(assignable, base, argument) ==> Takes(assignable, child, argument)
  {
  }

  // ---------------------------------------------------------------------------------------------
  // The verdict, told by arguments
  // ---------------------------------------------------------------------------------------------

  /** Where both are annotated, every argument the base parameter takes the overriding one takes. */
  ghost predicate TakesOver(assignable: Assignability, child: Param, base: Param) {
    child.annotation.Some? && base.annotation.Some? ==> forall argument :: Takes(assignable, base, argument) ==> Takes(assignable, child, argument)
  }

  lemma TakingMeansAnnotated(assignable: Assignability, child: Param, base: Param)
    requires IsPreorder(assignable)
    ensures TakesOver(assignable, child, base) <==> AnnotatedAlike(assignable, child, base)
  {
    if child.annotation.Some? && base.annotation.Some? {
      assert Takes(assignable, base, base.annotation.value);
    }
  }

  /** Same kind and, parameter by parameter, bound alike, named alike and taking over; the result may stand for the base's. */
  ghost predicate Substitutable(assignable: Assignability, member: Member, base: Member) {
    && member.methodKind == base.methodKind
    && (member.signature.Some? && base.signature.Some? ==>
          var c, b := member.signature.value.params, base.signature.value.params;
          && |c| == |b|
          && (forall i :: 0 <= i < |c| ==> BindsAlike(c[i], b[i]) && c[i].name == b[i].name && TakesOver(assignable, c[i], b[i]))
          && (member.signature.value.returns_.Some? && base.signature.value.returns_.Some? ==>
                assignable(base.signature.value.returns_.value, member.signature.value.returns_.value)))
  }

  /** Parameter `i` refuses an argument that the base's takes, and none before it does. */
  ghost predicate RefusesFirst(assignable: Assignability, child: seq<Param>, base: seq<Param>, i: nat)
    requires i < |child| == |base|
  {
    && !TakesOver(assignable, child[i], base[i])
    && forall j :: 0 <= j < i ==> TakesOver(assignable, child[j], base[j])
  }

  /**
   Where assignability is a preorder: outside the rule for context managers an override passes if and only if it may
   stand for its base; and a parameter is reported for its type only where it is the first to refuse an argument that the
   base parameter takes.
   */
  lemma VerdictTellsSubstitution(assignable: Assignability, member: Member, base: Member, failure: Option<Failure>)
    requires IsPreorder(assignable)
    requires failure.None? <==> Compatible(assignable, member, base)
    requires failure.Some? ==> Explains(assignable, member, base, failure.value)
    ensures !ManagesContext(member, base) ==> (failure.None? <==> Substitutable(assignable, member, base))
    ensures failure.Some? && failure.value.ParameterTypeMismatch? ==>
      && member.signature.Some? && base.signature.Some?
      && |member.signature.value.params| == |base.signature.value.params|
      && exists i :: 0 <= i < |member.signature.value.params| && member.signature.value.params[i].name == failure.value.name
                     && RefusesFirst(assignable, member.signature.value.params, base.signature.value.params, i)
  {
    forall child, b ensures TakesOver(assignable, child, b) <==> AnnotatedAlike(assignable, child, b) {
      TakingMeansAnnotated(assignable, child, b);
    }
    if failure.Some? && failure.value.ParameterTypeMismatch? {
      var c, b := member.signature.value.params, base.signature.value.params;
      var i :| 0 <= i < |c| && IsFirstParamFailure(assignable, c, b, i, failure.value);
      assert RefusesFirst(assignable, c, b, i);
    }
    if !ManagesContext(member, base) && member.signature.Some? {
      SelfCompatible(assignable, member.signature.value);
    }
  }

  /** No parameter is annotated in the override alone; receivers are usually annotated in neither. */
  ghost predicate AnnotatesNoMore(child: Signature, base: Signature) {
    forall i: nat :: Parameter(i).AnnotatedIn(child) ==> Parameter(i).AnnotatedIn(base)
  }

  /** A compatible override accepts every call the base accepts, with a result of the base's return type. */
  lemma OverrideAcceptsCalls(assignable: Assignability, child: Signature, base: Signature, args: Arguments)
    requires IsPreorder(assignable) && SignatureCompatible(assignable, child, base)
    requires AnnotatesNoMore(child, base) && Accepts(assignable, base.params, args)
    ensures Accepts(assignable, child.params, args)
    ensures child.returns_.Some? && base.returns_.Some? ==> assignable(base.returns_.value, child.returns_.value)
  {
    var c, b := child.params, base.params;
    forall i: nat | i < |c|
      ensures PositionsBefore(c, i) == PositionsBefore(b, i)
      ensures FilledByPosition(c, args, i) <==> FilledByPosition(b, args, i)
      ensures FilledByKeyword(c, args, i) <==> FilledByKeyword(b, args, i)
      ensures BindsAlike(c[i], b[i]) && c[i].name == b[i].name
      ensures forall argument :: Takes(assignable, b[i], argument) ==> Takes(assignable, c[i], argument)
    {
      assert ParamCompatible(assignable, c[i], b[i]);
      SamePositions(assignable, c, b, i);
      assert Parameter(i).AnnotatedIn(child) ==> Parameter(i).AnnotatedIn(base);
      forall argument {
        TakesOn(assignable, c[i], b[i], argument);
      }
    }
    SamePositions(assignable, c, b, |c|);
    assert TakesAsMuch(assignable, c, b);
    forall k | PositionsBefore(c, |c|) <= k < |args.positional|
      ensures TakesSurplus(assignable, c, args.positional[k])
    {
      SurplusGoesOn(assignable, c, b, args.positional[k]);
    }
    forall name | name in args.keywords && !HasKeyword(c, name)
      ensures TakesUnknown(assignable, c, args.keywords[name])
    {
      SameKeywords(assignable, c, b, name);
      SurplusGoesOn(assignable, c, b, args.keywords[name]);
    }
  }

  /** Same modifiers and names, and every argument of the base parameter is taken by the child's. */
  ghost predicate TakesAsMuch(assignable: Assignability, c: seq<Param>, b: seq<Param>) {
    && |c| == |b|
    && (forall i :: 0 <= i < |c| ==> BindsAlike(c[i], b[i]) && c[i].name == b[i].name)
    && forall i, argument :: 0 <= i < |c| && Takes(assignable, b[i], argument) ==> Takes(assignable, c[i], argument)
  }

  lemma SurplusGoesOn(assignable: Assignability, c: seq<Param>, b: seq<Param>, argument: SemanticType)
    requires TakesAsMuch(assignable, c, b)
    ensures TakesSurplus(assignable, b, argument) ==> TakesSurplus(assignable, c, argument)
    ensures TakesUnknown(assignable, b, argument) ==> TakesUnknown(assignable, c, argument)
  {
    if TakesSurplus(assignable, b, argument) {
      var i :| 0 <= i < |b| && b[i].variadic && Takes(assignable, b[i], argument);
      assert BindsAlike(c[i], b[i]) && Takes(assignable, c[i], argument);
    }
    if TakesUnknown(assignable, b, argument) {
      var i :| 0 <= i < |b| && b[i].keywordVariadic && Takes(assignable, b[i], argument);
      assert BindsAlike(c[i], b[i]) && Takes(assignable, c[i], argument);
    }
  }

  lemma SameKeywords(assignable: Assignability, c: seq<Param>, b: seq<Param>, name: string)
    requires TakesAsMuch(assignable, c, b)
    ensures HasKeyword(b, name) ==> HasKeyword(c, name)
  {
    if HasKeyword(b, name) {
      var i :| 0 <= i < |b| && b[i].TakesKeyword() && b[i].name == name;
      assert BindsAlike(c[i], b[i]) && c[i].TakesKeyword();
    }
  }

  /** Substitutability along a chain: what the ancestor accepts, the last class accepts, with an assignable result. */
  lemma ChainIsSubstitutable(assignable: Assignability, chain: seq<Member>, args: Arguments)
    requires IsPreorder(assignable) && CheckedChain(assignable, chain)
    requires var low, high := chain[|chain| - 1].signature, chain[0].signature;
      low.Some? && high.Some? && AnnotatesNoMore(low.value, high.value) && Accepts(assignable, high.value.params, args)
    ensures var low, high := chain[|chain| - 1].signature.value, chain[0].signature.value;
      && Accepts(assignable, low.params, args)
      && (low.returns_.Some? && high.returns_.Some? ==> assignable(high.returns_.value, low.returns_.value))
  {
    var high, low := chain[0], chain[|chain| - 1];
    ChecksCompose(assignable, chain);
    CompatibleMeansSignatures(assignable, low, high);
    OverrideAcceptsCalls(assignable, low.signature.value, high.signature.value, args);
  }
}
