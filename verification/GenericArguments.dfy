/** Splitting the arguments of a generic owner type over its type parameters. */
module GenericArguments {
  import opened Prelude
  import opened SemanticTypes

  datatype TypeParamKind = TypeVar | TypeVarTuple | ParamSpec
  datatype TypeParam = TypeParam(name: string, kind: TypeParamKind)

  /** What one type parameter receives. */
  datatype Binding = TypeBinding(name: string, ty: SemanticType) | PackBinding(name: string, types: seq<SemanticType>)

  datatype Substitutions = Substitutions(types: map<string, SemanticType>, packs: map<string, seq<SemanticType>>) {
    function Insert(b: Binding): Substitutions {
      match b
      case TypeBinding(name, ty) => Substitutions(types[name := ty], packs)
      case PackBinding(name, pack) => Substitutions(types, packs[name := pack])
    }

    function MergedWith(later: Substitutions): Substitutions {
      Substitutions(types + later.types, packs + later.packs)
    }
  }

  const NO_SUBSTITUTIONS := Substitutions(map[], map[])

  function Collect(bindings: seq<Binding>): Substitutions {
    if bindings == [] then NO_SUBSTITUTIONS
    else NO_SUBSTITUTIONS.Insert(bindings[0]).MergedWith(Collect(bindings[1..]))
  }

  lemma {:induction false} CollectSnoc(bindings: seq<Binding>, b: Binding)
    ensures Collect(bindings + [b]) == Collect(bindings).Insert(b)
    decreases |bindings|
  {
    if bindings == [] {
      assert bindings + [b] == [b];
    } else {
      assert (bindings + [b])[1..] == bindings[1..] + [b];
      CollectSnoc(bindings[1..], b);
      InsertLast(NO_SUBSTITUTIONS.Insert(bindings[0]), Collect(bindings[1..]), b);
    }
  }

  lemma InsertLast(first: Substitutions, rest: Substitutions, b: Binding)
    ensures first.MergedWith(rest.Insert(b)) == first.MergedWith(rest).Insert(b)
  {
    match b
    case TypeBinding(name, ty) =>
      assert first.types + rest.types[name := ty] == (first.types + rest.types)[name := ty];
    case PackBinding(name, types) =>
      assert first.packs + rest.packs[name := types] == (first.packs + rest.packs)[name := types];
  }

  function CountKind(params: seq<TypeParam>, kind: TypeParamKind): nat {
    if params == [] then 0 else (if params[0].kind == kind then 1 else 0) + CountKind(params[1..], kind)
  }

  /** The parameters that are not type-variable tuples; ParamSpecs are among them. */
  function NonPackCount(params: seq<TypeParam>): nat {
    CountKind(params, TypeVar) + CountKind(params, ParamSpec)
  }

  function SaturatingSub(a: nat, b: nat): nat {
    if a >= b then a - b else 0
  }

  /**
   How the parameters `params` consume `args` from `argIndex` on: a type variable takes one argument and
   the walk ends when there is none, a pack leaves one argument for every later non-pack parameter.  None
   stands for a slice whose start lies beyond its end.
   */
  function BindFrom(params: seq<TypeParam>, args: seq<SemanticType>, argIndex: nat): Option<seq<Binding>>
    requires argIndex <= |args|
    decreases |params|
  {
    if params == [] then Some([])
    else
      match params[0].kind
      case TypeVar =>
        if argIndex == |args| then Some([])
        else Prepend(TypeBinding(params[0].name, args[argIndex]), BindFrom(params[1..], args, argIndex + 1))
      case TypeVarTuple =>
        var packEnd := SaturatingSub(|args|, NonPackCount(params[1..]));
        if packEnd < argIndex then None
        else Prepend(PackBinding(params[0].name, args[argIndex..packEnd]), BindFrom(params[1..], args, packEnd))
      case ParamSpec => BindFrom(params[1..], args, argIndex)
  }

  function Prepend(b: Binding, rest: Option<seq<Binding>>): Option<seq<Binding>> {
    match rest
    case Some(bindings) => Some([b] + bindings)
    case None => None
  }

  method CountNonPack(params: seq<TypeParam>) returns (count: nat)
    ensures count == NonPackCount(params)
  {
    count := 0;
    var i := |params|;
    while i > 0
      invariant 0 <= i <= |params|
      invariant count == NonPackCount(params[i..])
    {
      i := i - 1;
      assert params[i..][1..] == params[i + 1..] && params[i..][0] == params[i];
      if !params[i].kind.TypeVarTuple? {
        count := count + 1;
      }
    }
    assert params[0..] == params;
  }

  /** The loop of `owner_generic_substitutions` over already expanded arguments; None when a slice panics. */
  method BindTypeParams(params: seq<TypeParam>, args: seq<SemanticType>) returns (substitutions: Option<Substitutions>)
    ensures substitutions == match BindFrom(params, args, 0) case None => None case Some(bindings) => Some(Collect(bindings))
  {
    var bound := NO_SUBSTITUTIONS;
    var argIndex: nat := 0;
    ghost var done: seq<Binding> := [];
    var index := 0;
    assert params[0..] == params;
    assert forall bindings: seq<Binding> :: [] + bindings == bindings;
    while index < |params|
      invariant 0 <= index <= |params| && argIndex <= |args|
      invariant bound == Collect(done)
      invariant BindFrom(params, args, 0) == PrependAll(done, BindFrom(params[index..], args, argIndex))
    {
      var param := params[index];
      ghost var rest := params[index + 1..];
      assert params[index..][0] == param && params[index..][1..] == rest;
      match param.kind {
        case TypeVar =>
          if argIndex == |args| {
            assert done + [] == done;
            break;
          }
          var binding := TypeBinding(param.name, args[argIndex]);
          PrependOne(done, binding, BindFrom(rest, args, argIndex + 1));
          CollectSnoc(done, binding);
          bound, done, argIndex := bound.Insert(binding), done + [binding], argIndex + 1;
        case TypeVarTuple =>
          var trailing := CountNonPack(params[index + 1..]);
          var packEnd := SaturatingSub(|args|, trailing);
          if packEnd < argIndex {
            return None;
          }
          var binding := PackBinding(param.name, args[argIndex..packEnd]);
          PrependOne(done, binding, BindFrom(rest, args, packEnd));
          CollectSnoc(done, binding);
          bound, done, argIndex := bound.Insert(binding), done + [binding], packEnd;
        case ParamSpec =>
      }
      index := index + 1;
    }
    assert done + [] == done;
    substitutions := Some(bound);
  }

  function PrependAll(done: seq<Binding>, rest: Option<seq<Binding>>): Option<seq<Binding>> {
    match rest
    case Some(bindings) => Some(done + bindings)
    case None => None
  }

  lemma PrependOne(done: seq<Binding>, b: Binding, rest: Option<seq<Binding>>)
    ensures PrependAll(done, Prepend(b, rest)) == PrependAll(done + [b], rest)
  {
    if rest.Some? {
      assert done + ([b] + rest.value) == done + [b] + rest.value;
    }
  }

  function StripAnnotated(ty: SemanticType): SemanticType {
    match ty
    case Annotated(value, _) => StripAnnotated(value)
    case _ => ty
  }

  /** The type with annotations around it, the first one innermost. */
  ghost function AnnotatedWith(ty: SemanticType, layers: seq<seq<string>>): SemanticType {
    if layers == [] then ty else Annotated(AnnotatedWith(ty, layers[..|layers| - 1]), layers[|layers| - 1])
  }

  /** All annotations come off, and nothing else does. */
  lemma {:induction false} AnnotationsComeOff(ty: SemanticType, layers: seq<seq<string>>)
    requires !ty.Annotated?
    ensures StripAnnotated(AnnotatedWith(ty, layers)) == ty
    decreases |layers|
  {
    if layers == [] {
    } else {
      AnnotationsComeOff(ty, layers[..|layers| - 1]);
    }
  }

  /**
   `owner_generic_substitutions`: nothing is bound unless the owner type is an application of the class
   itself; `expand` is the foreign expansion of unpacked arguments.
   */
  method OwnerGenericSubstitutions(ownerType: SemanticType, className: string, params: seq<TypeParam>,
                                   expand: seq<SemanticType> -> seq<SemanticType>)
    returns (substitutions: Option<Substitutions>)
    ensures var owner := StripAnnotated(ownerType);
      if params != [] && owner.Generic? && owner.head == className then
        substitutions == match BindFrom(params, expand(owner.args), 0) case None => None case Some(bindings) => Some(Collect(bindings))
      else substitutions == Some(NO_SUBSTITUTIONS)
  {
    var owner := StripAnnotated(ownerType);
    if params == [] || !owner.Generic? || owner.head != className {
      return Some(NO_SUBSTITUTIONS);
    }
    substitutions := BindTypeParams(params, expand(owner.args));
  }

  // ---------------------------------------------------------------------------------------------
  // Conservation
  // ---------------------------------------------------------------------------------------------

  /** The bound arguments in declaration order, packs spliced in; a parameter without a binding adds nothing. */
  function ReadBack(params: seq<TypeParam>, s: Substitutions): seq<SemanticType> {
    if params == [] then []
    else
      var name := params[0].name;
      (match params[0].kind
       case TypeVar => if name in s.types then [s.types[name]] else []
       case TypeVarTuple => if name in s.packs then s.packs[name] else []
       case ParamSpec => [])
      + ReadBack(params[1..], s)
  }

  function Flatten(bindings: seq<Binding>): seq<SemanticType> {
    if bindings == [] then []
    else (match bindings[0] case TypeBinding(_, ty) => [ty] case PackBinding(_, types) => types) + Flatten(bindings[1..])
  }

  ghost predicate DistinctNames(params: seq<TypeParam>) {
    forall i, j :: 0 <= i < j < |params| ==> params[i].name != params[j].name
  }

  /** Only names of the parameters are bound. */
  lemma {:induction false} BoundNamesAreDeclared(params: seq<TypeParam>, args: seq<SemanticType>, argIndex: nat, name: string)
    requires argIndex <= |args| && BindFrom(params, args, argIndex).Some?
    requires forall i :: 0 <= i < |params| ==> params[i].name != name
    ensures var s := Collect(BindFrom(params, args, argIndex).value); name !in s.types && name !in s.packs
    decreases |params|
  {
    if params == [] {
    } else {
      var rest := params[1..];
      match params[0].kind
      case TypeVar =>
        if argIndex < |args| {
          BoundNamesAreDeclared(rest, args, argIndex + 1, name);
        }
      case TypeVarTuple =>
        BoundNamesAreDeclared(rest, args, SaturatingSub(|args|, NonPackCount(rest)), name);
      case ParamSpec =>
        BoundNamesAreDeclared(rest, args, argIndex, name);
    }
  }

  /** A binding for a name the parameters do not use is not read. */
  lemma {:induction false} ReadBackIgnores(params: seq<TypeParam>, b: Binding, s: Substitutions)
    requires forall i :: 0 <= i < |params| ==> params[i].name != b.name
    ensures ReadBack(params, NO_SUBSTITUTIONS.Insert(b).MergedWith(s)) == ReadBack(params, s)
    decreases |params|
  {
    if params == [] {
    } else {
      ReadBackIgnores(params[1..], b, s);
    }
  }

  lemma {:induction false} ReadBackNothing(params: seq<TypeParam>)
    ensures ReadBack(params, NO_SUBSTITUTIONS) == []
    decreases |params|
  {
    if params == [] {
    } else {
      ReadBackNothing(params[1..]);
    }
  }

  /** Reading the substitutions back gives the bindings in order. */
  lemma {:induction false} ReadBackFlattens(params: seq<TypeParam>, args: seq<SemanticType>, argIndex: nat)
    requires DistinctNames(params) && argIndex <= |args| && BindFrom(params, args, argIndex).Some?
    ensures ReadBack(params, Collect(BindFrom(params, args, argIndex).value)) == Flatten(BindFrom(params, args, argIndex).value)
    decreases |params|
  {
    if params == [] {
    } else {
      var rest := params[1..];
      assert forall i :: 0 <= i < |rest| ==> rest[i] == params[i + 1] && rest[i].name != params[0].name;
      match params[0].kind
      case TypeVar =>
        if argIndex == |args| {
          ReadBackNothing(params);
        } else {
          ReadBackHead(params, TypeBinding(params[0].name, args[argIndex]), args, argIndex + 1);
        }
      case TypeVarTuple =>
        var packEnd := SaturatingSub(|args|, NonPackCount(rest));
        ReadBackHead(params, PackBinding(params[0].name, args[argIndex..packEnd]), args, packEnd);
      case ParamSpec =>
        ReadBackFlattens(rest, args, argIndex);
    }
  }

  lemma {:induction false} ReadBackHead(params: seq<TypeParam>, b: Binding, args: seq<SemanticType>, next: nat)
    requires params != [] && DistinctNames(params) && next <= |args| && BindFrom(params[1..], args, next).Some?
    requires forall i :: 0 <= i < |params[1..]| ==> params[1..][i].name != params[0].name
    requires b.name == params[0].name && params[0].kind == (if b.TypeBinding? then TypeVar else TypeVarTuple)
    ensures var bindings := [b] + BindFrom(params[1..], args, next).value;
      ReadBack(params, Collect(bindings)) == Flatten(bindings)
    decreases |params|, 0
  {
    var rest := params[1..];
    var later := BindFrom(rest, args, next).value;
    ReadBackFlattens(rest, args, next);
    BoundNamesAreDeclared(rest, args, next, b.name);
    ReadBackIgnores(rest, b, Collect(later));
    assert ([b] + later)[1..] == later;
  }

  /** Without packs the type variables take a prefix of the remaining arguments. */
  lemma {:induction false} PlainParamsTakePrefix(params: seq<TypeParam>, args: seq<SemanticType>, argIndex: nat)
    requires CountKind(params, TypeVarTuple) == 0 && argIndex <= |args|
    ensures BindFrom(params, args, argIndex).Some?
    ensures var end := argIndex + CountKind(params, TypeVar);
      Flatten(BindFrom(params, args, argIndex).value) == args[argIndex..if end < |args| then end else |args|]
    decreases |params|
  {
    if params == [] {
    } else {
      if params[0].kind.TypeVar? && argIndex < |args| {
        PlainParamsTakePrefix(params[1..], args, argIndex + 1);
        var rest := BindFrom(params[1..], args, argIndex + 1).value;
        assert ([TypeBinding(params[0].name, args[argIndex])] + rest)[1..] == rest;
      } else if params[0].kind.ParamSpec? {
        PlainParamsTakePrefix(params[1..], args, argIndex);
      }
    }
  }

  /** The parameters before and after the only pack. */
  ghost predicate OnePackAt(params: seq<TypeParam>, p: nat) {
    p < |params| && params[p].kind.TypeVarTuple? && forall i :: 0 <= i < |params| && params[i].kind.TypeVarTuple? ==> i == p
  }

  lemma {:induction false} NoPackNoCount(params: seq<TypeParam>)
    requires forall i :: 0 <= i < |params| ==> !params[i].kind.TypeVarTuple?
    ensures CountKind(params, TypeVarTuple) == 0
    decreases |params|
  {
    if params == [] {
    } else {
      NoPackNoCount(params[1..]);
    }
  }

  /**
   What one pack at position `p` makes of the arguments from `argIndex` on: running out before the pack binds
   what is left; too few arguments behind it make the slice panic, unless nothing was taken before it, in which
   case the type variables behind it take what there is; and otherwise exactly the ParamSpecs behind the pack cost
   one argument each.
   */
  ghost predicate SplitsAroundPack(params: seq<TypeParam>, args: seq<SemanticType>, argIndex: nat, p: nat)
    requires p < |params| && argIndex <= |args|
  {
    var left, lead, trail := |args| - argIndex, CountKind(params[..p], TypeVar), NonPackCount(params[p + 1..]);
    && (BindFrom(params, args, argIndex).None? <==> lead <= left < lead + trail && argIndex + lead > 0)
    && (left < lead ==> Flatten(BindFrom(params, args, argIndex).value) == args[argIndex..])
    && (lead + trail <= left ==>
          Flatten(BindFrom(params, args, argIndex).value) == args[argIndex..|args| - CountKind(params[p + 1..], ParamSpec)])
    && (argIndex + lead == 0 && left < trail ==>
          Flatten(BindFrom(params, args, argIndex).value) == FirstOf(args, CountKind(params[p + 1..], TypeVar)))
  }

  function FirstOf(args: seq<SemanticType>, count: nat): seq<SemanticType> {
    args[..if count < |args| then count else |args|]
  }

  lemma PackFirst(params: seq<TypeParam>, args: seq<SemanticType>, argIndex: nat)
    requires OnePackAt(params, 0) && argIndex <= |args|
    ensures SplitsAroundPack(params, args, argIndex, 0)
  {
    var rest := params[1..];
    assert params[..0] == [];
    forall i | 0 <= i < |rest|
      ensures !rest[i].kind.TypeVarTuple?
    {
      assert rest[i] == params[i + 1];
    }
    NoPackNoCount(rest);
    var packEnd := SaturatingSub(|args|, NonPackCount(rest));
    if argIndex <= packEnd {
      PlainParamsTakePrefix(rest, args, packEnd);
      var later := BindFrom(rest, args, packEnd).value;
      var b := PackBinding(params[0].name, args[argIndex..packEnd]);
      assert ([b] + later)[1..] == later;
    }
  }

  /** A parameter before the pack only shifts the arguments. */
  lemma PackLater(params: seq<TypeParam>, args: seq<SemanticType>, argIndex: nat, p: nat)
    requires OnePackAt(params, p) && p > 0 && argIndex <= |args|
    requires params[0].kind.ParamSpec? ==> SplitsAroundPack(params[1..], args, argIndex, p - 1)
    requires params[0].kind.TypeVar? && argIndex < |args| ==> SplitsAroundPack(params[1..], args, argIndex + 1, p - 1)
    ensures SplitsAroundPack(params, args, argIndex, p)
  {
    var rest := params[1..];
    assert rest[..p - 1] == params[..p][1..] && rest[p - 1 + 1..] == params[p + 1..];
    assert CountKind(params[..p], TypeVar) == (if params[0].kind.TypeVar? then 1 else 0) + CountKind(rest[..p - 1], TypeVar);
    if params[0].kind.TypeVar? && argIndex < |args| && BindFrom(rest, args, argIndex + 1).Some? {
      var later := BindFrom(rest, args, argIndex + 1).value;
      assert ([TypeBinding(params[0].name, args[argIndex])] + later)[1..] == later;
      assert args[argIndex..] == [args[argIndex]] + args[argIndex + 1..];
    }
  }

  lemma {:induction false} OnePackSplits(params: seq<TypeParam>, args: seq<SemanticType>, argIndex: nat, p: nat)
    requires OnePackAt(params, p) && argIndex <= |args|
    ensures SplitsAroundPack(params, args, argIndex, p)
    decreases |params|
  {
    if p == 0 {
      PackFirst(params, args, argIndex);
    } else {
      var rest := params[1..];
      assert rest[p - 1] == params[p];
      forall i | 0 <= i < |rest| && rest[i].kind.TypeVarTuple?
        ensures i == p - 1
      {
        assert rest[i] == params[i + 1];
      }
      OnePackSplits(rest, args, argIndex, p - 1);
      if argIndex < |args| {
        OnePackSplits(rest, args, argIndex + 1, p - 1);
      }
      PackLater(params, args, argIndex, p);
    }
  }

  /**
   Slices stay in range exactly when the arguments cover the parameters around the pack, or do not even reach
   it, or no type variable stands before it.
   */
  lemma SlicesInRangeIff(params: seq<TypeParam>, args: seq<SemanticType>, p: nat)
    requires OnePackAt(params, p)
    ensures var lead := CountKind(params[..p], TypeVar);
      BindFrom(params, args, 0).Some? <==> |args| < lead || lead == 0 || lead + NonPackCount(params[p + 1..]) <= |args|
  {
    OnePackSplits(params, args, 0, p);
  }

  /** Every slice is in range, and reading the bindings back in declaration order gives the argument list. */
  ghost predicate Conserved(params: seq<TypeParam>, args: seq<SemanticType>) {
    var bindings := BindFrom(params, args, 0);
    bindings.Some? && ReadBack(params, Collect(bindings.value)) == args
  }

  /**
   Arguments are conserved if and only if they run out before the pack; or they cover the parameters around it and
   no ParamSpec follows it; or no type variable stands before the pack and those behind it take all the arguments.
   */
  lemma {:induction false} ArgumentsConservedIff(params: seq<TypeParam>, args: seq<SemanticType>, p: nat)
    requires OnePackAt(params, p) && DistinctNames(params)
    ensures var lead, after := CountKind(params[..p], TypeVar), params[p + 1..];
      Conserved(params, args) <==>
        || |args| < lead
        || (lead + NonPackCount(after) <= |args| && CountKind(after, ParamSpec) == 0)
        || (lead == 0 && |args| <= CountKind(after, TypeVar))
  {
    OnePackSplits(params, args, 0, p);
    if BindFrom(params, args, 0).Some? {
      ReadBackFlattens(params, args, 0);
    }
    assert args[0..] == args;
  }

  /** Without a pack, reading back gives the prefix the type variables have room for. */
  lemma {:induction false} PrefixConserved(params: seq<TypeParam>, args: seq<SemanticType>)
    requires CountKind(params, TypeVarTuple) == 0 && DistinctNames(params)
    ensures BindFrom(params, args, 0).Some?
    ensures var count := CountKind(params, TypeVar);
      ReadBack(params, Collect(BindFrom(params, args, 0).value)) == args[..if count < |args| then count else |args|]
  {
    PlainParamsTakePrefix(params, args, 0);
    ReadBackFlattens(params, args, 0);
  }
}
