/** Semantic types, their lowering and rendering, and the hash-consing type store. */
module SemanticTypes {
  import opened Prelude

  datatype UnionStyle = Explicit | Shorthand

  datatype TypeExpr =
    | NameExpr(name: string)
    | GenericExpr(head: string, args: seq<TypeExpr>)
    | CallableExpr(params: CallableParamExpr, returnType: TypeExpr)
    | UnionExpr(branches: seq<TypeExpr>, style: UnionStyle)
    | AnnotatedExpr(value: TypeExpr, metadata: seq<string>)
    | UnpackExpr(inner: TypeExpr)

  datatype CallableParamExpr =
    | EllipsisExpr
    | ParamListExpr(types: seq<TypeExpr>)
    | ConcatenateExpr(types: seq<TypeExpr>)
    | SingleExpr(single: TypeExpr)

  datatype SemanticType =
    | Name(name: string)
    | Generic(head: string, args: seq<SemanticType>)
    | Callable(params: SemanticCallableParams, returnType: SemanticType)
    | Union(branches: seq<SemanticType>)
    | Annotated(value: SemanticType, metadata: seq<string>)
    | Unpack(inner: SemanticType)

  datatype SemanticCallableParams =
    | Ellipsis
    | ParamList(types: seq<SemanticType>)
    | Concatenate(types: seq<SemanticType>)
    | Single(single: SemanticType)

  function Lower(e: TypeExpr): SemanticType
    decreases e
  {
    match e
    case NameExpr(name) => Name(name)
    case GenericExpr(head, args) => Generic(head, LowerAll(args))
    case CallableExpr(params, returnType) => Callable(LowerParams(params), Lower(returnType))
    case UnionExpr(branches, _) => Union(LowerAll(branches))
    case AnnotatedExpr(value, metadata) => Annotated(Lower(value), metadata)
    case UnpackExpr(inner) => Unpack(Lower(inner))
  }

  function LowerAll(es: seq<TypeExpr>): (types: seq<SemanticType>)
    ensures |types| == |es|
    decreases es
  {
    if es == [] then [] else [Lower(es[0])] + LowerAll(es[1..])
  }

  function LowerParams(params: CallableParamExpr): SemanticCallableParams
    decreases params
  {
    match params
    case EllipsisExpr => Ellipsis
    case ParamListExpr(types) => ParamList(LowerAll(types))
    case ConcatenateExpr(types) => Concatenate(LowerAll(types))
    case SingleExpr(single) => Single(Lower(single))
  }

  /** `semantic_type_to_type_expr`. */
  function ToExpr(t: SemanticType): TypeExpr
    decreases t
  {
    match t
    case Name(name) => NameExpr(name)
    case Generic(head, args) => GenericExpr(head, ToExprAll(args))
    case Callable(params, returnType) => CallableExpr(ToParamExpr(params), ToExpr(returnType))
    case Union(branches) => UnionExpr(ToExprAll(branches), Explicit)
    case Annotated(value, metadata) => AnnotatedExpr(ToExpr(value), metadata)
    case Unpack(inner) => UnpackExpr(ToExpr(inner))
  }

  function ToExprAll(ts: seq<SemanticType>): (es: seq<TypeExpr>)
    ensures |es| == |ts|
    decreases ts
  {
    if ts == [] then [] else [ToExpr(ts[0])] + ToExprAll(ts[1..])
  }

  function ToParamExpr(params: SemanticCallableParams): CallableParamExpr
    decreases params
  {
    match params
    case Ellipsis => EllipsisExpr
    case ParamList(types) => ParamListExpr(ToExprAll(types))
    case Concatenate(types) => ConcatenateExpr(ToExprAll(types))
    case Single(single) => SingleExpr(ToExpr(single))
  }

  /** Lowering undoes the way back to type expressions, without going through text. */
  lemma {:induction false} LowerAfterToExpr(t: SemanticType)
    ensures Lower(ToExpr(t)) == t
    decreases t
  {
    match t
    case Name(_) =>
    case Generic(_, args) =>
      LowerAllAfterToExprAll(args);
    case Callable(params, returnType) =>
      LowerParamsAfterToParamExpr(params);
      LowerAfterToExpr(returnType);
    case Union(branches) =>
      LowerAllAfterToExprAll(branches);
    case Annotated(value, _) =>
      LowerAfterToExpr(value);
    case Unpack(inner) =>
      LowerAfterToExpr(inner);
  }

  lemma {:induction false} LowerAllAfterToExprAll(ts: seq<SemanticType>)
    ensures LowerAll(ToExprAll(ts)) == ts
    decreases ts
  {
    if ts == [] {
    } else {
      LowerAfterToExpr(ts[0]);
      LowerAllAfterToExprAll(ts[1..]);
      assert ToExprAll(ts)[1..] == ToExprAll(ts[1..]);
    }
  }

  lemma {:induction false} LowerParamsAfterToParamExpr(params: SemanticCallableParams)
    ensures LowerParams(ToParamExpr(params)) == params
    decreases params
  {
    match params
    case Ellipsis =>
    case ParamList(types) =>
      LowerAllAfterToExprAll(types);
    case Concatenate(types) =>
      LowerAllAfterToExprAll(types);
    case Single(single) =>
      LowerAfterToExpr(single);
  }

  function JoinTexts(texts: seq<string>): string {
    JoinWith(texts, ", ")
  }

  function JoinWith(texts: seq<string>, separator: string): string {
    if texts == [] then ""
    else if |texts| == 1 then texts[0]
    else texts[0] + separator + JoinWith(texts[1..], separator)
  }

  /** `render_semantic_type`. */
  function Render(t: SemanticType): string
    decreases t
  {
    match t
    case Name(name) => name
    case Generic(head, args) => head + "[" + JoinTexts(RenderAll(args)) + "]"
    case Callable(params, returnType) => "Callable[" + RenderParams(params) + ", " + Render(returnType) + "]"
    case Union(branches) =>
      if |branches| == 1 then Render(branches[0]) else "Union[" + JoinTexts(RenderAll(branches)) + "]"
    case Annotated(value, metadata) =>
      if metadata == [] then "Annotated[" + Render(value) + "]"
      else "Annotated[" + Render(value) + ", " + JoinTexts(metadata) + "]"
    case Unpack(inner) => "Unpack[" + Render(inner) + "]"
  }

  function RenderAll(ts: seq<SemanticType>): seq<string>
    decreases ts
  {
    if ts == [] then [] else [Render(ts[0])] + RenderAll(ts[1..])
  }

  function RenderParams(params: SemanticCallableParams): string
    decreases params
  {
    match params
    case Ellipsis => "..."
    case ParamList(types) => "[" + JoinTexts(RenderAll(types)) + "]"
    case Concatenate(types) => "Concatenate[" + JoinTexts(RenderAll(types)) + "]"
    case Single(single) => Render(single)
  }

  // ---------------------------------------------------------------------------------------------
  // Texts of type expressions
  // ---------------------------------------------------------------------------------------------

  /** How names and generic heads are normalised when an expression is rendered. */
  datatype Spelling = Spelling(name: string -> string, head: string -> string)

  /** `TypeExpr::render`: unlike types, expressions normalise their names and keep the style of their unions. */
  function RenderExpr(sp: Spelling, e: TypeExpr): string
    decreases e
  {
    match e
    case NameExpr(name) => sp.name(name)
    case GenericExpr(head, args) => sp.head(head) + "[" + JoinTexts(RenderExprs(sp, args)) + "]"
    case CallableExpr(params, returnType) => "Callable[" + RenderParamExpr(sp, params) + ", " + RenderExpr(sp, returnType) + "]"
    case UnionExpr(branches, Explicit) => "Union[" + JoinTexts(RenderExprs(sp, branches)) + "]"
    case UnionExpr(branches, Shorthand) => JoinWith(RenderExprs(sp, branches), " | ")
    case AnnotatedExpr(value, metadata) =>
      if metadata == [] then "Annotated[" + RenderExpr(sp, value) + "]"
      else "Annotated[" + RenderExpr(sp, value) + ", " + JoinTexts(metadata) + "]"
    case UnpackExpr(inner) => "Unpack[" + RenderExpr(sp, inner) + "]"
  }

  function RenderExprs(sp: Spelling, es: seq<TypeExpr>): seq<string>
    decreases es
  {
    if es == [] then [] else [RenderExpr(sp, es[0])] + RenderExprs(sp, es[1..])
  }

  function RenderParamExpr(sp: Spelling, params: CallableParamExpr): string
    decreases params
  {
    match params
    case EllipsisExpr => "..."
    case ParamListExpr(types) => "[" + JoinTexts(RenderExprs(sp, types)) + "]"
    case ConcatenateExpr(types) => "Concatenate[" + JoinTexts(RenderExprs(sp, types)) + "]"
    case SingleExpr(single) => RenderExpr(sp, single)
  }

  /** Names and heads are in normal form, unions are explicit and have not exactly one branch. */
  ghost predicate IsCanonical(sp: Spelling, e: TypeExpr)
    decreases e
  {
    match e
    case NameExpr(name) => sp.name(name) == name
    case GenericExpr(head, args) => sp.head(head) == head && AreCanonical(sp, args)
    case CallableExpr(params, returnType) => IsCanonicalParams(sp, params) && IsCanonical(sp, returnType)
    case UnionExpr(branches, style) => style.Explicit? && |branches| != 1 && AreCanonical(sp, branches)
    case AnnotatedExpr(value, _) => IsCanonical(sp, value)
    case UnpackExpr(inner) => IsCanonical(sp, inner)
  }

  ghost predicate AreCanonical(sp: Spelling, es: seq<TypeExpr>)
    decreases es
  {
    es != [] ==> IsCanonical(sp, es[0]) && AreCanonical(sp, es[1..])
  }

  ghost predicate IsCanonicalParams(sp: Spelling, params: CallableParamExpr)
    decreases params
  {
    match params
    case EllipsisExpr => true
    case ParamListExpr(types) => AreCanonical(sp, types)
    case ConcatenateExpr(types) => AreCanonical(sp, types)
    case SingleExpr(single) => IsCanonical(sp, single)
  }

  /** The type lowered from a canonical expression renders as the expression itself. */
  lemma {:induction false} CanonicalTextsAgree(sp: Spelling, e: TypeExpr)
    requires IsCanonical(sp, e)
    ensures Render(Lower(e)) == RenderExpr(sp, e)
    decreases e
  {
    match e
    case NameExpr(_) =>
    case GenericExpr(_, args) =>
      CanonicalListsAgree(sp, args);
    case CallableExpr(params, returnType) =>
      CanonicalParamsAgree(sp, params);
      CanonicalTextsAgree(sp, returnType);
    case UnionExpr(branches, _) =>
      CanonicalListsAgree(sp, branches);
    case AnnotatedExpr(value, _) =>
      CanonicalTextsAgree(sp, value);
    case UnpackExpr(inner) =>
      CanonicalTextsAgree(sp, inner);
  }

  lemma {:induction false} CanonicalListsAgree(sp: Spelling, es: seq<TypeExpr>)
    requires AreCanonical(sp, es)
    ensures RenderAll(LowerAll(es)) == RenderExprs(sp, es)
    decreases es
  {
    if es == [] {
    } else {
      CanonicalTextsAgree(sp, es[0]);
      CanonicalListsAgree(sp, es[1..]);
      assert LowerAll(es)[1..] == LowerAll(es[1..]);
    }
  }

  lemma {:induction false} CanonicalParamsAgree(sp: Spelling, params: CallableParamExpr)
    requires IsCanonicalParams(sp, params)
    ensures RenderParams(LowerParams(params)) == RenderParamExpr(sp, params)
    decreases params
  {
    match params
    case EllipsisExpr =>
    case ParamListExpr(types) =>
      CanonicalListsAgree(sp, types);
    case ConcatenateExpr(types) =>
      CanonicalListsAgree(sp, types);
    case SingleExpr(single) =>
      CanonicalTextsAgree(sp, single);
  }

  /** A union written with bars comes out with brackets. */
  lemma ShorthandTextChanges(sp: Spelling)
    requires sp.name("int") == "int" && sp.name("None") == "None"
    ensures var e := UnionExpr([NameExpr("int"), NameExpr("None")], Shorthand);
      RenderExpr(sp, e) == "int | None" && Render(Lower(e)) == "Union[int, None]"
  {
    var branches := [NameExpr("int"), NameExpr("None")];
    assert branches[1..] == [NameExpr("None")] && branches[1..][1..] == [];
    assert LowerAll(branches) == [Name("int"), Name("None")];
    assert [Name("int"), Name("None")][1..] == [Name("None")];
    assert RenderExprs(sp, branches) == ["int", "None"] && RenderAll(LowerAll(branches)) == ["int", "None"];
    assert ["int", "None"][1..] == ["None"];
  }

  // ---------------------------------------------------------------------------------------------
  // The type store
  // ---------------------------------------------------------------------------------------------

  type TypeId = nat

  /** The store's contents: an arena of types and the index from type to position. */
  datatype Store = Store(arena: seq<SemanticType>, idsByType: map<SemanticType, TypeId>) {
    /** Arena and index are inverse to each other. */
    ghost predicate Valid() {
      && (forall id :: 0 <= id < |arena| ==> arena[id] in idsByType && idsByType[arena[id]] == id)
      && (forall ty :: ty in idsByType ==> idsByType[ty] < |arena| && arena[idsByType[ty]] == ty)
    }

    /** Everything stored before is still there under its old id. */
    ghost predicate ExtendedBy(later: Store) {
      arena <= later.arena
    }

    function Get(id: TypeId): Option<SemanticType> {
      if id < |arena| then Some(arena[id]) else None
    }

    function IdOf(ty: SemanticType): TypeId {
      if ty in idsByType then idsByType[ty] else |arena|
    }

    function Interned(ty: SemanticType): (later: Store)
      ensures Valid() ==> later.Valid() && later.Get(IdOf(ty)) == Some(ty)
      ensures ExtendedBy(later)
    {
      if ty in idsByType then this else Store(arena + [ty], idsByType[ty := |arena|])
    }
  }

  /** The store after interning several types in turn. */
  function InternAll(s: Store, types: seq<SemanticType>): Store {
    if types == [] then s else InternAll(s, types[..|types| - 1]).Interned(types[|types| - 1])
  }

  /** Interning one type keeps the id of every type already held. */
  lemma InternKeepsIds(s: Store, ty: SemanticType, held: SemanticType)
    requires s.Valid() && held in s.idsByType
    ensures held in s.Interned(ty).idsByType && s.Interned(ty).IdOf(held) == s.IdOf(held)
  {
  }

  /** The id announced for a type is the one it gets. */
  lemma InternGivesId(s: Store, ty: SemanticType)
    requires s.Valid()
    ensures ty in s.Interned(ty).idsByType && s.Interned(ty).IdOf(ty) == s.IdOf(ty)
  {
  }

  lemma {:induction false} InternAllKeepsIds(s: Store, types: seq<SemanticType>, held: SemanticType)
    requires s.Valid()
    ensures InternAll(s, types).Valid() && s.ExtendedBy(InternAll(s, types))
    ensures held in s.idsByType ==> held in InternAll(s, types).idsByType && InternAll(s, types).IdOf(held) == s.IdOf(held)
    decreases |types|
  {
    if types == [] {
    } else {
      var front := types[..|types| - 1];
      InternAllKeepsIds(s, front, held);
      if held in s.idsByType {
        InternKeepsIds(InternAll(s, front), types[|types| - 1], held);
      }
    }
  }

  lemma {:induction false} InternAllSplits(s: Store, first: seq<SemanticType>, rest: seq<SemanticType>)
    ensures InternAll(s, first + rest) == InternAll(InternAll(s, first), rest)
    decreases |rest|
  {
    if rest == [] {
      assert first + rest == first;
    } else {
      var front := rest[..|rest| - 1];
      InternAllSplits(s, first, front);
      assert (first + rest)[..|first + rest| - 1] == first + front;
    }
  }

  /** A type keeps its id, and stays readable under it, whatever is interned afterwards. */
  lemma KeptAfterwards(before: Store, ty: SemanticType, rest: seq<SemanticType>)
    requires before.Valid()
    ensures var later := InternAll(before.Interned(ty), rest);
      later.Valid() && ty in later.idsByType && later.IdOf(ty) == before.IdOf(ty)
  {
    InternGivesId(before, ty);
    InternAllKeepsIds(before.Interned(ty), rest, ty);
  }

  lemma InternedBetween(s: Store, first: seq<SemanticType>, ty: SemanticType, rest: seq<SemanticType>)
    requires s.Valid()
    ensures var later, before := InternAll(s, first + [ty] + rest), InternAll(s, first);
      later.Valid() && ty in later.idsByType && later.IdOf(ty) == before.IdOf(ty)
  {
    InternAllKeepsIds(s, first, ty);
    InternAllSplits(s, first + [ty], rest);
    assert (first + [ty])[..|first + [ty]| - 1] == first;
    KeptAfterwards(InternAll(s, first), ty, rest);
  }

  /** A type interned at position `i` keeps the id it got there, and that id reads it back. */
  lemma InternedForEver(s: Store, types: seq<SemanticType>, i: nat)
    requires s.Valid() && i < |types|
    ensures var later, before := InternAll(s, types), InternAll(s, types[..i]);
      later.Valid() && types[i] in later.idsByType && later.IdOf(types[i]) == before.IdOf(types[i])
  {
    InternedBetween(s, types[..i], types[i], types[i + 1..]);
    assert types == types[..i] + [types[i]] + types[i + 1..];
  }

  /**
   Ids for ever: after interning any sequence of types, the id each type got reads back that type, and two
   types got the same id exactly when they are equal.
   */
  lemma {:induction false} IdsKeepTheirMeaning(s: Store, types: seq<SemanticType>, i: nat, j: nat)
    requires s.Valid() && i < |types| && j < |types|
    ensures var later, idI, idJ := InternAll(s, types), InternAll(s, types[..i]).IdOf(types[i]), InternAll(s, types[..j]).IdOf(types[j]);
      later.Get(idI) == Some(types[i]) && (idI == idJ <==> types[i] == types[j])
  {
    InternedForEver(s, types, i);
    InternedForEver(s, types, j);
  }

  /** The store as the checker keeps it: two fields updated together. */
  class TypeStore {
    var arena: seq<SemanticType>
    var idsByType: map<SemanticType, TypeId>

    constructor ()
      ensures Contents() == Store([], map[])
    {
      arena, idsByType := [], map[];
    }

    function Contents(): Store
      reads this
    {
      Store(arena, idsByType)
    }

    ghost predicate Valid()
      reads this
    {
      Contents().Valid()
    }

    method Intern(ty: SemanticType) returns (id: TypeId)
      requires Valid()
      modifies this
      ensures Valid()
      ensures Contents() == old(Contents()).Interned(ty)
      ensures id == old(Contents()).IdOf(ty) && Contents().Get(id) == Some(ty)
    {
      if ty in idsByType {
        return idsByType[ty];
      }
      id := |arena|;
      arena := arena + [ty];
      idsByType := idsByType[ty := id];
    }

    method Get(id: TypeId) returns (ty: Option<SemanticType>)
      ensures ty == Contents().Get(id)
    {
      ty := if id < |arena| then Some(arena[id]) else None;
    }
  }
}
