/** Exactly which annotation expressions keep their text when they are lowered to types and rendered again. */
module TypeTexts {
  import opened SemanticTypes

  // ---------------------------------------------------------------------------------------------
  // Weighing texts
  // ---------------------------------------------------------------------------------------------

  /** Bars, opening brackets, and characters, the capitals of normalised heads counting twice. */
  datatype Weight = Weight(bars: int, opens: int, size: int) {
    function Plus(other: Weight): Weight {
      Weight(bars + other.bars, opens + other.opens, size + other.size)
    }

    function Minus(other: Weight): Weight {
      Weight(bars - other.bars, opens - other.opens, size - other.size)
    }
  }

  const NOTHING := Weight(0, 0, 0)

  function Weigh(text: string): Weight {
    var m := multiset(text);
    Weight(m['|'], m['['], |text| + m['D'] + m['F'] + m['L'] + m['S'] + m['T'])
  }

  type Scale = string -> Weight

  /** What the proofs below need to know of the weights of texts. */
  ghost predicate IsScale(w: Scale) {
    && (forall left: string, right: string :: w(left + right) == w(left).Plus(w(right)))
    && w("").bars == w("").opens == w("").size == 0
    && w(" | ").bars > 0 == w(", ").bars == w("Union[").bars == w("]").bars
    && w("Union[").opens > 0 == w("]").opens
  }

  lemma WeighIsScale()
    ensures IsScale(Weigh)
  {
    assert " | "[1] == '|' && '|' in " | " && '|' !in ", ";
    assert "Union["[5] == '[' && '[' in "Union[" && '|' !in "Union[" && '|' !in "]" && '[' !in "]";
  }

  function WeighAll(w: Scale, texts: seq<string>): Weight {
    if texts == [] then NOTHING else w(texts[0]).Plus(WeighAll(w, texts[1..]))
  }

  /** How much heavier one text is than another. */
  function Over(w: Scale, x: string, y: string): Weight {
    w(x).Minus(w(y))
  }

  lemma FramedOver(w: Scale, before: string, x: string, y: string, behind: string)
    requires IsScale(w)
    ensures Over(w, before + x + behind, before + y + behind) == Over(w, x, y)
  {
  }

  lemma PairedOver(w: Scale, before: string, x: string, y: string, between: string, left: string, right: string, behind: string)
    requires IsScale(w)
    ensures Over(w, before + x + between + left + behind, before + y + between + right + behind) == Over(w, x, y).Plus(Over(w, left, right))
  {
  }

  /** The same separator between as many texts weighs the same. */
  lemma {:induction false} JoinedOver(w: Scale, xs: seq<string>, ys: seq<string>, separator: string)
    requires IsScale(w) && |xs| == |ys|
    ensures Over(w, JoinWith(xs, separator), JoinWith(ys, separator)) == WeighAll(w, xs).Minus(WeighAll(w, ys))
    decreases |xs|
  {
    if |xs| <= 1 {
      assert xs != [] ==> xs[1..] == [] && ys[1..] == [];
    } else {
      JoinedOver(w, xs[1..], ys[1..], separator);
    }
  }

  /** A bar as separator shows. */
  lemma {:induction false} JoinedBars(w: Scale, texts: seq<string>, separator: string)
    requires IsScale(w) && w(separator).bars >= 0
    ensures w(separator).bars == 0 ==> w(JoinWith(texts, separator)).bars == WeighAll(w, texts).bars
    ensures w(JoinWith(texts, separator)).bars >= WeighAll(w, texts).bars
    ensures |texts| > 1 ==> w(JoinWith(texts, separator)).bars >= WeighAll(w, texts).bars + w(separator).bars
    decreases |texts|
  {
    if |texts| <= 1 {
      assert texts != [] ==> texts[1..] == [];
    } else {
      JoinedBars(w, texts[1..], separator);
    }
  }

  // ---------------------------------------------------------------------------------------------
  // Texts that change
  // ---------------------------------------------------------------------------------------------

  /**
   As `normalize_name` and `normalize_type_head` work: spaces and a prefix are taken off, a capitalised head becomes
   lower case; nothing changes a bar or a bracket.
   */
  ghost predicate Normalises(sp: Spelling, w: Scale) {
    && (forall text :: Lightens(w, text, sp.name(text)))
    && (forall text :: Lightens(w, text, sp.head(text)))
  }

  predicate Lightens(w: Scale, text: string, spelled: string) {
    var over := Over(w, spelled, text);
    over.bars == 0 && over.opens == 0 && (spelled == text || over.size < 0)
  }

  /** Spaces and prefixes such as "typing." that `normalize_name` takes off. */
  lemma CutLightens(name: string, cut: string)
    requires '|' !in cut && '[' !in cut
    ensures Lightens(Weigh, cut + name, name) && Lightens(Weigh, name + cut, name)
  {
    if cut == "" {
      assert cut + name == name && name + cut == name;
    }
  }

  lemma OneLighter(capital: char, small: char)
    requires capital in {'D', 'F', 'L', 'S', 'T'} && small !in {'D', 'F', 'L', 'S', 'T', '|', '['}
    ensures Over(Weigh, [small], [capital]) == Weight(0, 0, -1)
  {
  }

  /** Capitals that `normalize_type_head` replaces, as in "List" and "FrozenSet". */
  lemma SmallLetterLightens(before: string, capital: char, small: char, behind: string)
    requires capital in {'D', 'F', 'L', 'S', 'T'} && small !in {'D', 'F', 'L', 'S', 'T', '|', '['}
    ensures Lightens(Weigh, before + [capital] + behind, before + [small] + behind)
  {
    WeighIsScale();
    OneLighter(capital, small);
    FramedOver(Weigh, before, [small], [capital], behind);
  }

  /** As the parser makes them: a union written with bars has at least two branches. */
  ghost predicate IsParsed(e: TypeExpr)
    decreases e
  {
    match e
    case NameExpr(_) => true
    case GenericExpr(_, args) => AreParsed(args)
    case CallableExpr(params, returnType) => AreParsedParams(params) && IsParsed(returnType)
    case UnionExpr(branches, style) => (style.Shorthand? ==> |branches| > 1) && AreParsed(branches)
    case AnnotatedExpr(value, _) => IsParsed(value)
    case UnpackExpr(inner) => IsParsed(inner)
  }

  ghost predicate AreParsed(es: seq<TypeExpr>)
    decreases es
  {
    es != [] ==> IsParsed(es[0]) && AreParsed(es[1..])
  }

  ghost predicate AreParsedParams(params: CallableParamExpr)
    decreases params
  {
    match params
    case EllipsisExpr => true
    case ParamListExpr(types) => AreParsed(types)
    case ConcatenateExpr(types) => AreParsed(types)
    case SingleExpr(single) => IsParsed(single)
  }

  /**
   An expression's text over its type's: bars tell of unions written with bars, else brackets tell of explicit unions
   of one branch, else a lighter text tells of names out of normal form; a text as heavy is canonical.
   */
  predicate Tells(over: Weight, canonical: bool) {
    over.bars >= 0 && (over.bars == 0 ==> over.opens >= 0 && (over.opens == 0 ==> over.size <= 0 && (over.size == 0 ==> canonical)))
  }

  lemma {:induction false} ExprTells(w: Scale, sp: Spelling, e: TypeExpr)
    requires IsScale(w) && Normalises(sp, w) && IsParsed(e)
    ensures Tells(Over(w, RenderExpr(sp, e), Render(Lower(e))), IsCanonical(sp, e))
    decreases e, 0
  {
    match e
    case NameExpr(name) =>
      assert Lightens(w, name, sp.name(name));
    case GenericExpr(head, args) =>
      ListTells(w, sp, args);
      GenericTells(w, sp, head, args);
    case CallableExpr(params, returnType) =>
      ParamsTell(w, sp, params);
      ExprTells(w, sp, returnType);
      CallableTells(w, sp, params, returnType);
    case UnionExpr(branches, style) =>
      ListTells(w, sp, branches);
      UnionTells(w, sp, branches, style);
    case AnnotatedExpr(value, metadata) =>
      ExprTells(w, sp, value);
      AnnotatedOver(w, sp, value, metadata);
    case UnpackExpr(inner) =>
      ExprTells(w, sp, inner);
      FramedOver(w, "Unpack[", RenderExpr(sp, inner), Render(Lower(inner)), "]");
  }

  lemma CallableTells(w: Scale, sp: Spelling, params: CallableParamExpr, returnType: TypeExpr)
    requires IsScale(w) && Tells(Over(w, RenderParamExpr(sp, params), RenderParams(LowerParams(params))), IsCanonicalParams(sp, params))
    requires Tells(Over(w, RenderExpr(sp, returnType), Render(Lower(returnType))), IsCanonical(sp, returnType))
    ensures Tells(Over(w, RenderExpr(sp, CallableExpr(params, returnType)), Render(Callable(LowerParams(params), Lower(returnType)))),
                  IsCanonicalParams(sp, params) && IsCanonical(sp, returnType))
  {
    PairedOver(w, "Callable[", RenderParamExpr(sp, params), RenderParams(LowerParams(params)), ", ", RenderExpr(sp, returnType), Render(Lower(returnType)), "]");
  }

  lemma AnnotatedOver(w: Scale, sp: Spelling, value: TypeExpr, metadata: seq<string>)
    requires IsScale(w)
    ensures Over(w, RenderExpr(sp, AnnotatedExpr(value, metadata)), Render(Annotated(Lower(value), metadata))) == Over(w, RenderExpr(sp, value), Render(Lower(value)))
  {
    FramedOver(w, "Annotated[", RenderExpr(sp, value), Render(Lower(value)), "]");
    PairedOver(w, "Annotated[", RenderExpr(sp, value), Render(Lower(value)), ", ", JoinTexts(metadata), JoinTexts(metadata), "]");
  }

  ghost predicate ListsTell(w: Scale, sp: Spelling, es: seq<TypeExpr>) {
    && |RenderExprs(sp, es)| == |RenderAll(LowerAll(es))| == |es|
    && Tells(WeighAll(w, RenderExprs(sp, es)).Minus(WeighAll(w, RenderAll(LowerAll(es)))), AreCanonical(sp, es))
  }

  lemma BracketedTell(w: Scale, sp: Spelling, before: string, es: seq<TypeExpr>)
    requires IsScale(w) && ListsTell(w, sp, es)
    ensures Tells(Over(w, before + JoinTexts(RenderExprs(sp, es)) + "]", before + JoinTexts(RenderAll(LowerAll(es))) + "]"), AreCanonical(sp, es))
  {
    JoinedOver(w, RenderExprs(sp, es), RenderAll(LowerAll(es)), ", ");
    FramedOver(w, before, JoinTexts(RenderExprs(sp, es)), JoinTexts(RenderAll(LowerAll(es))), "]");
  }

  lemma GenericTells(w: Scale, sp: Spelling, head: string, args: seq<TypeExpr>)
    requires IsScale(w) && Normalises(sp, w) && ListsTell(w, sp, args)
    ensures Tells(Over(w, RenderExpr(sp, GenericExpr(head, args)), Render(Generic(head, LowerAll(args)))), sp.head(head) == head && AreCanonical(sp, args))
  {
    var xs, ys := RenderExprs(sp, args), RenderAll(LowerAll(args));
    JoinedOver(w, xs, ys, ", ");
    assert Lightens(w, head, sp.head(head));
    PairedOver(w, "", sp.head(head), head, "[", JoinTexts(xs), JoinTexts(ys), "]");
    assert "" + sp.head(head) == sp.head(head) && "" + head == head;
  }

  lemma UnionTells(w: Scale, sp: Spelling, branches: seq<TypeExpr>, style: UnionStyle)
    requires IsScale(w) && ListsTell(w, sp, branches) && (style.Shorthand? ==> |branches| > 1)
    ensures Tells(Over(w, RenderExpr(sp, UnionExpr(branches, style)), Render(Union(LowerAll(branches)))),
                  style.Explicit? && |branches| != 1 && AreCanonical(sp, branches))
  {
    var xs, ys := RenderExprs(sp, branches), RenderAll(LowerAll(branches));
    if style.Shorthand? {
      JoinedBars(w, xs, " | ");
      JoinedBars(w, ys, ", ");
    } else if |branches| == 1 {
      assert xs[1..] == [] && ys[1..] == [] && ys[0] == Render(LowerAll(branches)[0]);
    } else {
      BracketedTell(w, sp, "Union[", branches);
    }
  }

  lemma {:induction false} ListTells(w: Scale, sp: Spelling, es: seq<TypeExpr>)
    requires IsScale(w) && Normalises(sp, w) && AreParsed(es)
    ensures ListsTell(w, sp, es)
    decreases es, 0
  {
    if es == [] {
    } else {
      ExprTells(w, sp, es[0]);
      ListTells(w, sp, es[1..]);
      assert LowerAll(es)[1..] == LowerAll(es[1..]);
      assert RenderExprs(sp, es)[1..] == RenderExprs(sp, es[1..]);
      assert RenderAll(LowerAll(es))[1..] == RenderAll(LowerAll(es[1..]));
    }
  }

  lemma {:induction false} ParamsTell(w: Scale, sp: Spelling, params: CallableParamExpr)
    requires IsScale(w) && Normalises(sp, w) && AreParsedParams(params)
    ensures Tells(Over(w, RenderParamExpr(sp, params), RenderParams(LowerParams(params))), IsCanonicalParams(sp, params))
    decreases params, 0
  {
    match params
    case EllipsisExpr =>
    case ParamListExpr(types) =>
      ListTells(w, sp, types);
      BracketedTell(w, sp, "[", types);
    case ConcatenateExpr(types) =>
      ListTells(w, sp, types);
      BracketedTell(w, sp, "Concatenate[", types);
    case SingleExpr(single) =>
      ExprTells(w, sp, single);
  }

  /** The type lowered from a parsed expression renders as the expression itself if and only if the expression is canonical. */
  lemma TextsAgreeIff(sp: Spelling, e: TypeExpr)
    requires Normalises(sp, Weigh) && IsParsed(e)
    ensures Render(Lower(e)) == RenderExpr(sp, e) <==> IsCanonical(sp, e)
  {
    WeighIsScale();
    ExprTells(Weigh, sp, e);
    if IsCanonical(sp, e) {
      CanonicalTextsAgree(sp, e);
    }
  }
}
