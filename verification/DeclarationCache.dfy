/** The per-thread cache of declaration semantics, with types replaced by store ids. */
module DeclarationCache {
  import opened Prelude
  import opened SemanticTypes
  import opened TypeTexts

  // ---------------------------------------------------------------------------------------------
  // Declarations and their direct semantics
  // ---------------------------------------------------------------------------------------------

  type BoundTypeExpr = TypeExpr

  datatype ParamFlags = ParamFlags(hasDefault: bool, positionalOnly: bool, keywordOnly: bool, variadic: bool, keywordVariadic: bool)

  datatype ParamSite = ParamSite(
    name: string,
    annotation: Option<string>,
    annotationExpr: Option<TypeExpr>,
    flags: ParamFlags
  )

  datatype Signature = Signature(params: seq<ParamSite>, returns_: Option<BoundTypeExpr>)

  datatype ImportTarget = ImportTarget(rawTarget: string, moduleTarget: string, symbol: Option<(string, string)>)

  datatype DeclarationKind = FunctionDecl | OverloadDecl | ValueDecl | TypeAliasDecl | ImportDecl | ClassDecl

  datatype Declaration = Declaration(
    name: string,
    kind: DeclarationKind,
    signature: Option<Signature>,
    valueAnnotation: Option<BoundTypeExpr>,
    aliasValue: Option<BoundTypeExpr>,
    typeParams: seq<string>,
    importTarget: Option<ImportTarget>
  )

  /** What is foreign here: lowering annotation text (text, variadic, keyword-variadic), and the spelling of names. */
  datatype Syntax = Syntax(lowerText: (string, bool, bool) -> SemanticType, spelling: Spelling)

  datatype SemanticParam = SemanticParam(name: string, annotationText: Option<string>, annotation: Option<SemanticType>, flags: ParamFlags)
  datatype SemanticCallable = SemanticCallable(sites: seq<ParamSite>, params: seq<SemanticParam>, returnText: Option<string>, returnType: Option<SemanticType>)
  datatype SemanticValue = SemanticValue(annotationText: Option<string>, annotation: Option<SemanticType>)
  datatype SemanticAlias = SemanticAlias(head: string, typeParams: seq<string>, bodyText: string, body: SemanticType)
  datatype SemanticFacts = SemanticFacts(
    callable: Option<SemanticCallable>,
    value: Option<SemanticValue>,
    alias: Option<SemanticAlias>,
    importTarget: Option<ImportTarget>
  )

  /** `semantic_type_from_direct_param_site`: the annotation expression, else its text. */
  function ParamType(sx: Syntax, site: ParamSite): Option<SemanticType> {
    if site.annotationExpr.Some? then Some(Lower(site.annotationExpr.value))
    else if site.annotation.Some? then Some(sx.lowerText(site.annotation.value, site.flags.variadic, site.flags.keywordVariadic))
    else None
  }

  /** `rendered_annotation`: the text of the annotation expression, else the text written. */
  function ParamText(sx: Syntax, site: ParamSite): Option<string> {
    if site.annotationExpr.Some? then Some(RenderExpr(sx.spelling, site.annotationExpr.value)) else site.annotation
  }

  function BoundType(bound: Option<BoundTypeExpr>): Option<SemanticType> {
    if bound.Some? then Some(Lower(bound.value)) else None
  }

  function BoundText(sx: Syntax, bound: Option<BoundTypeExpr>): Option<string> {
    if bound.Some? then Some(RenderExpr(sx.spelling, bound.value)) else None
  }

  function DirectParam(sx: Syntax, site: ParamSite): SemanticParam {
    SemanticParam(site.name, ParamText(sx, site), ParamType(sx, site), site.flags)
  }

  function DirectParams(sx: Syntax, sites: seq<ParamSite>): seq<SemanticParam> {
    seq(|sites|, i requires 0 <= i < |sites| => DirectParam(sx, sites[i]))
  }

  /** The semantics of a declaration lowered afresh, without any cache. */
  function DirectFacts(sx: Syntax, d: Declaration): SemanticFacts {
    SemanticFacts(
      if (d.kind.FunctionDecl? || d.kind.OverloadDecl?) && d.signature.Some? then
        var s := d.signature.value;
        Some(SemanticCallable(s.params, DirectParams(sx, s.params), BoundText(sx, s.returns_), BoundType(s.returns_)))
      else None,
      if d.kind.ValueDecl? then Some(SemanticValue(BoundText(sx, d.valueAnnotation), BoundType(d.valueAnnotation))) else None,
      if d.kind.TypeAliasDecl? && d.aliasValue.Some? then
        Some(SemanticAlias(d.name, d.typeParams, RenderExpr(sx.spelling, d.aliasValue.value), Lower(d.aliasValue.value)))
      else None,
      if d.kind.ImportDecl? then d.importTarget else None)
  }

  // ---------------------------------------------------------------------------------------------
  // Texts of callables
  // ---------------------------------------------------------------------------------------------

  /** The text shown for a type: rendered from the type when there is one. */
  function TypeText(ty: Option<SemanticType>, fallback: Option<string>): Option<string> {
    if ty.Some? then Some(Render(ty.value)) else fallback
  }

  function ReworkedParam(p: SemanticParam): SemanticParam {
    p.(annotationText := TypeText(p.annotation, p.annotationText))
  }

  function ReworkedParams(params: seq<SemanticParam>): seq<SemanticParam> {
    seq(|params|, i requires 0 <= i < |params| => ReworkedParam(params[i]))
  }

  /** The facts with the texts of a callable rendered anew from its types; everything else is as it was. */
  function Reworked(facts: SemanticFacts): SemanticFacts {
    if facts.callable.None? then facts
    else
      var c := facts.callable.value;
      facts.(callable := Some(c.(params := ReworkedParams(c.params), returnText := TypeText(c.returnType, c.returnText))))
  }

  /** The text, if the type is there, is the type's rendering. */
  predicate Renders(ty: Option<SemanticType>, text: Option<string>) {
    ty.Some? ==> text == Some(Render(ty.value))
  }

  /** The callable's texts survive the cache if and only if each is the rendering of its type. */
  lemma TextsSurviveIff(facts: SemanticFacts)
    ensures Reworked(facts) == facts <==>
      (facts.callable.Some? ==>
         && Renders(facts.callable.value.returnType, facts.callable.value.returnText)
         && forall i :: 0 <= i < |facts.callable.value.params| ==>
              Renders(facts.callable.value.params[i].annotation, facts.callable.value.params[i].annotationText))
  {
    if facts.callable.Some? {
      var c := facts.callable.value;
      if Reworked(facts) == facts {
        forall i | 0 <= i < |c.params|
          ensures Renders(c.params[i].annotation, c.params[i].annotationText)
        {
          assert ReworkedParams(c.params)[i] == c.params[i];
        }
      } else if forall i :: 0 <= i < |c.params| ==> Renders(c.params[i].annotation, c.params[i].annotationText) {
        assert ReworkedParams(c.params) == c.params;
      }
    }
  }

  /** Types, flags, values, aliases and imports always survive. */
  lemma OnlyTextsChange(facts: SemanticFacts)
    ensures var now := Reworked(facts);
      && now.value == facts.value && now.alias == facts.alias && now.importTarget == facts.importTarget
      && (now.callable.Some? <==> facts.callable.Some?)
      && (now.callable.Some? ==>
            && now.callable.value.sites == facts.callable.value.sites && now.callable.value.returnType == facts.callable.value.returnType
            && |now.callable.value.params| == |facts.callable.value.params|
            && forall i :: 0 <= i < |facts.callable.value.params| ==>
                 now.callable.value.params[i].(annotationText := None) == facts.callable.value.params[i].(annotationText := None))
  {
  }

  /** The texts a parameter and a result are written with are those of their types. */
  ghost predicate ParamSurvives(sx: Syntax, site: ParamSite) {
    match site.annotationExpr
    case Some(e) => IsCanonical(sx.spelling, e)
    case None =>
      site.annotation.Some? ==>
        site.annotation.value == Render(sx.lowerText(site.annotation.value, site.flags.variadic, site.flags.keywordVariadic))
  }

  ghost predicate ReturnSurvives(sx: Syntax, returns_: Option<BoundTypeExpr>) {
    returns_.Some? ==> IsCanonical(sx.spelling, returns_.value)
  }

  ghost predicate HasParsedAnnotations(s: Signature) {
    && (s.returns_.Some? ==> IsParsed(s.returns_.value))
    && forall i :: 0 <= i < |s.params| && s.params[i].annotationExpr.Some? ==> IsParsed(s.params[i].annotationExpr.value)
  }

  /**
   A declaration comes out of the cache as it is lowered if and only if it is no callable or its annotations are
   canonical expressions; an annotation that is text only must be the text of the type lowered from it.
   */
  lemma DeclarationSurvivesIff(sx: Syntax, d: Declaration)
    requires Normalises(sx.spelling, Weigh) && (d.signature.Some? ==> HasParsedAnnotations(d.signature.value))
    ensures Reworked(DirectFacts(sx, d)) == DirectFacts(sx, d) <==>
      ((d.kind.FunctionDecl? || d.kind.OverloadDecl?) && d.signature.Some? ==>
         && ReturnSurvives(sx, d.signature.value.returns_)
         && forall i :: 0 <= i < |d.signature.value.params| ==> ParamSurvives(sx, d.signature.value.params[i]))
  {
    TextsSurviveIff(DirectFacts(sx, d));
    if (d.kind.FunctionDecl? || d.kind.OverloadDecl?) && d.signature.Some? {
      var s := d.signature.value;
      if s.returns_.Some? {
        TextsAgreeIff(sx.spelling, s.returns_.value);
      }
      forall i | 0 <= i < |s.params|
        ensures Renders(DirectParams(sx, s.params)[i].annotation, DirectParams(sx, s.params)[i].annotationText) <==> ParamSurvives(sx, s.params[i])
      {
        if s.params[i].annotationExpr.Some? {
          TextsAgreeIff(sx.spelling, s.params[i].annotationExpr.value);
        }
      }
      assert Renders(BoundType(s.returns_), BoundText(sx, s.returns_)) <==> ReturnSurvives(sx, s.returns_);
    }
  }

  /** A result annotated with a shorthand union comes out of the cache with another text. */
  lemma ShorthandDoesNotSurvive(sx: Syntax, name: string) returns (d: Declaration)
    requires sx.spelling.name("int") == "int" && sx.spelling.name("None") == "None"
    ensures Reworked(DirectFacts(sx, d)) != DirectFacts(sx, d)
  {
    var union := UnionExpr([NameExpr("int"), NameExpr("None")], Shorthand);
    d := Declaration(name, FunctionDecl, Some(Signature([], Some(union))), None, None, [], None);
    ShorthandTextChanges(sx.spelling);
    assert "int | None"[0] != "Union[int, None]"[0];
    TextsSurviveIff(DirectFacts(sx, d));
  }

  // ---------------------------------------------------------------------------------------------
  // Cached facts
  // ---------------------------------------------------------------------------------------------

  datatype CachedParam = CachedParam(name: string, annotationText: Option<string>, annotationId: Option<TypeId>, flags: ParamFlags)
  datatype CachedCallable = CachedCallable(sites: seq<ParamSite>, params: seq<CachedParam>, returnText: Option<string>, returnId: Option<TypeId>)
  datatype CachedValue = CachedValue(annotationText: Option<string>, annotationId: Option<TypeId>)
  datatype CachedAlias = CachedAlias(head: string, typeParams: seq<string>, bodyText: string, bodyId: TypeId)
  datatype CachedFacts = CachedFacts(
    callable: Option<CachedCallable>,
    value: Option<CachedValue>,
    alias: Option<CachedAlias>,
    importTarget: Option<ImportTarget>
  )

  /** Every id in the facts is in the store. */
  predicate KnownId(s: Store, id: Option<TypeId>) {
    id.Some? ==> id.value < |s.arena|
  }

  ghost predicate KnownIds(s: Store, facts: CachedFacts) {
    && (facts.callable.Some? ==>
          && KnownId(s, facts.callable.value.returnId)
          && forall i :: 0 <= i < |facts.callable.value.params| ==> KnownId(s, facts.callable.value.params[i].annotationId))
    && (facts.value.Some? ==> KnownId(s, facts.value.value.annotationId))
    && (facts.alias.Some? ==> facts.alias.value.bodyId < |s.arena|)
  }

  function Load(s: Store, id: Option<TypeId>): Option<SemanticType> {
    if id.Some? then s.Get(id.value) else None
  }

  function MaterializeParam(s: Store, p: CachedParam): SemanticParam {
    var annotation := Load(s, p.annotationId);
    SemanticParam(p.name, TypeText(annotation, p.annotationText), annotation, p.flags)
  }

  function MaterializeParams(s: Store, params: seq<CachedParam>): seq<SemanticParam> {
    seq(|params|, i requires 0 <= i < |params| => MaterializeParam(s, params[i]))
  }

  /** The `materialize_*` functions; the body of an alias is read unconditionally. */
  function Materialize(s: Store, facts: CachedFacts): SemanticFacts
    requires KnownIds(s, facts)
  {
    SemanticFacts(
      if facts.callable.Some? then
        var c := facts.callable.value;
        Some(SemanticCallable(c.sites, MaterializeParams(s, c.params), TypeText(Load(s, c.returnId), c.returnText), Load(s, c.returnId)))
      else None,
      if facts.value.Some? then Some(SemanticValue(facts.value.value.annotationText, Load(s, facts.value.value.annotationId))) else None,
      if facts.alias.Some? then
        var a := facts.alias.value;
        Some(SemanticAlias(a.head, a.typeParams, a.bodyText, s.arena[a.bodyId]))
      else None,
      facts.importTarget)
  }

  /** A growing store never changes what cached facts mean. */
  lemma MaterializeIsStable(s: Store, later: Store, facts: CachedFacts)
    requires KnownIds(s, facts) && s.ExtendedBy(later)
    ensures KnownIds(later, facts) && Materialize(later, facts) == Materialize(s, facts)
  {
    if facts.callable.Some? {
      var params := facts.callable.value.params;
      forall i | 0 <= i < |params|
        ensures MaterializeParam(later, params[i]) == MaterializeParam(s, params[i])
      {
        assert KnownId(s, params[i].annotationId);
      }
      assert MaterializeParams(later, params) == MaterializeParams(s, params);
    }
  }

  /** What every entry of the cache promises. */
  ghost predicate Faithful(sx: Syntax, s: Store, facts: map<Declaration, CachedFacts>) {
    s.Valid() && forall d :: d in facts ==> KnownIds(s, facts[d]) && Materialize(s, facts[d]) == Reworked(DirectFacts(sx, d))
  }

  lemma FaithfulInLargerStore(sx: Syntax, s: Store, later: Store, facts: map<Declaration, CachedFacts>)
    requires Faithful(sx, s, facts) && s.ExtendedBy(later) && later.Valid()
    ensures Faithful(sx, later, facts)
  {
    forall d | d in facts {
      MaterializeIsStable(s, later, facts[d]);
    }
  }

  // ---------------------------------------------------------------------------------------------
  // The cache
  // ---------------------------------------------------------------------------------------------

  class DeclarationSemanticCache {
    const sx: Syntax
    const typeStore: TypeStore
    var factsByDeclaration: map<Declaration, CachedFacts>

    constructor (sx: Syntax)
      ensures this.sx == sx && fresh(typeStore)
      ensures Valid() && factsByDeclaration == map[]
    {
      this.sx := sx;
      typeStore := new TypeStore();
      factsByDeclaration := map[];
    }

    ghost predicate Valid()
      reads this, typeStore
    {
      Faithful(sx, typeStore.Contents(), factsByDeclaration)
    }

    method InternSemanticType(ty: Option<SemanticType>) returns (id: Option<TypeId>)
      requires typeStore.Valid()
      modifies typeStore
      ensures typeStore.Valid() && old(typeStore.Contents()).ExtendedBy(typeStore.Contents())
      ensures KnownId(typeStore.Contents(), id) && Load(typeStore.Contents(), id) == ty
    {
      if ty.None? {
        return None;
      }
      var fresh_ := typeStore.Intern(ty.value);
      id := Some(fresh_);
    }

    method CacheParams(sites: seq<ParamSite>) returns (params: seq<CachedParam>)
      requires typeStore.Valid()
      modifies typeStore
      ensures typeStore.Valid() && old(typeStore.Contents()).ExtendedBy(typeStore.Contents())
      ensures forall i :: 0 <= i < |params| ==> KnownId(typeStore.Contents(), params[i].annotationId)
      ensures MaterializeParams(typeStore.Contents(), params) == ReworkedParams(DirectParams(sx, sites))
    {
      params := [];
      for i := 0 to |sites|
        invariant typeStore.Valid() && old(typeStore.Contents()).ExtendedBy(typeStore.Contents())
        invariant |params| == i
        invariant forall j :: 0 <= j < i ==> KnownId(typeStore.Contents(), params[j].annotationId)
        invariant forall j :: 0 <= j < i ==> MaterializeParam(typeStore.Contents(), params[j]) == ReworkedParam(DirectParam(sx, sites[j]))
      {
        var site := sites[i];
        ghost var before := typeStore.Contents();
        var id := InternSemanticType(ParamType(sx, site));
        forall j | 0 <= j < i
          ensures MaterializeParam(typeStore.Contents(), params[j]) == MaterializeParam(before, params[j])
        {
          assert KnownId(before, params[j].annotationId);
        }
        params := params + [CachedParam(site.name, ParamText(sx, site), id, site.flags)];
      }
    }

    method CacheCallable(d: Declaration) returns (callable: Option<CachedCallable>)
      requires typeStore.Valid()
      modifies typeStore
      ensures typeStore.Valid() && old(typeStore.Contents()).ExtendedBy(typeStore.Contents())
      ensures var facts := CachedFacts(callable, None, None, None);
        KnownIds(typeStore.Contents(), facts) && Materialize(typeStore.Contents(), facts).callable == Reworked(DirectFacts(sx, d)).callable
    {
      if !(d.kind.FunctionDecl? || d.kind.OverloadDecl?) || d.signature.None? {
        return None;
      }
      var s := d.signature.value;
      var params := CacheParams(s.params);
      ghost var before := typeStore.Contents();
      var returnId := InternSemanticType(BoundType(s.returns_));
      callable := Some(CachedCallable(s.params, params, BoundText(sx, s.returns_), returnId));
      MaterializeIsStable(before, typeStore.Contents(), CachedFacts(Some(CachedCallable(s.params, params, None, None)), None, None, None));
    }

    /** `build_cached_semantic_declaration_facts`. */
    method BuildFacts(d: Declaration) returns (facts: CachedFacts)
      requires typeStore.Valid()
      modifies typeStore
      ensures typeStore.Valid() && old(typeStore.Contents()).ExtendedBy(typeStore.Contents())
      ensures KnownIds(typeStore.Contents(), facts) && Materialize(typeStore.Contents(), facts) == Reworked(DirectFacts(sx, d))
    {
      var callable := CacheCallable(d);
      ghost var s0 := typeStore.Contents();
      var value: Option<CachedValue> := None;
      if d.kind.ValueDecl? {
        var id := InternSemanticType(BoundType(d.valueAnnotation));
        value := Some(CachedValue(BoundText(sx, d.valueAnnotation), id));
      }
      ghost var s1 := typeStore.Contents();
      var alias: Option<CachedAlias> := None;
      if d.kind.TypeAliasDecl? && d.aliasValue.Some? {
        var id := typeStore.Intern(Lower(d.aliasValue.value));
        alias := Some(CachedAlias(d.name, d.typeParams, RenderExpr(sx.spelling, d.aliasValue.value), id));
      }
      facts := CachedFacts(callable, value, alias, if d.kind.ImportDecl? then d.importTarget else None);
      MaterializeIsStable(s0, typeStore.Contents(), CachedFacts(callable, None, None, None));
      MaterializeIsStable(s1, typeStore.Contents(), CachedFacts(None, value, None, None));
    }

    /**
     `declaration_semantic_facts`: on a miss the facts are built and cached, then read back from the store.
     The answer is always the one lowering the declaration afresh gives, with a callable's texts rendered anew
     from its types; earlier entries keep theirs, and ids handed out before keep their meaning.
     */
    method DeclarationSemanticFacts(d: Declaration) returns (facts: SemanticFacts)
      requires Valid()
      modifies this, typeStore
      ensures Valid()
      ensures facts == Reworked(DirectFacts(sx, d))
      ensures old(typeStore.Contents()).ExtendedBy(typeStore.Contents())
      ensures factsByDeclaration.Keys == old(factsByDeclaration.Keys) + {d}
      ensures forall e :: e in old(factsByDeclaration) ==> factsByDeclaration[e] == old(factsByDeclaration[e])
      ensures d in old(factsByDeclaration) ==> typeStore.Contents() == old(typeStore.Contents())
    {
      if d !in factsByDeclaration {
        ghost var before := typeStore.Contents();
        var built := BuildFacts(d);
        FaithfulInLargerStore(sx, before, typeStore.Contents(), factsByDeclaration);
        factsByDeclaration := factsByDeclaration[d := built];
      }
      facts := Materialize(typeStore.Contents(), factsByDeclaration[d]);
    }

    /** Any sequence of queries, repetitions included: every answer is the direct one, texts rendered anew. */
    method AnswerAll(queries: seq<Declaration>) returns (answers: seq<SemanticFacts>)
      requires Valid()
      modifies this, typeStore
      ensures Valid() && old(typeStore.Contents()).ExtendedBy(typeStore.Contents())
      ensures |answers| == |queries| && forall i :: 0 <= i < |queries| ==> answers[i] == Reworked(DirectFacts(sx, queries[i]))
    {
      answers := [];
      for i := 0 to |queries|
        invariant Valid() && old(typeStore.Contents()).ExtendedBy(typeStore.Contents())
        invariant |answers| == i && forall j :: 0 <= j < i ==> answers[j] == Reworked(DirectFacts(sx, queries[j]))
      {
        var facts := DeclarationSemanticFacts(queries[i]);
        answers := answers + [facts];
      }
    }
  }
}
