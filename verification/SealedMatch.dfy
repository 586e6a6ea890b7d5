/** Exhaustiveness of `match` over a sealed class hierarchy. */
module SealedMatch {
  import opened Prelude
  import opened ClassSearch
  import opened ClassHierarchy

  // ---------------------------------------------------------------------------------------------
  // Descendants of a class within one module
  // ---------------------------------------------------------------------------------------------

  /** A top-level class called `name` lists `base` among its bases. */
  ghost predicate DerivesDirectly(declarations: seq<Declaration>, base: string, name: string) {
    exists i :: 0 <= i < |declarations| && declarations[i].kind == Class && declarations[i].owner == None && declarations[i].name == name && base in declarations[i].bases
  }

  /** A derivation: each name derives directly from the one before it. */
  ghost predicate Derivation(declarations: seq<Declaration>, names: seq<string>) {
    |names| > 1 && forall i :: 0 < i < |names| ==> DerivesDirectly(declarations, names[i - 1], names[i])
  }

  /** `name` inherits, in at least one step, from `ancestor` by base texts within the module. */
  ghost predicate IsDescendant(declarations: seq<Declaration>, ancestor: string, name: string) {
    exists names :: Derivation(declarations, names) && names[0] == ancestor && names[|names| - 1] == name
  }

  lemma DescendantStep(declarations: seq<Declaration>, ancestor: string, current: string, name: string)
    requires current == ancestor || IsDescendant(declarations, ancestor, current)
    requires DerivesDirectly(declarations, current, name)
    ensures IsDescendant(declarations, ancestor, name)
  {
    if IsDescendant(declarations, ancestor, current) {
      var names :| Derivation(declarations, names) && names[0] == ancestor && names[|names| - 1] == current;
      assert Derivation(declarations, names + [name]);
    } else {
      assert Derivation(declarations, [ancestor, name]);
    }
  }

  /** A set holding the direct children of the ancestor and of its own members holds every descendant. */
  lemma {:induction false} ClosedHoldsDescendants(declarations: seq<Declaration>, ancestor: string, closed: set<string>, names: seq<string>)
    requires Derivation(declarations, names) && names[0] == ancestor
    requires forall base, name :: (base == ancestor || base in closed) && DerivesDirectly(declarations, base, name) ==> name in closed
    ensures names[|names| - 1] in closed
    decreases |names|
  {
    assert DerivesDirectly(declarations, names[|names| - 2], names[|names| - 1]);
    if |names| <= 2 {
    } else {
      ClosedHoldsDescendants(declarations, ancestor, closed, names[..|names| - 1]);
    }
  }

  ghost function ClassNames(declarations: seq<Declaration>): set<string> {
    set i | 0 <= i < |declarations| && declarations[i].kind == Class && declarations[i].owner == None :: declarations[i].name
  }

  /** Everything taken off the stack has its direct children among the descendants. */
  ghost predicate Expanded(declarations: seq<Declaration>, root: string, descendants: set<string>, stack: seq<string>) {
    forall base, name :: (base == root || base in descendants) && base !in stack && DerivesDirectly(declarations, base, name) ==> name in descendants
  }

  /** One pass over the declarations for the name just popped. */
  method PushChildren(declarations: seq<Declaration>, current: string, descendants: set<string>, stack: seq<string>)
    returns (descendants': set<string>, stack': seq<string>)
    ensures descendants <= descendants' && stack <= stack'
    ensures forall name :: name in descendants' <==> name in descendants || DerivesDirectly(declarations, current, name)
    ensures forall name :: name in stack' <==> name in stack || (name in descendants' && name !in descendants)
    ensures descendants' == descendants ==> stack' == stack
  {
    descendants', stack' := descendants, stack;
    for i := 0 to |declarations|
      invariant descendants <= descendants' && stack <= stack'
      invariant forall name :: name in descendants' <==> name in descendants || DerivesDirectly(declarations[..i], current, name)
      invariant forall name :: name in stack' <==> name in stack || (name in descendants' && name !in descendants)
      invariant descendants' == descendants ==> stack' == stack
    {
      var declaration := declarations[i];
      DirectlyBySnoc(declarations, i, current);
      if declaration.IsTopLevelClass() && current in declaration.bases {
        if declaration.name !in descendants' {
          descendants' := descendants' + {declaration.name};
          stack' := stack' + [declaration.name];
        }
      }
    }
    assert declarations[..|declarations|] == declarations;
  }

  lemma DirectlyBySnoc(declarations: seq<Declaration>, i: nat, base: string)
    requires i < |declarations|
    ensures forall name :: DerivesDirectly(declarations[..i + 1], base, name) <==>
      DerivesDirectly(declarations[..i], base, name)
      || (declarations[i].kind == Class && declarations[i].owner == None && base in declarations[i].bases && name == declarations[i].name)
  {
    forall name
      ensures DerivesDirectly(declarations[..i + 1], base, name) <==>
        DerivesDirectly(declarations[..i], base, name)
        || (declarations[i].kind == Class && declarations[i].owner == None && base in declarations[i].bases && name == declarations[i].name)
    {
      var longer, shorter := declarations[..i + 1], declarations[..i];
      if DerivesDirectly(shorter, base, name) {
        var k :| 0 <= k < i && shorter[k].kind == Class && shorter[k].owner == None && shorter[k].name == name && base in shorter[k].bases;
        assert longer[k] == shorter[k];
      }
      if DerivesDirectly(longer, base, name) {
        var k :| 0 <= k < i + 1 && longer[k].kind == Class && longer[k].owner == None && longer[k].name == name && base in longer[k].bases;
        assert k < i ==> shorter[k] == longer[k];
      }
      assert longer[i] == declarations[i];
    }
  }

  /**
   `collect_sealed_descendants`: a worklist over the module's classes.  It terminates on every module and
   returns exactly the transitive closure of "lists as a base", also when base lists are cyclic.
   */
  method CollectSealedDescendants(declarations: seq<Declaration>, root: string) returns (descendants: set<string>)
    ensures forall name :: name in descendants <==> IsDescendant(declarations, root, name)
  {
    descendants := {};
    var stack := [root];
    while stack != []
      invariant descendants <= ClassNames(declarations)
      invariant forall name :: name in stack ==> name == root || name in descendants
      invariant forall name :: name in descendants ==> IsDescendant(declarations, root, name)
      invariant Expanded(declarations, root, descendants, stack)
      decreases ClassNames(declarations) - descendants, |stack|
    {
      var current := stack[|stack| - 1];
      var rest := stack[..|stack| - 1];
      assert stack == rest + [current];
      ghost var was := descendants;
      descendants, stack := PushChildren(declarations, current, descendants, rest);
      forall name | name in descendants && name !in was
        ensures IsDescendant(declarations, root, name)
      {
        DescendantStep(declarations, root, current, name);
      }
    }
    forall name | IsDescendant(declarations, root, name)
      ensures name in descendants
    {
      var names :| Derivation(declarations, names) && names[0] == root && names[|names| - 1] == name;
      ClosedHoldsDescendants(declarations, root, descendants, names);
    }
  }

  // ---------------------------------------------------------------------------------------------
  // The match check
  // ---------------------------------------------------------------------------------------------

  datatype Pattern = Wildcard | Literal(value: string) | ClassPattern(name: string) | Unsupported
  datatype Case = Case(hasGuard: bool, patterns: seq<Pattern>)

  predicate HasUnguardedWildcard(cases: seq<Case>) {
    exists i :: 0 <= i < |cases| && !cases[i].hasGuard && Wildcard in cases[i].patterns
  }

  /** An unguarded case names the class by a pattern that resolves to it. */
  ghost predicate UnguardedCaseNames(p: Program, module_: string, cases: seq<Case>, c: ClassRef) {
    exists i, t :: 0 <= i < |cases| && !cases[i].hasGuard && ClassPattern(t) in cases[i].patterns && p.ResolveDirectBase(module_, t) == Some(c)
  }

  /** A class of the sealed module that is the sealed root or inherits from it. */
  ghost predicate InHierarchy(p: Program, root: ClassRef, c: ClassRef) {
    c.module_ == root.module_ && (c.name == root.name || Inherits(p, c, root.name))
  }

  /** A value whose class is called `name` is an instance of the class called `ancestor`. */
  ghost predicate IsInstance(declarations: seq<Declaration>, name: string, ancestor: string) {
    name == ancestor || IsDescendant(declarations, ancestor, name)
  }

  /** Some unguarded case names a class of the hierarchy that every value of class `name` is an instance of. */
  ghost predicate CaughtInHierarchy(p: Program, module_: string, root: ClassRef, cases: seq<Case>, name: string)
    requires root.module_ in p.modules
  {
    exists c :: UnguardedCaseNames(p, module_, cases, c) && InHierarchy(p, root, c) && IsInstance(p.modules[root.module_], name, c.name)
  }

  // ---------------------------------------------------------------------------------------------
  // Run time
  // ---------------------------------------------------------------------------------------------

  /** The pattern takes every value of class `name`, as far as the hierarchy of the root tells. */
  ghost predicate Catches(p: Program, module_: string, root: ClassRef, pattern: Pattern, name: string)
    requires root.module_ in p.modules
  {
    match pattern
    case Wildcard => true
    case ClassPattern(t) => exists c :: p.ResolveDirectBase(module_, t) == Some(c) && InHierarchy(p, root, c) && IsInstance(p.modules[root.module_], name, c.name)
    case Literal(_) => false
    case Unsupported => false
  }

  /** A value of class `name` passes every case by, given how the guards come out. */
  ghost predicate FallsThrough(p: Program, module_: string, root: ClassRef, cases: seq<Case>, guards: seq<bool>, name: string)
    requires root.module_ in p.modules
  {
    && |guards| == |cases|
    && forall i, pattern :: 0 <= i < |cases| && (cases[i].hasGuard ==> guards[i]) && pattern in cases[i].patterns ==>
         !Catches(p, module_, root, pattern, name)
  }

  ghost predicate WildcardsAreGuarded(cases: seq<Case>) {
    forall i :: 0 <= i < |cases| && Wildcard in cases[i].patterns ==> cases[i].hasGuard
  }

  /** A fallen value is no instance of a class of the hierarchy that an unguarded case names. */
  lemma FallenIsNoInstance(p: Program, module_: string, root: ClassRef, cases: seq<Case>, guards: seq<bool>, name: string, c: ClassRef)
    requires root.module_ in p.modules && FallsThrough(p, module_, root, cases, guards, name)
    requires UnguardedCaseNames(p, module_, cases, c) && InHierarchy(p, root, c)
    ensures !IsInstance(p.modules[root.module_], name, c.name)
  {
    var i, t :| 0 <= i < |cases| && !cases[i].hasGuard && ClassPattern(t) in cases[i].patterns && p.ResolveDirectBase(module_, t) == Some(c);
    assert !Catches(p, module_, root, ClassPattern(t), name);
  }

  lemma FallenIsUncaught(p: Program, module_: string, root: ClassRef, cases: seq<Case>, guards: seq<bool>, name: string)
    requires root.module_ in p.modules && FallsThrough(p, module_, root, cases, guards, name)
    ensures WildcardsAreGuarded(cases) && !CaughtInHierarchy(p, module_, root, cases, name)
  {
    assert Catches(p, module_, root, Wildcard, name);
    forall c | UnguardedCaseNames(p, module_, cases, c) && InHierarchy(p, root, c) {
      FallenIsNoInstance(p, module_, root, cases, guards, name, c);
    }
  }

  lemma UncaughtFalls(p: Program, module_: string, root: ClassRef, cases: seq<Case>, name: string)
    requires root.module_ in p.modules && WildcardsAreGuarded(cases) && !CaughtInHierarchy(p, module_, root, cases, name)
    ensures FallsThrough(p, module_, root, cases, seq(|cases|, i => false), name)
  {
  }

  ghost predicate MayFallThrough(p: Program, module_: string, root: ClassRef, cases: seq<Case>, name: string)
    requires root.module_ in p.modules
  {
    exists guards :: FallsThrough(p, module_, root, cases, guards, name)
  }

  /** Guards may all fail: then only unguarded cases take a value. */
  lemma UncaughtMayFallThrough(p: Program, module_: string, root: ClassRef, cases: seq<Case>, name: string)
    requires root.module_ in p.modules
    ensures MayFallThrough(p, module_, root, cases, name) <==> WildcardsAreGuarded(cases) && !CaughtInHierarchy(p, module_, root, cases, name)
  {
    if guards :| FallsThrough(p, module_, root, cases, guards, name) {
      FallenIsUncaught(p, module_, root, cases, guards, name);
    } else if WildcardsAreGuarded(cases) && !CaughtInHierarchy(p, module_, root, cases, name) {
      UncaughtFalls(p, module_, root, cases, name);
    }
  }

  // ---------------------------------------------------------------------------------------------
  // Coverage
  // ---------------------------------------------------------------------------------------------

  /** What one class pattern adds to the covered names. */
  method CoveredByPattern(p: Program, module_: string, root: ClassRef, closure: set<string>, pattern: Pattern) returns (covered: set<string>)
    requires p.Valid() && p.IsClass(root)
    requires forall name :: name in closure <==> IsDescendant(p.modules[root.module_], root.name, name)
    ensures forall name :: name in closure ==> (name in covered <==>
      exists c :: pattern.ClassPattern? && p.ResolveDirectBase(module_, pattern.name) == Some(c)
                  && InHierarchy(p, root, c) && IsInstance(p.modules[root.module_], name, c.name))
  {
    covered := {};
    if pattern.ClassPattern? {
      var c := p.ResolveDirectBase(module_, pattern.name);
      if c.Some? && c.value.module_ == root.module_ {
        if c.value.name == root.name {
          covered := closure;
        } else {
          var descends := DescendsFrom(p, c.value, root.name);
          if descends {
            var below := CollectSealedDescendants(p.modules[root.module_], c.value.name);
            covered := {c.value.name} + below;
          }
        }
      }
    }
  }

  /** The coverage loop over unguarded cases. */
  method CoveredNames(p: Program, module_: string, root: ClassRef, closure: set<string>, cases: seq<Case>) returns (covered: set<string>)
    requires p.Valid() && p.IsClass(root)
    requires forall name :: name in closure <==> IsDescendant(p.modules[root.module_], root.name, name)
    ensures forall name :: name in closure ==> (name in covered <==> CaughtInHierarchy(p, module_, root, cases, name))
  {
    covered := {};
    for i := 0 to |cases|
      invariant forall name :: name in closure ==> (name in covered <==> CaughtInHierarchy(p, module_, root, cases[..i], name))
    {
      ghost var earlier := covered;
      var patterns := if cases[i].hasGuard then [] else cases[i].patterns;
      for j := 0 to |patterns|
        invariant forall name :: name in closure ==> (name in covered <==>
          name in earlier || CaughtInHierarchy(p, module_, root, [Case(false, patterns[..j])], name))
      {
        var more := CoveredByPattern(p, module_, root, closure, patterns[j]);
        forall name | name in closure
          ensures name in more + covered <==> name in earlier || CaughtInHierarchy(p, module_, root, [Case(false, patterns[..j + 1])], name)
        {
          CaughtByOneMore(p, module_, root, patterns, j, name);
        }
        covered := covered + more;
      }
      assert patterns[..|patterns|] == patterns;
      forall name | name in closure
        ensures CaughtInHierarchy(p, module_, root, cases[..i + 1], name) <==>
          CaughtInHierarchy(p, module_, root, cases[..i], name) || CaughtInHierarchy(p, module_, root, [Case(false, patterns)], name)
      {
        CaughtByCases(p, module_, root, cases, i, patterns, name);
      }
    }
    assert cases[..|cases|] == cases;
  }

  lemma CaughtByOneMore(p: Program, module_: string, root: ClassRef, patterns: seq<Pattern>, j: nat, name: string)
    requires root.module_ in p.modules && j < |patterns|
    ensures CaughtInHierarchy(p, module_, root, [Case(false, patterns[..j + 1])], name) <==>
      CaughtInHierarchy(p, module_, root, [Case(false, patterns[..j])], name)
      || exists c :: patterns[j].ClassPattern? && p.ResolveDirectBase(module_, patterns[j].name) == Some(c)
                     && InHierarchy(p, root, c) && IsInstance(p.modules[root.module_], name, c.name)
  {
    var more, fewer := [Case(false, patterns[..j + 1])], [Case(false, patterns[..j])];
    assert patterns[..j + 1] == patterns[..j] + [patterns[j]];
    forall c
      ensures UnguardedCaseNames(p, module_, more, c) <==>
        UnguardedCaseNames(p, module_, fewer, c)
        || (patterns[j].ClassPattern? && p.ResolveDirectBase(module_, patterns[j].name) == Some(c))
    {
      if UnguardedCaseNames(p, module_, fewer, c) {
        var t :| ClassPattern(t) in fewer[0].patterns && p.ResolveDirectBase(module_, t) == Some(c);
        assert ClassPattern(t) in more[0].patterns;
      }
      if patterns[j].ClassPattern? && p.ResolveDirectBase(module_, patterns[j].name) == Some(c) {
        assert ClassPattern(patterns[j].name) in more[0].patterns;
      }
      if UnguardedCaseNames(p, module_, more, c) {
        var t :| ClassPattern(t) in more[0].patterns && p.ResolveDirectBase(module_, t) == Some(c);
        assert ClassPattern(t) == patterns[j] || ClassPattern(t) in fewer[0].patterns;
      }
    }
  }

  lemma NamedByCases(p: Program, module_: string, cases: seq<Case>, i: nat, patterns: seq<Pattern>, c: ClassRef)
    requires i < |cases| && patterns == if cases[i].hasGuard then [] else cases[i].patterns
    ensures UnguardedCaseNames(p, module_, cases[..i + 1], c) <==>
      UnguardedCaseNames(p, module_, cases[..i], c) || UnguardedCaseNames(p, module_, [Case(false, patterns)], c)
  {
    var longer, shorter, one := cases[..i + 1], cases[..i], [Case(false, patterns)];
    if UnguardedCaseNames(p, module_, longer, c) {
      var k, t :| 0 <= k < |longer| && !longer[k].hasGuard && ClassPattern(t) in longer[k].patterns && p.ResolveDirectBase(module_, t) == Some(c);
      if k < i {
        assert shorter[k] == longer[k];
      } else {
        assert one[0].patterns == longer[k].patterns;
      }
    }
    if UnguardedCaseNames(p, module_, shorter, c) {
      var k, t :| 0 <= k < |shorter| && !shorter[k].hasGuard && ClassPattern(t) in shorter[k].patterns && p.ResolveDirectBase(module_, t) == Some(c);
      assert longer[k] == shorter[k];
    }
    if UnguardedCaseNames(p, module_, one, c) {
      var t :| ClassPattern(t) in one[0].patterns && p.ResolveDirectBase(module_, t) == Some(c);
      assert !longer[i].hasGuard && ClassPattern(t) in longer[i].patterns;
    }
  }

  lemma CaughtByCases(p: Program, module_: string, root: ClassRef, cases: seq<Case>, i: nat, patterns: seq<Pattern>, name: string)
    requires root.module_ in p.modules && i < |cases|
    requires patterns == if cases[i].hasGuard then [] else cases[i].patterns
    ensures CaughtInHierarchy(p, module_, root, cases[..i + 1], name) <==>
      CaughtInHierarchy(p, module_, root, cases[..i], name) || CaughtInHierarchy(p, module_, root, [Case(false, patterns)], name)
  {
    forall c
      ensures UnguardedCaseNames(p, module_, cases[..i + 1], c) <==>
        UnguardedCaseNames(p, module_, cases[..i], c) || UnguardedCaseNames(p, module_, [Case(false, patterns)], c)
    {
      NamedByCases(p, module_, cases, i, patterns, c);
    }
  }

  /** A sealed class is the subject's own class or above it. */
  ghost predicate HasSealedRoot(p: Program, module_: string, subject: string)
    requires p.Valid()
  {
    var own := p.ResolveDirectBase(module_, subject);
    own.Some? && exists d :: p.SpaceOf(AsText(), SealedHit(p)).Reaches(own.value, d) && p.IsClass(d) && p.ClassDeclaration(d).isSealed
  }

  /**
   `sealed_match_exhaustiveness_diagnostics` for one match whose subject type is `subject`.  The reported
   names are exactly the strict descendants of the sealed root whose values may pass all cases by.  No root is
   looked for where an unguarded case takes any value.
   */
  method MissingSealedCases(p: Program, module_: string, subject: string, cases: seq<Case>)
    returns (root: Option<ClassRef>, missing: set<string>)
    requires p.Valid()
    ensures root.Some? <==> WildcardsAreGuarded(cases) && HasSealedRoot(p, module_, subject)
    ensures root.Some? ==> p.IsClass(root.value) && p.ClassDeclaration(root.value).isSealed
    ensures root.None? ==> missing == {}
    ensures root.Some? ==> forall name ::
      name in missing <==>
        && IsDescendant(p.modules[root.value.module_], root.value.name, name)
        && MayFallThrough(p, module_, root.value, cases, name)
  {
    root, missing := None, {};
    if HasUnguardedWildcard(cases) {
      return;
    }
    root := ResolveSealedRoot(p, module_, subject);
    if root.None? {
      return;
    }
    var closure := CollectSealedDescendants(p.modules[root.value.module_], root.value.name);
    var covered := CoveredNames(p, module_, root.value, closure, cases);
    missing := set name | name in closure && name !in covered;
    forall name ensures MayFallThrough(p, module_, root.value, cases, name) <==> !CaughtInHierarchy(p, module_, root.value, cases, name) {
      UncaughtMayFallThrough(p, module_, root.value, cases, name);
    }
  }

  // ---------------------------------------------------------------------------------------------
  // The two searches agree
  // ---------------------------------------------------------------------------------------------

  /** Top-level classes declared twice list the same bases each time. */
  ghost predicate SameNamesSameBases(declarations: seq<Declaration>) {
    forall c, d, base :: c in declarations && d in declarations && c.kind == Class && c.owner == None && d.kind == Class && d.owner == None && c.name == d.name ==>
      (base in c.bases <==> base in d.bases)
  }

  /** A class of the module lists a base that is no class of the module by that text and resolves to `d`. */
  ghost predicate HasForeignBase(p: Program, module_: string, name: string, d: ClassRef) {
    p.IsClass(ClassRef(module_, name)) &&
    exists base :: base in p.ClassDeclaration(ClassRef(module_, name)).bases && IsForeign(p, module_, base, d)
  }

  ghost predicate IsForeign(p: Program, module_: string, base: string, d: ClassRef) {
    !p.IsClass(ClassRef(module_, base)) && p.ResolveDirectBase(module_, base) == Some(d)
  }

  /** Only descendants of the root by base texts inherit it through imported bases. */
  ghost predicate ImportsAddNothing(p: Program, module_: string, root: string)
    requires module_ in p.modules
  {
    forall name, d :: HasForeignBase(p, module_, name, d) && Inherits(p, d, root) ==> IsDescendant(p.modules[module_], root, name)
  }

  /** The module in which both searches find the same descendants of the root. */
  ghost predicate SearchesMatch(p: Program, module_: string, root: string) {
    module_ in p.modules && SameNamesSameBases(p.modules[module_]) && ImportsAddNothing(p, module_, root)
  }

  lemma DirectlyMeansNames(p: Program, module_: string, base: string, name: string)
    requires p.Valid() && module_ in p.modules && SameNamesSameBases(p.modules[module_])
    ensures DerivesDirectly(p.modules[module_], base, name) <==> Names(p, ClassRef(module_, name), base)
  {
    var declarations := p.modules[module_];
    if DerivesDirectly(declarations, base, name) {
      var i :| 0 <= i < |declarations| && declarations[i].kind == Class && declarations[i].owner == None && declarations[i].name == name && base in declarations[i].bases;
      var found := p.ClassDeclaration(ClassRef(module_, name));
      var j :| 0 <= j < |declarations| && declarations[j] == found;
      assert base in declarations[j].bases;
    }
    if Names(p, ClassRef(module_, name), base) {
      var found := p.ClassDeclaration(ClassRef(module_, name));
      var j :| 0 <= j < |declarations| && declarations[j] == found;
    }
  }

  ghost predicate Agree(p: Program, module_: string, root: string, name: string)
    requires module_ in p.modules
  {
    IsDescendant(p.modules[module_], root, name) <==> p.IsClass(ClassRef(module_, name)) && Inherits(p, ClassRef(module_, name), root)
  }

  /** Downwards by worklist or upwards by search: both find the same descendants. */
  lemma SearchesAgree(p: Program, module_: string, root: string, name: string)
    requires p.Valid() && SearchesMatch(p, module_, root)
    ensures Agree(p, module_, root, name)
  {
    if IsDescendant(p.modules[module_], root, name) {
      var names :| Derivation(p.modules[module_], names) && names[0] == root && names[|names| - 1] == name;
      DerivationInherits(p, module_, names);
    }
    if p.IsClass(ClassRef(module_, name)) && Inherits(p, ClassRef(module_, name), root) {
      var d :| Hierarchy(p).Reaches(ClassRef(module_, name), d) && Names(p, d, root);
      var path :| Hierarchy(p).IsPath(path) && path[0] == ClassRef(module_, name) && path[|path| - 1] == d;
      PathIsDerivation(p, module_, root, path);
    }
  }

  /** Where classes declared twice list the same bases, they do so for every name if and only if imports add nothing. */
  lemma SearchesAgreeIff(p: Program, module_: string, root: string)
    requires p.Valid() && module_ in p.modules && SameNamesSameBases(p.modules[module_])
    ensures (forall name :: Agree(p, module_, root, name)) <==> ImportsAddNothing(p, module_, root)
  {
    if ImportsAddNothing(p, module_, root) {
      forall name
        ensures Agree(p, module_, root, name)
      {
        SearchesAgree(p, module_, root, name);
      }
    }
    if forall name :: Agree(p, module_, root, name) {
      forall name, d | HasForeignBase(p, module_, name, d) && Inherits(p, d, root)
        ensures IsDescendant(p.modules[module_], root, name)
      {
        var base :| base in p.ClassDeclaration(ClassRef(module_, name)).bases && IsForeign(p, module_, base, d);
        InheritsThroughBase(p, ClassRef(module_, name), base, d, root);
        assert Agree(p, module_, root, name);
      }
    }
  }

  lemma {:induction false} DerivationInherits(p: Program, module_: string, names: seq<string>)
    requires p.Valid() && module_ in p.modules && SameNamesSameBases(p.modules[module_]) && Derivation(p.modules[module_], names)
    ensures p.IsClass(ClassRef(module_, names[|names| - 1])) && Inherits(p, ClassRef(module_, names[|names| - 1]), names[0])
    decreases |names|
  {
    var last, base := names[|names| - 1], names[|names| - 2];
    assert DerivesDirectly(p.modules[module_], base, last);
    DirectlyMeansNames(p, module_, base, last);
    if |names| == 2 {
      p.ClassesAreClasses(ClassRef(module_, last));
      Hierarchy(p).ReachesSelf(ClassRef(module_, last));
    } else {
      DerivationInherits(p, module_, names[..|names| - 1]);
      InheritsThroughBase(p, ClassRef(module_, last), base, ClassRef(module_, base), names[0]);
    }
  }

  /** A resolved base is foreign, or a class of the module listed under its own name. */
  lemma BaseIsDirect(p: Program, module_: string, c: ClassRef, base: ClassRef)
    requires p.Valid() && module_ in p.modules && SameNamesSameBases(p.modules[module_]) && c.module_ == module_
    requires c in p.Classes() && base in p.BasesOf(AsText(), c)
    ensures HasForeignBase(p, module_, c.name, base) || (base.module_ == module_ && DerivesDirectly(p.modules[module_], base.name, c.name))
  {
    p.ClassesAreClasses(c);
    assert c == ClassRef(module_, c.name);
    var bases := p.ClassDeclaration(c).bases;
    var i :| 0 <= i < |bases| && AsText()(bases[i]).Some? && p.ResolveDirectBase(module_, AsText()(bases[i]).value) == Some(base);
    assert bases[i] in bases;
    if p.IsClass(ClassRef(module_, bases[i])) {
      DirectlyMeansNames(p, module_, bases[i], c.name);
    } else {
      assert IsForeign(p, module_, bases[i], base);
    }
  }

  lemma PathInherits(p: Program, root: string, path: seq<ClassRef>)
    requires Hierarchy(p).IsPath(path) && Names(p, path[|path| - 1], root)
    ensures Inherits(p, path[0], root)
  {
    assert Hierarchy(p).Reaches(path[0], path[|path| - 1]);
  }

  lemma {:induction false} PathIsDerivation(p: Program, module_: string, root: string, path: seq<ClassRef>)
    requires p.Valid() && SearchesMatch(p, module_, root)
    requires Hierarchy(p).IsPath(path) && path[0].module_ == module_ && Names(p, path[|path| - 1], root)
    ensures IsDescendant(p.modules[module_], root, path[0].name)
    decreases |path|
  {
    if |path| == 1 {
      DirectlyMeansNames(p, module_, root, path[0].name);
      DescendantStep(p.modules[module_], root, root, path[0].name);
    } else {
      var c, d, rest := path[0], path[1], path[1..];
      assert Hierarchy(p).IsPath(rest) && rest[|rest| - 1] == path[|path| - 1];
      BaseIsDirect(p, module_, c, d);
      PathInherits(p, root, rest);
      if !HasForeignBase(p, module_, c.name, d) {
        PathIsDerivation(p, module_, root, rest);
        DescendantStep(p.modules[module_], root, d.name, c.name);
      }
    }
  }

  /**
   Exhaustiveness in the sealed module itself: no value whose class is a strict descendant of the root may pass all
   cases by exactly when an unguarded case takes any value, or every such value is an instance of a class that is the
   root or a descendant and is named by an unguarded case.
   */
  lemma ExhaustiveIffEveryValueIsCaught(p: Program, module_: string, root: ClassRef, cases: seq<Case>)
    requires p.Valid() && p.IsClass(root) && SearchesMatch(p, root.module_, root.name)
    ensures (forall name :: IsDescendant(p.modules[root.module_], root.name, name) ==> !MayFallThrough(p, module_, root, cases, name)) <==>
      forall name :: IsDescendant(p.modules[root.module_], root.name, name) ==>
        || (exists i :: 0 <= i < |cases| && !cases[i].hasGuard && Wildcard in cases[i].patterns)
        || exists c :: UnguardedCaseNames(p, module_, cases, c) && c.module_ == root.module_
                       && IsInstance(p.modules[root.module_], c.name, root.name)
                       && IsInstance(p.modules[root.module_], name, c.name)
  {
    var declarations := p.modules[root.module_];
    forall c | UnguardedCaseNames(p, module_, cases, c)
      ensures InHierarchy(p, root, c) <==> c.module_ == root.module_ && IsInstance(declarations, c.name, root.name)
    {
      if c.module_ == root.module_ {
        SearchesAgree(p, root.module_, root.name, c.name);
        assert c == ClassRef(root.module_, c.name);
      }
    }
    forall name | IsDescendant(declarations, root.name, name)
      ensures CaughtInHierarchy(p, module_, root, cases, name) <==>
        exists c :: UnguardedCaseNames(p, module_, cases, c) && c.module_ == root.module_
                    && IsInstance(declarations, c.name, root.name) && IsInstance(declarations, name, c.name)
    {
    }
    forall name ensures MayFallThrough(p, module_, root, cases, name) <==> WildcardsAreGuarded(cases) && !CaughtInHierarchy(p, module_, root, cases, name) {
      UncaughtMayFallThrough(p, module_, root, cases, name);
    }
  }

  // ---------------------------------------------------------------------------------------------
  // Values of the root's own class
  // ---------------------------------------------------------------------------------------------

  lemma DescendantsCompose(declarations: seq<Declaration>, high: string, middle: string, low: string)
    requires IsDescendant(declarations, high, middle) && IsDescendant(declarations, middle, low)
    ensures IsDescendant(declarations, high, low)
  {
    var upper :| Derivation(declarations, upper) && upper[0] == high && upper[|upper| - 1] == middle;
    var lower :| Derivation(declarations, lower) && lower[0] == middle && lower[|lower| - 1] == low;
    var whole := upper + lower[1..];
    forall i | 0 < i < |whole|
      ensures DerivesDirectly(declarations, whole[i - 1], whole[i])
    {
      if i >= |upper| {
        var j := i - |upper| + 1;
        assert whole[i] == lower[j] && whole[i - 1] == lower[j - 1];
      }
    }
    assert Derivation(declarations, whole);
  }

  /** A root that does not inherit from itself has its own values caught only by a case that names the root. */
  lemma {:induction false} RootValuesNeedTheRoot(p: Program, module_: string, root: ClassRef, cases: seq<Case>)
    requires p.Valid() && p.IsClass(root) && SearchesMatch(p, root.module_, root.name)
    requires !IsDescendant(p.modules[root.module_], root.name, root.name)
    ensures CaughtInHierarchy(p, module_, root, cases, root.name) <==> UnguardedCaseNames(p, module_, cases, root)
  {
    var declarations := p.modules[root.module_];
    if CaughtInHierarchy(p, module_, root, cases, root.name) {
      var c :| UnguardedCaseNames(p, module_, cases, c) && InHierarchy(p, root, c) && IsInstance(declarations, root.name, c.name);
      if c.name == root.name {
        assert c == root;
      } else {
        SearchesAgree(p, root.module_, root.name, c.name);
        assert c == ClassRef(root.module_, c.name);
        DescendantsCompose(declarations, root.name, c.name, root.name);
        assert false;
      }
    }
    if UnguardedCaseNames(p, module_, cases, root) {
      assert InHierarchy(p, root, root);
    }
  }

  /**
   Counting the root among the classes to be caught, a match is exhaustive if and only if it names the root.
   The check leaves the root out, that is, it takes a sealed root to have no values of its own.
   */
  lemma CountingTheRootMeansNamingIt(p: Program, module_: string, root: ClassRef, cases: seq<Case>)
    requires p.Valid() && p.IsClass(root) && SearchesMatch(p, root.module_, root.name)
    requires !IsDescendant(p.modules[root.module_], root.name, root.name)
    ensures (forall name :: IsInstance(p.modules[root.module_], name, root.name) ==> CaughtInHierarchy(p, module_, root, cases, name))
            <==> UnguardedCaseNames(p, module_, cases, root)
  {
    RootValuesNeedTheRoot(p, module_, root, cases);
    assert IsInstance(p.modules[root.module_], root.name, root.name);
    if UnguardedCaseNames(p, module_, cases, root) {
      assert InHierarchy(p, root, root);
    }
  }
}
