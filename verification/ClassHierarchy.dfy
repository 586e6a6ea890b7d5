/** Classes declared across modules, resolution of base names, and the searches built on it. */
module ClassHierarchy {
  import opened Prelude
  import opened ClassSearch

  datatype DeclarationKind = Class | Value | Function | Overload | TypeAlias | Import
  datatype MethodKind = Instance | ClassMethod | Static | Property | PropertySetter

  datatype Declaration = Declaration(
    name: string,
    kind: DeclarationKind,
    owner: Option<string>,
    isSealed: bool,
    bases: seq<string>,
    isClassVar: bool,
    methodKind: Option<MethodKind>
  ) {
    predicate IsTopLevelClass() {
      kind == Class && owner.None?
    }
  }

  /** Declaration `i` is the first top-level class of the name. */
  ghost predicate IsFirstClass(declarations: seq<Declaration>, name: string, i: nat)
    requires i < |declarations|
  {
    && declarations[i].kind == Class && declarations[i].owner == None && declarations[i].name == name
    && forall j :: 0 <= j < i && declarations[j].kind == Class && declarations[j].owner == None ==> declarations[j].name != name
  }

  function FindClass(declarations: seq<Declaration>, name: string): (found: Option<Declaration>)
    ensures found.Some? ==> exists i :: 0 <= i < |declarations| && declarations[i] == found.value && IsFirstClass(declarations, name, i)
    ensures found.None? ==> forall d :: d in declarations && d.kind == Class && d.owner == None ==> d.name != name
  {
    if declarations == [] then None
    else if declarations[0].name == name && declarations[0].IsTopLevelClass() then (assert IsFirstClass(declarations, name, 0); Some(declarations[0]))
    else
      var rest := FindClass(declarations[1..], name);
      assert forall i :: 0 <= i < |declarations[1..]| && IsFirstClass(declarations[1..], name, i) ==> IsFirstClass(declarations, name, i + 1);
      rest
  }

  /**
   The checked modules and the classes their imported names resolve to.  Import resolution itself is
   foreign code; it is taken to lead to classes of checked modules.
   */
  datatype Program = Program(
    modules: map<string, seq<Declaration>>,
    imported: map<(string, string), ClassRef>
  ) {
    predicate IsClass(c: ClassRef) {
      c.module_ in modules && FindClass(modules[c.module_], c.name).Some?
    }

    /** The module itself declares a class of the name at its top level. */
    ghost predicate HasClass(module_: string, name: string) {
      module_ in modules && exists d :: d in modules[module_] && d.kind == Class && d.owner == None && d.name == name
    }

    ghost predicate Valid() {
      forall site :: site in imported ==> IsClass(imported[site])
    }

    function ClassDeclaration(c: ClassRef): Declaration
      requires IsClass(c)
    {
      FindClass(modules[c.module_], c.name).value
    }

    function Classes(): set<ClassRef> {
      set m, i | m in modules && 0 <= i < |modules[m]| && modules[m][i].IsTopLevelClass() :: ClassRef(m, modules[m][i].name)
    }

    lemma ClassesAreClasses(c: ClassRef)
      ensures c in Classes() <==> IsClass(c)
    {
      if IsClass(c) {
        var declaration := ClassDeclaration(c);
        var i :| 0 <= i < |modules[c.module_]| && modules[c.module_][i] == declaration;
        assert c == ClassRef(c.module_, modules[c.module_][i].name);
      }
    }

    /** `resolve_direct_base`: a class of the module itself, else an imported one. */
    function ResolveDirectBase(module_: string, base: string): (c: Option<ClassRef>)
      ensures Valid() && c.Some? ==> IsClass(c.value)
      ensures HasClass(module_, base) ==> c == Some(ClassRef(module_, base))
      ensures !HasClass(module_, base) ==> forall d :: c == Some(d) <==> (module_, base) in imported && imported[(module_, base)] == d
    {
      if IsClass(ClassRef(module_, base)) then Some(ClassRef(module_, base))
      else if (module_, base) in imported then Some(imported[(module_, base)])
      else None
    }

    /** The resolvable bases of a class, in order, under a reading of base texts as class names. */
    function ResolvedBases(naming: string -> Option<string>, module_: string, bases: seq<string>): (refs: seq<ClassRef>)
      ensures forall c :: c in refs <==>
        exists i :: 0 <= i < |bases| && naming(bases[i]).Some? && ResolveDirectBase(module_, naming(bases[i]).value) == Some(c)
    {
      if bases == [] then []
      else
        var last := bases[|bases| - 1];
        ResolvedBases(naming, module_, bases[..|bases| - 1])
        + if naming(last).Some? && ResolveDirectBase(module_, naming(last).value).Some?
          then [ResolveDirectBase(module_, naming(last).value).value] else []
    }

    function BasesOf(naming: string -> Option<string>, c: ClassRef): seq<ClassRef> {
      if IsClass(c) then ResolvedBases(naming, c.module_, ClassDeclaration(c).bases) else []
    }

    function SpaceOf<T>(naming: string -> Option<string>, hit: ClassRef -> Option<T>): Space<T> {
      Space(Classes(), c => BasesOf(naming, c), hit)
    }

    lemma SpaceIsValid<T>(naming: string -> Option<string>, hit: ClassRef -> Option<T>)
      requires Valid()
      ensures SpaceOf(naming, hit).Valid()
    {
      forall c, d | c in Classes() && d in BasesOf(naming, c)
        ensures d in Classes()
      {
        ClassesAreClasses(d);
      }
    }
  }

  /** Base texts read as class names, the way the sealed-class searches compare them. */
  function AsText(): string -> Option<string> {
    (base: string) => Some(base)
  }

  // ---------------------------------------------------------------------------------------------
  // Ancestor search by base text
  // ---------------------------------------------------------------------------------------------

  /** The class hierarchy by resolvable base texts. */
  ghost function Hierarchy(p: Program): Space<()> {
    p.SpaceOf(AsText(), (c: ClassRef) => None)
  }

  ghost predicate Names(p: Program, c: ClassRef, root: string) {
    p.IsClass(c) && root in p.ClassDeclaration(c).bases
  }

  /** Following resolvable bases, at least one class on the way names `root` among its bases. */
  ghost predicate Inherits(p: Program, c: ClassRef, root: string) {
    exists d :: Hierarchy(p).Reaches(c, d) && Names(p, d, root)
  }

  /** Newly visited classes do not name the root, and lead only to visited classes. */
  ghost predicate Fruitless(p: Program, root: string, before: set<ClassRef>, after: set<ClassRef>) {
    && before <= after <= p.Classes()
    && forall v :: v in after && v !in before ==> !Names(p, v, root) && forall d :: d in p.BasesOf(AsText(), v) ==> d in after
  }

  /** `sealed_descends_from_with_visited`: depth-first over bases, one visited set for all siblings. */
  method DescendsFromVisited(p: Program, c: ClassRef, root: string, visited: set<ClassRef>)
    returns (found: bool, visited': set<ClassRef>)
    requires p.Valid() && p.IsClass(c) && visited <= p.Classes()
    ensures visited' <= p.Classes()
    ensures found ==> Inherits(p, c, root)
    ensures !found ==> c in visited' && Fruitless(p, root, visited, visited')
    decreases p.Classes() - visited
  {
    if c in visited {
      return false, visited;
    }
    visited' := visited + {c};
    found := false;
    var bases := p.ClassDeclaration(c).bases;
    for i := 0 to |bases|
      invariant visited + {c} <= visited' <= p.Classes()
      invariant Fruitless(p, root, visited + {c}, visited')
      invariant forall j :: 0 <= j < i ==> bases[j] != root
      invariant forall j :: 0 <= j < i && p.ResolveDirectBase(c.module_, bases[j]).Some? ==> p.ResolveDirectBase(c.module_, bases[j]).value in visited'
    {
      if bases[i] == root {
        Hierarchy(p).ReachesSelf(c);
        assert Names(p, c, root);
        return true, visited';
      }
      var base := p.ResolveDirectBase(c.module_, bases[i]);
      if base.Some? {
        found, visited' := DescendsFromVisited(p, base.value, root, visited');
        if found {
          InheritsThroughBase(p, c, bases[i], base.value, root);
          return;
        }
      }
    }
  }

  lemma InheritsThroughBase(p: Program, c: ClassRef, base: string, d: ClassRef, root: string)
    requires p.Valid() && p.IsClass(c) && base in p.ClassDeclaration(c).bases && p.ResolveDirectBase(c.module_, base) == Some(d)
    requires Inherits(p, d, root)
    ensures Inherits(p, c, root)
  {
    p.ClassesAreClasses(c);
    var bases := p.ClassDeclaration(c).bases;
    var i :| 0 <= i < |bases| && bases[i] == base;
    assert AsText()(bases[i]) == Some(base);
    assert d in p.BasesOf(AsText(), c);
    var e :| Hierarchy(p).Reaches(d, e) && Names(p, e, root);
    Hierarchy(p).ReachesThrough(c, d, e);
  }

  /** `sealed_descends_from` is exact on every class graph, cyclic ones included. */
  method DescendsFrom(p: Program, c: ClassRef, root: string) returns (found: bool)
    requires p.Valid() && p.IsClass(c)
    ensures found <==> Inherits(p, c, root)
  {
    var visited;
    found, visited := DescendsFromVisited(p, c, root, {});
    if !found {
      forall d | Hierarchy(p).Reaches(c, d)
        ensures !Names(p, d, root)
      {
        var path :| Hierarchy(p).IsPath(path) && path[0] == c && path[|path| - 1] == d;
        Hierarchy(p).ClosedHoldsReachable(visited, path);
      }
    }
  }

  // ---------------------------------------------------------------------------------------------
  // Nearest sealed class and nearest writable member
  // ---------------------------------------------------------------------------------------------

  /** A class answers the sealed-root search by being sealed. */
  function SealedHit(p: Program): ClassRef -> Option<ClassRef> {
    (c: ClassRef) => if p.IsClass(c) && p.ClassDeclaration(c).isSealed then Some(c) else None
  }

  /**
   `resolve_sealed_root`: the nearest sealed class at or above the named type.  It is found whenever some
   reachable class is sealed, and on acyclic hierarchies it is the first in pre-order.
   */
  method ResolveSealedRoot(p: Program, module_: string, typeName: string) returns (root: Option<ClassRef>)
    requires p.Valid()
    ensures var start := p.ResolveDirectBase(module_, typeName); var s := p.SpaceOf(AsText(), SealedHit(p));
      && (root.Some? <==> start.Some? && exists d :: s.Reaches(start.value, d) && p.IsClass(d) && p.ClassDeclaration(d).isSealed)
      && (root.Some? ==> p.IsClass(root.value) && p.ClassDeclaration(root.value).isSealed && s.Reaches(start.value, root.value))
      && (start.Some? && s.Valid() && s.Acyclic() && start.value in s.classes ==> root == s.FirstHit(s.PreOrder(start.value)))
  {
    var start := p.ResolveDirectBase(module_, typeName);
    if start.None? {
      return None;
    }
    p.SpaceIsValid(AsText(), SealedHit(p));
    root := Search(p.SpaceOf(AsText(), SealedHit(p)), start.value);
    assert forall d :: p.SpaceOf(AsText(), SealedHit(p)).hit(d).Some? <==> p.IsClass(d) && p.ClassDeclaration(d).isSealed;
  }

  datatype WritableTarget =
    | ValueTarget(declaringClass: ClassRef, declaration: Declaration)
    | SetterTarget(declaringClass: ClassRef, declaration: Declaration)
    | ReadOnlyProperty
    | NonWritable

  /** The declarations a class itself makes under a member name. */
  function LocalMembers(declarations: seq<Declaration>, className: string, member: string): (local: seq<Declaration>)
    ensures forall d :: d in local <==> d in declarations && d.owner == Some(className) && d.name == member
  {
    if declarations == [] then []
    else
      (if declarations[0].owner == Some(className) && declarations[0].name == member then [declarations[0]] else [])
      + LocalMembers(declarations[1..], className, member)
  }

  predicate IsWritableValue(d: Declaration) {
    d.kind == Value && !d.isClassVar
  }

  predicate IsSetter(d: Declaration) {
    d.kind == Function && d.methodKind == Some(PropertySetter)
  }

  predicate IsProperty(d: Declaration) {
    d.kind == Function && d.methodKind == Some(Property)
  }

  /** The first declaration, in the order of the list, that is accepted. */
  ghost predicate IsFirst(declarations: seq<Declaration>, accept: Declaration -> bool, d: Declaration) {
    exists i :: 0 <= i < |declarations| && declarations[i] == d && accept(d) && forall j :: 0 <= j < i ==> !accept(declarations[j])
  }

  function FirstWhere(declarations: seq<Declaration>, accept: Declaration -> bool): (found: Option<Declaration>)
    ensures found.Some? ==> IsFirst(declarations, accept, found.value)
    ensures found.None? ==> forall d :: d in declarations ==> !accept(d)
  {
    if declarations == [] then None
    else if accept(declarations[0]) then Some(declarations[0])
    else
      var rest := FirstWhere(declarations[1..], accept);
      assert rest.Some? ==> forall i :: 0 <= i < |declarations[1..]| ==> declarations[1..][i] == declarations[i + 1];
      rest
  }

  /** A declaration that is not accepted makes no difference in front. */
  lemma FirstBehind(declarations: seq<Declaration>, accept: Declaration -> bool, d: Declaration)
    requires declarations != [] && !accept(declarations[0])
    ensures IsFirst(declarations, accept, d) <==> IsFirst(declarations[1..], accept, d)
  {
    if i :| 0 <= i < |declarations| && declarations[i] == d && accept(d) && forall j :: 0 <= j < i ==> !accept(declarations[j]) {
      assert declarations[1..][i - 1] == d;
    }
  }

  lemma FirstIsAccepted(declarations: seq<Declaration>, accept: Declaration -> bool, d: Declaration)
    requires declarations != [] && accept(declarations[0])
    ensures IsFirst(declarations, accept, d) <==> d == declarations[0]
  {
  }

  /** Filtering by owner and name keeps what comes first. */
  lemma {:induction false} FirstOfLocal(declarations: seq<Declaration>, className: string, member: string, accept: Declaration -> bool, own: Declaration -> bool, d: Declaration)
    requires forall x :: own(x) <==> x.owner == Some(className) && x.name == member && accept(x)
    requires IsFirst(LocalMembers(declarations, className, member), accept, d)
    ensures IsFirst(declarations, own, d)
  {
    var local, rest := LocalMembers(declarations, className, member), LocalMembers(declarations[1..], className, member);
    if own(declarations[0]) {
      FirstIsAccepted(local, accept, d);
      FirstIsAccepted(declarations, own, d);
    } else {
      if declarations[0].owner == Some(className) && declarations[0].name == member {
        assert local[1..] == rest;
        FirstBehind(local, accept, d);
      } else {
        assert local == rest;
      }
      FirstOfLocal(declarations[1..], className, member, accept, own, d);
      FirstBehind(declarations, own, d);
    }
  }

  /** The class itself assigns to the member as a value of its instances. */
  ghost predicate IsInstanceValue(d: Declaration, c: ClassRef, member: string) {
    d.owner == Some(c.name) && d.name == member && d.kind == Value && !d.isClassVar
  }

  ghost predicate IsAccessor(d: Declaration, c: ClassRef, member: string, accessor: MethodKind) {
    d.owner == Some(c.name) && d.name == member && d.kind == Function && d.methodKind == Some(accessor)
  }

  /**
   What a class answers by itself: its first instance value, else its first setter, else a read-only
   property, else not writable; and nothing when it does not declare the member.
   */
  function LocalTarget(p: Program, c: ClassRef, member: string): (target: Option<WritableTarget>)
    ensures target.Some? <==> p.IsClass(c) && exists d :: d in p.modules[c.module_] && d.owner == Some(c.name) && d.name == member
    ensures target.Some? ==> var declarations := p.modules[c.module_];
      if exists d :: d in declarations && IsInstanceValue(d, c, member) then
        target.value.ValueTarget? && target.value.declaringClass == c && IsFirst(declarations, d => IsInstanceValue(d, c, member), target.value.declaration)
      else if exists d :: d in declarations && IsAccessor(d, c, member, PropertySetter) then
        target.value.SetterTarget? && target.value.declaringClass == c && IsFirst(declarations, d => IsAccessor(d, c, member, PropertySetter), target.value.declaration)
      else if exists d :: d in declarations && IsAccessor(d, c, member, Property) then target.value.ReadOnlyProperty?
      else target.value.NonWritable?
  {
    if !p.IsClass(c) then None
    else
      var local := LocalMembers(p.modules[c.module_], c.name, member);
      var value := FirstWhere(local, IsWritableValue);
      var setter := FirstWhere(local, IsSetter);
      if value.Some? then
        FirstOfLocal(p.modules[c.module_], c.name, member, IsWritableValue, d => IsInstanceValue(d, c, member), value.value);
        Some(ValueTarget(c, value.value))
      else if setter.Some? then
        FirstOfLocal(p.modules[c.module_], c.name, member, IsSetter, d => IsAccessor(d, c, member, PropertySetter), setter.value);
        Some(SetterTarget(c, setter.value))
      else if FirstWhere(local, IsProperty).Some? then Some(ReadOnlyProperty)
      else if local != [] then (assert local[0] in local; Some(NonWritable))
      else None
  }

  function MemberSpace(p: Program, nominal: string -> Option<string>, member: string): Space<WritableTarget> {
    p.SpaceOf(nominal, c => LocalTarget(p, c, member))
  }

  /**
   `find_owned_writable_member_target`: `nominal` gives the class name a base type stands for.  A target
   other than the NonWritable default is found exactly when a reachable class declares the member, and on
   acyclic hierarchies it is the one of the first declaring class in pre-order.
   */
  method FindOwnedWritableMemberTarget(p: Program, nominal: string -> Option<string>, c: ClassRef, member: string)
    returns (target: WritableTarget)
    requires p.Valid() && p.IsClass(c)
    ensures !(exists d :: MemberSpace(p, nominal, member).Reaches(c, d) && LocalTarget(p, d, member).Some?) ==> target == NonWritable
    ensures (exists d :: MemberSpace(p, nominal, member).Reaches(c, d) && LocalTarget(p, d, member).Some?) ==>
      exists d :: MemberSpace(p, nominal, member).Reaches(c, d) && LocalTarget(p, d, member) == Some(target)
    ensures var s := MemberSpace(p, nominal, member);
      s.Valid() && s.Acyclic() && c in s.classes ==>
        target == match s.FirstHit(s.PreOrder(c)) case Some(t) => t case None => NonWritable
  {
    p.SpaceIsValid(nominal, (d: ClassRef) => LocalTarget(p, d, member));
    var found := Search(MemberSpace(p, nominal, member), c);
    target := match found case Some(t) => t case None => NonWritable;
  }
}
