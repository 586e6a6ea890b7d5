/**
 Depth-first search over class references with a visited set shared between siblings, and what the
 pruning does not change.
 */
module ClassSearch {
  import opened Prelude

  datatype ClassRef = ClassRef(module_: string, name: string)

  /** A finite class graph with ordered successors, and the answer a class gives by itself, if any. */
  datatype Space<!T> = Space(
    classes: set<ClassRef>,
    succ: ClassRef -> seq<ClassRef>,
    hit: ClassRef -> Option<T>
  ) {
    ghost predicate Valid() {
      forall c, d :: c in classes && d in succ(c) ==> d in classes
    }

    ghost predicate IsPath(path: seq<ClassRef>) {
      && |path| > 0
      && (forall i :: 0 <= i < |path| ==> path[i] in classes)
      && forall i :: 0 < i < |path| ==> path[i] in succ(path[i - 1])
    }

    /** `to` is `from` or can be reached from it through successors. */
    ghost predicate Reaches(from: ClassRef, to: ClassRef) {
      exists path :: IsPath(path) && path[0] == from && path[|path| - 1] == to
    }

    ghost predicate Acyclic() {
      forall c, d :: c in classes && d in succ(c) ==> !Reaches(d, c)
    }

    lemma ReachesSelf(c: ClassRef)
      requires c in classes
      ensures Reaches(c, c)
    {
      assert IsPath([c]);
    }

    lemma ReachesThrough(c: ClassRef, d: ClassRef, to: ClassRef)
      requires c in classes && d in succ(c) && Reaches(d, to)
      ensures Reaches(c, to)
    {
      var path :| IsPath(path) && path[0] == d && path[|path| - 1] == to;
      var longer := [c] + path;
      assert IsPath(longer) && longer[0] == c && longer[|longer| - 1] == to;
    }

    /** A set closed under successors holds everything reachable from its members. */
    lemma {:induction false} ClosedHoldsReachable(closed: set<ClassRef>, path: seq<ClassRef>)
      requires IsPath(path) && path[0] in closed
      requires forall c, d :: c in closed && d in succ(c) ==> d in closed
      ensures path[|path| - 1] in closed
      decreases |path|
    {
      if |path| > 1 {
        assert path[1] in succ(path[0]);
        ClosedHoldsReachable(closed, path[1..]);
      }
    }

    ghost function ReachSet(c: ClassRef): set<ClassRef> {
      set d | d in classes && Reaches(c, d)
    }

    lemma RankDrops(c: ClassRef, d: ClassRef)
      requires Valid() && Acyclic() && c in classes && d in succ(c)
      ensures |ReachSet(d)| < |ReachSet(c)|
    {
      forall e | e in ReachSet(d)
        ensures e in ReachSet(c)
      {
        ReachesThrough(c, d, e);
      }
      ReachesSelf(c);
      SubsetIsSmaller(ReachSet(d), ReachSet(c), c);
    }

    /** The classes in the order an unpruned depth-first search meets them, repetitions included. */
    ghost function PreOrder(c: ClassRef): seq<ClassRef>
      requires Valid() && Acyclic() && c in classes
      decreases |ReachSet(c)|, 1, 0
    {
      forall d | d in succ(c) ensures |ReachSet(d)| < |ReachSet(c)| { RankDrops(c, d); }
      [c] + PreOrderOfAll(succ(c), |ReachSet(c)|)
    }

    ghost function PreOrderOfAll(cs: seq<ClassRef>, bound: nat): seq<ClassRef>
      requires Valid() && Acyclic()
      requires forall c :: c in cs ==> c in classes && |ReachSet(c)| < bound
      decreases bound, 0, |cs|
    {
      if cs == [] then [] else PreOrderOfAll(cs[..|cs| - 1], bound) + PreOrder(cs[|cs| - 1])
    }

    /** The first answer along a sequence of classes. */
    ghost function FirstHit(cs: seq<ClassRef>): Option<T> {
      if cs == [] then None
      else if hit(cs[0]).Some? then hit(cs[0])
      else FirstHit(cs[1..])
    }

    lemma {:induction false} FirstHitOfConcatenation(left: seq<ClassRef>, right: seq<ClassRef>)
      ensures FirstHit(left + right) == if FirstHit(left).Some? then FirstHit(left) else FirstHit(right)
    {
      if left == [] {
        assert left + right == right;
      } else {
        assert (left + right)[1..] == left[1..] + right;
        FirstHitOfConcatenation(left[1..], right);
      }
    }

    /** Nothing below a dead class answers. */
    ghost predicate Dead(c: ClassRef)
      requires Valid() && Acyclic() && c in classes
    {
      FirstHit(PreOrder(c)).None?
    }

    ghost predicate DeadBelow(c: ClassRef, visited: set<ClassRef>)
      requires Valid() && Acyclic() && visited <= classes
    {
      forall v :: v in visited && Reaches(c, v) ==> Dead(v)
    }

    /** What a failed search leaves behind: the newly visited classes answer nothing and lead only to visited ones. */
    ghost predicate Exhausted(before: set<ClassRef>, after: set<ClassRef>) {
      && before <= after <= classes
      && forall v :: v in after && v !in before ==> hit(v).None? && forall d :: d in succ(v) ==> d in after
    }
  }

  lemma SubsetIsSmaller<A>(small: set<A>, large: set<A>, extra: A)
    requires small <= large && extra in large && extra !in small
    ensures |small| < |large|
  {
    assert small <= large - {extra};
    assert |large - {extra}| == |large| - 1;
    SubsetCardinality(small, large - {extra});
  }

  lemma {:induction false} SubsetCardinality<A>(small: set<A>, large: set<A>)
    requires small <= large
    ensures |small| <= |large|
  {
    if small == {} {
    } else {
      var x :| x in small;
      SubsetCardinality(small - {x}, large - {x});
    }
  }

  /** Every class the search newly visited answers nothing, nor does anything below it. */
  ghost predicate NewlyDead<T>(s: Space<T>, before: set<ClassRef>, after: set<ClassRef>)
    requires s.Valid() && s.Acyclic() && after <= s.classes
  {
    forall v :: v in after && v !in before ==> s.Dead(v)
  }

  /**
   The search the checker uses for nearest ancestors: skip what was visited, answer if the class itself
   can, else ask the successors in order, sharing one visited set.  `exact` marks the calls for which the
   pruning has been harmless so far.
   */
  method SearchVisited<T>(s: Space<T>, c: ClassRef, visited: set<ClassRef>, ghost exact: bool)
    returns (found: Option<T>, visited': set<ClassRef>)
    requires s.Valid() && c in s.classes && visited <= s.classes
    requires exact ==> s.Acyclic() && s.DeadBelow(c, visited)
    ensures visited' <= s.classes
    ensures found.Some? ==> exists d :: s.Reaches(c, d) && s.hit(d) == found
    ensures found.None? ==> c in visited' && s.Exhausted(visited, visited')
    ensures exact ==> found == s.FirstHit(s.PreOrder(c))
    ensures exact && found.None? ==> NewlyDead(s, visited, visited')
    decreases s.classes - visited, 1
  {
    s.ReachesSelf(c);
    if c in visited {
      return None, visited;
    }
    found := s.hit(c);
    if found.Some? {
      visited' := visited + {c};
      return;
    }
    found, visited' := SearchBases(s, c, visited, exact);
  }

  /** The loop over the direct bases of a class that gives no answer itself. */
  method SearchBases<T>(s: Space<T>, c: ClassRef, visited: set<ClassRef>, ghost exact: bool)
    returns (found: Option<T>, visited': set<ClassRef>)
    requires s.Valid() && c in s.classes && visited <= s.classes && c !in visited && s.hit(c).None?
    requires exact ==> s.Acyclic() && s.DeadBelow(c, visited)
    ensures visited' <= s.classes
    ensures found.Some? ==> exists d :: s.Reaches(c, d) && s.hit(d) == found
    ensures found.None? ==> c in visited' && s.Exhausted(visited, visited')
    ensures exact ==> found == s.FirstHit(s.PreOrder(c))
    ensures exact && found.None? ==> NewlyDead(s, visited, visited')
    decreases s.classes - visited, 0
  {
    visited' := visited + {c};
    found := None;
    var bases := s.succ(c);
    for i := 0 to |bases|
      invariant found.None?
      invariant BasesFailed(s, c, i, visited, visited')
      invariant exact ==> BasesDead(s, c, i, visited, visited')
    {
      if exact {
        PruningIsHarmless(s, c, bases[i], visited, visited');
      }
      ghost var before := visited';
      found, visited' := SearchVisited(s, bases[i], visited', exact);
      if found.Some? {
        ReachesFromBase(s, c, bases[i], found);
        if exact {
          FirstLiveBase(s, c, i);
        }
        return;
      }
      OneMoreBaseFailed(s, c, i, visited, before, visited');
      if exact {
        OneMoreBaseDead(s, c, i, visited, before, visited');
      }
    }
    if exact {
      AllBasesDead(s, c);
    }
  }

  /** The first `n` bases were searched without an answer. */
  ghost predicate BasesFailed<T>(s: Space<T>, c: ClassRef, n: nat, visited: set<ClassRef>, now: set<ClassRef>) {
    && n <= |s.succ(c)|
    && s.Exhausted(visited + {c}, now)
    && forall j :: 0 <= j < n ==> s.succ(c)[j] in now
  }

  /** Moreover the pruning was harmless, and they are dead. */
  ghost predicate BasesDead<T>(s: Space<T>, c: ClassRef, n: nat, visited: set<ClassRef>, now: set<ClassRef>)
    requires s.Valid() && s.Acyclic() && c in s.classes && now <= s.classes
  {
    && n <= |s.succ(c)|
    && NewlyDead(s, visited + {c}, now)
    && forall j :: 0 <= j < n ==> s.Dead(s.succ(c)[j])
  }

  lemma OneMoreBaseFailed<T>(s: Space<T>, c: ClassRef, n: nat, visited: set<ClassRef>, before: set<ClassRef>, after: set<ClassRef>)
    requires n < |s.succ(c)| && BasesFailed(s, c, n, visited, before)
    requires s.succ(c)[n] in after && s.Exhausted(before, after)
    ensures BasesFailed(s, c, n + 1, visited, after)
  {
  }

  lemma OneMoreBaseDead<T>(s: Space<T>, c: ClassRef, n: nat, visited: set<ClassRef>, before: set<ClassRef>, after: set<ClassRef>)
    requires s.Valid() && s.Acyclic() && c in s.classes && n < |s.succ(c)| && before <= after <= s.classes
    requires BasesDead(s, c, n, visited, before) && NewlyDead(s, before, after) && s.Dead(s.succ(c)[n])
    ensures BasesDead(s, c, n + 1, visited, after)
  {
  }

  lemma ReachesFromBase<T>(s: Space<T>, c: ClassRef, base: ClassRef, found: Option<T>)
    requires c in s.classes && base in s.succ(c)
    requires exists d :: s.Reaches(base, d) && s.hit(d) == found
    ensures exists d :: s.Reaches(c, d) && s.hit(d) == found
  {
    var d :| s.Reaches(base, d) && s.hit(d) == found;
    s.ReachesThrough(c, base, d);
  }

  /** Below a base, every visited class is dead: the class itself is out of reach, the rest already failed. */
  lemma PruningIsHarmless<T>(s: Space<T>, c: ClassRef, base: ClassRef, visited: set<ClassRef>, now: set<ClassRef>)
    requires s.Valid() && s.Acyclic() && c in s.classes && base in s.succ(c) && visited <= s.classes
    requires s.DeadBelow(c, visited)
    requires visited + {c} <= now <= s.classes && NewlyDead(s, visited + {c}, now)
    ensures s.DeadBelow(base, now)
  {
    forall v | v in now && s.Reaches(base, v)
      ensures s.Dead(v)
    {
      s.ReachesThrough(c, base, v);
    }
  }

  lemma {:induction false} PreOrderPrefixDead<T>(s: Space<T>, cs: seq<ClassRef>, bound: nat)
    requires s.Valid() && s.Acyclic()
    requires forall c :: c in cs ==> c in s.classes && |s.ReachSet(c)| < bound && s.Dead(c)
    ensures s.FirstHit(s.PreOrderOfAll(cs, bound)).None?
    decreases |cs|
  {
    if cs == [] {
    } else {
      PreOrderPrefixDead(s, cs[..|cs| - 1], bound);
      s.FirstHitOfConcatenation(s.PreOrderOfAll(cs[..|cs| - 1], bound), s.PreOrder(cs[|cs| - 1]));
    }
  }

  /** Appending successors behind a live one does not change the first answer. */
  lemma {:induction false} FirstHitKeeps<T>(s: Space<T>, cs: seq<ClassRef>, n: nat, bound: nat)
    requires s.Valid() && s.Acyclic() && n <= |cs|
    requires forall c :: c in cs ==> c in s.classes && |s.ReachSet(c)| < bound
    requires s.FirstHit(s.PreOrderOfAll(cs[..n], bound)).Some?
    ensures s.FirstHit(s.PreOrderOfAll(cs, bound)) == s.FirstHit(s.PreOrderOfAll(cs[..n], bound))
    decreases |cs|
  {
    if n < |cs| {
      var front := cs[..|cs| - 1];
      assert front[..n] == cs[..n];
      FirstHitKeeps(s, front, n, bound);
      s.FirstHitOfConcatenation(s.PreOrderOfAll(front, bound), s.PreOrder(cs[|cs| - 1]));
    } else {
      assert cs[..n] == cs;
    }
  }

  lemma SuccessorRanks<T>(s: Space<T>, c: ClassRef)
    requires s.Valid() && s.Acyclic() && c in s.classes
    ensures forall d :: d in s.succ(c) ==> d in s.classes && |s.ReachSet(d)| < |s.ReachSet(c)|
  {
    forall d | d in s.succ(c) {
      s.RankDrops(c, d);
    }
  }

  lemma FirstLiveBase<T>(s: Space<T>, c: ClassRef, i: nat)
    requires s.Valid() && s.Acyclic() && c in s.classes && s.hit(c).None? && i < |s.succ(c)|
    requires forall j :: 0 <= j < i ==> s.Dead(s.succ(c)[j])
    requires s.FirstHit(s.PreOrder(s.succ(c)[i])).Some?
    ensures s.FirstHit(s.PreOrder(c)) == s.FirstHit(s.PreOrder(s.succ(c)[i]))
  {
    var bases, bound := s.succ(c), |s.ReachSet(c)|;
    SuccessorRanks(s, c);
    PreOrderPrefixDead(s, bases[..i], bound);
    assert bases[..i + 1][..i] == bases[..i];
    s.FirstHitOfConcatenation(s.PreOrderOfAll(bases[..i], bound), s.PreOrder(bases[i]));
    FirstHitKeeps(s, bases, i + 1, bound);
    s.FirstHitOfConcatenation([c], s.PreOrderOfAll(bases, bound));
    assert s.FirstHit([c]) == s.hit(c);
  }

  lemma {:induction false} AllBasesDead<T>(s: Space<T>, c: ClassRef)
    requires s.Valid() && s.Acyclic() && c in s.classes && s.hit(c).None?
    requires forall j :: 0 <= j < |s.succ(c)| ==> s.Dead(s.succ(c)[j])
    ensures s.Dead(c)
  {
    SuccessorRanks(s, c);
    PreOrderPrefixDead(s, s.succ(c), |s.ReachSet(c)|);
    s.FirstHitOfConcatenation([c], s.PreOrderOfAll(s.succ(c), |s.ReachSet(c)|));
    assert s.FirstHit([c]) == s.hit(c);
  }

  /**
   A whole search.  On any graph, cyclic ones included, it answers exactly when a reachable class does;
   on an acyclic graph, diamonds included, it gives the answer of the first such class in pre-order.
   */
  method Search<T>(s: Space<T>, c: ClassRef) returns (found: Option<T>)
    requires s.Valid() && c in s.classes
    ensures found.Some? <==> exists d :: s.Reaches(c, d) && s.hit(d).Some?
    ensures found.Some? ==> exists d :: s.Reaches(c, d) && s.hit(d) == found
    ensures s.Acyclic() ==> found == s.FirstHit(s.PreOrder(c))
  {
    var visited;
    found, visited := SearchVisited(s, c, {}, s.Acyclic());
    if found.None? {
      forall d | s.Reaches(c, d)
        ensures s.hit(d).None?
      {
        var path :| s.IsPath(path) && path[0] == c && path[|path| - 1] == d;
        s.ClosedHoldsReachable(visited, path);
      }
    }
  }
}
