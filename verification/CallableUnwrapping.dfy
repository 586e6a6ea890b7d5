/** Following `__wrapped__` and partial links to the callable that carries the annotations. */
module CallableUnwrapping {
  import opened Prelude

  type ObjectId = nat

  /** The finite object graph: `wrapped` holds `__wrapped__` attributes, `partialOf` the functions of partial objects. */
  datatype Links = Links(wrapped: map<ObjectId, ObjectId>, partialOf: map<ObjectId, ObjectId>) {
    /** A `__wrapped__` attribute takes precedence over being a partial object. */
    function Next(o: ObjectId): Option<ObjectId> {
      if o in wrapped then Some(wrapped[o])
      else if o in partialOf then Some(partialOf[o])
      else None
    }

    /** The object `k` links away, if the chain is that long. */
    function Follow(o: ObjectId, k: nat): Option<ObjectId> {
      if k == 0 then Some(o)
      else
        var before := Follow(o, k - 1);
        if before.Some? then Next(before.value) else None
    }

    /** The chain from `o` ends at `end`. */
    ghost predicate EndsAt(o: ObjectId, end: ObjectId) {
      Next(end).None? && exists k: nat :: Follow(o, k) == Some(end)
    }

    /** The chain from `o` meets some object twice. */
    ghost predicate IsCyclic(o: ObjectId) {
      exists i: nat, j: nat :: i < j && Follow(o, i).Some? && Follow(o, i) == Follow(o, j)
    }

    lemma {:induction false} FollowAdds(o: ObjectId, i: nat, k: nat)
      requires Follow(o, i).Some?
      ensures Follow(o, i + k) == Follow(Follow(o, i).value, k)
      decreases k
    {
      if k == 0 {
      } else {
        FollowAdds(o, i, k - 1);
      }
    }

    /** Beyond its end a chain is empty. */
    lemma {:induction false} NothingBeyond(o: ObjectId, i: nat, k: nat)
      requires i <= k && Follow(o, i).None?
      ensures Follow(o, k).None?
      decreases k
    {
      if i < k {
        NothingBeyond(o, i, k - 1);
      }
    }

    /** A chain that meets an object twice has no end. */
    lemma {:induction false} CycleNeverEnds(o: ObjectId, i: nat, j: nat, k: nat)
      requires i < j && Follow(o, i).Some? && Follow(o, i) == Follow(o, j)
      ensures Follow(o, k).Some?
      decreases k
    {
      if k <= i {
        if Follow(o, k).None? {
          NothingBeyond(o, k, i);
        }
      } else {
        FollowAdds(o, i, k - i);
        FollowAdds(o, j, k - i);
        if k < j {
          if Follow(o, k).None? {
            NothingBeyond(o, k, j);
          }
        } else {
          CycleNeverEnds(o, i, j, k - (j - i));
          FollowAdds(o, i, k - j);
          FollowAdds(o, j, k - j);
        }
      }
    }
  }

  datatype Unwrapped = Callable(o: ObjectId) | WrapperLoop

  /** `_legacy_unwrap_callable`: follow links until none is left, raising on an object seen before. */
  method LegacyUnwrapCallable(links: Links, o: ObjectId) returns (result: Unwrapped)
    ensures result.WrapperLoop? <==> links.IsCyclic(o)
    ensures result.Callable? ==> links.EndsAt(o, result.o)
    ensures forall end :: links.EndsAt(o, end) ==> result == Callable(end)
  {
    var unwrapped := o;
    var seen: set<ObjectId> := {};
    ghost var trail: seq<ObjectId> := [];
    ghost var linked := links.wrapped.Keys + links.partialOf.Keys;
    while true
      invariant IsTrail(links, o, trail) && links.Follow(o, |trail|) == Some(unwrapped)
      invariant forall x :: x in seen <==> x in trail
      invariant seen <= linked
      decreases linked - seen
    {
      if unwrapped in seen {
        ghost var i :| 0 <= i < |trail| && trail[i] == unwrapped;
        LoopHasNoEnd(links, o, i, |trail|);
        return WrapperLoop;
      }
      seen := seen + {unwrapped};
      if unwrapped in links.wrapped {
        trail, unwrapped := trail + [unwrapped], links.wrapped[unwrapped];
        continue;
      }
      if unwrapped in links.partialOf {
        trail, unwrapped := trail + [unwrapped], links.partialOf[unwrapped];
        continue;
      }
      EndIsUnique(links, o, unwrapped, |trail|);
      return Callable(unwrapped);
    }
  }

  /** The objects met so far, in order. */
  ghost predicate IsTrail(links: Links, o: ObjectId, trail: seq<ObjectId>) {
    forall i: nat :: i < |trail| ==> links.Follow(o, i) == Some(trail[i])
  }

  lemma LoopHasNoEnd(links: Links, o: ObjectId, i: nat, j: nat)
    requires i < j && links.Follow(o, i).Some? && links.Follow(o, i) == links.Follow(o, j)
    ensures links.IsCyclic(o) && forall end :: !links.EndsAt(o, end)
  {
    forall end, k: nat | links.Follow(o, k) == Some(end)
      ensures links.Next(end).Some?
    {
      links.CycleNeverEnds(o, i, j, k + 1);
    }
  }

  lemma EndIsUnique(links: Links, o: ObjectId, end: ObjectId, steps: nat)
    requires links.Follow(o, steps) == Some(end) && links.Next(end).None?
    ensures links.EndsAt(o, end) && !links.IsCyclic(o)
    ensures forall other :: links.EndsAt(o, other) ==> other == end
  {
    assert links.Follow(o, steps + 1).None?;
    forall i, j | 0 <= i < j && links.Follow(o, i).Some?
      ensures links.Follow(o, i) != links.Follow(o, j)
    {
      if links.Follow(o, i) == links.Follow(o, j) {
        links.CycleNeverEnds(o, i, j, steps + 1);
      }
    }
    forall other, k: nat | links.Follow(o, k) == Some(other) && links.Next(other).None?
      ensures other == end
    {
      if k < steps {
        links.NothingBeyond(o, k + 1, steps);
      } else if steps < k {
        links.NothingBeyond(o, steps + 1, k);
      }
    }
  }
}
