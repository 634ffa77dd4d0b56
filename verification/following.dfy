/** The acting user's `following` list and the two handlers that mutate it.

    The list is the ordered sequence of followed user ids as loaded from the
    store; ids are compared as strings, the way the handlers compare
    `id.toString()` with the path parameter. A handler's effect is a
    `Mutation`: the list after the call and whether it was written back.
 */
module Following {

  /** The list after a follow/unfollow, and whether the user record was saved. */
  datatype Mutation = Mutation(following: seq<string>, wrote: bool)

  /** No id occurs twice in the list. */
  predicate NoDuplicates(ids: seq<string>)
  {
    forall i, j :: 0 <= i < j < |ids| ==> ids[i] != ids[j]
  }

  /** The ids in the list, as a set. */
  function Elems(ids: seq<string>): set<string>
  {
    set x | x in ids
  }

  /** The left-to-right membership scan the follow handler performs. */
  function Contains(ids: seq<string>, target: string): (found: bool)
    ensures found <==> target in ids
  {
    if |ids| == 0 then false
    else ids[0] == target || Contains(ids[1..], target)
  }

  /** Index of the first entry equal to `target`, or -1 when there is none. */
  function FindIndex(ids: seq<string>, target: string): (k: int)
    ensures k == -1 <==> target !in ids
    ensures k != -1 ==> 0 <= k < |ids| && ids[k] == target
    ensures forall j :: 0 <= j < k ==> ids[j] != target
  {
    if |ids| == 0 then -1
    else if ids[0] == target then 0
    else
      var k := FindIndex(ids[1..], target);
      if k == -1 then -1
      else
        assert ids[..k + 1] == [ids[0]] + ids[1..][..k];
        k + 1
  }

  /** Follow `target`: append it unless some entry already equals it; only an
      append is saved. */
  function Follow(ids: seq<string>, target: string): (r: Mutation)
    ensures r.wrote <==> target !in ids
    ensures |r.following| == if r.wrote then |ids| + 1 else |ids|
    ensures r.following[..|ids|] == ids
    ensures target in r.following
  {
    if Contains(ids, target) then Mutation(ids, false)
    else Mutation(ids + [target], true)
  }

  /** Unfollow `target`: splice out the first entry equal to it, if any; only
      a removal is saved. */
  function Unfollow(ids: seq<string>, target: string): (r: Mutation)
    ensures r.wrote <==> target in ids
    ensures !r.wrote ==> r.following == ids
    ensures r.wrote ==> |r.following| == |ids| - 1
    ensures r.wrote ==>
      exists i :: 0 <= i < |ids| && ids[i] == target && target !in ids[..i]
        && r.following[..i] == ids[..i] && r.following[i..] == ids[i + 1..]
  {
    var index := FindIndex(ids, target);
    if index != -1 then
      var rest := ids[..index] + ids[index + 1..];
      assert rest[..index] == ids[..index] && rest[index..] == ids[index + 1..];
      Mutation(rest, true)
    else Mutation(ids, false)
  }

  /** Independent reference for removing the first occurrence of `target`. */
  function RemoveFirst(ids: seq<string>, target: string): seq<string>
  {
    if |ids| == 0 then []
    else if ids[0] == target then ids[1..]
    else [ids[0]] + RemoveFirst(ids[1..], target)
  }

  /** The unfollow splice agrees with the reference removal on every list. */
  lemma {:induction false} UnfollowIsRemoveFirst(ids: seq<string>, target: string)
    ensures Unfollow(ids, target).following == RemoveFirst(ids, target)
  {
    SpliceIsRemoveFirst(ids, target);
  }

  lemma {:induction false} SpliceIsRemoveFirst(ids: seq<string>, target: string)
    ensures var k := FindIndex(ids, target);
      RemoveFirst(ids, target) == if k == -1 then ids else ids[..k] + ids[k + 1..]
    decreases |ids|
  {
    if |ids| != 0 && ids[0] != target {
      var tail := ids[1..];
      SpliceIsRemoveFirst(tail, target);
      var k := FindIndex(tail, target);
      assert RemoveFirst(ids, target) == [ids[0]] + RemoveFirst(tail, target);
      if k == -1 {
        assert FindIndex(ids, target) == -1;
        assert [ids[0]] + tail == ids;
      } else {
        assert FindIndex(ids, target) == k + 1;
        assert ids[..k + 1] == [ids[0]] + tail[..k];
        assert ids[k + 2..] == tail[k + 1..];
      }
    }
  }

  /** Unfollow removes exactly one copy of `target` when there is one and
      nothing else: the multiset of entries loses one `target`. */
  lemma {:induction false} UnfollowRemovesOneCopy(ids: seq<string>, target: string)
    ensures multiset(Unfollow(ids, target).following) == multiset(ids) - multiset{target}
  {
    UnfollowIsRemoveFirst(ids, target);
    RemoveFirstMultiset(ids, target);
  }

  lemma {:induction false} RemoveFirstMultiset(ids: seq<string>, target: string)
    ensures multiset(RemoveFirst(ids, target)) == multiset(ids) - multiset{target}
    decreases |ids|
  {
    if |ids| != 0 {
      assert ids == [ids[0]] + ids[1..];
      if ids[0] != target {
        RemoveFirstMultiset(ids[1..], target);
      }
    }
  }

  /** Following twice is following once: the second call changes nothing and
      does not save. */
  lemma FollowIdempotent(ids: seq<string>, target: string)
    ensures Follow(Follow(ids, target).following, target)
      == Mutation(Follow(ids, target).following, false)
  {
  }

  /** A list without duplicates stays without duplicates after a follow. */
  lemma FollowPreservesNoDuplicates(ids: seq<string>, target: string)
    requires NoDuplicates(ids)
    ensures NoDuplicates(Follow(ids, target).following)
  {
  }

  /** A list without duplicates stays without duplicates after an unfollow,
      and the target is then absent. */
  lemma UnfollowPreservesNoDuplicates(ids: seq<string>, target: string)
    requires NoDuplicates(ids)
    ensures NoDuplicates(Unfollow(ids, target).following)
    ensures target !in Unfollow(ids, target).following
  {
  }

  /** Unfollowing an id that was just followed for the first time restores the
      original list; both calls save. */
  lemma UnfollowFollowRoundTrip(ids: seq<string>, target: string)
    requires target !in ids
    ensures Unfollow(Follow(ids, target).following, target) == Mutation(ids, true)
  {
  }

  /** On a list without duplicates, re-following an id just unfollowed saves
      and gives back the same entries, with the target moved to the end. */
  lemma {:induction false} FollowUnfollowSameEntries(ids: seq<string>, target: string)
    requires NoDuplicates(ids)
    requires target in ids
    ensures var r := Follow(Unfollow(ids, target).following, target);
      r.wrote && multiset(r.following) == multiset(ids) && r.following[|ids| - 1] == target
  {
    UnfollowRemovesOneCopy(ids, target);
    UnfollowPreservesNoDuplicates(ids, target);
    var u := Unfollow(ids, target).following;
    assert multiset(u + [target]) == multiset(u) + multiset{target};
    assert target in multiset(ids);
  }

  /** Unfollowing twice is unfollowing once on a list without duplicates: the
      second call finds nothing and does not save. */
  lemma UnfollowIdempotent(ids: seq<string>, target: string)
    requires NoDuplicates(ids)
    ensures Unfollow(Unfollow(ids, target).following, target)
      == Mutation(Unfollow(ids, target).following, false)
  {
  }

  /** Viewed as a set, follow adds the target. */
  lemma FollowSetView(ids: seq<string>, target: string)
    ensures Elems(Follow(ids, target).following) == Elems(ids) + {target}
  {
  }

  /** Viewed as a set, unfollow on a list without duplicates removes the target. */
  lemma UnfollowSetView(ids: seq<string>, target: string)
    requires NoDuplicates(ids)
    ensures Elems(Unfollow(ids, target).following) == Elems(ids) - {target}
  {
  }

  /** The worked example: following `u2` twice from an empty list gives
      `[u2]`, and unfollowing it then gives the empty list. */
  lemma FollowTwiceThenUnfollow()
    ensures Follow([], "u2") == Mutation(["u2"], true)
    ensures Follow(["u2"], "u2") == Mutation(["u2"], false)
    ensures Unfollow(["u2"], "u2") == Mutation([], true)
  {
  }
}
