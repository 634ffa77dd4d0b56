/** The request gates placed in front of the user handlers, and the two
    following routes that compose the existence gate with the follow and
    unfollow handlers.

    The store is reduced to the set of ids of the users it holds; token
    verification happens before these gates and is not modelled.
 */
module Guards {
  import Following

  /** A gate either lets the request through or stops it with an HTTP status. */
  datatype Gate = Proceed | Reject(status: int)

  /** Forbidden: the caller is not the owner of the resource. */
  const Forbidden: int := 403
  /** Not found: no user has the requested id. */
  const NotFound: int := 404
  /** No content: the follow or unfollow handler finished. */
  const NoContent: int := 204

  /** Ownership gate: only the caller whose own id is the path id gets through. */
  function CheckOwner(pathId: string, callerId: string): (g: Gate)
    ensures g.Proceed? <==> pathId == callerId
    ensures g.Reject? ==> g.status == Forbidden
  {
    if pathId != callerId then Reject(Forbidden) else Proceed
  }

  /** Existence gate: the path id must name a user in the store. */
  function CheckUserExist(users: set<string>, pathId: string): (g: Gate)
    ensures g.Proceed? <==> pathId in users
    ensures g.Reject? ==> g.status == NotFound
  {
    if pathId !in users then Reject(NotFound) else Proceed
  }

  /** What a following route answers, and the caller's list afterwards. */
  datatype Reply = Reply(status: int, following: seq<string>, wrote: bool)

  /** `PUT /users/following/:id`: the existence gate, then follow. */
  function PutFollowing(users: set<string>, mine: seq<string>, target: string): (r: Reply)
    ensures r.status == NotFound <==> target !in users
    ensures r.status == NotFound || r.status == NoContent
    ensures r.status == NotFound ==> r.following == mine && !r.wrote
    ensures r.status == NoContent ==> r == Reply(NoContent, Following.Follow(mine, target).following, target !in mine)
  {
    match CheckUserExist(users, target)
    case Reject(code) => Reply(code, mine, false)
    case Proceed =>
      var m := Following.Follow(mine, target);
      Reply(NoContent, m.following, m.wrote)
  }

  /** `DELETE /users/following/:id`: the existence gate, then unfollow. */
  function DeleteFollowing(users: set<string>, mine: seq<string>, target: string): (r: Reply)
    ensures r.status == NotFound <==> target !in users
    ensures r.status == NotFound || r.status == NoContent
    ensures r.status == NotFound ==> r.following == mine && !r.wrote
    ensures r.status == NoContent ==> r == Reply(NoContent, Following.Unfollow(mine, target).following, target in mine)
  {
    match CheckUserExist(users, target)
    case Reject(code) => Reply(code, mine, false)
    case Proceed =>
      var m := Following.Unfollow(mine, target);
      Reply(NoContent, m.following, m.wrote)
  }

  /** Repeating a follow request answers the same and writes nothing more. */
  lemma PutFollowingTwice(users: set<string>, mine: seq<string>, target: string)
    ensures var first := PutFollowing(users, mine, target);
      var second := PutFollowing(users, first.following, target);
      second.status == first.status && second.following == first.following && !second.wrote
  {
  }

  /** Unfollowing an existing user who is not followed succeeds without a
      write; it is not an error. */
  lemma DeleteNotFollowedIsNoOp(users: set<string>, mine: seq<string>, target: string)
    requires target in users && target !in mine
    ensures DeleteFollowing(users, mine, target) == Reply(NoContent, mine, false)
  {
  }

  /** A target removed from the store after it was followed can no longer be
      unfollowed through the route: the existence gate answers not found and
      the stale id stays in the list. */
  lemma StaleFollowStays(users: set<string>, mine: seq<string>, target: string)
    requires target in mine && target !in users
    ensures DeleteFollowing(users, mine, target) == Reply(NotFound, mine, false)
    ensures target in DeleteFollowing(users, mine, target).following
  {
  }
}
