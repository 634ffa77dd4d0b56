# Following lists and field selection of a small user/topic REST backend

This project models the pure logic inside the user and topic controllers of a Koa REST backend for a question-and-answer site. The rest of the controllers is database and HTTP glue.

- **Following lists** (`following.dfy`, module `Following`). A user's `following` list is a sequence of user-id strings. *Follow* appends the target id unless an entry already equals it. *Unfollow* splices out the first entry equal to it. Each result is a `Mutation`: the list afterwards, plus a `wrote` flag that says whether the user record is saved. Ids are compared as strings, as the handlers compare `id.toString()` with the path parameter.
- **Request gates and following routes** (`guards.dfy`, module `Guards`). The ownership gate lets a request through only when the path id is the caller's own id, and answers 403 otherwise. The existence gate answers 404 for an id not in the store. The store is reduced to the set of its user ids. `PUT` and `DELETE /users/following/:id` run the existence gate, then follow or unfollow, and answer 204.
- **Field-selection clause** (`field_selection.dfy`, module `FieldSelection`). A user or topic read takes a `fields` query parameter. It is split on `;`. Every segment that is non-empty and is not exactly `password` adds ` +segment`, in a left fold that starts from the empty string. The topic read puts one extra `+` in front. `Split` models string splitting on one character, where the empty string gives one empty piece. `Segments` is the split on `;`, `Selectable` the filter test, `Step` the `reduce` callback and `Fold` the `reduce` itself. The independent reference is `Render(Kept(segments))`: filter, then render.

Besides the contracts on the operations, the lemmas state these properties:
- follow is idempotent;
- both operations preserve "no duplicates";
- unfollow removes exactly one copy, and agrees with an independent first-occurrence removal;
- the follow-then-unfollow round trip restores the list;
- splitting and joining are mutual inverses;
- the fold equals filter-then-render;
- when no requested field contains a space, the clause split on the space character holds exactly one `+field` per surviving segment, in input order, and never `+password`. The store's `select` splits on any whitespace, so a tab or newline inside a field is not covered (see "Left out").

The code's `reduce` starts from the array `[]`, not from a string. Appending the first ` +segment` turns it into that string. So whenever a segment survives, the result equals a fold that starts from `""`. When no segment survives, the user read passes the empty array itself to the ORM's `select`. The topic read's `'+' + []` is the string `+`. The model uses `""` as the seed in both reads. So for the user read it stands for "no extra fields" rather than for an array.

## Model

| member | source | states |
|---|---|---|
| Following.Contains | app/controllers/users.js:115 | the left-to-right `some` scan finds the target exactly when the target is in the list |
| Following.FindIndex | app/controllers/users.js:124 | `findIndex` returns -1 exactly when the target is absent; otherwise it returns the index of an equal entry with no equal entry before it |
| Following.Follow | app/controllers/users.js:113-120 | a save happens exactly when the target was absent; the target is in the result; the old entries stay in place as a prefix; the list grows by one exactly when saved |
| Following.Unfollow | app/controllers/users.js:122-130 | a save happens exactly when the target was present; when absent, the list is unchanged; when present, the first occurrence is removed, the entries before and after it keep their order, and the length drops by one |
| Following.UnfollowIsRemoveFirst | app/controllers/users.js:124-126 | the splice at the found index equals an independent recursive removal of the first occurrence, on every list |
| Following.UnfollowRemovesOneCopy | app/controllers/users.js:124-127 | the multiset of entries loses exactly one copy of the target, so later duplicates of the target survive |
| Following.FollowIdempotent | app/controllers/users.js:115-118 | following the same id again leaves the list unchanged and does not save |
| Following.FollowPreservesNoDuplicates | app/controllers/users.js:115-116 | a list without repeated ids has none after a follow |
| Following.UnfollowPreservesNoDuplicates | app/controllers/users.js:124-126 | a list without repeated ids has none after an unfollow, and the target is then absent |
| Following.UnfollowIdempotent | app/controllers/users.js:124-129 | on a list without repeated ids, a second unfollow finds nothing and does not save |
| Following.UnfollowFollowRoundTrip | app/controllers/users.js:113-130 | following an absent id and then unfollowing it restores the original list, and both calls save |
| Following.FollowUnfollowSameEntries | app/controllers/users.js:113-130 | on a list without repeated ids, unfollowing and then re-following a present id saves, keeps the same multiset of entries, and moves the id to the end |
| Following.FollowSetView | app/controllers/users.js:115-116 | as a set, the list after a follow is the old set plus the target |
| Following.UnfollowSetView | app/controllers/users.js:124-126 | as a set, on a list without repeated ids, the list after an unfollow is the old set minus the target |
| Following.FollowTwiceThenUnfollow | app/controllers/users.js:113-130 | from an empty list, two follows of `u2` give `[u2]` with one save, and an unfollow then gives the empty list |
| Guards.CheckOwner | app/controllers/users.js:43-48 | the request proceeds exactly when the path id equals the caller's id; otherwise it is rejected with 403 |
| Guards.CheckUserExist | app/controllers/users.js:105-111 | the request proceeds exactly when the path id is a stored user; otherwise it is rejected with 404 |
| Guards.PutFollowing | app/routes/user.js:21 | the route answers 404 exactly when the target is not stored, and then leaves the list unwritten; otherwise it answers 204 with the follow result and saves only if the target was absent |
| Guards.DeleteFollowing | app/routes/user.js:22 | the route answers 404 exactly when the target is not stored, and then leaves the list unwritten; otherwise it answers 204 with the unfollow result and saves only if the target was present |
| Guards.PutFollowingTwice | app/routes/user.js:21 | repeating a follow request gives the same status and list, and the repeat writes nothing |
| Guards.DeleteNotFollowedIsNoOp | app/routes/user.js:22 | unfollowing a stored user who is not followed is a 204 success with no write |
| Guards.StaleFollowStays | app/routes/user.js:22 | a followed id whose user is no longer stored gets 404 from the unfollow route and stays in the list |
| FieldSelection.Split | app/controllers/users.js:12 | splitting on `;` gives at least one piece, and no piece contains the separator |
| FieldSelection.SplitCount | app/controllers/users.js:12 | there is one more piece than there are separators in the input |
| FieldSelection.SplitPiecesFromInput | app/controllers/users.js:12 | every character of every piece comes from the input |
| FieldSelection.JoinSplit | app/controllers/users.js:12 | joining the pieces with the separator gives back the input, so the split loses nothing |
| FieldSelection.SplitJoin | app/controllers/users.js:12 | splitting inverts joining, for pieces that contain no separator |
| FieldSelection.Segments | app/controllers/users.js:12 | the segments of `fields` joined back with `;` give `fields`; no segment contains `;`; there is one more segment than there are `;` |
| FieldSelection.Selectable | app/controllers/users.js:13 | a segment passes the test exactly when it is neither the empty string (falsy) nor exactly `password`: the denylist is those two strings and nothing else |
| FieldSelection.Step | app/controllers/users.js:13-16 | the callback keeps the accumulator as a prefix; it grows exactly when the segment passes, and then by exactly ` +segment` |
| FieldSelection.Fold | app/controllers/users.js:12-17 | the seed is always a prefix of the result, and the result equals the seed followed by ` +segment` per surviving segment, in order (the latter through `FoldRendersKept`) |
| FieldSelection.Kept | app/controllers/users.js:13 | every surviving segment is non-empty and not exactly `password`; a segment survives exactly when it is such a segment of the input |
| FieldSelection.KeptAppend | app/controllers/users.js:12-17 | filtering distributes over concatenation, so the survivors keep their input order |
| FieldSelection.FoldRendersKept | app/controllers/users.js:12-17 | the `reduce` fold from any seed equals the seed followed by ` +segment` for each surviving segment, in order |
| FieldSelection.UserSelection | app/controllers/users.js:11-17 | the user clause is ` +segment` for each surviving segment, in order, and is empty exactly when nothing survives |
| FieldSelection.TopicSelection | app/controllers/topic.js:10-18 | the topic clause always starts with `+`; after that `+` it is the rendered survivors; it is exactly `+` when nothing survives |
| FieldSelection.UserDirectives | app/controllers/users.js:12-17 | if no requested field contains a space, the clause read as space-separated directives is an empty piece followed by `+segment` for each survivor, in input order |
| FieldSelection.TopicDirectives | app/controllers/topic.js:11-18 | under the same condition, the topic clause read as space-separated directives is a lone `+` piece followed by `+segment` for each survivor, in input order |
| FieldSelection.PasswordNeverSelected | app/controllers/users.js:13-14 | under the same condition, `+password` is never a directive of the user clause, nor of the whole topic clause read the same way |
| FieldSelection.SingleField | app/controllers/topic.js:13-18 | a single non-empty field passes through exactly when it is not exactly `password`, so variants such as `Password` pass; `password` alone gives `+` for the topic read |
| FieldSelection.EmptySegmentIgnored | app/controllers/users.js:13 | an empty segment anywhere in the list leaves the folded clause unchanged |
| FieldSelection.LeadingSeparatorIgnored | app/controllers/topic.js:13-14 | a leading `;` changes neither clause |
| FieldSelection.NothingSurvives | app/controllers/topic.js:11-18 | the empty input and a lone `;` each give the topic clause `+` |

## Left out

- Database calls (`find`, `findById`, `findOne`, `populate`, `save`, `findByIdAndUpdate`, `findByIdAndRemove`) are foreign calls whose behaviour is not visible. The loaded `following` list is an input; `save` is the `wrote` flag; the store is a set of ids.
- Ids are assumed to be spelled exactly as `toString()` of a stored id spells them. The ORM's cast of the path id is not modelled. A path id spelled another way, such as upper-case hex, could pass the existence check and never equal any list entry; it would then be appended on every follow and never removed by an unfollow. A malformed id could make the store lookup throw instead of answering 404.
- `login` and token signing are a library call plus a database lookup. The token check that runs before the gates (`koa-jwt`) is left out for the same reason.
- The `verifyParams` request schemas are declarative validation done by a library.
- `listFollowing` and `listFollowers` are database queries and dereferencing, with no local logic.
- The duplicate-name check in `create` is a database lookup followed by a throw.
- `TopicCtl.update` reads an identifier `id` that is declared nowhere in its file, so it throws a reference error before it reaches the store. Apart from that it would only be a database pass-through.
- The routes file is modelled only for the two following routes. The other routes are framework wiring.
- Concurrent follow and unfollow calls on the same user can lose an update (read-modify-write). The model covers one sequential call.
- A missing `fields` parameter crashes on `fields.split`. The model takes `fields` as a string.
- The acting user's record is assumed to exist. If the caller's own user was deleted, `me` is null and the handler crashes. That case is not modelled.
- Following yourself is not forbidden by the code, and the model does not forbid it either.
- FieldSelection.UserSelection: when no segment survives, the code passes the array `[]` to `select`, and the model gives `""`. Both mean "no extra fields", but the value's type is not modelled.
- FieldSelection.PasswordNeverSelected: states the exclusion at the directive level only when no requested field contains a space, and only for a reader that splits on the space character. With a space, a segment such as `a +password` is passed through whole, and a reader that splits on spaces sees two directives. The clause goes to the ORM's `select`, which splits a string clause on any run of whitespace, not only on spaces. So a tab, a newline or another whitespace character inside a field opens the same gap: `a<TAB>+password` meets the lemma's condition, yet `select` reads `+password` from it. `UserDirectives` and `TopicDirectives` share this limit. The exclusion of a segment exactly equal to `password` holds with no condition (`Kept`).
