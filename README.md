# Restaurant forum: threaded comments and the rules around them

This project is a Dafny model of the core of a restaurant-review forum. That forum is an Express and Sequelize application. The core is the **threaded-comment assembler** of the restaurant page:

1. It takes the flat comment rows of one restaurant, the viewer's liked comments and all `LikeComment` rows.
2. It annotates every comment with `commentIsLiked` and `commentLikeCounts`.
3. It sorts the comments by like count, then by creation time, both descending.
4. It pushes each comment into one of five layer arrays.
5. Nested scans then emit the reply forest in pre-order: every top-level comment, followed at once by its replies, their replies, and so on down to layer 5.

Around it the model covers:

- the comment services: post, reply, delete;
- the four relation tables the user handlers add to and remove from: favourites, restaurant likes, followships, comment likes;
- the category handlers, including the move of a deleted category's restaurants to "(未分類)";
- sign-up and profile edit;
- the profile page's one-comment-per-restaurant list;
- the top-users ranking;
- the two restaurant listings.

Modules:

- `Wrappers`: `Option`, `Outcome`, `Result`.
- `Ranking`: a descending insertion sort on a two-part integer key. It serves every `Array.prototype.sort` of the core.
- `CommentTree`: the assembler.
  - Pure functions: `Annotate` and `Rank`.
  - Imperative passes: `BucketByLayer`, the `forEach`/`switch` push; `EmitReplies`/`Flatten`, the nested `for ... of` scans pushing into `rearrangedComments`; and `Assemble`.
  - Recursive specification: `Subtree`/`Replies`/`Roots`, the pre-order walk of the forest that the buckets describe.
- `CommentTreeProps`: what the pre-order walk guarantees, on the ranked list.
- `CommentPage`: the same guarantees stated on the page's inputs, plus a worked example: comments 1..4; comment 4 replies to a missing comment 99, and the result is ids `[2, 3, 1]`.
- `CommentStore`: the Comments table as a class over `map<int, Comment>`. It keeps the layer invariant. A ghost set records deleted ids.
- `Relations`: the four relation tables as a class with one `set<(int, int)>` per table.
- `Categories`: the Categories table and the restaurants' `categoryId` column as a class.
- `Users`: the Users table as a class, plus the `getUser` reduce and the `getTopUsers` ranking.
- `Restaurants`: the `getRestaurants` row mapping and `getTopRestaurants`.

Three inputs are parameters rather than modelled state:

- Every handler takes the existence of users and restaurants as a set of ids.
- The clock is a `now` parameter.
- The password hash and the image upload path are parameters too. An absent upload path is the empty string.

The category rules appear twice in the source, once in services/category-services.js and once inline in controllers/category-controller.js. The two copies have the same checks in the same order, and `Categories.CategoryTable` models both. Likewise sign-up: services/user-services.js:5-31 repeats controllers/user-controller.js:9-41 check for check, and `Users.UserTable.SignUp` models both.

The sign-up lookup passes `$or` outside a `where` clause, so it returns every user. The email and name checks therefore test the whole user table, and the model states them that way.

## Model

| member | source | states |
|---|---|---|
| Ranking.Insert | controllers/restaurant-controller.js:74 | inserting into a list sorted by descending key gives a sorted list holding exactly the old elements and x |
| Ranking.SortDesc | controllers/restaurant-controller.js:74 | the result is sorted by descending key (first part, then second), and it is a permutation of the input |
| CommentTree.CountLikes | controllers/restaurant-controller.js:73 | the count of like rows for a comment is at most the number of like rows, and it is zero iff no like row names that comment |
| CommentTree.CountLikesIsMultiplicity | controllers/restaurant-controller.js:73 | the length of the like rows filtered on `commentId == id` equals the number of times id occurs among all like rows' comment ids |
| CommentTree.Annotate | controllers/restaurant-controller.js:70-73 | same length and order as the comments; each entry keeps its comment, is liked iff its id is among the viewer's liked ids, and counts exactly the like rows naming it |
| CommentTree.Rank | controllers/restaurant-controller.js:74 | like count non-increasing, and among equal like counts `createdAt` non-increasing; the result is a permutation of the annotated comments |
| CommentTree.BucketByLayer | controllers/restaurant-controller.js:77-100 | array k (1..5) is exactly the layer-k comments of the ranked list, in ranked order; a comment of any other layer goes nowhere |
| CommentTree.EmitReplies | controllers/restaurant-controller.js:107-129 | the scan of layer k appends exactly the pre-order walk of the replies to pid in that layer: each reply followed at once by its own subtree |
| CommentTree.Flatten | controllers/restaurant-controller.js:103-130 | the nested scans produce exactly the pre-order walk of the forest whose roots are the layer-1 array |
| CommentTree.Assemble | controllers/restaurant-controller.js:63-132 | the page's comment sequence is the pre-order walk of the buckets of the ranked, annotated comments |
| CommentTreeProps.BucketMembers | controllers/restaurant-controller.js:83-100 | a comment is in bucket k iff it is in the ranked list and has layer k |
| CommentTreeProps.BucketRanked | controllers/restaurant-controller.js:74-100 | each bucket of a ranked list is ranked, so siblings are ranked at every layer |
| CommentTreeProps.ChildrenMembers | controllers/restaurant-controller.js:108 | a comment is among the children of pid iff it is in the bucket and replies to pid |
| CommentTreeProps.ChildrenRanked | controllers/restaurant-controller.js:107-109 | the children of one parent, taken from a ranked bucket, are ranked |
| CommentTreeProps.PreOrderDepth | controllers/restaurant-controller.js:83-100 | every emitted comment comes from the ranked list and has a layer in 1..5 |
| CommentTreeProps.PreOrderParents | controllers/restaurant-controller.js:104-128 | every emitted reply has its parent earlier in the output, one layer up, and nothing shallower lies between them; the output starts with a top-level comment |
| CommentTreeProps.PreOrderTopLevel | controllers/restaurant-controller.js:104-105 | the layer-1 entries of the output are exactly the layer-1 comments, in ranked order |
| CommentTreeProps.PreOrderBlocks | controllers/restaurant-controller.js:104-130 | each emitted comment is followed at once by its whole subtree, contiguously |
| CommentTreeProps.PreOrderSiblings | controllers/restaurant-controller.js:107-128 | inside the subtree of c, the entries one layer below c are exactly c's replies in bucket order, and so they are ranked |
| CommentTreeProps.PreOrderReplyEmitted | controllers/restaurant-controller.js:107-128 | a reply with a layer in 2..5 whose parent is emitted one layer up is emitted too |
| CommentTreeProps.PreOrderEmitted | controllers/restaurant-controller.js:104-128 | a comment is emitted iff its layer is in 1..5 and it is top-level or replies to a comment emitted one layer up; orphans and wrongly layered replies are left out |
| CommentTreeProps.PreOrderDistinct | controllers/restaurant-controller.js:103-130 | with distinct ids, no comment is emitted twice and the output is no longer than the input |
| CommentPage.RankedMember | controllers/restaurant-controller.js:70-74 | every ranked entry is the annotation of one of the restaurant's comments |
| CommentPage.AnnotationRanked | controllers/restaurant-controller.js:70-74 | every comment's annotation is in the ranked list |
| CommentPage.AssembledAnnotations | controllers/restaurant-controller.js:70-100 | every shown entry is one of the restaurant's comments, has a layer in 1..5, is liked iff the viewer likes it, and carries its exact like count |
| CommentPage.AssembledTopLevel | controllers/restaurant-controller.js:104-105 | every top-level comment is shown, and the shown top-level entries are ranked |
| CommentPage.AssembledReply | controllers/restaurant-controller.js:107-128 | a reply of layer 2..5 is shown iff a comment one layer up with the id it replies to is shown |
| CommentPage.AssembledLayerBound | controllers/restaurant-controller.js:83-100 | a comment whose layer is outside 1..5 is never shown |
| CommentPage.AssembledDistinct | controllers/restaurant-controller.js:103-130 | with unique comment ids, nothing is shown twice and at most as many entries as comments are shown |
| CommentPage.OrphanExample | controllers/restaurant-controller.js:63-132 | comments 1 (two likes), 2 (five likes), 3 (reply to 2) and 4 (reply to the missing 99) are shown as ids 2, 3, 1 |
| CommentStore.InsertKeepsTable | services/comment-services.js:15-21 | adding a fresh row that is top-level with layer 1, or one layer below an existing parent, keeps the layer invariant |
| CommentStore.DeleteKeepsTable | services/comment-services.js:26-34 | removing a row keeps the invariant, and each of its replies stays behind as an orphan |
| CommentStore.CommentTable.PostComment | services/comment-services.js:4-25 | empty text, then a missing user, then a missing restaurant is refused; otherwise exactly one row is added, with parent 0 and layer 1 |
| CommentStore.CommentTable.ReplyComment | services/comment-services.js:35-58 | empty text, missing user, missing restaurant, then missing parent is refused, in that order; otherwise one row is added, pointing to the parent, one layer below it, with no check of restaurant or depth |
| CommentStore.CommentTable.DeleteComment | services/comment-services.js:26-34 | a missing comment is refused; otherwise exactly that row is removed and its replies become orphans |
| CommentStore.NoOrphansWithoutDeletes | services/comment-services.js:47-53 | while nothing has been deleted, every reply's parent is present and exactly one layer up |
| CommentStore.LayerIsDepth | services/comment-services.js:47-53 | while nothing has been deleted, a row's layer is the length of its parent chain |
| Relations.Link | controllers/user-controller.js:136-143 | creating a pair is refused iff the pair is present; otherwise the table gains exactly that pair |
| Relations.Unlink | controllers/user-controller.js:155-158 | destroying a pair is refused iff the pair is absent; otherwise the table loses exactly that pair |
| Relations.Related | controllers/user-controller.js:209 | the users related to a target are exactly the first parts of the pairs naming it |
| Relations.UnlinkLink | controllers/user-controller.js:125-162 | removing a pair right after adding it restores the table |
| Relations.LinkUnlink | controllers/user-controller.js:125-162 | adding a pair right after removing it restores the table |
| Relations.LinkFlips | controllers/user-controller.js:254-286 | a successful add or remove flips the membership of that pair and of no other |
| Relations.LinkCounts | controllers/restaurant-controller.js:195 | a successful add raises the target's related count by one; a remove lowers it by one; other targets' counts stay the same |
| Relations.RelationTables.AddFavorite | controllers/user-controller.js:125-147 | a missing restaurant, then an existing pair, is refused; otherwise the pair is added; the other tables do not change |
| Relations.RelationTables.RemoveFavorite | controllers/user-controller.js:148-162 | an absent pair is refused; otherwise it is removed; the other tables do not change |
| Relations.RelationTables.AddLike | controllers/user-controller.js:163-181 | a missing restaurant is refused; a find-or-create that finds the like leaves the table unchanged and is refused; otherwise the pair is added |
| Relations.RelationTables.RemoveLike | controllers/user-controller.js:182-196 | an absent pair is refused; otherwise it is removed; the other tables do not change |
| Relations.RelationTables.AddFollowing | controllers/user-controller.js:218-239 | a missing followed user, then an existing pair, is refused; following oneself is allowed; otherwise the pair is added |
| Relations.RelationTables.RemoveFollowing | controllers/user-controller.js:240-253 | an absent pair is refused; otherwise it is removed; the other tables do not change |
| Relations.RelationTables.LikeComment | controllers/user-controller.js:254-272 | an existing pair is refused, and the comment's existence is not checked; otherwise the pair is added |
| Relations.RelationTables.UnlikeComment | controllers/user-controller.js:273-286 | an absent pair is refused; otherwise it is removed; the other tables do not change |
| Categories.Members | services/category-services.js:45-48 | a restaurant is a member of category k iff its category column is k |
| Categories.Reassign | services/category-services.js:45-48 | the bulk update rewrites category columns and keeps the same set of restaurants |
| Categories.ReassignMoves | services/category-services.js:45-48 | after the move, the target holds its own restaurants plus those of the deleted category, which is then empty; every other category keeps exactly its restaurants |
| Categories.ReassignResolves | services/category-services.js:36-60 | if every restaurant named an existing category before, the move and delete leave no restaurant filed under a missing category |
| Categories.CategoryTable.PostCategory | services/category-services.js:14-22 | an empty name is refused; otherwise exactly one new category row under a fresh id, and the id counter advances by one; same rules at controllers/category-controller.js:13-19 |
| Categories.CategoryTable.PutCategory | services/category-services.js:23-35 | an empty name, then a missing category, is refused; otherwise only that category's name changes; same rules at controllers/category-controller.js:20-30 |
| Categories.CategoryTable.DeleteCategory | services/category-services.js:36-60 | refused if no "(未分類)" exists, then if the target is the chosen "(未分類)" row, then if the target is missing; otherwise the target's restaurants move to "(未分類)", the target row goes and nothing else changes. A delete never fails for a missing name. A target named "(未分類)" is either refused as undeletable or deleted; after a successful delete a "(未分類)" category still exists; same rules at controllers/category-controller.js:31-53 |
| Categories.DeleteKeepsUnclassified | services/category-services.js:42-54 | removing any category other than the chosen "(未分類)" row leaves a "(未分類)" category |
| Users.ImageOr | services/user-services.js:30 | a returned upload path becomes the image; an absent one falls back to the given default |
| Users.UserTable.SignUp | services/user-services.js:5-31 | a password mismatch, then an email used by any user, then a name used by any user, is refused; otherwise exactly one user is added with that name, email, hash and the image or placeholder, and the id counter advances by one; same rules at controllers/user-controller.js:9-41 |
| Users.UserTable.PutUser | controllers/user-controller.js:99-124 | an empty name, then a name held by any user (the edited one included), then a missing user, is refused; otherwise only that user's name changes, and its image changes only when a new upload path came back |
| Users.SignUpTwiceRefused | services/user-services.js:16-17 | once a user is stored, its email and its name both count as used, so a repeated sign-up is refused |
| Users.FirstOn | controllers/user-controller.js:81 | the index of the first comment on a restaurant, or -1 when there is none |
| Users.OnePerRestaurant | controllers/user-controller.js:80-81 | the reduce only drops comments: each kept comment occurs in the input at least as often as in the result |
| Users.OnePerRestaurantCovers | controllers/user-controller.js:80-81 | the kept list has a comment on a restaurant iff the input has one |
| Users.OnePerRestaurantFirst | controllers/user-controller.js:80-81 | each kept comment is the first comment of the input on its restaurant, and the kept comments follow input order |
| Users.OnePerRestaurantSpec | controllers/user-controller.js:80-81 | the kept list has one comment per restaurant, the first one, in input order, covering every restaurant of the input |
| Users.WithFollowers | controllers/user-controller.js:204-212 | each user gets the number of its followers and is marked followed iff the viewer follows it |
| Users.TopUsers | controllers/user-controller.js:204-213 | the ranking is a permutation of the annotated users, sorted by follower count descending |
| Users.TopUsersEntries | controllers/user-controller.js:204-213 | the ranking lists every user exactly once, with its own follower count and follow state |
| Restaurants.Truncate | controllers/restaurant-controller.js:26 | the description is cut to its first 50 characters; a shorter one is kept whole |
| Restaurants.ListRestaurants | controllers/restaurant-controller.js:22-29 | with no signed-in viewer, a non-empty page fails; otherwise each row keeps its restaurant, gets the truncated description, and is favourited or liked iff its id is in the viewer's lists |
| Restaurants.ListedDescriptionsShort | controllers/restaurant-controller.js:26 | every listed description has at most 50 characters and is a prefix of the original |
| Restaurants.WithFavorites | controllers/restaurant-controller.js:192-198 | each restaurant gets the number of users favouriting it, and is marked favourited iff it is in the viewer's favourites |
| Restaurants.TopRestaurants | controllers/restaurant-controller.js:192-200 | the top list has min(n, 10) entries, sorted by favourite count descending |
| Restaurants.TopRestaurantsSelect | controllers/restaurant-controller.js:199-200 | the top list is drawn from the annotated restaurants, and nothing left out has more favourites than anything shown |
| Restaurants.TopRestaurantsEntries | controllers/restaurant-controller.js:192-200 | every shown entry is one of the restaurants, with its own favourite count and flag |

## Left out

- HTTP plumbing is not modelled: rendering, redirects, flash messages, logout and routing. The page controllers only delegate.
- Promise sequencing is not modelled. Each handler is one atomic sequential step, so concurrent requests that both pass a duplicate check are outside the model. This is also why the relation tables are sets.
- Sequelize queries are not modelled. Query results are input sequences, and create, update and destroy are map and set updates.
- bcrypt is not modelled: the hash is a parameter.
- The imgur upload is not modelled: its returned path is a parameter, and an absent path is the empty string.
- `IMAGE_PLACEHOLDER_URL` is a parameter.
- The clock is the `now` parameter.
- `restaurant.increment('viewCounts')` is not modelled: it is a database-side counter with no stated contract.
- The page flags `isFavorited` and `isLiked` in `getRestaurant` are not modelled. They are one membership test each and take no part in the comment order.
- Pagination and the category filter of `getRestaurants` are not modelled. Their helper source is not part of this model, so a page of rows is an input.
- The admin services and the feeds and dashboard pages are not modelled: they hold no rule beyond a lookup.
- CommentTree.Flatten does not keep the source's five literal nested loops. Each level is one call of the recursive method `EmitReplies`, and its loop is one level's scan, so one recursive method serves layers 2..5. An absent level 5 is the same case as any other layer with no replies.
- Ranking.SortDesc claims sortedness and permutation only, not stability for full ties. `Array.prototype.sort` stability is not something the source relies on.
- Restaurants.Truncate counts characters, where JavaScript's `substring` counts UTF-16 code units.
- Users.TopUsers and Restaurants.TopRestaurants say nothing about the order among equal counts.
- Categories.CategoryTable.DeleteCategory: the lookup of "(未分類)" picks some row with that name. Which row is a nondeterministic choice, because the source's `findOne` has no order. So the "undeletable" refusal is stated only as "the target is named (未分類)", and success is guaranteed only when the target is not named "(未分類)".
- CommentStore.CommentTable.ReplyComment: the source reads `comment.layer` from a missing parent and fails with a type error. The model returns a `ParentMissing` error in that place, after the user and restaurant checks.
- CommentStore.CommentTable.PostComment: an absent `text` field is the empty string.
- The model keeps comment ids as the table's keys. A restaurant id arriving as a string is not modelled; `Number(restaurantId)` is the identity here.
