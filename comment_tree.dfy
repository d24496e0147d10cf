/** The threaded-comment assembler of the restaurant page: annotate every comment
    of one restaurant with the viewer's like state and its like count, rank them,
    put them in five layer buckets and emit the reply forest in pre-order. */
module CommentTree {
  import Ranking

  /** A row of the Comments table; `replyCommentId` 0 marks a top-level comment. */
  datatype Comment = Comment(
    id: int,
    restaurantId: int,
    userId: int,
    text: string,
    replyCommentId: int,
    layer: int,
    createdAt: int)

  /** A row of the LikeComments table. */
  datatype LikeComment = LikeComment(userId: int, commentId: int)

  /** A comment with the two keys the page adds: `commentIsLiked` and `commentLikeCounts`. */
  datatype Annotated = Annotated(comment: Comment, isLiked: bool, likeCount: nat)

  /** Number of layer buckets the page renders. */
  const MaxLayer := 5

  // ---------------------------------------------------------------------------
  // Annotation

  function CommentIds(likes: seq<LikeComment>): (ids: seq<int>)
    ensures |ids| == |likes|
    ensures forall i :: 0 <= i < |likes| ==> ids[i] == likes[i].commentId
  {
    seq(|likes|, i requires 0 <= i < |likes| => likes[i].commentId)
  }

  /** The length of the like rows filtered on `commentId == id`. */
  function CountLikes(likes: seq<LikeComment>, id: int): (n: nat)
    ensures n <= |likes|
    ensures n == 0 <==> forall i :: 0 <= i < |likes| ==> likes[i].commentId != id
  {
    if likes == [] then 0
    else CountLikes(likes[..|likes| - 1], id) + (if likes[|likes| - 1].commentId == id then 1 else 0)
  }

  /** The filtered count is the multiplicity of `id` among all liked comment ids. */
  lemma {:induction false} CountLikesIsMultiplicity(likes: seq<LikeComment>, id: int)
    ensures CountLikes(likes, id) == multiset(CommentIds(likes))[id]
  {
    if likes != [] {
      var n := |likes| - 1;
      CountLikesIsMultiplicity(likes[..n], id);
      assert CommentIds(likes) == CommentIds(likes[..n]) + [likes[n].commentId];
    }
  }

  lemma CountLikesIsMultiplicityAll(likes: seq<LikeComment>)
    ensures forall id :: CountLikes(likes, id) == multiset(CommentIds(likes))[id]
  {
    forall id ensures CountLikes(likes, id) == multiset(CommentIds(likes))[id] {
      CountLikesIsMultiplicity(likes, id);
    }
  }

  /** Adds like state and like count to each comment, keeping the order. */
  function Annotate(cs: seq<Comment>, likedIds: seq<int>, likes: seq<LikeComment>): (r: seq<Annotated>)
    ensures |r| == |cs|
    ensures forall i :: 0 <= i < |cs| ==>
      && r[i].comment == cs[i]
      && (r[i].isLiked <==> cs[i].id in likedIds)
      && r[i].likeCount == multiset(CommentIds(likes))[cs[i].id]
  {
    CountLikesIsMultiplicityAll(likes);
    seq(|cs|, i requires 0 <= i < |cs| =>
      Annotated(cs[i], cs[i].id in likedIds, CountLikes(likes, cs[i].id)))
  }

  // ---------------------------------------------------------------------------
  // Ranking

  function RankKey(a: Annotated): Ranking.Key {
    (a.likeCount, a.comment.createdAt)
  }

  /** a may be ranked before b: more likes, or as many and no older. */
  predicate RanksBefore(a: Annotated, b: Annotated) {
    Ranking.KeyGE(RankKey(a), RankKey(b))
  }

  /** Like count non-increasing; among equal like counts, newest first. */
  ghost predicate Ranked(r: seq<Annotated>) {
    forall i, j :: 0 <= i < j < |r| ==> RanksBefore(r[i], r[j])
  }

  /** The sort by `commentLikeCounts` descending, then `createdAt` descending. */
  function Rank(cs: seq<Annotated>): (r: seq<Annotated>)
    ensures Ranked(r)
    ensures multiset(r) == multiset(cs)
    ensures |r| == |cs|
  {
    Ranking.SortDesc(cs, RankKey)
  }

  // ---------------------------------------------------------------------------
  // The pre-order specification, written on the ranked list r

  /** The layer-k bucket: the comments of r whose layer is k, in ranked order. */
  function Bucket(r: seq<Annotated>, k: int): seq<Annotated>
  {
    if r == [] then []
    else Bucket(r[..|r| - 1], k) + (if r[|r| - 1].comment.layer == k then [r[|r| - 1]] else [])
  }

  /** The comments of xs that reply to pid, in the order of xs. */
  function Children(xs: seq<Annotated>, pid: int): seq<Annotated>
  {
    if xs == [] then []
    else Children(xs[..|xs| - 1], pid) + (if xs[|xs| - 1].comment.replyCommentId == pid then [xs[|xs| - 1]] else [])
  }

  /** The five layer buckets; `At(k)` is the layer-k array for k in 1..5. */
  datatype Layers = Layers(b1: seq<Annotated>, b2: seq<Annotated>, b3: seq<Annotated>,
                           b4: seq<Annotated>, b5: seq<Annotated>)
  {
    function At(k: int): seq<Annotated>
      requires 1 <= k <= MaxLayer
    {
      if k == 1 then b1 else if k == 2 then b2 else if k == 3 then b3 else if k == 4 then b4 else b5
    }
  }

  /** The buckets of the ranked comments r. */
  function LayersOf(r: seq<Annotated>): Layers
  {
    Layers(Bucket(r, 1), Bucket(r, 2), Bucket(r, 3), Bucket(r, 4), Bucket(r, 5))
  }

  /** c, emitted at layer k, followed by the subtrees of its replies in layer k + 1. */
  function Subtree(ls: Layers, k: int, c: Annotated): seq<Annotated>
    requires 1 <= k <= MaxLayer
    decreases MaxLayer - k, 0
  {
    [c] + (if k == MaxLayer then [] else Replies(ls, k + 1, ls.At(k + 1), c.comment.id))
  }

  /** The subtrees of those comments of xs (a prefix of bucket k) that reply to pid. */
  function Replies(ls: Layers, k: int, xs: seq<Annotated>, pid: int): seq<Annotated>
    requires 2 <= k <= MaxLayer
    decreases MaxLayer - k, 1, |xs|
  {
    if xs == [] then []
    else
      var x := xs[|xs| - 1];
      Replies(ls, k, xs[..|xs| - 1], pid) + (if x.comment.replyCommentId == pid then Subtree(ls, k, x) else [])
  }

  /** The subtrees of the top-level comments xs (a prefix of bucket 1). */
  function Roots(ls: Layers, xs: seq<Annotated>): seq<Annotated>
  {
    if xs == [] then []
    else Roots(ls, xs[..|xs| - 1]) + Subtree(ls, 1, xs[|xs| - 1])
  }

  /** The pre-order walk of the forest the buckets describe. */
  function Forest(ls: Layers): seq<Annotated>
  {
    Roots(ls, ls.b1)
  }

  /** The page's comment sequence for the ranked comments r. */
  function PreOrder(r: seq<Annotated>): seq<Annotated>
  {
    Forest(LayersOf(r))
  }

  lemma RepliesSnoc(ls: Layers, k: int, xs: seq<Annotated>, x: Annotated, pid: int)
    requires 2 <= k <= MaxLayer
    ensures Replies(ls, k, xs + [x], pid) ==
      Replies(ls, k, xs, pid) + (if x.comment.replyCommentId == pid then Subtree(ls, k, x) else [])
  {
    assert (xs + [x])[..|xs|] == xs;
  }

  lemma RootsSnoc(ls: Layers, xs: seq<Annotated>, x: Annotated)
    ensures Roots(ls, xs + [x]) == Roots(ls, xs) + Subtree(ls, 1, x)
  {
    assert (xs + [x])[..|xs|] == xs;
  }

  lemma PrefixSnoc<T>(s: seq<T>, i: int)
    requires 0 <= i < |s|
    ensures s[..i + 1] == s[..i] + [s[i]]
  {
  }

  lemma PrefixAll<T>(s: seq<T>)
    ensures s[..|s|] == s
  {
  }

  /** The whole assembler as one value: annotate, rank, flatten. */
  function Assembled(cs: seq<Comment>, likedIds: seq<int>, likes: seq<LikeComment>): seq<Annotated>
  {
    PreOrder(Rank(Annotate(cs, likedIds, likes)))
  }

  // ---------------------------------------------------------------------------
  // The imperative passes

  /** The `forEach`/`switch` pass that pushes each comment into its layer array;
      a layer outside 1..5 matches no case and the comment is dropped. */
  method BucketByLayer(r: seq<Annotated>) returns (b1: seq<Annotated>, b2: seq<Annotated>,
      b3: seq<Annotated>, b4: seq<Annotated>, b5: seq<Annotated>)
    ensures b1 == Bucket(r, 1) && b2 == Bucket(r, 2) && b3 == Bucket(r, 3)
    ensures b4 == Bucket(r, 4) && b5 == Bucket(r, 5)
  {
    b1, b2, b3, b4, b5 := [], [], [], [], [];
    for i := 0 to |r|
      invariant b1 == Bucket(r[..i], 1) && b2 == Bucket(r[..i], 2) && b3 == Bucket(r[..i], 3)
      invariant b4 == Bucket(r[..i], 4) && b5 == Bucket(r[..i], 5)
    {
      var c := r[i];
      assert r[..i + 1][..i] == r[..i];
      match c.comment.layer
      case 1 => b1 := b1 + [c];
      case 2 => b2 := b2 + [c];
      case 3 => b3 := b3 + [c];
      case 4 => b4 := b4 + [c];
      case 5 => b5 := b5 + [c];
      case _ =>
    }
    assert r[..|r|] == r;
  }

  /** One level of the nested scans that build `rearrangedComments`: walk the
      layer-k array and push every comment that replies to pid, each followed at
      once by the scan of layer k + 1 for its own replies (none below layer 5).
      The source writes the four levels out as nested `for ... of` loops; here
      the inner loop is the call for the next layer. */
  method EmitReplies(ls: Layers, k: int, pid: int, out0: seq<Annotated>) returns (out: seq<Annotated>)
    requires 2 <= k <= MaxLayer
    ensures out == out0 + Replies(ls, k, ls.At(k), pid)
    decreases MaxLayer - k
  {
    out := out0;
    var bk := ls.At(k);
    for i := 0 to |bk|
      invariant out == out0 + Replies(ls, k, bk[..i], pid)
    {
      var c := bk[i];
      ghost var before := out;
      if c.comment.replyCommentId == pid {
        out := out + [c];
        if k < MaxLayer {
          out := EmitReplies(ls, k + 1, c.comment.id, out);
        }
        SubtreeAfter(ls, k, c, before);
      }
      RepliesStep(ls, k, bk, i, pid, out0, before, out);
    }
    PrefixAll(bk);
  }

  /** Appending c's subtree is appending c and then the replies one layer down. */
  lemma SubtreeAfter(ls: Layers, k: int, c: Annotated, before: seq<Annotated>)
    requires 1 <= k <= MaxLayer
    ensures k == MaxLayer ==> before + Subtree(ls, k, c) == before + [c]
    ensures k < MaxLayer ==>
      before + Subtree(ls, k, c) == (before + [c]) + Replies(ls, k + 1, ls.At(k + 1), c.comment.id)
  {
  }

  /** One step of the scan of bucket k keeps `out == out0 + Replies(.., bk[..i], ..)`. */
  lemma RepliesStep(ls: Layers, k: int, bk: seq<Annotated>, i: int, pid: int,
                    out0: seq<Annotated>, before: seq<Annotated>, after: seq<Annotated>)
    requires 2 <= k <= MaxLayer && 0 <= i < |bk|
    requires before == out0 + Replies(ls, k, bk[..i], pid)
    requires after == if bk[i].comment.replyCommentId == pid then before + Subtree(ls, k, bk[i]) else before
    ensures after == out0 + Replies(ls, k, bk[..i + 1], pid)
  {
    PrefixSnoc(bk, i);
    RepliesSnoc(ls, k, bk[..i], bk[i], pid);
    AppendStep(out0, Replies(ls, k, bk[..i], pid), Subtree(ls, k, bk[i]), Replies(ls, k, bk[..i + 1], pid),
               bk[i].comment.replyCommentId == pid, before, after);
  }

  /** Appending the optional block t to the output keeps it equal to out0 followed by the grown list. */
  lemma AppendStep<T>(out0: seq<T>, rs: seq<T>, t: seq<T>, grown: seq<T>, emit: bool, before: seq<T>, after: seq<T>)
    requires before == out0 + rs
    requires grown == rs + (if emit then t else [])
    requires after == if emit then before + t else before
    ensures after == out0 + grown
  {
  }

  /** The outer scan: every layer-1 comment, in bucket order, followed by its replies. */
  method Flatten(ls: Layers) returns (out: seq<Annotated>)
    ensures out == Forest(ls)
  {
    out := [];
    for i := 0 to |ls.b1|
      invariant out == Roots(ls, ls.b1[..i])
    {
      var c := ls.b1[i];
      PrefixSnoc(ls.b1, i);
      RootsSnoc(ls, ls.b1[..i], c);
      out := out + [c];
      out := EmitReplies(ls, 2, c.comment.id, out);
    }
    PrefixAll(ls.b1);
  }

  /** The assembler of the restaurant page. */
  method Assemble(cs: seq<Comment>, likedIds: seq<int>, likes: seq<LikeComment>)
    returns (out: seq<Annotated>)
    ensures out == Assembled(cs, likedIds, likes)
  {
    var ranked := Rank(Annotate(cs, likedIds, likes));
    var b1, b2, b3, b4, b5 := BucketByLayer(ranked);
    out := Flatten(Layers(b1, b2, b3, b4, b5));
  }
}
