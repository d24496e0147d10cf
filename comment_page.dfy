/** The assembler's guarantees stated on the page's inputs: the restaurant's
    comments, the viewer's liked comment ids and the like rows. */
module CommentPage {
  import opened CommentTree
  import opened CommentTreeProps

  /** No two comments share an id, as the primary key guarantees. */
  ghost predicate UniqueIds(cs: seq<Comment>) {
    forall i, j :: 0 <= i < j < |cs| ==> cs[i].id != cs[j].id
  }

  /** The ids of a sequence of annotated comments, in order. */
  function IdsOf(s: seq<Annotated>): seq<int>
  {
    if s == [] then [] else [s[0].comment.id] + IdsOf(s[1..])
  }

  /** The annotation the page gives comment c. */
  function AnnotationOf(c: Comment, likedIds: seq<int>, likes: seq<LikeComment>): Annotated {
    Annotated(c, c.id in likedIds, multiset(CommentIds(likes))[c.id])
  }

  /** Every element of the ranked list is the annotation of one of the comments. */
  lemma RankedMember(cs: seq<Comment>, likedIds: seq<int>, likes: seq<LikeComment>, y: Annotated)
    requires y in Rank(Annotate(cs, likedIds, likes))
    ensures y.comment in cs && y == AnnotationOf(y.comment, likedIds, likes)
  {
    var a := Annotate(cs, likedIds, likes);
    assert y in multiset(Rank(a));
    assert y in multiset(a);
    var i :| 0 <= i < |a| && a[i] == y;
  }

  /** Every comment's annotation is in the ranked list. */
  lemma AnnotationRanked(cs: seq<Comment>, likedIds: seq<int>, likes: seq<LikeComment>, c: Comment)
    requires c in cs
    ensures AnnotationOf(c, likedIds, likes) in Rank(Annotate(cs, likedIds, likes))
  {
    var a := Annotate(cs, likedIds, likes);
    var i :| 0 <= i < |cs| && cs[i] == c;
    assert a[i] == AnnotationOf(c, likedIds, likes);
    assert a[i] in multiset(a);
  }

  /** Each emitted entry is one of the restaurant's comments with a layer in
      1..5, marked liked exactly when the viewer likes it and carrying the number
      of like rows that name it. */
  lemma AssembledAnnotations(cs: seq<Comment>, likedIds: seq<int>, likes: seq<LikeComment>)
    ensures forall y :: y in Assembled(cs, likedIds, likes) ==>
      && y.comment in cs
      && 1 <= y.comment.layer <= MaxLayer
      && (y.isLiked <==> y.comment.id in likedIds)
      && y.likeCount == multiset(CommentIds(likes))[y.comment.id]
  {
    var r := Rank(Annotate(cs, likedIds, likes));
    PreOrderDepth(r);
    forall y | y in Assembled(cs, likedIds, likes)
      ensures y.comment in cs && y == AnnotationOf(y.comment, likedIds, likes)
    {
      RankedMember(cs, likedIds, likes, y);
    }
  }

  /** Every top-level comment is shown, and the top-level entries follow the ranking. */
  lemma AssembledTopLevel(cs: seq<Comment>, likedIds: seq<int>, likes: seq<LikeComment>, c: Comment)
    requires c in cs && c.layer == 1
    ensures AnnotationOf(c, likedIds, likes) in Assembled(cs, likedIds, likes)
    ensures Ranked(Bucket(Assembled(cs, likedIds, likes), 1))
  {
    var r := Rank(Annotate(cs, likedIds, likes));
    AnnotationRanked(cs, likedIds, likes, c);
    PreOrderEmitted(r, AnnotationOf(c, likedIds, likes));
    PreOrderTopLevel(r);
  }

  /** A reply of layer 2..5 is shown exactly when a comment one layer up with
      the id it replies to is shown; a reply whose parent was deleted, or sits
      at another layer, is not. */
  lemma AssembledReply(cs: seq<Comment>, likedIds: seq<int>, likes: seq<LikeComment>, c: Comment)
    requires c in cs && 2 <= c.layer <= MaxLayer
    ensures var out := Assembled(cs, likedIds, likes);
      AnnotationOf(c, likedIds, likes) in out <==>
        exists i :: 0 <= i < |out| && out[i].comment.layer == c.layer - 1
                                   && out[i].comment.id == c.replyCommentId
  {
    var r := Rank(Annotate(cs, likedIds, likes));
    var y := AnnotationOf(c, likedIds, likes);
    AnnotationRanked(cs, likedIds, likes, c);
    PreOrderEmitted(r, y);
    var out := PreOrder(r);
    if exists i :: 0 <= i < |out| && out[i].comment.layer == c.layer - 1
                                  && out[i].comment.id == c.replyCommentId {
      var i :| 0 <= i < |out| && out[i].comment.layer == c.layer - 1
                              && out[i].comment.id == c.replyCommentId;
      assert EmittedParent(out, i, y);
    }
  }

  /** A comment whose layer is outside 1..5 is never shown. */
  lemma AssembledLayerBound(cs: seq<Comment>, likedIds: seq<int>, likes: seq<LikeComment>, c: Comment)
    requires !(1 <= c.layer <= MaxLayer)
    ensures forall y :: y in Assembled(cs, likedIds, likes) ==> y.comment != c
  {
    AssembledAnnotations(cs, likedIds, likes);
  }

  lemma {:induction false} MultiplicityAtMostOne(a: seq<Annotated>)
    requires NoDup(a)
    ensures forall x :: multiset(a)[x] <= 1
  {
    if a != [] {
      var n := |a| - 1;
      NoDupPrefix(a, n);
      MultiplicityAtMostOne(a[..n]);
      assert a == a[..n] + [a[n]];
    }
  }

  lemma MultiplicityTwo(b: seq<Annotated>, i: int, j: int)
    requires 0 <= i < j < |b| && b[i] == b[j]
    ensures multiset(b)[b[i]] >= 2
  {
    assert b == b[..j] + [b[j]] + b[j + 1..];
    assert b[..j][i] == b[i];
  }

  /** A permutation of a list with distinct ids has distinct ids. */
  lemma DistinctPermutation(a: seq<Annotated>, b: seq<Annotated>)
    requires DistinctIds(a) && multiset(a) == multiset(b)
    ensures DistinctIds(b)
  {
    DistinctNoDup(a);
    MultiplicityAtMostOne(a);
    forall i, j | 0 <= i < j < |b| ensures b[i].comment.id != b[j].comment.id {
      if b[i] == b[j] {
        MultiplicityTwo(b, i, j);
      } else {
        assert b[i] in multiset(a) && b[j] in multiset(a);
        var p :| 0 <= p < |a| && a[p] == b[i];
        var q :| 0 <= q < |a| && a[q] == b[j];
        assert p != q;
      }
    }
  }

  /** With unique ids, nothing is shown twice and at most |cs| entries are shown. */
  lemma AssembledDistinct(cs: seq<Comment>, likedIds: seq<int>, likes: seq<LikeComment>)
    requires UniqueIds(cs)
    ensures DistinctIds(Assembled(cs, likedIds, likes))
    ensures |Assembled(cs, likedIds, likes)| <= |cs|
  {
    var a := Annotate(cs, likedIds, likes);
    assert DistinctIds(a);
    DistinctPermutation(a, Rank(a));
    PreOrderDistinct(Rank(a));
  }

  /** The worked example: comment 2 (five likes) before comment 1 (two likes),
      reply 3 right after its parent 2, and reply 4, whose parent 99 is absent,
      left out. */
  lemma OrphanExample()
    ensures IdsOf(Assembled(ExampleComments(), [], ExampleLikes())) == [2, 3, 1]
  {
    ExampleAnnotate();
    ExampleRank();
    ExampleLayers();
    ExampleForest();
    ExampleIds();
  }

  const C1 := Comment(1, 7, 1, "a", 0, 1, 10)
  const C2 := Comment(2, 7, 1, "b", 0, 1, 20)
  const C3 := Comment(3, 7, 1, "c", 2, 2, 30)
  const C4 := Comment(4, 7, 1, "d", 99, 2, 40)
  const E1 := Annotated(C1, false, 2)
  const E2 := Annotated(C2, false, 5)
  const E3 := Annotated(C3, false, 0)
  const E4 := Annotated(C4, false, 1)

  function ExampleComments(): seq<Comment> {
    [C1, C2, C3, C4]
  }

  function ExampleLikes(): seq<LikeComment> {
    [LikeComment(1, 1), LikeComment(2, 1),
     LikeComment(1, 2), LikeComment(2, 2), LikeComment(3, 2),
     LikeComment(4, 2), LikeComment(5, 2), LikeComment(1, 4)]
  }

  lemma ExampleIds()
    ensures IdsOf([E2, E3, E1]) == [2, 3, 1]
  {
    assert [E1][1..] == [];
    assert IdsOf([E1]) == [1];
    assert [E3, E1][1..] == [E1];
    assert IdsOf([E3, E1]) == [3, 1];
    assert [E2, E3, E1][1..] == [E3, E1];
  }

  lemma ExampleAnnotate()
    ensures Annotate(ExampleComments(), [], ExampleLikes()) == [E1, E2, E3, E4]
  {
    var a := Annotate(ExampleComments(), [], ExampleLikes());
    ExampleCounts();
    assert a[0] == E1 && a[1] == E2 && a[2] == E3 && a[3] == E4;
  }

  lemma ExampleCounts()
    ensures var m := multiset(CommentIds(ExampleLikes()));
      m[1] == 2 && m[2] == 5 && m[3] == 0 && m[4] == 1
  {
    var ids := CommentIds(ExampleLikes());
    assert ids == [1, 1] + [2, 2, 2, 2, 2] + [4];
    assert multiset([1, 1]) == multiset{1, 1};
    assert multiset([2, 2, 2, 2, 2]) == multiset{2, 2, 2, 2, 2};
  }

  lemma ExampleRank()
    ensures Rank([E1, E2, E3, E4]) == [E2, E1, E4, E3]
  {
    ExampleSort2();
    ExampleSort3();
    ExampleSort4();
  }

  lemma ExampleSort2()
    ensures Ranking.SortDesc([E1, E2], RankKey) == [E2, E1]
  {
    assert [E1, E2][..1] == [E1];
    assert [E1][..0] == [];
    assert Ranking.SortDesc([E1], RankKey) == [E1];
  }

  lemma ExampleSort3()
    requires Ranking.SortDesc([E1, E2], RankKey) == [E2, E1]
    ensures Ranking.SortDesc([E1, E2, E3], RankKey) == [E2, E1, E3]
  {
    assert [E1, E2, E3][..2] == [E1, E2];
    assert [E2, E1][1..] == [E1] && [E1][1..] == [];
    assert Ranking.Insert(E3, [E1], RankKey) == [E1, E3];
  }

  lemma ExampleSort4()
    requires Ranking.SortDesc([E1, E2, E3], RankKey) == [E2, E1, E3]
    ensures Ranking.SortDesc([E1, E2, E3, E4], RankKey) == [E2, E1, E4, E3]
  {
    assert [E1, E2, E3, E4][..3] == [E1, E2, E3];
    ExampleInsert4();
  }

  lemma ExampleInsert4()
    ensures Ranking.Insert(E4, [E2, E1, E3], RankKey) == [E2, E1, E4, E3]
  {
    ExampleInsert4Tail();
    assert [E2, E1, E3][1..] == [E1, E3];
  }

  lemma ExampleInsert4Tail()
    ensures Ranking.Insert(E4, [E1, E3], RankKey) == [E1, E4, E3]
  {
    assert [E1, E3][1..] == [E3];
    assert Ranking.Insert(E4, [E3], RankKey) == [E4, E3];
  }

  lemma ExampleLayers()
    ensures LayersOf([E2, E1, E4, E3]) == Layers([E2, E1], [E4, E3], [], [], [])
  {
    var r := [E2, E1, E4, E3];
    assert r == [E2, E1] + [E4, E3];
    forall k | 1 <= k <= MaxLayer
      ensures Bucket(r, k) == Bucket([E2, E1], k) + Bucket([E4, E3], k)
      ensures Bucket([E2, E1], k) == (if k == 1 then [E2, E1] else [])
      ensures Bucket([E4, E3], k) == (if k == 2 then [E4, E3] else [])
    {
      BucketConcat([E2, E1], [E4, E3], k);
      ExamplePair(E2, E1, k);
      ExamplePair(E4, E3, k);
    }
  }

  lemma ExamplePair(a: Annotated, b: Annotated, k: int)
    requires a.comment.layer == b.comment.layer
    ensures Bucket([a, b], k) == if a.comment.layer == k then [a, b] else []
  {
    assert [a, b] == [a] + [b];
    BucketConcat([a], [b], k);
    BucketSingle(a, k);
    BucketSingle(b, k);
  }

  lemma ExampleForest()
    ensures Forest(Layers([E2, E1], [E4, E3], [], [], [])) == [E2, E3, E1]
  {
    var ls := Layers([E2, E1], [E4, E3], [], [], []);
    assert [E4, E3][..1] == [E4];
    assert Replies(ls, 3, [], 3) == [];
    assert Subtree(ls, 2, E3) == [E3];
    assert Replies(ls, 2, [E4], 2) == [];
    assert Replies(ls, 2, [E4, E3], 2) == [E3];
    assert Replies(ls, 2, [E4], 1) == [];
    assert Replies(ls, 2, [E4, E3], 1) == [];
    assert Subtree(ls, 1, E2) == [E2, E3];
    assert Subtree(ls, 1, E1) == [E1];
    assert [E2, E1][..1] == [E2];
    assert Roots(ls, [E2]) == [E2, E3];
  }
}
