/** What the restaurant page's comment sequence satisfies: depth bound, which
    comments are emitted, parent-before-replies nesting, contiguous subtrees,
    ranked sibling order, and no repetition when ids are distinct. */
module CommentTreeProps {
  import opened Wrappers
  import opened CommentTree

  // ---------------------------------------------------------------------------
  // Vocabulary

  /** Every bucket holds only comments of its own layer. */
  ghost predicate WellLayered(ls: Layers) {
    forall k :: 1 <= k <= MaxLayer ==> forall x :: x in ls.At(k) ==> x.comment.layer == k
  }

  /** Every comment held in some bucket. */
  function AllOf(ls: Layers): seq<Annotated> {
    ls.b1 + ls.b2 + ls.b3 + ls.b4 + ls.b5
  }

  ghost predicate DistinctIds(s: seq<Annotated>) {
    forall i, j :: 0 <= i < j < |s| ==> s[i].comment.id != s[j].comment.id
  }

  ghost predicate NoDup<T>(s: seq<T>) {
    forall i, j :: 0 <= i < j < |s| ==> s[i] != s[j]
  }

  /** s[j] is the parent of s[i]: one layer up, with the id s[i] replies to, and
      every comment between them is at s[i]'s layer or deeper. */
  ghost predicate ParentAt(s: seq<Annotated>, i: int, j: int) {
    && 0 <= j < i < |s|
    && s[j].comment.layer == s[i].comment.layer - 1
    && s[j].comment.id == s[i].comment.replyCommentId
    && forall m :: j < m < i ==> s[m].comment.layer >= s[i].comment.layer
  }

  /** s[i] has its parent earlier in s. */
  ghost predicate HasParent(s: seq<Annotated>, i: int) {
    exists j :: ParentAt(s, i, j)
  }

  /** Every comment of s deeper than layer k has its parent earlier in s. */
  ghost predicate NestedAbove(s: seq<Annotated>, k: int) {
    forall i :: 0 <= i < |s| && s[i].comment.layer > k ==> exists j :: ParentAt(s, i, j)
  }

  /** s[i] is a comment one layer above y with the id y replies to. */
  ghost predicate EmittedParent(s: seq<Annotated>, i: int, y: Annotated) {
    && 0 <= i < |s|
    && s[i].comment.layer == y.comment.layer - 1
    && s[i].comment.id == y.comment.replyCommentId
  }

  /** Every comment of s that the walk can reach is followed at once by its whole subtree. */
  ghost predicate BlocksContiguous(ls: Layers, s: seq<Annotated>) {
    forall i :: 0 <= i < |s| && 1 <= s[i].comment.layer <= MaxLayer ==> BlockAt(ls, s, i)
  }

  // ---------------------------------------------------------------------------
  // Buckets and children

  lemma {:induction false} BucketMembers(r: seq<Annotated>, k: int)
    ensures forall x :: x in Bucket(r, k) <==> x in r && x.comment.layer == k
  {
    if r != [] {
      var n := |r| - 1;
      BucketMembers(r[..n], k);
      assert r == r[..n] + [r[n]];
    }
  }

  lemma {:induction false} ChildrenMembers(xs: seq<Annotated>, pid: int)
    ensures forall x :: x in Children(xs, pid) <==> x in xs && x.comment.replyCommentId == pid
  {
    if xs != [] {
      var n := |xs| - 1;
      ChildrenMembers(xs[..n], pid);
      assert xs == xs[..n] + [xs[n]];
    }
  }

  lemma {:induction false} BucketConcat(a: seq<Annotated>, b: seq<Annotated>, k: int)
    ensures Bucket(a + b, k) == Bucket(a, k) + Bucket(b, k)
  {
    if b == [] {
      assert a + b == a;
    } else {
      var n := |b| - 1;
      BucketConcat(a, b[..n], k);
      assert (a + b)[..|a + b| - 1] == a + b[..n];
    }
  }

  lemma {:induction false} BucketNone(s: seq<Annotated>, k: int)
    requires forall x :: x in s ==> x.comment.layer != k
    ensures Bucket(s, k) == []
  {
    if s != [] {
      BucketNone(s[..|s| - 1], k);
    }
  }

  lemma {:induction false} BucketRanked(r: seq<Annotated>, k: int)
    requires Ranked(r)
    ensures Ranked(Bucket(r, k))
  {
    if r != [] {
      var n := |r| - 1;
      BucketRanked(r[..n], k);
      BucketMembers(r[..n], k);
      var b := Bucket(r, k);
      forall i, j | 0 <= i < j < |b| ensures RanksBefore(b[i], b[j]) {
        var p := Bucket(r[..n], k);
        if j >= |p| {
          assert b[i] == p[i] && b[j] == r[n];
          assert b[i] in r[..n];
          var q :| 0 <= q < n && r[..n][q] == b[i];
          assert r[q] == b[i];
          assert RanksBefore(r[q], r[n]);
        } else {
          assert b[i] == p[i] && b[j] == p[j];
          assert RanksBefore(p[i], p[j]);
        }
      }
    }
  }

  lemma {:induction false} ChildrenRanked(xs: seq<Annotated>, pid: int)
    requires Ranked(xs)
    ensures Ranked(Children(xs, pid))
  {
    if xs != [] {
      var n := |xs| - 1;
      ChildrenRanked(xs[..n], pid);
      ChildrenMembers(xs[..n], pid);
      var b := Children(xs, pid);
      forall i, j | 0 <= i < j < |b| ensures RanksBefore(b[i], b[j]) {
        var p := Children(xs[..n], pid);
        if j >= |p| {
          assert b[i] == p[i] && b[j] == xs[n];
          assert b[i] in xs[..n];
          var q :| 0 <= q < n && xs[..n][q] == b[i];
          assert xs[q] == b[i];
        } else {
          assert b[i] == p[i] && b[j] == p[j];
          assert RanksBefore(p[i], p[j]);
        }
      }
    }
  }

  lemma LayersOfWellLayered(r: seq<Annotated>)
    ensures WellLayered(LayersOf(r))
  {
    forall k | 1 <= k <= MaxLayer {
      BucketMembers(r, k);
    }
  }

  lemma LayersOfWithin(r: seq<Annotated>)
    ensures forall x :: x in AllOf(LayersOf(r)) ==> x in r
  {
    forall k | 1 <= k <= MaxLayer {
      BucketMembers(r, k);
    }
  }

  lemma InLayer(ls: Layers, k: int, x: Annotated)
    requires WellLayered(ls) && 1 <= k <= MaxLayer && x in ls.At(k)
    ensures x.comment.layer == k
  {
  }

  lemma AtInAllOf(ls: Layers, k: int)
    requires 1 <= k <= MaxLayer
    ensures forall x :: x in ls.At(k) ==> x in AllOf(ls)
  {
  }

  // ---------------------------------------------------------------------------
  // Shape: layers and origin of the emitted comments

  lemma {:induction false} SubtreeShape(ls: Layers, k: int, c: Annotated)
    requires WellLayered(ls) && 1 <= k <= MaxLayer && c.comment.layer == k
    ensures var t := Subtree(ls, k, c);
      && |t| >= 1 && t[0] == c
      && forall i :: 1 <= i < |t| ==> k < t[i].comment.layer <= MaxLayer && t[i] in AllOf(ls)
    decreases MaxLayer - k, 0
  {
    var t := Subtree(ls, k, c);
    if k < MaxLayer {
      var rs := Replies(ls, k + 1, ls.At(k + 1), c.comment.id);
      assert t == [c] + rs;
      RepliesShape(ls, k + 1, ls.At(k + 1), c.comment.id);
      ShapeCons(c, rs, k, AllOf(ls));
    } else {
      assert t == [c];
    }
  }

  lemma ShapeCons(c: Annotated, rs: seq<Annotated>, k: int, all: seq<Annotated>)
    requires forall y :: y in rs ==> k + 1 <= y.comment.layer <= MaxLayer && y in all
    ensures forall i :: 1 <= i < |[c] + rs| ==> k < ([c] + rs)[i].comment.layer <= MaxLayer && ([c] + rs)[i] in all
  {
    var t := [c] + rs;
    forall i | 1 <= i < |t| ensures k < t[i].comment.layer <= MaxLayer && t[i] in all {
      assert t[i] == rs[i - 1] && rs[i - 1] in rs;
    }
  }

  lemma {:induction false} RepliesShape(ls: Layers, k: int, xs: seq<Annotated>, pid: int)
    requires WellLayered(ls) && 2 <= k <= MaxLayer
    requires forall x :: x in xs ==> x in ls.At(k)
    ensures forall y :: y in Replies(ls, k, xs, pid) ==>
      && k <= y.comment.layer <= MaxLayer
      && y in AllOf(ls)
      && (y.comment.layer == k ==> y.comment.replyCommentId == pid && y in xs)
    decreases MaxLayer - k, 1, |xs|
  {
    if xs != [] {
      var n := |xs| - 1;
      var x := xs[n];
      RepliesShape(ls, k, xs[..n], pid);
      AtInAllOf(ls, k);
      if x.comment.replyCommentId == pid {
        assert x in xs;
        InLayer(ls, k, x);
        SubtreeShape(ls, k, x);
        var t := Subtree(ls, k, x);
        forall y | y in t ensures
          && k <= y.comment.layer <= MaxLayer
          && y in AllOf(ls)
          && (y.comment.layer == k ==> y.comment.replyCommentId == pid && y in xs)
        {
          var i :| 0 <= i < |t| && t[i] == y;
        }
      }
    }
  }

  lemma {:induction false} RootsShape(ls: Layers, xs: seq<Annotated>)
    requires WellLayered(ls)
    requires forall x :: x in xs ==> x in ls.b1
    ensures forall y :: y in Roots(ls, xs) ==>
      1 <= y.comment.layer <= MaxLayer && y in AllOf(ls)
  {
    if xs != [] {
      var n := |xs| - 1;
      RootsShape(ls, xs[..n]);
      assert ls.At(1) == ls.b1;
      SubtreeShape(ls, 1, xs[n]);
      var t := Subtree(ls, 1, xs[n]);
      forall y | y in t ensures 1 <= y.comment.layer <= MaxLayer && y in AllOf(ls) {
        var i :| 0 <= i < |t| && t[i] == y;
      }
    }
  }

  // ---------------------------------------------------------------------------
  // Nesting: each reply's parent is the nearest shallower comment before it

  lemma NestedConcat(a: seq<Annotated>, b: seq<Annotated>, k: int)
    requires NestedAbove(a, k) && NestedAbove(b, k)
    ensures NestedAbove(a + b, k)
  {
    var s := a + b;
    forall i | 0 <= i < |s| && s[i].comment.layer > k ensures exists j :: ParentAt(s, i, j) {
      if i < |a| {
        var j :| ParentAt(a, i, j);
        assert ParentAt(s, i, j);
      } else {
        var j :| ParentAt(b, i - |a|, j);
        assert ParentAt(s, i, j + |a|);
      }
    }
  }

  lemma ParentAtShift(a: seq<Annotated>, b: seq<Annotated>, i: int, j: int)
    requires ParentAt(b, i, j)
    ensures ParentAt(a + b, i + |a|, j + |a|)
  {
    var s := a + b;
    forall m | j + |a| < m < i + |a| ensures s[m].comment.layer >= s[i + |a|].comment.layer {
      assert s[m] == b[m - |a|];
    }
  }

  lemma ParentAtHead(c: Annotated, rs: seq<Annotated>, i: int)
    requires 0 <= i < |rs|
    requires rs[i].comment.layer == c.comment.layer + 1 && rs[i].comment.replyCommentId == c.comment.id
    requires forall m :: 0 <= m < i ==> rs[m].comment.layer >= c.comment.layer + 1
    ensures ParentAt([c] + rs, i + 1, 0)
  {
    var s := [c] + rs;
    forall m | 0 < m < i + 1 ensures s[m].comment.layer >= s[i + 1].comment.layer {
      assert s[m] == rs[m - 1];
    }
  }

  lemma IndexedShape(rs: seq<Annotated>, k: int, pid: int)
    requires forall y :: y in rs ==> k <= y.comment.layer && (y.comment.layer == k ==> y.comment.replyCommentId == pid)
    ensures forall i :: 0 <= i < |rs| ==>
      rs[i].comment.layer >= k && (rs[i].comment.layer == k ==> rs[i].comment.replyCommentId == pid)
  {
    assert forall i :: 0 <= i < |rs| ==> rs[i] in rs;
  }

  /** A comment followed by a sequence of its own subtrees is nested. */
  lemma NestedCons(c: Annotated, rs: seq<Annotated>, k: int)
    requires c.comment.layer == k && NestedAbove(rs, k + 1)
    requires forall i :: 0 <= i < |rs| ==>
      rs[i].comment.layer >= k + 1 && (rs[i].comment.layer == k + 1 ==> rs[i].comment.replyCommentId == c.comment.id)
    ensures NestedAbove([c] + rs, k)
  {
    var s := [c] + rs;
    forall i | 0 <= i < |s| && s[i].comment.layer > k
      ensures HasParent(s, i)
    {
      NestedConsAt(c, rs, k, i);
    }
  }

  lemma NestedConsAt(c: Annotated, rs: seq<Annotated>, k: int, i: int)
    requires c.comment.layer == k && NestedAbove(rs, k + 1) && 0 < i <= |rs|
    requires forall m :: 0 <= m < |rs| ==>
      rs[m].comment.layer >= k + 1 && (rs[m].comment.layer == k + 1 ==> rs[m].comment.replyCommentId == c.comment.id)
    ensures HasParent([c] + rs, i)
  {
    if rs[i - 1].comment.layer == k + 1 {
      ParentAtHead(c, rs, i - 1);
    } else {
      var j := ParentOf(rs, k + 1, i - 1);
      ParentAtShift([c], rs, i - 1, j);
    }
  }

  lemma ParentOf(s: seq<Annotated>, k: int, i: int) returns (j: int)
    requires NestedAbove(s, k) && 0 <= i < |s| && s[i].comment.layer > k
    ensures ParentAt(s, i, j)
  {
    j :| ParentAt(s, i, j);
  }

  lemma {:induction false} SubtreeNested(ls: Layers, k: int, c: Annotated)
    requires WellLayered(ls) && 1 <= k <= MaxLayer && c.comment.layer == k
    ensures NestedAbove(Subtree(ls, k, c), k)
    decreases MaxLayer - k, 0
  {
    if k < MaxLayer {
      var rs := Replies(ls, k + 1, ls.At(k + 1), c.comment.id);
      assert Subtree(ls, k, c) == [c] + rs;
      RepliesShape(ls, k + 1, ls.At(k + 1), c.comment.id);
      RepliesNested(ls, k + 1, ls.At(k + 1), c.comment.id);
      IndexedShape(rs, k + 1, c.comment.id);
      NestedCons(c, rs, k);
    } else {
      assert Subtree(ls, k, c) == [c];
    }
  }

  lemma {:induction false} RepliesNested(ls: Layers, k: int, xs: seq<Annotated>, pid: int)
    requires WellLayered(ls) && 2 <= k <= MaxLayer
    requires forall x :: x in xs ==> x in ls.At(k)
    ensures NestedAbove(Replies(ls, k, xs, pid), k)
    decreases MaxLayer - k, 1, |xs|
  {
    if xs != [] {
      var n := |xs| - 1;
      var x := xs[n];
      RepliesNested(ls, k, xs[..n], pid);
      if x.comment.replyCommentId == pid {
        assert x in ls.At(k);
        SubtreeNested(ls, k, x);
        NestedConcat(Replies(ls, k, xs[..n], pid), Subtree(ls, k, x), k);
      } else {
        assert Replies(ls, k, xs, pid) == Replies(ls, k, xs[..n], pid);
      }
    }
  }

  lemma {:induction false} RootsNested(ls: Layers, xs: seq<Annotated>)
    requires WellLayered(ls)
    requires forall x :: x in xs ==> x in ls.b1
    ensures NestedAbove(Roots(ls, xs), 1)
  {
    if xs != [] {
      var n := |xs| - 1;
      RootsNested(ls, xs[..n]);
      assert ls.At(1) == ls.b1;
      SubtreeNested(ls, 1, xs[n]);
      NestedConcat(Roots(ls, xs[..n]), Subtree(ls, 1, xs[n]), 1);
    }
  }

  // ---------------------------------------------------------------------------
  // Contiguity: every emitted comment is followed at once by its whole subtree

  /** s[i] is followed at once by its whole subtree. */
  ghost predicate BlockAt(ls: Layers, s: seq<Annotated>, i: int)
    requires 0 <= i < |s| && 1 <= s[i].comment.layer <= MaxLayer
  {
    var t := Subtree(ls, s[i].comment.layer, s[i]);
    i + |t| <= |s| && s[i..i + |t|] == t
  }

  lemma BlockAtShift(ls: Layers, a: seq<Annotated>, b: seq<Annotated>, i: int)
    requires 0 <= i < |b| && 1 <= b[i].comment.layer <= MaxLayer && BlockAt(ls, b, i)
    ensures (a + b)[i + |a|] == b[i] && BlockAt(ls, a + b, i + |a|)
  {
    var t := Subtree(ls, b[i].comment.layer, b[i]);
    assert (a + b)[i + |a|..i + |a| + |t|] == b[i..i + |t|];
  }

  lemma BlockAtPrefix(ls: Layers, a: seq<Annotated>, b: seq<Annotated>, i: int)
    requires 0 <= i < |a| && 1 <= a[i].comment.layer <= MaxLayer && BlockAt(ls, a, i)
    ensures (a + b)[i] == a[i] && BlockAt(ls, a + b, i)
  {
    var t := Subtree(ls, a[i].comment.layer, a[i]);
    assert (a + b)[i..i + |t|] == a[i..i + |t|];
  }

  lemma BlocksConcat(ls: Layers, a: seq<Annotated>, b: seq<Annotated>)
    requires BlocksContiguous(ls, a) && BlocksContiguous(ls, b)
    ensures BlocksContiguous(ls, a + b)
  {
    var s := a + b;
    forall i | 0 <= i < |s| && 1 <= s[i].comment.layer <= MaxLayer
      ensures BlockAt(ls, s, i)
    {
      if i < |a| {
        assert s[i] == a[i] && BlockAt(ls, a, i);
        BlockAtPrefix(ls, a, b, i);
      } else {
        assert s[i] == b[i - |a|] && BlockAt(ls, b, i - |a|);
        BlockAtShift(ls, a, b, i - |a|);
      }
    }
  }

  lemma BlocksCons(ls: Layers, k: int, c: Annotated, rs: seq<Annotated>)
    requires 1 <= k <= MaxLayer && c.comment.layer == k
    requires Subtree(ls, k, c) == [c] + rs
    requires BlocksContiguous(ls, rs)
    ensures BlocksContiguous(ls, [c] + rs)
  {
    var s := [c] + rs;
    forall i | 0 <= i < |s| && 1 <= s[i].comment.layer <= MaxLayer
      ensures BlockAt(ls, s, i)
    {
      if i == 0 {
        assert s[0..|s|] == s;
      } else {
        assert s[i] == rs[i - 1] && BlockAt(ls, rs, i - 1);
        BlockAtShift(ls, [c], rs, i - 1);
      }
    }
  }

  lemma {:induction false} SubtreeBlocks(ls: Layers, k: int, c: Annotated)
    requires WellLayered(ls) && 1 <= k <= MaxLayer && c.comment.layer == k
    ensures BlocksContiguous(ls, Subtree(ls, k, c))
    decreases MaxLayer - k, 0
  {
    if k < MaxLayer {
      var rs := Replies(ls, k + 1, ls.At(k + 1), c.comment.id);
      RepliesBlocks(ls, k + 1, ls.At(k + 1), c.comment.id);
      BlocksCons(ls, k, c, rs);
    } else {
      BlocksCons(ls, k, c, []);
      assert [c] + [] == Subtree(ls, k, c);
    }
  }

  lemma {:induction false} RepliesBlocks(ls: Layers, k: int, xs: seq<Annotated>, pid: int)
    requires WellLayered(ls) && 2 <= k <= MaxLayer
    requires forall x :: x in xs ==> x in ls.At(k)
    ensures BlocksContiguous(ls, Replies(ls, k, xs, pid))
    decreases MaxLayer - k, 1, |xs|
  {
    if xs != [] {
      var n := |xs| - 1;
      var x := xs[n];
      RepliesBlocks(ls, k, xs[..n], pid);
      if x.comment.replyCommentId == pid {
        assert x in ls.At(k);
        SubtreeBlocks(ls, k, x);
        BlocksConcat(ls, Replies(ls, k, xs[..n], pid), Subtree(ls, k, x));
      } else {
        assert Replies(ls, k, xs, pid) == Replies(ls, k, xs[..n], pid);
      }
    }
  }

  lemma {:induction false} RootsBlocks(ls: Layers, xs: seq<Annotated>)
    requires WellLayered(ls)
    requires forall x :: x in xs ==> x in ls.b1
    ensures BlocksContiguous(ls, Roots(ls, xs))
  {
    if xs != [] {
      var n := |xs| - 1;
      RootsBlocks(ls, xs[..n]);
      assert ls.At(1) == ls.b1;
      SubtreeBlocks(ls, 1, xs[n]);
      BlocksConcat(ls, Roots(ls, xs[..n]), Subtree(ls, 1, xs[n]));
    }
  }

  // ---------------------------------------------------------------------------
  // Sibling order: the direct replies inside a subtree are the parent's
  // children in bucket order

  lemma BucketSingle(x: Annotated, k: int)
    ensures Bucket([x], k) == if x.comment.layer == k then [x] else []
  {
    assert [x][..0] == [];
  }

  lemma SubtreeOwnLayer(ls: Layers, k: int, c: Annotated)
    requires WellLayered(ls) && 1 <= k <= MaxLayer && c.comment.layer == k
    ensures Bucket(Subtree(ls, k, c), k) == [c]
  {
    var t := Subtree(ls, k, c);
    SubtreeShape(ls, k, c);
    assert t == [c] + t[1..];
    BucketConcat([c], t[1..], k);
    BucketSingle(c, k);
    forall y | y in t[1..] ensures y.comment.layer != k {
      var i :| 0 <= i < |t[1..]| && t[1..][i] == y;
      assert t[i + 1] == y;
    }
    BucketNone(t[1..], k);
  }

  lemma OwnLayerStep(pre: seq<Annotated>, t: seq<Annotated>, x: Annotated, emit: bool, k: int, ch: seq<Annotated>)
    requires Bucket(pre, k) == ch
    requires emit ==> Bucket(t, k) == [x]
    ensures Bucket(pre + (if emit then t else []), k) == ch + (if emit then [x] else [])
  {
    if emit {
      BucketConcat(pre, t, k);
    } else {
      assert pre + [] == pre;
    }
  }

  lemma {:induction false} RepliesOwnLayer(ls: Layers, k: int, xs: seq<Annotated>, pid: int)
    requires WellLayered(ls) && 2 <= k <= MaxLayer
    requires forall x :: x in xs ==> x in ls.At(k)
    ensures Bucket(Replies(ls, k, xs, pid), k) == Children(xs, pid)
  {
    if xs != [] {
      var n := |xs| - 1;
      var x := xs[n];
      var emit := x.comment.replyCommentId == pid;
      RepliesOwnLayer(ls, k, xs[..n], pid);
      if emit {
        InLayer(ls, k, x);
        SubtreeOwnLayer(ls, k, x);
      }
      OwnLayerStep(Replies(ls, k, xs[..n], pid), Subtree(ls, k, x), x, emit, k, Children(xs[..n], pid));
      assert Replies(ls, k, xs, pid) == Replies(ls, k, xs[..n], pid) + (if emit then Subtree(ls, k, x) else []);
      assert Children(xs, pid) == Children(xs[..n], pid) + (if emit then [x] else []);
    }
  }

  /** Inside the subtree of c, the layer below c holds exactly c's children,
      in the order of their bucket. */
  lemma SubtreeChildren(ls: Layers, k: int, c: Annotated)
    requires WellLayered(ls) && 1 <= k < MaxLayer && c.comment.layer == k
    ensures Bucket(Subtree(ls, k, c), k + 1) == Children(ls.At(k + 1), c.comment.id)
  {
    var rs := Replies(ls, k + 1, ls.At(k + 1), c.comment.id);
    assert Subtree(ls, k, c) == [c] + rs;
    BucketConcat([c], rs, k + 1);
    BucketSingle(c, k + 1);
    RepliesOwnLayer(ls, k + 1, ls.At(k + 1), c.comment.id);
    assert Bucket([c] + rs, k + 1) == [] + Children(ls.At(k + 1), c.comment.id);
  }

  lemma {:induction false} RootsOwnLayer(ls: Layers, xs: seq<Annotated>)
    requires WellLayered(ls)
    requires forall x :: x in xs ==> x.comment.layer == 1
    ensures Bucket(Roots(ls, xs), 1) == xs
  {
    if xs != [] {
      var n := |xs| - 1;
      var x := xs[n];
      assert xs == xs[..n] + [x];
      RootsOwnLayer(ls, xs[..n]);
      SubtreeOwnLayer(ls, 1, x);
      BucketSnocBlock(Roots(ls, xs[..n]), Subtree(ls, 1, x), xs[..n], x);
    }
  }

  lemma BucketSnocBlock(pre: seq<Annotated>, t: seq<Annotated>, xs: seq<Annotated>, x: Annotated)
    requires Bucket(pre, 1) == xs && Bucket(t, 1) == [x]
    ensures Bucket(pre + t, 1) == xs + [x]
  {
    BucketConcat(pre, t, 1);
  }

  // ---------------------------------------------------------------------------
  // The page's sequence, for a ranked list r

  /** Depth bound: only comments of r with a layer in 1..5 are emitted. */
  lemma PreOrderDepth(r: seq<Annotated>)
    ensures forall y :: y in PreOrder(r) ==> y in r && 1 <= y.comment.layer <= MaxLayer
  {
    LayersOfWellLayered(r);
    LayersOfWithin(r);
    RootsShape(LayersOf(r), Bucket(r, 1));
  }

  /** Every emitted reply has its parent earlier in the sequence, one layer up,
      with nothing shallower in between; so the sequence starts at layer 1. */
  lemma PreOrderParents(r: seq<Annotated>)
    ensures NestedAbove(PreOrder(r), 1)
    ensures |PreOrder(r)| > 0 ==> PreOrder(r)[0].comment.layer == 1
  {
    var out := PreOrder(r);
    LayersOfWellLayered(r);
    RootsNested(LayersOf(r), Bucket(r, 1));
    PreOrderDepth(r);
    if |out| > 0 {
      assert out[0] in out;
    }
  }

  /** All top-level comments are emitted, in ranked order. */
  lemma PreOrderTopLevel(r: seq<Annotated>)
    ensures Bucket(PreOrder(r), 1) == Bucket(r, 1)
    ensures Ranked(r) ==> Ranked(Bucket(PreOrder(r), 1))
  {
    LayersOfWellLayered(r);
    BucketMembers(r, 1);
    RootsOwnLayer(LayersOf(r), Bucket(r, 1));
    if Ranked(r) {
      BucketRanked(r, 1);
    }
  }

  /** Each emitted comment is followed at once by its whole subtree. */
  lemma PreOrderBlocks(r: seq<Annotated>)
    ensures BlocksContiguous(LayersOf(r), PreOrder(r))
  {
    LayersOfWellLayered(r);
    RootsBlocks(LayersOf(r), Bucket(r, 1));
  }

  /** Inside the subtree of a comment c of layer k < 5, the layer-(k + 1) entries
      are c's direct replies, all of them, in ranked order. */
  lemma PreOrderSiblings(r: seq<Annotated>, c: Annotated)
    requires 1 <= c.comment.layer < MaxLayer
    ensures var k := c.comment.layer;
      Bucket(Subtree(LayersOf(r), k, c), k + 1) == Children(Bucket(r, k + 1), c.comment.id)
    ensures var k := c.comment.layer;
      Ranked(r) ==> Ranked(Bucket(Subtree(LayersOf(r), k, c), k + 1))
  {
    var k := c.comment.layer;
    SiblingsOf(r, c);
    if Ranked(r) {
      BucketRanked(r, k + 1);
      ChildrenRanked(Bucket(r, k + 1), c.comment.id);
    }
  }

  lemma SiblingsOf(r: seq<Annotated>, c: Annotated)
    requires 1 <= c.comment.layer < MaxLayer
    ensures Bucket(Subtree(LayersOf(r), c.comment.layer, c), c.comment.layer + 1)
      == Children(Bucket(r, c.comment.layer + 1), c.comment.id)
  {
    var ls := LayersOf(r);
    SiblingsAt(r, c, ls);
  }

  lemma SiblingsAt(r: seq<Annotated>, c: Annotated, ls: Layers)
    requires 1 <= c.comment.layer < MaxLayer
    requires ls == LayersOf(r)
    ensures Bucket(Subtree(ls, c.comment.layer, c), c.comment.layer + 1)
      == Children(Bucket(r, c.comment.layer + 1), c.comment.id)
  {
    LayersOfWellLayered(r);
    LayersOfAt(r, c.comment.layer + 1);
    SiblingsInBucket(r, c, ls);
  }

  lemma SiblingsInBucket(r: seq<Annotated>, c: Annotated, ls: Layers)
    requires 1 <= c.comment.layer < MaxLayer
    requires WellLayered(ls) && ls.At(c.comment.layer + 1) == Bucket(r, c.comment.layer + 1)
    ensures Bucket(Subtree(ls, c.comment.layer, c), c.comment.layer + 1)
      == Children(Bucket(r, c.comment.layer + 1), c.comment.id)
  {
    SiblingsVia(ls, c.comment.layer, c, Bucket(r, c.comment.layer + 1));
  }

  lemma SiblingsVia(ls: Layers, k: int, c: Annotated, b: seq<Annotated>)
    requires WellLayered(ls) && 1 <= k < MaxLayer && c.comment.layer == k && ls.At(k + 1) == b
    ensures Bucket(Subtree(ls, k, c), k + 1) == Children(b, c.comment.id)
  {
    SubtreeChildren(ls, k, c);
  }

  lemma LayersOfAt(r: seq<Annotated>, k: int)
    requires 1 <= k <= MaxLayer
    ensures LayersOf(r).At(k) == Bucket(r, k)
  {
  }

  /** A reply whose parent is emitted one layer up is emitted too. */
  lemma PreOrderReplyEmitted(r: seq<Annotated>, y: Annotated, i: int)
    requires y in r && 2 <= y.comment.layer <= MaxLayer
    requires 0 <= i < |PreOrder(r)|
    requires PreOrder(r)[i].comment.layer == y.comment.layer - 1
    requires PreOrder(r)[i].comment.id == y.comment.replyCommentId
    ensures y in PreOrder(r)
  {
    var out := PreOrder(r);
    var ls := LayersOf(r);
    LayersOfWellLayered(r);
    PreOrderBlocks(r);
    assert BlockAt(ls, out, i);
    var k := y.comment.layer;
    LayersOfAt(r, k);
    BucketMembers(r, k);
    assert y in ls.At(k);
    ChildInBlock(ls, out, i, y);
  }

  /** A block holds every direct reply of its head. */
  lemma ChildInBlock(ls: Layers, s: seq<Annotated>, i: int, y: Annotated)
    requires WellLayered(ls)
    requires 0 <= i < |s| && 1 <= s[i].comment.layer < MaxLayer && BlockAt(ls, s, i)
    requires y in ls.At(s[i].comment.layer + 1) && y.comment.replyCommentId == s[i].comment.id
    ensures y in s
  {
    var t := Subtree(ls, s[i].comment.layer, s[i]);
    ReplyInSubtree(ls, s[i].comment.layer, s[i], y);
    SliceMember(s, i, i + |t|, t, y);
  }

  /** The subtree of c holds every direct reply of c. */
  lemma ReplyInSubtree(ls: Layers, k: int, c: Annotated, y: Annotated)
    requires WellLayered(ls) && 1 <= k < MaxLayer && c.comment.layer == k
    requires y in ls.At(k + 1) && y.comment.replyCommentId == c.comment.id
    ensures y in Subtree(ls, k, c)
  {
    SubtreeChildren(ls, k, c);
    ChildrenMembers(ls.At(k + 1), c.comment.id);
    BucketMembers(Subtree(ls, k, c), k + 1);
  }

  lemma SliceMember<T>(s: seq<T>, lo: int, hi: int, t: seq<T>, y: T)
    requires 0 <= lo <= hi <= |s| && s[lo..hi] == t && y in t
    ensures y in s
  {
    var m :| 0 <= m < |t| && t[m] == y;
    assert s[lo + m] == y;
  }

  /** Which comments are emitted: exactly those of r with a layer in 1..5 that
      are top-level or reply to a comment emitted one layer up. Orphans, and
      replies whose parent sits at another layer, are left out. */
  lemma PreOrderEmitted(r: seq<Annotated>, y: Annotated)
    ensures y in PreOrder(r) <==>
      && y in r
      && 1 <= y.comment.layer <= MaxLayer
      && (y.comment.layer == 1 || exists i :: EmittedParent(PreOrder(r), i, y))
  {
    var out := PreOrder(r);
    PreOrderDepth(r);
    if y in out {
      if y.comment.layer != 1 {
        var i0 :| 0 <= i0 < |out| && out[i0] == y;
        PreOrderParents(r);
        var j :| ParentAt(out, i0, j);
        assert EmittedParent(out, j, y);
      }
    } else if y in r && 1 <= y.comment.layer <= MaxLayer {
      if y.comment.layer == 1 {
        BucketMembers(r, 1);
        PreOrderTopLevel(r);
        BucketMembers(out, 1);
      } else if i :| EmittedParent(out, i, y) {
        PreOrderReplyEmitted(r, y, i);
      }
    }
  }

  // ---------------------------------------------------------------------------
  // No repetition: with distinct ids, every comment is emitted at most once

  /** Every bucket has distinct ids. */
  ghost predicate DistinctBuckets(ls: Layers) {
    forall k :: 1 <= k <= MaxLayer ==> DistinctIds(ls.At(k))
  }

  /** The first comment of xs with the given id, the lookup of a parent by id. */
  function FindById(xs: seq<Annotated>, id: int): (o: Option<Annotated>)
    ensures o.Some? ==> o.value in xs && o.value.comment.id == id
  {
    if xs == [] then None
    else if xs[0].comment.id == id then Some(xs[0])
    else FindById(xs[1..], id)
  }

  lemma {:induction false} FindByIdUnique(xs: seq<Annotated>, c: Annotated)
    requires DistinctIds(xs) && c in xs
    ensures FindById(xs, c.comment.id) == Some(c)
  {
    if xs[0] != c {
      var m :| 0 <= m < |xs| && xs[m] == c;
      assert xs[1..][m - 1] == c;
      FindByIdUnique(xs[1..], c);
    }
  }

  /** The layer-k ancestor of y, found by following parent ids bucket by bucket. */
  ghost function Anc(ls: Layers, y: Annotated, k: int): Option<Annotated>
    requires 1 <= k <= y.comment.layer <= MaxLayer
    decreases y.comment.layer - k
  {
    if y.comment.layer == k then Some(y)
    else match FindById(ls.At(y.comment.layer - 1), y.comment.replyCommentId)
      case None => None
      case Some(p) => if p.comment.layer == y.comment.layer - 1 then Anc(ls, p, k) else None
  }

  /** The layer-k ancestor is the layer-k ancestor of the layer-(k + 1) one. */
  lemma {:induction false} AncStep(ls: Layers, y: Annotated, k: int, x: Annotated)
    requires 1 <= k < y.comment.layer <= MaxLayer
    requires Anc(ls, y, k + 1) == Some(x)
    ensures x.comment.layer == k + 1 && Anc(ls, y, k) == Anc(ls, x, k)
    decreases y.comment.layer - k
  {
    if y.comment.layer > k + 1 {
      var p := FindById(ls.At(y.comment.layer - 1), y.comment.replyCommentId).value;
      AncStep(ls, p, k, x);
    }
  }

  lemma {:induction false} SubtreeAnc(ls: Layers, k: int, c: Annotated)
    requires WellLayered(ls) && DistinctBuckets(ls)
    requires 1 <= k <= MaxLayer && c in ls.At(k)
    ensures forall y :: y in Subtree(ls, k, c) ==>
      k <= y.comment.layer <= MaxLayer && Anc(ls, y, k) == Some(c)
    decreases MaxLayer - k, 1
  {
    InLayer(ls, k, c);
    if k < MaxLayer {
      ChildrenAnc(ls, k, c);
      assert Subtree(ls, k, c) == [c] + Replies(ls, k + 1, ls.At(k + 1), c.comment.id);
    } else {
      assert Subtree(ls, k, c) == [c];
    }
  }

  /** Everything in the replies of c reaches c as its layer-k ancestor. */
  lemma {:induction false} ChildrenAnc(ls: Layers, k: int, c: Annotated)
    requires WellLayered(ls) && DistinctBuckets(ls)
    requires 1 <= k < MaxLayer && c in ls.At(k) && c.comment.layer == k
    ensures forall y :: y in Replies(ls, k + 1, ls.At(k + 1), c.comment.id) ==>
      k <= y.comment.layer <= MaxLayer && Anc(ls, y, k) == Some(c)
    decreases MaxLayer - k, 0
  {
    var rs := Replies(ls, k + 1, ls.At(k + 1), c.comment.id);
    RepliesAnc(ls, k + 1, ls.At(k + 1), c.comment.id);
    assert DistinctIds(ls.At(k));
    forall y | y in rs ensures k <= y.comment.layer <= MaxLayer && Anc(ls, y, k) == Some(c) {
      AncThroughChild(ls, k, c, y, Anc(ls, y, k + 1).value);
    }
  }

  /** A reply's ancestor chain passes through its parent c. */
  lemma AncThroughChild(ls: Layers, k: int, c: Annotated, y: Annotated, x: Annotated)
    requires 1 <= k < MaxLayer && c in ls.At(k) && c.comment.layer == k && DistinctIds(ls.At(k))
    requires k + 1 <= y.comment.layer <= MaxLayer && Anc(ls, y, k + 1) == Some(x)
    requires x.comment.replyCommentId == c.comment.id
    ensures Anc(ls, y, k) == Some(c)
  {
    AncStep(ls, y, k, x);
    FindByIdUnique(ls.At(k), c);
    assert Anc(ls, c, k) == Some(c);
  }

  lemma {:induction false} RepliesAnc(ls: Layers, k: int, xs: seq<Annotated>, pid: int)
    requires WellLayered(ls) && DistinctBuckets(ls)
    requires 2 <= k <= MaxLayer
    requires forall x :: x in xs ==> x in ls.At(k)
    ensures forall y :: y in Replies(ls, k, xs, pid) ==>
      && k <= y.comment.layer <= MaxLayer
      && Anc(ls, y, k).Some?
      && Anc(ls, y, k).value in xs
      && Anc(ls, y, k).value.comment.replyCommentId == pid
    decreases MaxLayer - k, 2, |xs|
  {
    if xs != [] {
      var n := |xs| - 1;
      var x := xs[n];
      RepliesAnc(ls, k, xs[..n], pid);
      if x.comment.replyCommentId == pid {
        assert x in xs;
        SubtreeAnc(ls, k, x);
      }
    }
  }

  lemma {:induction false} RootsAnc(ls: Layers, xs: seq<Annotated>)
    requires WellLayered(ls) && DistinctBuckets(ls)
    requires forall x :: x in xs ==> x in ls.b1
    ensures forall y :: y in Roots(ls, xs) ==>
      1 <= y.comment.layer <= MaxLayer && Anc(ls, y, 1).Some? && Anc(ls, y, 1).value in xs
  {
    if xs != [] {
      var n := |xs| - 1;
      RootsAnc(ls, xs[..n]);
      assert xs[n] in xs && ls.At(1) == ls.b1;
      SubtreeAnc(ls, 1, xs[n]);
    }
  }

  lemma NoDupConcat<T>(a: seq<T>, b: seq<T>)
    requires NoDup(a) && NoDup(b)
    requires forall y :: y in a ==> y !in b
    ensures NoDup(a + b)
  {
    var s := a + b;
    forall i, j | 0 <= i < j < |s| ensures s[i] != s[j] {
      if i < |a| && j >= |a| {
        assert s[i] in a && s[j] == b[j - |a|];
      }
    }
  }

  lemma NoDupPrefix<T>(s: seq<T>, n: int)
    requires NoDup(s) && 0 <= n <= |s|
    ensures NoDup(s[..n])
    ensures n < |s| ==> s[n] !in s[..n]
  {
  }

  lemma DistinctNoDup(s: seq<Annotated>)
    requires DistinctIds(s)
    ensures NoDup(s)
  {
  }

  lemma {:induction false} SubtreeNoDup(ls: Layers, k: int, c: Annotated)
    requires WellLayered(ls) && DistinctBuckets(ls)
    requires 1 <= k <= MaxLayer && c in ls.At(k)
    ensures NoDup(Subtree(ls, k, c))
    decreases MaxLayer - k, 0
  {
    if k < MaxLayer {
      var rs := Replies(ls, k + 1, ls.At(k + 1), c.comment.id);
      DistinctNoDup(ls.At(k + 1));
      RepliesNoDup(ls, k + 1, ls.At(k + 1), c.comment.id);
      RepliesShape(ls, k + 1, ls.At(k + 1), c.comment.id);
      assert c.comment.layer == k;
      NoDupConcat([c], rs);
      assert Subtree(ls, k, c) == [c] + rs;
    } else {
      assert Subtree(ls, k, c) == [c];
    }
  }

  lemma {:induction false} RepliesNoDup(ls: Layers, k: int, xs: seq<Annotated>, pid: int)
    requires WellLayered(ls) && DistinctBuckets(ls)
    requires 2 <= k <= MaxLayer
    requires NoDup(xs) && forall x :: x in xs ==> x in ls.At(k)
    ensures NoDup(Replies(ls, k, xs, pid))
    decreases MaxLayer - k, 1, |xs|
  {
    if xs != [] {
      var n := |xs| - 1;
      var x := xs[n];
      NoDupPrefix(xs, n);
      RepliesNoDup(ls, k, xs[..n], pid);
      if x.comment.replyCommentId == pid {
        assert x in xs;
        SubtreeNoDup(ls, k, x);
        RepliesAnc(ls, k, xs[..n], pid);
        SubtreeAnc(ls, k, x);
        NoDupConcat(Replies(ls, k, xs[..n], pid), Subtree(ls, k, x));
      }
    }
  }

  lemma {:induction false} RootsNoDup(ls: Layers, xs: seq<Annotated>)
    requires WellLayered(ls) && DistinctBuckets(ls)
    requires NoDup(xs) && forall x :: x in xs ==> x in ls.b1
    ensures NoDup(Roots(ls, xs))
  {
    if xs != [] {
      var n := |xs| - 1;
      var x := xs[n];
      NoDupPrefix(xs, n);
      RootsNoDup(ls, xs[..n]);
      assert x in xs && ls.At(1) == ls.b1;
      SubtreeNoDup(ls, 1, x);
      RootsAnc(ls, xs[..n]);
      SubtreeAnc(ls, 1, x);
      NoDupConcat(Roots(ls, xs[..n]), Subtree(ls, 1, x));
    }
  }

  lemma {:induction false} BucketDistinct(r: seq<Annotated>, k: int)
    requires DistinctIds(r)
    ensures DistinctIds(Bucket(r, k))
  {
    if r != [] {
      var n := |r| - 1;
      assert DistinctIds(r[..n]);
      BucketDistinct(r[..n], k);
      BucketMembers(r[..n], k);
      var b := Bucket(r, k);
      var p := Bucket(r[..n], k);
      forall i, j | 0 <= i < j < |b| ensures b[i].comment.id != b[j].comment.id {
        if j >= |p| {
          assert b[i] == p[i] && b[j] == r[n];
          assert b[i] in r[..n];
          var q :| 0 <= q < n && r[..n][q] == b[i];
          assert r[q] == b[i];
        } else {
          assert b[i] == p[i] && b[j] == p[j];
        }
      }
    }
  }

  /** A repetition-free sequence drawn from a list with distinct ids has distinct ids. */
  lemma DistinctFromSource(a: seq<Annotated>, b: seq<Annotated>)
    requires NoDup(a) && DistinctIds(b)
    requires forall y :: y in a ==> y in b
    ensures DistinctIds(a)
  {
    forall i, j | 0 <= i < j < |a| ensures a[i].comment.id != a[j].comment.id {
      assert a[i] in a && a[j] in a;
      var p :| 0 <= p < |b| && b[p] == a[i];
      var q :| 0 <= q < |b| && b[q] == a[j];
      assert p != q;
    }
  }

  lemma {:induction false} SetOfNoDup<T>(s: seq<T>)
    requires NoDup(s)
    ensures |set y | y in s| == |s|
  {
    if s != [] {
      var n := |s| - 1;
      NoDupPrefix(s, n);
      SetOfNoDup(s[..n]);
      assert s == s[..n] + [s[n]];
      assert (set y | y in s) == (set y | y in s[..n]) + {s[n]};
    }
  }

  lemma {:induction false} SetOfBound<T>(s: seq<T>)
    ensures |set y | y in s| <= |s|
  {
    if s != [] {
      var n := |s| - 1;
      SetOfBound(s[..n]);
      assert s == s[..n] + [s[n]];
      assert (set y | y in s) == (set y | y in s[..n]) + {s[n]};
    }
  }

  /** A repetition-free sequence of elements of b is no longer than b. */
  lemma NoDupSubsetLength<T>(a: seq<T>, b: seq<T>)
    requires NoDup(a) && forall y :: y in a ==> y in b
    ensures |a| <= |b|
  {
    SetOfNoDup(a);
    SetOfBound(b);
    assert (set y | y in a) <= (set y | y in b);
    SubsetCard(set y | y in a, set y | y in b);
  }

  lemma SubsetCard<T>(x: set<T>, y: set<T>)
    requires x <= y
    ensures |x| <= |y|
  {
    assert y == x + (y - x);
  }

  /** With distinct ids, no comment is emitted twice, the emitted ids are
      distinct, and the sequence is no longer than the input. */
  lemma PreOrderDistinct(r: seq<Annotated>)
    requires DistinctIds(r)
    ensures NoDup(PreOrder(r)) && DistinctIds(PreOrder(r))
    ensures |PreOrder(r)| <= |r|
  {
    var ls := LayersOf(r);
    LayersOfWellLayered(r);
    forall k | 1 <= k <= MaxLayer ensures DistinctIds(ls.At(k)) {
      BucketDistinct(r, k);
    }
    assert ls.At(1) == ls.b1;
    DistinctNoDup(ls.b1);
    RootsNoDup(ls, ls.b1);
    PreOrderDepth(r);
    DistinctFromSource(PreOrder(r), r);
    NoDupSubsetLength(PreOrder(r), r);
  }
}
