/** The Comments table and the three comment services that change it:
    posting a top-level comment, replying to a comment, deleting a comment. */
module CommentStore {
  import opened Wrappers
  import opened CommentTree

  datatype CommentError =
    | TextRequired       // empty comment or reply text
    | UserMissing        // the signed-in user's row does not exist
    | RestaurantMissing  // the restaurant named in the request does not exist
    | ParentMissing      // the comment replied to does not exist (the source fails reading its layer)
    | CommentMissing     // the comment to delete does not exist

  /** The row stored under key id is consistent: it carries its key, a top-level
      row has layer 1 and parent 0, and a reply points to an older id whose row,
      if still present, is exactly one layer up; if that row is gone, it was deleted. */
  ghost predicate RowOk(rows: map<int, Comment>, deleted: set<int>, id: int)
    requires id in rows
  {
    var c := rows[id];
    && c.id == id
    && c.layer >= 1
    && (c.replyCommentId == 0 <==> c.layer == 1)
    && (c.replyCommentId != 0 ==>
          && 1 <= c.replyCommentId < id
          && (c.replyCommentId in rows ==> c.layer == rows[c.replyCommentId].layer + 1)
          && (c.replyCommentId !in rows ==> c.replyCommentId in deleted))
  }

  /** The layer invariant over the whole table; ids are below the next id and
      deleted ids are never reused. */
  ghost predicate TableOk(rows: map<int, Comment>, deleted: set<int>, nextId: int) {
    && 1 <= nextId
    && (forall id :: id in rows ==> 1 <= id < nextId && RowOk(rows, deleted, id))
    && (forall id :: id in deleted ==> 1 <= id < nextId && id !in rows)
  }

  /** A reply's parent was deleted: the only way a reply loses its parent. */
  ghost predicate Orphan(rows: map<int, Comment>, id: int)
    requires id in rows
  {
    rows[id].replyCommentId != 0 && rows[id].replyCommentId !in rows
  }

  /** Adding a fresh row that is top-level, or one layer below an existing
      parent, keeps the layer invariant. */
  lemma InsertKeepsTable(rows: map<int, Comment>, deleted: set<int>, nextId: int, c: Comment)
    requires TableOk(rows, deleted, nextId)
    requires c.id == nextId
    requires (c.replyCommentId == 0 && c.layer == 1) ||
             (c.replyCommentId in rows && c.layer == rows[c.replyCommentId].layer + 1)
    ensures TableOk(rows[nextId := c], deleted, nextId + 1)
  {
    var rows' := rows[nextId := c];
    forall id | id in rows' ensures 1 <= id < nextId + 1 && RowOk(rows', deleted, id) {
      if id != nextId {
        assert RowOk(rows, deleted, id);
        var p := rows[id].replyCommentId;
        if p != 0 {
          assert p != nextId;
        }
      }
    }
  }

  /** Removing a row keeps the layer invariant: its replies stay, as orphans. */
  lemma DeleteKeepsTable(rows: map<int, Comment>, deleted: set<int>, nextId: int, id: int)
    requires TableOk(rows, deleted, nextId) && id in rows
    ensures TableOk(rows - {id}, deleted + {id}, nextId)
    ensures forall j :: j in rows - {id} && rows[j].replyCommentId == id ==> Orphan(rows - {id}, j)
  {
    var rows' := rows - {id};
    forall j | j in rows' ensures 1 <= j < nextId && RowOk(rows', deleted + {id}, j) {
      assert RowOk(rows, deleted, j);
    }
  }

  class CommentTable {
    var rows: map<int, Comment>
    var nextId: int
    ghost var deleted: set<int>

    ghost predicate Valid()
      reads this
    {
      TableOk(rows, deleted, nextId)
    }

    /** An empty table. */
    constructor ()
      ensures Valid() && rows == map[] && deleted == {}
    {
      rows := map[];
      nextId := 1;
      deleted := {};
    }

    /** `postComment`: text, then user, then restaurant; a new top-level comment
        gets parent 0 and layer 1. */
    method PostComment(users: set<int>, restaurants: set<int>, userId: int,
                       restaurantId: int, text: string, now: int)
      returns (res: Result<Comment, CommentError>)
      requires Valid()
      modifies this
      ensures Valid() && deleted == old(deleted)
      ensures res ==
        if text == "" then Err(TextRequired)
        else if userId !in users then Err(UserMissing)
        else if restaurantId !in restaurants then Err(RestaurantMissing)
        else Ok(Comment(old(nextId), restaurantId, userId, text, 0, 1, now))
      ensures res.Ok? ==> rows == old(rows)[res.value.id := res.value] && nextId == old(nextId) + 1
      ensures res.Err? ==> rows == old(rows) && nextId == old(nextId)
    {
      if text == "" {
        return Err(TextRequired);
      }
      if userId !in users {
        return Err(UserMissing);
      }
      if restaurantId !in restaurants {
        return Err(RestaurantMissing);
      }
      var c := Comment(nextId, restaurantId, userId, text, 0, 1, now);
      InsertKeepsTable(rows, deleted, nextId, c);
      rows := rows[nextId := c];
      nextId := nextId + 1;
      res := Ok(c);
    }

    /** `replyComment`: text, then user, then restaurant, then the parent; the
        reply points to the parent and sits one layer below it. Neither the
        parent's restaurant nor its depth is checked. */
    method ReplyComment(users: set<int>, restaurants: set<int>, userId: int,
                        restaurantId: int, parentId: int, text: string, now: int)
      returns (res: Result<Comment, CommentError>)
      requires Valid()
      modifies this
      ensures Valid() && deleted == old(deleted)
      ensures res ==
        if text == "" then Err(TextRequired)
        else if userId !in users then Err(UserMissing)
        else if restaurantId !in restaurants then Err(RestaurantMissing)
        else if parentId !in old(rows) then Err(ParentMissing)
        else Ok(Comment(old(nextId), restaurantId, userId, text, parentId,
                        old(rows)[parentId].layer + 1, now))
      ensures res.Ok? ==> rows == old(rows)[res.value.id := res.value] && nextId == old(nextId) + 1
      ensures res.Err? ==> rows == old(rows) && nextId == old(nextId)
    {
      if text == "" {
        return Err(TextRequired);
      }
      if userId !in users {
        return Err(UserMissing);
      }
      if restaurantId !in restaurants {
        return Err(RestaurantMissing);
      }
      if parentId !in rows {
        return Err(ParentMissing);
      }
      var c := Comment(nextId, restaurantId, userId, text, parentId, rows[parentId].layer + 1, now);
      InsertKeepsTable(rows, deleted, nextId, c);
      rows := rows[nextId := c];
      nextId := nextId + 1;
      res := Ok(c);
    }

    /** `deleteComment`: a missing comment is an error; otherwise exactly that
        row goes, and its replies stay behind as orphans. */
    method DeleteComment(id: int) returns (res: Result<Comment, CommentError>)
      requires Valid()
      modifies this
      ensures Valid() && nextId == old(nextId)
      ensures res == if id in old(rows) then Ok(old(rows)[id]) else Err(CommentMissing)
      ensures res.Ok? ==> rows == old(rows) - {id} && deleted == old(deleted) + {id}
      ensures res.Ok? ==> forall j :: j in rows && rows[j].replyCommentId == id ==> Orphan(rows, j)
      ensures res.Err? ==> rows == old(rows) && deleted == old(deleted)
    {
      if id !in rows {
        return Err(CommentMissing);
      }
      res := Ok(rows[id]);
      DeleteKeepsTable(rows, deleted, nextId, id);
      rows := rows - {id};
      deleted := deleted + {id};
    }
  }

  /** While nothing has been deleted there are no orphans: every reply's parent
      is present, one layer up. */
  lemma NoOrphansWithoutDeletes(rows: map<int, Comment>, nextId: int, id: int)
    requires TableOk(rows, {}, nextId) && id in rows && rows[id].replyCommentId != 0
    ensures !Orphan(rows, id)
    ensures rows[id].layer == rows[rows[id].replyCommentId].layer + 1
  {
    assert RowOk(rows, {}, id);
  }

  /** A row's layer is its depth: following parents from a layer-k row, while
      nothing has been deleted, reaches a top-level row after k - 1 steps. */
  lemma {:induction false} LayerIsDepth(rows: map<int, Comment>, nextId: int, id: int)
    requires TableOk(rows, {}, nextId) && id in rows
    ensures rows[id].layer == Depth(rows, id)
    decreases id
  {
    assert RowOk(rows, {}, id);
    var p := rows[id].replyCommentId;
    if p != 0 {
      LayerIsDepth(rows, nextId, p);
    }
  }

  /** The number of rows on the parent path from id to its top-level ancestor,
      both ends included. */
  ghost function Depth(rows: map<int, Comment>, id: int): nat
    requires id in rows
    decreases if id < 0 then 0 else id
  {
    var p := rows[id].replyCommentId;
    if p == 0 || p !in rows || !(0 <= p < id) then 1 else 1 + Depth(rows, p)
  }
}
