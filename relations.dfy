/** The four relation tables the user handlers add rows to and remove rows from:
    Favorites (user, restaurant), Likes (user, restaurant), Followships
    (follower, following) and LikeComments (user, comment). A table holds each
    pair at most once, since every add handler refuses an existing pair. */
module Relations {
  import opened Wrappers

  type Pair = (int, int)

  datatype RelationError =
    | RestaurantMissing
    | UserMissing
    | AlreadyFavorited
    | NotFavorited
    | AlreadyLiked
    | NotLiked
    | AlreadyFollowing
    | NotFollowing
    | AlreadyLikedComment
    | NotLikedComment

  /** Creating the row for p: refused when p is already there. */
  function Link(s: set<Pair>, p: Pair): (r: Option<set<Pair>>)
    ensures r.Some? <==> p !in s
    ensures r.Some? ==> p in r.value && r.value - {p} == s
  {
    if p in s then None else Some(s + {p})
  }

  /** Destroying the row for p: refused when p is not there. */
  function Unlink(s: set<Pair>, p: Pair): (r: Option<set<Pair>>)
    ensures r.Some? <==> p in s
    ensures r.Some? ==> p !in r.value && r.value + {p} == s
  {
    if p in s then Some(s - {p}) else None
  }

  /** The users (first components) related to target (second component):
      a restaurant's favouriting users, or a user's followers. */
  function Related(s: set<Pair>, target: int): (us: set<int>)
    ensures forall u :: u in us <==> (u, target) in s
  {
    set p | p in s && p.1 == target :: p.0
  }

  /** Removing a pair right after adding it restores the table. */
  lemma UnlinkLink(s: set<Pair>, p: Pair)
    requires p !in s
    ensures Link(s, p).Some? && Unlink(Link(s, p).value, p) == Some(s)
  {
  }

  /** Adding a pair right after removing it restores the table. */
  lemma LinkUnlink(s: set<Pair>, p: Pair)
    requires p in s
    ensures Unlink(s, p).Some? && Link(Unlink(s, p).value, p) == Some(s)
  {
    assert (s - {p}) + {p} == s;
  }

  /** A successful add or remove flips the membership of p and of nothing else. */
  lemma LinkFlips(s: set<Pair>, p: Pair)
    ensures Link(s, p).Some? ==> forall q :: q in Link(s, p).value <==> (q == p || q in s)
    ensures Unlink(s, p).Some? ==> forall q :: q in Unlink(s, p).value <==> (q != p && q in s)
  {
  }

  /** A successful add raises the target's count by one and leaves every other
      target's count alone; a successful remove lowers it by one. */
  lemma LinkCounts(s: set<Pair>, p: Pair, t: int)
    ensures Link(s, p).Some? ==>
      |Related(Link(s, p).value, t)| == |Related(s, t)| + (if t == p.1 then 1 else 0)
    ensures Unlink(s, p).Some? ==>
      |Related(Unlink(s, p).value, t)| + (if t == p.1 then 1 else 0) == |Related(s, t)|
  {
    if Link(s, p).Some? {
      if t == p.1 {
        assert Related(Link(s, p).value, t) == Related(s, t) + {p.0};
      } else {
        assert Related(Link(s, p).value, t) == Related(s, t);
      }
    }
    if Unlink(s, p).Some? {
      if t == p.1 {
        assert Related(s, t) == Related(Unlink(s, p).value, t) + {p.0};
      } else {
        assert Related(Unlink(s, p).value, t) == Related(s, t);
      }
    }
  }

  class RelationTables {
    var favorites: set<Pair>
    var likes: set<Pair>
    var followships: set<Pair>
    var commentLikes: set<Pair>

    constructor ()
      ensures favorites == {} && likes == {} && followships == {} && commentLikes == {}
    {
      favorites, likes, followships, commentLikes := {}, {}, {}, {};
    }

    /** `addFavorite`: the restaurant must exist, then the pair must be new. */
    method AddFavorite(restaurants: set<int>, userId: int, restaurantId: int)
      returns (res: Outcome<RelationError>)
      modifies this
      ensures res ==
        if restaurantId !in restaurants then Fail(RestaurantMissing)
        else if (userId, restaurantId) in old(favorites) then Fail(AlreadyFavorited)
        else Pass
      ensures favorites == if res.Pass? then Link(old(favorites), (userId, restaurantId)).value else old(favorites)
      ensures likes == old(likes) && followships == old(followships) && commentLikes == old(commentLikes)
    {
      var p := (userId, restaurantId);
      if restaurantId !in restaurants {
        return Fail(RestaurantMissing);
      }
      if p in favorites {
        return Fail(AlreadyFavorited);
      }
      favorites := favorites + {p};
      res := Pass;
    }

    /** `removeFavorite`: the pair must exist. */
    method RemoveFavorite(userId: int, restaurantId: int) returns (res: Outcome<RelationError>)
      modifies this
      ensures res == if (userId, restaurantId) in old(favorites) then Pass else Fail(NotFavorited)
      ensures favorites == if res.Pass? then Unlink(old(favorites), (userId, restaurantId)).value else old(favorites)
      ensures likes == old(likes) && followships == old(followships) && commentLikes == old(commentLikes)
    {
      var p := (userId, restaurantId);
      if p !in favorites {
        return Fail(NotFavorited);
      }
      favorites := favorites - {p};
      res := Pass;
    }

    /** `addLike`: the restaurant must exist; the find-or-create then reports
        whether it created the row, and an existing like is an error. */
    method AddLike(restaurants: set<int>, userId: int, restaurantId: int)
      returns (res: Outcome<RelationError>)
      modifies this
      ensures res ==
        if restaurantId !in restaurants then Fail(RestaurantMissing)
        else if (userId, restaurantId) in old(likes) then Fail(AlreadyLiked)
        else Pass
      ensures likes == if res.Pass? then Link(old(likes), (userId, restaurantId)).value else old(likes)
      ensures favorites == old(favorites) && followships == old(followships) && commentLikes == old(commentLikes)
    {
      if restaurantId !in restaurants {
        return Fail(RestaurantMissing);
      }
      var p := (userId, restaurantId);
      var created := p !in likes;
      likes := likes + {p};
      if !created {
        return Fail(AlreadyLiked);
      }
      res := Pass;
    }

    /** `removeLike`: the pair must exist. */
    method RemoveLike(userId: int, restaurantId: int) returns (res: Outcome<RelationError>)
      modifies this
      ensures res == if (userId, restaurantId) in old(likes) then Pass else Fail(NotLiked)
      ensures likes == if res.Pass? then Unlink(old(likes), (userId, restaurantId)).value else old(likes)
      ensures favorites == old(favorites) && followships == old(followships) && commentLikes == old(commentLikes)
    {
      var p := (userId, restaurantId);
      if p !in likes {
        return Fail(NotLiked);
      }
      likes := likes - {p};
      res := Pass;
    }

    /** `addFollowing`: the followed user must exist, then the pair must be new;
        following oneself is not refused. */
    method AddFollowing(users: set<int>, followerId: int, followingId: int)
      returns (res: Outcome<RelationError>)
      modifies this
      ensures res ==
        if followingId !in users then Fail(UserMissing)
        else if (followerId, followingId) in old(followships) then Fail(AlreadyFollowing)
        else Pass
      ensures followships == if res.Pass? then Link(old(followships), (followerId, followingId)).value else old(followships)
      ensures favorites == old(favorites) && likes == old(likes) && commentLikes == old(commentLikes)
    {
      var p := (followerId, followingId);
      if followingId !in users {
        return Fail(UserMissing);
      }
      if p in followships {
        return Fail(AlreadyFollowing);
      }
      followships := followships + {p};
      res := Pass;
    }

    /** `removeFollowing`: the pair must exist. */
    method RemoveFollowing(followerId: int, followingId: int) returns (res: Outcome<RelationError>)
      modifies this
      ensures res == if (followerId, followingId) in old(followships) then Pass else Fail(NotFollowing)
      ensures followships == if res.Pass? then Unlink(old(followships), (followerId, followingId)).value else old(followships)
      ensures favorites == old(favorites) && likes == old(likes) && commentLikes == old(commentLikes)
    {
      var p := (followerId, followingId);
      if p !in followships {
        return Fail(NotFollowing);
      }
      followships := followships - {p};
      res := Pass;
    }

    /** `likeComment`: only the pair is checked, not that the comment exists. */
    method LikeComment(userId: int, commentId: int) returns (res: Outcome<RelationError>)
      modifies this
      ensures res == if (userId, commentId) in old(commentLikes) then Fail(AlreadyLikedComment) else Pass
      ensures commentLikes == if res.Pass? then Link(old(commentLikes), (userId, commentId)).value else old(commentLikes)
      ensures favorites == old(favorites) && likes == old(likes) && followships == old(followships)
    {
      var p := (userId, commentId);
      if p in commentLikes {
        return Fail(AlreadyLikedComment);
      }
      commentLikes := commentLikes + {p};
      res := Pass;
    }

    /** `unlikeComment`: the pair must exist. */
    method UnlikeComment(userId: int, commentId: int) returns (res: Outcome<RelationError>)
      modifies this
      ensures res == if (userId, commentId) in old(commentLikes) then Pass else Fail(NotLikedComment)
      ensures commentLikes == if res.Pass? then Unlink(old(commentLikes), (userId, commentId)).value else old(commentLikes)
      ensures favorites == old(favorites) && likes == old(likes) && followships == old(followships)
    {
      var p := (userId, commentId);
      if p !in commentLikes {
        return Fail(NotLikedComment);
      }
      commentLikes := commentLikes - {p};
      res := Pass;
    }
  }
}
