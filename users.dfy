/** The Users table with sign-up and profile edit, and the two list transforms
    of the user pages: the profile's one-comment-per-restaurant list and the
    top-users ranking. */
module Users {
  import opened Wrappers
  import Ranking
  import opened CommentTree
  import Relations

  /** A row of the Users table; `passwordHash` is whatever the hashing library returned. */
  datatype User = User(id: int, name: string, email: string, passwordHash: string, image: string)

  datatype UserError =
    | PasswordMismatch  // password and its confirmation differ
    | EmailTaken        // some user already has this email
    | NameTaken         // some user already has this name
    | NameRequired      // empty name on profile edit
    | UserMissing       // no user with the requested id

  /** The `||` fallback: an absent or empty upload path keeps the given default. */
  function ImageOr(filePath: string, fallback: string): (image: string)
    ensures filePath != "" ==> image == filePath
    ensures filePath == "" ==> image == fallback
  {
    if filePath == "" then fallback else filePath
  }

  /** Some user has this email. */
  predicate EmailUsed(users: map<int, User>, email: string) {
    exists id :: id in users && users[id].email == email
  }

  /** Some user has this name. */
  predicate NameUsed(users: map<int, User>, name: string) {
    exists id :: id in users && users[id].name == name
  }

  /** Rows carry their key; no two users share a name or an email. */
  ghost predicate TableOk(users: map<int, User>, nextId: int) {
    && 1 <= nextId
    && (forall id :: id in users ==> 1 <= id < nextId && users[id].id == id)
    && (forall i, j :: i in users && j in users && i != j ==> users[i].name != users[j].name)
    && (forall i, j :: i in users && j in users && i != j ==> users[i].email != users[j].email)
  }

  class UserTable {
    var users: map<int, User>
    var nextId: int

    ghost predicate Valid()
      reads this
    {
      TableOk(users, nextId)
    }

    constructor ()
      ensures Valid() && users == map[]
    {
      users := map[];
      nextId := 1;
    }

    /** `signUp`: a mismatched confirmation, then an email used by any user,
        then a name used by any user, is refused; otherwise exactly one user is
        added, with the upload path as image or else the placeholder. */
    method SignUp(name: string, email: string, password: string, passwordCheck: string,
                  hash: string, filePath: string, placeholder: string)
      returns (res: Result<User, UserError>)
      requires Valid()
      modifies this
      ensures Valid()
      ensures res ==
        if password != passwordCheck then Err(PasswordMismatch)
        else if EmailUsed(old(users), email) then Err(EmailTaken)
        else if NameUsed(old(users), name) then Err(NameTaken)
        else Ok(User(old(nextId), name, email, hash, ImageOr(filePath, placeholder)))
      ensures res.Ok? ==> res.value.id !in old(users) && users == old(users)[res.value.id := res.value]
      ensures res.Ok? ==> nextId == old(nextId) + 1
      ensures res.Err? ==> users == old(users) && nextId == old(nextId)
    {
      if password != passwordCheck {
        return Err(PasswordMismatch);
      }
      if exists id :: id in users && users[id].email == email {
        return Err(EmailTaken);
      }
      if exists id :: id in users && users[id].name == name {
        return Err(NameTaken);
      }
      var u := User(nextId, name, email, hash, ImageOr(filePath, placeholder));
      users := users[nextId := u];
      nextId := nextId + 1;
      res := Ok(u);
    }

    /** `putUser`: an empty name, then a name held by any user (the edited user
        included), then a missing user, is refused; otherwise the user's name
        changes and the image changes only if a new upload path came back. */
    method PutUser(id: int, name: string, filePath: string) returns (res: Outcome<UserError>)
      requires Valid()
      modifies this
      ensures Valid() && nextId == old(nextId)
      ensures res ==
        if name == "" then Fail(NameRequired)
        else if NameUsed(old(users), name) then Fail(NameTaken)
        else if id !in old(users) then Fail(UserMissing)
        else Pass
      ensures users ==
        if res.Pass? then old(users)[id := old(users)[id].(name := name, image := ImageOr(filePath, old(users)[id].image))]
        else old(users)
    {
      if name == "" {
        return Fail(NameRequired);
      }
      if exists j :: j in users && users[j].name == name {
        return Fail(NameTaken);
      }
      if id !in users {
        return Fail(UserMissing);
      }
      var u := users[id];
      users := users[id := u.(name := name, image := ImageOr(filePath, u.image))];
      res := Pass;
    }
  }

  /** A sign-up followed by one with the same email, or the same name, is refused. */
  lemma SignUpTwiceRefused(users: map<int, User>, u: User)
    requires u.id in users && users[u.id] == u
    ensures EmailUsed(users, u.email) && NameUsed(users, u.name)
  {
  }

  // ---------------------------------------------------------------------------
  // The profile page's comment list

  /** The index of the first comment of cs on restaurant rid, if there is one. */
  function FirstOn(cs: seq<Comment>, rid: int): (i: int)
    ensures -1 <= i < |cs|
    ensures 0 <= i ==> cs[i].restaurantId == rid && forall j :: 0 <= j < i ==> cs[j].restaurantId != rid
    ensures i == -1 ==> forall j :: 0 <= j < |cs| ==> cs[j].restaurantId != rid
  {
    if cs == [] then -1
    else if cs[0].restaurantId == rid then 0
    else var k := FirstOn(cs[1..], rid); if k == -1 then -1 else k + 1
  }

  /** Some comment of acc is on restaurant rid (the reduce's `find`). */
  predicate HasRestaurant(acc: seq<Comment>, rid: int) {
    exists y :: y in acc && y.restaurantId == rid
  }

  /** The reduce: keep a comment unless the accumulator already holds one on
      its restaurant. */
  function OnePerRestaurant(cs: seq<Comment>): (kept: seq<Comment>)
    ensures multiset(kept) <= multiset(cs)
  {
    if cs == [] then []
    else
      var acc := OnePerRestaurant(cs[..|cs| - 1]);
      var c := cs[|cs| - 1];
      assert cs == cs[..|cs| - 1] + [c];
      acc + (if HasRestaurant(acc, c.restaurantId) then [] else [c])
  }

  /** The kept list covers exactly the restaurants of the input. */
  lemma {:induction false} OnePerRestaurantCovers(cs: seq<Comment>)
    ensures forall rid :: HasRestaurant(OnePerRestaurant(cs), rid) <==> FirstOn(cs, rid) >= 0
  {
    if cs != [] {
      var n := |cs| - 1;
      var acc := OnePerRestaurant(cs[..n]);
      OnePerRestaurantCovers(cs[..n]);
      FirstOnPrefix(cs, n);
      forall rid ensures HasRestaurant(OnePerRestaurant(cs), rid) <==> FirstOn(cs, rid) >= 0 {
        if HasRestaurant(acc, rid) {
          var y :| y in acc && y.restaurantId == rid;
          assert y in OnePerRestaurant(cs);
        }
      }
    }
  }

  /** r[i] is the first comment of cs on its restaurant. */
  ghost predicate KeptFirst(cs: seq<Comment>, r: seq<Comment>, i: int)
    requires 0 <= i < |r|
  {
    var f := FirstOn(cs, r[i].restaurantId);
    0 <= f && r[i] == cs[f]
  }

  /** The comments of r occur in cs in the order of r. */
  ghost predicate InInputOrder(cs: seq<Comment>, r: seq<Comment>) {
    forall i, j :: 0 <= i < j < |r| ==> FirstOn(cs, r[i].restaurantId) < FirstOn(cs, r[j].restaurantId)
  }

  /** Each kept comment is the first one of the input on its restaurant, and the
      kept comments come in increasing input position. */
  lemma {:induction false} OnePerRestaurantFirst(cs: seq<Comment>)
    ensures forall i :: 0 <= i < |OnePerRestaurant(cs)| ==> KeptFirst(cs, OnePerRestaurant(cs), i)
    ensures InInputOrder(cs, OnePerRestaurant(cs))
  {
    if cs != [] {
      var n := |cs| - 1;
      var p := cs[..n];
      var c := cs[n];
      var acc := OnePerRestaurant(p);
      var r := OnePerRestaurant(cs);
      OnePerRestaurantFirst(p);
      OnePerRestaurantCovers(p);
      FirstOnPrefix(cs, n);
      forall i | 0 <= i < |acc|
        ensures FirstOn(cs, acc[i].restaurantId) == FirstOn(p, acc[i].restaurantId) < n
        ensures KeptFirst(cs, acc, i)
      {
        assert KeptFirst(p, acc, i);
        assert acc[i] in acc;
      }
      assert InInputOrder(cs, acc) by {
        forall i, j | 0 <= i < j < |acc|
          ensures FirstOn(cs, acc[i].restaurantId) < FirstOn(cs, acc[j].restaurantId)
        {
        }
      }
      if !HasRestaurant(acc, c.restaurantId) {
        assert FirstOn(p, c.restaurantId) == -1;
        assert FirstOn(cs, c.restaurantId) == n;
        assert r == acc + [c];
        KeptAppend(cs, acc, c);
      } else {
        assert r == acc;
      }
    }
  }

  /** Appending the first comment on a new restaurant keeps both properties. */
  lemma KeptAppend(cs: seq<Comment>, acc: seq<Comment>, c: Comment)
    requires cs != [] && c == cs[|cs| - 1] && FirstOn(cs, c.restaurantId) == |cs| - 1
    requires forall i :: 0 <= i < |acc| ==>
      KeptFirst(cs, acc, i) && FirstOn(cs, acc[i].restaurantId) < |cs| - 1
    requires InInputOrder(cs, acc)
    ensures forall i :: 0 <= i < |acc + [c]| ==> KeptFirst(cs, acc + [c], i)
    ensures InInputOrder(cs, acc + [c])
  {
    var r := acc + [c];
    forall i | 0 <= i < |r| ensures KeptFirst(cs, r, i) {
      if i < |acc| {
        assert r[i] == acc[i] && KeptFirst(cs, acc, i);
      } else {
        assert r[i] == c;
      }
    }
    forall i, j | 0 <= i < j < |r|
      ensures FirstOn(cs, r[i].restaurantId) < FirstOn(cs, r[j].restaurantId)
    {
      assert r[i] == acc[i];
      if j < |acc| {
        assert r[j] == acc[j];
      } else {
        assert r[j] == c;
      }
    }
  }

  /** The kept list is exactly the first comment on each restaurant, in input
      order, with every restaurant of the input represented. */
  lemma OnePerRestaurantSpec(cs: seq<Comment>)
    ensures var r := OnePerRestaurant(cs);
      && (forall i :: 0 <= i < |r| ==> KeptFirst(cs, r, i))
      && (forall i, j :: 0 <= i < j < |r| ==> r[i].restaurantId != r[j].restaurantId)
      && InInputOrder(cs, r)
      && (forall c :: c in cs ==> HasRestaurant(r, c.restaurantId))
  {
    OnePerRestaurantFirst(cs);
    OnePerRestaurantCovers(cs);
    forall c | c in cs ensures FirstOn(cs, c.restaurantId) >= 0 {
    }
  }

  lemma FirstOnPrefix(cs: seq<Comment>, n: int)
    requires 0 <= n == |cs| - 1
    ensures forall rid :: FirstOn(cs[..n], rid) >= 0 ==> FirstOn(cs, rid) == FirstOn(cs[..n], rid)
    ensures forall rid :: FirstOn(cs[..n], rid) == -1 ==> FirstOn(cs, rid) == (if cs[n].restaurantId == rid then n else -1)
  {
    forall rid ensures FirstOn(cs[..n], rid) >= 0 ==> FirstOn(cs, rid) == FirstOn(cs[..n], rid)
      ensures FirstOn(cs[..n], rid) == -1 ==> FirstOn(cs, rid) == (if cs[n].restaurantId == rid then n else -1)
    {
      FirstOnAgree(cs, n, rid);
    }
  }

  lemma FirstOnAgree(cs: seq<Comment>, n: int, rid: int)
    requires 0 <= n == |cs| - 1
    ensures FirstOn(cs[..n], rid) >= 0 ==> FirstOn(cs, rid) == FirstOn(cs[..n], rid)
    ensures FirstOn(cs[..n], rid) == -1 ==> FirstOn(cs, rid) == (if cs[n].restaurantId == rid then n else -1)
  {
    var k := FirstOn(cs[..n], rid);
    if k >= 0 {
      assert cs[k].restaurantId == rid;
    } else {
      assert forall j :: 0 <= j < n ==> cs[..n][j] == cs[j];
      if cs[n].restaurantId == rid {
        assert FirstOn(cs, rid) != -1;
      }
    }
  }

  // ---------------------------------------------------------------------------
  // The top-users ranking

  datatype TopUser = TopUser(user: User, followerCount: nat, isFollowed: bool)

  function FollowerKey(t: TopUser): Ranking.Key {
    (t.followerCount, 0)
  }

  /** Each user with the number of its followers and whether the viewer
      follows it, before sorting. */
  function WithFollowers(us: seq<User>, followships: set<Relations.Pair>, viewerFollowings: seq<int>): (r: seq<TopUser>)
    ensures |r| == |us|
    ensures forall i :: 0 <= i < |us| ==>
      && r[i].user == us[i]
      && r[i].followerCount == |Relations.Related(followships, us[i].id)|
      && (r[i].isFollowed <==> us[i].id in viewerFollowings)
  {
    seq(|us|, i requires 0 <= i < |us| =>
      TopUser(us[i], |Relations.Related(followships, us[i].id)|, us[i].id in viewerFollowings))
  }

  /** `getTopUsers`: every user, annotated, by follower count descending. */
  function TopUsers(us: seq<User>, followships: set<Relations.Pair>, viewerFollowings: seq<int>): (r: seq<TopUser>)
    ensures multiset(r) == multiset(WithFollowers(us, followships, viewerFollowings))
    ensures forall i, j :: 0 <= i < j < |r| ==> r[i].followerCount >= r[j].followerCount
  {
    var s := Ranking.SortDesc(WithFollowers(us, followships, viewerFollowings), FollowerKey);
    assert forall i, j :: 0 <= i < j < |s| ==> Ranking.KeyGE(FollowerKey(s[i]), FollowerKey(s[j]));
    s
  }

  /** Every entry of the ranking is one of the users, with its own follower
      count and follow state, and every user appears. */
  lemma TopUsersEntries(us: seq<User>, followships: set<Relations.Pair>, viewerFollowings: seq<int>)
    ensures var r := TopUsers(us, followships, viewerFollowings);
      && |r| == |us|
      && (forall t :: t in r ==>
           && t.user in us
           && t.followerCount == |Relations.Related(followships, t.user.id)|
           && (t.isFollowed <==> t.user.id in viewerFollowings))
      && (forall u :: u in us ==> exists t :: t in r && t.user == u)
  {
    var w := WithFollowers(us, followships, viewerFollowings);
    var r := TopUsers(us, followships, viewerFollowings);
    assert |r| == |multiset(r)| == |multiset(w)| == |w|;
    forall t | t in r ensures t in w {
      assert t in multiset(r);
    }
    forall u | u in us ensures exists t :: t in r && t.user == u {
      var i :| 0 <= i < |us| && us[i] == u;
      assert w[i] in multiset(r);
      assert w[i] in r;
    }
  }
}
