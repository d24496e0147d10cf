/** Descending sort by a two-part integer key, as the listing code uses with
    `Array.prototype.sort((a, b) => b.k1 - a.k1 || b.k2 - a.k2)`.
    The sort is an insertion sort that keeps equal-key elements in input order;
    callers rely only on the result being sorted and a permutation. */
module Ranking {

  type Key = (int, int)

  /** `a` may precede `b`: larger first component, then larger second one. */
  predicate KeyGE(a: Key, b: Key) {
    a.0 > b.0 || (a.0 == b.0 && a.1 >= b.1)
  }

  ghost predicate SortedDesc<T>(s: seq<T>, key: T -> Key) {
    forall i, j :: 0 <= i < j < |s| ==> KeyGE(key(s[i]), key(s[j]))
  }

  /** Places `x` after every element of sorted `s` whose key is at least its own. */
  function Insert<T>(x: T, s: seq<T>, key: T -> Key): (r: seq<T>)
    requires SortedDesc(s, key)
    ensures SortedDesc(r, key)
    ensures multiset(r) == multiset(s) + multiset{x}
    ensures |r| == |s| + 1
  {
    if s == [] then [x]
    else if !KeyGE(key(s[0]), key(x)) then
      [x] + s
    else
      var rest := Insert(x, s[1..], key);
      HeadDominates(x, s, key, rest);
      ConsSorted(s[0], rest, key);
      assert s == [s[0]] + s[1..];
      [s[0]] + rest
  }

  /** The head of a sorted s is at least every element of s[1..] and at least x. */
  lemma HeadDominates<T>(x: T, s: seq<T>, key: T -> Key, rest: seq<T>)
    requires SortedDesc(s, key) && s != [] && KeyGE(key(s[0]), key(x))
    requires multiset(rest) == multiset(s[1..]) + multiset{x}
    ensures forall y :: y in rest ==> KeyGE(key(s[0]), key(y))
  {
    forall y | y in rest ensures KeyGE(key(s[0]), key(y)) {
      assert y in multiset(rest);
      if y != x {
        assert y in multiset(s[1..]);
        var i :| 0 <= i < |s[1..]| && s[1..][i] == y;
        assert s[i + 1] == y;
      }
    }
  }

  lemma ConsSorted<T>(h: T, rest: seq<T>, key: T -> Key)
    requires SortedDesc(rest, key) && forall y :: y in rest ==> KeyGE(key(h), key(y))
    ensures SortedDesc([h] + rest, key)
  {
    var r := [h] + rest;
    forall i, j | 0 <= i < j < |r| ensures KeyGE(key(r[i]), key(r[j])) {
      assert r[j] == rest[j - 1];
      if i > 0 {
        assert r[i] == rest[i - 1];
      } else {
        assert rest[j - 1] in rest;
      }
    }
  }

  /** The ranked order: sorted by `key` descending and a permutation of `s`. */
  function SortDesc<T>(s: seq<T>, key: T -> Key): (r: seq<T>)
    ensures SortedDesc(r, key)
    ensures multiset(r) == multiset(s)
    ensures |r| == |s|
  {
    if s == [] then []
    else
      assert s == s[..|s| - 1] + [s[|s| - 1]];
      Insert(s[|s| - 1], SortDesc(s[..|s| - 1], key), key)
  }

}
