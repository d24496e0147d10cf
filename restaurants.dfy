/** The two restaurant listings: the index page's rows, with a shortened
    description and the viewer's favourite and like flags, and the top-10
    ranking by number of favouriting users. */
module Restaurants {
  import opened Wrappers
  import Ranking
  import Relations

  datatype Restaurant = Restaurant(id: int, name: string, categoryId: int, description: string)

  /** The length the index page cuts descriptions to. */
  const DescriptionLength := 50

  /** The number of restaurants the top list shows. */
  const TopCount := 10

  /** `substring(0, 50)`: the first 50 characters, or all of a shorter string. */
  function Truncate(s: string): (t: string)
    ensures |t| <= DescriptionLength
    ensures t <= s
    ensures |s| <= DescriptionLength ==> t == s
    ensures |s| > DescriptionLength ==> |t| == DescriptionLength
  {
    if |s| <= DescriptionLength then s else s[..DescriptionLength]
  }

  /** The signed-in viewer's favourited and liked restaurant ids. */
  datatype Viewer = Viewer(favoritedIds: seq<int>, likedIds: seq<int>)

  datatype ListRow = ListRow(restaurant: Restaurant, description: string, isFavorited: bool, isLiked: bool)

  datatype ListError = NoViewer  // the id lists are read from an absent user

  /** `getRestaurants`' row mapping. Without a signed-in user the id lists are
      undefined and mapping any row fails; an empty page maps without reading them. */
  function ListRestaurants(rows: seq<Restaurant>, viewer: Option<Viewer>): (res: Result<seq<ListRow>, ListError>)
    ensures res.Err? <==> viewer.None? && rows != []
    ensures res.Ok? ==> |res.value| == |rows|
    ensures res.Ok? && viewer.Some? ==> forall i :: 0 <= i < |rows| ==>
      && res.value[i].restaurant == rows[i]
      && res.value[i].description == Truncate(rows[i].description)
      && (res.value[i].isFavorited <==> rows[i].id in viewer.value.favoritedIds)
      && (res.value[i].isLiked <==> rows[i].id in viewer.value.likedIds)
  {
    if rows == [] then Ok([])
    else if viewer.None? then Err(NoViewer)
    else
      var v := viewer.value;
      Ok(seq(|rows|, i requires 0 <= i < |rows| =>
        ListRow(rows[i], Truncate(rows[i].description), rows[i].id in v.favoritedIds, rows[i].id in v.likedIds)))
  }

  /** Every listed description has at most 50 characters and starts the original one. */
  lemma ListedDescriptionsShort(rows: seq<Restaurant>, viewer: Option<Viewer>)
    ensures var res := ListRestaurants(rows, viewer);
      res.Ok? ==> forall row :: row in res.value ==>
        |row.description| <= DescriptionLength && row.description <= row.restaurant.description
  {
  }

  datatype TopRestaurant = TopRestaurant(restaurant: Restaurant, favoritedCount: nat, isFavorited: bool)

  function CountKey(t: TopRestaurant): Ranking.Key {
    (t.favoritedCount, 0)
  }

  /** Each restaurant with its number of favouriting users and whether the
      viewer (if any) favourited it. */
  function WithFavorites(rs: seq<Restaurant>, favorites: set<Relations.Pair>, viewerFavorites: Option<seq<int>>)
    : (r: seq<TopRestaurant>)
    ensures |r| == |rs|
    ensures forall i :: 0 <= i < |rs| ==>
      && r[i].restaurant == rs[i]
      && r[i].favoritedCount == |Relations.Related(favorites, rs[i].id)|
      && (r[i].isFavorited <==> viewerFavorites.Some? && rs[i].id in viewerFavorites.value)
  {
    seq(|rs|, i requires 0 <= i < |rs| =>
      TopRestaurant(rs[i], |Relations.Related(favorites, rs[i].id)|,
                    viewerFavorites.Some? && rs[i].id in viewerFavorites.value))
  }

  /** Sorted by favourite count, descending. */
  ghost predicate ByCount(s: seq<TopRestaurant>) {
    forall i, j :: 0 <= i < j < |s| ==> s[i].favoritedCount >= s[j].favoritedCount
  }

  /** `getTopRestaurants`: annotate, sort by favourite count descending, keep the first ten. */
  function TopRestaurants(rs: seq<Restaurant>, favorites: set<Relations.Pair>, viewerFavorites: Option<seq<int>>)
    : (top: seq<TopRestaurant>)
    ensures |top| == if |rs| < TopCount then |rs| else TopCount
    ensures ByCount(top)
  {
    var s := Ranking.SortDesc(WithFavorites(rs, favorites, viewerFavorites), CountKey);
    var k := if |s| < TopCount then |s| else TopCount;
    assert forall i, j :: 0 <= i < j < |s| ==> Ranking.KeyGE(CountKey(s[i]), CountKey(s[j]));
    s[..k]
  }

  /** The top list is drawn from the annotated restaurants without repetition
      beyond the input's, and no restaurant left out has more favourites than
      any restaurant shown. */
  lemma {:induction false} TopRestaurantsSelect(rs: seq<Restaurant>, favorites: set<Relations.Pair>,
                                                 viewerFavorites: Option<seq<int>>)
    ensures var all := multiset(WithFavorites(rs, favorites, viewerFavorites));
      var top := TopRestaurants(rs, favorites, viewerFavorites);
      && multiset(top) <= all
      && forall x, y :: x in top && y in all - multiset(top) ==> x.favoritedCount >= y.favoritedCount
  {
    var w := WithFavorites(rs, favorites, viewerFavorites);
    var s := Ranking.SortDesc(w, CountKey);
    var k := if |s| < TopCount then |s| else TopCount;
    assert ByCount(s) by {
      assert forall i, j :: 0 <= i < j < |s| ==> Ranking.KeyGE(CountKey(s[i]), CountKey(s[j]));
    }
    PrefixKeepsLargest(s, k);
  }

  /** A prefix of a list sorted by count holds counts at least those of the rest. */
  lemma PrefixKeepsLargest(s: seq<TopRestaurant>, k: int)
    requires ByCount(s) && 0 <= k <= |s|
    ensures multiset(s[..k]) <= multiset(s)
    ensures forall x, y :: x in s[..k] && y in multiset(s) - multiset(s[..k]) ==> x.favoritedCount >= y.favoritedCount
  {
    assert s == s[..k] + s[k..];
    assert multiset(s) == multiset(s[..k]) + multiset(s[k..]);
    assert multiset(s) - multiset(s[..k]) == multiset(s[k..]);
    forall x, y | x in s[..k] && y in multiset(s) - multiset(s[..k])
      ensures x.favoritedCount >= y.favoritedCount
    {
      var a :| 0 <= a < k && s[a] == x;
      assert y in s[k..];
      var b :| k <= b < |s| && s[b] == y;
    }
  }

  /** Every shown entry is one of the restaurants with its own favourite count and flag. */
  lemma TopRestaurantsEntries(rs: seq<Restaurant>, favorites: set<Relations.Pair>, viewerFavorites: Option<seq<int>>)
    ensures forall t :: t in TopRestaurants(rs, favorites, viewerFavorites) ==>
      && t.restaurant in rs
      && t.favoritedCount == |Relations.Related(favorites, t.restaurant.id)|
      && (t.isFavorited <==> viewerFavorites.Some? && t.restaurant.id in viewerFavorites.value)
  {
    TopRestaurantsSelect(rs, favorites, viewerFavorites);
    var w := WithFavorites(rs, favorites, viewerFavorites);
    forall t | t in TopRestaurants(rs, favorites, viewerFavorites) ensures t in w {
      assert t in multiset(TopRestaurants(rs, favorites, viewerFavorites));
    }
  }
}
