/** The Categories table and the restaurants' category column, with the three
    category handlers: create, rename, and delete (which first moves the
    category's restaurants to "(未分類)", the unclassified category). */
module Categories {
  import opened Wrappers

  /** The name of the category that collects restaurants of deleted categories. */
  const Unclassified: string := "(未分類)"

  datatype CategoryError =
    | NameRequired             // empty category name
    | CategoryMissing          // no category with the requested id
    | UnclassifiedMissing      // no category is named "(未分類)"
    | UnclassifiedUndeletable  // the target is the "(未分類)" category itself

  /** The restaurants filed under category k. */
  function Members(rc: map<int, int>, k: int): (ms: set<int>)
    ensures forall x :: x in ms <==> x in rc && rc[x] == k
  {
    set x | x in rc && rc[x] == k
  }

  /** The bulk update that sets `categoryId := to` on every restaurant whose
      `categoryId` is `from`. */
  function Reassign(rc: map<int, int>, from: int, to: int): (r: map<int, int>)
    ensures r.Keys == rc.Keys
  {
    map x | x in rc :: if rc[x] == from then to else rc[x]
  }

  /** After the bulk update, `to` holds its own restaurants and those of `from`,
      `from` is empty (when it differs from `to`) and every other category keeps
      exactly its restaurants. */
  lemma ReassignMoves(rc: map<int, int>, from: int, to: int, k: int)
    ensures Members(Reassign(rc, from, to), to) == Members(rc, to) + Members(rc, from)
    ensures from != to ==> Members(Reassign(rc, from, to), from) == {}
    ensures k != from && k != to ==> Members(Reassign(rc, from, to), k) == Members(rc, k)
  {
    var r := Reassign(rc, from, to);
    assert forall x :: x in r ==> r[x] == (if rc[x] == from then to else rc[x]);
  }

  /** Every restaurant is filed under an existing category. */
  ghost predicate Resolves(rc: map<int, int>, cats: map<int, string>) {
    forall x :: x in rc ==> rc[x] in cats
  }

  /** Deleting `from` after moving its restaurants to a surviving `to` leaves
      no restaurant filed under a missing category. */
  lemma ReassignResolves(rc: map<int, int>, cats: map<int, string>, from: int, to: int)
    requires Resolves(rc, cats) && to in cats && to != from
    ensures Resolves(Reassign(rc, from, to), cats - {from})
  {
    var r := Reassign(rc, from, to);
    forall x | x in r ensures r[x] in cats - {from} {
      assert r[x] == (if rc[x] == from then to else rc[x]);
    }
  }

  /** Some category is named "(未分類)". */
  ghost predicate HasUnclassified(cats: map<int, string>) {
    exists u :: u in cats && cats[u] == Unclassified
  }

  class CategoryTable {
    var categories: map<int, string>
    var restaurantCategory: map<int, int>
    var nextId: int

    ghost predicate Valid()
      reads this
    {
      1 <= nextId && forall k :: k in categories ==> 1 <= k < nextId
    }

    constructor (restaurants: map<int, int>)
      ensures Valid() && categories == map[] && restaurantCategory == restaurants
    {
      categories := map[];
      restaurantCategory := restaurants;
      nextId := 1;
    }

    /** `postCategory`: an empty name is refused; otherwise one new row. */
    method PostCategory(name: string) returns (res: Result<int, CategoryError>)
      requires Valid()
      modifies this
      ensures Valid() && restaurantCategory == old(restaurantCategory)
      ensures res == if name == "" then Err(NameRequired) else Ok(old(nextId))
      ensures res.Ok? ==> res.value !in old(categories) && categories == old(categories)[res.value := name]
      ensures res.Ok? ==> nextId == old(nextId) + 1
      ensures res.Err? ==> categories == old(categories) && nextId == old(nextId)
    {
      if name == "" {
        return Err(NameRequired);
      }
      res := Ok(nextId);
      categories := categories[nextId := name];
      nextId := nextId + 1;
    }

    /** `putCategory`: an empty name, then a missing category, is refused;
        otherwise only that category's name changes. */
    method PutCategory(id: int, name: string) returns (res: Outcome<CategoryError>)
      requires Valid()
      modifies this
      ensures Valid() && nextId == old(nextId) && restaurantCategory == old(restaurantCategory)
      ensures res ==
        if name == "" then Fail(NameRequired)
        else if id !in old(categories) then Fail(CategoryMissing)
        else Pass
      ensures categories == if res.Pass? then old(categories)[id := name] else old(categories)
    {
      if name == "" {
        return Fail(NameRequired);
      }
      if id !in categories {
        return Fail(CategoryMissing);
      }
      categories := categories[id := name];
      res := Pass;
    }

    /** `deleteCategory`. The lookup by name picks one "(未分類)" category u if
        there is any; then the target must not be u and must exist. On success
        the target's restaurants move to u and the target row goes, and the
        result carries u. */
    method DeleteCategory(id: int) returns (res: Result<int, CategoryError>)
      requires Valid()
      modifies this
      ensures Valid() && nextId == old(nextId)
      ensures res == Err(UnclassifiedMissing) <==> !HasUnclassified(old(categories))
      ensures res == Err(UnclassifiedUndeletable) ==>
        id in old(categories) && old(categories)[id] == Unclassified
      ensures res == Err(CategoryMissing) <==> HasUnclassified(old(categories)) && id !in old(categories)
      ensures res.Err? ==> categories == old(categories) && restaurantCategory == old(restaurantCategory)
      ensures res.Ok? ==>
        && res.value in old(categories) && old(categories)[res.value] == Unclassified
        && res.value != id && id in old(categories)
        && categories == old(categories) - {id}
        && restaurantCategory == Reassign(old(restaurantCategory), id, res.value)
      ensures id in old(categories) && old(categories)[id] != Unclassified && HasUnclassified(old(categories))
        ==> res.Ok?
      ensures id in old(categories) && old(categories)[id] == Unclassified
        ==> res.Ok? || res == Err(UnclassifiedUndeletable)
      ensures res != Err(NameRequired)
      ensures res.Ok? ==> HasUnclassified(categories)
    {
      if !exists u :: u in categories && categories[u] == Unclassified {
        return Err(UnclassifiedMissing);
      }
      var u :| u in categories && categories[u] == Unclassified;
      if id == u {
        return Err(UnclassifiedUndeletable);
      }
      if id !in categories {
        return Err(CategoryMissing);
      }
      DeleteKeepsUnclassified(categories, id, u);
      restaurantCategory := Reassign(restaurantCategory, id, u);
      categories := categories - {id};
      res := Ok(u);
    }
  }

  /** A successful delete keeps a "(未分類)" category, so the next delete can
      still move restaurants somewhere. */
  lemma DeleteKeepsUnclassified(cats: map<int, string>, id: int, u: int)
    requires u in cats && cats[u] == Unclassified && u != id
    ensures HasUnclassified(cats - {id})
  {
    assert u in cats - {id};
  }
}
