/**
 * The item table as a value: the map from id to item and the id counter,
 * the invariant that ties them together, and the five store operations
 * (create, get, update, delete, list) as functions from one table to the next.
 * The price is a type parameter: it is only carried, never inspected.
 */
module Items {
  import opened Wrappers

  datatype Item<P> = Item(ID: int, Name: string, Price: P)

  /** The store's whole state: the items by id and the next id to hand out. */
  datatype Table<P> = Table(items: map<int, Item<P>>, nextID: int)

  /** The table a fresh process starts with: no items, counter at 1. */
  function Empty<P>(): (t: Table<P>)
    ensures Valid(t) && t.items == map[] && t.nextID == 1
  {
    Table(map[], 1)
  }

  /** Every item is stored under its own id. */
  ghost predicate KeyedByID<P>(m: map<int, Item<P>>) {
    forall k | k in m :: m[k].ID == k
  }

  /**
   * The store invariant: every key is the id of its item and was handed out
   * already, so it lies in [1, nextID).
   */
  ghost predicate Valid<P>(t: Table<P>) {
    && 1 <= t.nextID
    && KeyedByID(t.items)
    && forall k | k in t.items :: 1 <= k < t.nextID
  }

  datatype Created<P> = Created(table: Table<P>, item: Item<P>)

  /**
   * Create: the item takes the counter's value as its id whatever id the
   * body carried, the counter moves on by one, and the item is inserted.
   */
  function Create<P>(t: Table<P>, body: Item<P>): (r: Created<P>)
    ensures r.item.ID == t.nextID && r.item.Name == body.Name && r.item.Price == body.Price
    ensures r.table.nextID == t.nextID + 1
    ensures r.table.items == t.items[r.item.ID := r.item]
    ensures Valid(t) ==> Valid(r.table) && r.item.ID !in t.items && |r.table.items| == |t.items| + 1
  {
    var item := body.(ID := t.nextID);
    var items := t.items[item.ID := item];
    assert Valid(t) ==> items.Keys == t.items.Keys + {item.ID};
    Created(Table(items, t.nextID + 1), item)
  }

  /** Get: the stored item exactly when the id is present. */
  function Get<P>(t: Table<P>, id: int): (r: Option<Item<P>>)
    ensures r.Some? <==> id in t.items
    ensures r.Some? ==> r.value == t.items[id]
    ensures Valid(t) && r.Some? ==> r.value.ID == id && 1 <= id < t.nextID
  {
    if id in t.items then Some(t.items[id]) else None
  }

  datatype Updated<P> = Updated(table: Table<P>, item: Option<Item<P>>)

  /**
   * Update: a full replace of a present entry by the body with its id forced
   * to the path id; an absent id changes nothing.
   */
  function Update<P>(t: Table<P>, id: int, body: Item<P>): (r: Updated<P>)
    ensures r.item.Some? <==> id in t.items
    ensures id !in t.items ==> r.table == t
    ensures id in t.items ==>
      && r.item.value == body.(ID := id)
      && r.table.items == t.items[id := r.item.value]
    ensures r.table.nextID == t.nextID && r.table.items.Keys == t.items.Keys
    ensures forall k | k in t.items && k != id :: r.table.items[k] == t.items[k]
    ensures Valid(t) ==> Valid(r.table)
  {
    if id in t.items then
      var item := body.(ID := id);
      Updated(t.(items := t.items[id := item]), Some(item))
    else
      Updated(t, None)
  }

  datatype Deleted<P> = Deleted(table: Table<P>, found: bool)

  /** Delete: removes exactly the given key when present; the counter never moves back. */
  function Delete<P>(t: Table<P>, id: int): (r: Deleted<P>)
    ensures r.found <==> id in t.items
    ensures r.table.items.Keys == t.items.Keys - {id}
    ensures forall k | k in r.table.items :: r.table.items[k] == t.items[k]
    ensures r.table.nextID == t.nextID
    ensures Get(r.table, id).None?
    ensures Valid(t) ==> Valid(r.table)
  {
    if id in t.items then Deleted(t.(items := t.items - {id}), true) else Deleted(t, false)
  }

  /**
   * The items of a map, one per key, as a multiset: what a listing holds
   * once its (unspecified) order is forgotten.
   */
  ghost function ValueBag<P>(m: map<int, Item<P>>): multiset<Item<P>>
    decreases |m|
  {
    if m == map[] then multiset{}
    else
      var k := AnyKey(m);
      assert |m - {k}| < |m| by { RemoveKeySize(m, k); }
      multiset{m[k]} + ValueBag(m - {k})
  }

  /** The key a listing visits first; which one is left unspecified. */
  ghost function AnyKey<P>(m: map<int, Item<P>>): (k: int)
    requires m != map[]
    ensures k in m
  {
    HasKey(m);
    var k :| k in m; k
  }

  lemma HasKey<P>(m: map<int, Item<P>>)
    requires m != map[]
    ensures exists k :: k in m
  {
    if forall k :: k !in m {
      assert false;
    }
  }

  /**
   * List: a listing of the table holds one element per key, exactly the
   * stored items, and, under the store invariant, each of them once.
   */
  lemma Listing<P>(t: Table<P>)
    ensures |ValueBag(t.items)| == |t.items|
    ensures forall k | k in t.items :: t.items[k] in ValueBag(t.items)
    ensures forall it | it in ValueBag(t.items) :: exists k :: k in t.items && t.items[k] == it
    ensures Valid(t) ==> forall it ::
      ValueBag(t.items)[it] == if it.ID in t.items && t.items[it.ID] == it then 1 else 0
  {
    ValueBagSize(t.items);
    forall it | it in ValueBag(t.items) ensures exists k :: k in t.items && t.items[k] == it {
      ValueBagHas(t.items, it);
    }
    forall k | k in t.items ensures t.items[k] in ValueBag(t.items) {
      ValueBagHas(t.items, t.items[k]);
    }
    if Valid(t) {
      forall it ensures ValueBag(t.items)[it] == if it.ID in t.items && t.items[it.ID] == it then 1 else 0 {
        ValueBagKeyed(t.items, it);
      }
    }
  }

  lemma RemoveKeySize<P>(m: map<int, Item<P>>, k: int)
    requires k in m
    ensures |m - {k}| == |m| - 1
  {
  }

  /** Taking any one key out first gives the same multiset as the choice ValueBag makes. */
  lemma {:induction false} ValueBagRemove<P>(m: map<int, Item<P>>, k: int)
    requires k in m
    ensures ValueBag(m) == multiset{m[k]} + ValueBag(m - {k})
    decreases |m|
  {
    var j := AnyKey(m);
    if j != k {
      var mj, mk := m - {j}, m - {k};
      var rest := mj - {k};
      assert rest == mk - {j};
      assert ValueBag(m) == multiset{m[j]} + ValueBag(mj);
      RemoveKeySize(m, j);
      RemoveKeySize(m, k);
      ValueBagRemove(mj, k);
      ValueBagRemove(mk, j);
      assert ValueBag(mj) == multiset{m[k]} + ValueBag(rest);
      assert ValueBag(mk) == multiset{m[j]} + ValueBag(rest);
    }
  }

  /** A listing has one element per key. */
  lemma {:induction false} ValueBagSize<P>(m: map<int, Item<P>>)
    ensures |ValueBag(m)| == |m|
    decreases |m|
  {
    if m != map[] {
      var k := AnyKey(m);
      ValueBagRemove(m, k);
      RemoveKeySize(m, k);
      ValueBagSize(m - {k});
    }
  }

  /** A listing holds exactly the map's values. */
  lemma {:induction false} ValueBagHas<P>(m: map<int, Item<P>>, it: Item<P>)
    ensures it in ValueBag(m) <==> exists k :: k in m && m[k] == it
    decreases |m|
  {
    if m != map[] {
      var k := AnyKey(m);
      ValueBagRemove(m, k);
      RemoveKeySize(m, k);
      ValueBagHas(m - {k}, it);
      if it != m[k] {
        forall j | j in m && m[j] == it ensures j in m - {k} {}
      }
    }
  }

  /** When every item sits under its own id, each one is listed exactly once. */
  lemma {:induction false} ValueBagKeyed<P>(m: map<int, Item<P>>, it: Item<P>)
    requires KeyedByID(m)
    ensures ValueBag(m)[it] == if it.ID in m && m[it.ID] == it then 1 else 0
    decreases |m|
  {
    if m != map[] {
      var k := AnyKey(m);
      ValueBagRemove(m, k);
      RemoveKeySize(m, k);
      ValueBagKeyed(m - {k}, it);
    }
  }
}
