/**
 * The process-wide item store as an object: the map and the counter are
 * fields that the operations update in place. Each method holds the lock for
 * its whole duration in the source, so here it runs atomically; its effect
 * is stated through the value-level operation of module Items.
 */
module ItemStore {
  import opened Wrappers
  import opened Items

  class Store<P> {
    var items: map<int, Item<P>>
    var nextID: int

    /** The store's state as a value. */
    function State(): Table<P>
      reads this
    {
      Table(items, nextID)
    }

    ghost predicate Valid()
      reads this
    {
      Items.Valid(State())
    }

    /** A new process: no items, and the first id handed out is 1. */
    constructor ()
      ensures Valid() && State() == Empty()
    {
      items := map[];
      nextID := 1;
    }

    /** The locked section of createItem: take the counter, bump it, insert. */
    method Create(body: Item<P>) returns (item: Item<P>)
      requires Valid()
      modifies this
      ensures Valid()
      ensures Created(State(), item) == Items.Create(old(State()), body)
      ensures item.ID == old(nextID) && nextID == old(nextID) + 1
      ensures items == old(items)[item.ID := item] && item.ID !in old(items)
    {
      item := body.(ID := nextID);
      nextID := nextID + 1;
      items := items[item.ID := item];
    }

    /** The locked section of getItem: a lookup that changes nothing. */
    method Get(id: int) returns (r: Option<Item<P>>)
      ensures r == Items.Get(State(), id)
      ensures r.Some? <==> id in items
    {
      if id in items {
        r := Some(items[id]);
      } else {
        r := None;
      }
    }

    /** The locked section of updateItem: replace the entry only if it exists. */
    method Update(id: int, body: Item<P>) returns (r: Option<Item<P>>)
      requires Valid()
      modifies this
      ensures Valid()
      ensures Updated(State(), r) == Items.Update(old(State()), id, body)
      ensures r.None? ==> items == old(items)
      ensures r.Some? ==> r.value.ID == id && items == old(items)[id := r.value]
      ensures nextID == old(nextID)
    {
      if id !in items {
        r := None;
        return;
      }
      var item := body.(ID := id);
      items := items[id := item];
      r := Some(item);
    }

    /** The locked section of deleteItem: remove the key only if it exists. */
    method Delete(id: int) returns (found: bool)
      requires Valid()
      modifies this
      ensures Valid()
      ensures Deleted(State(), found) == Items.Delete(old(State()), id)
      ensures found <==> id in old(items)
      ensures items == old(items) - {id} && nextID == old(nextID)
    {
      found := id in items;
      if found {
        items := items - {id};
      }
    }

    /**
     * The locked section of listItems: copy every stored item into a
     * sequence, in whatever order the map is walked.
     */
    method List() returns (list: seq<Item<P>>)
      ensures multiset(list) == ValueBag(items)
      ensures |list| == |items|
    {
      list := [];
      var rest := items;
      while rest != map[]
        invariant multiset(list) + ValueBag(rest) == ValueBag(items)
        invariant |list| + |rest| == |items|
        decreases |rest|
      {
        HasKey(rest);
        var k :| k in rest;
        ValueBagRemove(rest, k);
        RemoveKeySize(rest, k);
        list := list + [rest[k]];
        rest := rest - {k};
      }
      ValueBagSize(items);
    }
  }
}
