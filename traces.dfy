/**
 * Sequences of requests served one after another against the store (the
 * lock serialises them), and what holds across them: the store invariant,
 * ids handed out in strictly increasing order and never reused, creates
 * that all land in the store, and the example exchange of a typical session.
 */
module Traces {
  import opened Wrappers
  import opened Items
  import opened Handlers

  datatype Trace<P(==)> = Trace(table: Table<P>, responses: seq<Response<P>>)

  /** Serve the requests in order, each against the table the previous one left. */
  ghost function Run<P>(t: Table<P>, reqs: seq<Request<P>>): (r: Trace<P>)
    ensures |r.responses| == |reqs|
    decreases |reqs|
  {
    if reqs == [] then Trace(t, [])
    else
      var o := Handle(t, reqs[0]);
      var rest := Run(o.table, reqs[1..]);
      Trace(rest.table, [o.response] + rest.responses)
  }

  /** The ids of the items a sequence of responses reports as created (status 201), in order. */
  function CreatedIDs<P(==)>(responses: seq<Response<P>>): seq<int> {
    if responses == [] then []
    else
      var r := responses[0];
      var head := if r.status == StatusCreated && r.payload.One? then [r.payload.item.ID] else [];
      head + CreatedIDs(responses[1..])
  }

  /** The store invariant holds after any sequence of requests that starts from a valid store. */
  lemma {:induction false} RunPreservesValid<P>(t: Table<P>, reqs: seq<Request<P>>)
    requires Valid(t)
    ensures Valid(Run(t, reqs).table)
    decreases |reqs|
  {
    if reqs != [] {
      RunPreservesValid(Handle(t, reqs[0]).table, reqs[1..]);
    }
  }

  /**
   * Ids are never reused: the ids handed out by the creates of a run are
   * strictly increasing, are exactly the counter values from t.nextID up to
   * the final counter, and so are all above every id present (or deleted)
   * before the run.
   */
  lemma {:induction false} IDsNeverReused<P>(t: Table<P>, reqs: seq<Request<P>>)
    ensures var r := Run(t, reqs); var ids := CreatedIDs(r.responses);
      && |ids| == r.table.nextID - t.nextID
      && (forall i | 0 <= i < |ids| :: ids[i] == t.nextID + i)
      && (forall i, j | 0 <= i < j < |ids| :: ids[i] < ids[j])
      && (Valid(t) ==> forall i, k | 0 <= i < |ids| && k in t.items :: k < ids[i])
    decreases |reqs|
  {
    if reqs != [] {
      var o := Handle(t, reqs[0]);
      IDsNeverReused(o.table, reqs[1..]);
      var rest := Run(o.table, reqs[1..]);
      var r := Run(t, reqs);
      assert r.responses == [o.response] + rest.responses;
      assert r.responses[1..] == rest.responses;
      if o.response.status == StatusCreated {
        CreateReports(t, reqs[0]);
      }
    }
  }

  /** A 201 answer always carries the created item, whose id is the old counter. */
  lemma CreateReports<P>(t: Table<P>, req: Request<P>)
    requires Handle(t, req).response.status == StatusCreated
    ensures var o := Handle(t, req);
      o.response.payload.One? && o.response.payload.item.ID == t.nextID
  {
  }

  /** The requests POST /items, one per decoded body. */
  function Posts<P>(bodies: seq<Item<P>>): (reqs: seq<Request<P>>)
    ensures |reqs| == |bodies|
    ensures forall i | 0 <= i < |bodies| :: reqs[i] == Request(Collection, MethodPost, Some(bodies[i]))
  {
    seq(|bodies|, i requires 0 <= i < |bodies| => Request(Collection, MethodPost, Some(bodies[i])))
  }

  /**
   * Create is never refused: N creates against a valid store all answer 201,
   * add N items under the N consecutive ids from the counter, and leave the
   * items already present alone.
   */
  lemma {:induction false} CreatesAllStored<P>(t: Table<P>, bodies: seq<Item<P>>)
    requires Valid(t)
    ensures var r := Run(t, Posts(bodies));
      && (forall i | 0 <= i < |bodies| :: r.responses[i].status == StatusCreated)
      && r.table.nextID == t.nextID + |bodies|
      && |r.table.items| == |t.items| + |bodies|
      && (forall i | 0 <= i < |bodies| ::
            Get(r.table, t.nextID + i) == Some(bodies[i].(ID := t.nextID + i)))
      && (forall k | k in t.items :: Get(r.table, k) == Some(t.items[k]))
    decreases |bodies|
  {
    if bodies != [] {
      var c := Create(t, bodies[0]);
      var tail := bodies[1..];
      PostThenRest(t, bodies);
      CreatesAllStored(c.table, tail);
      var rest := Run(c.table, Posts(tail));
      var r := Run(t, Posts(bodies));
      forall i | 0 <= i < |bodies|
        ensures r.responses[i].status == StatusCreated
        ensures Get(r.table, t.nextID + i) == Some(bodies[i].(ID := t.nextID + i))
      {
        if i == 0 {
          assert t.nextID in c.table.items;
        } else {
          assert tail[i - 1] == bodies[i];
          assert r.responses[i] == rest.responses[i - 1];
        }
      }
      forall k | k in t.items ensures Get(r.table, k) == Some(t.items[k]) {
        assert k in c.table.items;
      }
    }
  }

  /** The first of a run of creates answers 201 with its item; the rest run on the table it leaves. */
  lemma PostThenRest<P>(t: Table<P>, bodies: seq<Item<P>>)
    requires bodies != []
    ensures var c := Create(t, bodies[0]);
      var rest := Run(c.table, Posts(bodies[1..]));
      Run(t, Posts(bodies)) == Trace(rest.table, [Response(StatusCreated, One(c.item))] + rest.responses)
  {
    var reqs := Posts(bodies);
    assert reqs[1..] == Posts(bodies[1..]);
  }

  /** Once deleted, an id answers 404 to a following GET, whatever the delete answered. */
  lemma DeleteThenGet<P>(t: Table<P>, id: int)
    ensures var r := Run(t, [Request(Member(Some(id)), MethodDelete, None),
                             Request(Member(Some(id)), MethodGet, None)]);
      r.responses[1].status == StatusNotFound
  {
  }

  /**
   * A typical session from a fresh store: create a widget (201, id 1), read
   * it back (200), miss a never-created id (404), replace it by a gadget
   * (200, id still 1), delete it (204), then read it again (404). A path
   * suffix that is not an integer is a 400.
   */
  lemma Session<P>(widget: P, gadget: P)
    ensures var reqs := [
        Request(Collection, MethodPost, Some(Item(0, "Widget", widget))),
        Request(Member(Some(1)), MethodGet, None),
        Request(Member(Some(99)), MethodGet, None),
        Request(Member(Some(1)), MethodPut, Some(Item(0, "Gadget", gadget))),
        Request(Member(Some(1)), MethodDelete, None),
        Request(Member(Some(1)), MethodGet, None),
        Request(Member(None), MethodGet, None)];
      var r := Run(Empty(), reqs);
      && r.responses[0] == Response(StatusCreated, One(Item(1, "Widget", widget)))
      && r.responses[1] == Response(StatusOK, One(Item(1, "Widget", widget)))
      && r.responses[2].status == StatusNotFound
      && r.responses[3] == Response(StatusOK, One(Item(1, "Gadget", gadget)))
      && r.responses[4] == Response(StatusNoContent, NoBody)
      && r.responses[5].status == StatusNotFound
      && r.responses[6].status == StatusBadRequest
      && r.table == Table(map[], 2)
  {
    var reqs := [
        Request(Collection, MethodPost, Some(Item(0, "Widget", widget))),
        Request(Member(Some(1)), MethodGet, None),
        Request(Member(Some(99)), MethodGet, None),
        Request(Member(Some(1)), MethodPut, Some(Item(0, "Gadget", gadget))),
        Request(Member(Some(1)), MethodDelete, None),
        Request(Member(Some(1)), MethodGet, None),
        Request(Member(None), MethodGet, None)];
    var t0: Table<P> := Empty();
    var t1 := Table(map[1 := Item(1, "Widget", widget)], 2);
    var t2 := Table(map[1 := Item(1, "Gadget", gadget)], 2);
    var t3: Table<P> := Table(map[], 2);
    assert Handle(t0, reqs[0]).table == t1;
    assert Handle(t2, reqs[4]).table == t3 by {
      assert t2.items - {1} == map[];
    }
    assert Run(t3, reqs[6..]) == Trace(t3, [Response(StatusBadRequest, Message("Invalid item ID"))]);
    assert Run(t3, reqs[5..]).responses[0].status == StatusNotFound;
    assert Run(t2, reqs[4..]).responses[0] == Response(StatusNoContent, NoBody);
    assert Run(t1, reqs[3..]).responses[0] == Response(StatusOK, One(Item(1, "Gadget", gadget)));
    assert Run(t1, reqs[2..]).responses[0].status == StatusNotFound;
    assert Run(t1, reqs[1..]).responses[0] == Response(StatusOK, One(Item(1, "Widget", widget)));
  }
}
