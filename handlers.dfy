/**
 * The request dispatch in front of the store: the two registered routes, the
 * method switch of each, and the status code every operation answers with.
 * A handler is a function from the store's state and the request to the new
 * state and the response. The JSON body arrives already decoded (None when
 * decoding failed) and the path suffix already parsed (None when it is not
 * an integer); encoding a response is the identity on its payload.
 */
module Handlers {
  import opened Wrappers
  import opened Items

  const StatusOK := 200
  const StatusCreated := 201
  const StatusNoContent := 204
  const StatusBadRequest := 400
  const StatusNotFound := 404
  const StatusMethodNotAllowed := 405

  const MethodGet := "GET"
  const MethodPost := "POST"
  const MethodPut := "PUT"
  const MethodDelete := "DELETE"

  /**
   * The pattern a path matched: exactly "/items", or "/items/" followed by a
   * suffix, given here as the result of parsing that suffix as an integer.
   */
  datatype Route = Collection | Member(id: Option<int>)

  datatype Request<P> = Request(route: Route, verb: string, body: Option<Item<P>>)

  /** A listing is an array whose order is unspecified, so it is kept as a multiset. */
  datatype Payload<P(==)> = NoBody | One(item: Item<P>) | Many(items: multiset<Item<P>>) | Message(text: string)

  datatype Response<P(==)> = Response(status: int, payload: Payload<P>)

  datatype Outcome<P(==)> = Outcome(table: Table<P>, response: Response<P>)

  /** An error response: a status with a plain-text message, the store untouched. */
  function Fail<P(==)>(t: Table<P>, status: int, text: string): Outcome<P> {
    Outcome(t, Response(status, Message(text)))
  }

  /** GET /items: every stored item, order unspecified, status 200. */
  ghost function ListItems<P>(t: Table<P>): (o: Outcome<P>)
    ensures o.table == t && o.response.status == StatusOK && o.response.payload.Many?
    ensures |o.response.payload.items| == |t.items|
    ensures forall k | k in t.items :: t.items[k] in o.response.payload.items
    ensures forall it | it in o.response.payload.items :: exists k :: k in t.items && t.items[k] == it
  {
    Listing(t);
    Outcome(t, Response(StatusOK, Many(ValueBag(t.items))))
  }

  /**
   * POST /items: a body that does not decode is a bad request and touches
   * nothing; otherwise the item is stored under the counter's value and
   * echoed back with status 201.
   */
  function CreateItem<P(==)>(t: Table<P>, body: Option<Item<P>>): (o: Outcome<P>)
    ensures o.response.status == StatusCreated <==> body.Some?
    ensures body.None? ==> o.table == t && o.response.status == StatusBadRequest
    ensures body.Some? ==>
      && o.response.payload.One?
      && var item := o.response.payload.item;
      && item == body.value.(ID := t.nextID)
      && o.table.nextID == t.nextID + 1
      && Get(o.table, item.ID) == Some(item)
      && (forall k | k != item.ID :: Get(o.table, k) == Get(t, k))
    ensures Valid(t) ==> Valid(o.table)
  {
    if body.None? then
      Fail(t, StatusBadRequest, "Bad request")
    else
      var c := Create(t, body.value);
      Outcome(c.table, Response(StatusCreated, One(c.item)))
  }

  /** GET /items/{id}: the stored item with 200, or 404; never a change. */
  function GetItem<P(==)>(t: Table<P>, id: int): (o: Outcome<P>)
    ensures o.table == t
    ensures o.response.status == StatusOK <==> id in t.items
    ensures id !in t.items ==> o.response.status == StatusNotFound
    ensures id in t.items ==> o.response.payload == One(t.items[id])
    ensures Valid(t) && o.response.status == StatusOK ==> o.response.payload.item.ID == id
  {
    match Get(t, id)
    case None => Fail(t, StatusNotFound, "Item not found")
    case Some(item) => Outcome(t, Response(StatusOK, One(item)))
  }

  /**
   * PUT /items/{id}: the body is decoded before the store is consulted, so a
   * bad body is a 400 whether or not the id exists; an absent id is a 404;
   * otherwise the entry is replaced, its id forced to the path id, and the
   * stored record is echoed with 200. Only 200 changes anything.
   */
  function UpdateItem<P(==)>(t: Table<P>, id: int, body: Option<Item<P>>): (o: Outcome<P>)
    ensures body.None? ==> o.table == t && o.response.status == StatusBadRequest
    ensures body.Some? && id !in t.items ==> o.table == t && o.response.status == StatusNotFound
    ensures o.response.status == StatusOK <==> body.Some? && id in t.items
    ensures o.response.status == StatusOK ==>
      && o.response.payload.One?
      && o.response.payload.item == body.value.(ID := id)
      && Get(o.table, id) == Some(o.response.payload.item)
    ensures o.table.nextID == t.nextID && o.table.items.Keys == t.items.Keys
    ensures forall k | k != id :: Get(o.table, k) == Get(t, k)
    ensures Valid(t) ==> Valid(o.table)
  {
    if body.None? then
      Fail(t, StatusBadRequest, "Bad request")
    else
      var u := Update(t, id, body.value);
      match u.item
      case None => Fail(t, StatusNotFound, "Item not found")
      case Some(item) => Outcome(u.table, Response(StatusOK, One(item)))
  }

  /** DELETE /items/{id}: 204 with no body and the key gone, or 404 and no change. */
  function DeleteItem<P(==)>(t: Table<P>, id: int): (o: Outcome<P>)
    ensures o.response.status == StatusNoContent <==> id in t.items
    ensures id !in t.items ==> o.table == t && o.response.status == StatusNotFound
    ensures id in t.items ==> o.response.payload == NoBody
    ensures Get(o.table, id).None?
    ensures forall k | k != id :: Get(o.table, k) == Get(t, k)
    ensures o.table.nextID == t.nextID
    ensures Valid(t) ==> Valid(o.table)
  {
    var d := Delete(t, id);
    if d.found then Outcome(d.table, Response(StatusNoContent, NoBody))
    else Fail(t, StatusNotFound, "Item not found")
  }

  /** The handler of "/items": GET lists, POST creates, anything else is 405. */
  ghost function ItemsHandler<P>(t: Table<P>, verb: string, body: Option<Item<P>>): (o: Outcome<P>)
    ensures verb == MethodGet ==> o == ListItems(t)
    ensures verb == MethodPost ==> o == CreateItem(t, body)
    ensures verb != MethodGet && verb != MethodPost ==>
      o.table == t && o.response.status == StatusMethodNotAllowed
    ensures o.response.status in {StatusOK, StatusCreated, StatusBadRequest, StatusMethodNotAllowed}
  {
    if verb == MethodGet then ListItems(t)
    else if verb == MethodPost then CreateItem(t, body)
    else Fail(t, StatusMethodNotAllowed, "Method not allowed")
  }

  /**
   * The handler of "/items/": a suffix that is not an integer is a 400 before
   * any store access; then GET, PUT and DELETE go to their operation and
   * anything else is 405.
   */
  function ItemHandler<P(==)>(t: Table<P>, id: Option<int>, verb: string, body: Option<Item<P>>): (o: Outcome<P>)
    ensures id.None? ==> o.table == t && o.response.status == StatusBadRequest
    ensures id.Some? && verb == MethodGet ==> o == GetItem(t, id.value)
    ensures id.Some? && verb == MethodPut ==> o == UpdateItem(t, id.value, body)
    ensures id.Some? && verb == MethodDelete ==> o == DeleteItem(t, id.value)
    ensures id.Some? && verb != MethodGet && verb != MethodPut && verb != MethodDelete ==>
      o.table == t && o.response.status == StatusMethodNotAllowed
    ensures o.response.status in
      {StatusOK, StatusNoContent, StatusBadRequest, StatusNotFound, StatusMethodNotAllowed}
  {
    match id
    case None => Fail(t, StatusBadRequest, "Invalid item ID")
    case Some(n) =>
      if verb == MethodGet then GetItem(t, n)
      else if verb == MethodPut then UpdateItem(t, n, body)
      else if verb == MethodDelete then DeleteItem(t, n)
      else Fail(t, StatusMethodNotAllowed, "Method not allowed")
  }

  /**
   * One request against the store. Every answer is one of six codes, only a
   * success changes the store, only a create moves the counter (by one), and
   * the store invariant survives every request.
   */
  ghost function Handle<P>(t: Table<P>, req: Request<P>): (o: Outcome<P>)
    ensures o.response.status in
      {StatusOK, StatusCreated, StatusNoContent, StatusBadRequest, StatusNotFound, StatusMethodNotAllowed}
    ensures o.response.status !in {StatusOK, StatusCreated, StatusNoContent} ==> o.table == t
    ensures o.table.nextID == if o.response.status == StatusCreated then t.nextID + 1 else t.nextID
    ensures Valid(t) ==> Valid(o.table)
  {
    match req.route
    case Collection => ItemsHandler(t, req.verb, req.body)
    case Member(id) => ItemHandler(t, id, req.verb, req.body)
  }
}
