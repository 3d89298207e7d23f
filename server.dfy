/**
 * The two handlers wired to the store object: what a request does to the
 * process-wide store, step by step, in the order the handlers do it (decode
 * or parse first, then one locked store operation, then the status).
 */
module Server {
  import opened Wrappers
  import opened Items
  import opened ItemStore
  import opened Handlers

  /**
   * Serve one request against the store object. Its effect and its answer
   * are exactly those of the dispatch function Handle on the store's state.
   */
  method Serve<P(==)>(store: Store<P>, req: Request<P>) returns (resp: Response<P>)
    requires store.Valid()
    modifies store
    ensures store.Valid()
    ensures Outcome(store.State(), resp) == Handle(old(store.State()), req)
  {
    match req.route
    case Collection =>
      if req.verb == MethodGet {
        var list := store.List();
        resp := Response(StatusOK, Many(multiset(list)));
      } else if req.verb == MethodPost {
        if req.body.None? {
          resp := Response(StatusBadRequest, Message("Bad request"));
        } else {
          var item := store.Create(req.body.value);
          resp := Response(StatusCreated, One(item));
        }
      } else {
        resp := Response(StatusMethodNotAllowed, Message("Method not allowed"));
      }
    case Member(None) =>
      resp := Response(StatusBadRequest, Message("Invalid item ID"));
    case Member(Some(id)) =>
      if req.verb == MethodGet {
        var found := store.Get(id);
        resp := if found.Some? then Response(StatusOK, One(found.value))
                else Response(StatusNotFound, Message("Item not found"));
      } else if req.verb == MethodPut {
        if req.body.None? {
          resp := Response(StatusBadRequest, Message("Bad request"));
        } else {
          var updated := store.Update(id, req.body.value);
          resp := if updated.Some? then Response(StatusOK, One(updated.value))
                  else Response(StatusNotFound, Message("Item not found"));
        }
      } else if req.verb == MethodDelete {
        var found := store.Delete(id);
        resp := if found then Response(StatusNoContent, NoBody)
                else Response(StatusNotFound, Message("Item not found"));
      } else {
        resp := Response(StatusMethodNotAllowed, Message("Method not allowed"));
      }
  }
}
