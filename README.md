# In-memory item CRUD service, modelled in Dafny

The service keeps items (`id`, `name`, `price`) in a process-wide map from id
to item. Beside the map is a counter `nextID` that starts at 1. Two HTTP
handlers sit in front of the store:

- `/items` handles GET (list) and POST (create).
- `/items/{id}` handles GET, PUT (full replace) and DELETE.

Every answer carries one of six status codes: 200, 201, 204, 400, 404 or 405.

The model has six modules:

- `Wrappers` (`wrappers.dfy`): the `Option` type. It models a map lookup, an
  integer parse of the path suffix and a JSON decode that may fail.
- `Items` (`items.dfy`): the store as a value. `Table` holds `items` and
  `nextID`. `Valid` is the store invariant: every key is its item's id and
  lies in `[1, nextID)`. Create, get, update and delete are functions from
  one table to the next. `ValueBag` is the multiset of items that a listing
  holds once its order is forgotten.
- `ItemStore` (`store.dfy`): the store as an object. Class `Store` has fields
  `items` and `nextID`, and each method updates them in place. Every method
  keeps `Valid()` and matches the `Items` function of the same name. `List`
  copies the items into a sequence with a loop, and its result is proved to
  be a permutation of the stored items.
- `Handlers` (`handlers.dfy`): the dispatch as functions. Each one takes a
  table and a request and gives back the new table and the response. The
  response has a status and a payload: one item, a listing, no body, or a
  plain-text message. `Handle` is the router in front of both handlers.
- `Traces` (`traces.dfy`): requests served one after another.
  - The invariant survives any run of requests.
  - Create ids are consecutive, strictly increasing and never reused.
  - N creates store N items.
  - A GET after a DELETE gets 404.
  - A typical session gives the expected answers.
- `Server` (`server.dfy`): one method that runs a request against a `Store`
  object. It does exactly what `Handle` does to the store's state.

Price is a type parameter `P`, because the service only carries it. A request
reaches the model already parsed:

- a route: `Collection`, or `Member` with the result of parsing the path
  suffix as an integer;
- the HTTP method as a string;
- the decoded body as an `Option<Item<P>>`, which is `None` when decoding
  failed and otherwise keeps any id the client sent.

## Model

| member | source | states |
|---|---|---|
| `Items.Empty` | main.go:17-19 | A fresh store has no items and counter 1, and it satisfies the store invariant |
| `Items.Create` | main.go:77-80 | The new item's id is the old counter, whatever id the body carried. Name and price come from the body. The counter grows by exactly one and the item is stored under its id. On a valid table the id was not present before, the table stays valid and gains one entry |
| `Items.Get` | main.go:88-89 | A result exists exactly when the id is present, and then it is the stored item. On a valid table that item's id is the requested id, which lies in `[1, nextID)` |
| `Items.Update` | main.go:105-113 | An absent id leaves the table unchanged and gives no item. A present id is replaced entirely by the body with its id forced to the path id. Other keys, the key set and the counter are unchanged, and validity is kept |
| `Items.Delete` | main.go:120-124 | `found` holds exactly when the id was present. Exactly that key is removed and every other entry is unchanged. The counter is untouched, a following get finds nothing, and validity is kept |
| `Items.Listing` | main.go:63-66 | A listing has as many elements as there are keys and holds every stored item. Every element it holds is a stored item. On a valid table each stored item appears exactly once |
| `Items.ValueBagRemove` | main.go:64-65 | Visiting the keys in any order gives the same listing: any key may be taken out first |
| `ItemStore.Store.constructor` | main.go:17-19 | The store object starts empty with counter 1 and satisfies the invariant |
| `ItemStore.Store.Create` | main.go:77-80 | Updates the map and counter in place as `Items.Create` does: the id is the old counter, the counter grows by one, and the id was absent before. The invariant is kept |
| `ItemStore.Store.Get` | main.go:88-90 | Returns what `Items.Get` returns (a result exactly when the id is present) and changes nothing |
| `ItemStore.Store.Update` | main.go:105-113 | Updates in place as `Items.Update` does. An absent id changes nothing. A present id is replaced by the body with the path id. The counter is untouched and the invariant is kept |
| `ItemStore.Store.Delete` | main.go:120-125 | Updates in place as `Items.Delete` does. The map loses exactly the given key, the counter is untouched, and `found` holds exactly when the key was present |
| `ItemStore.Store.List` | main.go:63-66 | The loop's sequence has one element per key, and its multiset is exactly the stored items |
| `Handlers.ListItems` | main.go:60-68 | GET /items answers 200 with every stored item and only stored items, one element per key, and changes nothing |
| `Handlers.CreateItem` | main.go:71-84 | A body that fails to decode gives 400 with no change and no counter increment. Otherwise the answer is 201 with the body under id `nextID`, the counter grows by one, that item is retrievable, and every other id is unaffected |
| `Handlers.GetItem` | main.go:87-96 | Answers 200 with the stored item exactly when the id is present, otherwise 404, and never changes the store |
| `Handlers.UpdateItem` | main.go:99-116 | A bad body gives 400 before the id is looked up. An absent id gives 404 with no change. Otherwise the answer is 200 with the body under the path id, and that record is what is now stored. Other ids, the key set and the counter are unchanged |
| `Handlers.DeleteItem` | main.go:119-130 | Answers 204 with no body exactly when the id was present, otherwise 404 with no change. Afterwards the id is absent, other ids are unaffected and the counter is untouched |
| `Handlers.ItemsHandler` | main.go:30-39 | On /items, GET is the listing and POST is the create. Any other method gives 405 with no change. Every answer is 200, 201, 400 or 405 |
| `Handlers.ItemHandler` | main.go:41-58 | A suffix that is not an integer gives 400 with no store access. Otherwise GET, PUT and DELETE go to get, update and delete. Any other method gives 405 with no change. Every answer is 200, 204, 400, 404 or 405 |
| `Handlers.Handle` | main.go:24-25 | Every answer is one of the six codes and only 200, 201 or 204 can change the store. The counter grows by one on 201 and is otherwise untouched. The store invariant survives every request |
| `Traces.RunPreservesValid` | main.go:77-128 | After any sequence of requests that starts from a valid store, the store is still valid |
| `Traces.IDsNeverReused` | main.go:78-79 | The ids handed out by the creates of a run are the consecutive counter values from the starting counter up to the final one. They are strictly increasing and exceed every id present before the run, so a deleted id is never handed out again |
| `Traces.CreateReports` | main.go:78-84 | A 201 answer always carries the created item, whose id is the counter value before the request |
| `Traces.CreatesAllStored` | main.go:71-84 | N creates against a valid store all answer 201, and the counter grows by N. The store gains exactly N items under ids `nextID .. nextID+N-1`, each holding its body, and items already present stay as they were |
| `Traces.DeleteThenGet` | main.go:119-130 | A GET that follows a DELETE of the same id answers 404 |
| `Traces.Session` | main.go:30-130 | From a fresh store: create (201, id 1), get (200), get of a never-created id (404), put (200, id stays 1), delete (204), get (404), and a non-integer suffix (400). The store ends empty with counter 2 |
| `Server.Serve` | main.go:30-130 | Running a request against the store object leaves exactly the state and gives exactly the response that `Handle` prescribes, and the invariant is kept |

## Left out

- Server setup (main.go:23-28): route registration, the port, `ListenAndServe` and logging are I/O.
- JSON encoding and decoding are a foreign library. A decoded body is an input `Option<Item<P>>`, and encoding a response is the identity on its payload. Missing JSON fields decoding to zero values is part of that input.
- `strconv.Atoi` is an input too: the route carries the parse result as `Option<int>`. Sign handling, overflow and the exact accepted syntax are not modelled.
- The mutex: each store operation runs atomically, and requests are served one after another. Interleaving between concurrent requests is not modelled.
- Price is a `float64` that is only carried, so it is an uninterpreted type parameter.
- Response headers (`Content-Type`) are not modelled. Error bodies are kept as their message text only.
- Go map iteration order is random, so the listing response is a multiset. `Store.List` builds a real sequence in whatever order it picks a key, and only its multiset is specified.
- `ServeMux` details beyond the two patterns are not modelled, such as redirects for unclean paths. A request arrives already routed to `Collection` or `Member`.
- Items.Create: the id counter is a Go `int`, 64 bits wide. After 2^63 - 1 creates, `nextID++` would wrap to a negative value. The model's counter is unbounded, so freshness of ids holds without that limit.
- ItemStore.Store.Create: the same 64-bit wrap-around of `nextID` is not modelled, for the same reason.
