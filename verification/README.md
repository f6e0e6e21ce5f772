# Order tracker: order store and lifecycle rules

This project models the core of an order-tracking backend in Dafny. Orders are shipment records keyed by a unique
serial number. Each order keeps its current delivery status and an append-only status history. The backend has
four request handlers over one collection of orders:

- **List** filters by exact owner and by a case-insensitive serial-number substring, newest-created first.
- **Create** rejects missing fields and duplicate serial numbers, and seeds status `"Pending"` with a one-entry history.
- **Update** rejects an unknown id and a serial number held by another order, appends one history entry exactly
  when the status changes, writes the new field values and refreshes `updatedAt`.
- **Delete** removes an order or reports that it was not found.

The repository holds two versions of these handlers, and both are modelled:

- `routes/orderRoutes.js` is the mounted version (module `OrderRoutes`). Its owner filter treats `"All"` as no
  filter, and its update keeps the stored value of every field that the request leaves empty.
- `api/index.js` is the older serverless version (module `ApiIndex`). It has no `"All"` sentinel, and its update
  overwrites all four fields with whatever the request carries.

The other modules are:

- `Orders` (`orders.dfy`) holds the order record, the schema's required-field rule, serial-number uniqueness, the
  store invariant, and the listing filter. The filter is lower-case both sides, then search for a substring. It is
  proved equal to "some window of the serial number equals the search text up to letter case".
- `OrderModel.OrderStore` (`order_store.dfy`) is the order collection as the Mongoose model over it behaves. A save
  runs the required validators first, then the unique index on `serialNumber`. The `pre('save')` hook sets
  `updatedAt`. Its `Valid()` invariant holds in every reachable state:
  - ids are below the id counter, and each order's `id` field equals its key;
  - every required string is non-empty;
  - `createdAt <= updatedAt <= clock`;
  - the history is non-empty and its last entry records the current status;
  - serial numbers are unique;
  - a later id was created later, which makes the newest-first listing a scan over ids in descending order.
- `Scenarios` (`scenarios.dfy`) holds clients that use only the handler contracts. They create `SN-1`, get a
  duplicate refused, ship the order, list it with a lower-case search and delete it twice.

Modelling conventions:

- Request fields are strings. The empty string stands for a field that is absent or falsy in the request.
- Time is a logical clock. Each successful create or update advances it by one and stamps the new `createdAt`,
  `updatedAt` or history entry with it. A delete does not advance it. A rejected request leaves the orders, the id
  counter and the clock unchanged.
- `orderDate` is an opaque string.
- Ids are natural numbers taken from a counter.

The model follows the code in these details:

- The mounted create seeds the note `"Order created via OrderForm"`, and `api/index.js` seeds `"Order created."`.
- The mounted update's generated note is `"Status updated to <s> via Edit Modal"`, and the one in `api/index.js`
  is `"Status updated to <s>"`.
- The mounted version treats a falsy field as absent: an explicit empty string keeps the stored value.
- `api/index.js` has no request validation of its own on create. Its missing fields are caught by the schema's
  required validators when the order is saved (the generic error path). That happens after the duplicate check.
- `api/index.js` compares the serial number and the status without first asking whether they were supplied. A
  missing status counts as a change, but the save then fails validation, so nothing is stored.

## Model

| member | source | states |
|---|---|---|
| Orders.Or | routes/orderRoutes.js:102-105 | JavaScript `a \|\| b` on strings: the first operand unless it is empty, then the second |
| Orders.Required | api/index.js:44-56 | the schema's required validators: serial number, owner, order date, delivery status and every history entry's status are non-empty |
| Orders.Created | routes/orderRoutes.js:45-57 | a new order has status "Pending", a one-entry history recording "Pending" with the given note, `createdAt == updatedAt == now`, and passes the required validators exactly when serial number, owner and order date are non-empty |
| Orders.Lower | api/index.js:106 | the case folding of the `'i'` search option: same length, no upper-case letter left, each upper-case ASCII letter replaced by its lower-case partner and every other character kept |
| Orders.HasSubstring | routes/orderRoutes.js:22 | the serial-number search: an empty pattern is found in every serial, and a pattern longer than the serial is never found |
| Orders.HasSubstringIff | routes/orderRoutes.js:20-23 | the recursive substring search succeeds exactly when the pattern occurs at some position of the text |
| Orders.SearchIgnoresCase | routes/orderRoutes.js:22 | searching the lower-cased serial for the lower-cased pattern succeeds exactly when some window of the serial equals the pattern up to letter case |
| Orders.Matches | api/index.js:99-109 | how `find(query)` judges one stored order: an empty query selects every order, and a selected order has the query's owner when one is given |
| Orders.MatchesIff | routes/orderRoutes.js:12-23 | a stored order satisfies a query exactly when its owner equals the query's owner (if one is given) and its serial contains the search text ignoring case (if one is given) |
| Orders.InsertKeepsInvariant | api/index.js:44-56 | adding a well-formed order under a fresh id, created now, with a serial nobody holds, keeps ids fresh, serials unique and creation times increasing with id |
| Orders.ReplaceKeepsInvariant | api/index.js:58-61 | saving an order that keeps its creation time, passes validation and takes no other order's serial keeps the store invariant at the advanced clock |
| Orders.RemoveKeepsInvariant | api/index.js:158 | deleting any order keeps the store invariant |
| OrderModel.OrderStore.FindById | routes/orderRoutes.js:79 | finds the order with the given id, or nothing exactly when no order has it |
| OrderModel.OrderStore.FindBySerial | routes/orderRoutes.js:87 | returns an id whose order holds the serial number, or nothing only when no stored order holds it |
| OrderModel.OrderStore.Find | routes/orderRoutes.js:26 | returns exactly the stored orders matching the query, each once, in strictly decreasing `createdAt` order |
| OrderModel.OrderStore.Insert | api/index.js:44-56 | a new document is refused as invalid when a required field is empty, refused as a duplicate when its serial is held, and otherwise stored under the next id with `createdAt == updatedAt ==` the new time; a refusal changes nothing |
| OrderModel.OrderStore.Save | api/index.js:58-61 | a loaded document is refused as invalid when a required field is empty, refused as a duplicate when another order holds its serial, and otherwise replaces the stored one with `updatedAt` set to the new time; a refusal changes nothing |
| OrderModel.OrderStore.DeleteById | routes/orderRoutes.js:119-126 | removes exactly the order with the given id and returns it, or reports not-found when it is absent; every other order is unchanged |
| OrderRoutes.EditNote | routes/orderRoutes.js:97 | the note of an edit's history entry is the supplied notes, or "Status updated to <s> via Edit Modal" when none are given |
| OrderRoutes.ChangesStatus | routes/orderRoutes.js:94 | an edit changes the status exactly when the status the merge keeps differs from the stored one |
| OrderRoutes.Merged | routes/orderRoutes.js:93-105 | each field becomes the supplied value when non-empty and keeps the stored one otherwise; the old history is a prefix of the new; exactly one entry with the new status and note is appended iff a non-empty status differs from the stored one, otherwise history is unchanged; id and `createdAt` are kept; the current status stays recorded last and required fields stay non-empty |
| OrderRoutes.ListFilter | routes/orderRoutes.js:11-23 | the query has no owner condition exactly when the owner is empty or "All" and otherwise the exact owner; it has a search condition exactly when the search text is non-empty |
| OrderRoutes.ListFilterSelects | routes/orderRoutes.js:15-23 | the built query selects exactly the orders of the requested owner (unless empty or "All") whose serial contains the search text ignoring case |
| OrderRoutes.List | routes/orderRoutes.js:9-28 | returns exactly the stored orders the request selects, each once, newest-created first |
| OrderRoutes.Create | routes/orderRoutes.js:37-69 | invalid iff serial number, owner or order date is empty; otherwise duplicate iff the serial is held; otherwise stores the seeded "Pending" order under a fresh id and advances the clock; a refusal leaves the store unchanged |
| OrderRoutes.Update | routes/orderRoutes.js:74-108 | not-found iff the id is unknown; duplicate iff another order holds the supplied serial; never invalid; otherwise stores the merged order with `updatedAt` set to the new time, which is later than both `createdAt` and the previous `updatedAt`; a refusal changes nothing |
| ApiIndex.UpdateNote | api/index.js:138 | the note of an update's history entry is the supplied notes, or "Status updated to <s>" when none are given |
| ApiIndex.Overwritten | api/index.js:135-145 | all four fields become the supplied values; the old history is a prefix of the new; exactly one entry with the new status and note is appended iff the supplied status differs from the stored one; the result passes validation iff all four supplied fields are non-empty |
| ApiIndex.ListFilter | api/index.js:98-107 | the query has an owner condition exactly when the owner is non-empty ("All" included); it has a search condition exactly when the search text is non-empty |
| ApiIndex.ListFilterSelects | api/index.js:101-107 | the built query selects exactly the orders of the given owner (unless empty) whose serial contains the search text ignoring case |
| ApiIndex.List | api/index.js:96-110 | returns exactly the stored orders the request selects, each once, newest-created first |
| ApiIndex.Create | api/index.js:70-88 | duplicate iff the serial is held; otherwise invalid iff serial number, owner or order date is empty; otherwise stores a "Pending" order whose history is one "Pending" entry noted "Order created."; a refusal leaves the store unchanged |
| ApiIndex.Update | api/index.js:118-148 | not-found iff the id is unknown; duplicate iff another order holds the supplied serial; invalid iff a supplied field is empty; otherwise stores the overwritten order with a fresh, strictly later `updatedAt`; a refusal changes nothing |
| ApiIndex.DeleteTwice | api/index.js:156-163 | the first delete removes the order and returns it iff it exists and otherwise reports not-found, the second reports not-found, only that order is gone, and the id counter and clock are unchanged |

## Left out

- HTTP routing, status codes and JSON bodies. Handler results are the `Outcome` datatype (`Ok`, `Invalid`, `Duplicate`, `NotFound`).
- CORS setup, the health and test routes, and `server.js` bootstrapping. These are transport plumbing.
- `db/db.js`, the connection cache and `mongoose.connect`. These are I/O and process lifecycle. The collection is an in-memory map owned by `OrderStore`.
- The Mongoose model file used by `routes/orderRoutes.js`, which is not part of this model. It is taken to have the same schema, unique index and `pre('save')` hook as `api/index.js`.
- Concurrency. Each request runs atomically and in sequence, so the uniqueness check before a write is authoritative. The check-then-act race of concurrent requests is not modelled.
- MongoDB `$regex` semantics. The search text is matched as a literal, case-insensitive substring with ASCII lower-casing. Regular-expression metacharacters and non-ASCII case folding are not modelled.
- Real dates and `Date.now`. A logical clock stands in for them, and `orderDate` is an opaque string. Casting a malformed date is not modelled.
- Malformed ids that make `findById` throw. Ids are natural numbers.
- Request keys that are absent (`undefined`) rather than empty. In `findOne` these may behave differently; every input is modelled as a string.
- Storage failures and the generic error responses of the `catch` blocks. The one exception is the required-field failure on save in `api/index.js`, modelled as `Invalid`.
- The ids of the history sub-documents that Mongoose adds.
