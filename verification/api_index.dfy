/**
 * The standalone serverless handlers (api/index.js): list whose owner
 * filter has no "All" sentinel, create that checks for a held serial number
 * before building the order, and update that overwrites every field with
 * what the request carries.
 */
module ApiIndex {
  import opened Wrappers
  import opened Orders
  import opened OrderModel

  const CreatedNote: string := "Order created."

  /** The note of a history entry added by an update: the given notes, or a generated one. */
  function UpdateNote(status: string, notes: string): (r: string)
    ensures notes != "" ==> r == notes
    ensures notes == "" ==> r == "Status updated to " + status
  {
    Or(notes, "Status updated to " + status)
  }

  /**
   * The loaded order after the update, before it is saved: one history
   * entry appended exactly when the supplied status differs from the stored
   * one, then all four fields overwritten by the request's values.
   */
  function Overwritten(o: Order, p: Patch, now: nat): (r: Order)
    ensures r.id == o.id && r.createdAt == o.createdAt && r.updatedAt == o.updatedAt
    ensures r.serialNumber == p.serialNumber && r.owner == p.owner
    ensures r.orderDate == p.orderDate && r.deliveryStatus == p.deliveryStatus
    ensures o.history <= r.history
    ensures p.deliveryStatus != o.deliveryStatus ==>
      |r.history| == |o.history| + 1 &&
      r.history[|o.history|] == HistoryEntry(p.deliveryStatus, now, UpdateNote(p.deliveryStatus, p.notes))
    ensures p.deliveryStatus == o.deliveryStatus ==> r.history == o.history
    ensures StatusRecorded(o) ==> StatusRecorded(r)
    ensures Required(o) ==>
      (Required(r) <==> p.serialNumber != "" && p.owner != "" && p.orderDate != "" && p.deliveryStatus != "")
  {
    var history :=
      if p.deliveryStatus != o.deliveryStatus
      then o.history + [HistoryEntry(p.deliveryStatus, now, UpdateNote(p.deliveryStatus, p.notes))]
      else o.history;
    o.(serialNumber := p.serialNumber,
       owner := p.owner,
       orderDate := p.orderDate,
       deliveryStatus := p.deliveryStatus,
       history := history)
  }

  /** The query the list handler builds from `owner` and `search`. */
  function ListFilter(owner: string, search: string): (f: Filter)
    ensures f.owner.None? <==> owner == ""
    ensures f.owner.Some? ==> f.owner.value == owner
    ensures f.search.None? <==> search == ""
    ensures f.search.Some? ==> f.search.value == search
  {
    Filter(if owner != "" then Some(owner) else None,
           if search != "" then Some(search) else None)
  }

  /** Which orders a list request asks for; "All" here is an owner name like any other. */
  ghost predicate Listed(o: Order, owner: string, search: string)
  {
    (owner == "" || o.owner == owner) &&
    (search == "" || ContainsIgnoringCase(o.serialNumber, search))
  }

  lemma ListFilterSelects(o: Order, owner: string, search: string)
    ensures Matches(o, ListFilter(owner, search)) <==> Listed(o, owner, search)
  {
    MatchesIff(o, ListFilter(owner, search));
  }

  /** GET `/api/orders`: the requested orders, newest-created first. */
  method List(store: OrderStore, owner: string, search: string) returns (rs: seq<Order>)
    requires store.Valid()
    ensures forall k :: 0 <= k < |rs| ==>
      rs[k].id in store.orders && store.orders[rs[k].id] == rs[k] && Listed(rs[k], owner, search)
    ensures forall id :: id in store.orders && Listed(store.orders[id], owner, search) ==> store.orders[id] in rs
    ensures forall a, b :: 0 <= a < b < |rs| ==> rs[a].createdAt > rs[b].createdAt
  {
    var f := ListFilter(owner, search);
    rs := store.Find(f);
    forall o: Order ensures Matches(o, f) <==> Listed(o, owner, search) {
      ListFilterSelects(o, owner, search);
    }
  }

  /**
   * POST `/api/orders`: a serial number already held is a duplicate; then a
   * "Pending" order with a one-entry history is saved, which the schema's
   * required validators reject when a field is missing.
   */
  method Create(store: OrderStore, serialNumber: string, owner: string, orderDate: string) returns (r: Outcome)
    requires store.Valid()
    modifies store
    ensures store.Valid()
    ensures r.Duplicate? <==> HeldBy(old(store.orders), serialNumber)
    ensures r.Invalid? <==> !r.Duplicate? && (serialNumber == "" || owner == "" || orderDate == "")
    ensures r.Ok? <==> !r.Invalid? && !r.Duplicate?
    ensures r.Ok? ==>
      r.order == Created(old(store.nextId), serialNumber, owner, orderDate, old(store.clock) + 1, CreatedNote) &&
      store.orders == old(store.orders)[r.order.id := r.order] &&
      r.order.id !in old(store.orders) &&
      store.clock == old(store.clock) + 1
    ensures !r.Ok? ==> store.orders == old(store.orders) && store.clock == old(store.clock) && store.nextId == old(store.nextId)
  {
    var existing := store.FindBySerial(serialNumber);
    if existing.Some? {
      return Duplicate;
    }
    var now := store.clock + 1;
    var o := Created(store.nextId, serialNumber, owner, orderDate, now, CreatedNote);
    r := store.Insert(serialNumber, owner, orderDate, o.deliveryStatus, o.history);
  }

  /**
   * PUT `/api/orders/:id`: not-found for an unknown id; a serial number held
   * by another order is a duplicate; a missing field fails the required
   * validators on save; otherwise the overwritten order is saved with a
   * fresh `updatedAt`.
   */
  method Update(store: OrderStore, id: nat, p: Patch) returns (r: Outcome)
    requires store.Valid()
    modifies store
    ensures store.Valid()
    ensures r.NotFound? <==> id !in old(store.orders)
    ensures r.Duplicate? <==> id in old(store.orders) && HeldByOther(old(store.orders), p.serialNumber, id)
    ensures r.Invalid? <==>
      id in old(store.orders) && !HeldByOther(old(store.orders), p.serialNumber, id) &&
      (p.serialNumber == "" || p.owner == "" || p.orderDate == "" || p.deliveryStatus == "")
    ensures r.Ok? ==>
      var now := old(store.clock) + 1;
      r.order == Overwritten(old(store.orders)[id], p, now).(updatedAt := now) &&
      store.orders == old(store.orders)[id := r.order] &&
      store.clock == now
    ensures r.Ok? ==>
      r.order.createdAt < r.order.updatedAt && old(store.orders)[id].updatedAt < r.order.updatedAt
    ensures !r.Ok? ==> store.orders == old(store.orders) && store.clock == old(store.clock)
    ensures store.nextId == old(store.nextId)
  {
    var found := store.FindById(id);
    if found.None? {
      return NotFound;
    }
    var o := found.value;
    if p.serialNumber != o.serialNumber {
      var existing := store.FindBySerial(p.serialNumber);
      if existing.Some? && existing.value != id {
        return Duplicate;
      }
    }
    assert !HeldByOther(store.orders, p.serialNumber, id);
    var now := store.clock + 1;
    r := store.Save(Overwritten(o, p, now));
  }

  /** DELETE `/api/orders/:id` twice in a row: the first removes the order if it exists, the second reports not-found. */
  method DeleteTwice(store: OrderStore, id: nat) returns (first: Outcome, second: Outcome)
    requires store.Valid()
    modifies store
    ensures store.Valid()
    ensures first.Ok? <==> id in old(store.orders)
    ensures first.Ok? ==> first.order == old(store.orders)[id]
    ensures !first.Ok? ==> first == NotFound
    ensures second == NotFound
    ensures store.orders == old(store.orders) - {id}
    ensures store.nextId == old(store.nextId) && store.clock == old(store.clock)
  {
    first := store.DeleteById(id);
    second := store.DeleteById(id);
  }
}
