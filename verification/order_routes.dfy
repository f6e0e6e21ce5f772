/**
 * The mounted request handlers (routes/orderRoutes.js): list with an owner
 * filter that treats "All" as no filter, create with explicit validation,
 * and update that keeps the stored value of every field the request leaves
 * empty.
 */
module OrderRoutes {
  import opened Wrappers
  import opened Orders
  import opened OrderModel

  const CreatedNote: string := "Order created via OrderForm"

  /** The note of a history entry added by an edit: the given notes, or a generated one. */
  function EditNote(status: string, notes: string): (r: string)
    ensures notes != "" ==> r == notes
    ensures notes == "" ==> r == "Status updated to " + status + " via Edit Modal"
  {
    Or(notes, "Status updated to " + status + " via Edit Modal")
  }

  /** The stored field after the edit: the supplied value when there is one, the stored value otherwise. */
  ghost predicate SuppliedOrKept(after: string, supplied: string, stored: string)
  {
    (supplied != "" ==> after == supplied) && (supplied == "" ==> after == stored)
  }

  /** An update changes the status when it supplies one that differs from the stored one. */
  predicate ChangesStatus(o: Order, p: Patch)
    ensures ChangesStatus(o, p) <==> Or(p.deliveryStatus, o.deliveryStatus) != o.deliveryStatus
  {
    p.deliveryStatus != "" && p.deliveryStatus != o.deliveryStatus
  }

  /**
   * The loaded order after the edit, before it is saved: one history entry
   * appended exactly when the status changes, then every field the request
   * supplies written over the stored one.
   */
  function Merged(o: Order, p: Patch, now: nat): (r: Order)
    ensures r.id == o.id && r.createdAt == o.createdAt && r.updatedAt == o.updatedAt
    ensures SuppliedOrKept(r.serialNumber, p.serialNumber, o.serialNumber)
    ensures SuppliedOrKept(r.owner, p.owner, o.owner)
    ensures SuppliedOrKept(r.orderDate, p.orderDate, o.orderDate)
    ensures SuppliedOrKept(r.deliveryStatus, p.deliveryStatus, o.deliveryStatus)
    ensures o.history <= r.history
    ensures ChangesStatus(o, p) ==>
      |r.history| == |o.history| + 1 &&
      r.history[|o.history|] == HistoryEntry(p.deliveryStatus, now, EditNote(p.deliveryStatus, p.notes))
    ensures !ChangesStatus(o, p) ==> r.history == o.history
    ensures StatusRecorded(o) ==> StatusRecorded(r)
    ensures Required(o) ==> Required(r)
  {
    var history :=
      if ChangesStatus(o, p)
      then o.history + [HistoryEntry(p.deliveryStatus, now, EditNote(p.deliveryStatus, p.notes))]
      else o.history;
    o.(serialNumber := Or(p.serialNumber, o.serialNumber),
       owner := Or(p.owner, o.owner),
       orderDate := Or(p.orderDate, o.orderDate),
       deliveryStatus := Or(p.deliveryStatus, o.deliveryStatus),
       history := history)
  }

  /** The query the list handler builds from `owner` and `search`. */
  function ListFilter(owner: string, search: string): (f: Filter)
    ensures f.owner.None? <==> owner == "" || owner == "All"
    ensures f.owner.Some? ==> f.owner.value == owner
    ensures f.search.None? <==> search == ""
    ensures f.search.Some? ==> f.search.value == search
  {
    Filter(if owner != "" && owner != "All" then Some(owner) else None,
           if search != "" then Some(search) else None)
  }

  /** Which orders a list request asks for. */
  ghost predicate Listed(o: Order, owner: string, search: string)
  {
    (owner == "" || owner == "All" || o.owner == owner) &&
    (search == "" || ContainsIgnoringCase(o.serialNumber, search))
  }

  lemma ListFilterSelects(o: Order, owner: string, search: string)
    ensures Matches(o, ListFilter(owner, search)) <==> Listed(o, owner, search)
  {
    MatchesIff(o, ListFilter(owner, search));
  }

  /** GET `/`: the requested orders, newest-created first. */
  method List(store: OrderStore, owner: string, search: string) returns (rs: seq<Order>)
    requires store.Valid()
    ensures forall k :: 0 <= k < |rs| ==>
      rs[k].id in store.orders && store.orders[rs[k].id] == rs[k] && Listed(rs[k], owner, search)
    ensures forall id :: id in store.orders && Listed(store.orders[id], owner, search) ==> store.orders[id] in rs
    ensures forall a, b :: 0 <= a < b < |rs| ==> rs[a].createdAt > rs[b].createdAt
  {
    var f := ListFilter(owner, search);
    rs := store.Find(f);
    forall o: Order ensures Matches(o, f) <==> Listed(o, owner, search) {
      ListFilterSelects(o, owner, search);
    }
  }

  /**
   * POST `/`: rejects a missing serial number, owner or order date, then
   * saves a "Pending" order whose history has one entry; the unique index
   * rejects a serial number that is already held.
   */
  method Create(store: OrderStore, serialNumber: string, owner: string, orderDate: string) returns (r: Outcome)
    requires store.Valid()
    modifies store
    ensures store.Valid()
    ensures r.Invalid? <==> serialNumber == "" || owner == "" || orderDate == ""
    ensures r.Duplicate? <==> !r.Invalid? && HeldBy(old(store.orders), serialNumber)
    ensures r.Ok? <==> !r.Invalid? && !r.Duplicate?
    ensures r.Ok? ==>
      r.order == Created(old(store.nextId), serialNumber, owner, orderDate, old(store.clock) + 1, CreatedNote) &&
      store.orders == old(store.orders)[r.order.id := r.order] &&
      r.order.id !in old(store.orders) &&
      store.clock == old(store.clock) + 1
    ensures !r.Ok? ==> store.orders == old(store.orders) && store.clock == old(store.clock) && store.nextId == old(store.nextId)
  {
    if serialNumber == "" || owner == "" || orderDate == "" {
      return Invalid;
    }
    var now := store.clock + 1;
    var o := Created(store.nextId, serialNumber, owner, orderDate, now, CreatedNote);
    r := store.Insert(serialNumber, owner, orderDate, o.deliveryStatus, o.history);
  }

  /**
   * PUT `/:id`: not-found for an unknown id; a supplied serial number held
   * by another order is a duplicate; otherwise the merged order is saved
   * with a fresh `updatedAt`.
   */
  method Update(store: OrderStore, id: nat, p: Patch) returns (r: Outcome)
    requires store.Valid()
    modifies store
    ensures store.Valid()
    ensures r.NotFound? <==> id !in old(store.orders)
    ensures r.Duplicate? <==> id in old(store.orders) && HeldByOther(old(store.orders), p.serialNumber, id)
    ensures !r.Invalid?
    ensures r.Ok? ==>
      var now := old(store.clock) + 1;
      r.order == Merged(old(store.orders)[id], p, now).(updatedAt := now) &&
      store.orders == old(store.orders)[id := r.order] &&
      store.clock == now
    ensures r.Ok? ==>
      r.order.createdAt < r.order.updatedAt && old(store.orders)[id].updatedAt < r.order.updatedAt
    ensures !r.Ok? ==> store.orders == old(store.orders) && store.clock == old(store.clock)
    ensures store.nextId == old(store.nextId)
  {
    var found := store.FindById(id);
    if found.None? {
      return NotFound;
    }
    var o := found.value;
    if p.serialNumber != "" && p.serialNumber != o.serialNumber {
      var existing := store.FindBySerial(p.serialNumber);
      if existing.Some? && existing.value != id {
        return Duplicate;
      }
    }
    assert !HeldByOther(store.orders, p.serialNumber, id);
    var now := store.clock + 1;
    var merged := Merged(o, p, now);
    assert merged.serialNumber == p.serialNumber || merged.serialNumber == o.serialNumber;
    r := store.Save(merged);
  }
}
