/**
 * The order collection behind both request handlers, as the Mongoose model
 * over it behaves: `save` runs the schema's required validators, the unique
 * index on `serialNumber` rejects a second holder, and the `pre('save')` hook
 * stamps `updatedAt`. Time is a logical clock that every successful write
 * advances by one.
 */
module OrderModel {
  import opened Wrappers
  import opened Orders

  class OrderStore {
    /** The stored orders, keyed by id. */
    var orders: map<nat, Order>
    /** The id the next inserted order receives. */
    var nextId: nat
    /** The logical time of the latest successful write. */
    var clock: nat

    ghost predicate Valid()
      reads this
    {
      StoreInvariant(orders, nextId, clock)
    }

    constructor ()
      ensures Valid()
      ensures orders == map[] && nextId == 0 && clock == 0
    {
      orders, nextId, clock := map[], 0, 0;
    }

    /** `findById`. */
    method FindById(id: nat) returns (r: Option<Order>)
      ensures r.Some? <==> id in orders
      ensures r.Some? ==> r.value == orders[id]
    {
      r := if id in orders then Some(orders[id]) else None;
    }

    /** `findOne({ serialNumber })`: the id of the order holding `serial`, if any. */
    method FindBySerial(serial: string) returns (r: Option<nat>)
      requires Valid()
      ensures r.Some? ==> r.value in orders && orders[r.value].serialNumber == serial
      ensures r.None? ==> !HeldBy(orders, serial)
    {
      var i := 0;
      while i < nextId
        invariant i <= nextId
        invariant forall k :: k in orders && k < i ==> orders[k].serialNumber != serial
      {
        if i in orders && orders[i].serialNumber == serial {
          return Some(i);
        }
        i := i + 1;
      }
      return None;
    }

    /**
     * `find(filter).sort({ createdAt: -1 })`: exactly the stored orders that
     * match, newest-created first.
     */
    method Find(f: Filter) returns (rs: seq<Order>)
      requires Valid()
      ensures forall k :: 0 <= k < |rs| ==> rs[k].id in orders && orders[rs[k].id] == rs[k] && Matches(rs[k], f)
      ensures forall id :: id in orders && Matches(orders[id], f) ==> orders[id] in rs
      ensures forall a, b :: 0 <= a < b < |rs| ==> rs[a].createdAt > rs[b].createdAt
    {
      rs := [];
      var i := nextId;
      while i > 0
        invariant i <= nextId
        invariant forall k :: 0 <= k < |rs| ==>
          rs[k].id in orders && orders[rs[k].id] == rs[k] && i <= rs[k].id && Matches(rs[k], f)
        invariant forall id :: i <= id && id in orders && Matches(orders[id], f) ==> orders[id] in rs
        invariant forall a, b :: 0 <= a < b < |rs| ==> rs[a].createdAt > rs[b].createdAt
      {
        i := i - 1;
        if i in orders && Matches(orders[i], f) {
          rs := rs + [orders[i]];
        }
      }
    }

    /**
     * `save()` of a new document: required validators, then the unique index,
     * then the insert with `createdAt` and `updatedAt` set to the new time.
     */
    method Insert(serialNumber: string, owner: string, orderDate: string, deliveryStatus: string,
                  history: seq<HistoryEntry>) returns (r: Outcome)
      requires Valid()
      requires |history| > 0 && history[|history| - 1].status == deliveryStatus
      modifies this
      ensures Valid()
      ensures var o := Order(old(nextId), serialNumber, owner, orderDate, deliveryStatus,
                             old(clock) + 1, old(clock) + 1, history);
        && (!Required(o) ==> r == Invalid)
        && (Required(o) && HeldBy(old(orders), serialNumber) ==> r == Duplicate)
        && (Required(o) && !HeldBy(old(orders), serialNumber) ==>
              r == Ok(o) && orders == old(orders)[o.id := o] &&
              nextId == old(nextId) + 1 && clock == old(clock) + 1)
      ensures !r.Ok? ==> orders == old(orders) && nextId == old(nextId) && clock == old(clock)
    {
      var o := Order(nextId, serialNumber, owner, orderDate, deliveryStatus, clock + 1, clock + 1, history);
      if !Required(o) {
        return Invalid;
      }
      var holder := FindBySerial(serialNumber);
      if holder.Some? {
        return Duplicate;
      }
      InsertKeepsInvariant(orders, nextId, clock, o);
      orders := orders[nextId := o];
      nextId := nextId + 1;
      clock := clock + 1;
      r := Ok(o);
    }

    /**
     * `save()` of a loaded document: required validators, then the unique
     * index against every other order, then the `pre('save')` hook that sets
     * `updatedAt` to the new time.
     */
    method Save(o: Order) returns (r: Outcome)
      requires Valid()
      requires o.id in orders && o.createdAt == orders[o.id].createdAt && StatusRecorded(o)
      modifies this
      ensures Valid()
      ensures !Required(o) ==> r == Invalid
      ensures Required(o) && HeldByOther(old(orders), o.serialNumber, o.id) ==> r == Duplicate
      ensures Required(o) && !HeldByOther(old(orders), o.serialNumber, o.id) ==>
        r == Ok(o.(updatedAt := old(clock) + 1)) && orders == old(orders)[o.id := r.order] &&
        clock == old(clock) + 1
      ensures !r.Ok? ==> orders == old(orders) && clock == old(clock)
      ensures nextId == old(nextId)
    {
      if !Required(o) {
        return Invalid;
      }
      var holder := FindBySerial(o.serialNumber);
      if holder.Some? && holder.value != o.id {
        return Duplicate;
      }
      assert !HeldByOther(orders, o.serialNumber, o.id);
      ReplaceKeepsInvariant(orders, nextId, clock, o.(updatedAt := clock + 1));
      clock := clock + 1;
      var saved := o.(updatedAt := clock);
      orders := orders[o.id := saved];
      r := Ok(saved);
    }

    /** `findByIdAndDelete`: removes exactly the order `id`, reporting it, or reports not-found. */
    method DeleteById(id: nat) returns (r: Outcome)
      requires Valid()
      modifies this
      ensures Valid()
      ensures r.Ok? <==> id in old(orders)
      ensures r.Ok? ==> r.order == old(orders)[id]
      ensures !r.Ok? ==> r == NotFound
      ensures orders == old(orders) - {id}
      ensures nextId == old(nextId) && clock == old(clock)
    {
      if id in orders {
        r := Ok(orders[id]);
        RemoveKeepsInvariant(orders, nextId, clock, id);
        orders := orders - {id};
      } else {
        r := NotFound;
      }
    }
  }
}
