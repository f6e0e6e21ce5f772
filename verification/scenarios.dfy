/**
 * Clients of the mounted handlers: what a caller can conclude from their
 * contracts alone about a short session with one order.
 */
module Scenarios {
  import opened Orders
  import opened OrderModel
  import OrderRoutes

  /** Creating "SN-1" in an empty store succeeds; creating it again is refused and leaves the first untouched. */
  method CreateThenDuplicate()
  {
    var store := new OrderStore();
    var created := OrderRoutes.Create(store, "SN-1", "alice", "2024-01-01");
    assert !HeldBy(map[], "SN-1");
    assert created.Ok?;
    var o := created.order;
    assert o.deliveryStatus == "Pending" && |o.history| == 1 && o.history[0].status == "Pending";

    var again := OrderRoutes.Create(store, "SN-1", "bob", "2024-02-02");
    assert store.orders[o.id].serialNumber == "SN-1";
    assert again == Duplicate;
    assert store.orders[o.id] == o;
  }

  /** Shipping a pending order adds one history entry with the generated note. */
  method Ship(store: OrderStore, o: Order)
    requires store.Valid() && o.id in store.orders && store.orders[o.id] == o
    requires o.deliveryStatus == "Pending" && |o.history| == 1
    modifies store
  {
    assert !HeldByOther(store.orders, "", o.id);
    var shipped := OrderRoutes.Update(store, o.id, Patch("", "", "", "Shipped", ""));
    assert shipped.Ok?;
    var s := shipped.order;
    assert s.deliveryStatus == "Shipped" && s.serialNumber == o.serialNumber && s.owner == o.owner;
    assert |s.history| == 2 && s.history[1].status == "Shipped";
    assert s.history[1].notes == OrderRoutes.EditNote("Shipped", "");
  }

  /** Listing by owner and a lower-case search finds the one order; deleting it twice succeeds, then reports not-found. */
  method ListThenDeleteTwice(store: OrderStore, s: Order)
    requires store.Valid() && store.orders == map[s.id := s]
    requires s.serialNumber == "SN-1" && s.owner == "alice"
    modifies store
  {
    var listed := OrderRoutes.List(store, "alice", "sn-");
    assert EqualIgnoringCaseAt(s.serialNumber, "sn-", 0);
    assert OrderRoutes.Listed(store.orders[s.id], "alice", "sn-");
    assert s in listed;
    assert forall k :: 0 <= k < |listed| ==> listed[k] == s;
    assert |listed| == 1 by {
      assert |listed| >= 1;
      assert |listed| < 2 || listed[0].createdAt > listed[1].createdAt;
    }
    assert listed == [s];

    var gone := store.DeleteById(s.id);
    assert gone.Ok?;
    var missing := store.DeleteById(s.id);
    assert missing == NotFound;
  }
}
