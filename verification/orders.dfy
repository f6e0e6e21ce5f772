/**
 * The order record of the order tracker and the pure rules shared by both
 * request handlers: the schema's required fields, serial-number uniqueness,
 * the seeded record of a new order, and the owner / serial-number filter
 * used by listing.
 *
 * Request fields are strings; the empty string stands for a field that is
 * absent or falsy in the request body or query.
 */
module Orders {
  import opened Wrappers

  /** One entry of an order's append-only status history. */
  datatype HistoryEntry = HistoryEntry(status: string, timestamp: nat, notes: string)

  /** A stored order; `id` is the key under which the store holds it. */
  datatype Order = Order(
    id: nat,
    serialNumber: string,
    owner: string,
    orderDate: string,
    deliveryStatus: string,
    createdAt: nat,
    updatedAt: nat,
    history: seq<HistoryEntry>)

  /** The body of an update request. */
  datatype Patch = Patch(
    serialNumber: string,
    owner: string,
    orderDate: string,
    deliveryStatus: string,
    notes: string)

  /** What a handler reports: the saved (or deleted) order, or why it refused. */
  datatype Outcome = Ok(order: Order) | Invalid | Duplicate | NotFound

  /** A listing query: an exact owner and a case-insensitive serial-number search. */
  datatype Filter = Filter(owner: Option<string>, search: Option<string>)

  const InitialStatus: string := "Pending"

  /** JavaScript's `a || b` on strings: `a` unless it is empty. */
  function Or(a: string, b: string): (r: string)
    ensures a != "" ==> r == a
    ensures a == "" ==> r == b
  {
    if a != "" then a else b
  }

  /** The schema's `required` validators: every required string is non-empty. */
  predicate Required(o: Order)
    ensures Required(o) ==> o.deliveryStatus != "" && forall e :: e in o.history ==> e.status != ""
  {
    o.serialNumber != "" && o.owner != "" && o.orderDate != "" && o.deliveryStatus != "" &&
    forall i | 0 <= i < |o.history| :: o.history[i].status != ""
  }

  /** The history is non-empty and its last entry records the current status. */
  predicate StatusRecorded(o: Order)
  {
    |o.history| > 0 && o.history[|o.history| - 1].status == o.deliveryStatus
  }

  /** What holds of every stored order at logical time `clock`. */
  ghost predicate WellFormed(o: Order, clock: nat)
  {
    Required(o) && StatusRecorded(o) && o.createdAt <= o.updatedAt <= clock
  }

  /** Some stored order carries `serial`. */
  ghost predicate HeldBy(m: map<nat, Order>, serial: string)
  {
    exists k :: k in m && m[k].serialNumber == serial
  }

  /** Some stored order other than `id` carries `serial`. */
  ghost predicate HeldByOther(m: map<nat, Order>, serial: string, id: nat)
  {
    exists k :: k in m && k != id && m[k].serialNumber == serial
  }

  /** No two stored orders share a serial number. */
  ghost predicate SerialsUnique(m: map<nat, Order>)
  {
    forall a, b :: a in m && b in m && m[a].serialNumber == m[b].serialNumber ==> a == b
  }

  /**
   * What holds of the stored collection at logical time `clock` with `nextId`
   * the next fresh id: keys are ids below `nextId`, every order is well formed,
   * serial numbers are unique, and later ids were created later.
   */
  ghost predicate StoreInvariant(m: map<nat, Order>, nextId: nat, clock: nat)
  {
    (forall id :: id in m ==> id < nextId && m[id].id == id && WellFormed(m[id], clock)) &&
    SerialsUnique(m) &&
    (forall a, b :: a in m && b in m && a < b ==> m[a].createdAt < m[b].createdAt)
  }

  /** Replacing an order by a well-formed one that keeps its id, creation time and uniqueness keeps the invariant. */
  lemma ReplaceKeepsInvariant(m: map<nat, Order>, nextId: nat, clock: nat, o: Order)
    requires StoreInvariant(m, nextId, clock)
    requires o.id in m && o.createdAt == m[o.id].createdAt
    requires WellFormed(o, clock + 1) && !HeldByOther(m, o.serialNumber, o.id)
    ensures StoreInvariant(m[o.id := o], nextId, clock + 1)
  {
  }

  /** Adding an order under the next fresh id, created now with an unheld serial, keeps the invariant. */
  lemma InsertKeepsInvariant(m: map<nat, Order>, nextId: nat, clock: nat, o: Order)
    requires StoreInvariant(m, nextId, clock)
    requires o.id == nextId && o.createdAt == clock + 1
    requires WellFormed(o, clock + 1) && !HeldBy(m, o.serialNumber)
    ensures StoreInvariant(m[o.id := o], nextId + 1, clock + 1)
  {
  }

  /** Removing an order keeps the invariant. */
  lemma RemoveKeepsInvariant(m: map<nat, Order>, nextId: nat, clock: nat, id: nat)
    requires StoreInvariant(m, nextId, clock)
    ensures StoreInvariant(m - {id}, nextId, clock)
  {
  }

  /**
   * The record a create request builds: status "Pending" and a one-entry
   * history, created and updated at `now`.
   */
  function Created(id: nat, serialNumber: string, owner: string, orderDate: string, now: nat, note: string): (o: Order)
    ensures o.id == id && o.serialNumber == serialNumber && o.owner == owner && o.orderDate == orderDate
    ensures o.deliveryStatus == InitialStatus && o.createdAt == now && o.updatedAt == now
    ensures |o.history| == 1 && o.history[0] == HistoryEntry(InitialStatus, now, note)
    ensures StatusRecorded(o)
    ensures Required(o) <==> serialNumber != "" && owner != "" && orderDate != ""
  {
    Order(id, serialNumber, owner, orderDate, InitialStatus, now, now, [HistoryEntry(InitialStatus, now, note)])
  }

  // ---------------------------------------------------------------------
  // Case-insensitive serial-number search
  // ---------------------------------------------------------------------

  function LowerChar(c: char): (r: char)
    ensures !('A' <= r <= 'Z')
    ensures 'A' <= c <= 'Z' ==> r as int == c as int + 32
    ensures !('A' <= c <= 'Z') ==> r == c
  {
    if 'A' <= c <= 'Z' then (c as int + 32) as char else c
  }

  /**
   * ASCII lower-casing: the result has no upper-case letter, each upper-case
   * letter becomes its lower-case partner, and every other character stays.
   */
  function Lower(s: string): (r: string)
    ensures |r| == |s|
    ensures forall i :: 0 <= i < |r| ==> !('A' <= r[i] <= 'Z')
    ensures forall i :: 0 <= i < |s| && 'A' <= s[i] <= 'Z' ==> r[i] as int == s[i] as int + 32
    ensures forall i :: 0 <= i < |s| && !('A' <= s[i] <= 'Z') ==> r[i] == s[i]
  {
    seq(|s|, i requires 0 <= i < |s| => LowerChar(s[i]))
  }

  /** `t` occurs in `s` starting at position `i`. */
  ghost predicate OccursAt(s: string, t: string, i: nat)
  {
    i + |t| <= |s| && s[i..i + |t|] == t
  }

  /** Substring search: `t` is a prefix of `s` or of one of its suffixes. */
  function HasSubstring(s: string, t: string): bool
    ensures t == "" ==> HasSubstring(s, t)
    ensures HasSubstring(s, t) ==> |t| <= |s|
    decreases |s|
  {
    t <= s || (s != [] && HasSubstring(s[1..], t))
  }

  lemma {:induction false} HasSubstringIff(s: string, t: string)
    ensures HasSubstring(s, t) <==> exists i: nat :: OccursAt(s, t, i)
    decreases |s|
  {
    if t <= s {
      assert OccursAt(s, t, 0);
    } else if s == [] {
      forall i: nat | OccursAt(s, t, i) ensures false {
      }
    } else {
      HasSubstringIff(s[1..], t);
      forall i: nat | 0 < i && OccursAt(s, t, i) ensures OccursAt(s[1..], t, i - 1) {
        assert s[1..][i - 1..i - 1 + |t|] == s[i..i + |t|];
      }
      forall j: nat | OccursAt(s[1..], t, j) ensures OccursAt(s, t, j + 1) {
        assert s[1..][j..j + |t|] == s[j + 1..j + 1 + |t|];
      }
    }
  }

  /** The search semantics: some window of `s` equals `t` up to letter case. */
  ghost predicate ContainsIgnoringCase(s: string, t: string)
  {
    exists i: nat :: EqualIgnoringCaseAt(s, t, i)
  }

  /** The window of `s` at position `i` equals `t` up to letter case. */
  ghost predicate EqualIgnoringCaseAt(s: string, t: string, i: nat)
  {
    i + |t| <= |s| && Lower(s[i..i + |t|]) == Lower(t)
  }

  lemma LowerSlice(s: string, i: nat, j: nat)
    requires i <= j <= |s|
    ensures Lower(s)[i..j] == Lower(s[i..j])
  {
  }

  /** Lower-casing both sides and searching implements case-insensitive containment. */
  lemma SearchIgnoresCase(s: string, t: string)
    ensures HasSubstring(Lower(s), Lower(t)) <==> ContainsIgnoringCase(s, t)
  {
    HasSubstringIff(Lower(s), Lower(t));
    forall i: nat | i + |t| <= |s|
      ensures OccursAt(Lower(s), Lower(t), i) <==> EqualIgnoringCaseAt(s, t, i)
    {
      LowerSlice(s, i, i + |t|);
    }
  }

  /** Whether a stored order satisfies a listing query. */
  predicate Matches(o: Order, f: Filter)
    ensures f == Filter(None, None) ==> Matches(o, f)
    ensures Matches(o, f) && f.owner.Some? ==> o.owner == f.owner.value
  {
    (f.owner.None? || o.owner == f.owner.value) &&
    (f.search.None? || HasSubstring(Lower(o.serialNumber), Lower(f.search.value)))
  }

  /** The query's meaning, stated with the search semantics rather than the search procedure. */
  lemma MatchesIff(o: Order, f: Filter)
    ensures Matches(o, f) <==>
      (f.owner.None? || o.owner == f.owner.value) &&
      (f.search.None? || ContainsIgnoringCase(o.serialNumber, f.search.value))
  {
    if f.search.Some? {
      SearchIgnoresCase(o.serialNumber, f.search.value);
    }
  }
}
