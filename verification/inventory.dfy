/** The per-product ledger of Inventory.h: shelf locations that hold the
    product (`stored`) and those claimed by orders (`reserved`). */
module Inventory {
  import opened Storage

  datatype Inventory = Inventory(id: int, stored: seq<ShelfLocation>, reserved: seq<ShelfLocation>)

  function Create(productId: int): (inv: Inventory)
    ensures inv.id == productId && inv.stored == [] && inv.reserved == []
  {
    Inventory(productId, [], [])
  }

  /** Every location the ledger knows about, on either side. */
  function Locations(inv: Inventory): multiset<ShelfLocation>
  {
    multiset(inv.stored) + multiset(inv.reserved)
  }

  /** `store(location)`. */
  function Store(inv: Inventory, l: ShelfLocation): (r: Inventory)
    ensures r.stored == inv.stored + [l]
    ensures r.reserved == inv.reserved && r.id == inv.id
    ensures Locations(r) == Locations(inv) + multiset{l}
  {
    inv.(stored := inv.stored + [l])
  }

  /** `store(locations)`: appends the whole vector, in order. */
  function StoreAll(inv: Inventory, ls: seq<ShelfLocation>): (r: Inventory)
    ensures r.stored == inv.stored + ls
    ensures r.reserved == inv.reserved && r.id == inv.id
    ensures Locations(r) == Locations(inv) + multiset(ls)
  {
    inv.(stored := inv.stored + ls)
  }

  /** Storing a vector is storing its elements one after another. */
  lemma {:induction false} StoreAllIsRepeatedStore(inv: Inventory, ls: seq<ShelfLocation>)
    ensures StoreAll(inv, ls) == StoreEach(inv, ls)
    decreases |ls|
  {
    if |ls| > 0 {
      StoreAllIsRepeatedStore(Store(inv, ls[0]), ls[1..]);
      StoreFirst(inv, ls);
    } else {
      assert inv.stored + ls == inv.stored;
    }
  }

  /** Storing the first element, then the rest, stores the whole vector. */
  lemma StoreFirst(inv: Inventory, ls: seq<ShelfLocation>)
    requires |ls| > 0
    ensures StoreAll(Store(inv, ls[0]), ls[1..]) == StoreAll(inv, ls)
  {
    assert inv.stored + [ls[0]] + ls[1..] == inv.stored + ls by {
      assert ls == [ls[0]] + ls[1..];
    }
  }

  /** Reference: one `store(location)` call per element. */
  function StoreEach(inv: Inventory, ls: seq<ShelfLocation>): Inventory
    decreases |ls|
  {
    if |ls| == 0 then inv else StoreEach(Store(inv, ls[0]), ls[1..])
  }

  /** `xs` in reverse order. */
  function Reverse<T>(xs: seq<T>): (r: seq<T>)
    ensures |r| == |xs|
    ensures forall k :: 0 <= k < |xs| ==> r[k] == xs[|xs| - 1 - k]
  {
    if |xs| == 0 then [] else Reverse(xs[1..]) + [xs[0]]
  }

  lemma ReverseMultiset<T>(xs: seq<T>)
    ensures multiset(Reverse(xs)) == multiset(xs)
  {
    if |xs| > 0 {
      ReverseMultiset(xs[1..]);
      assert xs == [xs[0]] + xs[1..];
    }
  }

  /** `reserve(quantity)`: all or nothing. The comparison `stored.size() <
      quantity` converts a negative quantity to a huge unsigned value, so a
      negative request fails too. On failure it returns 0 and changes nothing;
      on success it moves the last `quantity` locations, one `back()`/
      `pop_back()` at a time, and returns 1 (the `true` of the source), not the
      reserved count. */
  method Reserve(inv: Inventory, quantity: int) returns (count: int, r: Inventory)
    ensures count == 0 || count == 1
    ensures count == 0 <==> quantity < 0 || |inv.stored| < quantity
    ensures count == 0 ==> r == inv
    ensures count == 1 ==>
      && r.stored == inv.stored[..|inv.stored| - quantity]
      && r.reserved == inv.reserved + Reverse(inv.stored[|inv.stored| - quantity..])
      && r.id == inv.id
  {
    if quantity < 0 || |inv.stored| < quantity {
      return 0, inv;
    }
    var stored := inv.stored;
    var reserved := inv.reserved;
    var i := 0;
    while i < quantity
      invariant 0 <= i <= quantity
      invariant stored == inv.stored[..|inv.stored| - i]
      invariant reserved == inv.reserved + Reverse(inv.stored[|inv.stored| - i..])
    {
      var n := |inv.stored|;
      ghost var moved := inv.stored[n - i..];
      assert inv.stored[n - (i + 1)..] == [inv.stored[n - 1 - i]] + moved;
      reserved := reserved + [stored[|stored| - 1]];
      stored := stored[..|stored| - 1];
      i := i + 1;
    }
    return 1, Inventory(inv.id, stored, reserved);
  }

  /** A reservation never creates or loses a location: it only moves them
      from `stored` to `reserved`, so the total count is preserved. */
  lemma ReserveConserves(inv: Inventory, quantity: int, r: Inventory)
    requires 0 <= quantity <= |inv.stored|
    requires r.stored == inv.stored[..|inv.stored| - quantity]
    requires r.reserved == inv.reserved + Reverse(inv.stored[|inv.stored| - quantity..])
    ensures Locations(r) == Locations(inv)
    ensures |r.stored| + |r.reserved| == |inv.stored| + |inv.reserved|
    ensures |r.reserved| == |inv.reserved| + quantity
  {
    var n := |inv.stored|;
    var kept, moved := inv.stored[..n - quantity], inv.stored[n - quantity..];
    assert inv.stored == kept + moved;
    assert multiset(inv.stored) == multiset(kept) + multiset(moved);
    ReverseMultiset(moved);
    assert multiset(r.reserved) == multiset(inv.reserved) + multiset(moved);
  }

  /** `aquire`: both vectors must be non-empty (`back()`/`pop_back()` on an
      empty vector is undefined). It returns the last reserved location but
      removes the last STORED one, so `reserved` never shrinks. */
  function Acquire(inv: Inventory): (r: (ShelfLocation, Inventory))
    requires |inv.reserved| > 0 && |inv.stored| > 0
    ensures r.0 == inv.reserved[|inv.reserved| - 1]
    ensures r.1.stored == inv.stored[..|inv.stored| - 1]
    ensures r.1.reserved == inv.reserved && r.1.id == inv.id
    ensures |r.1.stored| + 1 == |inv.stored|
  {
    (inv.reserved[|inv.reserved| - 1], inv.(stored := inv.stored[..|inv.stored| - 1]))
  }

  function NumReserved(inv: Inventory): nat
  {
    |inv.reserved|
  }

  function NumStored(inv: Inventory): nat
  {
    |inv.stored|
  }

  /** Two acquisitions in a row hand out the same location: the reserved list
      is never consumed. */
  lemma AcquireRepeatsLocation(inv: Inventory)
    requires |inv.reserved| > 0 && |inv.stored| > 1
    ensures var (a, inv1) := Acquire(inv);
      var (b, inv2) := Acquire(inv1);
      a == b && NumReserved(inv2) == NumReserved(inv) && NumStored(inv2) + 2 == NumStored(inv)
  {
  }
}
