/** The order pipeline of warehouse.h: reserving an order's lines
    (`VerifyOrder`), turning a verified order into a collection task
    (`AddOrder`) and stocking the inventories at start-up
    (`InitInventories`). */
module Warehouse {
  import opened Storage
  import I = Inventory

  /** Shelves stored into every inventory at start-up. */
  const NumProductsInit: nat := 20

  datatype OrderStatus = PendingVerification | ReadyForCollection | CollectionComplete | OutForDelivery | Unknown
  datatype RobotTask = CollectAndLoad | Unload | Idle

  /** One product line of an order: which product, how many, and the shelf
      it is picked from once the order is added. */
  datatype OrderLine = OrderLine(productId: int, quantity: int, location: ShelfLocation)

  datatype Order = Order(id: int, task: RobotTask, status: OrderStatus, lines: seq<OrderLine>)

  // ---------------------------------------------------------------------
  // VerifyOrder
  // ---------------------------------------------------------------------

  /** The calls `VerifyOrder` makes on the inventories. `Reserve` and
      `UnReserve` are not part of this model (Inventory.h does not define
      them); a reserve call records the count it returned (`granted`). */
  datatype Call =
    | ReserveCall(productId: int, quantity: int, granted: int)
    | UnReserveCall(productId: int, quantity: int)

  /** The first line whose `Reserve` did not return its quantity, or
      `|lines|` when every line was granted in full. */
  function FirstShort(lines: seq<OrderLine>, granted: seq<int>, from: nat): (k: nat)
    requires |granted| == |lines| && from <= |lines|
    ensures from <= k <= |lines|
    ensures forall i :: from <= i < k ==> granted[i] == lines[i].quantity
    ensures k < |lines| ==> granted[k] != lines[k].quantity
    decreases |lines| - from
  {
    if from == |lines| then from
    else if granted[from] != lines[from].quantity then from
    else FirstShort(lines, granted, from + 1)
  }

  /** Reserve calls for the first `n` lines, in order. */
  function ReserveCalls(lines: seq<OrderLine>, granted: seq<int>, n: nat): (r: seq<Call>)
    requires |granted| == |lines| && n <= |lines|
    ensures |r| == n
  {
    seq(n, i requires 0 <= i < n => ReserveCall(lines[i].productId, lines[i].quantity, granted[i]))
  }

  /** The rollback the source performs after line `k` failed: one UnReserve
      per earlier line, in order, each with line `k`'s quantity. */
  function RollbackAsWritten(lines: seq<OrderLine>, k: nat): (r: seq<Call>)
    requires k < |lines|
    ensures |r| == k
  {
    seq(k, j requires 0 <= j < k => UnReserveCall(lines[j].productId, lines[k].quantity))
  }

  /** The rollback the design asks for: each earlier line gives back its own
      quantity. */
  function RollbackIntended(lines: seq<OrderLine>, k: nat): (r: seq<Call>)
    requires k < |lines|
    ensures |r| == k
  {
    seq(k, j requires 0 <= j < k => UnReserveCall(lines[j].productId, lines[j].quantity))
  }

  /** `VerifyOrder` as written. `granted[i]` is what the `Reserve` call for
      line `i` returns (entries after the first failure are never used). */
  method VerifyOrderAsWritten(lines: seq<OrderLine>, granted: seq<int>) returns (ok: bool, calls: seq<Call>)
    requires |granted| == |lines|
    ensures ok <==> forall i :: 0 <= i < |lines| ==> granted[i] == lines[i].quantity
    ensures ok ==> calls == ReserveCalls(lines, granted, |lines|)
    ensures !ok ==>
      var k := FirstShort(lines, granted, 0);
      calls == ReserveCalls(lines, granted, k + 1) + RollbackAsWritten(lines, k)
  {
    calls := [];
    var reserved: seq<OrderLine> := [];
    var i := 0;
    while i < |lines|
      invariant 0 <= i <= |lines|
      invariant forall j :: 0 <= j < i ==> granted[j] == lines[j].quantity
      invariant reserved == lines[..i]
      invariant calls == ReserveCalls(lines, granted, i)
    {
      calls := calls + [ReserveCall(lines[i].productId, lines[i].quantity, granted[i])];
      if granted[i] != lines[i].quantity {
        assert FirstShort(lines, granted, 0) == i;
        var j := 0;
        while j < |reserved|
          invariant 0 <= j <= |reserved|
          invariant calls == ReserveCalls(lines, granted, i + 1) + RollbackAsWritten(lines, i)[..j]
        {
          calls := calls + [UnReserveCall(reserved[j].productId, lines[i].quantity)];
          assert RollbackAsWritten(lines, i)[..j + 1] == RollbackAsWritten(lines, i)[..j] + [RollbackAsWritten(lines, i)[j]];
          j := j + 1;
        }
        assert RollbackAsWritten(lines, i)[..j] == RollbackAsWritten(lines, i);
        return false, calls;
      }
      reserved := reserved + [lines[i]];
      assert lines[..i + 1] == lines[..i] + [lines[i]];
      i := i + 1;
    }
    return true, calls;
  }

  /** `VerifyOrder` with the rollback using each reserved line's own
      quantity. */
  method VerifyOrder(lines: seq<OrderLine>, granted: seq<int>) returns (ok: bool, calls: seq<Call>)
    requires |granted| == |lines|
    ensures ok <==> forall i :: 0 <= i < |lines| ==> granted[i] == lines[i].quantity
    ensures ok ==> calls == ReserveCalls(lines, granted, |lines|)
    ensures !ok ==>
      var k := FirstShort(lines, granted, 0);
      calls == ReserveCalls(lines, granted, k + 1) + RollbackIntended(lines, k)
  {
    calls := [];
    var reserved: seq<OrderLine> := [];
    var i := 0;
    while i < |lines|
      invariant 0 <= i <= |lines|
      invariant forall j :: 0 <= j < i ==> granted[j] == lines[j].quantity
      invariant reserved == lines[..i]
      invariant calls == ReserveCalls(lines, granted, i)
    {
      calls := calls + [ReserveCall(lines[i].productId, lines[i].quantity, granted[i])];
      if granted[i] != lines[i].quantity {
        assert FirstShort(lines, granted, 0) == i;
        var j := 0;
        while j < |reserved|
          invariant 0 <= j <= |reserved|
          invariant calls == ReserveCalls(lines, granted, i + 1) + RollbackIntended(lines, i)[..j]
        {
          calls := calls + [UnReserveCall(reserved[j].productId, reserved[j].quantity)];
          assert RollbackIntended(lines, i)[..j + 1] == RollbackIntended(lines, i)[..j] + [RollbackIntended(lines, i)[j]];
          j := j + 1;
        }
        assert RollbackIntended(lines, i)[..j] == RollbackIntended(lines, i);
        return false, calls;
      }
      reserved := reserved + [lines[i]];
      assert lines[..i + 1] == lines[..i] + [lines[i]];
      i := i + 1;
    }
    return true, calls;
  }

  /** Net change a call trace makes to product `p`'s reserved count, given
      that a reservation is all or nothing: a reserve call adds its quantity
      only when it was granted in full, an unreserve call gives its quantity
      back. */
  function Net(calls: seq<Call>, p: int): int
  {
    if |calls| == 0 then 0
    else
      var c := calls[|calls| - 1];
      Net(calls[..|calls| - 1], p) +
        (if c.productId != p then 0
         else if c.ReserveCall? then (if c.granted == c.quantity then c.quantity else 0)
         else -c.quantity)
  }

  lemma {:induction false} NetAppend(a: seq<Call>, b: seq<Call>, p: int)
    ensures Net(a + b, p) == Net(a, p) + Net(b, p)
    decreases |b|
  {
    if |b| > 0 {
      var b' := b[..|b| - 1];
      assert (a + b)[..|a + b| - 1] == a + b';
      assert (a + b)[|a + b| - 1] == b[|b| - 1];
      NetAppend(a, b', p);
    } else {
      assert a + b == a;
    }
  }

  /** Units of product `p` requested by the first `n` lines. */
  function Requested(lines: seq<OrderLine>, n: nat, p: int): int
    requires n <= |lines|
  {
    if n == 0 then 0
    else Requested(lines, n - 1, p) + (if lines[n - 1].productId == p then lines[n - 1].quantity else 0)
  }

  lemma {:induction false} NetOfGrantedReserves(lines: seq<OrderLine>, granted: seq<int>, n: nat, p: int)
    requires |granted| == |lines| && n <= |lines|
    requires forall i :: 0 <= i < n ==> granted[i] == lines[i].quantity
    ensures Net(ReserveCalls(lines, granted, n), p) == Requested(lines, n, p)
  {
    if n > 0 {
      assert ReserveCalls(lines, granted, n)[..n - 1] == ReserveCalls(lines, granted, n - 1);
      NetOfGrantedReserves(lines, granted, n - 1, p);
    }
  }

  lemma {:induction false} NetOfIntendedRollback(lines: seq<OrderLine>, k: nat, n: nat, p: int)
    requires k < |lines| && n <= k
    ensures Net(RollbackIntended(lines, k)[..n], p) == -Requested(lines, n, p)
  {
    if n > 0 {
      assert RollbackIntended(lines, k)[..n][..n - 1] == RollbackIntended(lines, k)[..n - 1];
      NetOfIntendedRollback(lines, k, n - 1, p);
    }
  }

  /** All-or-nothing verification: when line `k` fails, the corrected
      rollback leaves every product's reserved count exactly where it was
      before the call. */
  lemma RollbackIsExact(lines: seq<OrderLine>, granted: seq<int>, p: int)
    requires |granted| == |lines|
    requires FirstShort(lines, granted, 0) < |lines|
    ensures var k := FirstShort(lines, granted, 0);
      Net(ReserveCalls(lines, granted, k + 1) + RollbackIntended(lines, k), p) == 0
  {
    var k := FirstShort(lines, granted, 0);
    var rs := ReserveCalls(lines, granted, k + 1);
    NetAppend(rs, RollbackIntended(lines, k), p);
    assert rs[..k] == ReserveCalls(lines, granted, k);
    NetOfGrantedReserves(lines, granted, k, p);
    assert RollbackIntended(lines, k)[..k] == RollbackIntended(lines, k);
    NetOfIntendedRollback(lines, k, k, p);
  }

  /** The rollback as written is not exact: reserving one unit of product 1
      and then failing on two units of product 2 gives back two units of
      product 1. */
  lemma RollbackAsWrittenIsNotExact()
    ensures var lines := [OrderLine(1, 1, InvalidLocation()), OrderLine(2, 2, InvalidLocation())];
      var granted := [1, 0];
      && FirstShort(lines, granted, 0) == 1
      && Net(ReserveCalls(lines, granted, 2) + RollbackAsWritten(lines, 1), 1) == -1
  {
    var lines := [OrderLine(1, 1, InvalidLocation()), OrderLine(2, 2, InvalidLocation())];
    var granted := [1, 0];
    assert FirstShort(lines, granted, 1) == 1;
    var calls := ReserveCalls(lines, granted, 2) + RollbackAsWritten(lines, 1);
    assert calls == [ReserveCall(1, 1, 1), ReserveCall(2, 2, 0), UnReserveCall(1, 2)];
    assert calls[..2][..1] == calls[..1] && calls[..1][..0] == [];
    assert Net(calls[..1], 1) == 1;
    assert Net(calls[..2], 1) == 1;
  }

  // ---------------------------------------------------------------------
  // AddOrder
  // ---------------------------------------------------------------------

  /** Coordinator state. `inventories` is indexed by product ID, as the
      source's `Inventories_[product->ID_]` is; orders are kept in arrival
      order and by ID. */
  datatype Warehouse = Warehouse(
    storage: Storage,
    inventories: seq<I.Inventory>,
    orders: seq<Order>,
    orderById: map<int, Order>)

  /** Number of lines of `lines` for product `p`. */
  function CountLines(lines: seq<OrderLine>, p: int): nat
  {
    if |lines| == 0 then 0
    else CountLines(lines[..|lines| - 1], p) + (if lines[|lines| - 1].productId == p then 1 else 0)
  }

  /** What `AddOrder` needs of its caller: every product ID indexes an
      inventory whose `reserved` list is non-empty and whose `stored` list
      holds at least one location per line of that product (each line makes
      one `aquire` call, whatever its quantity). */
  predicate Acquirable(invs: seq<I.Inventory>, lines: seq<OrderLine>)
  {
    && (forall j :: 0 <= j < |lines| ==>
         0 <= lines[j].productId < |invs| && |invs[lines[j].productId].reserved| > 0)
    && (forall p :: 0 <= p < |invs| ==> CountLines(lines, p) <= |invs[p].stored|)
  }

  /** The last reserved location of product `p`: what every `aquire` on it
      returns. */
  function LastReserved(inv: I.Inventory): ShelfLocation
    requires |inv.reserved| > 0
  {
    inv.reserved[|inv.reserved| - 1]
  }

  /** After the `aquire` calls for the first `j` lines: each inventory has
      given up one stored location per line of its product so far, and is
      otherwise unchanged. */
  predicate AcquiredUpTo(before: seq<I.Inventory>, invs: seq<I.Inventory>, lines: seq<OrderLine>, j: nat)
    requires j <= |lines|
  {
    && |invs| == |before|
    && forall p :: 0 <= p < |invs| ==>
      && invs[p].id == before[p].id
      && invs[p].reserved == before[p].reserved
      && CountLines(lines[..j], p) <= |before[p].stored|
      && invs[p].stored == before[p].stored[..|before[p].stored| - CountLines(lines[..j], p)]
  }

  /** The location a line ends up with: the product's last reserved shelf
      when that shelf is valid, its own location otherwise. */
  function Located(invs: seq<I.Inventory>, l: OrderLine): OrderLine
    requires 0 <= l.productId < |invs| && |invs[l.productId].reserved| > 0
  {
    var R := LastReserved(invs[l.productId]);
    l.(location := if IsValid(R) then R else l.location)
  }

  /** One `aquire` call for line `j` keeps `AcquiredUpTo` and returns the
      product's last reserved shelf. */
  lemma AcquireStep(before: seq<I.Inventory>, invs: seq<I.Inventory>, lines: seq<OrderLine>, j: nat)
    requires j < |lines| && Acquirable(before, lines)
    requires AcquiredUpTo(before, invs, lines, j)
    ensures var p := lines[j].productId;
      && |invs[p].reserved| > 0 && |invs[p].stored| > 0
      && var (loc, inv') := I.Acquire(invs[p]);
      && loc == LastReserved(before[p])
      && AcquiredUpTo(before, invs[p := inv'], lines, j + 1)
  {
    var p := lines[j].productId;
    assert lines[..j + 1] == lines[..j] + [lines[j]];
    assert lines[..j + 1][..j] == lines[..j];
    CountLinesPrefix(lines, j + 1, p);
    forall q | 0 <= q < |invs|
      ensures CountLines(lines[..j + 1], q) <= |before[q].stored|
    {
      CountLinesPrefix(lines, j + 1, q);
    }
  }

  /** `AddOrder`: marks the order ready for collection, makes one `aquire`
      per line and records the returned location when it is valid, then
      appends the order and indexes it by ID. */
  method AddOrder(w: Warehouse, o: Order) returns (r: Warehouse)
    requires Acquirable(w.inventories, o.lines)
    ensures |r.orders| == |w.orders| + 1 && r.orders[..|w.orders|] == w.orders
    ensures var o' := r.orders[|w.orders|];
      && o'.id == o.id
      && o'.status == ReadyForCollection
      && o'.task == CollectAndLoad
      && |o'.lines| == |o.lines|
      && (forall j :: 0 <= j < |o.lines| ==> o'.lines[j] == Located(w.inventories, o.lines[j]))
      && r.orderById == w.orderById[o.id := o']
    ensures |r.inventories| == |w.inventories|
    ensures forall p :: 0 <= p < |w.inventories| ==>
      var inv := w.inventories[p];
      && r.inventories[p].id == inv.id
      && r.inventories[p].reserved == inv.reserved
      && r.inventories[p].stored == inv.stored[..|inv.stored| - CountLines(o.lines, p)]
    ensures r.storage == w.storage
  {
    var invs, lines := AcquireAll(w.inventories, o.lines);
    assert o.lines[..|o.lines|] == o.lines;
    var o' := Order(o.id, CollectAndLoad, ReadyForCollection, lines);
    r := Warehouse(w.storage, invs, w.orders + [o'], w.orderById[o.id := o']);
  }

  /** The loop of `AddOrder`: one `aquire` per line, in order, each line
      taking the returned location when it is valid. */
  method AcquireAll(before: seq<I.Inventory>, ls: seq<OrderLine>) returns (invs: seq<I.Inventory>, lines: seq<OrderLine>)
    requires Acquirable(before, ls)
    ensures AcquiredUpTo(before, invs, ls, |ls|)
    ensures |lines| == |ls| && forall j :: 0 <= j < |ls| ==> lines[j] == Located(before, ls[j])
  {
    invs := before;
    lines := [];
    var j := 0;
    assert ls[..0] == [];
    while j < |ls|
      invariant 0 <= j <= |ls| && |lines| == j
      invariant AcquiredUpTo(before, invs, ls, j)
      invariant forall i :: 0 <= i < j ==> lines[i] == Located(before, ls[i])
    {
      AcquireStep(before, invs, ls, j);
      var line := ls[j];
      var (loc, inv') := I.Acquire(invs[line.productId]);
      invs := invs[line.productId := inv'];
      if IsValid(loc) {
        line := line.(location := loc);
      }
      lines := lines + [line];
      j := j + 1;
    }
  }

  /** The lines of a prefix never outnumber those of the whole list, so the
      stored list has room for every `aquire` so far. */
  lemma {:induction false} CountLinesPrefix(lines: seq<OrderLine>, n: nat, p: int)
    requires n <= |lines|
    ensures CountLines(lines[..n], p) <= CountLines(lines, p)
    decreases |lines| - n
  {
    if n < |lines| {
      var m := |lines|;
      assert lines[..m - 1][..n] == lines[..n];
      CountLinesPrefix(lines[..m - 1], n, p);
      assert CountLines(lines[..m - 1], p) <= CountLines(lines, p);
    } else {
      assert lines[..n] == lines;
    }
  }

  // ---------------------------------------------------------------------
  // InitInventories
  // ---------------------------------------------------------------------

  predicate AllValid(ls: seq<ShelfLocation>)
  {
    forall k :: 0 <= k < |ls| ==> IsValid(ls[k])
  }

  /** Removing one element keeps every remaining location valid. */
  lemma GetFreeShelfKeepsValid(s: Storage, rnd: nat)
    requires AllValid(s.free)
    ensures AllValid(GetFreeShelf(s, rnd).1.free)
    ensures |s.free| > 0 ==> IsValid(GetFreeShelf(s, rnd).0)
  {
    if |s.free| > 0 {
      var k := rnd % |s.free|;
      var s2 := GetFreeShelf(s, rnd).1;
      assert forall m :: 0 <= m < |s2.free| ==> s2.free[m] == (if m < k then s.free[m] else s.free[m + 1]);
    }
  }

  /** The inner loop of `InitInventories` for one inventory: up to
      `NumProductsInit` draws, the `n`-th using `rnd(calls + n)`, stopping
      at the first invalid shelf. */
  method StockInventory(s: Storage, inv: I.Inventory, rnd: nat -> nat, calls: nat)
    returns (s': Storage, inv': I.Inventory, calls': nat)
    ensures inv'.id == inv.id && inv'.reserved == inv.reserved
    ensures |inv.stored| <= |inv'.stored| <= |inv.stored| + NumProductsInit
    ensures inv'.stored[..|inv.stored|] == inv.stored
    ensures AllValid(inv'.stored[|inv.stored|..])
    ensures AllSlots(s') == AllSlots(s)
    ensures calls <= calls'
    ensures AllValid(s.free) ==> AllValid(s'.free)
    ensures AllValid(s.free) ==> |s'.free| + (|inv'.stored| - |inv.stored|) == |s.free|
    ensures AllValid(s.free) && |s.free| >= NumProductsInit ==> |inv'.stored| == |inv.stored| + NumProductsInit
    ensures AllValid(s.free) ==> s'.occupied == s.occupied + inv'.stored[|inv.stored|..]
    ensures AllValid(s.free) ==> multiset(s'.free) + multiset(inv'.stored[|inv.stored|..]) == multiset(s.free)
  {
    s' := s;
    inv' := inv;
    calls' := calls;
    var j := 0;
    while j < NumProductsInit
      invariant 0 <= j <= NumProductsInit && calls <= calls'
      invariant inv'.id == inv.id && inv'.reserved == inv.reserved
      invariant |inv'.stored| == |inv.stored| + j
      invariant inv'.stored[..|inv.stored|] == inv.stored
      invariant AllValid(inv'.stored[|inv.stored|..])
      invariant AllSlots(s') == AllSlots(s)
      invariant AllValid(s.free) ==> AllValid(s'.free) && |s'.free| + j == |s.free|
      invariant AllValid(s.free) ==> s'.occupied == s.occupied + inv'.stored[|inv.stored|..]
    {
      var (loc, s2) := GetFreeShelf(s', rnd(calls'));
      if AllValid(s.free) {
        GetFreeShelfKeepsValid(s', rnd(calls'));
      }
      calls' := calls' + 1;
      if !IsValid(loc) {
        s' := s2;
        if AllValid(s.free) {
          TakenFromFree(s, s', inv'.stored[|inv.stored|..]);
        }
        return;
      }
      s' := s2;
      StoredGrows(inv.stored, inv'.stored, loc);
      inv' := I.Store(inv', loc);
      j := j + 1;
    }
    if AllValid(s.free) {
      TakenFromFree(s, s', inv'.stored[|inv.stored|..]);
    }
  }

  /** Shelves that moved to the end of the occupied list came out of the
      free list. */
  lemma TakenFromFree(s: Storage, s': Storage, added: seq<ShelfLocation>)
    requires AllSlots(s') == AllSlots(s) && s'.occupied == s.occupied + added
    ensures multiset(s'.free) + multiset(added) == multiset(s.free)
  {
    assert multiset(s'.occupied) == multiset(s.occupied) + multiset(added);
    forall x
      ensures (multiset(s'.free) + multiset(added))[x] == multiset(s.free)[x]
    {
      assert AllSlots(s')[x] == AllSlots(s)[x];
    }
  }

  /** Appending a valid location keeps the original prefix and the
      validity of everything stored after it. */
  lemma StoredGrows(base: seq<ShelfLocation>, cur: seq<ShelfLocation>, loc: ShelfLocation)
    requires |base| <= |cur| && cur[..|base|] == base && AllValid(cur[|base|..]) && IsValid(loc)
    ensures (cur + [loc])[..|base|] == base && AllValid((cur + [loc])[|base|..])
  {
    assert (cur + [loc])[|base|..] == cur[|base|..] + [loc];
  }

  /** The shelves the first `n` inventories of `after` hold beyond those
      of `before`, inventory by inventory. */
  function Added(before: seq<I.Inventory>, after: seq<I.Inventory>, n: nat): (r: seq<ShelfLocation>)
    requires n <= |before| == |after|
    requires forall k :: 0 <= k < n ==> |before[k].stored| <= |after[k].stored|
  {
    if n == 0 then []
    else Added(before, after, n - 1) + after[n - 1].stored[|before[n - 1].stored|..]
  }

  /** `Added` looks only at the first `n` inventories. */
  lemma {:induction false} AddedPrefix(before: seq<I.Inventory>, a: seq<I.Inventory>, b: seq<I.Inventory>, n: nat)
    requires n <= |before| == |a| == |b|
    requires forall k :: 0 <= k < n ==> |before[k].stored| <= |a[k].stored| && a[k] == b[k]
    ensures Added(before, a, n) == Added(before, b, n)
  {
    if n > 0 {
      AddedPrefix(before, a, b, n - 1);
    }
  }

  /** Updating inventory `i` extends `Added` by the shelves it gained. */
  lemma AddedStep(before: seq<I.Inventory>, prev: seq<I.Inventory>, cur: seq<I.Inventory>, i: nat)
    requires i < |before| == |prev| == |cur|
    requires forall k :: 0 <= k < i ==> |before[k].stored| <= |prev[k].stored| && prev[k] == cur[k]
    requires |before[i].stored| <= |cur[i].stored|
    ensures Added(before, cur, i + 1) == Added(before, prev, i) + cur[i].stored[|before[i].stored|..]
  {
    AddedPrefix(before, prev, cur, i);
  }

  /** `InitInventories`: each inventory in turn takes up to
      `NumProductsInit` free shelves, stopping at the first invalid one.
      `rnd(n)` is the random number behind the `n`-th `GetFreeShelf` call. */
  method InitInventories(s: Storage, invs: seq<I.Inventory>, rnd: nat -> nat) returns (s': Storage, invs': seq<I.Inventory>)
    ensures |invs'| == |invs|
    ensures forall i :: 0 <= i < |invs| ==>
      && invs'[i].id == invs[i].id
      && invs'[i].reserved == invs[i].reserved
      && |invs[i].stored| <= |invs'[i].stored| <= |invs[i].stored| + NumProductsInit
      && invs'[i].stored[..|invs[i].stored|] == invs[i].stored
      && AllValid(invs'[i].stored[|invs[i].stored|..])
    ensures AllSlots(s') == AllSlots(s)
    ensures AllValid(s.free) && |s.free| >= NumProductsInit * |invs| ==>
      forall i :: 0 <= i < |invs| ==> |invs'[i].stored| == |invs[i].stored| + NumProductsInit
    ensures AllValid(s.free) ==> s'.occupied == s.occupied + Added(invs, invs', |invs|)
    ensures AllValid(s.free) ==> multiset(s'.free) + multiset(Added(invs, invs', |invs|)) == multiset(s.free)
  {
    s' := s;
    invs' := invs;
    var calls: nat := 0;
    var i := 0;
    while i < |invs|
      invariant 0 <= i <= |invs| && |invs'| == |invs|
      invariant forall k :: 0 <= k < |invs| ==>
        && invs'[k].id == invs[k].id
        && invs'[k].reserved == invs[k].reserved
        && |invs[k].stored| <= |invs'[k].stored| <= |invs[k].stored| + NumProductsInit
        && invs'[k].stored[..|invs[k].stored|] == invs[k].stored
        && AllValid(invs'[k].stored[|invs[k].stored|..])
      invariant forall k :: i <= k < |invs| ==> invs'[k] == invs[k]
      invariant AllSlots(s') == AllSlots(s)
      invariant AllValid(s.free) ==> AllValid(s'.free)
      invariant AllValid(s.free) && |s.free| >= NumProductsInit * |invs| ==>
        && |s'.free| == |s.free| - NumProductsInit * i
        && forall k :: 0 <= k < i ==> |invs'[k].stored| == |invs[k].stored| + NumProductsInit
      invariant AllValid(s.free) ==> s'.occupied == s.occupied + Added(invs, invs', i)
    {
      if AllValid(s.free) && |s.free| >= NumProductsInit * |invs| {
        assert |s'.free| >= NumProductsInit by {
          assert NumProductsInit * |invs| >= NumProductsInit * (i + 1);
        }
      }
      var inv;
      ghost var prev := invs';
      s', inv, calls := StockInventory(s', invs'[i], rnd, calls);
      invs' := invs'[i := inv];
      AddedStep(invs, prev, invs', i);
      i := i + 1;
    }
    if AllValid(s.free) {
      TakenFromFree(s, s', Added(invs, invs', |invs|));
    }
  }
}
