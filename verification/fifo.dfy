/** The bounded ring-buffer fifo of thread/fifo.h and process/fifo.h.

    Two semaphores guard the buffer: `psem` counts free slots, `csem` counts
    items a consumer may take. A producer takes a `psem` token, writes at
    `pidx` and gives a `csem` token; a consumer does the reverse at `cidx`.
    Each operation below is one atomic step of that protocol; a blocking
    wait becomes a precondition and a timed wait takes whether its deadline
    passed. */
module Fifo {
  import S = Semaphore
  import opened Wrappers

  /** Slots a fifo has when its constructor is given no size. */
  const DefaultSize: nat := 1024

  datatype Fifo<T> = Fifo(data: seq<T>, pidx: nat, cidx: nat, size: nat, psem: S.Sem, csem: S.Sem)

  /** `k` reduced into `[0, size)` when it is below `2 * size`; the ring
      never needs more than one wrap. */
  function Wrap(k: nat, size: nat): nat
  {
    if k >= size then k - size else k
  }

  /** Items held: every slot a producer took and no consumer gave back. */
  function Count<T>(f: Fifo<T>): nat
  {
    if f.psem.count <= f.size then f.size - f.psem.count else 0
  }

  /** Indices stay inside the buffer, the producer index is `Count` slots
      after the consumer index, and consumer tokens never exceed items. */
  predicate Valid<T>(f: Fifo<T>)
  {
    && |f.data| == f.size
    && f.psem.count + f.csem.count <= f.size
    && (f.size == 0 ==> f.pidx == 0 && f.cidx == 0)
    && (f.size > 0 ==> f.pidx < f.size && f.cidx < f.size && f.pidx == Wrap(f.cidx + Count(f), f.size))
  }

  /** Every item carries a consumer token: what the protocol keeps when no
      token is lost. */
  predicate Faithful<T>(f: Fifo<T>)
  {
    f.csem.count == Count(f)
  }

  /** The items in the order they will be popped. */
  function Contents<T>(f: Fifo<T>): (r: seq<T>)
    requires Valid(f)
    ensures |r| == Count(f)
  {
    seq(Count(f), i requires 0 <= i < Count(f) => f.data[Wrap(f.cidx + i, f.size)])
  }

  /** The constructor: `size` free slots, nothing to consume. Slots start
      out holding `fill` (the source default-constructs them). */
  function Create<T>(size: nat, fill: T): (f: Fifo<T>)
    ensures Valid(f) && Faithful(f) && Contents(f) == [] && f.size == size
  {
    Fifo(seq(size, _ => fill), 0, 0, size, S.Create(size), S.Create(0))
  }

  /** The process fifo's constructor: the shared block is initialised only
      when no process has marked it; otherwise the existing fifo, whatever
      its size, is used as is. */
  function Attach<T>(existing: Option<Fifo<T>>, size: nat, fill: T): (f: Fifo<T>)
    ensures existing.None? ==> Valid(f) && Faithful(f) && Contents(f) == [] && f.size == size
    ensures existing.Some? ==> f == existing.value
  {
    match existing
    case None => Create(size, fill)
    case Some(g) => g
  }

  /** Writing at the producer index never disturbs the items already held. */
  function PushItem<T>(f: Fifo<T>, v: T): (r: Fifo<T>)
    requires Valid(f) && Count(f) < f.size
    ensures r.psem == f.psem && r.csem == f.csem && r.cidx == f.cidx && r.size == f.size
    ensures |r.data| == f.size
    ensures r.pidx == Wrap(f.cidx + Count(f) + 1, f.size)
    ensures forall i :: 0 <= i < Count(f) ==> r.data[Wrap(f.cidx + i, f.size)] == Contents(f)[i]
    ensures r.data[Wrap(f.cidx + Count(f), f.size)] == v
  {
    var p := if f.pidx + 1 == f.size then 0 else f.pidx + 1;
    f.(data := f.data[f.pidx := v], pidx := p)
  }

  /** `push`: waits for a free slot, stores `v` after every held item and
      hands consumers one more token. */
  function Push<T>(f: Fifo<T>, v: T): (r: Fifo<T>)
    requires Valid(f) && f.psem.count > 0
    ensures Valid(r) && Contents(r) == Contents(f) + [v]
    ensures r.psem.count + 1 == f.psem.count && r.csem.count == f.csem.count + 1
    ensures r.size == f.size
    ensures Faithful(f) ==> Faithful(r)
  {
    var g := PushItem(f, v);
    var r := g.(psem := S.Wait(g.psem), csem := S.Notify(g.csem));
    assert Count(r) == Count(f) + 1;
    assert forall i :: 0 <= i < Count(r) ==> Contents(r)[i] == (Contents(f) + [v])[i];
    r
  }

  /** `try_push`: pushes only when a slot is free right now. */
  function TryPush<T>(f: Fifo<T>, v: T): (r: (bool, Fifo<T>))
    requires Valid(f)
    ensures r.0 <==> f.psem.count > 0
    ensures r.0 ==> r.1 == Push(f, v)
    ensures !r.0 ==> r.1 == f
  {
    if f.psem.count > 0 then (true, Push(f, v)) else (false, f)
  }

  /** `try_push_for` / `try_push_until`: a free slot is taken at once,
      otherwise the call fails when the deadline passes. */
  function TryPushUntil<T>(f: Fifo<T>, v: T, timedOut: bool): (r: (bool, Fifo<T>))
    requires Valid(f) && (f.psem.count > 0 || timedOut)
    ensures r.0 <==> f.psem.count > 0
    ensures Valid(r.1)
    ensures r.0 ==> Contents(r.1) == Contents(f) + [v]
    ensures !r.0 ==> r.1 == f
  {
    var (ok, p) := S.WaitUntil(f.psem, timedOut);
    if ok then (true, Push(f, v)) else (false, f)
  }

  /** Reading and advancing the consumer index. */
  function PopItem<T>(f: Fifo<T>): (r: (T, Fifo<T>))
    requires Valid(f) && Count(f) > 0
    ensures r.0 == Contents(f)[0]
    ensures r.1 == f.(cidx := Wrap(f.cidx + 1, f.size))
  {
    var c := if f.cidx + 1 == f.size then 0 else f.cidx + 1;
    assert Contents(f)[0] == f.data[Wrap(f.cidx, f.size)] == f.data[f.cidx];
    (f.data[f.cidx], f.(cidx := c))
  }

  /** `pop`: waits for an item, removes the oldest one and hands producers
      one more slot. A null `out` only discards the value, so the returned
      value is always defined. */
  function Pop<T>(f: Fifo<T>): (r: (T, Fifo<T>))
    requires Valid(f) && f.csem.count > 0
    ensures Valid(r.1) && [r.0] + Contents(r.1) == Contents(f)
    ensures r.1.psem.count == f.psem.count + 1 && r.1.csem.count + 1 == f.csem.count
    ensures r.1.size == f.size
    ensures Faithful(f) ==> Faithful(r.1)
  {
    var (v, g) := PopItem(f);
    var r := g.(psem := S.Notify(g.psem), csem := S.Wait(g.csem));
    assert Count(r) + 1 == Count(f);
    forall i | 0 <= i < Count(r)
      ensures Contents(r)[i] == Contents(f)[i + 1]
    {
      assert Contents(r)[i] == r.data[Wrap(r.cidx + i, r.size)];
      assert Contents(f)[i + 1] == f.data[Wrap(f.cidx + i + 1, f.size)];
    }
    assert [v] + Contents(r) == Contents(f);
    (v, r)
  }

  /** `try_pop`: pops only when an item is available right now. */
  function TryPop<T>(f: Fifo<T>): (r: (bool, Option<T>, Fifo<T>))
    requires Valid(f)
    ensures r.0 <==> f.csem.count > 0
    ensures r.0 ==> r.1 == Some(Pop(f).0) && r.2 == Pop(f).1
    ensures !r.0 ==> r.1 == None && r.2 == f
  {
    if f.csem.count > 0 then (true, Some(Pop(f).0), Pop(f).1) else (false, None, f)
  }

  /** `try_pop_for` / `try_pop_until`. */
  function TryPopUntil<T>(f: Fifo<T>, timedOut: bool): (r: (bool, Option<T>, Fifo<T>))
    requires Valid(f) && (f.csem.count > 0 || timedOut)
    ensures r.0 <==> f.csem.count > 0
    ensures Valid(r.2)
    ensures r.0 ==> r.1.Some? && [r.1.value] + Contents(r.2) == Contents(f)
    ensures !r.0 ==> r.1 == None && r.2 == f
  {
    var (ok, c) := S.WaitUntil(f.csem, timedOut);
    if ok then (true, Some(Pop(f).0), Pop(f).1) else (false, None, f)
  }

  /** `peek` as written: waits on `csem` and reads the oldest item, but never
      gives the token back, so the item stays in the buffer while one fewer
      consumer may take it. */
  function PeekAsWritten<T>(f: Fifo<T>): (r: (T, Fifo<T>))
    requires Valid(f) && f.csem.count > 0
    ensures Valid(r.1) && r.0 == Contents(f)[0] && Contents(r.1) == Contents(f)
    ensures r.1.csem.count + 1 == f.csem.count
  {
    var r := f.(csem := S.Wait(f.csem));
    assert Contents(f)[0] == f.data[Wrap(f.cidx, f.size)] == f.data[f.cidx];
    assert Contents(r) == Contents(f);
    (f.data[f.cidx], r)
  }

  /** `try_peek` / `try_peek_until` as written. */
  function TryPeekUntilAsWritten<T>(f: Fifo<T>, timedOut: bool): (r: (bool, Option<T>, Fifo<T>))
    requires Valid(f) && (f.csem.count > 0 || timedOut)
    ensures r.0 <==> f.csem.count > 0
    ensures Valid(r.2)
    ensures r.0 ==> r.1 == Some(Contents(f)[0]) && Contents(r.2) == Contents(f)
    ensures !r.0 ==> r.1 == None && r.2 == f
  {
    var (ok, c) := S.WaitUntil(f.csem, timedOut);
    if ok then (true, Some(PeekAsWritten(f).0), PeekAsWritten(f).1) else (false, None, f)
  }

  /** `peek` as intended: the token taken to look is returned, so a peek
      leaves the fifo exactly as it was. */
  function Peek<T>(f: Fifo<T>): (r: (T, Fifo<T>))
    requires Valid(f) && f.csem.count > 0
    ensures r.0 == Contents(f)[0] && r.1 == f
  {
    var g := f.(csem := S.Wait(f.csem));
    assert Contents(f)[0] == f.data[Wrap(f.cidx, f.size)] == f.data[f.cidx];
    (g.data[g.cidx], g.(csem := S.Notify(g.csem)))
  }

  /** `try_peek` / `try_peek_until` as intended. */
  function TryPeekUntil<T>(f: Fifo<T>, timedOut: bool): (r: (bool, Option<T>, Fifo<T>))
    requires Valid(f) && (f.csem.count > 0 || timedOut)
    ensures r.0 <==> f.csem.count > 0
    ensures r.0 ==> r.1 == Some(Contents(f)[0])
    ensures r.2 == f
  {
    var (ok, c) := S.WaitUntil(f.csem, timedOut);
    if ok then (true, Some(Peek(f).0), f) else (false, None, f)
  }

  /** The non-blocking `try_` calls are the timed ones whose deadline has
      already passed. */
  lemma TryIsExpiredTimedTry<T>(f: Fifo<T>, v: T)
    requires Valid(f)
    ensures TryPushUntil(f, v, true) == TryPush(f, v)
    ensures TryPopUntil(f, true) == TryPop(f)
  {
  }

  /** After a push and a peek, the pushed item cannot be popped without
      blocking: the peek kept its token. */
  lemma PeekLeaksToken()
    ensures var f := Push(Create(1, 0), 7);
      && Contents(f) == [7]
      && var g := PeekAsWritten(f).1;
      && Contents(g) == [7] && !TryPop(g).0
  {
    var e := Create(1, 0);
    assert e.csem.count == 0 && Contents(e) == [];
    var f := Push(e, 7);
    assert f.csem.count == 1 && Contents(f) == [7];
    var g := PeekAsWritten(f).1;
    assert g.csem.count == 0 && Contents(g) == [7];
  }

  /** With the token returned, the peeked item is the one a pop gets next. */
  lemma PeekThenPop<T>(f: Fifo<T>)
    requires Valid(f) && f.csem.count > 0
    ensures TryPop(Peek(f).1).0 && TryPop(Peek(f).1).1 == Some(Peek(f).0)
  {
  }

  /** `size` as written: the distance from consumer to producer index, which
      is 0 both when the fifo is empty and when it is full. */
  function SizeAsWritten<T>(f: Fifo<T>): (r: nat)
    requires Valid(f)
    ensures r == if Count(f) == f.size then 0 else Count(f)
  {
    if f.pidx < f.cidx then f.size - f.cidx + f.pidx else f.pidx - f.cidx
  }

  /** `empty` as written: equal indices, which holds when full too. */
  function EmptyAsWritten<T>(f: Fifo<T>): (r: bool)
    requires Valid(f)
    ensures r <==> Count(f) == 0 || Count(f) == f.size
  {
    f.pidx == f.cidx
  }

  /** `size` as intended: the number of items held, taken from the
      producer semaphore rather than from the indices alone. */
  function Size<T>(f: Fifo<T>): (r: nat)
    requires Valid(f)
    ensures r == |Contents(f)|
    ensures f.size > 0 ==> r == if f.pidx == f.cidx && f.psem.count == 0 then f.size else SizeAsWritten(f)
  {
    f.size - f.psem.count
  }

  /** `empty` as intended. */
  function Empty<T>(f: Fifo<T>): (r: bool)
    requires Valid(f)
    ensures r <==> Contents(f) == []
  {
    f.psem.count == f.size
  }

  /** A one-slot fifo holding one item reports size 0 and empty. */
  lemma FullFifoLooksEmpty()
    ensures var f := Push(Create(1, 0), 7);
      && Contents(f) == [7]
      && SizeAsWritten(f) == 0 && EmptyAsWritten(f)
      && Size(f) == 1 && !Empty(f)
  {
    var e := Create(1, 0);
    assert Contents(e) == [] && e.psem.count == 1 && e.size == 1;
    var f := Push(e, 7);
    assert Contents(f) == [7] && Count(f) == 1 && f.size == 1;
  }

  // ---------------------------------------------------------------------
  // FIFO order
  // ---------------------------------------------------------------------

  /** Pushes `xs` one after the other. */
  function PushAll<T>(f: Fifo<T>, xs: seq<T>): (r: Fifo<T>)
    requires Valid(f) && |xs| <= f.psem.count
    ensures Valid(r) && r.size == f.size
    decreases |xs|
  {
    if |xs| == 0 then f else PushAll(Push(f, xs[0]), xs[1..])
  }

  /** Pops `n` items, returning them in the order they came out. */
  function PopN<T>(f: Fifo<T>, n: nat): (r: (seq<T>, Fifo<T>))
    requires Valid(f) && n <= f.csem.count
    ensures Valid(r.1) && |r.0| == n
    ensures Faithful(f) ==> Faithful(r.1)
    decreases n
  {
    if n == 0 then ([], f)
    else
      var p := Pop(f);
      var q := PopN(p.1, n - 1);
      ([p.0] + q.0, q.1)
  }

  lemma {:induction false} PushAllContents<T>(f: Fifo<T>, xs: seq<T>)
    requires Valid(f) && |xs| <= f.psem.count
    ensures Contents(PushAll(f, xs)) == Contents(f) + xs
    ensures PushAll(f, xs).csem.count == f.csem.count + |xs|
    ensures Faithful(f) ==> Faithful(PushAll(f, xs))
    decreases |xs|
  {
    if |xs| > 0 {
      var g := Push(f, xs[0]);
      assert g.psem.count + 1 == f.psem.count;
      PushAllContents(g, xs[1..]);
      assert Contents(f) + [xs[0]] + xs[1..] == Contents(f) + xs;
    }
  }

  lemma {:induction false} PopNContents<T>(f: Fifo<T>, n: nat)
    requires Valid(f) && n <= f.csem.count
    ensures PopN(f, n).0 + Contents(PopN(f, n).1) == Contents(f)
    decreases n
  {
    if n > 0 {
      var p := Pop(f);
      var q := PopN(p.1, n - 1);
      PopNContents(p.1, n - 1);
      Assoc([p.0], q.0, Contents(q.1));
    }
  }

  lemma Assoc<T>(a: seq<T>, b: seq<T>, c: seq<T>)
    ensures a + b + c == a + (b + c)
  {
  }

  /** First in, first out: popping everything pushed into an empty fifo
      returns the items in the order they were pushed. */
  lemma PushThenPopAll<T>(size: nat, fill: T, xs: seq<T>)
    requires |xs| <= size
    ensures var f := PushAll(Create(size, fill), xs);
      |xs| <= f.csem.count && PopN(f, |xs|).0 == xs && Contents(PopN(f, |xs|).1) == []
  {
    var e := Create(size, fill);
    PushAllContents(e, xs);
    var f := PushAll(e, xs);
    assert Contents(f) == xs;
    PopNContents(f, |xs|);
    var (ys, g) := PopN(f, |xs|);
    assert |ys| == |xs| && ys + Contents(g) == xs;
    assert ys == xs;
  }
}
