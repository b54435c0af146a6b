/** The shared-memory byte pipe of process/impl/basic_pipe.h.

    `producer` counts bytes a reader may take, `consumer` counts free bytes
    a writer may fill. `close` records the write index as the end of the
    stream (`weof`, `reof`) and wakes one writer and one reader by giving
    each semaphore an extra token, which every caller that stops at the end
    of the stream hands back.

    Each call runs without interleaving. A call that must wait on a
    semaphore stops with `Blocked` and the index it got to, and is resumed
    from there once the other side has moved; `read` blocks only for its
    first byte, as the source does. */
module Pipe {
  import S = Semaphore
  import opened Wrappers

  type byte = x: int | 0 <= x < 256

  /** Bytes a pipe buffers when its constructor is given no size. */
  const DefaultSize: nat := 1024

  datatype Pipe = Pipe(
    buf: seq<byte>,
    size: nat,
    read: nat,
    write: nat,
    reof: nat,
    weof: nat,
    closed: bool,
    producer: S.Sem,
    consumer: S.Sem)

  function Wrap(k: nat, size: nat): nat
  {
    if k >= size then k - size else k
  }

  /** Index after `k`, wrapping to 0 at the end of the buffer. */
  function Next(k: nat, size: nat): nat
  {
    if k + 1 == size then 0 else k + 1
  }

  /** The buffer index `k` bytes on from `base`, for `k` up to `size`. */
  function Slot(base: nat, k: nat, size: nat): nat
  {
    Wrap(base + k, size)
  }

  /** Bytes written and not yet read: the reader tokens, less the one
      `close` added. */
  function Avail(p: Pipe): nat
  {
    if p.closed then (if p.producer.count >= 1 then p.producer.count - 1 else 0) else p.producer.count
  }

  predicate Valid(p: Pipe)
  {
    && |p.buf| == p.size
    && (p.size == 0 ==> p.read == 0 && p.write == 0)
    && (p.size > 0 ==> p.read < p.size && p.write < p.size)
    && (p.closed ==> p.producer.count >= 1 && p.consumer.count >= 1 && p.weof == p.write && p.reof == p.write)
    && (!p.closed ==> p.weof == 0 && p.reof == 0)
    && p.producer.count + p.consumer.count == p.size + (if p.closed then 2 else 0)
    && (p.size > 0 ==> p.write == Wrap(p.read + Avail(p), p.size))
  }

  /** The bytes a reader will see, oldest first. */
  function Contents(p: Pipe): (r: seq<byte>)
    requires Valid(p)
    ensures |r| == Avail(p)
  {
    seq(Avail(p), i requires 0 <= i < Avail(p) => p.buf[Wrap(p.read + i, p.size)])
  }

  /** Free bytes a writer may fill. */
  function Room(p: Pipe): nat
    requires Valid(p)
  {
    p.size - Avail(p)
  }

  /** The constructor of a fresh pipe: empty, open, `size` bytes of room. */
  function Create(size: nat): (p: Pipe)
    ensures Valid(p) && Contents(p) == [] && !p.closed && Room(p) == size
  {
    Pipe(Zeros(size), size, 0, 0, 0, 0, false, S.Create(0), S.Create(size))
  }

  /** A freshly mapped buffer of `n` bytes. */
  function Zeros(n: nat): (z: seq<byte>)
    ensures |z| == n
  {
    if n == 0 then [] else [0] + Zeros(n - 1)
  }

  /** The constructor: the shared information block is initialised only
      when no process has marked it yet. */
  function Attach(existing: Option<Pipe>, size: nat): (p: Pipe)
    ensures existing.None? ==> Valid(p) && Contents(p) == [] && !p.closed && Room(p) == size
    ensures existing.Some? ==> p == existing.value
  {
    match existing
    case None => Create(size)
    case Some(q) => q
  }

  // ---------------------------------------------------------------------
  // write
  // ---------------------------------------------------------------------

  /** One byte stored at the write index of an open pipe. */
  function WriteByte(p: Pipe, b: byte): (r: Pipe)
    requires Valid(p) && !p.closed && p.consumer.count > 0
    ensures Valid(r) && !r.closed && Contents(r) == Contents(p) + [b]
    ensures r.consumer.count + 1 == p.consumer.count && r.size == p.size
  {
    var r := p.(consumer := S.Wait(p.consumer), buf := p.buf[p.write := b],
                write := Next(p.write, p.size), producer := S.Notify(p.producer));
    assert Avail(r) == Avail(p) + 1 && Avail(p) < p.size;
    forall k | 0 <= k < Avail(r)
      ensures Contents(r)[k] == (Contents(p) + [b])[k]
    {
      assert Contents(r)[k] == r.buf[Wrap(r.read + k, r.size)];
      if k < Avail(p) {
        assert Contents(p)[k] == p.buf[Wrap(p.read + k, p.size)];
      }
    }
    r
  }

  /** How a blocking transfer ends: it completed, it was refused at the end
      of the stream at byte `at`, or it is waiting on a semaphore at byte
      `at`, to be resumed from there once the other side has moved. */
  datatype Progress = Done | Refused(at: nat) | Blocked(at: nat)

  /** The index a transfer of `total` bytes got to. */
  function Reached(g: Progress, total: nat): nat
  {
    if g.Done? then total else g.at
  }

  /** The loop of `write` from byte `i` on, with the end-of-stream test
      gated on the `closed` flag. A writer that finds no free byte waits on
      `consumer`: the result is `Blocked(i)`, and the call is resumed from
      `i` after a reader has made room. */
  function WriteFrom(p: Pipe, data: seq<byte>, i: nat): (r: (Progress, Pipe))
    requires Valid(p) && i <= |data|
    ensures var m := Reached(r.0, |data|);
      && i <= m <= |data| && Valid(r.1) && r.1.size == p.size && r.1.closed == p.closed
      && Contents(r.1) == Contents(p) + data[i..m]
    decreases |data| - i
  {
    if i == |data| then (Done, p)
    else if p.closed then (Refused(i), p)
    else if p.consumer.count == 0 then (Blocked(i), p)
    else
      var q := WriteByte(p, data[i]);
      var r := WriteFrom(q, data, i + 1);
      var m := Reached(r.0, |data|);
      assert [data[i]] + data[i + 1..m] == data[i..m];
      assert Contents(p) + [data[i]] + data[i + 1..m] == Contents(p) + data[i..m];
      r
  }

  /** How the write loop from byte `i` ends: it completes exactly when the
      rest fits in the room of an open pipe, it is refused at once exactly
      when the pipe is closed, and otherwise it blocks on a full pipe,
      having stored at least one byte if there was room for one. */
  lemma {:induction false} WriteFromOutcome(p: Pipe, data: seq<byte>, i: nat)
    requires Valid(p) && i <= |data|
    ensures var r := WriteFrom(p, data, i);
      && (r.0.Done? <==> i == |data| || (!p.closed && |data| - i <= Room(p)))
      && (r.0.Refused? <==> p.closed && i < |data|)
      && (r.0.Refused? ==> r == (Refused(i), p))
      && (r.0.Blocked? ==> Room(r.1) == 0 && r.0.at < |data| && (Room(p) > 0 ==> r.0.at > i))
    decreases |data| - i
  {
    if i < |data| && !p.closed && p.consumer.count > 0 {
      WriteFromOutcome(WriteByte(p, data[i]), data, i + 1);
    }
  }

  /** `write`: an open pipe takes every byte, waiting for room whenever it
      is full; a closed one refuses before the first. An empty write
      succeeds without looking. */
  function Write(p: Pipe, data: seq<byte>): (r: (Progress, Pipe))
    requires Valid(p)
    ensures Valid(r.1) && r.1.size == p.size && r.1.closed == p.closed
    ensures r.0.Done? <==> |data| == 0 || (!p.closed && |data| <= Room(p))
    ensures r.0.Done? ==> Contents(r.1) == Contents(p) + data
    ensures r.0.Refused? <==> p.closed && |data| > 0
    ensures r.0.Refused? ==> r == (Refused(0), p)
    ensures r.0.Blocked? ==> r.0.at < |data| && Room(r.1) == 0 && Contents(r.1) == Contents(p) + data[..r.0.at]
  {
    assert data[0..] == data;
    WriteFromOutcome(p, data, 0);
    WriteFrom(p, data, 0)
  }

  /** The end-of-stream test `write` makes for byte `i` at write index
      `pos`: it runs only once `weof` is positive. */
  predicate WriteEofAt(weof: nat, size: nat, pos: nat, i: nat)
  {
    weof > 0 && (i == 0 || (pos == 0 && weof == size) || pos == weof)
  }

  /** `write` as written, from byte `i` on: the writer takes a `consumer`
      token, then makes the end-of-stream test, which runs only when `weof`
      is positive. The buffer is described for a write of at most `size`
      bytes, the most a well-formed open pipe can take before it blocks. */
  function WriteFromAsWritten(p: Pipe, data: seq<byte>, i: nat): (r: (Progress, Pipe))
    requires p.size > 0 && |p.buf| == p.size && p.write < p.size && i <= |data|
    ensures i <= Reached(r.0, |data|) <= |data|
    ensures var w := Reached(r.0, |data|) - i;
      && r.1.(buf := p.buf, write := p.write, producer := p.producer, consumer := p.consumer) == p
      && |r.1.buf| == p.size && r.1.write < p.size
      && r.1.producer.count == p.producer.count + w && r.1.consumer.count + w == p.consumer.count
    ensures r.0.Blocked? ==> r.0.at < |data| && r.1.consumer.count == 0
    ensures r.0.Refused? ==> r.0.at < |data| && WriteEofAt(p.weof, p.size, r.1.write, r.0.at)
    decreases |data| - i
  {
    if i == |data| then (Done, p)
    else if p.consumer.count == 0 then (Blocked(i), p)
    else
      var c := S.Wait(p.consumer);
      var pos := p.write;
      if WriteEofAt(p.weof, p.size, pos, i) then
        (Refused(i), p.(consumer := S.Notify(c)))
      else
        var q := p.(consumer := c, buf := p.buf[pos := data[i]], write := Next(pos, p.size),
                    producer := S.Notify(p.producer));
        WriteFromAsWritten(q, data, i + 1)
  }

  /** The buffer `rbuf` with write index `rw` is `pbuf` with `data[i..i+w]`
      stored from index `pw` on, every one of those places having passed the
      end-of-stream test, the rest of the buffer untouched and the write
      index just past the last byte stored. */
  predicate Stored(pbuf: seq<byte>, rbuf: seq<byte>, pw: nat, rw: nat, size: nat, weof: nat,
                   data: seq<byte>, i: nat, w: nat)
  {
    && |pbuf| == size && |rbuf| == size && w <= size && i + w <= |data|
    && rw == Slot(pw, w, size)
    && (forall k | 0 <= k < w :: Slot(pw, k, size) < size && rbuf[Slot(pw, k, size)] == data[i + k])
    && (forall k | 0 <= k < w :: !WriteEofAt(weof, size, Slot(pw, k, size), i + k))
    && (forall k | w <= k < size :: Slot(pw, k, size) < size && rbuf[Slot(pw, k, size)] == pbuf[Slot(pw, k, size)])
  }

  /** Where the as-written write puts its bytes: for a write of at most
      `size` bytes, byte `i + k` lands `k` places on from the write index,
      each of them passed the end-of-stream test, the rest of the buffer is
      untouched, and the write index ends just past the last byte. */
  lemma {:induction false} WriteAsWrittenStores(p: Pipe, data: seq<byte>, i: nat)
    requires p.size > 0 && |p.buf| == p.size && p.write < p.size && i <= |data|
    ensures var r := WriteFromAsWritten(p, data, i);
      var w := Reached(r.0, |data|) - i;
      w <= p.size ==> Stored(p.buf, r.1.buf, p.write, r.1.write, p.size, p.weof, data, i, w)
    decreases |data| - i
  {
    if i < |data| && p.consumer.count > 0 && !WriteEofAt(p.weof, p.size, p.write, i) {
      var q := WriteAsWrittenStep(p, data, i);
      WriteAsWrittenStores(q, data, i + 1);
      StoresAfterStep(p, data, i, q);
    } else {
      WriteAsWrittenStops(p, data, i);
    }
  }

  /** An as-written write that stops before its first byte stores nothing
      and leaves the write index alone. */
  lemma WriteAsWrittenStops(p: Pipe, data: seq<byte>, i: nat)
    requires p.size > 0 && |p.buf| == p.size && p.write < p.size && i <= |data|
    requires !(i < |data| && p.consumer.count > 0 && !WriteEofAt(p.weof, p.size, p.write, i))
    ensures var r := WriteFromAsWritten(p, data, i);
      Reached(r.0, |data|) == i && Stored(p.buf, r.1.buf, p.write, r.1.write, p.size, p.weof, data, i, 0)
  {
    var r := WriteFromAsWritten(p, data, i);
    assert r.1.buf == p.buf && r.1.write == p.write;
    assert Slot(p.write, 0, p.size) == p.write;
  }

  /** The pipe after the first byte of an as-written write, from which the
      loop goes on. */
  lemma WriteAsWrittenStep(p: Pipe, data: seq<byte>, i: nat) returns (q: Pipe)
    requires p.size > 0 && |p.buf| == p.size && p.write < p.size && i < |data|
    requires p.consumer.count > 0 && !WriteEofAt(p.weof, p.size, p.write, i)
    ensures q.buf == p.buf[p.write := data[i]] && q.write == Next(p.write, p.size)
    ensures q.size == p.size && q.weof == p.weof && q.write < q.size && |q.buf| == q.size
    ensures WriteFromAsWritten(p, data, i) == WriteFromAsWritten(q, data, i + 1)
  {
    q := p.(consumer := S.Wait(p.consumer), buf := p.buf[p.write := data[i]], write := Next(p.write, p.size),
            producer := S.Notify(p.producer));
  }

  /** What the write stores from `i` follows from what it stores from
      `i + 1` after the first step. */
  lemma StoresAfterStep(p: Pipe, data: seq<byte>, i: nat, q: Pipe)
    requires p.size > 0 && |p.buf| == p.size && p.write < p.size && i < |data|
    requires p.consumer.count > 0 && !WriteEofAt(p.weof, p.size, p.write, i)
    requires q.buf == p.buf[p.write := data[i]] && q.write == Next(p.write, p.size)
    requires q.size == p.size && q.weof == p.weof && q.write < q.size && |q.buf| == q.size
    requires WriteFromAsWritten(p, data, i) == WriteFromAsWritten(q, data, i + 1)
    requires var r := WriteFromAsWritten(q, data, i + 1);
      var w := Reached(r.0, |data|) - (i + 1);
      w <= q.size ==> Stored(q.buf, r.1.buf, q.write, r.1.write, q.size, q.weof, data, i + 1, w)
    ensures var r := WriteFromAsWritten(p, data, i);
      var w := Reached(r.0, |data|) - i;
      w <= p.size ==> Stored(p.buf, r.1.buf, p.write, r.1.write, p.size, p.weof, data, i, w)
  {
    var r := WriteFromAsWritten(q, data, i + 1);
    var m := Reached(r.0, |data|);
    if m <= i + p.size {
      StoresShift(p.buf, r.1.buf, p.write, r.1.write, p.size, p.weof, data, i, m - i);
    }
  }

  /** Storing `data[i]` at `pw` and then `w - 1` more bytes from the next
      index is storing `w` bytes from `pw`. */
  lemma StoresShift(pbuf: seq<byte>, rbuf: seq<byte>, pw: nat, rw: nat, size: nat, weof: nat,
                    data: seq<byte>, i: nat, w: nat)
    requires |pbuf| == size && pw < size && 1 <= w <= size && i < |data| && !WriteEofAt(weof, size, pw, i)
    requires Stored(pbuf[pw := data[i]], rbuf, Next(pw, size), rw, size, weof, data, i + 1, w - 1)
    ensures Stored(pbuf, rbuf, pw, rw, size, weof, data, i, w)
  {
    var nw := Next(pw, size);
    assert rbuf[pw] == data[i] by {
      assert Slot(nw, size - 1, size) == pw;
    }
    forall k | 0 <= k < w
      ensures Slot(pw, k, size) < size && rbuf[Slot(pw, k, size)] == data[i + k]
      ensures !WriteEofAt(weof, size, Slot(pw, k, size), i + k)
    {
      if k > 0 {
        assert Slot(pw, k, size) == Slot(nw, k - 1, size);
        assert rbuf[Slot(nw, k - 1, size)] == data[i + 1 + (k - 1)];
        assert !WriteEofAt(weof, size, Slot(nw, k - 1, size), i + 1 + (k - 1));
      } else {
        assert Slot(pw, 0, size) == pw;
      }
    }
    forall k | w <= k < size
      ensures Slot(pw, k, size) < size && rbuf[Slot(pw, k, size)] == pbuf[Slot(pw, k, size)]
    {
      assert Slot(pw, k, size) == Slot(nw, k - 1, size);
      assert rbuf[Slot(nw, k - 1, size)] == pbuf[pw := data[i]][Slot(nw, k - 1, size)];
    }
  }

  /** While the pipe is open the as-written loop and the corrected one take
      the same steps, blocking included. */
  lemma {:induction false} WriteAgreesWhileOpen(p: Pipe, data: seq<byte>, i: nat)
    requires Valid(p) && !p.closed && p.size > 0 && i <= |data|
    ensures WriteFromAsWritten(p, data, i) == WriteFrom(p, data, i)
    decreases |data| - i
  {
    if i < |data| && p.consumer.count > 0 {
      WriteAgreesWhileOpen(WriteByte(p, data[i]), data, i + 1);
    }
  }

  // ---------------------------------------------------------------------
  // read
  // ---------------------------------------------------------------------

  /** One byte taken at the read index. */
  function ReadByte(p: Pipe): (r: (byte, Pipe))
    requires Valid(p) && Avail(p) > 0
    ensures Valid(r.1) && [r.0] + Contents(r.1) == Contents(p) && r.1.closed == p.closed && r.1.size == p.size
  {
    var r := p.(producer := S.Wait(p.producer), read := Next(p.read, p.size),
                consumer := S.Notify(p.consumer));
    assert Avail(r) + 1 == Avail(p) && p.size > 0;
    ContentsAfterRead(p, r);
    (p.buf[p.read], r)
  }

  /** Advancing the read index drops the oldest byte. */
  lemma ContentsAfterRead(p: Pipe, r: Pipe)
    requires Valid(p) && Valid(r) && p.size > 0 && Avail(r) + 1 == Avail(p)
    requires r.buf == p.buf && r.size == p.size && r.read == Next(p.read, p.size)
    ensures [p.buf[p.read]] + Contents(r) == Contents(p)
  {
    assert Contents(p)[0] == p.buf[Wrap(p.read + 0, p.size)] == p.buf[p.read];
    forall k | 0 <= k < Avail(r)
      ensures Contents(r)[k] == Contents(p)[k + 1]
    {
      assert Contents(r)[k] == r.buf[Wrap(r.read + k, r.size)];
      assert Contents(p)[k + 1] == p.buf[Wrap(p.read + k + 1, p.size)];
    }
  }

  function Min(a: nat, b: nat): nat
  {
    if a <= b then a else b
  }

  /** The loop of `read` from byte `i` on: the first byte blocks, later
      ones only try; at the end of the stream (closed, nothing buffered) it
      returns what it has read. */
  function ReadFrom(p: Pipe, n: nat, i: nat): (r: (nat, seq<byte>, Pipe))
    requires Valid(p) && i <= n
    requires i == 0 && n > 0 ==> p.producer.count > 0
    ensures var k := Min(n - i, Avail(p));
      && r.0 == i + k && r.1 == Contents(p)[..k]
      && Valid(r.2) && Contents(r.2) == Contents(p)[k..] && r.2.closed == p.closed && r.2.size == p.size
    decreases n - i
  {
    if i == n then (n, [], p)
    else if i > 0 && p.producer.count == 0 then (i, [], p)
    else if p.closed && Avail(p) == 0 then (i, [], p)
    else
      var (b, q) := ReadByte(p);
      var (c, bs, q') := ReadFrom(q, n, i + 1);
      assert Min(n - i, Avail(p)) == Min(n - (i + 1), Avail(q)) + 1;
      SplitAfterHead(Contents(p), b, Contents(q), Min(n - (i + 1), Avail(q)));
      (c, [b] + bs, q')
  }

  lemma SplitAfterHead(s: seq<byte>, b: byte, t: seq<byte>, m: nat)
    requires s == [b] + t && m <= |t|
    ensures s[..m + 1] == [b] + t[..m] && s[m + 1..] == t[m..]
  {
  }

  /** `read`: up to `n` bytes, as many as are buffered; on a closed pipe
      with nothing left it returns 0. */
  function Read(p: Pipe, n: nat): (r: (nat, seq<byte>, Pipe))
    requires Valid(p) && (n == 0 || p.producer.count > 0)
    ensures r.0 == Min(n, Avail(p)) && r.1 == Contents(p)[..r.0]
    ensures Valid(r.2) && Contents(r.2) == Contents(p)[r.0..] && r.2.closed == p.closed && r.2.size == p.size
    ensures r.1 + Contents(r.2) == Contents(p)
  {
    var r := ReadFrom(p, n, 0);
    assert Contents(p)[..r.0] + Contents(p)[r.0..] == Contents(p);
    r
  }

  /** The end-of-stream test `read` makes at read index `pos`: it runs only
      once `reof` is positive. */
  predicate ReadEofAt(reof: nat, size: nat, pos: nat)
  {
    reof > 0 && ((pos == 0 && reof == size) || pos == reof)
  }

  /** `read` as written, from byte `i` on: the end-of-stream test runs only
      when `reof` is positive, and it returns 0 even when bytes were already
      copied into the caller's buffer during this call (the second result).
      The bytes are described for a read of at most `size` of them. */
  function ReadFromAsWritten(p: Pipe, n: nat, i: nat): (r: (nat, seq<byte>, Pipe))
    requires p.size > 0 && |p.buf| == p.size && p.read < p.size && i <= n
    requires i == 0 && n > 0 ==> p.producer.count > 0
    ensures var c := |r.1|;
      && i + c <= n && (r.0 == 0 || r.0 == i + c)
      && r.2.(read := p.read, producer := p.producer, consumer := p.consumer) == p
      && r.2.read < p.size
      && r.2.producer.count + c == p.producer.count && r.2.consumer.count == p.consumer.count + c
    ensures r.0 == 0 && i < n ==> ReadEofAt(p.reof, p.size, r.2.read)
    ensures r.0 != 0 && i < n ==> i + |r.1| == n || r.2.producer.count == 0
    decreases n - i
  {
    if i == n then (n, [], p)
    else if i > 0 && p.producer.count == 0 then (i, [], p)
    else
      var pr := S.Wait(p.producer);
      var pos := p.read;
      if ReadEofAt(p.reof, p.size, pos) then
        (0, [], p.(producer := S.Notify(pr)))
      else
        var q := p.(producer := pr, read := Next(pos, p.size), consumer := S.Notify(p.consumer));
        var r := ReadFromAsWritten(q, n, i + 1);
        (r.0, [p.buf[pos]] + r.1, r.2)
  }

  /** What the as-written read copies: for at most `size` bytes, byte `k`
      is the one `k` places on from the read index, none of those places
      passed the end-of-stream test, and the read index ends just past the
      last byte copied. */
  lemma {:induction false} ReadAsWrittenCopies(p: Pipe, n: nat, i: nat)
    requires p.size > 0 && |p.buf| == p.size && p.read < p.size && i <= n
    requires i == 0 && n > 0 ==> p.producer.count > 0
    ensures var r := ReadFromAsWritten(p, n, i);
      |r.1| <= p.size ==>
        && r.2.read == Slot(p.read, |r.1|, p.size)
        && (forall k | 0 <= k < |r.1| :: r.1[k] == p.buf[Slot(p.read, k, p.size)])
        && (forall k | 0 <= k < |r.1| :: !ReadEofAt(p.reof, p.size, Slot(p.read, k, p.size)))
    decreases n - i
  {
    if i < n && !(i > 0 && p.producer.count == 0) && !ReadEofAt(p.reof, p.size, p.read) {
      var q := ReadAsWrittenStep(p, n, i);
      ReadAsWrittenCopies(q, n, i + 1);
      var r := ReadFromAsWritten(q, n, i + 1);
      if |r.1| + 1 <= p.size {
        CopiesShift(p.buf, r.1, p.read, r.2.read, p.size, p.reof);
      }
    } else {
      assert Slot(p.read, 0, p.size) == p.read;
    }
  }

  /** The pipe after the first byte of an as-written read, from which the
      loop goes on. */
  lemma ReadAsWrittenStep(p: Pipe, n: nat, i: nat) returns (q: Pipe)
    requires p.size > 0 && |p.buf| == p.size && p.read < p.size && i < n
    requires p.producer.count > 0 && !ReadEofAt(p.reof, p.size, p.read)
    ensures q.buf == p.buf && q.read == Next(p.read, p.size)
    ensures q.size == p.size && q.reof == p.reof && q.read < q.size && |q.buf| == q.size
    ensures var r := ReadFromAsWritten(q, n, i + 1);
      ReadFromAsWritten(p, n, i) == (r.0, [p.buf[p.read]] + r.1, r.2)
  {
    q := p.(producer := S.Wait(p.producer), read := Next(p.read, p.size), consumer := S.Notify(p.consumer));
  }

  /** Copying the byte at `pr` and then `bs` from the next index is copying
      `[buf[pr]] + bs` from `pr`. */
  lemma CopiesShift(buf: seq<byte>, bs: seq<byte>, pr: nat, rr: nat, size: nat, reof: nat)
    requires |buf| == size && pr < size && |bs| + 1 <= size
    requires !ReadEofAt(reof, size, pr)
    requires rr == Slot(Next(pr, size), |bs|, size)
    requires forall k | 0 <= k < |bs| :: bs[k] == buf[Slot(Next(pr, size), k, size)]
    requires forall k | 0 <= k < |bs| :: !ReadEofAt(reof, size, Slot(Next(pr, size), k, size))
    ensures var c := [buf[pr]] + bs;
      && rr == Slot(pr, |c|, size)
      && (forall k | 0 <= k < |c| :: c[k] == buf[Slot(pr, k, size)])
      && (forall k | 0 <= k < |c| :: !ReadEofAt(reof, size, Slot(pr, k, size)))
  {
    var c := [buf[pr]] + bs;
    var nr := Next(pr, size);
    forall k | 0 <= k < |c|
      ensures c[k] == buf[Slot(pr, k, size)]
      ensures !ReadEofAt(reof, size, Slot(pr, k, size))
    {
      if k > 0 {
        assert Slot(pr, k, size) == Slot(nr, k - 1, size);
        assert c[k] == bs[k - 1] == buf[Slot(nr, k - 1, size)];
        assert !ReadEofAt(reof, size, Slot(nr, k - 1, size));
      } else {
        assert Slot(pr, 0, size) == pr;
      }
    }
  }

  /** While the pipe is open the as-written read and the corrected one take
      the same steps. */
  lemma {:induction false} ReadAgreesWhileOpen(p: Pipe, n: nat, i: nat)
    requires Valid(p) && !p.closed && p.size > 0 && i <= n
    requires i == 0 && n > 0 ==> p.producer.count > 0
    ensures ReadFromAsWritten(p, n, i) == ReadFrom(p, n, i)
    decreases n - i
  {
    if i < n && !(i > 0 && p.producer.count == 0) {
      ReadByteFields(p);
      ReadAgreesWhileOpen(ReadByte(p).1, n, i + 1);
    }
  }

  /** The loop of `read_all` once `got` has been read: each round is one
      `read` of the rest, and a round that returns 0 ends it with false. A
      reader that finds the pipe empty and open waits on `producer`: the
      result is `Blocked`, resumed after a writer has put bytes in. */
  function ReadAllFrom(p: Pipe, n: nat, got: seq<byte>): (r: (Progress, seq<byte>, Pipe))
    requires Valid(p) && |got| <= n
    ensures Valid(r.2) && r.2.closed == p.closed && r.2.size == p.size
    ensures |got| <= |r.1| <= n && r.1 + Contents(r.2) == got + Contents(p)
    ensures r.0.Done? ==> |r.1| == n
    decreases n - |got|
  {
    if |got| == n then (Done, got, p)
    else if p.producer.count == 0 then (Blocked(|got|), got, p)
    else
      var rd := Read(p, n - |got|);
      if rd.0 == 0 then (Refused(|got|), got, rd.2)
      else
        var r := ReadAllFrom(rd.2, n, got + rd.1);
        Associative(got, rd.1, Contents(rd.2));
        r
  }

  lemma Associative(a: seq<byte>, b: seq<byte>, c: seq<byte>)
    ensures a + b + c == a + (b + c)
  {
  }

  /** How the loop of `read_all` ends: it completes exactly when the bytes
      still wanted are buffered; otherwise it has taken every buffered byte
      and waits for a writer on an open pipe, or returns false on a closed
      one. */
  lemma {:induction false} ReadAllFromOutcome(p: Pipe, n: nat, got: seq<byte>)
    requires Valid(p) && |got| <= n
    ensures var r := ReadAllFrom(p, n, got);
      && (r.0.Done? <==> n <= |got| + Avail(p))
      && (!r.0.Done? ==> Contents(r.2) == [] && r.0.at == |r.1| && (r.0.Refused? <==> p.closed))
    decreases n - |got|
  {
    if |got| < n && p.producer.count > 0 {
      var rd := Read(p, n - |got|);
      if rd.0 > 0 {
        ReadAllFromOutcome(rd.2, n, got + rd.1);
      }
    }
  }

  /** `read_all`: a first `read` of all `n` bytes, whose result is not
      checked for 0, then the loop. */
  function ReadAll(p: Pipe, n: nat): (r: (Progress, seq<byte>, Pipe))
    requires Valid(p)
    ensures Valid(r.2) && r.2.closed == p.closed && r.1 + Contents(r.2) == Contents(p)
    ensures r.0.Done? <==> n <= Avail(p)
    ensures r.0.Done? ==> r.1 == Contents(p)[..n]
    ensures !r.0.Done? ==> r.1 == Contents(p) && Contents(r.2) == [] && r.0.at == |r.1| && (r.0.Refused? <==> p.closed)
  {
    if n == 0 then (Done, [], p)
    else if p.producer.count == 0 then (Blocked(0), [], p)
    else
      var (c, bs, q) := Read(p, n);
      var r := ReadAllFrom(q, n, bs);
      ReadAllFromOutcome(q, n, bs);
      assert r.1 + Contents(r.2) == Contents(p);
      assert r.0.Done? ==> r.1 == (r.1 + Contents(r.2))[..n];
      r
  }

  /** The loop of `read_all` as written, once `got` has been counted. */
  function ReadAllFromAsWritten(p: Pipe, n: nat, got: seq<byte>): (r: (Progress, seq<byte>, Pipe))
    requires p.size > 0 && |p.buf| == p.size && p.read < p.size && |got| <= n
    ensures |got| <= |r.1| <= n && r.1[..|got|] == got
    ensures r.0.Done? ==> |r.1| == n
    ensures !r.0.Done? ==> r.0.at == |r.1|
    decreases n - |got|
  {
    if |got| == n then (Done, got, p)
    else if p.producer.count == 0 then (Blocked(|got|), got, p)
    else
      var (c, bs, q) := ReadFromAsWritten(p, n - |got|, 0);
      if c == 0 then (Refused(|got|), got, q)
      else
        var r := ReadAllFromAsWritten(q, n, got + bs);
        assert (got + bs)[..|got|] == got;
        r
  }

  /** `read_all` as written, on the as-written `read`: the bytes a first
      read copies before returning 0 are not counted. */
  function ReadAllAsWritten(p: Pipe, n: nat): (r: (Progress, seq<byte>, Pipe))
    requires p.size > 0 && |p.buf| == p.size && p.read < p.size
    ensures |r.1| <= n && (r.0.Done? ==> |r.1| == n)
  {
    if n == 0 then (Done, [], p)
    else if p.producer.count == 0 then (Blocked(0), [], p)
    else
      var (c, bs, q) := ReadFromAsWritten(p, n, 0);
      ReadAllFromAsWritten(q, n, if c == 0 then [] else bs)
  }

  /** While the pipe is open the loop of `read_all` as written and the
      corrected one take the same steps. */
  lemma {:induction false} ReadAllFromAgreesWhileOpen(p: Pipe, n: nat, got: seq<byte>)
    requires Valid(p) && !p.closed && p.size > 0 && |got| <= n
    ensures ReadAllFromAsWritten(p, n, got) == ReadAllFrom(p, n, got)
    decreases n - |got|
  {
    if |got| < n && p.producer.count > 0 {
      ReadAgreesWhileOpen(p, n - |got|, 0);
      var rd := Read(p, n - |got|);
      ReadAllFromAgreesWhileOpen(rd.2, n, got + rd.1);
    }
  }

  /** While the pipe is open `read_all` as written and the corrected one
      agree: the first read cannot return 0 there. */
  lemma ReadAllAgreesWhileOpen(p: Pipe, n: nat)
    requires Valid(p) && !p.closed && p.size > 0
    ensures ReadAllAsWritten(p, n) == ReadAll(p, n)
  {
    if n > 0 && p.producer.count > 0 {
      ReadAgreesWhileOpen(p, n, 0);
      var rd := Read(p, n);
      ReadAllFromAgreesWhileOpen(rd.2, n, rd.1);
    }
  }

  /** A writer of `data` and a `read_all` of as many bytes taking turns on
      an open pipe: the writer runs until it completes or finds the pipe
      full, then the reader until it has everything or finds the pipe
      empty. However long the data against the buffer, the reader receives
      exactly the data, in order. */
  function Transfer(p: Pipe, data: seq<byte>, i: nat, got: seq<byte>): (r: seq<byte>)
    requires Valid(p) && !p.closed && p.size > 0 && i <= |data|
    requires got + Contents(p) == data[..i]
    ensures r == data
    decreases 2 * |data| - i - |got|
  {
    var (w, q) := WriteFrom(p, data, i);
    WriteFromOutcome(p, data, i);
    var j := Reached(w, |data|);
    assert got + Contents(q) == data[..j] by {
      assert data[..i] + data[i..j] == data[..j];
    }
    var (g, got', q') := ReadAllFrom(q, |data|, got);
    ReadAllFromOutcome(q, |data|, got);
    if g.Done? then
      assert got' + Contents(q') == data[..j];
      assert got' == (got' + Contents(q'))[..|data|];
      got'
    else
      Transfer(q', data, j, got')
  }

  // ---------------------------------------------------------------------
  // available, open, close
  // ---------------------------------------------------------------------

  /** `available` as written: the distance from read to write index, 0
      both for an empty and for a full pipe. */
  function AvailableAsWritten(p: Pipe): (r: nat)
    requires Valid(p)
    ensures r == if Avail(p) == p.size then 0 else Avail(p)
  {
    if p.write < p.read then p.size - p.read + p.write else p.write - p.read
  }

  /** `available` as intended: every buffered byte. */
  function Available(p: Pipe): (r: nat)
    requires Valid(p)
    ensures r == |Contents(p)|
  {
    if p.closed then p.producer.count - 1 else p.producer.count
  }

  /** `open`: not yet closed. */
  function IsOpen(p: Pipe): (r: bool)
    ensures r <==> !p.closed
  {
    !p.closed
  }

  /** `close`: the first call marks the end of the stream at the write
      index and wakes one writer and one reader; later calls return false. */
  function Close(p: Pipe): (r: (bool, Pipe))
    requires Valid(p)
    ensures r.0 <==> !p.closed
    ensures Valid(r.1) && r.1.closed && Contents(r.1) == Contents(p)
    ensures !r.0 ==> r.1 == p
  {
    if p.closed then (false, p)
    else
      var q := p.(weof := p.write, reof := p.write, closed := true,
                  producer := S.Notify(p.producer), consumer := S.Notify(p.consumer));
      assert Avail(q) == Avail(p);
      assert Contents(q) == Contents(p);
      (true, q)
  }

  /** After `close`, writes fail and the remaining bytes can still be read,
      after which every read reports the end of the stream. */
  lemma CloseDrains(p: Pipe, data: seq<byte>)
    requires Valid(p) && |data| > 0
    ensures var q := Close(p).1;
      && q.producer.count > 0
      && Write(q, data).0 == Refused(0)
      && Read(q, Avail(p)).1 == Contents(p)
      && Read(Read(q, Avail(p)).2, |data|).0 == 0
  {
    var q := Close(p).1;
    var (c, bs, q') := Read(q, Avail(p));
    assert Contents(q)[..Avail(p)] == Contents(q);
  }

  // ---------------------------------------------------------------------
  // Findings
  // ---------------------------------------------------------------------

  /** "ab" written into a four-byte pipe which is then closed. */
  function AbClosed(): (p: Pipe)
    ensures Valid(p) && p.closed && Contents(p) == [1, 2]
  {
    var p := Pipe(Zeros(4)[0 := 1][1 := 2], 4, 0, 2, 2, 2, true, S.Sem(3), S.Sem(3));
    assert Avail(p) == 2;
    assert Contents(p)[0] == p.buf[Wrap(0, 4)] && Contents(p)[1] == p.buf[Wrap(1, 4)];
    p
  }

  /** One written byte, field by field. */
  lemma WriteByteFields(p: Pipe, b: byte)
    requires Valid(p) && !p.closed && p.consumer.count > 0
    ensures WriteByte(p, b) == p.(buf := p.buf[p.write := b], write := Next(p.write, p.size),
                                  producer := S.Sem(p.producer.count + 1), consumer := S.Sem(p.consumer.count - 1))
  {
  }

  /** One read byte, field by field. */
  lemma ReadByteFields(p: Pipe)
    requires Valid(p) && Avail(p) > 0
    ensures ReadByte(p) == (p.buf[p.read], p.(read := Next(p.read, p.size),
                            producer := S.Sem(p.producer.count - 1), consumer := S.Sem(p.consumer.count + 1)))
  {
  }

  /** Two bytes written into a fresh pipe of more than two bytes land at
      indices 0 and 1. */
  lemma WriteTwoFresh(n: nat, x: byte, y: byte)
    requires n > 2
    ensures Write(Create(n), [x, y])
      == (Done, Pipe(Zeros(n)[0 := x][1 := y], n, 0, 2, 0, 0, false, S.Sem(2), S.Sem(n - 2)))
  {
    var d: seq<byte> := [x, y];
    var e := Create(n);
    assert e == Pipe(Zeros(n), n, 0, 0, 0, 0, false, S.Sem(0), S.Sem(n));
    WriteByteFields(e, x);
    var w1 := WriteByte(e, x);
    assert w1 == Pipe(Zeros(n)[0 := x], n, 0, 1, 0, 0, false, S.Sem(1), S.Sem(n - 1));
    WriteByteFields(w1, y);
    var w2 := WriteByte(w1, y);
    assert w2 == Pipe(Zeros(n)[0 := x][1 := y], n, 0, 2, 0, 0, false, S.Sem(2), S.Sem(n - 2));
    assert WriteFrom(w2, d, 2) == (Done, w2);
    assert WriteFrom(w1, d, 1) == WriteFrom(w2, d, 2);
    assert WriteFrom(e, d, 0) == WriteFrom(w1, d, 1);
  }

  /** `AbClosed` is what writing the bytes 1, 2 into a fresh four-byte pipe
      and closing it yields. */
  lemma AbClosedIsReachable(n: nat)
    requires n == 4
    ensures Write(Create(n), [1, 2]).0.Done?
    ensures Close(Write(Create(n), [1, 2]).1).1 == AbClosed()
  {
    WriteTwoFresh(n, 1, 2);
    CloseOpen(Write(Create(n), [1, 2]).1);
  }

  /** The as-written read of 5 bytes from `AbClosed` copies both bytes into
      the caller's buffer, advances the read index past them and returns 0;
      the corrected read returns 2. */
  lemma ReadLosesBytesAtEof(n: nat)
    requires n == 5
    ensures var p := AbClosed();
      && ReadFromAsWritten(p, n, 0).0 == 0
      && ReadFromAsWritten(p, n, 0).1 == [1, 2]
      && ReadFromAsWritten(p, n, 0).2.read == 2
      && Read(p, n).0 == 2 && Read(p, n).1 == [1, 2]
  {
    var p := AbClosed();
    var r := ReadFromAsWritten(p, n, 0);
    ReadAsWrittenCopies(p, n, 0);
    assert p.read == 0 && p.reof == 2 && p.size == 4 && p.producer.count == 3;
    assert p.buf[0] == 1 && p.buf[1] == 2;
    assert Slot(p.read, 0, p.size) == 0 && Slot(p.read, 1, p.size) == 1 && Slot(p.read, 2, p.size) == 2;
    assert ReadEofAt(p.reof, p.size, Slot(p.read, 2, p.size));
    assert !ReadEofAt(p.reof, p.size, 0) && !ReadEofAt(p.reof, p.size, 1);
    assert |r.1| <= 2;
    assert r.0 == 0;
    assert |r.1| == 2;
    assert r.1 == [1, 2];
    assert Contents(p)[..2] == [1, 2];
  }

  /** `read_all` as written of 5 bytes from `AbClosed`: the first read
      takes both bytes and returns 0, so they are not counted, and the loop
      then meets the end of the stream with nothing gathered; the corrected
      `read_all` hands back both bytes before reporting the end. */
  lemma ReadAllLosesBytes(n: nat)
    requires n == 5
    ensures ReadAllAsWritten(AbClosed(), n).0 == Refused(0) && ReadAllAsWritten(AbClosed(), n).1 == []
    ensures ReadAll(AbClosed(), n).0 == Refused(2) && ReadAll(AbClosed(), n).1 == [1, 2]
  {
    var p := AbClosed();
    ReadLosesBytesAtEof(n);
    var (c, bs, q) := ReadFromAsWritten(p, n, 0);
    assert q.reof == 2 && q.size == 4 && q.read == 2 && q.producer.count == 1;
    assert ReadEofAt(q.reof, q.size, q.read);
    assert ReadFromAsWritten(q, n, 0).0 == 0 && ReadFromAsWritten(q, n, 0).1 == [];
    assert ReadAllFromAsWritten(q, n, []).0 == Refused(0);
  }

  /** An empty four-byte pipe, closed. */
  function ClosedAtZero(): (p: Pipe)
    ensures Valid(p) && p.closed && Contents(p) == []
  {
    Pipe(Zeros(4), 4, 0, 0, 0, 0, true, S.Sem(1), S.Sem(5))
  }

  /** Closing a fresh pipe of any size leaves both indices and both end
      marks at 0. */
  lemma ClosedAtZeroIsReachable(n: nat)
    ensures Close(Create(n)).1 == Pipe(Zeros(n), n, 0, 0, 0, 0, true, S.Sem(1), S.Sem(n + 1))
  {
    var e := Create(n);
    assert e == Pipe(Zeros(n), n, 0, 0, 0, 0, false, S.Sem(0), S.Sem(n));
    CloseOpen(e);
  }

  /** `ClosedAtZero` is what closing a fresh four-byte pipe yields. */
  lemma ClosedAtZeroIsClosedFresh()
    ensures Close(Create(4)).1 == ClosedAtZero()
  {
    ClosedAtZeroIsReachable(4);
  }

  /** Closing an open pipe marks both ends at the write index and hands each
      semaphore one token. */
  lemma CloseOpen(p: Pipe)
    requires Valid(p) && !p.closed
    ensures Close(p).1 == p.(weof := p.write, reof := p.write, closed := true,
                             producer := S.Sem(p.producer.count + 1), consumer := S.Sem(p.consumer.count + 1))
  {
  }

  /** Closed at write index 0, the as-written pipe has `weof == reof == 0`
      and never reports the end of the stream: a read of the empty closed
      pipe returns a byte nobody wrote. The corrected read reports the end
      of the stream. */
  lemma CloseAtIndexZeroReadsPastEnd()
    ensures var p := ClosedAtZero();
      && ReadFromAsWritten(p, 1, 0).0 == 1
      && Read(p, 1).0 == 0
  {
    var p := ClosedAtZero();
    var q := p.(producer := S.Wait(p.producer), read := Next(p.read, p.size), consumer := S.Notify(p.consumer));
    assert ReadFromAsWritten(q, 1, 1).0 == 1;
    assert ReadFromAsWritten(p, 1, 0).0 == ReadFromAsWritten(q, 1, 1).0;
  }

  /** The same pipe accepts a write after `close`; the corrected write is
      refused. */
  lemma CloseAtIndexZeroAcceptsWrite()
    ensures var p := ClosedAtZero();
      && WriteFromAsWritten(p, [9], 0).0.Done?
      && Write(p, [9]).0.Refused?
  {
    var p := ClosedAtZero();
    var w := p.(consumer := S.Wait(p.consumer), buf := p.buf[0 := 9], write := Next(0, 4), producer := S.Notify(p.producer));
    assert WriteFromAsWritten(w, [9], 1).0.Done?;
    assert WriteFromAsWritten(p, [9], 0) == WriteFromAsWritten(w, [9], 1);
  }

  /** A two-byte pipe holding two bytes with both indices at 1, closed. */
  function FullClosed(): (p: Pipe)
    ensures Valid(p) && p.closed && Contents(p) == [2, 3]
  {
    var p := Pipe([3, 2], 2, 1, 1, 1, 1, true, S.Sem(3), S.Sem(1));
    assert Avail(p) == 2;
    assert Contents(p)[0] == p.buf[Wrap(1, 2)] && Contents(p)[1] == p.buf[Wrap(2, 2)];
    p
  }

  /** The states on the way to `FullClosed` from a fresh pipe of `n >= 2`
      bytes: 9 written, 9 read back, then 2 and 3 written (which fills the
      pipe when `n == 2`). */
  function NineWritten(n: nat): (p: Pipe)
    requires n >= 2
    ensures Valid(p) && !p.closed && p.producer.count > 0
  {
    Pipe(Zeros(n)[0 := 9], n, 0, 1, 0, 0, false, S.Sem(1), S.Sem(n - 1))
  }

  function NineRead(n: nat): (p: Pipe)
    requires n >= 2
    ensures Valid(p) && !p.closed && Room(p) == n
  {
    Pipe(Zeros(n)[0 := 9], n, 1, 1, 0, 0, false, S.Sem(0), S.Sem(n))
  }

  function TwoThreeWritten(n: nat): (p: Pipe)
    requires n >= 2
    ensures Valid(p) && !p.closed
  {
    var w := Next(1, n);
    Pipe(Zeros(n)[0 := 9][1 := 2][w := 3], n, 1, Next(w, n), 0, 0, false, S.Sem(2), S.Sem(n - 2))
  }

  lemma NineWrittenStep(n: nat)
    requires n >= 2
    ensures Write(Create(n), [9]) == (Done, NineWritten(n))
  {
    var a: seq<byte> := [9];
    var e := Create(n);
    assert e == Pipe(Zeros(n), n, 0, 0, 0, 0, false, S.Sem(0), S.Sem(n));
    WriteByteFields(e, 9);
    assert WriteByte(e, 9) == NineWritten(n);
    assert WriteFrom(NineWritten(n), a, 1) == (Done, NineWritten(n));
  }

  lemma NineReadStep(n: nat)
    requires n >= 2
    ensures Read(NineWritten(n), 1) == (1, [9], NineRead(n))
  {
    var p := NineWritten(n);
    ReadByteFields(p);
    assert ReadByte(p) == (9, NineRead(n));
    assert ReadFrom(NineRead(n), 1, 1) == (1, [], NineRead(n));
  }

  lemma TwoThreeStep(n: nat)
    requires n >= 2
    ensures Write(NineRead(n), [2, 3]) == (Done, TwoThreeWritten(n))
  {
    var b: seq<byte> := [2, 3];
    var p := NineRead(n);
    WriteByteFields(p, 2);
    var q1 := WriteByte(p, 2);
    assert q1 == Pipe(Zeros(n)[0 := 9][1 := 2], n, 1, Next(1, n), 0, 0, false, S.Sem(1), S.Sem(n - 1));
    WriteByteFields(q1, 3);
    assert WriteByte(q1, 3) == TwoThreeWritten(n);
    assert WriteFrom(TwoThreeWritten(n), b, 2) == (Done, TwoThreeWritten(n));
  }

  /** A fresh pipe of `n >= 2` bytes takes the byte 9, gives it back to a
      one-byte read, and takes the bytes 2 and 3; for `n == 2` those fill
      the pipe. */
  lemma NineTwoThreeTrace(n: nat)
    requires n >= 2
    ensures Write(Create(n), [9]) == (Done, NineWritten(n))
    ensures Read(NineWritten(n), 1) == (1, [9], NineRead(n))
    ensures Write(NineRead(n), [2, 3]) == (Done, TwoThreeWritten(n))
  {
    NineWrittenStep(n);
    NineReadStep(n);
    TwoThreeStep(n);
  }

  /** `FullClosed` is reachable: it is what closing the two-byte pipe at the
      end of `NineTwoThreeTrace` gives. */
  lemma FullClosedIsReachable(n: nat)
    requires n == 2
    ensures Close(TwoThreeWritten(n)) == (true, FullClosed())
  {
    CloseOpen(TwoThreeWritten(n));
    assert Zeros(n)[0 := 9][1 := 2][0 := 3] == [3, 2];
  }

  /** Closed while full away from index 0, the as-written pipe reports the
      end of the stream before either buffered byte is read; the corrected
      read returns both. */
  lemma FullPipeEofTooEarly()
    ensures var p := FullClosed();
      && ReadFromAsWritten(p, 2, 0).0 == 0 && ReadFromAsWritten(p, 2, 0).1 == []
      && Read(p, 2).1 == [2, 3]
  {
    var p := FullClosed();
    assert Contents(p)[..2] == [2, 3];
  }

  /** A fresh pipe filled by one write of its own size: `available` as
      written reports 0, as for an empty pipe; the corrected count is the
      number of bytes written. */
  lemma FullPipeLooksEmpty(data: seq<byte>)
    requires |data| > 0
    ensures var p := Write(Create(|data|), data).1;
      && Valid(p) && !p.closed && Contents(p) == data
      && AvailableAsWritten(p) == 0 && Available(p) == |data|
  {
    var e := Create(|data|);
    assert Room(e) == |data| && Contents(e) == [];
    var p := Write(e, data).1;
    assert Contents(p) == data && p.size == |data|;
  }
}
