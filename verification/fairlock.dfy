/** The fair reader/writer lock of thread/impl/shared_mutex_fair.h and its
    shared-memory twin process/impl/shared_mutex_fair.h. Readers are served
    in batches: while no writer is waiting a reader joins the current batch
    at once; once a writer waits, new readers queue in the next batch, which
    the writer's `unlock` lets in by flipping `thisBatch`.

    Every critical section under the internal mutex is one transition. A
    wait on the internal condition variable splits its operation in two: a
    registration step and a step that is enabled once the awaited predicate
    holds (or, for the timed variants, at the deadline). `busy` says the
    internal mutex's `try_lock` failed. */
module FairLock {
  import SizeT
  import opened Wrappers

  type Batch = b: int | 0 <= b < 2

  /** `shared[2]`, `this_batch`, `exclusive` and `etotal` (writers waiting
      or holding). `next_batch` is written by the constructor and never
      read, so it is not kept. */
  datatype Fair = Fair(shared0: nat, shared1: nat, thisBatch: Batch, exclusive: nat, etotal: nat)

  function Other(b: Batch): (r: Batch)
    ensures r != b
  {
    1 - b
  }

  function Shared(f: Fair, b: Batch): nat
  {
    if b == 0 then f.shared0 else f.shared1
  }

  function WithShared(f: Fair, b: Batch, v: nat): (r: Fair)
    ensures Shared(r, b) == v && Shared(r, Other(b)) == Shared(f, Other(b))
    ensures r.thisBatch == f.thisBatch && r.exclusive == f.exclusive && r.etotal == f.etotal
  {
    if b == 0 then f.(shared0 := v) else f.(shared1 := v)
  }

  function Create(): (f: Fair)
    ensures Shared(f, 0) == 0 && Shared(f, 1) == 0
    ensures f.thisBatch == 0 && f.exclusive == 0 && f.etotal == 0
  {
    Fair(0, 0, 0, 0, 0)
  }

  /** The process constructor: the state is zeroed only by the first
      process to attach. */
  function Attach(existing: Option<Fair>): (f: Fair)
    ensures existing.None? ==> f == Create()
    ensures existing.Some? ==> f == existing.value
  {
    match existing
    case None => Create()
    case Some(g) => g
  }

  // ---------------------------------------------------------------------
  // Readers
  // ---------------------------------------------------------------------

  /** The registration half of `lock_shared` (and of `try_lock_shared_until`
      once its mutex is taken): with no writer about the reader joins the
      current batch; otherwise it queues in the next one. Returns the batch
      it joined. */
  function LockShared(f: Fair): (r: (Batch, Fair))
    ensures r.0 == (if f.etotal == 0 then f.thisBatch else Other(f.thisBatch))
    ensures Shared(r.1, r.0) == Shared(f, r.0) + 1 && Shared(r.1, Other(r.0)) == Shared(f, Other(r.0))
    ensures r.1.thisBatch == f.thisBatch && r.1.exclusive == f.exclusive && r.1.etotal == f.etotal
  {
    var b := if f.etotal == 0 then f.thisBatch else Other(f.thisBatch);
    (b, WithShared(f, b, Shared(f, b) + 1))
  }

  /** A reader of batch `b` proceeds once `b` is the current batch. */
  predicate ReaderMayProceed(f: Fair, b: Batch)
  {
    f.thisBatch == b
  }

  /** The second half of `try_lock_shared_until` for a reader queued in
      batch `b`: it succeeds if its batch is current by the deadline, and
      otherwise takes itself out of the queue. */
  function TryLockSharedUntilFinish(f: Fair, b: Batch, expired: bool): (r: (bool, Fair))
    requires ReaderMayProceed(f, b) || expired
    ensures r.0 <==> ReaderMayProceed(f, b)
    ensures r.0 ==> r.1 == f
    ensures !r.0 ==> Shared(r.1, b) == SizeT.Dec(Shared(f, b)) && Shared(r.1, Other(b)) == Shared(f, Other(b))
    ensures r.1.thisBatch == f.thisBatch && r.1.exclusive == f.exclusive && r.1.etotal == f.etotal
  {
    if ReaderMayProceed(f, b) then (true, f)
    else (false, WithShared(f, b, SizeT.Dec(Shared(f, b))))
  }

  /** `try_lock_shared` as written: it reports success when no writer holds
      the lock but does not count the reader in any batch. */
  function TryLockSharedAsWritten(f: Fair, busy: bool): (r: (bool, Fair))
    ensures r.0 <==> !busy && f.exclusive == 0
    ensures r.1 == f
  {
    if busy then (false, f)
    else if f.exclusive > 0 then (false, f)
    else (true, f)
  }

  /** `try_lock_shared` corrected: on success the reader is counted in the
      current batch, as `lock_shared` counts it. */
  function TryLockShared(f: Fair, busy: bool): (r: (bool, Fair))
    ensures r.0 <==> !busy && f.exclusive == 0
    ensures r.0 ==> (
      && Shared(r.1, f.thisBatch) == Shared(f, f.thisBatch) + 1
      && Shared(r.1, Other(f.thisBatch)) == Shared(f, Other(f.thisBatch))
      && r.1.thisBatch == f.thisBatch && r.1.exclusive == f.exclusive && r.1.etotal == f.etotal)
    ensures !r.0 ==> r.1 == f
  {
    if busy || f.exclusive > 0 then (false, f)
    else (true, WithShared(f, f.thisBatch, Shared(f, f.thisBatch) + 1))
  }

  /** `unlock_shared`: the current batch loses one reader (a `size_t`
      decrement, which wraps at zero). */
  function UnlockShared(f: Fair): (r: Fair)
    ensures Shared(r, f.thisBatch) == SizeT.Dec(Shared(f, f.thisBatch))
    ensures Shared(r, Other(f.thisBatch)) == Shared(f, Other(f.thisBatch))
    ensures r.thisBatch == f.thisBatch && r.exclusive == f.exclusive && r.etotal == f.etotal
  {
    WithShared(f, f.thisBatch, SizeT.Dec(Shared(f, f.thisBatch)))
  }

  // ---------------------------------------------------------------------
  // Writers
  // ---------------------------------------------------------------------

  /** The first half of `lock` (and of `try_lock_until` once its mutex is
      taken): one more writer waiting. */
  function Announce(f: Fair): (r: Fair)
    ensures r.etotal == f.etotal + 1
    ensures r.shared0 == f.shared0 && r.shared1 == f.shared1
    ensures r.thisBatch == f.thisBatch && r.exclusive == f.exclusive
  {
    f.(etotal := f.etotal + 1)
  }

  /** A waiting writer proceeds once no writer holds the lock and the
      current batch has drained. */
  predicate WriterMayProceed(f: Fair)
  {
    f.exclusive == 0 && Shared(f, f.thisBatch) == 0
  }

  /** The second half of `lock`. */
  function Acquire(f: Fair): (r: Fair)
    requires WriterMayProceed(f)
    ensures r.exclusive == 1 && !WriterMayProceed(r)
    ensures r.shared0 == f.shared0 && r.shared1 == f.shared1
    ensures r.thisBatch == f.thisBatch && r.etotal == f.etotal
  {
    f.(exclusive := 1)
  }

  /** The second half of `try_lock_until`: it takes the lock if it may by
      the deadline, and otherwise stops waiting. */
  function TryLockUntilFinish(f: Fair, expired: bool): (r: (bool, Fair))
    requires WriterMayProceed(f) || expired
    ensures r.0 <==> WriterMayProceed(f)
    ensures r.0 ==> r.1 == Acquire(f)
    ensures !r.0 ==> r.1 == f.(etotal := SizeT.Dec(f.etotal))
  {
    if WriterMayProceed(f) then (true, Acquire(f))
    else (false, f.(etotal := SizeT.Dec(f.etotal)))
  }

  /** `try_lock`: succeeds only when it need not wait. */
  function TryLock(f: Fair, busy: bool): (r: (bool, Fair))
    ensures r.0 <==> !busy && WriterMayProceed(f)
    ensures r.0 ==> r.1 == Acquire(Announce(f))
    ensures !r.0 ==> r.1 == f
  {
    if busy then (false, f)
    else if Shared(f, f.thisBatch) + f.exclusive > 0 then (false, f)
    else (true, f.(etotal := f.etotal + 1, exclusive := 1))
  }

  /** `unlock`: the writer leaves and the next batch becomes current. */
  function Unlock(f: Fair): (r: Fair)
    ensures r.exclusive == 0 && r.etotal == SizeT.Dec(f.etotal)
    ensures r.thisBatch == Other(f.thisBatch)
    ensures r.shared0 == f.shared0 && r.shared1 == f.shared1
  {
    f.(exclusive := 0, etotal := SizeT.Dec(f.etotal), thisBatch := Other(f.thisBatch))
  }

  /** A writer whose deadline passes takes back its announcement, and a
      queued reader whose deadline passes takes itself out of its batch:
      each timed give-up undoes its registration exactly. */
  lemma TimedGiveUpUndoes(f: Fair)
    ensures !WriterMayProceed(f) ==> TryLockUntilFinish(Announce(f), true) == (false, f)
    ensures f.etotal > 0 ==>
      var (b, g) := LockShared(f);
      TryLockSharedUntilFinish(g, b, true) == (false, f)
  {
  }

  /** A writer's `unlock` admits the batch queued behind it: a reader that
      queued while the writer waited or held the lock may proceed. */
  lemma UnlockAdmitsQueuedBatch(f: Fair)
    requires f.etotal > 0
    ensures ReaderMayProceed(Unlock(LockShared(f).1), LockShared(f).0)
    ensures !ReaderMayProceed(LockShared(f).1, LockShared(f).0)
  {
  }

  // ---------------------------------------------------------------------
  // Mutual exclusion
  // ---------------------------------------------------------------------

  /** The lock together with what its clients believe: `readers` hold a
      shared lock, `queued0`/`queued1` readers wait in each batch, `waiting`
      writers have announced themselves, `writer` holds the lock. */
  datatype Sys = Sys(lock: Fair, readers: nat, queued0: nat, queued1: nat, waiting: nat, writer: bool)

  function Queued(s: Sys, b: Batch): nat
  {
    if b == 0 then s.queued0 else s.queued1
  }

  function WithQueued(s: Sys, b: Batch, v: nat): (r: Sys)
    ensures Queued(r, b) == v && Queued(r, Other(b)) == Queued(s, Other(b))
    ensures r.lock == s.lock && r.readers == s.readers && r.waiting == s.waiting && r.writer == s.writer
  {
    if b == 0 then s.(queued0 := v) else s.(queued1 := v)
  }

  /** The lock's counters agree with its clients. */
  predicate Inv(s: Sys)
  {
    var t := s.lock.thisBatch;
    && Shared(s.lock, t) == s.readers + Queued(s, t)
    && Shared(s.lock, Other(t)) == Queued(s, Other(t))
    && s.lock.exclusive == (if s.writer then 1 else 0)
    && s.lock.etotal == s.waiting + s.lock.exclusive
    && (s.writer ==> Shared(s.lock, t) == 0)
  }

  /** No reader holds the lock while a writer does. */
  predicate Safe(s: Sys)
  {
    s.writer ==> s.readers == 0
  }

  datatype Action =
    | ReadArrive | ReadProceed | ReadTry(busy: bool) | ReadGiveUp | ReadRelease
    | WriteArrive | WriteProceed | WriteTry(busy: bool) | WriteGiveUp | WriteRelease

  predicate Enabled(s: Sys, a: Action)
  {
    match a
    case ReadProceed => Queued(s, s.lock.thisBatch) > 0
    case ReadGiveUp => Queued(s, Other(s.lock.thisBatch)) > 0
    case ReadRelease => s.readers > 0
    case WriteProceed => s.waiting > 0 && WriterMayProceed(s.lock)
    case WriteGiveUp => s.waiting > 0 && !WriterMayProceed(s.lock)
    case WriteRelease => s.writer
    case _ => true
  }

  /** One client step, through the corrected `try_lock_shared`. */
  function Next(s: Sys, a: Action): (r: Sys)
    requires Enabled(s, a)
    ensures r.lock.thisBatch == (if a.WriteRelease? then Other(s.lock.thisBatch) else s.lock.thisBatch)
  {
    match a
    case ReadArrive =>
      var (b, l) := LockShared(s.lock);
      if b == s.lock.thisBatch then s.(lock := l, readers := s.readers + 1)
      else WithQueued(s, b, Queued(s, b) + 1).(lock := l)
    case ReadProceed =>
      var t := s.lock.thisBatch;
      WithQueued(s, t, Queued(s, t) - 1).(readers := s.readers + 1)
    case ReadTry(busy) =>
      var (ok, l) := TryLockShared(s.lock, busy);
      if ok then s.(lock := l, readers := s.readers + 1) else s
    case ReadGiveUp =>
      var b := Other(s.lock.thisBatch);
      var (_, l) := TryLockSharedUntilFinish(s.lock, b, true);
      WithQueued(s, b, Queued(s, b) - 1).(lock := l)
    case ReadRelease =>
      s.(lock := UnlockShared(s.lock), readers := s.readers - 1)
    case WriteArrive =>
      s.(lock := Announce(s.lock), waiting := s.waiting + 1)
    case WriteProceed =>
      s.(lock := Acquire(s.lock), waiting := s.waiting - 1, writer := true)
    case WriteTry(busy) =>
      var (ok, l) := TryLock(s.lock, busy);
      if ok then s.(lock := l, writer := true) else s
    case WriteGiveUp =>
      s.(lock := TryLockUntilFinish(s.lock, true).1, waiting := s.waiting - 1)
    case WriteRelease =>
      s.(lock := Unlock(s.lock), writer := false)
  }

  function Init(): (s: Sys)
    ensures Inv(s) && Safe(s)
  {
    Sys(Create(), 0, 0, 0, 0, false)
  }

  lemma InvIsSafe(s: Sys)
    requires Inv(s)
    ensures Safe(s)
  {
  }

  /** Every client step keeps the counters in agreement, and so keeps
      readers and writers apart. */
  lemma NextPreservesInv(s: Sys, a: Action)
    requires Inv(s) && Enabled(s, a)
    ensures Inv(Next(s, a)) && Safe(Next(s, a))
  {
    var r := Next(s, a);
    var t := s.lock.thisBatch;
    match a
    case ReadArrive =>
      if s.lock.etotal == 0 {
        assert Shared(r.lock, t) == Shared(s.lock, t) + 1;
      } else {
        assert Shared(r.lock, Other(t)) == Shared(s.lock, Other(t)) + 1;
      }
    case WriteRelease =>
      assert s.readers == 0 && Queued(s, t) == 0;
      assert r.lock.thisBatch == Other(t);
    case _ =>
  }

  /** `try_lock_shared` as written lets a writer in beside the reader it
      admitted, and that reader's later `unlock_shared` wraps the current
      batch's count to the largest `size_t`, after which no writer can
      proceed. */
  lemma TryLockSharedAdmitsWriter()
    ensures TryLockSharedAsWritten(Create(), false) == (true, Create())
    ensures WriterMayProceed(Announce(Create()))
    ensures Shared(UnlockShared(Create()), 0) == SizeT.MAX
    ensures !WriterMayProceed(UnlockShared(Create()))
  {
  }
}
