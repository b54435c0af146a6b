/** The writer-preferring reader/writer lock of
    thread/impl/shared_mutex_exclusive.h and its shared-memory twin
    process/impl/shared_mutex_exclusive.h. `global` is a one-token
    semaphore held either by the group of readers (taken by the first,
    returned by the last) or by one writer. Announced writers close the
    `gate` condition, so no new reader passes while a writer waits.

    As in the fair lock, each critical section is one transition and a
    blocking wait is a step enabled once it can complete; `busy` says the
    internal mutex's `try_lock` failed. */
module ExclusiveLock {
  import S = Semaphore
  import C = Condition
  import SizeT
  import opened Wrappers

  /** `global_`, the reader and writer counts and the `cond_` gate. */
  datatype Excl = Excl(global: S.Sem, shared: nat, exclusive: nat, gate: C.Gate)

  function Create(): (e: Excl)
    ensures e.global.count == 1 && e.shared == 0 && e.exclusive == 0 && e.gate.open
  {
    Excl(S.Create(1), 0, 0, C.Create(true))
  }

  /** The process constructor: the counts are zeroed only by the first
      process to attach, and the named semaphore and gate keep their state. */
  function Attach(existing: Option<Excl>): (e: Excl)
    ensures existing.None? ==> e == Create()
    ensures existing.Some? ==> e == existing.value
  {
    match existing
    case None => Create()
    case Some(x) => x
  }

  // ---------------------------------------------------------------------
  // Readers
  // ---------------------------------------------------------------------

  /** The first half of `lock_shared`: waiting on the gate, which an
      announced writer keeps closed. */
  predicate ReaderMayPass(e: Excl)
  {
    e.gate.open
  }

  /** The first reader must take `global`; later ones need not. */
  predicate ReaderMayRegister(e: Excl)
  {
    e.shared != 0 || e.global.count > 0
  }

  /** The second half of `lock_shared`, under the internal mutex. */
  function RegisterReader(e: Excl): (r: Excl)
    requires ReaderMayRegister(e)
    ensures r.shared == e.shared + 1
    ensures r.global.count == (if e.shared == 0 then e.global.count - 1 else e.global.count)
    ensures r.exclusive == e.exclusive && r.gate == e.gate
  {
    if e.shared == 0 then e.(shared := 1, global := S.Wait(e.global))
    else e.(shared := e.shared + 1)
  }

  /** `try_lock_shared`: fails with no change when the gate is closed, the
      internal mutex is busy, or it would be the first reader and `global`
      is held. */
  function TryLockShared(e: Excl, busy: bool): (r: (bool, Excl))
    ensures r.0 <==> ReaderMayPass(e) && !busy && ReaderMayRegister(e)
    ensures r.0 ==> r.1 == RegisterReader(e)
    ensures !r.0 ==> r.1 == e
  {
    if !e.gate.open || busy then (false, e)
    else if e.shared == 0 then
      var (ok, g) := S.TryWait(e.global);
      if !ok then (false, e) else (true, e.(shared := 1, global := g))
    else (true, e.(shared := e.shared + 1))
  }

  /** `try_lock_shared_until`: the same outcome as `try_lock_shared`, but
      it may wait until the deadline for the gate, the mutex (`acquired`)
      and `global`. */
  function TryLockSharedUntil(e: Excl, acquired: bool, expired: bool): (r: (bool, Excl))
    requires ReaderMayPass(e) || expired
    requires ReaderMayPass(e) && acquired && !ReaderMayRegister(e) ==> expired
    ensures r.0 <==> ReaderMayPass(e) && acquired && ReaderMayRegister(e)
    ensures r.0 ==> r.1 == RegisterReader(e)
    ensures !r.0 ==> r.1 == e
  {
    if !e.gate.open || !acquired then (false, e)
    else if e.shared == 0 then
      var (ok, g) := S.WaitUntil(e.global, expired);
      if !ok then (false, e) else (true, e.(shared := 1, global := g))
    else (true, e.(shared := e.shared + 1))
  }

  /** A timed try whose deadline has passed decides as the plain try does. */
  lemma TimedTryIsTry(e: Excl, acquired: bool)
    ensures TryLockSharedUntil(e, acquired, true) == TryLockShared(e, !acquired)
  {
  }

  /** `unlock_shared`: the last reader returns `global`. */
  function UnlockShared(e: Excl): (r: Excl)
    ensures r.shared == SizeT.Dec(e.shared)
    ensures r.global.count == (if r.shared == 0 then e.global.count + 1 else e.global.count)
    ensures r.exclusive == e.exclusive && r.gate == e.gate
  {
    var n := SizeT.Dec(e.shared);
    if n == 0 then e.(shared := n, global := S.Notify(e.global))
    else e.(shared := n)
  }

  // ---------------------------------------------------------------------
  // Writers
  // ---------------------------------------------------------------------

  /** The first half of `lock` (and of `try_lock_until`): one more writer,
      and the first of them closes the gate. */
  function Announce(e: Excl): (r: Excl)
    ensures r.exclusive == e.exclusive + 1
    ensures r.gate.open <==> e.gate.open && e.exclusive != 0
    ensures r.global == e.global && r.shared == e.shared
  {
    var x := e.exclusive + 1;
    e.(exclusive := x, gate := if x == 1 then C.Reset(e.gate) else e.gate)
  }

  /** The second half of `lock`: taking `global`. */
  function AcquireGlobal(e: Excl): (r: Excl)
    requires e.global.count > 0
    ensures r.global.count + 1 == e.global.count
    ensures r.shared == e.shared && r.exclusive == e.exclusive && r.gate == e.gate
  {
    e.(global := S.Wait(e.global))
  }

  /** A writer leaving the count: at zero the gate opens. */
  function Withdraw(e: Excl): (r: Excl)
    ensures r.exclusive == SizeT.Dec(e.exclusive)
    ensures r.gate.open <==> r.exclusive == 0 || e.gate.open
    ensures r.global == e.global && r.shared == e.shared
  {
    var x := SizeT.Dec(e.exclusive);
    e.(exclusive := x, gate := if x == 0 then C.Notify(e.gate) else e.gate)
  }

  /** `unlock`: returns `global` and withdraws the writer. */
  function Unlock(e: Excl): (r: Excl)
    ensures r.global.count == e.global.count + 1
    ensures r.exclusive == SizeT.Dec(e.exclusive)
    ensures r.gate.open <==> r.exclusive == 0 || e.gate.open
    ensures r.shared == e.shared
  {
    Withdraw(e.(global := S.Notify(e.global)))
  }

  /** `try_lock` as written: on success it sets the writer count to 1,
      whatever writers had already announced themselves. */
  function TryLockAsWritten(e: Excl, busy: bool): (r: (bool, Excl))
    ensures r.0 <==> !busy && e.global.count > 0
    ensures r.0 ==> r.1.exclusive == 1 && !r.1.gate.open && r.1.global.count + 1 == e.global.count && r.1.shared == e.shared
    ensures !r.0 ==> r.1 == e
  {
    if busy then (false, e)
    else
      var (ok, g) := S.TryWait(e.global);
      if !ok then (false, e)
      else (true, e.(global := g, exclusive := 1, gate := C.Reset(e.gate)))
  }

  /** `try_lock` corrected: it counts itself in with the writers already
      announced. */
  function TryLock(e: Excl, busy: bool): (r: (bool, Excl))
    ensures r.0 <==> !busy && e.global.count > 0
    ensures r.0 ==> r.1 == AcquireGlobal(Announce(e)).(gate := C.Gate(false))
    ensures !r.0 ==> r.1 == e
  {
    if busy then (false, e)
    else
      var (ok, g) := S.TryWait(e.global);
      if !ok then (false, e)
      else (true, e.(global := g, exclusive := e.exclusive + 1, gate := C.Reset(e.gate)))
  }

  /** The second half of `try_lock_until` as written: when `global` is not
      taken by the deadline it withdraws, and still reports success. */
  function TryLockUntilFinishAsWritten(e: Excl, expired: bool): (r: (bool, Excl))
    requires e.global.count > 0 || expired
    ensures r.0
    ensures e.global.count > 0 ==> r.1 == AcquireGlobal(e)
    ensures e.global.count == 0 ==> r.1 == Withdraw(e)
  {
    var (ok, g) := S.WaitUntil(e.global, expired);
    if ok then (true, e.(global := g)) else (true, Withdraw(e))
  }

  /** The second half of `try_lock_until` corrected: it reports whether it
      took `global`. */
  function TryLockUntilFinish(e: Excl, expired: bool): (r: (bool, Excl))
    requires e.global.count > 0 || expired
    ensures r.0 <==> e.global.count > 0
    ensures r.0 ==> r.1 == AcquireGlobal(e)
    ensures !r.0 ==> r.1 == Withdraw(e)
  {
    var (ok, g) := S.WaitUntil(e.global, expired);
    if ok then (true, e.(global := g)) else (false, Withdraw(e))
  }

  /** A writer that gives up at its deadline leaves the lock as it found
      it, gate included. */
  lemma TimedGiveUpUndoes(e: Excl)
    requires e.global.count == 0
    requires e.gate.open <==> e.exclusive == 0
    ensures TryLockUntilFinish(Announce(e), true) == (false, e)
  {
  }

  // ---------------------------------------------------------------------
  // Mutual exclusion and writer preference
  // ---------------------------------------------------------------------

  /** The lock with its clients: `readers` hold a shared lock, `passed`
      readers are past the gate but not yet registered, `waiting` writers
      have announced themselves, `writers` hold the lock. */
  datatype Sys = Sys(lock: Excl, readers: nat, passed: nat, waiting: nat, writers: nat)

  predicate Inv(s: Sys)
  {
    && s.lock.shared == s.readers
    && (if s.readers > 0 then 1 else 0) + s.writers + s.lock.global.count == 1
    && s.lock.exclusive == s.waiting + s.writers
    && (s.lock.gate.open <==> s.lock.exclusive == 0)
  }

  /** At most one writer, and never beside a reader. */
  predicate Safe(s: Sys)
  {
    s.writers <= 1 && (s.writers > 0 ==> s.readers == 0)
  }

  datatype Action =
    | ReadPass | ReadRegister | ReadTry(busy: bool) | ReadRelease
    | WriteArrive | WriteProceed | WriteTry(busy: bool) | WriteGiveUp | WriteRelease

  predicate Enabled(s: Sys, a: Action)
  {
    match a
    case ReadPass => ReaderMayPass(s.lock)
    case ReadRegister => s.passed > 0 && ReaderMayRegister(s.lock)
    case ReadRelease => s.readers > 0
    case WriteProceed => s.waiting > 0 && s.lock.global.count > 0
    case WriteGiveUp => s.waiting > 0 && s.lock.global.count == 0
    case WriteRelease => s.writers > 0
    case _ => true
  }

  /** One client step, through the corrected `try_lock` and
      `try_lock_until`. */
  function Next(s: Sys, a: Action): (r: Sys)
    requires Enabled(s, a)
    ensures r.readers + r.passed <= s.readers + s.passed + 1
  {
    match a
    case ReadPass => s.(passed := s.passed + 1)
    case ReadRegister => s.(lock := RegisterReader(s.lock), passed := s.passed - 1, readers := s.readers + 1)
    case ReadTry(busy) =>
      var (ok, l) := TryLockShared(s.lock, busy);
      if ok then s.(lock := l, readers := s.readers + 1) else s
    case ReadRelease => s.(lock := UnlockShared(s.lock), readers := s.readers - 1)
    case WriteArrive => s.(lock := Announce(s.lock), waiting := s.waiting + 1)
    case WriteProceed => s.(lock := AcquireGlobal(s.lock), waiting := s.waiting - 1, writers := s.writers + 1)
    case WriteTry(busy) =>
      var (ok, l) := TryLock(s.lock, busy);
      if ok then s.(lock := l, writers := s.writers + 1) else s
    case WriteGiveUp => s.(lock := TryLockUntilFinish(s.lock, true).1, waiting := s.waiting - 1)
    case WriteRelease => s.(lock := Unlock(s.lock), writers := s.writers - 1)
  }

  function Init(): (s: Sys)
    ensures Inv(s) && Safe(s)
  {
    Sys(Create(), 0, 0, 0, 0)
  }

  /** The counters' agreement gives exclusion, and a waiting writer keeps
      new readers out. */
  lemma InvIsSafe(s: Sys)
    requires Inv(s)
    ensures Safe(s)
    ensures s.waiting > 0 ==> !Enabled(s, ReadPass)
  {
  }

  lemma NextPreservesInv(s: Sys, a: Action)
    requires Inv(s) && Enabled(s, a)
    ensures Inv(Next(s, a)) && Safe(Next(s, a))
  {
  }

  // ---------------------------------------------------------------------
  // The two defects, on concrete runs
  // ---------------------------------------------------------------------

  /** Writer A announces itself; writer B's `try_lock` succeeds and sets
      the count to 1 over A's announcement. */
  function TryLockOverWaiter(): (e: Excl)
    ensures e == TryLockAsWritten(Announce(Create()), false).1
    ensures TryLockAsWritten(Announce(Create()), false).0
  {
    Excl(S.Sem(0), 0, 1, C.Gate(false))
  }

  /** When B unlocks, the gate opens although A still waits; when A then
      takes and releases the lock, the count wraps to the largest
      `size_t`. */
  lemma TryLockLosesWaitingWriter()
    ensures var e := Unlock(TryLockOverWaiter());
      && e.exclusive == 0 && e.gate.open && e.global.count == 1
      && Unlock(AcquireGlobal(e)).exclusive == SizeT.MAX
  {
  }

  /** With the corrected `try_lock` the gate stays closed while A waits,
      and once A has come and gone the lock is back where it started. */
  lemma TryLockKeepsWaitingWriter()
    ensures var (ok, e) := TryLock(Announce(Create()), false);
      && ok && e.exclusive == 2
      && !Unlock(e).gate.open
      && Unlock(AcquireGlobal(Unlock(e))) == Create()
  {
  }

  /** Writer A holds the lock; writer B's `try_lock_until` times out and
      still reports success, so both believe they hold it. */
  lemma TryLockUntilClaimsHeldLock()
    ensures var held := AcquireGlobal(Announce(Create()));
      && held.global.count == 0
      && TryLockUntilFinishAsWritten(Announce(held), true).0
      && !TryLockUntilFinish(Announce(held), true).0
  {
  }
}
