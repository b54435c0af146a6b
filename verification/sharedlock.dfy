/** The reader-preferring reader/writer lock of
    thread/impl/shared_mutex_shared.h and process/impl/shared_mutex_shared.h:
    readers share the one-token `global` semaphore as a group (the first
    takes it, the last returns it), and a writer simply holds it. A reader
    waiting for `global` does so under the internal mutex, so registration
    is one step enabled once it can complete; `busy` says the mutex's
    `try_lock` failed. */
module SharedLock {
  import S = Semaphore
  import SizeT
  import opened Wrappers

  datatype Shr = Shr(global: S.Sem, shared: nat)

  function Create(): (l: Shr)
    ensures l.global.count == 1 && l.shared == 0
  {
    Shr(S.Create(1), 0)
  }

  /** The process constructor: the reader count is zeroed only by the first
      process to attach. */
  function Attach(existing: Option<Shr>): (l: Shr)
    ensures existing.None? ==> l.shared == 0 && l.global.count == 1
    ensures existing.Some? ==> l == existing.value
  {
    match existing
    case None => Create()
    case Some(x) => x
  }

  /** The first reader must take `global`; later ones join at once. */
  predicate ReaderMayRegister(l: Shr)
  {
    l.shared != 0 || l.global.count > 0
  }

  /** `lock_shared`. */
  function LockShared(l: Shr): (r: Shr)
    requires ReaderMayRegister(l)
    ensures r.shared == l.shared + 1
    ensures r.global.count == (if l.shared == 0 then l.global.count - 1 else l.global.count)
  {
    if l.shared == 0 then Shr(S.Wait(l.global), 1) else l.(shared := l.shared + 1)
  }

  /** `try_lock_shared`: fails with no change when the mutex is busy or it
      would be the first reader and `global` is held. */
  function TryLockShared(l: Shr, busy: bool): (r: (bool, Shr))
    ensures r.0 <==> !busy && ReaderMayRegister(l)
    ensures r.0 ==> r.1 == LockShared(l)
    ensures !r.0 ==> r.1 == l
  {
    if busy then (false, l)
    else if l.shared == 0 then
      var (ok, g) := S.TryWait(l.global);
      if !ok then (false, l) else (true, Shr(g, 1))
    else (true, l.(shared := l.shared + 1))
  }

  /** `try_lock_shared_until`: as `try_lock_shared`, but it may wait until
      the deadline for the mutex (`acquired`) and for `global`. */
  function TryLockSharedUntil(l: Shr, acquired: bool, expired: bool): (r: (bool, Shr))
    requires acquired && !ReaderMayRegister(l) ==> expired
    ensures r.0 <==> acquired && ReaderMayRegister(l)
    ensures r.0 ==> r.1 == LockShared(l)
    ensures !r.0 ==> r.1 == l
  {
    if !acquired then (false, l)
    else if l.shared == 0 then
      var (ok, g) := S.WaitUntil(l.global, expired);
      if !ok then (false, l) else (true, Shr(g, 1))
    else (true, l.(shared := l.shared + 1))
  }

  /** `unlock_shared`: the last reader returns `global`. */
  function UnlockShared(l: Shr): (r: Shr)
    ensures r.shared == SizeT.Dec(l.shared)
    ensures r.global.count == (if r.shared == 0 then l.global.count + 1 else l.global.count)
  {
    var n := SizeT.Dec(l.shared);
    if n == 0 then Shr(S.Notify(l.global), n) else l.(shared := n)
  }

  /** `lock`, `try_lock`, `try_lock_until` and `unlock` are the semaphore's
      own operations on `global`. */
  function Lock(l: Shr): (r: Shr)
    requires l.global.count > 0
    ensures r.global.count + 1 == l.global.count && r.shared == l.shared
  {
    l.(global := S.Wait(l.global))
  }

  function TryLock(l: Shr): (r: (bool, Shr))
    ensures r.0 <==> l.global.count > 0
    ensures r.0 ==> r.1 == Lock(l)
    ensures !r.0 ==> r.1 == l
  {
    var (ok, g) := S.TryWait(l.global);
    (ok, l.(global := g))
  }

  function TryLockUntil(l: Shr, expired: bool): (r: (bool, Shr))
    requires l.global.count > 0 || expired
    ensures r.0 <==> l.global.count > 0
    ensures r.0 ==> r.1 == Lock(l)
    ensures !r.0 ==> r.1 == l
  {
    var (ok, g) := S.WaitUntil(l.global, expired);
    (ok, l.(global := g))
  }

  function Unlock(l: Shr): (r: Shr)
    ensures r.global.count == l.global.count + 1 && r.shared == l.shared
  {
    l.(global := S.Notify(l.global))
  }

  /** A reader (or a writer) that locks and unlocks leaves the lock as it
      found it. */
  lemma LockUnlockRoundTrip(l: Shr)
    requires l.global.count > 0
    ensures Unlock(Lock(l)) == l
    ensures UnlockShared(LockShared(l)) == l
  {
  }

  // ---------------------------------------------------------------------
  // Mutual exclusion
  // ---------------------------------------------------------------------

  /** The lock with its clients: `readers` hold a shared lock, `writers`
      hold the exclusive one. */
  datatype Sys = Sys(lock: Shr, readers: nat, writers: nat)

  predicate Inv(s: Sys)
  {
    && s.lock.shared == s.readers
    && (if s.readers > 0 then 1 else 0) + s.writers + s.lock.global.count == 1
  }

  predicate Safe(s: Sys)
  {
    s.writers <= 1 && (s.writers > 0 ==> s.readers == 0)
  }

  datatype Action = ReadLock | ReadTry(busy: bool) | ReadRelease | WriteLock | WriteTry | WriteRelease

  predicate Enabled(s: Sys, a: Action)
  {
    match a
    case ReadLock => ReaderMayRegister(s.lock)
    case ReadRelease => s.readers > 0
    case WriteLock => s.lock.global.count > 0
    case WriteRelease => s.writers > 0
    case _ => true
  }

  function Next(s: Sys, a: Action): (r: Sys)
    requires Enabled(s, a)
    ensures r.readers <= s.readers + 1 && r.writers <= s.writers + 1
  {
    match a
    case ReadLock => s.(lock := LockShared(s.lock), readers := s.readers + 1)
    case ReadTry(busy) =>
      var (ok, l) := TryLockShared(s.lock, busy);
      if ok then s.(lock := l, readers := s.readers + 1) else s
    case ReadRelease => s.(lock := UnlockShared(s.lock), readers := s.readers - 1)
    case WriteLock => s.(lock := Lock(s.lock), writers := s.writers + 1)
    case WriteTry =>
      var (ok, l) := TryLock(s.lock);
      if ok then s.(lock := l, writers := s.writers + 1) else s
    case WriteRelease => s.(lock := Unlock(s.lock), writers := s.writers - 1)
  }

  function Init(): (s: Sys)
    ensures Inv(s) && Safe(s)
  {
    Sys(Create(), 0, 0)
  }

  /** Readers are preferred: while any reader holds the lock another reader
      always gets in, whatever writers wait. */
  lemma InvIsSafe(s: Sys)
    requires Inv(s)
    ensures Safe(s)
    ensures s.readers > 0 ==> Enabled(s, ReadLock) && !Enabled(s, WriteLock)
  {
  }

  lemma NextPreservesInv(s: Sys, a: Action)
    requires Inv(s) && Enabled(s, a)
    ensures Inv(Next(s, a)) && Safe(Next(s, a))
  {
  }
}
