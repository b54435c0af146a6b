/** thread/rendezvous.h: a reusable barrier for `size` threads. Arrivals
    count `countdown` down; the arrival that finds it at 1 or below sets it
    to 0, which releases the waiters; departures count `countup` up, and
    the last departure resets both counters for the next round. */
module Rendezvous {
  datatype Rv = Rv(countdown: nat, countup: nat, size: nat)

  function Create(size: nat): (r: Rv)
    ensures r.countdown == size && r.countup == 0 && r.size == size
  {
    Rv(size, 0, size)
  }

  /** The part of `wait` after the thread is released: count the departure,
      and reset when every thread has left. */
  function Depart(r: Rv): (q: Rv)
    ensures q.size == r.size
    ensures r.countup + 1 == r.size ==> q == Create(r.size)
    ensures r.countup + 1 != r.size ==> q.countup == r.countup + 1 && q.countdown == r.countdown
  {
    var up := r.countup + 1;
    if up == r.size then Rv(r.size, 0, r.size) else r.(countup := up)
  }

  /** A waiting thread is released once `countdown` is 0. */
  predicate Released(r: Rv)
  {
    r.countdown == 0
  }

  /** The arrival half of `wait`: returns whether the thread passes at
      once (and has then also departed) rather than waiting. */
  function Arrive(r: Rv): (q: (bool, Rv))
    ensures q.0 <==> r.countdown <= 1
    ensures q.0 ==> q.1 == Depart(r.(countdown := 0))
    ensures !q.0 ==> q.1 == r.(countdown := r.countdown - 1)
  {
    if r.countdown <= 1 then (true, Depart(r.(countdown := 0)))
    else (false, r.(countdown := r.countdown - 1))
  }

  /** The barrier with its threads: `waiting` have arrived and not yet
      departed. */
  datatype Sys = Sys(rv: Rv, waiting: nat)

  datatype Action = ArriveStep | DepartStep

  /** As written, an arrival may start at any time. */
  predicate EnabledAsWritten(s: Sys, a: Action)
  {
    match a
    case ArriveStep => true
    case DepartStep => s.waiting > 0 && Released(s.rv)
  }

  /** Corrected, an arrival first waits for the previous round to have
      left, i.e. for `countdown` to be reset. */
  predicate Enabled(s: Sys, a: Action)
  {
    match a
    case ArriveStep => !Released(s.rv)
    case DepartStep => s.waiting > 0 && Released(s.rv)
  }

  function Next(s: Sys, a: Action): (r: Sys)
    requires EnabledAsWritten(s, a)
    ensures r.rv.size == s.rv.size
  {
    match a
    case ArriveStep =>
      var (passed, q) := Arrive(s.rv);
      Sys(q, if passed then s.waiting else s.waiting + 1)
    case DepartStep => Sys(Depart(s.rv), s.waiting - 1)
  }

  /** While a round fills, the threads waiting are exactly those that have
      counted `countdown` down; once it is released, those waiting and
      those that have left make up the whole round. */
  predicate Inv(s: Sys)
  {
    var r := s.rv;
    && r.size > 0 && r.countdown <= r.size
    && (r.countdown > 0 ==> r.countup == 0 && s.waiting == r.size - r.countdown)
    && (r.countdown == 0 ==> 1 <= r.countup < r.size && r.countup + s.waiting == r.size)
  }

  lemma InitInv(size: nat)
    requires size > 0
    ensures Inv(Sys(Create(size), 0))
  {
  }

  /** With the corrected arrival, every step keeps the round accounting:
      a thread only ever departs from a round all `size` threads reached,
      and a full set of waiters is always released. */
  lemma NextPreservesInv(s: Sys, a: Action)
    requires Inv(s) && Enabled(s, a)
    ensures Inv(Next(s, a))
    ensures a.DepartStep? ==> s.rv.countup + s.waiting == s.rv.size
    ensures s.waiting == s.rv.size - 1 && s.rv.countdown > 0 ==> s.rv.countdown == 1
  {
  }

  /** As written, with two threads: A waits, B releases it, and B comes
      round again before A has left. B passes alone and resets the
      counters, so A is not released; B's third arrival then waits too, and
      both threads wait with no release to come. */
  function Stranded(): (s: Sys)
    ensures s == Next(Next(Next(Next(Sys(Create(2), 0), ArriveStep), ArriveStep), ArriveStep), ArriveStep)
  {
    Sys(Rv(1, 0, 2), 2)
  }

  lemma ReuseStrandsWaiter()
    ensures Next(Next(Next(Sys(Create(2), 0), ArriveStep), ArriveStep), ArriveStep) == Sys(Create(2), 1)
    ensures Stranded().waiting == Stranded().rv.size
    ensures !EnabledAsWritten(Stranded(), DepartStep)
    ensures !Inv(Stranded())
  {
  }
}

/** process/rendezvous.h: the same barrier across processes, with the
    waiters asleep on a named semaphore. The arrival that completes a round
    resets `count` and posts one token for each of the other `size - 1`. */
module ProcessRendezvous {
  import S = Semaphore
  import SizeT
  import opened Wrappers

  datatype PRv = PRv(count: nat, size: nat, sem: S.Sem)

  /** The constructor: `size` and `count` are set only by the first
      process to attach; the semaphore starts at 0. */
  function Attach(existing: Option<PRv>, size: nat): (r: PRv)
    ensures existing.None? ==> r.count == size && r.size == size && r.sem.count == 0
    ensures existing.Some? ==> r == existing.value
  {
    match existing
    case None => PRv(size, size, S.Create(0))
    case Some(p) => p
  }

  /** The part of `wait` under the mutex: returns whether the caller goes
      on at once (`count` already 0, or it completed the round) rather
      than sleeping on the semaphore. */
  function Arrive(r: PRv): (q: (bool, PRv))
    ensures r.count == 0 ==> q == (true, r)
    ensures r.count == 1 ==> q.0 && q.1.count == r.size && q.1.sem.count == r.sem.count + Release(r.size)
    ensures r.count > 1 ==> !q.0 && q.1 == r.(count := r.count - 1)
  {
    if r.count == 0 then (true, r)
    else if r.count - 1 == 0 then (true, r.(count := r.size, sem := S.Sem(r.sem.count + Release(r.size))))
    else (false, r.(count := r.count - 1))
  }

  /** The `size - 1` notifications, computed in `size_t` (a size of 0
      would wrap, but then `count` starts at 0 and no round completes). */
  function Release(size: nat): (n: nat)
    ensures size > 0 ==> n + 1 == size
    ensures size == 0 ==> n == SizeT.MAX
  {
    SizeT.Dec(size)
  }

  /** A sleeper wakes by taking a token. */
  function Wake(r: PRv): (q: PRv)
    requires r.sem.count > 0
    ensures q.sem.count + 1 == r.sem.count && q.count == r.count && q.size == r.size
  {
    r.(sem := S.Wait(r.sem))
  }

  /** Every sleeper is either still waiting for its round to fill or has a
      token posted for it. */
  predicate Inv(r: PRv, sleeping: nat)
  {
    1 <= r.count <= r.size && sleeping == (r.size - r.count) + r.sem.count
  }

  lemma AttachInv(size: nat)
    requires size > 0
    ensures Inv(Attach(None, size), 0)
  {
  }

  lemma ArriveKeepsInv(r: PRv, sleeping: nat)
    requires Inv(r, sleeping)
    ensures var (goes, q) := Arrive(r);
      Inv(q, if goes then sleeping else sleeping + 1)
  {
  }

  lemma WakeKeepsInv(r: PRv, sleeping: nat)
    requires Inv(r, sleeping) && r.sem.count > 0
    ensures Inv(Wake(r), sleeping - 1)
  {
  }

  /** The last of `size` arrivals posts exactly enough tokens to wake the
      `size - 1` sleepers, and leaves the barrier ready for the next
      round. */
  lemma FullRoundWakesAll(size: nat)
    requires size > 0
    ensures var q := Arrive(PRv(1, size, S.Sem(0)));
      q.0 && q.1 == Attach(None, size).(sem := S.Sem(size - 1))
  {
  }

  /** With one participant the lone arrival posts nothing. */
  lemma SizeOneIsNoOp()
    ensures Arrive(Attach(None, 1)) == (true, Attach(None, 1))
  {
  }
}
