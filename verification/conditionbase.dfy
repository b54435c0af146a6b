/** The semaphore-based condition variable of process/impl/condition_base.h,
    whose algorithm thread/event.h repeats for threads.

    Shared counters: `blocked` waiters that have entered and not been
    signalled, `unblock` signals handed out and not yet consumed, `gone`
    waiters that left (timed out) without a signal. `blockLock` is the gate
    new waiters pass on entry and a notifier closes while it hands out
    signals; `blockQueue` is where waiters sleep.

    A waiter's `wait` is split into the steps between which it may block:
    `Enter` (register), `Sleep` (wait on the queue), `Leave` (account under
    the unblock mutex) and `Finish` (drain gone waiters' tokens and reopen
    the gate). */
module ConditionBase {
  import S = Semaphore
  import opened Wrappers

  /** `numeric_limits<long>::max() / 2` for a 64-bit `long`: the number of
      gone waiters at which they are folded back into `blocked`. */
  const GoneLimit: int := 0x3FFF_FFFF_FFFF_FFFF

  datatype Cond = Cond(blocked: int, unblock: int, gone: int, blockLock: S.Sem, blockQueue: S.Sem)

  /** What `Leave` hands to `Finish`: the number of signals outstanding when
      this waiter woke and the gone waiters whose tokens it must drain. */
  datatype Exit = Exit(c: Cond, signalsLeft: int, waitersGone: int)

  /** Counters at zero, the gate open, nobody asleep. */
  predicate Idle(c: Cond)
  {
    c.blocked == 0 && c.unblock == 0 && c.gone == 0 && c.blockLock.count == 1 && c.blockQueue.count == 0
  }

  function Create(): (c: Cond)
    ensures Idle(c)
  {
    Cond(0, 0, 0, S.Create(1), S.Create(0))
  }

  /** The process constructor: the counters are zeroed only when no process
      has initialised them. */
  function Attach(existing: Option<Cond>): (c: Cond)
    ensures existing.None? ==> Idle(c)
    ensures existing.Some? ==> c == existing.value
  {
    match existing
    case None => Create()
    case Some(d) => d
  }

  /** Registering as blocked, through the gate (enabled while it is open). */
  function Enter(c: Cond): (r: Cond)
    requires c.blockLock.count > 0
    ensures r.blocked == c.blocked + 1
    ensures r.unblock == c.unblock && r.gone == c.gone
    ensures r.blockLock == c.blockLock && r.blockQueue == c.blockQueue
  {
    var g := S.Wait(c.blockLock);
    S.GuardNetZero(c.blockLock);
    c.(blocked := c.blocked + 1, blockLock := S.Notify(g))
  }

  /** Sleeping on the queue: without a timeout it is enabled only once a
      token is there; with one it may also end at the deadline (`expired`)
      without taking a token. Returns whether the wait timed out. */
  function Sleep(c: Cond, timeout: bool, expired: bool): (r: (bool, Cond))
    requires c.blockQueue.count > 0 || (timeout && expired)
    ensures r.0 <==> c.blockQueue.count == 0
    ensures !r.0 ==> r.1 == c.(blockQueue := S.Wait(c.blockQueue))
    ensures r.0 ==> r.1 == c
  {
    if timeout then
      var (ok, q) := S.WaitUntil(c.blockQueue, expired);
      (!ok, c.(blockQueue := q))
    else
      (false, c.(blockQueue := S.Wait(c.blockQueue)))
  }

  /** The accounting after waking, under the unblock mutex. A waiter that
      finds signals outstanding consumes one (a timed-out one also leaves
      `blocked`); the last of them either reopens the gate for waiters
      still blocked or collects the gone count. A waiter that finds none
      counts itself gone, and at `GoneLimit` folds `gone` into `blocked`
      through the gate. */
  function Leave(c: Cond, timedOut: bool): (r: Exit)
    requires c.unblock == 0 && c.gone + 1 == GoneLimit ==> c.blockLock.count > 0
    ensures r.signalsLeft == c.unblock || (r.signalsLeft == 0 && c.unblock == 1 && r.c.blocked != 0)
    ensures c.unblock != 0 ==> r.c.unblock == c.unblock - 1
    ensures c.unblock == 0 ==> r.c.unblock == 0 && r.waitersGone == 0
    ensures r.waitersGone != 0 ==> r.signalsLeft == 1 && r.c.gone == 0
    ensures r.c.blockQueue == c.blockQueue
    ensures r.c.blockLock.count == c.blockLock.count + (if c.unblock == 1 && r.c.blocked != 0 then 1 else 0)
    ensures c.unblock != 0 ==>
      && r.c.blocked == (if timedOut && c.blocked != 0 then c.blocked - 1 else c.blocked)
      && r.c.blocked - (r.c.gone + r.waitersGone) == c.blocked - c.gone - (if timedOut then 1 else 0)
    ensures c.unblock == 0 && c.gone + 1 != GoneLimit ==> r.c.blocked == c.blocked && r.c.gone == c.gone + 1
    ensures c.unblock == 0 && c.gone + 1 == GoneLimit ==> r.c.blocked == c.blocked - GoneLimit && r.c.gone == 0
    ensures c.unblock == 0 ==> r.c.blocked - r.c.gone == c.blocked - c.gone - 1
  {
    if c.unblock != 0 then
      var c1 := if timedOut then (if c.blocked != 0 then c.(blocked := c.blocked - 1) else c.(gone := c.gone + 1)) else c;
      var c2 := c1.(unblock := c1.unblock - 1);
      if c2.unblock == 0 then
        if c2.blocked != 0 then
          Exit(c2.(blockLock := S.Notify(c2.blockLock)), 0, 0)
        else
          Exit(c2.(gone := 0), c.unblock, c2.gone)
      else Exit(c2, c.unblock, 0)
    else
      var c1 := c.(gone := c.gone + 1);
      if c1.gone == GoneLimit then
        var g := S.Wait(c1.blockLock);
        S.GuardNetZero(c1.blockLock);
        Exit(c1.(blocked := c1.blocked - c1.gone, gone := 0, blockLock := S.Notify(g)), 0, 0)
      else Exit(c1, 0, 0)
  }

  /** The `signalsLeft` returned above is the outstanding count read before
      this waiter consumed its signal; when the gate was handed to a blocked
      waiter it is reported as 0. */
  lemma LeaveReportsLastSignal(c: Cond, timedOut: bool)
    requires c.unblock == 1 && (c.blocked == 0 || (timedOut && c.blocked == 1))
    ensures Leave(c, timedOut).signalsLeft == 1 || Leave(c, timedOut).c.blocked != 0
  {
  }

  /** The tokens `Finish` drains are there to take. */
  predicate CanFinish(e: Exit)
  {
    e.signalsLeft == 1 && e.waitersGone > 0 ==> e.c.blockQueue.count >= e.waitersGone
  }

  /** The last signalled waiter drains one queue token per gone waiter and
      reopens the gate (enabled once those tokens are there). */
  function Finish(e: Exit): (r: Cond)
    requires CanFinish(e)
    ensures e.signalsLeft != 1 ==> r == e.c
    ensures e.signalsLeft == 1 ==>
      && r.blockLock.count == e.c.blockLock.count + 1
      && r.blockQueue.count == e.c.blockQueue.count - (if e.waitersGone > 0 then e.waitersGone else 0)
      && r.blocked == e.c.blocked && r.unblock == e.c.unblock && r.gone == e.c.gone
  {
    if e.signalsLeft == 1 then
      var q := if e.waitersGone > 0 then S.Sem(e.c.blockQueue.count - e.waitersGone) else e.c.blockQueue;
      e.c.(blockQueue := q, blockLock := S.Notify(e.c.blockLock))
    else e.c
  }

  /** Tokens a notifier posts for `signals`: its loop runs only while the
      count is positive. */
  function Posted(signals: int): nat
  {
    if signals > 0 then signals else 0
  }

  /** `notify(broadcast)`: returns the signal count it computed. With
      signals already outstanding it adds to them; otherwise, when more
      waiters are blocked than have gone, it closes the gate (enabled while
      the gate is open), forgets the gone waiters and hands out signals.
      Each signal is one token posted on the queue. */
  function Notify(c: Cond, broadcast: bool): (r: (int, Cond))
    requires c.unblock == 0 && c.blocked > c.gone ==> c.blockLock.count > 0
    ensures r.1.blockQueue.count == c.blockQueue.count + Posted(r.0)
    ensures !broadcast ==> r.0 == 0 || r.0 == 1
    ensures r.0 != 0 && broadcast ==> r.1.blocked == 0
    ensures c.unblock != 0 ==>
      && r.1.unblock == c.unblock + r.0 && r.1.blocked == c.blocked - r.0
      && r.1.gone == c.gone && r.1.blockLock == c.blockLock
      && (r.0 != 0 <==> c.blocked != 0)
    ensures c.unblock == 0 && c.blocked > c.gone ==>
      && r.1.unblock == r.0 && r.1.blocked == c.blocked - c.gone - r.0 && r.1.gone == 0
      && r.1.blockLock.count + 1 == c.blockLock.count
      && r.0 > 0
    ensures c.unblock == 0 && c.blocked <= c.gone ==> r == (0, c)
  {
    if c.unblock != 0 then
      if c.blocked == 0 then (0, c) else HandOut(c, broadcast)
    else if c.blocked > c.gone then
      HandOut(CloseGate(c), broadcast)
    else (0, c)
  }

  /** Closing the gate and forgetting the gone waiters, which are no longer
      blocked. */
  function CloseGate(c: Cond): (h: Cond)
    requires c.blockLock.count > 0
    ensures h.blocked + c.gone == c.blocked && h.gone == 0
    ensures h.unblock == c.unblock && h.blockQueue == c.blockQueue
    ensures h.blockLock.count + 1 == c.blockLock.count
  {
    var g := c.(blockLock := S.Wait(c.blockLock));
    if g.gone != 0 then g.(blocked := g.blocked - g.gone, gone := 0) else g
  }

  /** Moving every blocked waiter (or one) to `unblock` and posting a queue
      token per signal. */
  function HandOut(h: Cond, broadcast: bool): (r: (int, Cond))
    ensures r.0 == (if broadcast then h.blocked else 1)
    ensures r.1.unblock == h.unblock + r.0 && r.1.blocked == h.blocked - r.0
    ensures r.1.gone == h.gone && r.1.blockLock == h.blockLock
    ensures r.1.blockQueue.count == h.blockQueue.count + Posted(r.0)
  {
    if broadcast then
      (h.blocked, h.(unblock := h.unblock + h.blocked, blocked := 0, blockQueue := S.Sem(h.blockQueue.count + Posted(h.blocked))))
    else
      (1, h.(unblock := h.unblock + 1, blocked := h.blocked - 1, blockQueue := S.Notify(h.blockQueue)))
  }

  /** `notify_one` and `notify_all`. */
  function NotifyOne(c: Cond): (r: (int, Cond))
    requires c.unblock == 0 && c.blocked > c.gone ==> c.blockLock.count > 0
    ensures r == Notify(c, false) && r.0 <= 1
  {
    Notify(c, false)
  }

  function NotifyAll(c: Cond): (r: (int, Cond))
    requires c.unblock == 0 && c.blocked > c.gone ==> c.blockLock.count > 0
    ensures r == Notify(c, true)
    ensures c.unblock == 0 && c.gone == 0 && c.blocked > 0 ==> r.0 == c.blocked && r.1.blocked == 0
  {
    Notify(c, true)
  }

  // ---------------------------------------------------------------------
  // Scenarios
  // ---------------------------------------------------------------------

  /** `n` waiters have entered an idle condition. */
  function Waiting(n: nat): (c: Cond)
    ensures c.blocked == n && c.unblock == 0 && c.gone == 0 && c.blockLock.count == 1 && c.blockQueue.count == 0
  {
    if n == 0 then Create() else Enter(Waiting(n - 1))
  }

  /** One signalled waiter's whole wake-up: sleep (a token is there), leave,
      finish. Returns whether `wait` reports success. */
  function WakeOne(c: Cond): (r: (bool, Cond))
    requires c.blockQueue.count > 0 && c.unblock > 0
    requires c.unblock == 1 && c.blocked == 0 && c.gone > 0 ==> c.blockQueue.count > c.gone
  {
    var (timedOut, c1) := Sleep(c, false, false);
    var e := Leave(c1, timedOut);
    (!timedOut, Finish(e))
  }

  /** `k` signalled waiters wake one after the other. */
  function WakeAll(c: Cond, k: nat): (r: (bool, Cond))
    requires c.blockQueue.count == k && c.unblock == k && c.blocked == 0 && c.gone == 0
    decreases k
  {
    if k == 0 then (true, c)
    else
      var (ok, c1) := WakeOne(c);
      assert c1.blockQueue.count == k - 1 && c1.unblock == k - 1 && c1.blocked == 0 && c1.gone == 0;
      var (ok2, c2) := WakeAll(c1, k - 1);
      (ok && ok2, c2)
  }

  lemma {:induction false} WakeAllReopensGate(c: Cond, k: nat)
    requires c.blockQueue.count == k && c.unblock == k && c.blocked == 0 && c.gone == 0
    requires k > 0 ==> c.blockLock.count == 0
    requires k == 0 ==> c.blockLock.count == 1
    ensures WakeAll(c, k).0 && Idle(WakeAll(c, k).1)
    decreases k
  {
    if k > 0 {
      var (ok, c1) := WakeOne(c);
      WakeAllReopensGate(c1, k - 1);
    }
  }

  /** `notify_all` with `n` waiters: every one of them wakes with success
      and the condition returns to idle. */
  lemma NotifyAllWakesEveryone(n: nat)
    ensures var (posted, c) := NotifyAll(Waiting(n));
      && posted == n
      && c.blockQueue.count == n && c.unblock == n && c.blocked == 0 && c.gone == 0
      && WakeAll(c, n).0 && Idle(WakeAll(c, n).1)
  {
    var (posted, c) := NotifyAll(Waiting(n));
    WakeAllReopensGate(c, n);
  }

  /** `notify_one` with `n` waiters wakes exactly one, and leaves the other
      `n - 1` waiting behind an open gate. */
  lemma NotifyOneWakesOne(n: nat)
    requires n > 0
    ensures var (posted, c) := NotifyOne(Waiting(n));
      && posted == 1 && c.blockQueue.count == 1 && c.unblock == 1
      && WakeOne(c).0 && WakeOne(c).1 == Waiting(n - 1)
  {
  }

  /** The state after one waiter entered an idle condition and its
      deadline passed with no signal. */
  const LoneGone: Cond := Cond(1, 0, 1, S.Sem(1), S.Sem(0))

  lemma OneWaiting()
    ensures Waiting(1) == Cond(1, 0, 0, S.Sem(1), S.Sem(0))
  {
  }

  lemma OneWaiterSleepsPastDeadline()
    ensures Sleep(Cond(1, 0, 0, S.Sem(1), S.Sem(0)), true, true) == (true, Cond(1, 0, 0, S.Sem(1), S.Sem(0)))
  {
  }

  lemma OneWaiterLeavesGone()
    ensures Leave(Cond(1, 0, 0, S.Sem(1), S.Sem(0)), true) == Exit(LoneGone, 0, 0)
  {
  }

  /** A lone waiter whose deadline passes with no signal reports a timeout
      and counts itself gone, with nothing for `Finish` to do. */
  lemma LoneWaiterTimesOut()
    ensures Sleep(Waiting(1), true, true).0
    ensures Leave(Sleep(Waiting(1), true, true).1, true) == Exit(LoneGone, 0, 0)
  {
    OneWaiting();
    OneWaiterSleepsPastDeadline();
    OneWaiterLeavesGone();
  }

  /** A gone waiter is not signalled by a later notify. */
  lemma TimedOutWaiterIsNotSignalled()
    ensures NotifyOne(LoneGone) == (0, LoneGone) && NotifyAll(LoneGone) == (0, LoneGone)
  {
  }

  /** After a waiter has gone, the next notify forgets it and signals only
      the waiter that is really there. */
  lemma GoneWaiterIsForgotten()
    ensures NotifyAll(Enter(LoneGone)) == (1, Cond(0, 1, 0, S.Sem(0), S.Sem(1)))
  {
    SecondWaiterEnters();
    NotifyForgetsGone();
  }

  lemma SecondWaiterEnters()
    ensures Enter(LoneGone) == Cond(2, 0, 1, S.Sem(1), S.Sem(0))
  {
  }

  lemma NotifyForgetsGone()
    ensures NotifyAll(Cond(2, 0, 1, S.Sem(1), S.Sem(0))) == (1, Cond(0, 1, 0, S.Sem(0), S.Sem(1)))
  {
    assert CloseGate(Cond(2, 0, 1, S.Sem(1), S.Sem(0))) == Cond(1, 0, 0, S.Sem(0), S.Sem(0));
  }
}
