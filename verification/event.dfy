/** thread/event.h: the same gate-and-queue algorithm as the process
    condition base, on thread semaphores. An event is a `ConditionBase.Cond`;
    this module adds the whole of one waiter's `wait` after it has entered. */
module Event {
  import CB = ConditionBase

  type Event = CB.Cond

  /** What a waiter that has entered does next: sleep on the queue (until a
      token comes, or at the deadline when `timeout` is set), account for
      itself and, as the last signalled waiter, drain and reopen the gate.
      Returns `!timed_out`. */
  function Wait(e: Event, timeout: bool, expired: bool): (r: (bool, Event))
    requires e.blockQueue.count > 0 || (timeout && expired)
    requires e.unblock == 0 && e.gone + 1 == CB.GoneLimit ==> e.blockLock.count > 0
    requires CB.CanFinish(CB.Leave(CB.Sleep(e, timeout, expired).1, CB.Sleep(e, timeout, expired).0))
    ensures r.0 <==> e.blockQueue.count > 0
    ensures r.1.unblock == (if e.unblock != 0 then e.unblock - 1 else 0)
    ensures !r.0 && e.unblock == 0 ==>
      r.1.gone == e.gone + 1 || (e.gone + 1 == CB.GoneLimit && r.1.gone == 0)
  {
    var (timedOut, c1) := CB.Sleep(e, timeout, expired);
    var x := CB.Leave(c1, timedOut);
    (!timedOut, CB.Finish(x))
  }

  /** A signalled waiter reports success even when its deadline has passed
      by the time it runs: the token is there. */
  lemma SignalledWaiterSucceeds(n: nat)
    requires n > 0
    ensures var c := CB.NotifyAll(CB.Waiting(n)).1;
      c.blockQueue.count == n && Wait(c, true, true).0
  {
    CB.NotifyAllWakesEveryone(n);
    var c := CB.NotifyAll(CB.Waiting(n)).1;
    assert CB.Sleep(c, true, true).0 == false;
  }

  /** A waiter whose deadline passes before any notify reports failure and
      counts itself gone. */
  lemma UnsignalledWaiterTimesOut(n: nat)
    requires n > 0
    ensures !Wait(CB.Waiting(n), true, true).0
    ensures Wait(CB.Waiting(n), true, true).1.gone == 1
  {
  }
}
