/** thread/condition.h: a gate that threads wait on until it is open. The
    standard condition variable inside it is not modelled separately: a
    blocked `wait` is a transition enabled only while the gate is open. */
module Condition {
  datatype Gate = Gate(open: bool)

  function Create(value: bool): (g: Gate)
    ensures g.open == value
  {
    Gate(value)
  }

  /** `wait`: enabled only once the gate is open, and leaves it as it is. */
  function Wait(g: Gate): (r: Gate)
    requires g.open
    ensures r.open && r == g
  {
    g
  }

  /** `wait_until`: false when the mutex cannot be taken by the deadline;
      otherwise it returns as soon as the gate is open, or at the deadline
      (`expired`) with the gate's state then. */
  function WaitUntil(g: Gate, acquired: bool, expired: bool): (r: bool)
    requires !acquired || g.open || expired
    ensures r <==> acquired && g.open
  {
    if !acquired then false else g.open
  }

  /** `notify`: opens the gate; every waiter is woken to see it. */
  function Notify(g: Gate): (r: Gate)
    ensures r.open
  {
    Gate(true)
  }

  /** `reset`: closes the gate. */
  function Reset(g: Gate): (r: Gate)
    ensures !r.open
  {
    Gate(false)
  }

  /** Once notified, waiters pass and timed waiters that get the mutex
      succeed, until a reset closes the gate again. */
  lemma NotifyThenResetCycle(g: Gate, acquired: bool, expired: bool)
    ensures WaitUntil(Notify(g), acquired, expired) == acquired
    ensures Wait(Notify(g)) == Notify(g)
    ensures acquired && expired ==> !WaitUntil(Reset(Notify(g)), acquired, expired)
  {
  }
}

/** process/condition.h: the same gate, kept in shared memory and built on
    the process condition base. The stored value is initialised only by the
    first process to attach. */
module ProcessCondition {
  import CB = ConditionBase
  import opened Wrappers

  datatype PCond = PCond(value: bool, base: CB.Cond)

  /** The constructor: a fresh condition stores `value`; an existing one is
      left as it is. */
  function Attach(existing: Option<PCond>, value: bool): (p: PCond)
    ensures existing.None? ==> p.value == value && CB.Idle(p.base)
    ensures existing.Some? ==> p == existing.value
  {
    match existing
    case None => PCond(value, CB.Create())
    case Some(q) => q
  }

  /** `wait`: the loop returns once it reads the value as true; each read of
      false is followed by one base `wait` (the `ConditionBase` steps). */
  function Wait(p: PCond): (r: PCond)
    requires p.value
    ensures r == p
  {
    p
  }

  /** One pass of the `wait_until` loop: whether the base timed wait
      returned with a signal, the value read afterwards, and whether the
      deadline had passed by then. */
  datatype Round = Round(signalled: bool, value: bool, late: bool)

  /** `wait_until` over the rounds the loop goes through: `None` while it is
      still waiting after the given rounds. */
  function WaitUntil(acquired: bool, value: bool, rounds: seq<Round>): (r: Option<bool>)
    ensures !acquired ==> r == Some(false)
    ensures acquired && value ==> r == Some(true)
    ensures r == Some(true) ==> acquired && (value || exists i :: 0 <= i < |rounds| && rounds[i].value)
    ensures r.None? ==> acquired && !value && forall i :: 0 <= i < |rounds| ==> !rounds[i].signalled && !rounds[i].late
    decreases |rounds|
  {
    if !acquired then Some(false)
    else if value then Some(true)
    else if |rounds| == 0 then None
    else if rounds[0].signalled then Some(rounds[0].value)
    else if rounds[0].late then Some(false)
    else
      var r := WaitUntil(true, rounds[0].value, rounds[1..]);
      assert r == Some(true) ==> exists i :: 0 <= i < |rounds| && rounds[i].value by {
        if r == Some(true) && !rounds[0].value {
          var i :| 0 <= i < |rounds[1..]| && rounds[1..][i].value;
          assert rounds[i + 1].value;
        }
      }
      r
  }

  /** The loop ends at the first round that is signalled or late (or at the
      first read of true), and its answer is the value it read last. */
  lemma {:induction false} WaitUntilEndsAtFirstSignal(value: bool, rounds: seq<Round>, k: nat)
    requires !value && k < |rounds|
    requires rounds[k].signalled
    requires forall i :: 0 <= i < k ==> !rounds[i].signalled && !rounds[i].late && !rounds[i].value
    ensures WaitUntil(true, value, rounds) == Some(rounds[k].value)
    decreases k
  {
    if k > 0 {
      WaitUntilEndsAtFirstSignal(rounds[0].value, rounds[1..], k - 1);
    }
  }

  /** `notify`: stores true, then signals every waiter blocked in the base. */
  function Notify(p: PCond): (r: PCond)
    requires p.base.unblock == 0 && p.base.blocked > p.base.gone ==> p.base.blockLock.count > 0
    ensures r.value
    ensures p.base.unblock == 0 && p.base.gone == 0 && p.base.blocked > 0 ==>
      r.base.blocked == 0 && r.base.unblock == p.base.blocked
  {
    PCond(true, CB.NotifyAll(p.base).1)
  }

  /** `reset`: stores false and leaves the base alone. */
  function Reset(p: PCond): (r: PCond)
    ensures !r.value && r.base == p.base
  {
    p.(value := false)
  }

  /** With `n` processes waiting on a closed condition, `notify` wakes every
      one of them, each then reads true, and the base returns to idle. */
  lemma NotifyReleasesAll(n: nat)
    ensures var r := Notify(PCond(false, CB.Waiting(n)));
      && r.value
      && CB.WakeAll(r.base, n).0 && CB.Idle(CB.WakeAll(r.base, n).1)
  {
    CB.NotifyAllWakesEveryone(n);
  }
}
