/** The counting semaphore of thread/semaphore.h: a count that never goes
    below zero; `wait` blocks while it is zero. Every other primitive in the
    model is built from these transitions. */
module Semaphore {

  /** Count used when the constructor is given no argument. */
  const DefaultCount: nat := 1

  datatype Sem = Sem(count: nat)

  function Create(initial: nat): (s: Sem)
    ensures s.count == initial
  {
    Sem(initial)
  }

  /** `notify`: one more resource. */
  function Notify(s: Sem): (r: Sem)
    ensures r.count == s.count + 1
  {
    Sem(s.count + 1)
  }

  /** `wait`: enabled only while the count is positive (otherwise the caller
      blocks); takes one resource. */
  function Wait(s: Sem): (r: Sem)
    requires s.count > 0
    ensures r.count + 1 == s.count
  {
    Sem(s.count - 1)
  }

  /** `try_wait`: never blocks. */
  function TryWait(s: Sem): (r: (bool, Sem))
    ensures r.0 <==> s.count > 0
    ensures r.0 ==> r.1 == Wait(s)
    ensures !r.0 ==> r.1 == s
  {
    if s.count > 0 then (true, Sem(s.count - 1)) else (false, s)
  }

  /** `wait_for` / `wait_until`: the predicate is checked before sleeping, so
      an available resource is always taken; otherwise the call returns only
      once the deadline passes (`timedOut`) without touching the count. */
  function WaitUntil(s: Sem, timedOut: bool): (r: (bool, Sem))
    requires s.count > 0 || timedOut
    ensures r.0 <==> s.count > 0
    ensures r.0 ==> r.1.count + 1 == s.count
    ensures !r.0 ==> r.1 == s
  {
    if s.count > 0 then (true, Sem(s.count - 1)) else (false, s)
  }

  /** A `semaphore_guard` scope waits on entry and notifies on exit: its net
      effect on the count is zero. */
  lemma GuardNetZero(s: Sem)
    requires s.count > 0
    ensures Notify(Wait(s)) == s
  {
  }

  /** A timed wait whose deadline has passed behaves exactly like `try_wait`. */
  lemma TimedOutWaitIsTryWait(s: Sem)
    ensures WaitUntil(s, true) == TryWait(s)
  {
  }
}
