/** The inter-process message queue of process/message_queue.h: a named
    fifo of messages, every call forwarded to the fifo. Its contracts are
    stated on the message sequence the fifo holds. */
module MessageQueue {
  import F = Fifo
  import opened Wrappers

  type Queue<M> = F.Fifo<M>

  /** The messages waiting, oldest first. */
  function Messages<M>(q: Queue<M>): seq<M>
    requires F.Valid(q)
  {
    F.Contents(q)
  }

  /** The constructor opens (or creates) the fifo under the queue's name. */
  function Open<M>(existing: Option<Queue<M>>, size: nat, fill: M): (q: Queue<M>)
    ensures existing.None? ==> F.Valid(q) && Messages(q) == [] && F.Faithful(q)
    ensures existing.Some? ==> q == existing.value
  {
    F.Attach(existing, size, fill)
  }

  /** `send`: blocks while the queue is full, then appends the message. */
  function Send<M>(q: Queue<M>, m: M): (r: Queue<M>)
    requires F.Valid(q) && q.psem.count > 0
    ensures F.Valid(r) && Messages(r) == Messages(q) + [m]
  {
    F.Push(q, m)
  }

  /** `try_send` / `try_send_until`: appends only if a slot is free before
      the deadline (`timedOut` is true for the non-blocking form). */
  function TrySendUntil<M>(q: Queue<M>, m: M, timedOut: bool): (r: (bool, Queue<M>))
    requires F.Valid(q) && (q.psem.count > 0 || timedOut)
    ensures F.Valid(r.1)
    ensures r.0 <==> q.psem.count > 0
    ensures r.0 ==> Messages(r.1) == Messages(q) + [m]
    ensures !r.0 ==> r.1 == q
  {
    F.TryPushUntil(q, m, timedOut)
  }

  /** `receive`: blocks until a message is available and removes the oldest. */
  function Receive<M>(q: Queue<M>): (r: (M, Queue<M>))
    requires F.Valid(q) && q.csem.count > 0
    ensures F.Valid(r.1) && [r.0] + Messages(r.1) == Messages(q)
  {
    F.Pop(q)
  }

  /** `try_receive` / `try_receive_until`. */
  function TryReceiveUntil<M>(q: Queue<M>, timedOut: bool): (r: (bool, Option<M>, Queue<M>))
    requires F.Valid(q) && (q.csem.count > 0 || timedOut)
    ensures F.Valid(r.2)
    ensures r.0 <==> q.csem.count > 0
    ensures r.0 ==> r.1.Some? && [r.1.value] + Messages(r.2) == Messages(q)
    ensures !r.0 ==> r.1 == None && r.2 == q
  {
    F.TryPopUntil(q, timedOut)
  }

  /** `peek` / `try_peek` / `try_peek_until`: forwarded to the fifo's peek,
      so the returned message is the oldest one but a consumer token is
      lost with it. */
  function TryPeekUntil<M>(q: Queue<M>, timedOut: bool): (r: (bool, Option<M>, Queue<M>))
    requires F.Valid(q) && (q.csem.count > 0 || timedOut)
    ensures F.Valid(r.2)
    ensures r.0 <==> q.csem.count > 0
    ensures r.0 ==> r.1 == Some(Messages(q)[0]) && Messages(r.2) == Messages(q)
    ensures r.0 ==> r.2.csem.count + 1 == q.csem.count
    ensures !r.0 ==> r.1 == None && r.2 == q
  {
    F.TryPeekUntilAsWritten(q, timedOut)
  }

  /** `size` and `empty`: forwarded, so a full queue reports 0 and empty. */
  function SizeAndEmpty<M>(q: Queue<M>): (r: (nat, bool))
    requires F.Valid(q)
    ensures |Messages(q)| < q.size ==> r == (|Messages(q)|, |Messages(q)| == 0)
    ensures q.size > 0 && |Messages(q)| == q.size ==> r == (0, true)
  {
    (F.SizeAsWritten(q), F.EmptyAsWritten(q))
  }

  /** A message sent to an empty queue is the one received next. */
  lemma SendThenReceive<M>(q: Queue<M>, m: M)
    requires F.Valid(q) && q.psem.count > 0 && Messages(q) == []
    ensures Send(q, m).csem.count > 0 && Receive(Send(q, m)).0 == m
    ensures Messages(Receive(Send(q, m)).1) == []
  {
    var r := Send(q, m);
    assert Messages(r) == [m];
  }
}
