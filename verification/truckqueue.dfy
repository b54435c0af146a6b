/** The two-slot truck queue of TruckQueue.h: the same producer/consumer
    ring as the fifo, written out with `% 2` index arithmetic. */
module TruckQueue {
  import F = Fifo
  import S = Semaphore

  /** Slots in the circular buffer. */
  const BufferSize: nat := 2

  type Queue<T> = F.Fifo<T>

  predicate Valid<T>(q: Queue<T>)
  {
    F.Valid(q) && q.size == BufferSize
  }

  /** The constructor: two free slots, no truck waiting. */
  function Create<T>(fill: T): (q: Queue<T>)
    ensures Valid(q) && F.Faithful(q) && F.Contents(q) == []
  {
    F.Create(BufferSize, fill)
  }

  /** `add`: waits for a free slot and stores the truck at the producer
      index, advanced modulo the buffer size. */
  function Add<T>(q: Queue<T>, truck: T): (r: Queue<T>)
    requires Valid(q) && q.psem.count > 0
    ensures Valid(r) && F.Contents(r) == F.Contents(q) + [truck]
    ensures F.Faithful(q) ==> F.Faithful(r)
  {
    var p := q.(psem := S.Wait(q.psem));
    var r := p.(data := p.data[p.pidx := truck], pidx := (p.pidx + 1) % BufferSize);
    var r' := r.(csem := S.Notify(r.csem));
    assert r' == F.Push(q, truck);
    r'
  }

  /** `get`: waits for a truck and takes the oldest one. */
  function Get<T>(q: Queue<T>): (r: (T, Queue<T>))
    requires Valid(q) && q.csem.count > 0
    ensures Valid(r.1) && [r.0] + F.Contents(r.1) == F.Contents(q)
    ensures F.Faithful(q) ==> F.Faithful(r.1)
  {
    var c := q.(csem := S.Wait(q.csem));
    var out := c.data[c.cidx];
    var r := c.(cidx := (c.cidx + 1) % BufferSize);
    var r' := r.(psem := S.Notify(r.psem));
    assert (out, r') == F.Pop(q);
    (out, r')
  }

  /** Trucks leave in the order they arrived: two trucks added to an empty
      queue come out first-in first-out. */
  lemma ArrivalOrder<T>(fill: T, a: T, b: T)
    ensures var q := Add(Add(Create(fill), a), b);
      q.csem.count == 2 && Get(q).0 == a && Get(q).1.csem.count > 0 && Get(Get(q).1).0 == b
  {
    var q1 := Add(Create(fill), a);
    assert F.Contents(q1) == [a];
    var q := Add(q1, b);
    assert F.Contents(q) == [a, b];
  }
}
