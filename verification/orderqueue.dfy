/** The unbounded robot order queue of DynamicOrderQueue.h and OrderQueue.h
    (the two files hold the same class): a deque guarded by a mutex and a
    condition variable, `get` waiting while it is empty. */
module OrderQueue {

  datatype Queue<T> = Queue(items: seq<T>)

  function Create<T>(): (q: Queue<T>)
    ensures q.items == []
  {
    Queue([])
  }

  /** `add`: appends at the back; it never blocks. */
  function Add<T>(q: Queue<T>, x: T): (r: Queue<T>)
    ensures |r.items| == |q.items| + 1
    ensures r.items[..|q.items|] == q.items && r.items[|q.items|] == x
  {
    Queue(q.items + [x])
  }

  /** `get`: enabled once the queue is non-empty; removes the front. */
  function Get<T>(q: Queue<T>): (r: (T, Queue<T>))
    requires |q.items| > 0
    ensures [r.0] + r.1.items == q.items
  {
    (q.items[0], Queue(q.items[1..]))
  }

  function AddAll<T>(q: Queue<T>, xs: seq<T>): (r: Queue<T>)
    ensures |r.items| == |q.items| + |xs|
    decreases |xs|
  {
    if |xs| == 0 then q else AddAll(Add(q, xs[0]), xs[1..])
  }

  function GetN<T>(q: Queue<T>, n: nat): (r: (seq<T>, Queue<T>))
    requires n <= |q.items|
    ensures |r.0| == n
    decreases n
  {
    if n == 0 then ([], q)
    else
      var (x, q') := Get(q);
      var (xs, q'') := GetN(q', n - 1);
      ([x] + xs, q'')
  }

  lemma {:induction false} AddAllAppends<T>(q: Queue<T>, xs: seq<T>)
    ensures AddAll(q, xs).items == q.items + xs
    decreases |xs|
  {
    if |xs| > 0 {
      AddAllAppends(Add(q, xs[0]), xs[1..]);
      assert q.items + [xs[0]] + xs[1..] == q.items + xs;
    }
  }

  lemma {:induction false} GetNTakesPrefix<T>(q: Queue<T>, n: nat)
    requires n <= |q.items|
    ensures GetN(q, n).0 == q.items[..n] && GetN(q, n).1.items == q.items[n..]
    decreases n
  {
    if n > 0 {
      GetNTakesPrefix(Queue(q.items[1..]), n - 1);
      assert [q.items[0]] + q.items[1..][..n - 1] == q.items[..n];
    }
  }

  /** Orders reach robots in the order they were queued. */
  lemma FirstInFirstOut<T>(xs: seq<T>)
    ensures var q := AddAll(Create(), xs);
      |q.items| == |xs| && GetN(q, |xs|).0 == xs && GetN(q, |xs|).1.items == []
  {
    AddAllAppends(Create(), xs);
    GetNTakesPrefix(AddAll(Create(), xs), |xs|);
  }
}
