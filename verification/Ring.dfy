/**
 * The abstract object every descriptor ring is proved to refine: a bounded FIFO queue.
 *
 * A `Ring` is a view of a descriptor table. A slot holds a value exactly when the view says it is
 * occupied; `head` is where values leave and `tail` is where they enter. Nothing counts the values:
 * when `head == tail` the occupied flag of that slot alone tells a full ring from an empty one,
 * which is how the driver and the DMA engine tell them apart.
 */
module Ring {
  import opened Common

  datatype Ring<T> = Ring(slots: seq<Option<T>>, head: nat, tail: nat) {

    predicate Indexed() {
      head < |slots| && tail < |slots|
    }

    /** The slot after `i`, cyclically. */
    function Succ(i: nat): nat {
      if i + 1 == |slots| then 0 else i + 1
    }

    /** How many steps after `head` the slot `i` is met. */
    function Offset(i: nat): nat
      requires Indexed() && i < |slots|
    {
      if i >= head then i - head else i + |slots| - head
    }

    /** The slot met `j` steps after `head`. */
    function At(j: nat): nat
      requires Indexed() && j < |slots|
    {
      if head + j < |slots| then head + j else head + j - |slots|
    }

    function Count(): nat
      requires Indexed()
    {
      if head != tail then Offset(tail)
      else if slots[head].Some? then |slots|
      else 0
    }

    /** The occupied slots are exactly the ones from `head` up to, not including, `tail`. */
    ghost predicate Valid() {
      && Indexed()
      && forall i | 0 <= i < |slots| :: slots[i].Some? <==> Offset(i) < Count()
    }

    ghost function Contents(): (q: seq<T>)
      requires Valid()
      ensures |q| == Count() <= |slots|
    {
      seq(Count(), j requires 0 <= j < Count() => slots[At(j)].value)
    }

    function Push(x: T): Ring<T>
      requires Indexed()
    {
      Ring(slots[tail := Some(x)], head, Succ(tail))
    }

    function Pop(): Ring<T>
      requires Indexed()
    {
      Ring(slots[head := None], Succ(head), tail)
    }
  }

  /** The slot at the tail is free exactly when the queue is not full, and filling it enqueues. */
  lemma PushEnqueues<T>(r: Ring<T>, x: T)
    requires r.Valid()
    ensures r.slots[r.tail].Some? <==> |r.Contents()| == |r.slots|
    ensures r.slots[r.tail].None? ==>
              r.Push(x).Valid() && r.Push(x).Contents() == r.Contents() + [x]
  {
    if r.slots[r.tail].None? {
      var r' := r.Push(x);
      assert r'.Count() == r.Count() + 1;
      assert r'.Valid();
      assert r.At(r.Count()) == r.tail;
      forall j | 0 <= j < r.Count()
        ensures r'.slots[r'.At(j)] == r.slots[r.At(j)]
      {
        assert r.Offset(r.At(j)) == j;
      }
      assert r'.Contents() == r.Contents() + [x];
    }
  }

  /** The slot at the head is occupied exactly when the queue is not empty, and freeing it dequeues. */
  lemma PopDequeues<T>(r: Ring<T>)
    requires r.Valid()
    ensures r.slots[r.head].Some? <==> r.Contents() != []
    ensures r.slots[r.head].Some? ==>
              && r.slots[r.head].value == r.Contents()[0]
              && r.Pop().Valid() && r.Pop().Contents() == r.Contents()[1..]
  {
    assert r.Offset(r.head) == 0;
    if r.slots[r.head].Some? {
      assert r.At(0) == r.head;
      var r' := r.Pop();
      assert r'.Count() == r.Count() - 1;
      forall i | 0 <= i < |r.slots| && i != r.head
        ensures r'.Offset(i) == r.Offset(i) - 1
      {
      }
      assert r'.Valid();
      forall j | 0 <= j < r'.Count()
        ensures r'.slots[r'.At(j)] == r.slots[r.At(j + 1)]
      {
        assert r'.At(j) == r.At(j + 1);
        assert r.Offset(r.At(j + 1)) == j + 1;
      }
      assert r'.Contents() == r.Contents()[1..];
    }
  }

  /** Two rings in the same slots, one starting where the other ends, share an occupied slot when
      together they hold more values than there are slots. */
  lemma Overlap<S, T>(r: Ring<S>, q: Ring<T>) returns (i: nat)
    requires r.Valid() && q.Valid() && |r.slots| == |q.slots| && r.tail == q.head
    requires r.Count() + q.Count() > |r.slots|
    ensures i < |r.slots| && r.slots[i].Some? && q.slots[i].Some?
  {
    var n := |r.slots|;
    i := if r.Count() == n then q.head else q.At(n - r.Count());
    assert q.Offset(i) < q.Count();
    assert r.Offset(i) < r.Count();
  }

  // ---- the bounded FIFO queue ----

  /** What may be asked of a queue; a step of the driver that is none of its business is `Neither`. */
  datatype Op<T> = Put(value: T) | Get | Neither

  datatype Outcome<T> = Stored | Full | Got(value: T) | Empty | Silent

  /** The specification: a queue of at most `n` values that knows nothing of slots. */
  function FifoStep<T>(q: seq<T>, n: nat, op: Op<T>): (seq<T>, Outcome<T>) {
    match op
    case Put(x) => if |q| < n then (q + [x], Stored) else (q, Full)
    case Get => if q != [] then (q[1..], Got(q[0])) else (q, Empty)
    case Neither => (q, Silent)
  }

  function FifoRun<T>(q: seq<T>, n: nat, ops: seq<Op<T>>): (r: (seq<T>, seq<Outcome<T>>))
    ensures |r.1| == |ops|
    decreases |ops|
  {
    if ops == [] then (q, []) else
    var (q1, out) := FifoStep(q, n, ops[0]);
    var (q2, outs) := FifoRun(q1, n, ops[1..]);
    (q2, [out] + outs)
  }

  function In<T>(op: Op<T>, out: Outcome<T>): seq<T> {
    if op.Put? && out.Stored? then [op.value] else []
  }

  function Out<T>(out: Outcome<T>): seq<T> {
    if out.Got? then [out.value] else []
  }

  /** What went into the queue, and what came out of it. */
  function Ins<T>(ops: seq<Op<T>>, outs: seq<Outcome<T>>): seq<T>
    requires |ops| == |outs|
  {
    if ops == [] then [] else In(ops[0], outs[0]) + Ins(ops[1..], outs[1..])
  }

  function Outs<T>(outs: seq<Outcome<T>>): seq<T> {
    if outs == [] then [] else Out(outs[0]) + Outs(outs[1..])
  }

  lemma FifoStepOrder<T>(q: seq<T>, n: nat, op: Op<T>)
    ensures var (q', out) := FifoStep(q, n, op);
            q + In(op, out) == Out(out) + q'
  {
  }

  /** A FIFO queue gives out what it held and was given, in that order. */
  lemma {:induction false} FifoOrder<T>(q: seq<T>, n: nat, ops: seq<Op<T>>)
    ensures var (q', outs) := FifoRun(q, n, ops);
            q + Ins(ops, outs) == Outs(outs) + q'
    decreases |ops|
  {
    hide FifoStep, In, Out;
    if ops != [] {
      var (q1, out) := FifoStep(q, n, ops[0]);
      var (q', outs) := FifoRun(q1, n, ops[1..]);
      FifoStepOrder(q, n, ops[0]);
      FifoOrder(q1, n, ops[1..]);
      Splice(q, In(ops[0], out), Out(out), q1, Ins(ops[1..], outs), Outs(outs), q');
      assert FifoRun(q, n, ops).1[1..] == outs;
    }
  }

  /** Two stretches of a queue's history put together. */
  lemma Splice<T>(q: seq<T>, ins: seq<T>, outs: seq<T>, q1: seq<T>, ins': seq<T>, outs': seq<T>, q': seq<T>)
    requires q + ins == outs + q1 && q1 + ins' == outs' + q'
    ensures q + (ins + ins') == (outs + outs') + q'
  {
    assert q + (ins + ins') == (q + ins) + ins' == outs + (q1 + ins') == (outs + outs') + q';
  }

  function Map<A, B>(f: A -> B, s: seq<A>): (r: seq<B>)
    ensures |r| == |s|
  {
    if s == [] then [] else [f(s[0])] + Map(f, s[1..])
  }

  /** The counter `k` of a ring of `n` slots stands at slot `k % n`; one more moves one slot on. */
  lemma NextSlot(k: nat, n: nat)
    requires n > 0
    ensures (k + 1) % n == if k % n + 1 == n then 0 else k % n + 1
  {
    var q, m := k / n, k % n;
    assert k + 1 == n * q + (m + 1);
    if m + 1 == n {
      assert k + 1 == n * (q + 1) by { assert n * (q + 1) == n * q + n; }
      ModUnique(k + 1, q + 1, 0, n);
    } else {
      ModUnique(k + 1, q, m + 1, n);
    }
  }
}
