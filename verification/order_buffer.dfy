/**
  The bounded circular buffer that carries orders from the producer to the
  consumer of one category. Only the index arithmetic is modelled: the
  producer's wait while the buffer is full and the consumer's wait while it
  is empty become the preconditions of Put and Take, and a blocked step of
  Run.
 */
module OrderBuffers {
  import opened Wrappers
  import opened Order

  /** Capacity of every category's buffer. */
  const MAXBUFSIZE: nat := 10

  /**
    One buffer. `front` and `rear` only ever grow; the slot of an index is
    that index modulo `size`. A slot holds NULL until an order is stored in it.
   */
  datatype OrderBuffer = OrderBuffer(buf: seq<Option<OrderInfo>>, size: int, count: int, front: nat, rear: nat)

  /** The slot of the `i`-th waiting order. */
  function Slot(b: OrderBuffer, i: nat): (k: nat)
    requires b.size > 0
    ensures k < b.size
  {
    (b.front + i) % b.size
  }

  /** The counters agree and every live slot holds an order. */
  ghost predicate Consistent(b: OrderBuffer) {
    && b.size > 0
    && |b.buf| == b.size
    && 0 <= b.count <= b.size
    && b.rear == b.front + b.count
    && forall i: nat :: i < b.count ==> b.buf[Slot(b, i)].Some?
  }

  /** The orders waiting in the buffer, oldest first. */
  function Contents(b: OrderBuffer): (c: seq<OrderInfo>)
    requires Consistent(b)
    ensures |c| == b.count
  {
    seq(b.count, i requires 0 <= i < b.count => b.buf[Slot(b, i)].value)
  }

  /** init_order_buf: zeroed slots and counters for a buffer of the given size. */
  function InitOrderBuf(bufSize: nat): (b: OrderBuffer)
    ensures b.size == bufSize && |b.buf| == bufSize
    ensures b.count == 0 && b.front == 0 && b.rear == 0
    ensures forall i :: 0 <= i < |b.buf| ==> b.buf[i].None?
    ensures bufSize > 0 ==> Consistent(b) && Contents(b) == []
  {
    OrderBuffer(seq(bufSize, _ => None), bufSize, 0, 0, 0)
  }

  /** Two indices less than `n` apart fall in different slots. */
  lemma {:induction false} SlotsDiffer(a: nat, d: int, n: int)
    requires 0 < d < n
    ensures (a + d) % n != a % n
  {
    var q, r := a / n, a % n;
    assert a == q * n + r;
    if r + d < n {
      ModOfMultiplePlus(q, r + d, n);
      ModOfMultiplePlus(q, r, n);
    } else {
      assert a + d == (q + 1) * n + (r + d - n);
      ModOfMultiplePlus(q + 1, r + d - n, n);
      ModOfMultiplePlus(q, r, n);
    }
  }

  /** The remainder of `q * n + x` is `x` for `0 <= x < n`. */
  lemma {:induction false} ModOfMultiplePlus(q: int, x: int, n: int)
    requires n > 0 && 0 <= x < n
    ensures (q * n + x) % n == x
  {
    var y := q * n + x;
    var q', r' := y / n, y % n;
    assert y == q' * n + r';
    var k := q - q';
    assert k * n == r' - x by {
      assert q * n - q' * n == r' - x;
      MulSub(q, q', n);
    }
    if k > 0 {
      MulAtLeast(k, n);
    } else if k < 0 {
      MulAtLeast(-k, n);
    }
  }

  lemma MulSub(a: int, b: int, n: int)
    ensures a * n - b * n == (a - b) * n
  {
  }

  lemma {:induction false} MulAtLeast(k: int, n: int)
    requires k >= 1 && n > 0
    ensures k * n >= n
    decreases k
  {
    if k > 1 {
      MulAtLeast(k - 1, n);
      MulSub(k, 1, n);
    }
  }

  /**
    The producer's store (thread.c): the order goes into slot `rear % size`,
    then `rear` and `count` advance. It joins the back of the queue.
   */
  function Put(b: OrderBuffer, o: OrderInfo): (r: OrderBuffer)
    requires Consistent(b) && b.count < b.size
    ensures Consistent(r)
    ensures Contents(r) == Contents(b) + [o]
    ensures r.size == b.size && r.front == b.front && r.count == b.count + 1
  {
    var index := b.rear % b.size;
    var r := b.(buf := b.buf[index := Some(o)], rear := b.rear + 1, count := b.count + 1);
    PutKeepsOthers(b, o);
    r
  }

  /** Storing at `rear` touches no slot of a waiting order. */
  lemma PutKeepsOthers(b: OrderBuffer, o: OrderInfo)
    requires Consistent(b) && b.count < b.size
    ensures var r := b.(buf := b.buf[b.rear % b.size := Some(o)], rear := b.rear + 1, count := b.count + 1);
            Consistent(r) && Contents(r) == Contents(b) + [o]
  {
    var r := b.(buf := b.buf[b.rear % b.size := Some(o)], rear := b.rear + 1, count := b.count + 1);
    forall i: nat | i < b.count
      ensures r.buf[Slot(b, i)] == b.buf[Slot(b, i)]
    {
      SlotsDiffer(b.front + i, b.count - i, b.size);
    }
    assert forall i: nat :: i < b.count ==> Slot(r, i) == Slot(b, i);
    assert Consistent(r);
    assert Contents(r)[b.count] == o;
  }

  /**
    The consumer's read (thread.c): the order in slot `front % size` comes
    out, then `front` advances and `count` drops. The slot itself is left as
    it was. It is the front of the queue.
   */
  function Take(b: OrderBuffer): (r: (OrderInfo, OrderBuffer))
    requires Consistent(b) && b.count > 0
    ensures Consistent(r.1)
    ensures [r.0] + Contents(r.1) == Contents(b)
    ensures r.1.size == b.size && r.1.rear == b.rear && r.1.count == b.count - 1
  {
    var index := b.front % b.size;
    var b' := b.(front := b.front + 1, count := b.count - 1);
    assert b.buf[Slot(b, 0)].Some?;
    assert forall i: nat :: i < b'.count ==> Slot(b', i) == Slot(b, i + 1);
    assert Contents(b)[1..] == Contents(b');
    (b.buf[index].value, b')
  }

  /** One step of a sequential interleaving of producer and consumer. */
  datatype Op = PutOp(o: OrderInfo) | TakeOp

  /** Orders handed in by a sequence of steps. */
  function Puts(ops: seq<Op>): (s: seq<OrderInfo>)
    ensures |s| <= |ops|
  {
    if |ops| == 0 then []
    else (if ops[0].PutOp? then [ops[0].o] else []) + Puts(ops[1..])
  }

  /** The outcome of a run: every order taken, and the buffer at the end. */
  datatype RunResult = Ran(taken: seq<OrderInfo>, final: OrderBuffer) | Blocked(at: nat)

  /**
    Runs the steps in order. A put on a full buffer or a take from an empty
    one is where the thread would wait; the run stops there and reports the
    step.
   */
  function Run(b: OrderBuffer, ops: seq<Op>): (r: RunResult)
    requires Consistent(b)
    ensures r.Ran? ==> Consistent(r.final) && r.final.size == b.size
    ensures r.Blocked? ==> r.at < |ops|
    decreases |ops|
  {
    if |ops| == 0 then Ran([], b)
    else match ops[0]
      case PutOp(o) =>
        if b.count == b.size then Blocked(0)
        else
          (match Run(Put(b, o), ops[1..])
           case Ran(t, f) => Ran(t, f)
           case Blocked(k) => Blocked(k + 1))
      case TakeOp =>
        if b.count == 0 then Blocked(0)
        else
          var (item, b') := Take(b);
          match Run(b', ops[1..])
          case Ran(t, f) => Ran([item] + t, f)
          case Blocked(k) => Blocked(k + 1)
  }

  /**
    FIFO: over any run that does not block, what was waiting followed by what
    was put equals what was taken followed by what is still waiting.
   */
  lemma {:induction false} RunIsFifo(b: OrderBuffer, ops: seq<Op>)
    requires Consistent(b) && Run(b, ops).Ran?
    ensures Contents(b) + Puts(ops) == Run(b, ops).taken + Contents(Run(b, ops).final)
    decreases |ops|
  {
    if |ops| > 0 {
      var r := Run(b, ops);
      if ops[0].PutOp? {
        var b' := Put(b, ops[0].o);
        assert Run(b', ops[1..]) == r;
        RunIsFifo(b', ops[1..]);
        assert Puts(ops) == [ops[0].o] + Puts(ops[1..]);
        AppendAssoc(Contents(b), [ops[0].o], Puts(ops[1..]));
      } else {
        var (item, b') := Take(b);
        var r' := Run(b', ops[1..]);
        assert r'.Ran? && r.taken == [item] + r'.taken && r.final == r'.final;
        RunIsFifo(b', ops[1..]);
        assert Puts(ops) == Puts(ops[1..]);
        AppendAssoc([item], Contents(b'), Puts(ops[1..]));
        AppendAssoc([item], r'.taken, Contents(r'.final));
      }
    }
  }

  lemma AppendAssoc<T>(a: seq<T>, b: seq<T>, c: seq<T>)
    ensures (a + b) + c == a + (b + c)
  {
  }

  /**
    A run blocks at step k exactly when the first k steps run through and
    step k is a put on the full buffer they leave or a take from the empty one.
   */
  lemma {:induction false} RunBlocksOnlyWhenWaiting(b: OrderBuffer, ops: seq<Op>)
    requires Consistent(b) && Run(b, ops).Blocked?
    ensures var k := Run(b, ops).at;
            var pre := Run(b, ops[..k]);
            && pre.Ran?
            && ((ops[k].PutOp? && pre.final.count == pre.final.size) || (ops[k].TakeOp? && pre.final.count == 0))
    decreases |ops|
  {
    var k := Run(b, ops).at;
    if k == 0 {
      assert ops[..0] == [];
      assert Run(b, ops[..0]) == Ran([], b);
    } else {
      assert ops[..k][1..] == ops[1..][..k - 1];
      match ops[0]
      case PutOp(o) =>
        RunBlocksOnlyWhenWaiting(Put(b, o), ops[1..]);
      case TakeOp =>
        var (item, b') := Take(b);
        RunBlocksOnlyWhenWaiting(b', ops[1..]);
    }
  }

  /** A fresh buffer of capacity MAXBUFSIZE accepts MAXBUFSIZE puts and blocks on the next. */
  lemma FreshBufferCapacity(o: OrderInfo)
    ensures var ops := seq(MAXBUFSIZE, _ => PutOp(o));
            && Run(InitOrderBuf(MAXBUFSIZE), ops).Ran?
            && Run(InitOrderBuf(MAXBUFSIZE), ops).final.count == MAXBUFSIZE
            && Run(InitOrderBuf(MAXBUFSIZE), ops + [PutOp(o)]) == Blocked(MAXBUFSIZE)
  {
    FillFromEmpty(InitOrderBuf(MAXBUFSIZE), o, MAXBUFSIZE);
  }

  lemma {:induction false} FillFromEmpty(b: OrderBuffer, o: OrderInfo, n: nat)
    requires Consistent(b) && b.count + n <= b.size
    ensures var ops := seq(n, _ => PutOp(o));
            && Run(b, ops).Ran?
            && Run(b, ops).final.count == b.count + n
            && (b.count + n == b.size ==> Run(b, ops + [PutOp(o)]) == Blocked(n))
    decreases n
  {
    var ops := seq(n, _ => PutOp(o));
    if n == 0 {
      assert ops + [PutOp(o)] == [PutOp(o)];
    } else {
      var b' := Put(b, o);
      FillFromEmpty(b', o, n - 1);
      assert ops[1..] == seq(n - 1, _ => PutOp(o));
      assert (ops + [PutOp(o)])[1..] == seq(n - 1, _ => PutOp(o)) + [PutOp(o)];
    }
  }
}
