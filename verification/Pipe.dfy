/** The pipe ring of include/linux/fs.h and the loops of fs/pipe.c that use it. */
module Pipe {
  import opened Bytes

  const PAGE_SIZE := 4096

  /** PIPE_SIZE, for the two indices as 32-bit longs: their difference masked by 4095. */
  function Size(head: word, tail: word): (n: nat)
    ensures n < PAGE_SIZE
  {
    Wrap(head - tail) % PAGE_SIZE
  }

  predicate Empty(head: word, tail: word) {
    head == tail
  }

  predicate Full(head: word, tail: word) {
    Size(head, tail) == PAGE_SIZE - 1
  }

  /** INC_PIPE: incl and andl $4095. */
  function Inc(index: word): (r: word)
    ensures r < PAGE_SIZE
  {
    Wrap(index + 1) % PAGE_SIZE
  }

  predicate InRing(index: word) {
    index < PAGE_SIZE
  }

  /** The masked difference, also when the head has wrapped below the tail. */
  lemma SizeIs(head: word, tail: word)
    requires InRing(head) && InRing(tail)
    ensures Size(head, tail) == if head >= tail then head - tail else head - tail + 4096
    ensures Empty(head, tail) <==> Size(head, tail) == 0
    ensures Full(head, tail) <==> Size(head, tail) == 4095
  {
    if head < tail {
      assert Wrap(head - tail) == head - tail + WORD_LIMIT;
      assert WORD_LIMIT == 0x10_0000 * PAGE_SIZE;
    }
  }

  lemma IncIs(index: word)
    requires InRing(index)
    ensures Inc(index) == if index == 4095 then 0 else index + 1
  {
  }

  /** A push grows the size by one, a pop shrinks it by one. */
  lemma SizeSteps(head: word, tail: word)
    requires InRing(head) && InRing(tail)
    ensures !Full(head, tail) ==> Size(Inc(head), tail) == Size(head, tail) + 1
    ensures !Empty(head, tail) ==> Size(head, Inc(tail)) == Size(head, tail) - 1
  {
    IncIs(head);
    IncIs(tail);
    SizeIs(head, tail);
    SizeIs(Inc(head), tail);
    SizeIs(head, Inc(tail));
  }

  /** The bytes in the ring, oldest first. */
  function Contents(page: seq<byte>, head: word, tail: word): (s: seq<byte>)
    requires |page| == PAGE_SIZE && InRing(head) && InRing(tail)
    ensures |s| == Size(head, tail)
  {
    SizeIs(head, tail);
    if head >= tail then page[tail..head] else page[tail..] + page[..head]
  }

  lemma PushAppends(page: seq<byte>, head: word, tail: word, b: byte)
    requires |page| == PAGE_SIZE && InRing(head) && InRing(tail) && !Full(head, tail)
    ensures Contents(page[head := b], Inc(head), tail) == Contents(page, head, tail) + [b]
  {
    IncIs(head);
    SizeIs(head, tail);
    SizeIs(Inc(head), tail);
  }

  lemma PopRemovesFirst(page: seq<byte>, head: word, tail: word)
    requires |page| == PAGE_SIZE && InRing(head) && InRing(tail) && !Empty(head, tail)
    ensures Contents(page, head, tail) == [page[tail]] + Contents(page, head, Inc(tail))
  {
    IncIs(tail);
    SizeIs(head, tail);
    SizeIs(head, Inc(tail));
  }

  datatype Ring = Ring(page: seq<byte>, head: word, tail: word)

  predicate Valid(r: Ring) {
    |r.page| == PAGE_SIZE && InRing(r.head) && InRing(r.tail)
  }

  function Queued(r: Ring): (s: seq<byte>)
    requires Valid(r)
    ensures |s| == Size(r.head, r.tail)
  {
    Contents(r.page, r.head, r.tail)
  }

  /** What the loops of fs/pipe.c do to the ring, one byte at a time. */
  datatype Op = Put(b: byte) | Get

  predicate Enabled(r: Ring, op: Op) {
    if op.Put? then !Full(r.head, r.tail) else !Empty(r.head, r.tail)
  }

  function Step(r: Ring, op: Op): (r': Ring)
    requires Valid(r)
    ensures Valid(r')
  {
    if op.Put? then Ring(r.page[r.head := op.b], Inc(r.head), r.tail) else Ring(r.page, r.head, Inc(r.tail))
  }

  /** All guards of a run hold. */
  predicate CanRun(r: Ring, ops: seq<Op>)
    requires Valid(r)
    decreases |ops|
  {
    ops == [] || (Enabled(r, ops[0]) && CanRun(Step(r, ops[0]), ops[1..]))
  }

  function Run(r: Ring, ops: seq<Op>): (r': Ring)
    requires Valid(r)
    ensures Valid(r')
    decreases |ops|
  {
    if ops == [] then r else Run(Step(r, ops[0]), ops[1..])
  }

  /** The operations that get their turn when each in its turn is done if it can be. */
  function Possible(r: Ring, ops: seq<Op>): (done: seq<Op>)
    requires Valid(r)
    decreases |ops|
  {
    if ops == [] then []
    else if Enabled(r, ops[0]) then [ops[0]] + Possible(Step(r, ops[0]), ops[1..])
    else Possible(r, ops[1..])
  }

  /** They are a run of the ring; when all can be done it is all of them. */
  lemma {:induction false} PossibleRuns(r: Ring, ops: seq<Op>)
    requires Valid(r)
    ensures CanRun(r, Possible(r, ops)) && (CanRun(r, ops) ==> Possible(r, ops) == ops)
    decreases |ops|
  {
    if ops == [] {
    } else if Enabled(r, ops[0]) {
      PossibleRuns(Step(r, ops[0]), ops[1..]);
      assert Possible(r, ops)[1..] == Possible(Step(r, ops[0]), ops[1..]);
    } else {
      PossibleRuns(r, ops[1..]);
    }
  }

  /** The bytes that the gets of a run deliver. */
  function Delivered(r: Ring, ops: seq<Op>): seq<byte>
    requires Valid(r)
    decreases |ops|
  {
    if ops == [] then []
    else (if ops[0].Get? then [r.page[r.tail]] else []) + Delivered(Step(r, ops[0]), ops[1..])
  }

  /** The bytes that the puts of a run bring. */
  function Brought(ops: seq<Op>): seq<byte> {
    if ops == [] then [] else (if ops[0].Put? then [ops[0].b] else []) + Brought(ops[1..])
  }

  /** The same run on a FIFO of capacity 4095 that knows no indices. */
  predicate FifoCanRun(q: seq<byte>, ops: seq<Op>)
    decreases |ops|
  {
    ops == [] ||
    if ops[0].Put? then |q| < 4095 && FifoCanRun(q + [ops[0].b], ops[1..])
    else |q| > 0 && FifoCanRun(q[1..], ops[1..])
  }

  lemma StepIsFifo(r: Ring, op: Op)
    requires Valid(r)
    ensures Enabled(r, op) <==> if op.Put? then |Queued(r)| < PAGE_SIZE - 1 else |Queued(r)| > 0
    ensures Enabled(r, op) && op.Put? ==> Queued(Step(r, op)) == Queued(r) + [op.b]
    ensures Enabled(r, op) && op.Get? ==> Queued(r) == [r.page[r.tail]] + Queued(Step(r, op))
  {
    SizeIs(r.head, r.tail);
    if op.Put? {
      if Enabled(r, op) { PushAppends(r.page, r.head, r.tail, op.b); }
    } else {
      if Enabled(r, op) { PopRemovesFirst(r.page, r.head, r.tail); }
    }
  }

  /** The ring can run exactly what the FIFO can. */
  lemma {:induction false} RingRefinesFifo(r: Ring, ops: seq<Op>)
    requires Valid(r)
    ensures CanRun(r, ops) <==> FifoCanRun(Queued(r), ops)
    decreases |ops|
  {
    if ops == [] {
    } else {
      StepIsFifo(r, ops[0]);
      if Enabled(r, ops[0]) {
        RingRefinesFifo(Step(r, ops[0]), ops[1..]);
        if ops[0].Get? { assert Queued(r)[1..] == Queued(Step(r, ops[0])); }
      }
    }
  }

  /** What holds of the rest of a run holds of the run. */
  lemma OneStep(q: seq<byte>, q': seq<byte>, put: seq<byte>, got: seq<byte>, brought: seq<byte>, out: seq<byte>,
                end: seq<byte>)
    requires q + put == got + q' && q' + brought == out + end
    ensures q + (put + brought) == (got + out) + end
  {
    assert q + (put + brought) == (q + put) + brought;
    assert (got + q') + brought == got + (q' + brought);
    assert got + (out + end) == (got + out) + end;
  }

  lemma StepLosesNothing(r: Ring, op: Op)
    requires Valid(r) && Enabled(r, op)
    ensures Queued(r) + (if op.Put? then [op.b] else [])
            == (if op.Get? then [r.page[r.tail]] else []) + Queued(Step(r, op))
  {
    StepIsFifo(r, op);
    if op.Put? {
      assert [] + Queued(Step(r, op)) == Queued(Step(r, op));
    } else {
      assert Queued(r) + [] == Queued(r);
    }
  }

  /** Whatever the interleaving, nothing is lost, duplicated or reordered. */
  lemma {:induction false} NothingLost(r: Ring, ops: seq<Op>)
    requires Valid(r) && CanRun(r, ops)
    ensures Queued(r) + Brought(ops) == Delivered(r, ops) + Queued(Run(r, ops))
    decreases |ops|
  {
    var q := Queued(r);
    if ops == [] {
      assert q + [] == [] + q;
    } else {
      var op, rest, r' := ops[0], ops[1..], Step(r, ops[0]);
      StepLosesNothing(r, op);
      NothingLost(r', rest);
      OneStep(q, Queued(r'), if op.Put? then [op.b] else [], if op.Get? then [r.page[r.tail]] else [],
              Brought(rest), Delivered(r', rest), Queued(Run(r', rest)));
    }
  }

  /** From an empty pipe: the size is puts minus gets, and never more than 4095. */
  lemma SizeCounts(r: Ring, ops: seq<Op>)
    requires Valid(r) && r.head == r.tail && CanRun(r, ops)
    ensures var r' := Run(r, ops);
            && InRing(r'.head) && InRing(r'.tail)
            && Size(r'.head, r'.tail) == |Brought(ops)| - |Delivered(r, ops)| <= 4095
            && Delivered(r, ops) == Brought(ops)[..|Delivered(r, ops)|]
  {
    NothingLost(r, ops);
    SizeIs(r.head, r.tail);
    assert Queued(r) == [];
    assert Brought(ops) == Delivered(r, ops) + Queued(Run(r, ops));
  }
}
