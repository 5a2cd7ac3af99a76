/** The congestion FIFO as a plain byte queue with a capacity and a drop flag, and what holds of every
    run of writes, reads and partial sends. */
module FifoSpec {
  import opened Handles
  import opened Seqs

  const ALLOC_SIZE: nat := 262144
  const MAX_ALLOC_SIZE: nat := 32 * 1048576

  datatype Fifo = Fifo(queue: seq<byte>, size: nat, full: bool)

  /** The capacity is a whole number of blocks within the limit, and never used up completely. */
  ghost predicate Sound(f: Fifo) {
    f.size % ALLOC_SIZE == 0 && f.size <= MAX_ALLOC_SIZE && |f.queue| < f.size
  }

  function Init(): Fifo {
    Fifo([], ALLOC_SIZE, false)
  }

  /** The smallest whole number of blocks above n. */
  function Aligned(n: nat): nat {
    (n / ALLOC_SIZE + 1) * ALLOC_SIZE
  }

  function Realloc(f: Fifo, n: nat): Fifo {
    if Aligned(n) > MAX_ALLOC_SIZE then f.(full := true)
    else if f.size < Aligned(n) then Fifo(f.queue, Aligned(n), false)
    else f
  }

  /** Room for data, or the drop flag. */
  function MakeRoom(f: Fifo, n: nat): Fifo
    requires |f.queue| <= f.size
  {
    if n >= f.size - |f.queue| then Realloc(f, n + |f.queue|) else f
  }

  function Write(f: Fifo, data: seq<byte>): Fifo
    requires |f.queue| <= f.size
  {
    var g := MakeRoom(f, |data|);
    if g.full then g else g.(queue := g.queue + data)
  }

  function Drain(f: Fifo, n: nat): Fifo
    requires n <= |f.queue|
  {
    Fifo(f.queue[n..], f.size, f.full && n == 0)
  }

  predicate Accepts(f: Fifo, data: seq<byte>)
    requires |f.queue| <= f.size
  {
    !MakeRoom(f, |data|).full
  }

  lemma AlignedIsNext(n: nat)
    ensures Aligned(n) % ALLOC_SIZE == 0 && n < Aligned(n) <= n + ALLOC_SIZE
    ensures Aligned(n) > MAX_ALLOC_SIZE <==> n >= MAX_ALLOC_SIZE
    ensures forall m: nat :: m % ALLOC_SIZE == 0 && m <= n ==> m < Aligned(n)
  {
  }

  /** Which writes are accepted. An unflagged FIFO refuses exactly those that would reach the limit; a
      flagged one drops small writes but takes one that makes it grow. */
  lemma AcceptsExactly(f: Fifo, data: seq<byte>)
    requires Sound(f)
    ensures Accepts(f, data) <==>
      |f.queue| + |data| < MAX_ALLOC_SIZE && (f.full ==> f.size <= |f.queue| + |data|)
  {
    hide Aligned;
    AlignedIsNext(|data| + |f.queue|);
  }

  /** Once a write has been refused, a small write is dropped although there is room for it. */
  lemma FullDropsWhatFits(big: seq<byte>, small: seq<byte>)
    requires |big| >= MAX_ALLOC_SIZE && 0 < |small| < ALLOC_SIZE
    ensures var f := Run([WriteOp(big)]);
      f.full && f.queue == [] && |small| < f.size && !Accepts(f, small)
  {
    assert [WriteOp(big)][..0] == [];
    assert Run([]) == Init();
    AlignedIsNext(|big|);
    assert Run([WriteOp(big)]) == Write(Init(), big);
  }

  /** What cannot move a flagged FIFO with nothing queued: there is nothing to drain, small writes are
      dropped and huge ones refused. */
  predicate Idle(f: Fifo, op: Op) {
    op.WriteOp? ==> |op.data| < f.size || |op.data| >= MAX_ALLOC_SIZE
  }

  /** A flagged FIFO with nothing queued is moved by nothing but a write that makes it grow. */
  lemma StuckExactly(f: Fifo, op: Op)
    requires Sound(f) && f.full && f.queue == []
    ensures Step(f, op) == f <==> Idle(f, op)
    ensures !Idle(f, op) ==> Accepts(f, op.data) && !Step(f, op).full && Step(f, op).queue == op.data
  {
    hide Aligned;
    if op.WriteOp? {
      AlignedIsNext(|op.data|);
    }
  }

  lemma LastStep(ops: seq<Op>)
    requires ops != []
    ensures Sound(Run(ops[..|ops| - 1])) && Run(ops) == Step(Run(ops[..|ops| - 1]), ops[|ops| - 1])
  {
  }

  /** So without such a write the flag never goes away, whatever is read or sent. */
  lemma {:induction false} StuckForever(before: seq<Op>, after: seq<Op>)
    requires Run(before).full && Run(before).queue == []
    requires forall i :: 0 <= i < |after| ==> Idle(Run(before), after[i])
    ensures Run(before + after) == Run(before)
  {
    hide *;
    if after == [] {
      assert before + after == before;
    } else {
      var init := after[..|after| - 1];
      StuckForever(before, init);
      assert (before + after)[..|before + after| - 1] == before + init;
      LastStep(before + after);
      StuckExactly(Run(before), after[|after| - 1]);
    }
  }

  /** A write is all or nothing, keeps the FIFO sound, and the buffer never shrinks. */
  lemma WriteIsAtomic(f: Fifo, data: seq<byte>)
    requires Sound(f)
    ensures var g := Write(f, data);
      && Sound(g) && g.size >= f.size
      && g.queue == (if Accepts(f, data) then f.queue + data else f.queue)
      && (g.full <==> !Accepts(f, data))
  {
    hide Aligned;
    AlignedIsNext(|data| + |f.queue|);
  }

  /** A growing FIFO has room for the whole write and at least one byte to spare. */
  lemma RoomToSpare(f: Fifo, n: nat)
    requires Sound(f)
    ensures var g := MakeRoom(f, n);
      Sound(g) && g.queue == f.queue && (!g.full ==> |g.queue| + n < g.size)
      && (g.size != f.size ==> g.size == Aligned(n + |f.queue|) > f.size)
  {
    hide Aligned;
    AlignedIsNext(n + |f.queue|);
  }

  // ----- Sending

  /** Bytes that leave the queue q when its first m bytes lie before the end of the buffer: the k-th
      send of the bytes d takes send(k, d) of them, and a second one follows a complete first one. */
  function SentBy(send: (nat, seq<byte>) -> nat, q: seq<byte>, m: nat): nat
    requires m <= |q|
  {
    if SecondSend(send, q, m) then m + send(1, q[m..]) else send(0, q[..m])
  }

  predicate SecondSend(send: (nat, seq<byte>) -> nat, q: seq<byte>, m: nat)
    requires m <= |q|
  {
    send(0, q[..m]) == m && m < |q|
  }

  /** Every send took all the bytes it was offered. */
  predicate NoneShort(send: (nat, seq<byte>) -> nat, q: seq<byte>, m: nat)
    requires m <= |q|
  {
    send(0, q[..m]) == m && (SecondSend(send, q, m) ==> send(1, q[m..]) == |q[m..]|)
  }

  /** Everything is sent if and only if no send was short. */
  lemma SentAllExactly(send: (nat, seq<byte>) -> nat, q: seq<byte>, m: nat)
    requires m <= |q| && forall k, d :: send(k, d) <= |d|
    ensures SentBy(send, q, m) <= |q|
    ensures SentBy(send, q, m) == |q| <==> NoneShort(send, q, m)
  {
    assert send(0, q[..m]) <= |q[..m]| && send(1, q[m..]) <= |q[m..]|;
  }

  // ----- Runs

  /** One call: a write, a read of up to n bytes, or a send of which n bytes got through. */
  datatype Op = WriteOp(data: seq<byte>) | ReadOp(n: nat) | SendOp(n: nat)

  function Taken(f: Fifo, op: Op): (n: nat)
    ensures n <= |f.queue|
  {
    if op.WriteOp? then 0 else if op.n <= |f.queue| then op.n else |f.queue|
  }

  function Step(f: Fifo, op: Op): Fifo
    requires |f.queue| <= f.size
  {
    if op.WriteOp? then Write(f, op.data) else Drain(f, Taken(f, op))
  }

  ghost function Run(ops: seq<Op>): (f: Fifo)
    ensures Sound(f)
  {
    if ops == [] then Init()
    else
      var f, op := Run(ops[..|ops| - 1]), ops[|ops| - 1];
      WriteIsAtomic(f, if op.WriteOp? then op.data else []);
      Step(f, op)
  }

  /** Everything that left the FIFO, in order. */
  ghost function Delivered(ops: seq<Op>): seq<byte> {
    if ops == [] then []
    else
      var f := Run(ops[..|ops| - 1]);
      Delivered(ops[..|ops| - 1]) + f.queue[..Taken(f, ops[|ops| - 1])]
  }

  /** The accepted writes, in order. */
  ghost function Accepted(ops: seq<Op>): seq<byte> {
    if ops == [] then []
    else
      var f, op := Run(ops[..|ops| - 1]), ops[|ops| - 1];
      Accepted(ops[..|ops| - 1]) + if op.WriteOp? && Accepts(f, op.data) then op.data else []
  }

  /** Nothing is lost, duplicated or reordered: delivered bytes and queued bytes together are the
      accepted writes. */
  lemma {:induction false} RunConserves(ops: seq<Op>)
    ensures Delivered(ops) + Run(ops).queue == Accepted(ops)
  {
    if ops != [] {
      RunConserves(ops[..|ops| - 1]);
      LastConserves(ops);
    }
  }

  /** The last call moves bytes from the writer to the queue or from the queue to the reader. */
  lemma LastConserves(ops: seq<Op>)
    requires ops != []
    ensures var init := ops[..|ops| - 1];
      Delivered(init) + Run(init).queue == Accepted(init) ==> Delivered(ops) + Run(ops).queue == Accepted(ops)
  {
    var init, op := ops[..|ops| - 1], ops[|ops| - 1];
    var f, d := Run(init), Delivered(init);
    var n := Taken(f, op);
    var kept := if op.WriteOp? && Accepts(f, op.data) then op.data else [];
    if op.WriteOp? {
      WriteIsAtomic(f, op.data);
    }
    assert Run(ops).queue == f.queue[n..] + kept;
    assert Delivered(ops) == d + f.queue[..n];
    assert Accepted(ops) == Accepted(init) + kept;
    Regroup(d, f.queue, n, kept);
  }

  lemma Regroup(d: seq<byte>, q: seq<byte>, n: nat, kept: seq<byte>)
    requires n <= |q|
    ensures d + q[..n] + (q[n..] + kept) == d + q + kept
  {
    assert q == q[..n] + q[n..];
  }

  // ----- What a call does, in plain terms

  /** What a call makes of the queue, the capacity and the drop flag. */
  lemma StepMeaning(f: Fifo, op: Op)
    requires Sound(f)
    ensures var g := Step(f, op);
      if op.WriteOp? then
        var need := |f.queue| + |op.data|;
        var accepted := need < 33554432 && (f.full ==> f.size <= need);
        && g.queue == (if accepted then f.queue + op.data else f.queue)
        && (g.full <==> !accepted)
        && g.size == if accepted && f.size <= need then (need / 262144 + 1) * 262144 else f.size
      else
        var n := if op.n <= |f.queue| then op.n else |f.queue|;
        g.queue == f.queue[n..] && (g.full <==> f.full && n == 0) && g.size == f.size
  {
    if op.WriteOp? {
      AcceptsExactly(f, op.data);
      WriteIsAtomic(f, op.data);
      WriteSize(f, op.data);
    }
  }

  lemma WriteSize(f: Fifo, data: seq<byte>)
    requires Sound(f)
    ensures var need := |f.queue| + |data|;
      Write(f, data).size == if Accepts(f, data) && f.size <= need then Aligned(need) else f.size
  {
    AlignedIsNext(|data| + |f.queue|);
    hide Aligned;
  }

  /** A FIFO starts as one empty block that accepts data. */
  lemma StartMeaning()
    ensures Run([]) == Fifo([], 262144, false)
  {
  }

  predicate Refused(f: Fifo, op: Op)
    requires |f.queue| <= f.size
  {
    op.WriteOp? && !Accepts(f, op.data)
  }

  /** The calls that leave a raised flag raised. */
  predicate KeepsFlag(f: Fifo, op: Op)
    requires |f.queue| <= f.size
  {
    if op.WriteOp? then !Accepts(f, op.data) else Taken(f, op) == 0
  }

  lemma FlagAfter(f: Fifo, op: Op)
    requires Sound(f)
    ensures Step(f, op).full <==> if op.WriteOp? then !Accepts(f, op.data) else f.full && Taken(f, op) == 0
  {
    if op.WriteOp? {
      WriteIsAtomic(f, op.data);
    }
  }

  /** Call k was a refused write. */
  ghost predicate RefusedAt(ops: seq<Op>, k: nat)
    requires k < |ops|
  {
    Refused(Run(ops[..k]), ops[k])
  }

  ghost predicate QuietAt(ops: seq<Op>, k: nat)
    requires k < |ops|
  {
    KeepsFlag(Run(ops[..k]), ops[k])
  }

  /** Call k was a refused write, and no later call took a byte or was an accepted write. */
  ghost predicate FlaggedSince(ops: seq<Op>, k: nat) {
    k < |ops| && RefusedAt(ops, k) && forall i :: k < i < |ops| ==> QuietAt(ops, i)
  }

  lemma OneMore(ops: seq<Op>, i: nat)
    requires i < |ops|
    ensures var init, last := ops[..|ops| - 1], ops[|ops| - 1];
      && (i < |init| ==> RefusedAt(ops, i) == RefusedAt(init, i) && QuietAt(ops, i) == QuietAt(init, i))
      && (i == |init| ==> RefusedAt(ops, i) == Refused(Run(init), last))
      && (i == |init| ==> QuietAt(ops, i) == KeepsFlag(Run(init), last))
  {
    hide Run, Refused, KeepsFlag;
    var init := ops[..|ops| - 1];
    assert ops[..i] == if i < |init| then init[..i] else init;
  }

  lemma FlaggedOneMore(ops: seq<Op>, k: nat)
    requires ops != []
    ensures var init, last := ops[..|ops| - 1], ops[|ops| - 1];
      FlaggedSince(ops, k) <==>
        if k == |init| then Refused(Run(init), last) else FlaggedSince(init, k) && KeepsFlag(Run(init), last)
  {
    var init, last := ops[..|ops| - 1], ops[|ops| - 1];
    OneMore(ops, |init|);
    if k < |init| {
      OneMore(ops, k);
    }
    forall i | 0 <= i < |init|
      ensures QuietAt(ops, i) == QuietAt(init, i)
    {
      OneMore(ops, i);
    }
    hide Run, Refused, KeepsFlag, RefusedAt, QuietAt;
    assert FlaggedSince(ops, k) && k < |init| ==> QuietAt(ops, |init|);
  }

  /** The drop flag is up if and only if some write was refused and since then nothing was taken and
      nothing accepted. */
  lemma {:induction false} FlagExactly(ops: seq<Op>)
    ensures Run(ops).full <==> exists k :: FlaggedSince(ops, k)
  {
    hide *;
    if ops == [] {
      NeverFlagged();
    } else {
      var init, last := ops[..|ops| - 1], ops[|ops| - 1];
      FlagExactly(init);
      LastStep(ops);
      FlagAfter(Run(init), last);
      FlagTerms(Run(init), last);
      FlaggedOneMore(ops, |init|);
      if k :| FlaggedSince(ops, k) {
        FlaggedOneMore(ops, k);
      }
      if k :| FlaggedSince(init, k) {
        FlaggedOneMore(ops, k);
        FlaggedBelow(init, k);
      }
    }
  }

  lemma NeverFlagged()
    ensures !Run([]).full && forall k :: !FlaggedSince([], k)
  {
  }

  lemma FlaggedBelow(ops: seq<Op>, k: nat)
    requires FlaggedSince(ops, k)
    ensures k < |ops|
  {
  }

  lemma FlagTerms(f: Fifo, op: Op)
    requires Sound(f)
    ensures |f.queue| <= f.size
    ensures Refused(f, op) <==> op.WriteOp? && !Accepts(f, op.data)
    ensures KeepsFlag(f, op) <==> if op.WriteOp? then !Accepts(f, op.data) else Taken(f, op) == 0
  {
  }

  /** All bytes that were offered for writing, in order. */
  function Written(ops: seq<Op>): seq<byte> {
    if ops == [] then []
    else Written(ops[..|ops| - 1]) + if ops[|ops| - 1].WriteOp? then ops[|ops| - 1].data else []
  }

  /** At every write the queue stays below the limit. */
  ghost predicate NeverCongested(ops: seq<Op>) {
    forall k :: 0 <= k < |ops| && ops[k].WriteOp? ==> |Run(ops[..k]).queue| + |ops[k].data| < 33554432
  }

  /** Without congestion nothing is dropped: what was delivered, followed by what is queued, is all that
      was written. */
  lemma {:induction false} NothingDropped(ops: seq<Op>)
    requires NeverCongested(ops)
    ensures Delivered(ops) + Run(ops).queue == Written(ops) && !Run(ops).full
  {
    if ops == [] {
      StartMeaning();
    } else {
      CalmBefore(ops);
      NothingDropped(ops[..|ops| - 1]);
      LastCalm(ops);
      RunConserves(ops);
    }
  }

  lemma CalmBefore(ops: seq<Op>)
    requires ops != [] && NeverCongested(ops)
    ensures var init, last := ops[..|ops| - 1], ops[|ops| - 1];
      NeverCongested(init) && (last.WriteOp? ==> |Run(init).queue| + |last.data| < 33554432)
  {
    hide Run;
    var init := ops[..|ops| - 1];
    forall k | 0 <= k <= |init|
      ensures ops[..k] == init[..k]
    {
    }
    assert init[..|init|] == init;
  }

  lemma LastCalm(ops: seq<Op>)
    requires ops != []
    requires var init, last := ops[..|ops| - 1], ops[|ops| - 1];
      && Delivered(init) + Run(init).queue == Written(init) && !Run(init).full
      && (last.WriteOp? ==> |Run(init).queue| + |last.data| < 33554432)
    ensures Written(ops) == Accepted(ops) && !Run(ops).full
  {
    var init, last := ops[..|ops| - 1], ops[|ops| - 1];
    LastStep(ops);
    RunConserves(init);
    FlagAfter(Run(init), last);
    if last.WriteOp? {
      AcceptsExactly(Run(init), last.data);
    }
  }

  /** The buffer never shrinks over a run. */
  lemma {:induction false} RunNeverShrinks(ops: seq<Op>, k: nat)
    requires k <= |ops|
    ensures Run(ops[..k]).size <= Run(ops).size
  {
    if k == |ops| {
      assert ops[..k] == ops;
    } else {
      var init, op := ops[..|ops| - 1], ops[|ops| - 1];
      RunNeverShrinks(init, k);
      assert init[..k] == ops[..k];
      WriteIsAtomic(Run(init), if op.WriteOp? then op.data else []);
    }
  }
}
