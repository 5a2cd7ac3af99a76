/** Runs of calls on the pointer structures end in the states that the plain models describe, so what
    is proved of all runs of the models holds of the table and of the ring buffer. */
module Replay {
  import opened Common
  import opened Seqs
  import opened Handles
  import TableSpec
  import TableRuns
  import HashTable
  import FifoSpec
  import RingFifo
  import Threshold

  ghost function Added(ops: seq<TableRuns.Op>): set<Handle> {
    set i | 0 <= i < |ops| && ops[i].AddOp? :: ops[i].h
  }

  lemma {:induction false} LegalPrefix(cfg: TableSpec.Config, ops: seq<TableRuns.Op>, n: nat)
    requires n <= |ops| && TableRuns.LegalRun(cfg, ops)
    ensures TableRuns.LegalRun(cfg, ops[..n])
    ensures n < |ops| ==> TableRuns.Legal(TableRuns.Run(cfg, ops[..n]), ops[n])
    ensures n < |ops| ==> TableRuns.Run(cfg, ops[..n + 1]) == TableRuns.Step(cfg, TableRuns.Run(cfg, ops[..n]), ops[n])
    decreases |ops|
  {
    hide *;
    if n == |ops| {
      assert ops[..n] == ops;
    } else {
      TableRuns.LastStep(cfg, ops);
      var init := ops[..|ops| - 1];
      if n == |ops| - 1 {
        assert ops[..n + 1] == ops && ops[..n] == init;
      } else {
        LegalPrefix(cfg, init, n);
        assert init[..n] == ops[..n] && init[..n + 1] == ops[..n + 1];
      }
    }
  }

  /** One call on the table. */
  method Call(t: HashTable.Hash, op: TableRuns.Op)
    requires t.Valid() && TableSpec.Shape(t.abs) && TableRuns.Legal(t.abs, op)
    modifies t, t.buckets, t.bloomBv, t.repr, if op.AddOp? then {op.h} else {}
    ensures t.Valid() && t.abs == TableRuns.Step(t.cfg, old(t.abs), op)
    ensures t.repr <= old(t.repr) + if op.AddOp? then {op.h} else {}
    ensures t.buckets == old(t.buckets) || fresh(t.buckets)
    ensures t.bloomBv == old(t.bloomBv) || fresh(t.bloomBv)
  {
    hide *;
    LegalStep(t.cfg, t.abs, op);
    match op {
      case AddOp(h) => t.Add(h);
      case DeleteOp(h) => t.Delete(h);
      case SortOp(cmp) => ghost var p, c := t.SortValid(cmp);
    }
  }

  lemma LegalStep(cfg: TableSpec.Config, a: TableSpec.Table, op: TableRuns.Op)
    requires TableSpec.Shape(a) && TableRuns.Legal(a, op)
    ensures op.AddOp? ==> op.h !in TableSpec.Elements(a) && TableRuns.Step(cfg, a, op) == TableSpec.Add(cfg, a, op.h)
    ensures op.DeleteOp? ==>
      op.h in TableSpec.Elements(a) && TableRuns.Step(cfg, a, op) == TableSpec.Delete(cfg, a, op.h)
    ensures op.SortOp? ==> TableRuns.Step(cfg, a, op) == TableSpec.Resort(a, op.cmp)
  {
  }

  /** A run of HASH_ADD, HASH_DELETE and HASH_SRT on a new table. */
  method RunTable(cfg: TableSpec.Config, ops: seq<TableRuns.Op>) returns (t: HashTable.Hash)
    requires TableRuns.LegalRun(cfg, ops)
    modifies Added(ops)
    ensures fresh(t) && t.Valid() && t.cfg == cfg && t.abs == TableRuns.Run(cfg, ops)
  {
    t := new HashTable.Hash(cfg);
    for i := 0 to |ops|
      invariant fresh(t) && fresh(t.buckets) && fresh(t.bloomBv) && t.repr <= Added(ops)
      invariant t.Valid() && t.cfg == cfg && t.abs == TableRuns.Run(cfg, ops[..i])
    {
      LegalPrefix(cfg, ops, i);
      Call(t, ops[i]);
    }
    assert ops[..|ops|] == ops;
  }

  /** After any run with distinct keys, HASH_FIND on the pointer structure is lookup in the run's map. */
  method RunThenFind(cfg: TableSpec.Config, ops: seq<TableRuns.Op>, key: Key) returns (out: Handle?)
    requires TableRuns.LegalRun(cfg, ops) && TableRuns.DistinctKeys(cfg, ops)
    modifies Added(ops)
    ensures var m := TableRuns.MapAfter(ops);
      out == if key in m then m[key] else null
  {
    hide *;
    var t := RunTable(cfg, ops);
    t.ValidIsReadable();
    out := t.Find(key, t.abs);
    TableRuns.FindRefinesMap(cfg, ops, key);
  }

  // ----- A chain at its threshold

  /** Elements for every hash value that the threshold run needs. */
  method MakePool(cfg: TableSpec.Config) returns (pool: seq<seq<Handle>>)
    requires forall v: byte :: cfg.hash([v]) == v as nat
    ensures Threshold.Ample(cfg, pool) && forall v :: 0 <= v < |pool| ==> forall h | h in pool[v] :: fresh(h)
  {
    pool := [];
    for v := 0 to 128
      invariant |pool| == v && Threshold.Pool(cfg, pool)
      invariant forall u :: 0 <= u < v ==> |pool[u]| == 109 && forall h | h in pool[u] :: fresh(h)
    {
      var row := MakeRow(v as byte);
      pool := pool + [row];
    }
  }

  method MakeRow(v: byte) returns (row: seq<Handle>)
    ensures |row| == 109 && Distinct(row) && forall h | h in row :: fresh(h) && h.key == [v]
  {
    row := [];
    for i := 0 to 109
      invariant |row| == i && Distinct(row) && forall h | h in row :: fresh(h) && h.key == [v]
    {
      var h := new Handle([v]);
      row := row + [h];
    }
  }

  lemma AddedFrom(ops: seq<TableRuns.Op>, pool: seq<seq<Handle>>)
    requires forall i :: 0 <= i < |ops| && ops[i].AddOp? ==> exists v :: 0 <= v < |pool| && ops[i].h in pool[v]
    ensures forall h | h in Added(ops) :: exists v :: 0 <= v < |pool| && h in pool[v]
  {
  }

  /** What the fields show at the threshold. */
  lemma ShownAtThreshold(t: HashTable.Hash, ops: seq<TableRuns.Op>, j: nat)
    requires t.Valid() && t.abs == TableRuns.Run(t.cfg, ops) && Threshold.AtThreshold(t.cfg, ops, j)
    ensures t.idealChainMaxlen == 10 && t.noexpand == 0
    ensures j < t.buckets.Length && t.buckets[j].count == 10 == (t.buckets[j].expandMult + 1) * 10
  {
  }

  /** A table whose last expansion left chain 63 at its threshold, with expansion still allowed. */
  method ReachThreshold() returns (t: HashTable.Hash)
    ensures t.Valid() && t.idealChainMaxlen == 10 && t.noexpand == 0
    ensures t.buckets.Length > 63 && t.buckets[63].count == 10 == (t.buckets[63].expandMult + 1) * 10
  {
    hide *;
    var cfg := TableSpec.Config((k: Key) => if k == [] then 0 else k[0] as nat, None);
    var pool := MakePool(cfg);
    Threshold.AmplePool(cfg, pool);
    Threshold.ThresholdIsReached(cfg, pool);
    var ops := Threshold.ThresholdRun(pool);
    Threshold.RunIsLegal(cfg, pool);
    AddedFrom(ops, pool);
    t := RunTable(cfg, ops);
    ShownAtThreshold(t, ops, 63);
  }

  // ----- A selection

  /** A table of two elements. */
  method MakeTwo(cfg: TableSpec.Config, a: Handle, b: Handle) returns (src: HashTable.Hash)
    requires a != b
    modifies a, b
    ensures fresh(src) && fresh(src.buckets) && fresh(src.bloomBv) && src.cfg == cfg && src.repr == {a, b}
    ensures src.Valid() && src.abs.Table? && |src.abs.order| == 2
  {
    hide *;
    src := new HashTable.Hash(cfg);
    NoElements(src.abs);
    src.EmptyRepr();
    src.Add(a);
    src.Add(b);
    TwoElements(src.abs);
  }

  lemma NoElements(t: TableSpec.Table)
    ensures t.NoTable? ==> TableSpec.Elements(t) == []
  {
  }

  lemma TwoElements(t: TableSpec.Table)
    requires |TableSpec.Elements(t)| == 2
    ensures t.Table? && TableSpec.Elements(t) == t.order && |t.order| == 2
  {
  }

  /** Two elements selected into an empty table: tail stays at the first, and with HASH_BLOOM neither
      is found. */
  method SelectTwo(key0: Key, key1: Key) returns (dst: HashTable.Hash, ghost t: TableSpec.Table)
    ensures TableSpec.Shape(t) && dst.Readable(t) && t.Table? && |t.order| == 2
    ensures multiset{t.order[0].key, t.order[1].key} == multiset{key0, key1}
    ensures dst.tail == dst.head && !dst.ListView(t.order)
    ensures forall h | h in t.order :: TableSpec.Find(dst.cfg, t, h.key) == null
  {
    hide *;
    var cfg := TableSpec.Config(_ => 0, Some(10));
    var a := new Handle(key0);
    var b := new Handle(key1);
    var a' := new Handle(key0);
    var b' := new Handle(key1);
    var src := MakeTwo(cfg, a, b);
    dst := new HashTable.Hash(cfg);
    dst.EmptyRepr();
    var twin := (h: Handle) => if h == a then a' else b';
    var cond := (h: Handle) => true;
    AllSelected(src, twin, cond);
    ReadyToSelect(dst, src, twin, {a', b'});
    t := dst.SelectFrom(src, twin, cond, {a', b'});
    TwoElements(t);
    NoneFound(dst, t);
    TwoOf(Flatten<Handle>(src.abs.chains), a, b, twin, key0, key1);
  }

  lemma ReadyToSelect(dst: HashTable.Hash, src: HashTable.Hash, twin: Handle -> Handle, twins: set<Handle>)
    requires dst != src && dst.cfg == src.cfg && dst.repr == {} && twins !! src.repr
    requires dst.buckets != src.buckets && (dst.buckets as object) != src.bloomBv
    requires dst.bloomBv != src.bloomBv && (dst.bloomBv as object) != src.buckets
    requires forall h | h in src.repr :: twin(h).key == h.key
    ensures dst.Separate(src, twins) && dst.Compatible(src, twin)
  {
  }

  lemma TwoOf(s: seq<Handle>, a: Handle, b: Handle, twin: Handle -> Handle, key0: Key, key1: Key)
    requires |s| == 2 && Distinct(s) && Over(s, {a, b}) && twin(a).key == key0 && twin(b).key == key1
    ensures var r := Map(twin, s);
      |r| == 2 && multiset{r[0].key, r[1].key} == multiset{key0, key1}
  {
  }

  lemma NoneFound(dst: HashTable.Hash, t: TableSpec.Table)
    requires TableSpec.Shape(t) && dst.Readable(t) && t.Table? && t.filter == {} && dst.cfg.bloom.Some?
    ensures forall h | h in t.order :: TableSpec.Find(dst.cfg, t, h.key) == null
  {
    forall h | h in t.order
      ensures TableSpec.Find(dst.cfg, t, h.key) == null
    {
      TableRuns.SelectedMisses(dst.cfg, t, h);
    }
  }

  lemma AllSelected(src: HashTable.Hash, twin: Handle -> Handle, cond: Handle -> bool)
    requires src.Valid() && src.abs.Table? && forall h | h in src.repr :: cond(h)
    ensures var all := Flatten<Handle>(src.abs.chains);
      Filter(cond, all) == all && |all| == |src.abs.order| && Distinct(all) && Over(all, src.repr)
  {
    TableRuns.ChainsHoldAll(src.cfg, src.abs);
    src.ChainsFlat();
    FilterAll(cond, Flatten<Handle>(src.abs.chains));
  }

  // ----- The ring buffer

  /** A call on the FIFO; a send comes with the socket's behaviour during it. */
  datatype FifoCall = WriteCall(data: seq<byte>) | ReadCall(count: nat) | SendCall(send: (nat, seq<byte>) -> nat)

  ghost predicate SendsFit(calls: seq<FifoCall>) {
    forall i :: 0 <= i < |calls| && calls[i].SendCall? ==> forall k, d :: calls[i].send(k, d) <= |d|
  }

  /** op is c as the plain queue sees it; how much a send takes depends on the socket. */
  ghost predicate Matches(c: FifoCall, op: FifoSpec.Op) {
    match c
    case WriteCall(data) => op == FifoSpec.WriteOp(data)
    case ReadCall(count) => op == FifoSpec.ReadOp(count)
    case SendCall(_) => op.SendOp?
  }

  /** One call on the ring buffer: what left it, and the corresponding call on the plain queue. */
  method CallFifo(f: RingFifo.IvyFifoBuffer, c: FifoCall) returns (out: seq<byte>, ghost op: FifoSpec.Op)
    requires f.Valid() && (c.SendCall? ==> forall k, d :: c.send(k, d) <= |d|)
    modifies f, f.buffer
    ensures f.Valid() && (f.buffer == old(f.buffer) || fresh(f.buffer))
    ensures f.Contents() == FifoSpec.Step(old(f.Contents()), op)
    ensures out == old(f.Contents().queue)[..FifoSpec.Taken(old(f.Contents()), op)]
    ensures Matches(c, op)
  {
    match c {
      case WriteCall(data) =>
        op := FifoSpec.WriteOp(data);
        f.Write(data);
        out := [];
      case ReadCall(count) =>
        op := FifoSpec.ReadOp(count);
        var dest := new byte[f.Length()](_ => 0);
        var n := f.Read(dest, count);
        out := dest[..n];
      case SendCall(send) =>
        var left, sent, calls := f.SendSocket(send);
        op := FifoSpec.SendOp(|sent|);
        out := sent;
    }
  }

  lemma RunSnoc(ops: seq<FifoSpec.Op>, op: FifoSpec.Op)
    ensures FifoSpec.Run(ops + [op]) == FifoSpec.Step(FifoSpec.Run(ops), op)
    ensures FifoSpec.Delivered(ops + [op]) ==
            FifoSpec.Delivered(ops) + FifoSpec.Run(ops).queue[..FifoSpec.Taken(FifoSpec.Run(ops), op)]
  {
    assert (ops + [op])[..|ops|] == ops;
  }

  lemma NothingRun()
    ensures FifoSpec.Run([]) == FifoSpec.Init() && FifoSpec.Delivered([]) == []
  {
  }

  /** A run of writes, reads and partial sends on a new ring buffer: what was delivered, followed by
      what is still queued, is the accepted writes. */
  method RunFifo(calls: seq<FifoCall>)
    returns (f: RingFifo.IvyFifoBuffer, delivered: seq<byte>, ghost ops: seq<FifoSpec.Op>)
    requires SendsFit(calls)
    ensures fresh(f) && f.Valid() && f.Contents() == FifoSpec.Run(ops)
    ensures |ops| == |calls| && forall i :: 0 <= i < |calls| ==> Matches(calls[i], ops[i])
    ensures delivered + f.Contents().queue == FifoSpec.Accepted(ops)
  {
    hide FifoSpec.Step, FifoSpec.Taken, FifoSpec.Accepted, FifoSpec.Sound, FifoSpec.Delivered, FifoSpec.Run;
    hide RingFifo.IvyFifoBuffer.Contents;
    NothingRun();
    f := new RingFifo.IvyFifoBuffer();
    delivered, ops := [], [];
    for i := 0 to |calls|
      invariant fresh(f) && fresh(f.buffer) && f.Valid() && f.Contents() == FifoSpec.Run(ops)
      invariant |ops| == i && forall k :: 0 <= k < i ==> Matches(calls[k], ops[k])
      invariant delivered == FifoSpec.Delivered(ops)
    {
      ghost var op;
      var out;
      out, op := CallFifo(f, calls[i]);
      RunSnoc(ops, op);
      delivered, ops := delivered + out, ops + [op];
    }
    FifoSpec.RunConserves(ops);
  }
}
