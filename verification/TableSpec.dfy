/** What the uthash table computes, on plain values: the application order, the bucket chains, the
    doubling policy with its statistics, and the Bloom filter. The pointer version refines it. */
module TableSpec {
  import opened Bits
  import opened Common
  import opened Seqs
  import opened Handles
  import MergeSpec

  const INITIAL_LOG2: nat := 5
  const CAPACITY_THRESH: nat := 10

  /** Compile-time choices: the hash function (any function of the key bytes) and HASH_BLOOM, the
      log of the filter's size, if it is defined. */
  datatype Config = Config(hash: Key -> nat, bloom: Option<nat>)

  /** The table while it exists. `history` records, expansion by expansion, whether it was
      ineffective; it is not in the code and only serves to state what the counters mean. */
  datatype Table =
    | NoTable
    | Table(order: seq<Handle>, chains: seq<seq<Handle>>, mult: seq<nat>, log2: nat, ideal: nat,
            nonideal: nat, ineff: nat, noexpand: bool, history: seq<bool>, filter: set<nat>)

  ghost predicate Shape(t: Table) {
    t.Table? ==> |t.chains| == |t.mult| == Pow2(t.log2)
  }

  function BucketOf(cfg: Config, h: Handle, nb: nat): (j: nat)
    requires nb > 0
    ensures j < nb
  {
    cfg.hash(h.key) % nb
  }

  function Elements(t: Table): seq<Handle> {
    if t.NoTable? then [] else t.order
  }

  // ----- Operations

  function MakeTable(): (t: Table)
    ensures Shape(t)
  {
    var nb := Pow2(INITIAL_LOG2);
    Table([], seq(nb, _ => []), seq(nb, _ => 0), INITIAL_LOG2, 0, 0, 0, false, [], {})
  }

  function Push(cfg: Config, t: Table, h: Handle): (r: Table)
    requires t.Table? && Shape(t)
    ensures r.Table? && Shape(r)
  {
    var j := BucketOf(cfg, h, |t.chains|);
    t.(order := t.order + [h], chains := t.chains[j := [h] + t.chains[j]])
  }

  /** Bucket j of nb after the elements of c were moved one by one to the front of their bucket. */
  function Moved(cfg: Config, c: seq<Handle>, nb: nat, j: nat): (r: seq<Handle>)
    requires nb > 0
    ensures |r| <= |c|
  {
    if c == [] then []
    else
      var r, h := Moved(cfg, c[..|c| - 1], nb, j), c[|c| - 1];
      if BucketOf(cfg, h, nb) == j then [h] + r else r
  }

  function Redistribute(cfg: Config, chains: seq<seq<Handle>>): (r: seq<seq<Handle>>)
    requires |chains| > 0
    ensures |r| == 2 * |chains|
    ensures forall j :: 0 <= j < |r| ==> r[j] == Moved(cfg, chains[j % |chains|], |r|, j)
  {
    var nb := 2 * |chains|;
    seq(nb, j requires 0 <= j < nb => Moved(cfg, chains[j % |chains|], nb, j))
  }

  function MultOf(count: nat, ideal: nat): nat
    requires ideal > 0
  {
    if count > ideal then count / ideal else 0
  }

  function Excess(count: nat, ideal: nat): nat {
    if count > ideal then count - ideal else 0
  }

  function Mults(lens: seq<nat>, ideal: nat): (r: seq<nat>)
    requires ideal > 0
    ensures |r| == |lens| && forall j :: 0 <= j < |lens| ==> r[j] == MultOf(lens[j], ideal)
  {
    seq(|lens|, j requires 0 <= j < |lens| => MultOf(lens[j], ideal))
  }

  function Excesses(lens: seq<nat>, ideal: nat): (r: seq<nat>)
    ensures |r| == |lens| && forall j :: 0 <= j < |lens| ==> r[j] == Excess(lens[j], ideal)
  {
    seq(|lens|, j requires 0 <= j < |lens| => Excess(lens[j], ideal))
  }

  /** HASH_EXPAND_BUCKETS when num_items is n. */
  function ExpandCounting(cfg: Config, t: Table, n: nat): (r: Table)
    requires t.Table? && Shape(t) && n > 0
    ensures r.Table? && Shape(r)
  {
    var ideal := CeilDiv(n, 2 * |t.chains|);
    var chains := Redistribute(cfg, t.chains);
    var nonideal := Sum(Excesses(Lens(chains), ideal));
    var bad := nonideal > n / 2;
    var ineff := if bad then t.ineff + 1 else 0;
    t.(chains := chains, mult := Mults(Lens(chains), ideal), log2 := t.log2 + 1, ideal := ideal,
       nonideal := nonideal, ineff := ineff, noexpand := t.noexpand || ineff > 1, history := t.history + [bad])
  }

  /** HASH_EXPAND_BUCKETS of a table whose num_items is right. */
  function Expand(cfg: Config, t: Table): (r: Table)
    requires t.Table? && Shape(t) && t.order != []
    ensures r.Table? && Shape(r)
  {
    ExpandCounting(cfg, t, |t.order|)
  }

  /** The test of HASH_ADD_TO_BKT after an element went into bucket j. */
  predicate Crowded(t: Table, j: nat)
    requires t.Table? && Shape(t) && j < |t.chains|
  {
    |t.chains[j]| >= (t.mult[j] + 1) * CAPACITY_THRESH && !t.noexpand
  }

  /** HASH_ADD_TO_BKT, with the list update that comes before it, when num_items is n. A crowded
      bucket of a well-formed table implies n > 0; the test only makes the function total. */
  function InsertCounting(cfg: Config, t: Table, h: Handle, n: nat): (r: Table)
    requires t.Table? && Shape(t)
    ensures r.Table? && Shape(r)
  {
    var p := Push(cfg, t, h);
    if Crowded(p, BucketOf(cfg, h, |p.chains|)) && n > 0 then ExpandCounting(cfg, p, n) else p
  }

  /** HASH_ADD_TO_BKT, with the list and counter updates that come before it. */
  function Insert(cfg: Config, t: Table, h: Handle): (r: Table)
    requires t.Table? && Shape(t)
    ensures r.Table? && Shape(r)
  {
    InsertCounting(cfg, t, h, |t.order| + 1)
  }

  /** HASH_SELECT takes one element: num_items is increased only after the element is in its bucket. */
  function SelectStep(cfg: Config, t: Table, d: Handle): (r: Table)
    requires Shape(t)
    ensures r.Table? && Shape(r)
  {
    InsertCounting(cfg, if t.NoTable? then MakeTable() else t, d, |Elements(t)|)
  }

  /** HASH_SELECT takes the elements ds, one by one, into an empty table. */
  function Selected(cfg: Config, ds: seq<Handle>): (r: Table)
    ensures Shape(r)
  {
    if ds == [] then NoTable else SelectStep(cfg, Selected(cfg, ds[..|ds| - 1]), ds[|ds| - 1])
  }

  function FilterIndex(nbits: nat, hashv: nat): nat {
    BitAnd(hashv, (Pow2(nbits) - 1) % 0x1_0000_0000)
  }

  function Remember(cfg: Config, t: Table, h: Handle): (r: Table)
    requires t.Table? && Shape(t)
    ensures r.Table? && Shape(r)
  {
    if cfg.bloom.None? then t
    else t.(filter := t.filter + {FilterIndex(cfg.bloom.value, cfg.hash(h.key))})
  }

  /** HASH_ADD. */
  function Add(cfg: Config, t: Table, h: Handle): (r: Table)
    requires Shape(t)
    ensures r.Table? && Shape(r)
  {
    Remember(cfg, Insert(cfg, if t.NoTable? then MakeTable() else t, h), h)
  }

  /** HASH_DELETE: deleting the last element frees the table. */
  function Delete(cfg: Config, t: Table, h: Handle): (r: Table)
    requires Shape(t)
    ensures Shape(r)
  {
    if t.NoTable? || |t.order| <= 1 then NoTable
    else
      var j := BucketOf(cfg, h, |t.chains|);
      t.(order := Without(t.order, h), chains := t.chains[j := Without(t.chains[j], h)])
  }

  /** HASH_SRT. */
  function Resort(t: Table, cmp: (Handle, Handle) -> int): (r: Table)
    requires Shape(t)
    ensures Shape(r)
  {
    if t.NoTable? then t else t.(order := MergeSpec.Sort(cmp, t.order))
  }

  /** HASH_FIND_IN_BKT: the first element of the chain with that key. */
  function FirstWithKey(c: seq<Handle>, key: Key): Handle? {
    if c == [] then null
    else if c[0].key == key then c[0]
    else FirstWithKey(c[1..], key)
  }

  /** HASH_FIND when HASH_BLOOM is not defined. */
  function FindUnfiltered(cfg: Config, t: Table, key: Key): Handle?
    requires Shape(t)
  {
    if t.NoTable? then null
    else FirstWithKey(t.chains[cfg.hash(key) % |t.chains|], key)
  }

  /** HASH_FIND. */
  function Find(cfg: Config, t: Table, key: Key): Handle?
    requires Shape(t)
  {
    if t.Table? && cfg.bloom.Some? && FilterIndex(cfg.bloom.value, cfg.hash(key)) !in t.filter then null
    else FindUnfiltered(cfg, t, key)
  }

  // ----- The invariant

  /** The chains partition the elements by hash bucket. */
  ghost predicate Placed(cfg: Config, t: Table)
    requires t.Table? && |t.chains| > 0
  {
    && Distinct(t.order)
    && (forall j :: 0 <= j < |t.chains| ==> ChainPlaced(cfg, t, j))
    && (forall h | h in t.order :: h in t.chains[BucketOf(cfg, h, |t.chains|)])
    && Sum(Lens(t.chains)) == |t.order|
  }

  ghost predicate ChainPlaced(cfg: Config, t: Table, j: nat)
    requires t.Table? && j < |t.chains|
  {
    && Distinct(t.chains[j])
    && forall h | h in t.chains[j] :: h in t.order && BucketOf(cfg, h, |t.chains|) == j
  }

  /** Every element's bit is set in the filter. */
  ghost predicate Filtered(cfg: Config, t: Table)
    requires t.Table?
  {
    cfg.bloom.Some? ==>
      forall h | h in t.order :: FilterIndex(cfg.bloom.value, cfg.hash(h.key)) in t.filter
  }

  /** The length of the trailing run of ineffective expansions. */
  function TrailingRun(history: seq<bool>): nat {
    if history == [] || !history[|history| - 1] then 0
    else 1 + TrailingRun(history[..|history| - 1])
  }

  /** What the expansion counters mean. */
  ghost predicate Counted(t: Table)
    requires t.Table?
  {
    && t.log2 == INITIAL_LOG2 + |t.history|
    && t.ineff == TrailingRun(t.history)
    && (t.noexpand <==> t.ineff == 2)
    && t.ineff <= 2
    && (t.history != [] ==> 1 <= t.ideal <= CAPACITY_THRESH)
  }

  /** w_j bounds the allowance of bucket j, and all allowances together are at most one a bucket. */
  ghost predicate WeightedBy(t: Table, w: seq<nat>)
    requires t.Table? && Shape(t)
  {
    && |w| == |t.chains| && Sum(w) <= |w|
    && forall j :: 0 <= j < |w| ==>
      && t.mult[j] <= w[j]
      && |t.chains[j]| <= CAPACITY_THRESH * w[j] + 9
      && |t.chains[j]| <= CAPACITY_THRESH * (t.mult[j] + 1)
  }

  ghost predicate Balanced(t: Table)
    requires t.Table? && Shape(t)
  {
    exists w: seq<nat> :: WeightedBy(t, w)
  }

  ghost predicate Inv(cfg: Config, t: Table) {
    && Shape(t)
    && (t.Table? ==>
      && t.order != [] && Placed(cfg, t) && Filtered(cfg, t) && Counted(t)
      && (!t.noexpand ==> Balanced(t)))
  }
}
