/** HASH_EXPAND_BUCKETS: every element moves to the front of its bucket in an array of twice the size,
    while the expansion statistics are counted. */
module HashExpand {
  import opened Bits
  import opened Seqs
  import opened Handles
  import opened Buckets
  import opened TableSpec
  import TableLaws

  /** Counts, multipliers and excess of the new array, for chains r. */
  ghost predicate Tallied(nb: array<Bucket>, r: seq<seq<Handle>>, ideal: nat, nonideal: nat)
    requires ideal > 0
    reads nb
  {
    && Counts(nb, r)
    && (forall j :: 0 <= j < |r| ==> nb[j].expandMult == MultOf(|r[j]|, ideal))
    && nonideal == Sum(Excesses(Lens(r), ideal))
  }

  /** The new array after the prefixes in done were moved. */
  ghost predicate Moving(cfg: Config, nb: array<Bucket>, done: seq<seq<Handle>>, ideal: nat, nonideal: nat,
                         all: set<Handle>)
    requires |done| > 0 && ideal > 0
    reads nb, all`hhPrev, all`hhNext
  {
    Links(nb, Redistribute(cfg, done), all) && Tallied(nb, Redistribute(cfg, done), ideal, nonideal)
  }

  /** What is left of the old chains, from element k of chain i on, can still be walked. */
  ghost predicate Unmoved(chains: seq<seq<Handle>>, i: nat, k: nat, all: set<Handle>)
    reads all`hhNext
  {
    && (forall j :: 0 <= j < |chains| ==> Over(chains[j], all))
    && forall j, m {:trigger chains[j][m].hhNext} ::
      0 <= j < |chains| && 0 <= m < |chains[j]| && (j > i || (j == i && m >= k))
      ==> chains[j][m].hhNext == At(chains[j], m + 1)
  }

  /** The prefixes moved so far, when the first k elements of chain i are next to be completed. */
  ghost function Done(chains: seq<seq<Handle>>, i: nat, k: nat): (r: seq<seq<Handle>>)
    requires i < |chains| ==> k <= |chains[i]|
    ensures |r| == |chains|
  {
    seq(|chains|, m requires 0 <= m < |chains| => if m < i then chains[m] else if m == i then chains[m][..k] else [])
  }

  /** One move changes one new chain: the element's bucket. */
  lemma MoveOne(cfg: Config, chains: seq<seq<Handle>>, i: nat, k: nat)
    requires i < |chains| && k < |chains[i]| && BucketOf(cfg, chains[i][k], |chains|) == i
    ensures var h, nb := chains[i][k], 2 * |chains|;
      var r, j := Redistribute(cfg, Done(chains, i, k)), BucketOf(cfg, h, nb);
      Redistribute(cfg, Done(chains, i, k + 1)) == r[j := [h] + r[j]]
  {
    var h, b := chains[i][k], |chains|;
    var j := BucketOf(cfg, h, 2 * b);
    var d, d' := Done(chains, i, k), Done(chains, i, k + 1);
    var r, r' := Redistribute(cfg, d), Redistribute(cfg, d');
    TableLaws.DoubledBucket(cfg.hash(h.key), b);
    forall m | 0 <= m < 2 * b
      ensures r'[m] == if m == j then [h] + r[m] else r[m]
    {
      if m % b == i {
        assert d'[i][..k] == d[i] && d'[i][k] == h;
      }
    }
    assert r' == r[j := [h] + r[j]];
  }

  /** Every chain holds elements of its own bucket only, each once. */
  ghost predicate Bucketed(cfg: Config, chains: seq<seq<Handle>>) {
    forall j :: 0 <= j < |chains| ==> BucketChain(cfg, chains, j)
  }

  ghost predicate BucketChain(cfg: Config, chains: seq<seq<Handle>>, j: nat)
    requires j < |chains|
  {
    Distinct(chains[j]) && forall h | h in chains[j] :: BucketOf(cfg, h, |chains|) == j
  }

  lemma BucketedApart(cfg: Config, chains: seq<seq<Handle>>)
    requires Bucketed(cfg, chains)
    ensures ChainsApart(chains)
  {
    forall i, j | 0 <= i < |chains| && 0 <= j < |chains| && i != j
      ensures Apart(chains[i], chains[j])
    {
      assert BucketChain(cfg, chains, i) && BucketChain(cfg, chains, j);
      forall x, y | 0 <= x < |chains[i]| && 0 <= y < |chains[j]|
        ensures chains[i][x] != chains[j][y]
      {
        assert chains[i][x] in chains[i] && chains[j][y] in chains[j];
      }
    }
  }

  lemma RedistributedApart(cfg: Config, done: seq<seq<Handle>>)
    requires |done| > 0
    ensures ChainsApart(Redistribute(cfg, done))
  {
    var r := Redistribute(cfg, done);
    forall i, j, x, y | 0 <= i < |r| && 0 <= j < |r| && i != j && 0 <= x < |r[i]| && 0 <= y < |r[j]|
      ensures r[i][x] != r[j][y]
    {
      TableLaws.MovedIn(cfg, done[i % |done|], |r|, i, r[i][x]);
      TableLaws.MovedIn(cfg, done[j % |done|], |r|, j, r[j][y]);
    }
  }

  /** The element to be moved is in no new chain yet. */
  lemma NotYetMoved(cfg: Config, chains: seq<seq<Handle>>, i: nat, k: nat)
    requires i < |chains| && k < |chains[i]| && Bucketed(cfg, chains)
    ensures InNone(chains[i][k], Redistribute(cfg, Done(chains, i, k)))
  {
    var h, d := chains[i][k], Done(chains, i, k);
    var r := Redistribute(cfg, d);
    assert BucketChain(cfg, chains, i);
    forall j | 0 <= j < |r|
      ensures h !in r[j]
    {
      var m := j % |chains|;
      assert BucketChain(cfg, chains, m);
      TableLaws.MovedIn(cfg, d[m], |r|, j, h);
    }
  }

  /** Counting one more element against the ideal length. */
  lemma CountOne(r: seq<seq<Handle>>, j: nat, h: Handle, ideal: nat)
    requires j < |r| && ideal > 0
    ensures Sum(Excesses(Lens(r[j := [h] + r[j]]), ideal)) ==
            Sum(Excesses(Lens(r), ideal)) + if |r[j]| + 1 > ideal then 1 else 0
  {
    var e := Excesses(Lens(r), ideal);
    var v := Excess(|r[j]| + 1, ideal);
    assert Excesses(Lens(r[j := [h] + r[j]]), ideal) == e[j := v];
    SumUpdate(e, j, v);
  }

  /** Count one more element in bucket bkt (uthash.h:727-731). */
  method Tally(nb: array<Bucket>, bkt: nat, h: Handle, ideal: nat, nonideal0: nat, ghost r: seq<seq<Handle>>)
    returns (nonideal: nat)
    requires ideal > 0 && bkt < |r| && Tallied(nb, r, ideal, nonideal0)
    modifies nb
    ensures Tallied(nb, r[bkt := [h] + r[bkt]], ideal, nonideal)
    ensures forall j :: 0 <= j < nb.Length ==> nb[j].hhHead == old(nb[j].hhHead)
  {
    CountOne(r, bkt, h, ideal);
    nonideal := nonideal0;
    nb[bkt] := nb[bkt].(count := nb[bkt].count + 1);
    if nb[bkt].count > ideal {
      nonideal := nonideal + 1;
      nb[bkt] := nb[bkt].(expandMult := nb[bkt].count / ideal);
    }
  }

  /** Count h in its bucket and link it there (uthash.h:726-736). */
  method MoveTo(nb: array<Bucket>, bkt: nat, h: Handle, ideal: nat, nonideal0: nat,
                ghost r: seq<seq<Handle>>, ghost all: set<Handle>)
    returns (nonideal: nat)
    requires ideal > 0 && bkt < |r| && h in all
    requires Links(nb, r, all) && Tallied(nb, r, ideal, nonideal0) && ChainsApart(r) && InNone(h, r)
    modifies nb, all`hhPrev, all`hhNext
    ensures var r' := r[bkt := [h] + r[bkt]];
      Links(nb, r', all) && Tallied(nb, r', ideal, nonideal)
    ensures forall x :: x in all && x != h ==> x.hhNext == old(x.hhNext)
  {
    nonideal := Tally(nb, bkt, h, ideal, nonideal0, r);
    forall j | 0 <= j < |r|
      ensures Headed(nb[j], r[j], all)
    {
      assert old(Headed(nb[j], r[j], all));
    }
    LinkFront(nb, bkt, h, r, all);
  }

  /** Move one element (uthash.h:725-736). */
  method MoveStep(cfg: Config, nb: array<Bucket>, h: Handle, ideal: nat, nonideal0: nat,
                  ghost chains: seq<seq<Handle>>, ghost i: nat, ghost k: nat, ghost all: set<Handle>, ghost log2: nat)
    returns (nonideal: nat)
    requires i < |chains| && k < |chains[i]| && h == chains[i][k] && h in all && Bucketed(cfg, chains)
    requires |chains| == Pow2(log2)
    requires ideal > 0 && h.hashv == cfg.hash(h.key)
    requires Moving(cfg, nb, Done(chains, i, k), ideal, nonideal0, all)
    modifies nb, all`hhPrev, all`hhNext
    ensures Moving(cfg, nb, Done(chains, i, k + 1), ideal, nonideal, all)
    ensures forall x :: x in all && x != h ==> x.hhNext == old(x.hhNext)
  {
    ghost var r := Redistribute(cfg, Done(chains, i, k));
    TableLaws.MaskedBucket(cfg, h, nb.Length, log2 + 1);
    var bkt := BitAnd(h.hashv, nb.Length - 1);
    MovePlan(cfg, chains, i, k, bkt);
    nonideal := MoveTo(nb, bkt, h, ideal, nonideal0, r, all);
  }

  /** What moving chains[i][k] to its bucket needs and gives. */
  lemma MovePlan(cfg: Config, chains: seq<seq<Handle>>, i: nat, k: nat, j: nat)
    requires i < |chains| && k < |chains[i]| && Bucketed(cfg, chains)
    requires j == BucketOf(cfg, chains[i][k], 2 * |chains|)
    ensures var r, h := Redistribute(cfg, Done(chains, i, k)), chains[i][k];
      InNone(h, r) && ChainsApart(r) && Redistribute(cfg, Done(chains, i, k + 1)) == r[j := [h] + r[j]]
  {
    assert BucketChain(cfg, chains, i);
    MoveOne(cfg, chains, i, k);
    NotYetMoved(cfg, chains, i, k);
    RedistributedApart(cfg, Done(chains, i, k));
  }

  /** Other elements of the old chains are different objects. */
  lemma RestIsDistinct(cfg: Config, chains: seq<seq<Handle>>, i: nat, k: nat)
    requires i < |chains| && k < |chains[i]| && Bucketed(cfg, chains)
    ensures forall j, m | 0 <= j < |chains| && 0 <= m < |chains[j]| && (j > i || (j == i && m > k)) ::
      chains[j][m] != chains[i][k]
  {
    assert BucketChain(cfg, chains, i);
    forall j, m | 0 <= j < |chains| && 0 <= m < |chains[j]| && (j > i || (j == i && m > k))
      ensures chains[j][m] != chains[i][k]
    {
      assert BucketChain(cfg, chains, j);
      assert chains[j][m] in chains[j] && chains[i][k] in chains[i];
    }
  }

  /** The state of the inner loop: what is moved, what is not, and the next element. */
  ghost predicate InChain(cfg: Config, nb: array<Bucket>, thh: Handle?, ideal: nat, nonideal: nat,
                          chains: seq<seq<Handle>>, i: nat, k: nat, all: set<Handle>)
    requires i < |chains| && k <= |chains[i]| && ideal > 0
    reads nb, all`hhPrev, all`hhNext
  {
    && thh == At(chains[i], k) && Unmoved(chains, i, k, all)
    && Moving(cfg, nb, Done(chains, i, k), ideal, nonideal, all)
  }

  /** One turn of the inner loop (uthash.h:724-737). */
  method MoveNext(cfg: Config, nb: array<Bucket>, thh0: Handle, ideal: nat, nonideal0: nat,
                  ghost chains: seq<seq<Handle>>, ghost i: nat, ghost k: nat, ghost all: set<Handle>, ghost log2: nat)
    returns (thh: Handle?, nonideal: nat)
    requires i < |chains| && k < |chains[i]| && Bucketed(cfg, chains) && |chains| == Pow2(log2)
    requires ideal > 0 && forall h :: h in all ==> h.hashv == cfg.hash(h.key)
    requires InChain(cfg, nb, thh0, ideal, nonideal0, chains, i, k, all)
    modifies nb, all`hhPrev, all`hhNext
    ensures InChain(cfg, nb, thh, ideal, nonideal, chains, i, k + 1, all)
  {
    assert thh0 == chains[i][k] && thh0 in all;
    thh := thh0.hhNext;
    nonideal := MoveStep(cfg, nb, thh0, ideal, nonideal0, chains, i, k, all, log2);
    RestIsDistinct(cfg, chains, i, k);
  }

  lemma ChainDone(chains: seq<seq<Handle>>, i: nat)
    requires i < |chains|
    ensures Done(chains, i, |chains[i]|) == Done(chains, i + 1, 0)
  {
    assert chains[i][..|chains[i]|] == chains[i];
  }

  /** Move one old chain (uthash.h:722-738). */
  method MoveChain(cfg: Config, nb: array<Bucket>, first: Handle?, ideal: nat, nonideal0: nat,
                   ghost chains: seq<seq<Handle>>, ghost i: nat, ghost all: set<Handle>, ghost log2: nat)
    returns (nonideal: nat)
    requires i < |chains| && Bucketed(cfg, chains) && |chains| == Pow2(log2)
    requires ideal > 0 && forall h :: h in all ==> h.hashv == cfg.hash(h.key)
    requires InChain(cfg, nb, first, ideal, nonideal0, chains, i, 0, all)
    modifies nb, all`hhPrev, all`hhNext
    ensures Unmoved(chains, i + 1, 0, all) && Moving(cfg, nb, Done(chains, i + 1, 0), ideal, nonideal, all)
  {
    var thh := first;
    nonideal := nonideal0;
    ghost var k := 0;
    while thh != null
      invariant k <= |chains[i]|
      invariant InChain(cfg, nb, thh, ideal, nonideal, chains, i, k, all)
      decreases |chains[i]| - k
    {
      thh, nonideal := MoveNext(cfg, nb, thh, ideal, nonideal, chains, i, k, all, log2);
      k := k + 1;
    }
    ChainDone(chains, i);
  }

  /** The loops of HASH_EXPAND_BUCKETS (uthash.h:719-739). */
  method MoveAll(cfg: Config, a: array<Bucket>, nb: array<Bucket>, ideal: nat,
                 ghost chains: seq<seq<Handle>>, ghost all: set<Handle>, ghost log2: nat)
    returns (nonideal: nat)
    requires a != nb && a.Length > 0 && nb.Length == 2 * a.Length
    requires forall j :: 0 <= j < nb.Length ==> nb[j] == EMPTY_BUCKET
    requires Links(a, chains, all) && Bucketed(cfg, chains) && |chains| == Pow2(log2)
    requires ideal > 0 && forall h :: h in all ==> h.hashv == cfg.hash(h.key)
    modifies nb, all`hhPrev, all`hhNext
    ensures Moving(cfg, nb, chains, ideal, nonideal, all)
  {
    nonideal := 0;
    NothingMoved(cfg, a, nb, ideal, chains, all);
    ghost var heads := a[..];
    for i := 0 to a.Length
      invariant a[..] == heads
      invariant forall j :: 0 <= j < |chains| ==> heads[j].hhHead == At(chains[j], 0)
      invariant Unmoved(chains, i, 0, all) && Moving(cfg, nb, Done(chains, i, 0), ideal, nonideal, all)
    {
      nonideal := MoveChain(cfg, nb, a[i].hhHead, ideal, nonideal, chains, i, all, log2);
    }
    assert Done(chains, a.Length, 0) == chains;
  }

  /** Before the first move the new buckets are empty and every old chain is whole. */
  lemma NothingMoved(cfg: Config, a: array<Bucket>, nb: array<Bucket>, ideal: nat, chains: seq<seq<Handle>>,
                     all: set<Handle>)
    requires a.Length > 0 && nb.Length == 2 * a.Length && forall j :: 0 <= j < nb.Length ==> nb[j] == EMPTY_BUCKET
    requires Links(a, chains, all) && ideal > 0
    ensures Unmoved(chains, 0, 0, all) && Moving(cfg, nb, Done(chains, 0, 0), ideal, 0, all)
    ensures forall j :: 0 <= j < |chains| ==> a[j].hhHead == At(chains[j], 0)
  {
    forall j | 0 <= j < |chains|
      ensures Over(chains[j], all) && ChainLinked(chains[j]) && a[j].hhHead == At(chains[j], 0)
    {
      assert Headed(a[j], chains[j], all);
    }
    var r := Redistribute(cfg, Done(chains, 0, 0));
    forall j | 0 <= j < |r|
      ensures r[j] == []
    {
    }
    SumZero(Excesses(Lens(r), ideal));
  }
}
