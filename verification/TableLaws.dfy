/** Every operation keeps the table invariant: the chains partition the elements, the load stays
    bounded while expansion is allowed, the counters mean what they say, and the filter knows every
    element. */
module TableLaws {
  import opened Bits
  import opened Common
  import opened Seqs
  import opened Handles
  import opened TableSpec
  import MergeSpec

  // ----- Moving elements between chains

  /** A moved chain is the old chain, reversed, restricted to the elements of that bucket. */
  lemma {:induction false} MovedIsReversedShare(cfg: Config, c: seq<Handle>, nb: nat, j: nat)
    requires nb > 0
    ensures Moved(cfg, c, nb, j) == Reverse(Filter((h: Handle) => BucketOf(cfg, h, nb) == j, c))
  {
    if c != [] {
      var p := (h: Handle) => BucketOf(cfg, h, nb) == j;
      var init, last := c[..|c| - 1], c[|c| - 1];
      MovedIsReversedShare(cfg, init, nb, j);
      assert c == init + [last];
      FilterAppend(p, init, [last]);
      assert Filter(p, [last]) == if p(last) then [last] else [];
      if p(last) {
        ReverseSnoc(Filter(p, init), last);
      } else {
        assert Filter(p, init) + [] == Filter(p, init);
      }
    }
  }

  lemma {:induction false} ReverseSnoc<T>(s: seq<T>, x: T)
    ensures Reverse(s + [x]) == [x] + Reverse(s)
  {
    if s == [] {
      assert [] + [x] == [x];
    } else {
      ReverseSnoc(s[1..], x);
      assert (s + [x])[1..] == s[1..] + [x];
    }
  }

  lemma {:induction false} MovedIn(cfg: Config, c: seq<Handle>, nb: nat, j: nat, h: Handle)
    requires nb > 0
    ensures h in Moved(cfg, c, nb, j) <==> h in c && BucketOf(cfg, h, nb) == j
  {
    if c != [] {
      MovedIn(cfg, c[..|c| - 1], nb, j, h);
      assert c == c[..|c| - 1] + [c[|c| - 1]];
    }
  }

  lemma {:induction false} MovedDistinct(cfg: Config, c: seq<Handle>, nb: nat, j: nat)
    requires nb > 0 && Distinct(c)
    ensures Distinct(Moved(cfg, c, nb, j))
  {
    if c != [] {
      MovedDistinct(cfg, c[..|c| - 1], nb, j);
      MovedIn(cfg, c[..|c| - 1], nb, j, c[|c| - 1]);
    }
  }

  /** x mod 2b is x mod b or b more. */
  lemma DoubledBucket(x: nat, b: nat)
    requires b > 0
    ensures x % (2 * b) == x % b || x % (2 * b) == x % b + b
    ensures (x % (2 * b)) % b == x % b
  {
    var m: nat, r: nat := x / b, x % b;
    assert x == m * b + r;
    var q := m / 2;
    Doubling(q, b);
    if m % 2 == 0 {
      DivModUnique(x, 2 * b, q, r);
      DivModUnique(r, b, 0, r);
    } else {
      DivModUnique(x, 2 * b, q, r + b);
      DivModUnique(r + b, b, 1, r);
    }
  }

  lemma Doubling(q: nat, b: nat)
    ensures (2 * q) * b == q * (2 * b) && (2 * q + 1) * b == q * (2 * b) + b
  {
  }

  /** The masked hash value is the bucket number. */
  lemma MaskedBucket(cfg: Config, h: Handle, nb: nat, log2: nat)
    requires nb == Pow2(log2)
    ensures BitAnd(cfg.hash(h.key), nb - 1) == BucketOf(cfg, h, nb)
  {
    MaskIsMod(cfg.hash(h.key), log2);
  }

  lemma {:induction false} Pow2Sum(a: nat, b: nat)
    ensures Pow2(a + b) == Pow2(a) * Pow2(b)
  {
    if a > 0 {
      Pow2Sum(a - 1, b);
      Regroup2(Pow2(a - 1), Pow2(b));
    }
  }

  lemma Regroup2(x: nat, y: nat)
    ensures 2 * (x * y) == 2 * x * y
  {
  }

  lemma Pow2Of32()
    ensures Pow2(32) == 0x1_0000_0000
  {
    assert Pow2(1) == 2 && Pow2(2) == 4 && Pow2(3) == 8 && Pow2(4) == 16;
    Pow2Sum(4, 4);
    Pow2Sum(8, 8);
    Pow2Sum(16, 16);
  }

  /** The filter index is the low bits of the hash value, at most 32 of them. */
  lemma FilterIndexIsMod(nbits: nat, hashv: nat)
    ensures FilterIndex(nbits, hashv) == hashv % Pow2(Min(nbits, 32))
  {
    hide Pow2, BitAnd;
    var m: nat := 0x1_0000_0000;
    Pow2Of32();
    if nbits <= 32 {
      Pow2Sum(nbits, 32 - nbits);
      MulMono(1, Pow2(32 - nbits), Pow2(nbits));
      DivModUnique(Pow2(nbits) - 1, m, 0, Pow2(nbits) - 1);
      MaskIsMod(hashv, nbits);
    } else {
      Pow2Sum(nbits - 32, 32);
      DivModUnique(Pow2(nbits) - 1, m, Pow2(nbits - 32) - 1, m - 1);
      MaskIsMod(hashv, 32);
    }
  }

  /** Doubling splits a chain in two without loss. */
  lemma {:induction false} SplitKeepsAll(cfg: Config, c: seq<Handle>, b: nat, j: nat)
    requires b > 0 && j < b
    requires forall h | h in c :: BucketOf(cfg, h, b) == j
    ensures |Moved(cfg, c, 2 * b, j)| + |Moved(cfg, c, 2 * b, j + b)| == |c|
  {
    if c != [] {
      assert c[|c| - 1] in c;
      SplitKeepsAll(cfg, c[..|c| - 1], b, j);
      DoubledBucket(cfg.hash(c[|c| - 1].key), b);
    }
  }

  lemma HalvesAddUp(cfg: Config, chains: seq<seq<Handle>>, j: nat)
    requires j < |chains|
    requires forall h | h in chains[j] :: BucketOf(cfg, h, |chains|) == j
    ensures var b, lens := |chains|, Lens(Redistribute(cfg, chains));
      lens[j] + lens[j + b] == |chains[j]|
  {
    DivModUnique(j, |chains|, 0, j);
    DivModUnique(j + |chains|, |chains|, 1, j);
    SplitKeepsAll(cfg, chains[j], |chains|, j);
  }

  lemma SumHalves(lens: seq<nat>, lens': seq<nat>)
    requires |lens'| == 2 * |lens|
    requires forall j :: 0 <= j < |lens| ==> lens'[j] + lens'[j + |lens|] == lens[j]
    ensures Sum(lens') == Sum(lens)
  {
    var lo, hi := lens'[..|lens|], lens'[|lens|..];
    SumPointwise(lo, hi, lens);
    SumAppend(lo, hi);
    assert lens' == lo + hi;
  }

  lemma RedistributeKeepsAll(cfg: Config, chains: seq<seq<Handle>>)
    requires |chains| > 0
    requires forall j, h | 0 <= j < |chains| && h in chains[j] :: BucketOf(cfg, h, |chains|) == j
    ensures Sum(Lens(Redistribute(cfg, chains))) == Sum(Lens(chains))
  {
    var lens, lens' := Lens(chains), Lens(Redistribute(cfg, chains));
    forall j | 0 <= j < |lens|
      ensures lens'[j] + lens'[j + |lens|] == lens[j]
    {
      HalvesAddUp(cfg, chains, j);
    }
    SumHalves(lens, lens');
  }

  // ----- The partition

  lemma LensUpdate(chains: seq<seq<Handle>>, j: nat, c: seq<Handle>)
    requires j < |chains|
    ensures Sum(Lens(chains[j := c])) == Sum(Lens(chains)) - |chains[j]| + |c|
  {
    assert Lens(chains[j := c]) == Lens(chains)[j := |c|];
    SumUpdate(Lens(chains), j, |c|);
  }

  lemma PushPlaced(cfg: Config, t: Table, h: Handle)
    requires t.Table? && Shape(t) && Placed(cfg, t) && h !in t.order
    ensures Placed(cfg, Push(cfg, t, h))
  {
    var r := Push(cfg, t, h);
    var j := BucketOf(cfg, h, |t.chains|);
    LensUpdate(t.chains, j, [h] + t.chains[j]);
    forall k | 0 <= k < |r.chains|
      ensures ChainPlaced(cfg, r, k)
    {
      assert ChainPlaced(cfg, t, k);
    }
    forall x | x in r.order
      ensures x in r.chains[BucketOf(cfg, x, |r.chains|)]
    {
      if x != h {
        assert x in t.order;
      }
    }
  }

  lemma ExpandPlaced(cfg: Config, t: Table)
    requires t.Table? && Shape(t) && Placed(cfg, t) && t.order != []
    ensures Placed(cfg, Expand(cfg, t))
  {
    var r := Expand(cfg, t);
    var b := |t.chains|;
    forall j, h | 0 <= j < b && h in t.chains[j]
      ensures BucketOf(cfg, h, b) == j
    {
      assert ChainPlaced(cfg, t, j);
    }
    RedistributeKeepsAll(cfg, t.chains);
    forall j | 0 <= j < 2 * b
      ensures ChainPlaced(cfg, r, j)
    {
      ExpandChainPlaced(cfg, t, j);
    }
    forall h | h in r.order
      ensures h in r.chains[BucketOf(cfg, h, 2 * b)]
    {
      var j := BucketOf(cfg, h, 2 * b);
      DoubledBucket(cfg.hash(h.key), b);
      assert h in t.chains[j % b];
      MovedIn(cfg, t.chains[j % b], 2 * b, j, h);
    }
  }

  lemma ExpandChainPlaced(cfg: Config, t: Table, j: nat)
    requires t.Table? && Shape(t) && Placed(cfg, t) && t.order != [] && j < 2 * |t.chains|
    ensures ChainPlaced(cfg, Expand(cfg, t), j)
  {
    var b := |t.chains|;
    var c, c' := t.chains[j % b], Moved(cfg, t.chains[j % b], 2 * b, j);
    assert ChainPlaced(cfg, t, j % b);
    MovedDistinct(cfg, c, 2 * b, j);
    forall h | h in c'
      ensures h in t.order && BucketOf(cfg, h, 2 * b) == j
    {
      MovedIn(cfg, c, 2 * b, j, h);
    }
  }

  lemma DeletePlaced(cfg: Config, t: Table, h: Handle)
    requires t.Table? && Shape(t) && Placed(cfg, t) && h in t.order && |t.order| > 1
    ensures Placed(cfg, Delete(cfg, t, h))
    ensures Delete(cfg, t, h).order != []
  {
    var r := Delete(cfg, t, h);
    var j := BucketOf(cfg, h, |t.chains|);
    var k :| 0 <= k < |t.order| && t.order[k] == h;
    assert ChainPlaced(cfg, t, j);
    assert h in t.chains[j];
    var m :| 0 <= m < |t.chains[j]| && t.chains[j][m] == h;
    WithoutAt(t.order, k);
    WithoutAt(t.chains[j], m);
    LensUpdate(t.chains, j, Without(t.chains[j], h));
    WithoutDistinct(t.order, h);
    WithoutDistinct(t.chains[j], h);
    forall i | 0 <= i < |r.chains|
      ensures ChainPlaced(cfg, r, i)
    {
      assert ChainPlaced(cfg, t, i);
      forall x | x in r.chains[i]
        ensures x in r.order && BucketOf(cfg, x, |r.chains|) == i
      {
        WithoutIn(t.chains[j], h, x);
        WithoutIn(t.order, h, x);
      }
    }
    forall x | x in r.order
      ensures x in r.chains[BucketOf(cfg, x, |r.chains|)]
    {
      WithoutIn(t.order, h, x);
      WithoutIn(t.chains[j], h, x);
    }
  }

  lemma ResortPlaced(cfg: Config, t: Table, cmp: (Handle, Handle) -> int)
    requires t.Table? && Shape(t) && Placed(cfg, t)
    ensures Placed(cfg, Resort(t, cmp))
  {
    var r := Resort(t, cmp);
    MergeSpec.SortFromPermutes(cmp, 1, t.order);
    PermutedDistinct(t.order, r.order);
    forall j | 0 <= j < |r.chains|
      ensures ChainPlaced(cfg, r, j)
    {
      assert ChainPlaced(cfg, t, j);
      forall h | h in r.chains[j]
        ensures h in r.order
      {
        assert h in t.order;
        assert h in multiset(t.order);
      }
    }
    forall h | h in r.order
      ensures h in r.chains[BucketOf(cfg, h, |r.chains|)]
    {
      assert h in multiset(r.order);
      assert h in t.order;
    }
  }

  lemma PermutedDistinct<T>(s: seq<T>, t: seq<T>)
    requires multiset(s) == multiset(t) && Distinct(s)
    ensures Distinct(t)
  {
    forall x | x in multiset(s)
      ensures multiset(s)[x] <= 1
    {
      DistinctCount(s, x);
    }
    forall i, j | 0 <= i < j < |t|
      ensures t[i] != t[j]
    {
      assert t == t[..i] + [t[i]] + t[i + 1..j] + [t[j]] + t[j + 1..];
      assert t[i] in multiset(t);
    }
  }

  lemma {:induction false} DistinctCount<T>(s: seq<T>, x: T)
    requires Distinct(s)
    ensures multiset(s)[x] <= 1
  {
    if s != [] {
      DistinctCount(s[1..], x);
      assert s == [s[0]] + s[1..];
      if s[0] == x {
        assert x !in s[1..];
        assert multiset(s[1..])[x] == 0;
      }
    }
  }

  /** A crowded bucket holds at least ten elements. */
  lemma CrowdedHasItems(cfg: Config, t: Table, j: nat)
    requires t.Table? && Shape(t) && Placed(cfg, t) && j < |t.chains| && Crowded(t, j)
    ensures |t.order| >= CAPACITY_THRESH
  {
    SumAtLeast(Lens(t.chains), j);
    MulMono(1, t.mult[j] + 1, CAPACITY_THRESH);
  }

  // ----- The load

  /** While the weights hold, the table has at most 19 elements a bucket. */
  lemma WeightedLoad(t: Table, w: seq<nat>)
    requires t.Table? && Shape(t) && WeightedBy(t, w) && Sum(Lens(t.chains)) == |t.order|
    ensures |t.order| <= 19 * |t.chains|
  {
    SumLinear(Lens(t.chains), w, CAPACITY_THRESH, 9);
  }

  lemma MakeTableFits(cfg: Config)
    ensures var t := MakeTable();
      Placed(cfg, t) && Filtered(cfg, t) && Balanced(t) && Counted(t)
  {
    EmptyIsPlaced(cfg);
    EmptyIsBalanced();
  }

  lemma EmptyIsPlaced(cfg: Config)
    ensures Placed(cfg, MakeTable())
  {
    SumZero(Lens(MakeTable().chains));
  }

  lemma EmptyIsBalanced()
    ensures Balanced(MakeTable())
  {
    var t := MakeTable();
    var w := seq(|t.chains|, _ => 0);
    SumZero(w);
    assert WeightedBy(t, w);
  }

  /** An add that does not trigger the test leaves the chain within its allowance. */
  lemma PushBalanced(cfg: Config, t: Table, h: Handle)
    requires t.Table? && Shape(t) && Balanced(t) && !t.noexpand
    requires !Crowded(Push(cfg, t, h), BucketOf(cfg, h, |t.chains|))
    ensures Balanced(Push(cfg, t, h))
  {
    var w: seq<nat> :| WeightedBy(t, w);
    var r := Push(cfg, t, h);
    var j := BucketOf(cfg, h, |t.chains|);
    assert |r.chains[j]| < CAPACITY_THRESH * (t.mult[j] + 1);
    assert t.mult[j] <= w[j];
    assert WeightedBy(r, w);
  }

  /** The quotients by the ideal length, without the code's `>` test, are admissible weights. */
  function Quotients(lens: seq<nat>, ideal: nat): (w: seq<nat>)
    requires ideal > 0
    ensures |w| == |lens| && forall j :: 0 <= j < |w| ==> w[j] == lens[j] / ideal
  {
    seq(|lens|, j requires 0 <= j < |lens| => lens[j] / ideal)
  }

  lemma QuotientBounds(count: nat, ideal: nat)
    requires 1 <= ideal <= CAPACITY_THRESH
    ensures ideal * (count / ideal) <= count
    ensures MultOf(count, ideal) <= count / ideal
    ensures count <= CAPACITY_THRESH * (count / ideal) + 9
    ensures count <= CAPACITY_THRESH * (MultOf(count, ideal) + 1)
  {
    var q: nat, r: nat := count / ideal, count % ideal;
    assert count == q * ideal + r;
    MulMono(ideal, CAPACITY_THRESH, q);
  }

  /** Right after an expansion every chain is below its threshold, except when a chain of exactly the
      ideal length 10 meets it. */
  lemma ThresholdMetExactly(count: nat, ideal: nat)
    requires 1 <= ideal <= CAPACITY_THRESH
    ensures count < CAPACITY_THRESH * (MultOf(count, ideal) + 1) <==> !(count == ideal == CAPACITY_THRESH)
  {
    var q: nat, r: nat := count / ideal, count % ideal;
    assert count == q * ideal + r;
    MulMono(ideal, CAPACITY_THRESH, q);
  }

  lemma WeightsFit(lens: seq<nat>, w: seq<nat>, ideal: nat, nb: nat)
    requires ideal > 0 && |lens| == |w| && Sum(lens) <= ideal * nb
    requires forall j :: 0 <= j < |w| ==> ideal * w[j] <= lens[j]
    ensures Sum(w) <= nb
  {
    SumScaled(lens, w, ideal);
    MulCancel(Sum(w), nb, ideal);
  }

  /** One element more than the bound, and the doubled table is balanced again. */
  lemma ExpandBalances(cfg: Config, t: Table)
    requires t.Table? && Shape(t) && Placed(cfg, t) && t.order != []
    requires |t.order| <= 19 * |t.chains| + 1
    ensures var r := Expand(cfg, t);
      1 <= r.ideal <= CAPACITY_THRESH && Balanced(r)
  {
    var r := Expand(cfg, t);
    var lens, w := Lens(r.chains), Quotients(Lens(r.chains), r.ideal);
    ExpandPlaced(cfg, t);
    CeilDivLeast(|t.order|, |r.chains|, CAPACITY_THRESH);
    assert r.ideal == CeilDiv(|t.order|, |r.chains|);
    assert r.ideal <= CAPACITY_THRESH;
    forall j | 0 <= j < |w|
      ensures r.mult[j] <= w[j] && lens[j] <= CAPACITY_THRESH * w[j] + 9 && lens[j] <= CAPACITY_THRESH * (r.mult[j] + 1)
      ensures r.ideal * w[j] <= lens[j]
    {
      QuotientBounds(lens[j], r.ideal);
    }
    WeightsFit(lens, w, r.ideal, |r.chains|);
    assert WeightedBy(r, w);
  }

  /** After an expansion every chain is strictly below its threshold, unless there are more than 18
      elements to an old bucket and a new bucket gets exactly 10. */
  lemma ExpandStrictlyBelow(cfg: Config, t: Table)
    requires t.Table? && Shape(t) && Placed(cfg, t) && t.order != []
    requires |t.order| <= 19 * |t.chains| + 1
    ensures var r, b := Expand(cfg, t), |t.chains|;
      (forall j :: 0 <= j < 2 * b ==> |r.chains[j]| < CAPACITY_THRESH * (r.mult[j] + 1)) <==>
      (|t.order| <= 18 * b
       || forall j :: 0 <= j < 2 * b ==>
         |Filter((h: Handle) => BucketOf(cfg, h, 2 * b) == j, t.chains[j % b])| != CAPACITY_THRESH)
  {
    var r, b := Expand(cfg, t), |t.chains|;
    ExpandBalances(cfg, t);
    CeilDivLeast(|t.order|, 2 * b, 9);
    if r.ideal <= 9 {
      MulMono(r.ideal, 9, 2 * b);
    }
    assert r.ideal == CAPACITY_THRESH <==> |t.order| > 18 * b;
    forall j | 0 <= j < 2 * b
      ensures |r.chains[j]| == |Filter((h: Handle) => BucketOf(cfg, h, 2 * b) == j, t.chains[j % b])|
      ensures |r.chains[j]| < CAPACITY_THRESH * (r.mult[j] + 1) <==> !(|r.chains[j]| == r.ideal == CAPACITY_THRESH)
    {
      MovedIsReversedShare(cfg, t.chains[j % b], 2 * b, j);
      ThresholdMetExactly(|r.chains[j]|, r.ideal);
    }
  }

  lemma DeleteBalanced(cfg: Config, t: Table, h: Handle)
    requires t.Table? && Shape(t) && Balanced(t) && |t.order| > 1
    ensures Balanced(Delete(cfg, t, h))
  {
    var w: seq<nat> :| WeightedBy(t, w);
    assert WeightedBy(Delete(cfg, t, h), w);
  }

  // ----- The counters

  lemma ExpandCounted(cfg: Config, t: Table)
    requires t.Table? && Shape(t) && t.order != [] && Counted(t) && !t.noexpand
    requires 1 <= Expand(cfg, t).ideal <= CAPACITY_THRESH
    ensures Counted(Expand(cfg, t))
  {
    var r := Expand(cfg, t);
    assert r.history[..|r.history| - 1] == t.history;
  }

  // ----- The operations

  /** Everything but the filter, for an add to an existing or a new table. */
  lemma InsertKeeps(cfg: Config, t0: Table, h: Handle)
    requires t0.Table? && Shape(t0) && Placed(cfg, t0) && Counted(t0) && (!t0.noexpand ==> Balanced(t0))
    requires h !in t0.order
    ensures var r := Insert(cfg, t0, h);
      && r.order == t0.order + [h] && r.filter == t0.filter
      && Placed(cfg, r) && Counted(r) && (!r.noexpand ==> Balanced(r))
  {
    var t1 := Push(cfg, t0, h);
    PushPlaced(cfg, t0, h);
    if Crowded(t1, BucketOf(cfg, h, |t1.chains|)) {
      var w: seq<nat> :| WeightedBy(t0, w);
      WeightedLoad(t0, w);
      ExpandPlaced(cfg, t1);
      ExpandBalances(cfg, t1);
      ExpandCounted(cfg, t1);
    } else if !t0.noexpand {
      PushBalanced(cfg, t0, h);
    }
  }

  /** Selecting keeps the partition too, although num_items lags behind by one. */
  lemma InsertCountingPlaced(cfg: Config, t: Table, h: Handle, n: nat)
    requires t.Table? && Shape(t) && Placed(cfg, t) && h !in t.order
    ensures var r := InsertCounting(cfg, t, h, n);
      Placed(cfg, r) && r.order == t.order + [h] && r.filter == t.filter
  {
    var p := Push(cfg, t, h);
    PushPlaced(cfg, t, h);
    if Crowded(p, BucketOf(cfg, h, |p.chains|)) && n > 0 {
      ExpandPlaced(cfg, p);
      PlacedExt(cfg, Expand(cfg, p), ExpandCounting(cfg, p, n));
    }
  }

  lemma AddKeepsInv(cfg: Config, t: Table, h: Handle)
    requires Inv(cfg, t) && h !in Elements(t)
    ensures Inv(cfg, Add(cfg, t, h))
    ensures Elements(Add(cfg, t, h)) == Elements(t) + [h]
  {
    var t0 := if t.NoTable? then MakeTable() else t;
    if t.NoTable? {
      MakeTableFits(cfg);
    }
    InsertKeeps(cfg, t0, h);
    RememberKeeps(cfg, t0, Insert(cfg, t0, h), h);
  }

  /** The filter bit set last completes the invariant. */
  lemma RememberKeeps(cfg: Config, t0: Table, t: Table, h: Handle)
    requires t0.Table? && Filtered(cfg, t0)
    requires t.Table? && Shape(t) && t.order == t0.order + [h] && t.filter == t0.filter
    requires Placed(cfg, t) && Counted(t) && (!t.noexpand ==> Balanced(t))
    ensures Inv(cfg, Remember(cfg, t, h))
  {
    var r := Remember(cfg, t, h);
    PlacedExt(cfg, t, r);
    if !t.noexpand {
      var w: seq<nat> :| WeightedBy(t, w);
      assert WeightedBy(r, w);
    }
  }

  lemma PlacedExt(cfg: Config, t: Table, r: Table)
    requires t.Table? && r.Table? && t.order == r.order && t.chains == r.chains && |t.chains| > 0
    requires Placed(cfg, t)
    ensures Placed(cfg, r)
  {
    forall j | 0 <= j < |r.chains|
      ensures ChainPlaced(cfg, r, j)
    {
      assert ChainPlaced(cfg, t, j);
    }
  }

  lemma DeleteKeepsInv(cfg: Config, t: Table, h: Handle)
    requires Inv(cfg, t) && h in Elements(t)
    ensures Inv(cfg, Delete(cfg, t, h))
    ensures Elements(Delete(cfg, t, h)) == Without(Elements(t), h)
  {
    if |t.order| == 1 {
      WithoutAt(t.order, 0);
    } else {
      var r := Delete(cfg, t, h);
      DeletePlaced(cfg, t, h);
      if !t.noexpand {
        DeleteBalanced(cfg, t, h);
      }
      forall x | x in r.order
        ensures x in t.order
      {
        WithoutIn(t.order, h, x);
      }
    }
  }

  lemma ResortKeepsInv(cfg: Config, t: Table, cmp: (Handle, Handle) -> int)
    requires Inv(cfg, t)
    ensures Inv(cfg, Resort(t, cmp))
    ensures multiset(Elements(Resort(t, cmp))) == multiset(Elements(t))
  {
    if t.Table? {
      var r := Resort(t, cmp);
      ResortPlaced(cfg, t, cmp);
      MergeSpec.SortFromPermutes(cmp, 1, t.order);
      if !t.noexpand {
        var w: seq<nat> :| WeightedBy(t, w);
        assert WeightedBy(r, w);
      }
      forall h | h in r.order
        ensures h in t.order
      {
        assert h in multiset(r.order);
      }
    }
  }
}
