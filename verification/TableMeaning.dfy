/** What single calls on the table do, said of the chains and counters themselves: which add doubles the
    buckets, where elements end up in their chains, and how an expansion is judged. */
module TableMeaning {
  import opened Bits
  import opened Common
  import opened Seqs
  import opened Handles
  import opened TableSpec
  import TableLaws

  /** The elements of bucket j of nb: those whose hash value leaves j. */
  function InBucket(cfg: Config, nb: nat, j: nat): Handle -> bool
    requires nb > 0
  {
    (h: Handle) => cfg.hash(h.key) % nb == j
  }

  // ----- Expansion

  /** How many elements lie beyond the ideal length of their chain. */
  function Misplaced(chains: seq<seq<Handle>>, ideal: nat): nat {
    if chains == [] then 0
    else (if |chains[0]| > ideal then |chains[0]| - ideal else 0) + Misplaced(chains[1..], ideal)
  }

  lemma {:induction false} MisplacedIsSum(chains: seq<seq<Handle>>, ideal: nat)
    ensures Sum(Excesses(Lens(chains), ideal)) == Misplaced(chains, ideal)
  {
    if chains != [] {
      MisplacedIsSum(chains[1..], ideal);
      assert Excesses(Lens(chains), ideal)[1..] == Excesses(Lens(chains[1..]), ideal);
    }
  }

  /** More than half of n elements are misplaced. */
  predicate Ineffective(t: Table, n: nat)
    requires t.Table?
  {
    Misplaced(t.chains, t.ideal) > n / 2
  }

  /** The expansion statistics of r, which t was expanded to when num_items was n. */
  ghost predicate Judged(t: Table, r: Table, n: nat)
    requires t.Table? && r.Table? && Shape(r)
  {
    && r.ideal > 0
    && r.ideal * |r.chains| >= n > (r.ideal - 1) * |r.chains|
    && (forall j :: 0 <= j < |r.chains| ==>
      r.mult[j] == if |r.chains[j]| > r.ideal then |r.chains[j]| / r.ideal else 0)
    && r.nonideal == Misplaced(r.chains, r.ideal)
    && r.ineff == (if Misplaced(r.chains, r.ideal) > n / 2 then t.ineff + 1 else 0)
    && (r.noexpand <==> t.noexpand || r.ineff >= 2)
    && r.history == t.history + [Ineffective(r, n)]
  }

  /** An expansion keeps the elements, their order and the filter; each new chain is the old chain with
      the same low hash bits, reversed, restricted to the new bucket; the statistics describe the new
      chains, and expansion is inhibited by the second ineffective one in a row. */
  lemma ExpandMeaning(cfg: Config, t: Table, n: nat)
    requires t.Table? && Shape(t) && Placed(cfg, t) && t.order != [] && n > 0
    ensures var r, b := ExpandCounting(cfg, t, n), |t.chains|;
      && r.order == t.order && r.filter == t.filter && |r.chains| == 2 * b && Placed(cfg, r)
      && (forall j :: 0 <= j < 2 * b ==>
        r.chains[j] == Reverse(Filter(InBucket(cfg, 2 * b, j), t.chains[j % b])))
      && Judged(t, r, n)
  {
    var r, b := ExpandCounting(cfg, t, n), |t.chains|;
    TableLaws.ExpandPlaced(cfg, t);
    TableLaws.PlacedExt(cfg, Expand(cfg, t), r);
    forall j | 0 <= j < 2 * b
      ensures r.chains[j] == Reverse(Filter(InBucket(cfg, 2 * b, j), t.chains[j % b]))
    {
      TableLaws.MovedIsReversedShare(cfg, t.chains[j % b], 2 * b, j);
      FilterSame((h: Handle) => BucketOf(cfg, h, 2 * b) == j, InBucket(cfg, 2 * b, j), t.chains[j % b]);
    }
    ExpandJudged(cfg, t, n);
  }

  lemma ExpandJudged(cfg: Config, t: Table, n: nat)
    requires t.Table? && Shape(t) && n > 0
    ensures Judged(t, ExpandCounting(cfg, t, n), n)
  {
    var r := ExpandCounting(cfg, t, n);
    hide Redistribute, Sum, Misplaced;
    CeilDivLeast(n, |r.chains|, r.ideal - 1);
    MisplacedIsSum(r.chains, r.ideal);
  }

  // ----- HASH_ADD

  /** The first add makes a table of 32 buckets that may expand. */
  lemma FirstAddMeaning(cfg: Config, h: Handle)
    ensures var r, j := Add(cfg, NoTable, h), cfg.hash(h.key) % 32;
      && r.order == [h] && |r.chains| == |r.mult| == 32
      && (forall i :: 0 <= i < 32 ==> r.chains[i] == (if i == j then [h] else []) && r.mult[i] == 0)
      && r.ineff == 0 && !r.noexpand && r.history == []
      && r.filter == if cfg.bloom.None? then {} else {FilterIndex(cfg.bloom.value, cfg.hash(h.key))}
  {
    assert Pow2(1) == 2 && Pow2(2) == 4 && Pow2(3) == 8 && Pow2(4) == 16 && Pow2(5) == 32;
  }

  /** What entering h when num_items is n does to the buckets: they are doubled if and only if h's chain
      reaches ten times its multiplier plus one and expansion is allowed; otherwise h becomes the first
      of its chain, and nothing else changes. */
  ghost predicate Entered(cfg: Config, t: Table, h: Handle, r: Table, n: nat)
    requires t.Table? && Shape(t) && r.Table? && Shape(r)
  {
    var b := |t.chains|;
    var j := cfg.hash(h.key) % b;
    if |t.chains[j]| + 1 >= 10 * (t.mult[j] + 1) && !t.noexpand then
      && |r.chains| == 2 * b && Judged(t, r, n)
      && (forall i :: 0 <= i < 2 * b ==>
        r.chains[i] == Reverse(Filter(InBucket(cfg, 2 * b, i), t.chains[j := [h] + t.chains[j]][i % b])))
    else
      && r.chains == t.chains[j := [h] + t.chains[j]] && r.mult == t.mult
      && r.ideal == t.ideal && r.nonideal == t.nonideal && r.ineff == t.ineff && r.noexpand == t.noexpand
      && r.history == t.history
  }

  lemma InsertMeaning(cfg: Config, t: Table, h: Handle, n: nat)
    requires t.Table? && Shape(t) && Placed(cfg, t) && h !in t.order && n >= |t.order|
    ensures var r := InsertCounting(cfg, t, h, n);
      r.order == t.order + [h] && Entered(cfg, t, h, r, n) && r.filter == t.filter
  {
    var j := cfg.hash(h.key) % |t.chains|;
    if |t.chains[j]| + 1 >= 10 * (t.mult[j] + 1) && !t.noexpand {
      InsertDoubling(cfg, t, h, n);
    } else {
      InsertQuiet(cfg, t, h, n);
    }
  }

  lemma InsertQuiet(cfg: Config, t: Table, h: Handle, n: nat)
    requires t.Table? && Shape(t)
    requires var j := cfg.hash(h.key) % |t.chains|;
      !(|t.chains[j]| + 1 >= 10 * (t.mult[j] + 1) && !t.noexpand)
    ensures var r := InsertCounting(cfg, t, h, n);
      r.order == t.order + [h] && Entered(cfg, t, h, r, n) && r.filter == t.filter
  {
    hide ExpandCounting, Judged;
  }

  lemma InsertDoubling(cfg: Config, t: Table, h: Handle, n: nat)
    requires t.Table? && Shape(t) && Placed(cfg, t) && h !in t.order && n >= |t.order|
    requires var j := cfg.hash(h.key) % |t.chains|;
      |t.chains[j]| + 1 >= 10 * (t.mult[j] + 1) && !t.noexpand
    ensures var r := InsertCounting(cfg, t, h, n);
      r.order == t.order + [h] && Entered(cfg, t, h, r, n) && r.filter == t.filter
  {
    var p, j := Push(cfg, t, h), cfg.hash(h.key) % |t.chains|;
    hide *;
    TableLaws.PushPlaced(cfg, t, h);
    PushMeaning(cfg, t, h);
    PushCrowds(cfg, t, h);
    TableLaws.CrowdedHasItems(cfg, p, j);
    CrowdedUnfold(cfg, t, h, n);
    ExpandMeaning(cfg, p, n);
    CloseDoubling(cfg, t, h, p, ExpandCounting(cfg, p, n), n);
  }

  lemma PushMeaning(cfg: Config, t: Table, h: Handle)
    requires t.Table? && Shape(t)
    ensures var p, j := Push(cfg, t, h), cfg.hash(h.key) % |t.chains|;
      p.Table? && Shape(p) && p == t.(order := t.order + [h], chains := t.chains[j := [h] + t.chains[j]])
  {
  }

  lemma PushCrowds(cfg: Config, t: Table, h: Handle)
    requires t.Table? && Shape(t)
    requires var j := cfg.hash(h.key) % |t.chains|;
      |t.chains[j]| + 1 >= 10 * (t.mult[j] + 1) && !t.noexpand
    ensures var p, j := Push(cfg, t, h), cfg.hash(h.key) % |t.chains|;
      j < |p.chains| && Crowded(p, j) && CAPACITY_THRESH == 10
  {
  }

  lemma CrowdedUnfold(cfg: Config, t: Table, h: Handle, n: nat)
    requires t.Table? && Shape(t) && n > 0
    requires var p, j := Push(cfg, t, h), cfg.hash(h.key) % |t.chains|;
      j < |p.chains| && Crowded(p, j)
    ensures InsertCounting(cfg, t, h, n) == ExpandCounting(cfg, Push(cfg, t, h), n)
  {
    hide ExpandCounting, Crowded;
  }

  lemma CloseDoubling(cfg: Config, t: Table, h: Handle, p: Table, r: Table, n: nat)
    requires t.Table? && Shape(t) && p.Table? && r.Table? && Shape(r)
    requires var j := cfg.hash(h.key) % |t.chains|;
      && |t.chains[j]| + 1 >= 10 * (t.mult[j] + 1) && !t.noexpand
      && p == t.(order := p.order, chains := t.chains[j := [h] + t.chains[j]])
    requires |r.chains| == 2 * |p.chains| && Judged(p, r, n)
    requires forall i :: 0 <= i < |r.chains| ==>
      r.chains[i] == Reverse(Filter(InBucket(cfg, |r.chains|, i), p.chains[i % |p.chains|]))
    ensures Entered(cfg, t, h, r, n)
  {
    hide Filter, Reverse, InBucket, Misplaced;
  }

  /** What one HASH_ADD does to an existing table. */
  lemma AddMeaning(cfg: Config, t: Table, h: Handle)
    requires t.Table? && Shape(t) && Placed(cfg, t) && h !in t.order
    ensures var r := Add(cfg, t, h);
      && r.order == t.order + [h] && Entered(cfg, t, h, r, |t.order| + 1)
      && r.filter == t.filter + if cfg.bloom.None? then {} else {FilterIndex(cfg.bloom.value, cfg.hash(h.key))}
  {
    hide *;
    var n := |t.order| + 1;
    InsertMeaning(cfg, t, h, n);
    AddUnfold(cfg, t, h);
    RememberMeaning(cfg, InsertCounting(cfg, t, h, n), h);
    EnteredStays(cfg, t, h, InsertCounting(cfg, t, h, n), Add(cfg, t, h), n);
  }

  lemma AddUnfold(cfg: Config, t: Table, h: Handle)
    requires t.Table? && Shape(t)
    ensures Add(cfg, t, h) == Remember(cfg, InsertCounting(cfg, t, h, |t.order| + 1), h)
  {
  }

  lemma RememberMeaning(cfg: Config, t: Table, h: Handle)
    requires t.Table? && Shape(t)
    ensures var r := Remember(cfg, t, h);
      && r.Table? && Shape(r) && r == t.(filter := r.filter)
      && r.filter == t.filter + if cfg.bloom.None? then {} else {FilterIndex(cfg.bloom.value, cfg.hash(h.key))}
  {
    hide FilterIndex;
  }

  lemma EnteredStays(cfg: Config, t: Table, h: Handle, e: Table, r: Table, n: nat)
    requires t.Table? && Shape(t) && e.Table? && Shape(e) && r.Table? && Shape(r)
    requires Entered(cfg, t, h, e, n) && r == e.(filter := r.filter)
    ensures Entered(cfg, t, h, r, n)
  {
    hide Filter, Reverse, InBucket, Misplaced;
  }

  /** What one turn of HASH_SELECT does: the same, but expansions are judged by a count of elements that
      does not have the new one yet. */
  lemma SelectMeaning(cfg: Config, t: Table, h: Handle)
    requires t.Table? && Shape(t) && Placed(cfg, t) && h !in t.order
    ensures var r := SelectStep(cfg, t, h);
      r.order == t.order + [h] && Entered(cfg, t, h, r, |t.order|) && r.filter == t.filter
  {
    InsertMeaning(cfg, t, h, |t.order|);
  }

  lemma SelectStepPlaced(cfg: Config, t: Table, d: Handle)
    requires Shape(t) && (t.Table? ==> Placed(cfg, t) && t.filter == {}) && d !in Elements(t)
    ensures var r := SelectStep(cfg, t, d);
      r.Table? && Shape(r) && Placed(cfg, r) && r.filter == {} && r.order == Elements(r) == Elements(t) + [d]
  {
    hide Placed, Filtered, Balanced, Counted, InsertCounting;
    var t0 := if t.NoTable? then MakeTable() else t;
    TableLaws.MakeTableFits(cfg);
    TableLaws.InsertCountingPlaced(cfg, t0, d, |Elements(t)|);
  }

  lemma SelectedUnfold(cfg: Config, ds: seq<Handle>)
    ensures Shape(Selected(cfg, ds))
    ensures Selected(cfg, []) == NoTable && Elements(NoTable) == []
    ensures ds != [] ==> Selected(cfg, ds) == SelectStep(cfg, Selected(cfg, ds[..|ds| - 1]), ds[|ds| - 1])
  {
    hide SelectStep;
  }

  lemma LastApart(ds: seq<Handle>)
    requires ds != [] && Distinct(ds)
    ensures var init, d := ds[..|ds| - 1], ds[|ds| - 1];
      ds == init + [d] && Distinct(init) && d !in init
  {
  }

  /** A selection holds the selected elements in order, in their buckets. */
  lemma {:induction false} SelectedPlaced(cfg: Config, ds: seq<Handle>)
    requires Distinct(ds)
    ensures var r := Selected(cfg, ds);
      && Shape(r) && Elements(r) == ds && (r.Table? <==> ds != [])
      && (r.Table? ==> Placed(cfg, r) && r.filter == {})
  {
    hide *;
    SelectedUnfold(cfg, ds);
    if ds != [] {
      var init, d := ds[..|ds| - 1], ds[|ds| - 1];
      LastApart(ds);
      SelectedPlaced(cfg, init);
      SelectStepPlaced(cfg, Selected(cfg, init), d);
    }
  }

  /** As long as an add does not double the buckets, the newest element with a key is the one found. */
  lemma NewestIsFound(cfg: Config, t: Table, h: Handle)
    requires t.Table? && Shape(t) && Placed(cfg, t) && h !in t.order
    requires |Add(cfg, t, h).chains| == |t.chains|
    ensures Find(cfg, Add(cfg, t, h), h.key) == h
  {
    hide *;
    AddMeaning(cfg, t, h);
    QuietFind(cfg, t, h, Add(cfg, t, h));
  }

  lemma QuietFind(cfg: Config, t: Table, h: Handle, r: Table)
    requires t.Table? && Shape(t) && r.Table? && Shape(r) && |r.chains| == |t.chains|
    requires Entered(cfg, t, h, r, |t.order| + 1)
    requires r.filter == t.filter + if cfg.bloom.None? then {} else {FilterIndex(cfg.bloom.value, cfg.hash(h.key))}
    ensures Find(cfg, r, h.key) == h
  {
    hide FilterIndex;
  }

  // ----- HASH_DELETE

  /** A delete takes the element out of the order and its chain; all else stays in place. */
  lemma DeleteMeaning(cfg: Config, t: Table, h: Handle)
    requires t.Table? && Shape(t) && Placed(cfg, t) && h in t.order
    ensures var r := Delete(cfg, t, h);
      if |t.order| == 1 then r.NoTable?
      else
        && r.Table? && r == t.(order := r.order, chains := r.chains) && |r.chains| == |t.chains|
        && r.order == Without(t.order, h)
        && forall j :: 0 <= j < |t.chains| ==> r.chains[j] == Without(t.chains[j], h)
  {
    if |t.order| > 1 {
      var j := BucketOf(cfg, h, |t.chains|);
      forall i | 0 <= i < |t.chains| && i != j
        ensures Without(t.chains[i], h) == t.chains[i]
      {
        assert ChainPlaced(cfg, t, i);
        WithoutAbsent(t.chains[i], h);
      }
    }
  }

  lemma {:induction false} WithoutAbsent(s: seq<Handle>, h: Handle)
    requires h !in s
    ensures Without(s, h) == s
  {
    if s != [] {
      WithoutAbsent(s[1..], h);
    }
  }
}
