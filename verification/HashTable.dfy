/** The uthash table itself: intrusive handles, relinked in place, refining TableSpec. The user's head
    pointer and the UT_hash_table it leads to are one object; head == null means that no table exists. */
module HashTable {
  import opened Bits
  import opened Common
  import opened Seqs
  import opened Handles
  import opened MergeSpec
  import opened Buckets
  import opened TableSpec
  import Bloom
  import HashExpand
  import HashSort
  import TableLaws
  import TableRuns

  lemma PlacedBucketed(cfg: Config, t: Table)
    requires t.Table? && |t.chains| > 0 && Placed(cfg, t)
    ensures HashExpand.Bucketed(cfg, t.chains) && ChainsApart(t.chains)
    ensures forall h :: h !in t.order ==> InNone(h, t.chains)
  {
    forall j | 0 <= j < |t.chains|
      ensures HashExpand.BucketChain(cfg, t.chains, j)
    {
      assert ChainPlaced(cfg, t, j);
    }
    HashExpand.BucketedApart(cfg, t.chains);
    forall h, j | h !in t.order && 0 <= j < |t.chains|
      ensures h !in t.chains[j]
    {
      assert ChainPlaced(cfg, t, j);
    }
  }

  lemma NoElements()
    ensures MakeTable().Table? && MakeTable().order == []
  {
  }

  /** The steps that HASH_ADD goes through, on the abstract table. */
  lemma AddPlan(cfg: Config, a: Table, t: Table, h: Handle)
    requires Shape(a) && (a.Table? ==> Placed(cfg, a)) && h !in Elements(a)
    requires t == if a.NoTable? then MakeTable() else a
    ensures t.Table? && Shape(t) && Placed(cfg, t) && h !in t.order && t.order == Elements(a)
    ensures Insert(cfg, t, h).filter == t.filter
    ensures var r := TableSpec.Add(cfg, a, h);
      && r.Table? && Shape(r) && r == Remember(cfg, Insert(cfg, t, h), h)
      && r.order == Elements(a) + [h] && Placed(cfg, r)
  {
    hide Placed, Filtered, Balanced, Counted, InsertCounting, MakeTable, BucketOf, FilterIndex;
    TableLaws.MakeTableFits(cfg);
    NoElements();
    TableLaws.InsertCountingPlaced(cfg, t, h, |t.order| + 1);
    TableLaws.PlacedExt(cfg, Insert(cfg, t, h), TableSpec.Add(cfg, a, h));
  }

  lemma BehindFirst(s: seq<Handle>, h: Handle)
    ensures Behind(s, 0, h) == if s == [] then [h] else [s[0], h]
  {
  }

  lemma PlacedSum(cfg: Config, t: Table)
    requires t.Table? && Shape(t) && Placed(cfg, t)
    ensures Sum(Lens(t.chains)) == |t.order|
  {
  }

  lemma AloneBehind(k: nat, h: Handle)
    ensures Behind([], k, h) == [h]
  {
  }

  lemma AppendedBehind(s: seq<Handle>, h: Handle)
    ensures s != [] ==> Behind(s, |s| - 1, h) == s + [h]
    ensures s == [] ==> forall k: nat :: Behind(s, k, h) == s + [h]
  {
  }

  /** The list after h was linked behind the k-th element of s, where tail pointed. */
  function Behind(s: seq<Handle>, k: nat, h: Handle): seq<Handle>
    requires s != [] ==> k < |s|
  {
    if s == [] then [h] else s[..k + 1] + [h]
  }

  class Hash {
    const cfg: Config
    var head: Handle?
    var tail: Handle?
    var buckets: array<Bucket>
    var numBuckets: nat
    var log2NumBuckets: nat
    var numItems: nat
    var idealChainMaxlen: nat
    var nonidealItems: nat
    var ineffExpands: nat
    var noexpand: nat
    var bloomBv: array<bv8>

    ghost var abs: Table
    ghost var repr: set<Handle>

    // ----- How the fields represent the abstract table

    /** head, next and prev hold the application order. */
    ghost predicate HeadedOrder(order: seq<Handle>)
      reads this`head, this`repr, repr`next, repr`prev
    {
      order != [] && Over(order, repr) && head == order[0] && AppLinked(order)
    }

    /** head, tail, next and prev hold the application order. */
    ghost predicate ListView(order: seq<Handle>)
      reads this`head, this`tail, this`repr, repr`next, repr`prev
    {
      HeadedOrder(order) && tail == order[|order| - 1]
    }

    /** What HASH_FSCK checks, and that the chains partition the elements by hash bucket. */
    ghost predicate Intact(t: Table)
      requires t.Table? && Shape(t)
      reads this`head, this`buckets, this`numBuckets, this`log2NumBuckets, this`numItems,
            this`idealChainMaxlen, this`nonidealItems, this`ineffExpands, this`noexpand,
            this`repr, buckets, repr
    {
      && Placed(cfg, t) && HeadedOrder(t.order) && numItems == |t.order|
      && BucketsView(t) && CountersView(t) && HandlesView()
    }

    ghost predicate BucketsView(t: Table)
      requires t.Table? && Shape(t)
      reads this`buckets, this`repr, buckets, repr`hhPrev, repr`hhNext
    {
      && Links(buckets, t.chains, repr) && Counts(buckets, t.chains)
      && forall j :: 0 <= j < |t.mult| ==> buckets[j].expandMult == t.mult[j]
    }

    ghost predicate CountersView(t: Table)
      requires t.Table?
      reads this`numBuckets, this`log2NumBuckets, this`idealChainMaxlen, this`nonidealItems,
            this`ineffExpands, this`noexpand
    {
      && numBuckets == |t.chains| && log2NumBuckets == t.log2
      && idealChainMaxlen == t.ideal && nonidealItems == t.nonideal
      && ineffExpands == t.ineff && noexpand == if t.noexpand then 1 else 0
    }

    /** Every handle remembers the hash value and the length of its key. */
    ghost predicate HandlesView()
      reads this`repr, repr`hashv, repr`keylen
    {
      forall h | h in repr :: h.hashv == cfg.hash(h.key) && h.keylen == |h.key|
    }

    ghost predicate FilterView(t: Table)
      requires t.Table?
      reads this`buckets, this`bloomBv, bloomBv
    {
      && (buckets as object) != bloomBv
      && (cfg.bloom.Some? ==>
        bloomBv.Length == Bloom.ByteLength(cfg.bloom.value) && Bloom.Holds(bloomBv, t.filter))
    }

    ghost predicate Represents(t: Table)
      requires t.Table? && Shape(t)
      reads this`head, this`tail, this`buckets, this`numBuckets, this`log2NumBuckets, this`numItems,
            this`idealChainMaxlen, this`nonidealItems, this`ineffExpands, this`noexpand, this`bloomBv,
            this`repr, buckets, bloomBv, repr
    {
      && ListView(t.order) && numItems == |t.order|
      && BucketsView(t) && CountersView(t) && HandlesView() && FilterView(t)
    }

    /** The fields hold t, wherever tail points: all that lookup and sorting need. */
    ghost predicate Readable(t: Table)
      requires Shape(t)
      reads this`head, this`buckets, this`numBuckets, this`log2NumBuckets, this`numItems,
            this`idealChainMaxlen, this`nonidealItems, this`ineffExpands, this`noexpand, this`bloomBv,
            this`repr, buckets, bloomBv, repr
    {
      if t.NoTable? then head == null else Intact(t) && FilterView(t)
    }

    ghost predicate Valid()
      reads this, buckets, bloomBv, repr
    {
      && Inv(cfg, abs)
      && if abs.NoTable? then head == null && repr == {} else Represents(abs)
    }

    constructor (cfg: Config)
      ensures Valid() && this.cfg == cfg && abs == NoTable && fresh(buckets) && fresh(bloomBv)
    {
      this.cfg := cfg;
      head, tail := null, null;
      buckets, bloomBv := new Bucket[0], new bv8[0];
      numBuckets, log2NumBuckets, numItems, idealChainMaxlen := 0, 0, 0, 0;
      nonidealItems, ineffExpands, noexpand := 0, 0, 0;
      abs, repr := NoTable, {};
    }

    lemma EmptyRepr()
      requires Valid() && abs.NoTable?
      ensures repr == {}
    {
    }

    // ----- HASH_ADD

    /** HASH_MAKE_TABLE (uthash.h:128-145). */
    method MakeHashTable()
      modifies this`tail, this`buckets, this`bloomBv, this`numBuckets, this`log2NumBuckets, this`numItems,
               this`idealChainMaxlen, this`nonidealItems, this`ineffExpands, this`noexpand
      ensures tail == head && numItems == 0 && fresh(buckets) && fresh(bloomBv)
      ensures BucketsView(MakeTable()) && CountersView(MakeTable()) && FilterView(MakeTable())
    {
      hide *;
      numItems, idealChainMaxlen, nonidealItems, ineffExpands, noexpand := 0, 0, 0, 0, 0;
      tail := head;
      numBuckets, log2NumBuckets := 32, 5;
      buckets := new Bucket[numBuckets](_ => EMPTY_BUCKET);
      bloomBv := new bv8[if cfg.bloom.Some? then Bloom.ByteLength(cfg.bloom.value) else 0](_ => 0);
      EmptyViews();
    }

    lemma EmptyViews()
      requires numBuckets == buckets.Length == 32 && log2NumBuckets == 5
      requires idealChainMaxlen == nonidealItems == ineffExpands == noexpand == 0
      requires forall j :: 0 <= j < buckets.Length ==> buckets[j] == EMPTY_BUCKET
      requires (buckets as object) != bloomBv && forall j :: 0 <= j < bloomBv.Length ==> bloomBv[j] == 0
      requires cfg.bloom.Some? ==> bloomBv.Length == Bloom.ByteLength(cfg.bloom.value)
      ensures BucketsView(MakeTable()) && CountersView(MakeTable()) && FilterView(MakeTable())
    {
      assert |MakeTable().chains| == 32 by {
        assert Pow2(1) == 2 && Pow2(2) == 4 && Pow2(3) == 8 && Pow2(4) == 16;
      }
      forall j | 0 <= j < buckets.Length
        ensures Headed(buckets[j], MakeTable().chains[j], repr)
      {
      }
    }

    /** Link h behind tail, the k-th element (uthash.h:153-164); if tail is the last one, this appends. */
    method LinkLast(h: Handle, ghost order: seq<Handle>, ghost k: nat)
      requires HeadedOrder(order) && Distinct(order) && k < |order| && tail == order[k] && h !in order
      modifies this`tail, this`repr, h`prev, h`next, repr`next
      ensures repr == old(repr) + {h} && ListView(Behind(order, k, h))
    {
      h.next := null;
      tail.next := h;
      h.prev := tail;
      tail := h;
      repr := repr + {h};
      ghost var s := Behind(order, k, h);
      forall i | 0 <= i < |s|
        ensures s[i].prev == At(s, i - 1) && s[i].next == At(s, i + 1)
      {
        if i <= k {
          assert s[i] == order[i] && old(order[i].prev) == At(order, i - 1) && old(order[i].next) == At(order, i + 1);
        }
      }
    }

    /** The new bucket array and its statistics (uthash.h:711-739). */
    method Rebucket(ghost t: Table) returns (newBuckets: array<Bucket>)
      requires t.Table? && Shape(t) && Placed(cfg, t) && numItems > 0
      requires BucketsView(t) && CountersView(t) && HandlesView()
      modifies this`idealChainMaxlen, this`nonidealItems, repr`hhPrev, repr`hhNext
      ensures fresh(newBuckets) && idealChainMaxlen == ExpandCounting(cfg, t, numItems).ideal
      ensures HashExpand.Moving(cfg, newBuckets, t.chains, idealChainMaxlen, nonidealItems, repr)
    {
      PlacedBucketed(cfg, t);
      newBuckets := new Bucket[2 * numBuckets](_ => EMPTY_BUCKET);
      IdealIsCeil(t);
      idealChainMaxlen := Shr(numItems, log2NumBuckets + 1)
        + if BitAnd(numItems, numBuckets * 2 - 1) != 0 then 1 else 0;
      nonidealItems := HashExpand.MoveAll(cfg, buckets, newBuckets, idealChainMaxlen, t.chains, repr, t.log2);
    }

    /** HASH_EXPAND_BUCKETS (uthash.h:705-751). */
    method ExpandBuckets(ghost t: Table)
      requires t.Table? && Shape(t) && Placed(cfg, t) && numItems > 0
      requires BucketsView(t) && CountersView(t) && HandlesView()
      modifies this`buckets, this`numBuckets, this`log2NumBuckets, this`idealChainMaxlen, this`nonidealItems,
               this`ineffExpands, this`noexpand, repr`hhPrev, repr`hhNext
      ensures fresh(buckets)
      ensures BucketsView(ExpandCounting(cfg, t, numItems)) && CountersView(ExpandCounting(cfg, t, numItems))
    {
      hide *;
      OpenCounters(t);
      var newBuckets := Rebucket(t);
      MovedIsExpanded(t, newBuckets);
      buckets := newBuckets;
      CloseBuckets(ExpandCounting(cfg, t, numItems), repr);
      CloseCounters(t);
      UpdateStatistics(t);
    }

    lemma OpenCounters(t: Table)
      requires t.Table? && CountersView(t)
      ensures numBuckets == |t.chains| && log2NumBuckets == t.log2
      ensures ineffExpands == t.ineff && noexpand == if t.noexpand then 1 else 0
    {
    }

    lemma CloseCounters(t: Table)
      requires t.Table? && Shape(t) && numItems > 0 && numBuckets == |t.chains| && log2NumBuckets == t.log2
      requires ineffExpands == t.ineff && noexpand == if t.noexpand then 1 else 0
      requires idealChainMaxlen == ExpandCounting(cfg, t, numItems).ideal
      requires nonidealItems == ExpandCounting(cfg, t, numItems).nonideal
      ensures var r := ExpandCounting(cfg, t, numItems);
        CountersView(t.(ideal := r.ideal, nonideal := r.nonideal))
    {
    }

    lemma MovedIsExpanded(t: Table, nb: array<Bucket>)
      requires t.Table? && Shape(t) && numItems > 0 && idealChainMaxlen == ExpandCounting(cfg, t, numItems).ideal
      requires HashExpand.Moving(cfg, nb, t.chains, idealChainMaxlen, nonidealItems, repr)
      ensures var r := ExpandCounting(cfg, t, numItems);
        && r.Table? && Shape(r) && nb.Length == |r.mult|
        && Links(nb, r.chains, repr) && Counts(nb, r.chains) && nonidealItems == r.nonideal
        && forall j :: 0 <= j < |r.mult| ==> nb[j].expandMult == r.mult[j]
    {
    }

    /** The counters after an expansion (uthash.h:741-749). */
    method UpdateStatistics(ghost t: Table)
      requires t.Table? && Shape(t) && numItems > 0
      requires var r := ExpandCounting(cfg, t, numItems);
        CountersView(t.(ideal := r.ideal, nonideal := r.nonideal))
      modifies this`numBuckets, this`log2NumBuckets, this`ineffExpands, this`noexpand
      ensures CountersView(ExpandCounting(cfg, t, numItems))
    {
      numBuckets := numBuckets * 2;
      log2NumBuckets := log2NumBuckets + 1;
      ShrIsDiv(numItems, 1);
      ineffExpands := if nonidealItems > Shr(numItems, 1) then ineffExpands + 1 else 0;
      if ineffExpands > 1 {
        noexpand := 1;
      }
    }

    /** The shift-and-mask expression computes the ideal chain length of the doubled table. */
    lemma IdealIsCeil(t: Table)
      requires t.Table? && Shape(t) && numItems > 0 && CountersView(t)
      ensures ExpandCounting(cfg, t, numItems).ideal ==
              Shr(numItems, log2NumBuckets + 1) + if BitAnd(numItems, numBuckets * 2 - 1) != 0 then 1 else 0
    {
      CeilByShiftAndMask(numItems, t.log2 + 1);
    }

    /** HASH_ADD_TO_BKT (uthash.h:650-661); t is the table without h, which may be counted already. */
    method AddToBkt(bkt: nat, h: Handle, ghost t: Table)
      requires t.Table? && Shape(t) && Placed(cfg, t) && h !in t.order && h in repr
      requires BucketsView(t) && CountersView(t) && HandlesView() && numItems >= |t.order|
      requires bkt == BucketOf(cfg, h, |t.chains|)
      modifies this`buckets, this`numBuckets, this`log2NumBuckets, this`idealChainMaxlen, this`nonidealItems,
               this`ineffExpands, this`noexpand, buckets, repr`hhPrev, repr`hhNext
      ensures buckets == old(buckets) || fresh(buckets)
      ensures BucketsView(InsertCounting(cfg, t, h, numItems)) && CountersView(InsertCounting(cfg, t, h, numItems))
    {
      PlacedBucketed(cfg, t);
      ghost var p := Push(cfg, t, h);
      PushBucket(bkt, h, t);
      if buckets[bkt].count >= (buckets[bkt].expandMult + 1) * CAPACITY_THRESH && noexpand != 1 {
        TableLaws.PushPlaced(cfg, t, h);
        TableLaws.CrowdedHasItems(cfg, p, bkt);
        ExpandBuckets(p);
      }
    }

    /** The part of HASH_ADD_TO_BKT before the test (uthash.h:652-656). */
    method PushBucket(bkt: nat, h: Handle, ghost t: Table)
      requires t.Table? && Shape(t) && InNone(h, t.chains) && ChainsApart(t.chains) && h in repr
      requires BucketsView(t) && bkt == BucketOf(cfg, h, |t.chains|)
      modifies buckets, repr`hhPrev, repr`hhNext
      ensures BucketsView(Push(cfg, t, h))
    {
      buckets[bkt] := buckets[bkt].(count := buckets[bkt].count + 1);
      forall j | 0 <= j < |t.chains|
        ensures Headed(buckets[j], t.chains[j], repr)
      {
        assert old(Headed(buckets[j], t.chains[j], repr));
      }
      LinkFront(buckets, bkt, h, t.chains, repr);
    }

    /** HASH_BLOOM_ADD (uthash.h:115-116). */
    method BloomAdd(h: Handle, ghost t: Table)
      requires t.Table? && Shape(t) && FilterView(t) && h.hashv == cfg.hash(h.key)
      modifies bloomBv
      ensures FilterView(Remember(cfg, t, h))
    {
      if cfg.bloom.Some? {
        var idx := BitAnd(h.hashv, (Pow2(cfg.bloom.value) - 1) % 0x1_0000_0000);
        FilterIndexInRange(cfg.bloom.value, h.hashv);
        Bloom.BitSet(bloomBv, idx, t.filter);
      }
    }

    /** Create the table if there is none, and link h behind tail (uthash.h:153-164). */
    method Enlist(h: Handle, ghost a: Table, ghost t: Table, ghost k: nat)
      requires Shape(a) && Addable(a, k) && h !in Elements(a)
      requires t == if a.NoTable? then MakeTable() else a
      modifies this, h, repr
      ensures abs == old(abs) && forall x | x in old(repr) :: x.hashv == old(x.hashv) && x.keylen == old(x.keylen)
      ensures h.keylen == old(h.keylen)
      ensures repr == old(repr) + {h} && (t.order != [] ==> k < |t.order|) && ListView(Behind(t.order, k, h))
      ensures BucketsView(t) && CountersView(t) && FilterView(t) && numItems == |t.order|
      ensures buckets == old(buckets) || fresh(buckets)
      ensures bloomBv == old(bloomBv) || fresh(bloomBv)
    {
      hide *;
      OpenAddable(a, k);
      if head == null {
        h.next := null;
        head := h;
        h.prev := null;
        repr := {h};
        MakeHashTable();
        Single(h);
        AloneBehind(k, h);
      } else {
        ghost var all := repr;
        OpenBuckets(t);
        LinkLast(h, t.order, k);
        CloseBuckets(t, all);
      }
    }

    /** HASH_ADD can be called: the fields hold a, and tail is its k-th element. */
    ghost predicate Addable(a: Table, k: nat)
      requires Shape(a)
      reads this`head, this`tail, this`buckets, this`numBuckets, this`log2NumBuckets, this`numItems,
            this`idealChainMaxlen, this`nonidealItems, this`ineffExpands, this`noexpand, this`bloomBv,
            this`repr, buckets, bloomBv, repr
    {
      && Readable(a) && (a.NoTable? ==> repr == {})
      && (a.Table? ==> k < |a.order| && tail == a.order[k])
    }

    lemma OpenAddable(a: Table, k: nat)
      requires Shape(a) && Addable(a, k)
      ensures head == null <==> a.NoTable?
      ensures a.NoTable? ==> repr == {} && MakeTable().order == []
      ensures a.Table? ==>
        && Elements(a) == a.order
        && HeadedOrder(a.order) && Distinct(a.order) && k < |a.order| && tail == a.order[k] && Placed(cfg, a)
        && BucketsView(a) && CountersView(a) && FilterView(a) && numItems == |a.order|
      ensures forall x | x in repr :: x.hashv == cfg.hash(x.key) && x.keylen == |x.key|
    {
    }

    lemma OpenBuckets(t: Table)
      requires t.Table? && Shape(t) && BucketsView(t)
      ensures buckets.Length == |t.mult| && Links(buckets, t.chains, repr) && Counts(buckets, t.chains)
      ensures forall j :: 0 <= j < |t.mult| ==> buckets[j].expandMult == t.mult[j]
    {
    }

    /** Chains that are linked within all are linked within a larger set. */
    lemma CloseBuckets(t: Table, all: set<Handle>)
      requires t.Table? && Shape(t) && all <= repr && buckets.Length == |t.mult|
      requires Links(buckets, t.chains, all) && Counts(buckets, t.chains)
      requires forall j :: 0 <= j < |t.mult| ==> buckets[j].expandMult == t.mult[j]
      ensures BucketsView(t)
    {
      forall j | 0 <= j < |t.chains|
        ensures Headed(buckets[j], t.chains[j], repr)
      {
        assert Headed(buckets[j], t.chains[j], all);
      }
    }

    lemma Single(h: Handle)
      requires h.prev == null && h.next == null && head == h && tail == h && h in repr
      ensures ListView([h])
    {
    }

    /** Count h, hash it, and put it into its bucket (uthash.h:165-169). */
    method EnterBucket(h: Handle, ghost t: Table)
      requires t.Table? && Shape(t) && Placed(cfg, t) && h !in t.order && h in repr
      requires BucketsView(t) && CountersView(t) && numItems == |t.order|
      requires h.keylen == |h.key|
      requires forall x | x in repr && x != h :: x.hashv == cfg.hash(x.key) && x.keylen == |x.key|
      modifies this`buckets, this`numBuckets, this`log2NumBuckets, this`numItems, this`idealChainMaxlen,
               this`nonidealItems, this`ineffExpands, this`noexpand, buckets, h`hashv, repr`hhPrev, repr`hhNext
      ensures buckets == old(buckets) || fresh(buckets)
      ensures BucketsView(Insert(cfg, t, h)) && CountersView(Insert(cfg, t, h)) && HandlesView()
      ensures numItems == |t.order| + 1 && h.hashv == cfg.hash(h.key)
    {
      hide *;
      BucketPlan(h, t);
      numItems := numItems + 1;
      h.hashv := cfg.hash(h.key);
      AllHandled(h);
      var bkt := BitAnd(h.hashv, numBuckets - 1);
      AddToBkt(bkt, h, t);
    }

    lemma BucketPlan(h: Handle, t: Table)
      requires t.Table? && Shape(t) && CountersView(t)
      ensures numBuckets == |t.chains| > 0
      ensures BitAnd(cfg.hash(h.key), numBuckets - 1) == BucketOf(cfg, h, |t.chains|)
      ensures Insert(cfg, t, h) == InsertCounting(cfg, t, h, |t.order| + 1)
    {
      TableLaws.MaskedBucket(cfg, h, numBuckets, t.log2);
    }

    lemma AllHandled(h: Handle)
      requires h.keylen == |h.key| && h.hashv == cfg.hash(h.key)
      requires forall x | x in repr && x != h :: x.hashv == cfg.hash(x.key) && x.keylen == |x.key|
      ensures HandlesView()
    {
    }

    /** Count h, hash it, and put it into its bucket and the filter (uthash.h:165-170). */
    method Enter(h: Handle, ghost t: Table, ghost list: seq<Handle>)
      requires t.Table? && Shape(t) && Placed(cfg, t) && h !in t.order && h in repr
      requires Insert(cfg, t, h).filter == t.filter
      requires ListView(list)
      requires BucketsView(t) && CountersView(t) && FilterView(t) && numItems == |t.order|
      requires h.keylen == |h.key|
      requires forall x | x in repr && x != h :: x.hashv == cfg.hash(x.key) && x.keylen == |x.key|
      modifies this, buckets, bloomBv, h, repr
      ensures abs == old(abs) && repr == old(repr) && bloomBv == old(bloomBv)
      ensures buckets == old(buckets) || fresh(buckets)
      ensures BucketsView(Remember(cfg, Insert(cfg, t, h), h)) && CountersView(Remember(cfg, Insert(cfg, t, h), h))
      ensures FilterView(Remember(cfg, Insert(cfg, t, h), h)) && HandlesView()
      ensures ListView(list) && numItems == |t.order| + 1
    {
      hide Insert, Links, Counts, Bloom.Holds, ListView, Placed, HandlesView;
      EnterBucket(h, t);
      BloomAdd(h, Insert(cfg, t, h));
    }

    /** HASH_ADD (uthash.h:150-171) to any table that it can be called on. */
    method AddAt(h: Handle, ghost a: Table, ghost k: nat) returns (ghost r: Table)
      requires Shape(a) && Addable(a, k) && h !in Elements(a)
      modifies this, buckets, bloomBv, repr, h
      ensures abs == old(abs) && repr == old(repr) + {h}
      ensures r == TableSpec.Add(cfg, a, h) && r.order == Elements(a) + [h] && Placed(cfg, r)
      ensures numItems == |r.order|
      ensures BucketsView(r) && CountersView(r) && HandlesView() && FilterView(r)
      ensures (Elements(a) != [] ==> k < |Elements(a)|) && ListView(Behind(Elements(a), k, h))
      ensures buckets == old(buckets) || fresh(buckets)
      ensures bloomBv == old(bloomBv) || fresh(bloomBv)
    {
      hide *;
      OpenAddable(a, k);
      ghost var t := if a.NoTable? then MakeTable() else a;
      r := TableSpec.Add(cfg, a, h);
      AddPlan(cfg, a, t, h);
      AddSteps(h, a, t, k);
    }

    /** Link h and enter it; t is the table a, or a new one. */
    method AddSteps(h: Handle, ghost a: Table, ghost t: Table, ghost k: nat)
      requires Shape(a) && Addable(a, k) && h !in Elements(a)
      requires t == if a.NoTable? then MakeTable() else a
      requires t.Table? && Shape(t) && Placed(cfg, t) && h !in t.order && Insert(cfg, t, h).filter == t.filter
      modifies this, buckets, bloomBv, repr, h
      ensures abs == old(abs) && repr == old(repr) + {h} && numItems == |t.order| + 1
      ensures BucketsView(Remember(cfg, Insert(cfg, t, h), h)) && CountersView(Remember(cfg, Insert(cfg, t, h), h))
      ensures FilterView(Remember(cfg, Insert(cfg, t, h), h)) && HandlesView()
      ensures (t.order != [] ==> k < |t.order|) && ListView(Behind(t.order, k, h))
      ensures buckets == old(buckets) || fresh(buckets)
      ensures bloomBv == old(bloomBv) || fresh(bloomBv)
    {
      hide *;
      OpenAddable(a, k);
      h.keylen := |h.key|;
      Enlist(h, a, t, k);
      Enter(h, t, Behind(t.order, k, h));
    }

    /** HASH_ADD (uthash.h:150-173). */
    method Add(h: Handle)
      requires Valid() && h !in Elements(abs)
      modifies this, buckets, bloomBv, repr, h
      ensures Valid() && abs == TableSpec.Add(cfg, old(abs), h) && repr == old(repr) + {h}
      ensures Elements(abs) == old(Elements(abs)) + [h]
      ensures buckets == old(buckets) || fresh(buckets)
      ensures bloomBv == old(bloomBv) || fresh(bloomBv)
    {
      hide *;
      OpenValid();
      ghost var a := abs;
      ghost var k: nat := ValidIsAddable();
      TableLaws.AddKeepsInv(cfg, a, h);
      AddPlan(cfg, a, if a.NoTable? then MakeTable() else a, h);
      abs := AddAt(h, a, k);
      AppendedBehind(Elements(a), h);
      CloseAdd(abs);
      CloseValid();
    }

    lemma ValidIsAddable() returns (k: nat)
      requires Valid()
      ensures Shape(abs) && Addable(abs, k) && (Elements(abs) != [] ==> k == |Elements(abs)| - 1)
      ensures abs.Table? ==> Placed(cfg, abs)
    {
      k := if abs.Table? then |abs.order| - 1 else 0;
    }

    lemma CloseAdd(r: Table)
      requires r.Table? && Shape(r) && ListView(r.order) && numItems == |r.order|
      requires BucketsView(r) && CountersView(r) && HandlesView() && FilterView(r)
      ensures Represents(r)
    {
    }

    // ----- HASH_DELETE

    /** Patch up the application order around d (uthash.h:203-219). */
    method UnlinkApp(d: Handle, ghost k: nat, ghost order: seq<Handle>)
      requires ListView(order) && Distinct(order) && |order| > 1 && k < |order| && order[k] == d
      modifies this`head, this`tail, repr`next, repr`prev
      ensures ListView(Drop(order, k))
    {
      ghost var r := Drop(order, k);
      assert d.prev == At(order, k - 1) && d.next == At(order, k + 1);
      assert d == tail <==> k == |order| - 1;
      if d == tail {
        tail := d.prev;
      }
      if d.prev == null {
        head := d.next;
      }
      SpliceApp(d, k, order);
      DropAt(order, k, 0);
      DropAt(order, k, |order| - 2);
      assert head == At(r, 0) == r[0] && tail == At(r, |r| - 1) == r[|r| - 1];
      forall i | 0 <= i < |r|
        ensures r[i] in repr
      {
        assert r[i] == if i < k then order[i] else order[i + 1];
      }
    }

    /** HASH_DEL_IN_BKT (uthash.h:664-674). */
    method DelInBkt(bkt: nat, d: Handle, ghost m: nat, ghost t: Table, ghost r: Table)
      requires t.Table? && Shape(t) && ChainsApart(t.chains) && bkt < |t.chains| && BucketsView(t)
      requires Distinct(t.chains[bkt]) && m < |t.chains[bkt]| && t.chains[bkt][m] == d
      requires r.Table? && Shape(r) && r.chains == t.chains[bkt := Drop(t.chains[bkt], m)] && r.mult == t.mult
      modifies buckets, repr`hhPrev, repr`hhNext
      ensures BucketsView(r)
    {
      assert Headed(buckets[bkt], t.chains[bkt], repr);
      buckets[bkt] := buckets[bkt].(count := buckets[bkt].count - 1);
      forall j | 0 <= j < |t.chains|
        ensures Headed(buckets[j], t.chains[j], repr)
      {
        assert old(Headed(buckets[j], t.chains[j], repr));
      }
      UnlinkChain(buckets, bkt, d, m, t.chains, repr);
    }

    /** HASH_DELETE of one element of several (uthash.h:203-222): the k-th in order, the m-th of chain j. */
    method DeleteOne(d: Handle, ghost t: Table, ghost r: Table, ghost k: nat, ghost j: nat, ghost m: nat)
      requires t.Table? && Shape(t) && ListView(t.order) && BucketsView(t) && numItems == |t.order| > 1
      requires Distinct(t.order) && k < |t.order| && t.order[k] == d && ChainsApart(t.chains)
      requires j < |t.chains| && Distinct(t.chains[j]) && m < |t.chains[j]| && t.chains[j][m] == d
      requires numBuckets > 0 && BitAnd(d.hashv, numBuckets - 1) == j
      requires CountersView(t) && HandlesView() && FilterView(t)
      requires Shape(r) && r == t.(order := Drop(t.order, k), chains := t.chains[j := Drop(t.chains[j], m)])
      modifies this`head, this`tail, this`numItems, buckets, repr`next, repr`prev, repr`hhPrev, repr`hhNext
      ensures ListView(r.order) && BucketsView(r) && numItems == |r.order|
      ensures CountersView(r) && HandlesView() && FilterView(r)
    {
      hide *;
      OpenFilter(t);
      UnlinkApp(d, k, t.order);
      var bkt := BitAnd(d.hashv, numBuckets - 1);
      DelInBkt(bkt, d, m, t, r);
      numItems := numItems - 1;
      CloseFilter(t, r);
      SameCounters(t, r);
    }

    lemma SameCounters(t: Table, r: Table)
      requires t.Table? && CountersView(t) && |t.chains| > 0
      requires r.Table? && |r.chains| == |t.chains| && r == t.(order := r.order, chains := r.chains)
      ensures CountersView(r)
    {
    }

    method DeleteSeveral(d: Handle, ghost t: Table, ghost r: Table, ghost k: nat, ghost j: nat, ghost m: nat)
      requires t.Table? && Shape(t) && Represents(t) && |t.order| > 1
      requires Distinct(t.order) && k < |t.order| && t.order[k] == d && ChainsApart(t.chains)
      requires j < |t.chains| && Distinct(t.chains[j]) && m < |t.chains[j]| && t.chains[j][m] == d
      requires numBuckets > 0 && BitAnd(d.hashv, numBuckets - 1) == j
      requires Shape(r) && r == t.(order := Drop(t.order, k), chains := t.chains[j := Drop(t.chains[j], m)])
      modifies this`head, this`tail, this`numItems, buckets, repr`next, repr`prev, repr`hhPrev, repr`hhNext
      ensures Represents(r)
    {
      hide Shape, Distinct, Drop, ChainsApart, ListView, BucketsView, CountersView, HandlesView, FilterView;
      DeleteOne(d, t, r, k, j, m);
    }

    /** HASH_DELETE (uthash.h:192-225). */
    method Delete(d: Handle)
      requires Valid() && d in Elements(abs)
      modifies this`head, this`tail, this`numItems, this`abs, this`repr, buckets,
               repr`next, repr`prev, repr`hhPrev, repr`hhNext
      ensures Valid() && abs == TableSpec.Delete(cfg, old(abs), d)
      ensures repr == if abs.NoTable? then {} else old(repr) - {d}
      ensures Elements(abs) == Without(old(Elements(abs)), d)
    {
      hide *;
      OpenValid();
      ghost var t := abs;
      TableLaws.DeleteKeepsInv(cfg, t, d);
      ghost var k, j, m := DeletePlan(cfg, t, d);
      BucketByMask(t, k);
      abs := TableSpec.Delete(cfg, t, d);
      if d.prev == null && d.next == null {
        head := null;
        repr := {};
      } else {
        DeleteSeveral(d, t, abs, k, j, m);
        Forget(d, abs);
      }
      CloseValid();
    }

    /** Let go of an element that is no longer linked anywhere. */
    ghost method Forget(d: Handle, t: Table)
      requires t.Table? && Shape(t) && Represents(t) && d !in t.order && InNone(d, t.chains)
      modifies this`repr
      ensures Represents(t) && repr == old(repr) - {d}
    {
      repr := repr - {d};
      forall j | 0 <= j < |t.chains|
        ensures Headed(buckets[j], t.chains[j], repr)
      {
        assert old(Headed(buckets[j], t.chains[j], repr));
      }
    }

    lemma OpenValid()
      requires Valid()
      ensures Inv(cfg, abs) && Shape(abs)
      ensures abs.NoTable? ==> Elements(abs) == [] && head == null && repr == {}
      ensures abs.Table? ==> Elements(abs) == abs.order && head != null && Represents(abs)
    {
    }

    lemma CloseValid()
      requires Inv(cfg, abs) && Shape(abs)
      requires if abs.NoTable? then head == null && repr == {} else Represents(abs)
      ensures Valid()
    {
    }

    /** The k-th element: its bucket number by masking, and when it has no neighbours. */
    lemma BucketByMask(t: Table, k: nat)
      requires t.Table? && Shape(t) && Represents(t) && k < |t.order|
      ensures numBuckets > 0 && BitAnd(t.order[k].hashv, numBuckets - 1) == BucketOf(cfg, t.order[k], |t.chains|)
      ensures t.order[k].prev == null && t.order[k].next == null <==> |t.order| == 1
    {
      TableLaws.MaskedBucket(cfg, t.order[k], numBuckets, t.log2);
      IsAlone(t, k);
      assert t.order[k] in repr;
    }

    /** An element without neighbours is the only one. */
    lemma IsAlone(t: Table, k: nat)
      requires t.Table? && Shape(t) && Represents(t) && k < |t.order|
      ensures t.order[k].prev == null && t.order[k].next == null <==> |t.order| == 1
    {
      assert t.order[k].prev == At(t.order, k - 1) && t.order[k].next == At(t.order, k + 1);
    }

    // ----- HASH_FIND

    /** HASH_FIND_IN_BKT (uthash.h:636-647). */
    method FindInBkt(bkt: nat, key: Key, ghost t: Table) returns (out: Handle?)
      requires t.Table? && Shape(t) && BucketsView(t) && HandlesView() && bkt < |t.chains|
      ensures out == FirstWithKey(t.chains[bkt], key)
    {
      ghost var c, k := t.chains[bkt], 0;
      assert Headed(buckets[bkt], c, repr);
      out := buckets[bkt].hhHead;
      assert c[0..] == c;
      while out != null
        invariant k <= |c| && out == At(c, k) && FirstWithKey(c, key) == FirstWithKey(c[k..], key)
        decreases |c| - k
      {
        assert c[k..][1..] == c[k + 1..] && out == c[k] && out in repr;
        if out.keylen == |key| {
          if out.key == key {
            break;
          }
        }
        out := out.hhNext;
        k := k + 1;
      }
    }

    /** HASH_FIND (uthash.h:82-93). */
    method Find(key: Key, ghost t: Table) returns (out: Handle?)
      requires Shape(t) && Readable(t)
      ensures out == TableSpec.Find(cfg, t, key)
    {
      out := null;
      if head != null {
        var hashv := cfg.hash(key);
        MaskIsMod(hashv, t.log2);
        var bkt := BitAnd(hashv, numBuckets - 1);
        var maybe := true;
        if cfg.bloom.Some? {
          FilterIndexInRange(cfg.bloom.value, hashv);
          maybe := Bloom.BitTest(bloomBv, BitAnd(hashv, (Pow2(cfg.bloom.value) - 1) % 0x1_0000_0000), t.filter);
        }
        if maybe {
          out := FindInBkt(bkt, key, t);
        }
      }
    }

    lemma ValidIsReadable()
      requires Valid()
      ensures Shape(abs) && Readable(abs)
    {
    }

    // ----- HASH_SRT

    /** HASH_SRT (uthash.h:758-835). Bucket links, buckets and counters are outside its frame. Wherever
        tail was, it ends up at the last element. */
    method Sort(cmp: (Handle, Handle) -> int, ghost t: Table) returns (ghost passes: nat, ghost calls: nat)
      requires Shape(t) && Readable(t)
      modifies this`head, this`tail, repr`next, repr`prev
      ensures t.NoTable? ==> head == null
      ensures t.Table? ==> Represents(Resort(t, cmp)) && Placed(cfg, Resort(t, cmp))
      ensures t.Table? ==> passes == PassesFrom(1, |t.order|) && calls <= |t.order| * passes
    {
      hide *;
      OpenReadable(t);
      passes, calls := 0, 0;
      if head != null {
        head, tail, passes, calls := HashSort.SortList(cmp, head, t.order, repr);
        SortCostBound(cmp, 1, t.order);
        CloseSorted(cmp, t);
      }
    }

    lemma OpenReadable(t: Table)
      requires Shape(t) && Readable(t)
      ensures head == null <==> t.NoTable?
      ensures t.Table? ==>
        && t.order != [] && head == t.order[0] && Over(t.order, repr) && AppLinked(t.order) && Distinct(t.order)
        && Placed(cfg, t) && numItems == |t.order|
        && BucketsView(t) && CountersView(t) && HandlesView() && FilterView(t)
    {
    }

    lemma CloseSorted(cmp: (Handle, Handle) -> int, t: Table)
      requires t.Table? && Shape(t) && Placed(cfg, t) && numItems == |t.order|
      requires BucketsView(t) && CountersView(t) && HandlesView() && FilterView(t)
      requires var r := MergeSpec.Sort(cmp, t.order);
        r != [] && AppLinked(r) && Over(r, repr) && head == r[0] && tail == r[|r| - 1]
      ensures Shape(Resort(t, cmp)) && Represents(Resort(t, cmp)) && Placed(cfg, Resort(t, cmp))
    {
      hide Links, Counts, Placed, HandlesView, Bloom.Holds, AppLinked;
      TableLaws.ResortPlaced(cfg, t, cmp);
    }

    /** HASH_SRT on a valid table. */
    method SortValid(cmp: (Handle, Handle) -> int) returns (ghost passes: nat, ghost calls: nat)
      requires Valid()
      modifies this`head, this`tail, this`abs, repr`next, repr`prev
      ensures Valid() && abs == Resort(old(abs), cmp)
      ensures abs.Table? ==> passes == PassesFrom(1, |abs.order|) && calls <= |abs.order| * passes
    {
      hide *;
      OpenValid();
      ValidIsReadable();
      ghost var t := abs;
      TableLaws.ResortKeepsInv(cfg, t, cmp);
      ResortPlan(t, cmp);
      passes, calls := Sort(cmp, t);
      abs := Resort(t, cmp);
      CloseValid();
    }

    lemma ResortPlan(t: Table, cmp: (Handle, Handle) -> int)
      requires Inv(cfg, t)
      ensures t.NoTable? ==> Resort(t, cmp) == t
      ensures t.Table? ==>
        && Distinct(t.order) && Shape(t) && Shape(Resort(t, cmp))
        && Resort(t, cmp) == t.(order := MergeSpec.Sort(cmp, t.order)) && |Resort(t, cmp).order| == |t.order|
    {
    }

    // ----- HASH_FSCK

    /** HASH_FSCK follows only forward links: they lead from the bucket heads through chains and from
        head through order. Nothing is known of the back links and the counts. */
    ghost predicate Traversable(chains: seq<seq<Handle>>, order: seq<Handle>, all: set<Handle>)
      reads this, buckets, all
    {
      && buckets.Length == numBuckets == |chains|
      && (forall j :: 0 <= j < |chains| ==> ForwardChain(buckets[j], chains[j], all))
      && Over(order, all) && head == At(order, 0) && Walkable(order)
    }

    /** The back links and all counts agree with the forward links. */
    ghost predicate Consistent(chains: seq<seq<Handle>>, order: seq<Handle>, all: set<Handle>)
      requires buckets.Length == |chains| && Over(order, all)
      requires forall j :: 0 <= j < |chains| ==> Over(chains[j], all)
      reads this, buckets, all
    {
      && (forall j :: 0 <= j < |chains| ==> SoundChain(buckets[j], chains[j], all))
      && Sum(Lens(chains)) == numItems && PrevLinked(order) && |order| == numItems
    }

    /** One turn of the bucket loop of HASH_FSCK (uthash.h:258-274). */
    method FsckBucket(bkt: nat, ghost c: seq<Handle>, ghost all: set<Handle>) returns (ok: bool, count: nat)
      requires bkt < buckets.Length && ForwardChain(buckets[bkt], c, all)
      ensures ok <==> SoundChain(buckets[bkt], c, all)
      ensures count == |c|
    {
      var thh, prev: Handle? := buckets[bkt].hhHead, null;
      ok, count := true, 0;
      while thh != null
        invariant count <= |c| && thh == At(c, count) && prev == At(c, count - 1)
        invariant ok <==> forall i {:trigger c[i].hhPrev} :: 0 <= i < count ==> c[i].hhPrev == At(c, i - 1)
        decreases |c| - count
      {
        if prev != thh.hhPrev {
          ok := false;
        }
        count, prev, thh := count + 1, thh, thh.hhNext;
      }
      if buckets[bkt].count != count {
        ok := false;
      }
    }

    /** The application-order loop of HASH_FSCK (uthash.h:281-297). */
    method FsckOrder(ghost order: seq<Handle>) returns (ok: bool)
      requires head == At(order, 0) && Walkable(order)
      ensures ok <==> PrevLinked(order) && |order| == numItems
    {
      var thh, prev, count := head, null, 0;
      ok := true;
      while thh != null
        invariant count <= |order| && thh == At(order, count) && prev == At(order, count - 1)
        invariant ok <==> forall i {:trigger order[i].prev} :: 0 <= i < count ==> order[i].prev == At(order, i - 1)
        decreases |order| - count
      {
        count := count + 1;
        if prev != thh.prev {
          ok := false;
        }
        prev, thh := thh, thh.next;
      }
      if count != numItems {
        ok := false;
      }
    }

    /** HASH_FSCK (uthash.h:249-299): ok is false where the macro would report and exit. It decides
        whether the back links and the counts agree with the forward links. */
    method Fsck(ghost chains: seq<seq<Handle>>, ghost order: seq<Handle>, ghost all: set<Handle>) returns (ok: bool)
      requires head != null ==> Traversable(chains, order, all)
      ensures ok <==> head == null || Consistent(chains, order, all)
      ensures head != null ==>
        (ok <==>
          && Links(buckets, chains, all) && (forall j :: 0 <= j < |chains| ==> buckets[j].count == |chains[j]|)
          && AppLinked(order) && |order| == numItems == Sum(Lens(chains)))
    {
      ok := true;
      if head != null {
        ghost var lens := Lens(chains);
        var count := 0;
        for i := 0 to numBuckets
          invariant ok <==> forall j :: 0 <= j < i ==> SoundChain(buckets[j], chains[j], all)
          invariant count == Sum(lens[..i])
        {
          var sound, n := FsckBucket(i, chains[i], all);
          ok, count := ok && sound, count + n;
          SumTake(lens, i);
        }
        assert lens[..numBuckets] == lens;
        if count != numItems {
          ok := false;
        }
        var sound := FsckOrder(order);
        ok := ok && sound;
        ConsistentExactly(chains, order, all);
      }
    }

    /** With the forward links given, HASH_FSCK's conditions say that both structures are doubly linked and
        all counts right. */
    lemma ConsistentExactly(chains: seq<seq<Handle>>, order: seq<Handle>, all: set<Handle>)
      requires Traversable(chains, order, all)
      ensures Consistent(chains, order, all) <==>
        && Links(buckets, chains, all) && (forall j :: 0 <= j < |chains| ==> buckets[j].count == |chains[j]|)
        && AppLinked(order) && |order| == numItems == Sum(Lens(chains))
    {
      forall j | 0 <= j < |chains|
        ensures SoundChain(buckets[j], chains[j], all) <==>
          Headed(buckets[j], chains[j], all) && buckets[j].count == |chains[j]|
      {
        assert ForwardChain(buckets[j], chains[j], all);
        ChainBothWays(buckets[j], chains[j], all);
      }
      OrderBothWays(order);
    }

    lemma IntactIsConsistent(t: Table)
      requires t.Table? && Shape(t) && Intact(t)
      ensures Traversable(t.chains, t.order, repr) && Consistent(t.chains, t.order, repr)
    {
      forall j | 0 <= j < |t.chains|
        ensures ForwardChain(buckets[j], t.chains[j], repr) && SoundChain(buckets[j], t.chains[j], repr)
      {
        assert Headed(buckets[j], t.chains[j], repr);
      }
    }

    /** An intact table passes HASH_FSCK. */
    method FsckIntact(ghost t: Table) returns (ok: bool)
      requires head != null ==> t.Table? && Shape(t) && Intact(t)
      ensures ok
    {
      if head != null {
        IntactIsConsistent(t);
      }
      ok := Fsck(if head != null then t.chains else [], if head != null then t.order else [], repr);
    }

    /** A valid table passes HASH_FSCK. */
    method FsckValid() returns (ok: bool)
      requires Valid()
      ensures ok
    {
      ok := FsckIntact(abs);
    }

    /** After HASH_ADD the chains and their counts are right, so HASH_FSCK accepts if and only if the
        application order still holds every element. */
    lemma ListedExactly(r: Table, list: seq<Handle>)
      requires r.Table? && Shape(r) && BucketsView(r) && CountersView(r) && Sum(Lens(r.chains)) == numItems
      requires ListView(list)
      ensures head != null && Traversable(r.chains, list, repr)
      ensures Consistent(r.chains, list, repr) <==> |list| == numItems
    {
      forall j | 0 <= j < |r.chains|
        ensures ForwardChain(buckets[j], r.chains[j], repr) && SoundChain(buckets[j], r.chains[j], repr)
      {
        assert Headed(buckets[j], r.chains[j], repr);
      }
      assert Walkable(list) && PrevLinked(list);
    }

    // ----- HASH_SELECT

    /** dst during HASH_SELECT: intact, but tail stays at the first element and the filter empty. */
    ghost predicate Selecting(t: Table, last: Handle?)
      requires Shape(t)
      reads this`head, this`tail, this`buckets, this`numBuckets, this`log2NumBuckets, this`numItems,
            this`idealChainMaxlen, this`nonidealItems, this`ineffExpands, this`noexpand, this`bloomBv,
            this`repr, buckets, bloomBv, repr
    {
      if t.NoTable? then head == null && last == null && repr == {}
      else
        && Intact(t) && tail == head && last == t.order[|t.order| - 1]
        && FilterView(t) && t.filter == {}
    }

    /** Link a selected handle behind the last one, creating the table if need be (uthash.h:859-867). */
    method SelectLink(d: Handle, last: Handle?, ghost t: Table, ghost t0: Table)
      requires Shape(t) && Selecting(t, last) && d !in Elements(t)
      requires t0 == if t.NoTable? then MakeTable() else t
      modifies this, d, repr
      ensures abs == old(abs) && forall x | x in old(repr) :: x.hashv == old(x.hashv) && x.keylen == old(x.keylen)
      ensures d.hashv == old(d.hashv) && d.keylen == old(d.keylen)
      ensures repr == old(repr) + {d} && HeadedOrder(t0.order + [d]) && tail == head && numItems == |t0.order|
      ensures BucketsView(t0) && CountersView(t0) && FilterView(t0)
      ensures buckets == old(buckets) || fresh(buckets)
      ensures bloomBv == old(bloomBv) || fresh(bloomBv)
    {
      hide *;
      OpenSelecting(t, last);
      ghost var all, order := repr, Elements(t);
      if head != null {
        OpenBuckets(t0);
      }
      LinkBehind(d, last, order);
      repr := repr + {d};
      if head == null {
        head := d;
        MakeHashTable();
      } else {
        CloseBuckets(t0, all);
      }
      CloseHeaded(order, d);
    }

    lemma OpenSelecting(t: Table, last: Handle?)
      requires Shape(t) && Selecting(t, last)
      ensures AppLinked(Elements(t)) && last == At(Elements(t), |Elements(t)| - 1)
      ensures forall i :: 0 <= i < |Elements(t)| ==> Elements(t)[i] in repr
      ensures t.NoTable? ==> head == null && repr == {} && Elements(t) == MakeTable().order == []
      ensures t.Table? ==>
        && head != null && Elements(t) == t.order != [] && head == tail == t.order[0] && numItems == |t.order|
        && BucketsView(t) && CountersView(t) && FilterView(t)
    {
    }

    lemma CloseHeaded(s: seq<Handle>, d: Handle)
      requires AppLinked(s + [d]) && d in repr && forall i :: 0 <= i < |s| ==> s[i] in repr
      requires head == if s == [] then d else s[0]
      ensures HeadedOrder(s + [d])
    {
    }

    /** Put a selected handle into its bucket, and count it (uthash.h:868-870). */
    method SelectEnter(d: Handle, ghost t: Table) returns (ghost r: Table)
      requires t.Table? && Shape(t) && Placed(cfg, t) && d !in t.order && d in repr && t.filter == {}
      requires BucketsView(t) && CountersView(t) && FilterView(t) && HandlesView() && numItems == |t.order|
      requires HeadedOrder(t.order + [d])
      modifies this, buckets, repr
      ensures abs == old(abs) && repr == old(repr) && head == old(head) && tail == old(tail) && bloomBv == old(bloomBv)
      ensures HeadedOrder(t.order + [d]) && HandlesView()
      ensures r == InsertCounting(cfg, t, d, |t.order|)
      ensures r.Table? && Shape(r) && Placed(cfg, r) && r.order == t.order + [d] && r.filter == {}
      ensures BucketsView(r) && CountersView(r) && FilterView(r) && numItems == |r.order|
      ensures buckets == old(buckets) || fresh(buckets)
    {
      hide *;
      r := InsertCounting(cfg, t, d, numItems);
      TableLaws.InsertCountingPlaced(cfg, t, d, numItems);
      BucketPlan(d, t);
      KnownHash(d);
      OpenFilter(t);
      var bkt := BitAnd(d.hashv, numBuckets - 1);
      AddToBkt(bkt, d, t);
      numItems := numItems + 1;
      CloseFilter(t, r);
    }

    lemma KnownHash(d: Handle)
      requires HandlesView() && d in repr
      ensures d.hashv == cfg.hash(d.key)
    {
    }

    lemma OpenFilter(t: Table)
      requires t.Table? && FilterView(t)
      ensures (buckets as object) != bloomBv
      ensures cfg.bloom.Some? ==>
        bloomBv.Length == Bloom.ByteLength(cfg.bloom.value) && Bloom.Holds(bloomBv, t.filter)
    {
    }

    lemma CloseFilter(t: Table, r: Table)
      requires t.Table? && r.Table? && r.filter == t.filter && (buckets as object) != bloomBv
      requires cfg.bloom.Some? ==>
        bloomBv.Length == Bloom.ByteLength(cfg.bloom.value) && Bloom.Holds(bloomBv, t.filter)
      ensures FilterView(r)
    {
    }

    /** Take one element into dst (uthash.h:855-872). */
    method SelectOne(h: Handle, d: Handle, last: Handle?, ghost t: Table)
      returns (ghost r: Table)
      requires Shape(t) && Selecting(t, last) && d !in Elements(t)
      requires d.key == h.key && h.keylen == |h.key| && h.hashv == cfg.hash(h.key)
      modifies this, buckets, bloomBv, repr, d
      ensures abs == old(abs)
      ensures Shape(r) && Selecting(r, d) && Elements(r) == Elements(t) + [d] && repr == old(repr) + {d}
      ensures r == SelectStep(cfg, t, d)
      ensures buckets == old(buckets) || fresh(buckets)
      ensures bloomBv == old(bloomBv) || fresh(bloomBv)
    {
      hide Placed, Links, Counts, AppLinked, Bloom.Holds;
      d.keylen := h.keylen;
      d.hashv := h.hashv;
      ghost var t0 := if t.NoTable? then MakeTable() else t;
      TableLaws.MakeTableFits(cfg);
      SelectLink(d, last, t, t0);
      r := SelectEnter(d, t0);
    }

    /** dst shares nothing with src, and all its handles are twins. */
    ghost predicate Separate(src: Hash, twins: set<Handle>)
      reads this`buckets, this`bloomBv, this`repr, src`buckets, src`bloomBv, src`repr
    {
      && this != src && twins !! src.repr && repr <= twins
      && buckets != src.buckets && (buckets as object) != src.bloomBv
      && bloomBv != src.bloomBv && (bloomBv as object) != src.buckets
    }

    /** The first p elements of all were looked at, and dst holds the twins of those that satisfy cond. */
    ghost predicate Picking(twin: Handle -> Handle, cond: Handle -> bool, all: seq<Handle>, p: nat, t: Table,
                            last: Handle?)
      reads this`head, this`tail, this`buckets, this`numBuckets, this`log2NumBuckets, this`numItems,
            this`idealChainMaxlen, this`nonidealItems, this`ineffExpands, this`noexpand, this`bloomBv,
            this`repr, buckets, bloomBv, repr
    {
      && Shape(t) && Selecting(t, last) && p <= |all|
      && Elements(t) == Map(twin, Filter(cond, all[..p])) && t == Selected(cfg, Map(twin, Filter(cond, all[..p])))
    }

    /** One turn of HASH_SELECT's inner loop (uthash.h:853-873). */
    method SelectTurn(src: Hash, twin: Handle -> Handle, cond: Handle -> bool, h: Handle, last0: Handle?,
                      ghost t0: Table, ghost all: seq<Handle>, ghost p: nat, ghost twins: set<Handle>)
      returns (last: Handle?, ghost t: Table)
      requires Separate(src, twins) && Picking(twin, cond, all, p, t0, last0)
      requires p < |all| && all[p] == h && Twinned(twin, all, twins) && h.key == twin(h).key
      requires h.keylen == |h.key| && h.hashv == cfg.hash(h.key)
      modifies this, buckets, bloomBv, twins
      ensures abs == old(abs)
      ensures Separate(src, twins) && Picking(twin, cond, all, p + 1, t, last)
      ensures buckets == old(buckets) || fresh(buckets)
      ensures bloomBv == old(bloomBv) || fresh(bloomBv)
    {
      hide *;
      OpenPicking(src, twin, cond, all, p, t0, last0, twins);
      last, t := last0, t0;
      if cond(h) {
        var d := twin(h);
        t := SelectOne(h, d, last, t);
        last := d;
      }
      ClosePicking(src, twin, cond, all, p, t0, t, last, twins);
    }

    lemma OpenPicking(src: Hash, twin: Handle -> Handle, cond: Handle -> bool, all: seq<Handle>, p: nat, t: Table,
                      last: Handle?, twins: set<Handle>)
      requires Picking(twin, cond, all, p, t, last) && p < |all| && Twinned(twin, all, twins) && Separate(src, twins)
      ensures Shape(t) && Selecting(t, last) && Elements(t) == Map(twin, Filter(cond, all[..p]))
      ensures t == Selected(cfg, Map(twin, Filter(cond, all[..p])))
      ensures twin(all[p]) in twins && twin(all[p]) !in Elements(t)
      ensures this != src && twins !! src.repr && repr <= twins
      ensures buckets != src.buckets && (buckets as object) != src.bloomBv
      ensures bloomBv != src.bloomBv && (bloomBv as object) != src.buckets
    {
      PickOne(twin, cond, all, p, twins);
    }

    lemma ClosePicking(src: Hash, twin: Handle -> Handle, cond: Handle -> bool, all: seq<Handle>, p: nat, t0: Table,
                       t: Table, last: Handle?, twins: set<Handle>)
      requires p < |all| && Twinned(twin, all, twins) && Elements(t0) == Map(twin, Filter(cond, all[..p]))
      requires Shape(t0) && t0 == Selected(cfg, Map(twin, Filter(cond, all[..p])))
      requires t == if cond(all[p]) then SelectStep(cfg, t0, twin(all[p])) else t0
      requires Shape(t) && Selecting(t, last)
      requires Elements(t) == if cond(all[p]) then Elements(t0) + [twin(all[p])] else Elements(t0)
      requires this != src && twins !! src.repr && repr <= twins
      requires buckets != src.buckets && (buckets as object) != src.bloomBv
      requires bloomBv != src.bloomBv && (bloomBv as object) != src.buckets
      ensures Picking(twin, cond, all, p + 1, t, last) && Separate(src, twins)
    {
      hide Selecting, SelectStep, Filter;
      PickOne(twin, cond, all, p, twins);
      SelectedMore(cfg, Map(twin, Filter(cond, all[..p])), twin(all[p]));
    }

    /** What src's fields say about the k-th element of chain i. */
    lemma ChainFacts(i: nat, k: nat)
      requires Valid() && abs.Table? && i < |abs.chains| && k <= |abs.chains[i]|
      ensures i < buckets.Length == numBuckets == |abs.chains| && buckets[i].hhHead == At(abs.chains[i], 0)
      ensures k < |abs.chains[i]| ==>
        var h := abs.chains[i][k];
        h in repr && h.hhNext == At(abs.chains[i], k + 1) && h.hashv == cfg.hash(h.key) && h.keylen == |h.key|
    {
      var c := abs.chains[i];
      assert Headed(buckets[i], c, repr);
      if k < |c| {
        assert c[k].hhNext == At(c, k + 1);
      }
    }

    /** dst has the hash function of src, and a handle's twin carries the same key. */
    ghost predicate Compatible(src: Hash, twin: Handle -> Handle)
      reads src`repr
    {
      (forall k: Key :: cfg.hash(k) == src.cfg.hash(k)) && forall h | h in src.repr :: twin(h).key == h.key
    }

    /** The chains hold each element of the table once. */
    lemma ChainsFlat()
      requires Valid() && abs.Table?
      ensures Distinct(Flatten<Handle>(abs.chains)) && Over(Flatten<Handle>(abs.chains), repr)
    {
      TableRuns.ChainsHoldAll(cfg, abs);
      var all := Flatten<Handle>(abs.chains);
      forall i | 0 <= i < |all|
        ensures all[i] in repr
      {
        assert all[i] in abs.order;
      }
    }

    /** HASH_SELECT's inner loop over bucket i of src (uthash.h:850-874). */
    method SelectBucket(src: Hash, i: nat, twin: Handle -> Handle, cond: Handle -> bool, last0: Handle?,
                        ghost t0: Table, ghost all: seq<Handle>, ghost twins: set<Handle>)
      returns (last: Handle?, ghost t: Table)
      requires src.Valid() && src.abs.Table? && i < |src.abs.chains| && all == Flatten<Handle>(src.abs.chains)
      requires Separate(src, twins) && Twinned(twin, all, twins) && Compatible(src, twin)
      requires Picking(twin, cond, all, |Flatten<Handle>(src.abs.chains[..i])|, t0, last0)
      modifies this, buckets, bloomBv, twins
      ensures abs == old(abs)
      ensures src.Valid() && Separate(src, twins)
      ensures Picking(twin, cond, all, |Flatten<Handle>(src.abs.chains[..i + 1])|, t, last)
      ensures buckets == old(buckets) || fresh(buckets)
      ensures bloomBv == old(bloomBv) || fresh(bloomBv)
    {
      hide Valid, Picking, Flatten, Twinned;
      ghost var c, k, p := src.abs.chains[i], 0, |Flatten<Handle>(src.abs.chains[..i])|;
      FlattenNext(src.abs.chains, i);
      src.ChainFacts(i, 0);
      var thh := src.buckets[i].hhHead;
      last, t := last0, t0;
      while thh != null
        invariant k <= |c| && thh == At(c, k) && abs == old(abs) && src.Valid() && Separate(src, twins)
        invariant Picking(twin, cond, all, p + k, t, last)
        invariant buckets == old(buckets) || fresh(buckets)
        invariant bloomBv == old(bloomBv) || fresh(bloomBv)
        decreases |c| - k
      {
        src.ChainFacts(i, k);
        FlattenAt(src.abs.chains, i, k);
        last, t := SelectTurn(src, twin, cond, thh, last, t, all, p + k, twins);
        src.ChainFacts(i, k);
        thh := thh.hhNext;
        k := k + 1;
      }
    }

    /** The outer loop of HASH_SELECT (uthash.h:849-875). */
    method SelectAll(src: Hash, twin: Handle -> Handle, cond: Handle -> bool,
                     ghost all: seq<Handle>, ghost twins: set<Handle>)
      returns (ghost last: Handle?, ghost t: Table)
      requires src.Valid() && src.abs.Table? && all == Flatten<Handle>(src.abs.chains)
      requires Separate(src, twins) && Twinned(twin, all, twins) && Compatible(src, twin)
      requires Picking(twin, cond, all, 0, NoTable, null)
      modifies this, buckets, bloomBv, twins
      ensures abs == old(abs)
      ensures src.Valid() && Picking(twin, cond, all, |all|, t, last)
    {
      hide Valid, Picking, Twinned;
      var end: Handle?;
      end, t := null, NoTable;
      ghost var chains := src.abs.chains;
      src.ChainCount();
      assert chains[..0] == [] && Flatten(chains[..0]) == [];
      for i := 0 to src.numBuckets
        invariant abs == old(abs) && src.Valid() && Separate(src, twins)
        invariant Picking(twin, cond, all, |Flatten(chains[..i])|, t, end)
        invariant buckets == old(buckets) || fresh(buckets)
        invariant bloomBv == old(bloomBv) || fresh(bloomBv)
      {
        end, t := SelectBucket(src, i, twin, cond, end, t, all, twins);
      }
      assert chains[..|chains|] == chains;
      last := end;
    }

    lemma ChainCount()
      requires Valid() && abs.Table?
      ensures numBuckets == |abs.chains|
    {
    }

    /** HASH_SELECT into an empty dst, this table (uthash.h:842-878). The twins of the src elements that
        satisfy cond are in dst, in src's bucket order; src is untouched, and dst passes HASH_FSCK. But
        tail stays at the first element, and the filter stays empty. */
    method SelectFrom(src: Hash, twin: Handle -> Handle, cond: Handle -> bool, ghost twins: set<Handle>)
      returns (ghost t: Table)
      requires Valid() && abs.NoTable? && src.Valid() && Separate(src, twins) && Compatible(src, twin)
      requires forall h | h in src.repr :: twin(h) in twins
      requires forall g, h | g in src.repr && h in src.repr && g != h :: twin(g) != twin(h)
      modifies this, buckets, bloomBv, twins
      ensures abs == old(abs)
      ensures src.Valid() && Shape(t)
      ensures Elements(t) == if src.abs.NoTable? then [] else Map(twin, Filter(cond, Flatten<Handle>(src.abs.chains)))
      ensures t == Selected(cfg, Elements(t))
      ensures Readable(t) && (t.Table? ==> t.filter == {})
      ensures if t.Table? then tail == head else repr == {}
      ensures t.Table? ==> (ListView(t.order) <==> |t.order| == 1)
    {
      t := NoTable;
      if src.head != null {
        ghost var all, last := Flatten<Handle>(src.abs.chains), null;
        src.ChainsFlat();
        assert Twinned(twin, all, twins);
        assert all[..0] == [] && all[..|all|] == all;
        last, t := SelectAll(src, twin, cond, all, twins);
        SelectionDone(twin, cond, all, t, last);
      }
    }

    /** HASH_ADD, with the HASH_FSCK at its end, on a table that HASH_SELECT left (uthash.h:150-173). The
        element is linked behind the first selected one, so that all others fall out of the application
        order: HASH_FSCK accepts if and only if at most one element had been selected. */
    method AddToSelection(h: Handle, ghost t: Table) returns (ok: bool)
      requires Shape(t) && Readable(t) && (if t.Table? then tail == head else repr == {}) && h !in Elements(t)
      modifies this, buckets, bloomBv, repr, h
      ensures numItems == |Elements(t)| + 1
      ensures ListView(if t.NoTable? then [h] else [t.order[0], h])
      ensures ok <==> |Elements(t)| <= 1
    {
      hide *;
      FirstIsTail(t);
      ghost var r := AddAt(h, t, 0);
      PlacedSum(cfg, r);
      ghost var list := if t.NoTable? then [h] else [t.order[0], h];
      BehindFirst(Elements(t), h);
      ListedExactly(r, list);
      ok := Fsck(r.chains, list, repr);
    }

    lemma FirstIsTail(t: Table)
      requires Shape(t) && Readable(t) && (if t.Table? then tail == head else repr == {})
      ensures Addable(t, 0) && (t.NoTable? <==> Elements(t) == []) && (t.Table? ==> Elements(t) == t.order)
    {
    }

    /** The end of a selection; tail is where HASH_ADD needs it only if one element was selected. */
    lemma SelectionDone(twin: Handle -> Handle, cond: Handle -> bool, all: seq<Handle>, t: Table, last: Handle?)
      requires Picking(twin, cond, all, |all|, t, last)
      ensures Shape(t) && Elements(t) == Map(twin, Filter(cond, all)) && t == Selected(cfg, Elements(t))
      ensures Readable(t) && (t.Table? ==> t.filter == {})
      ensures if t.Table? then tail == head else repr == {}
      ensures t.Table? ==> (ListView(t.order) <==> |t.order| == 1)
    {
      assert all[..|all|] == all;
      if t.Table? {
        assert |t.order| > 1 ==> t.order[0] != t.order[|t.order| - 1];
      }
    }

    // ----- HASH_ITER

    lemma ListFacts()
      requires Valid()
      ensures head == At(Elements(abs), 0) && Distinct(Elements(abs)) && AppLinked(Elements(abs))
    {
    }

    /** The element after el in application order, null after null (the comma expression of HASH_ITER). */
    static method Follow(el: Handle?, ghost order: seq<Handle>, ghost i: nat) returns (r: Handle?)
      requires AppLinked(order) && el == At(order, i)
      ensures r == At(order, i + 1)
    {
      r := if el != null then el.next else null;
    }

    /** The loop body: delete the current element if cond says so. */
    method DeleteIf(cond: Handle -> bool, el: Handle)
      requires Valid() && el in Elements(abs)
      modifies this, buckets, repr
      ensures Valid() && repr <= old(repr) && buckets == old(buckets)
      ensures Elements(abs) == if cond(el) then Without(old(Elements(abs)), el) else old(Elements(abs))
    {
      hide Valid, Elements;
      if cond(el) {
        Delete(el);
      }
    }

    /** One turn of the loop: el0 may go, and the saved successor, k-th afterwards, comes next. */
    method IterTurn(cond: Handle -> bool, el0: Handle, tmp0: Handle?, ghost all: seq<Handle>, ghost k: nat)
      returns (el: Handle?, tmp: Handle?)
      requires Valid() && Elements(abs) == all && el0 in all
      requires var all' := if cond(el0) then Without(all, el0) else all;
        At(all', k) == tmp0
      modifies this, buckets, repr
      ensures Valid() && repr <= old(repr) && buckets == old(buckets)
      ensures Elements(abs) == if cond(el0) then Without(all, el0) else all
      ensures el == tmp0 && tmp == At(Elements(abs), k + 1)
    {
      hide Valid, Elements, AppLinked, Distinct, At;
      DeleteIf(cond, el0);
      ListFacts();
      el := tmp0;
      tmp := Follow(el, Elements(abs), k);
    }

    /** One turn in terms of the iteration's state. */
    method IterOnce(cond: Handle -> bool, el0: Handle, tmp0: Handle?, ghost s: seq<Handle>, ghost visited: seq<Handle>)
      returns (el: Handle?, tmp: Handle?)
      requires Valid() && Iterating(cond, s, Elements(abs), visited, el0, tmp0)
      modifies this, buckets, repr
      ensures Valid() && repr <= old(repr) && buckets == old(buckets) && |visited| < |s|
      ensures Iterating(cond, s, Elements(abs), visited + [el0], el, tmp)
    {
      hide *;
      ListFacts();
      IterPlan(cond, s, Elements(abs), visited, el0, tmp0);
      el, tmp := IterTurn(cond, el0, tmp0, Elements(abs), |Filter(Not<Handle>(cond), visited + [el0])|);
    }

    /** A HASH_ITER loop (uthash.h:895-897) whose body deletes the current element when cond says so. */
    method IterDelete(cond: Handle -> bool) returns (visited: seq<Handle>)
      requires Valid()
      modifies this, buckets, repr
      ensures Valid() && visited == old(Elements(abs))
      ensures Elements(abs) == Filter(Not<Handle>(cond), old(Elements(abs)))
      ensures head == null <==> forall h | h in visited :: cond(h)
    {
      ghost var s := Elements(abs);
      ListFacts();
      IterStart(cond, s);
      hide *;
      visited := [];
      var el := head;
      var tmp := Follow(el, s, 0);
      while el != null
        invariant Valid() && repr <= old(repr) && buckets == old(buckets) && |visited| <= |s|
        invariant Iterating(cond, s, Elements(abs), visited, el, tmp)
        decreases |s| - |visited|
      {
        var current: Handle := el;
        el, tmp := IterOnce(cond, current, tmp, s, visited);
        visited := visited + [current];
      }
      IterEnd(cond, s, Elements(abs), visited, tmp);
      ListFacts();
    }
  }

  /** The state of an iteration over s: all holds what was kept of the visited elements, then the
      rest of s, which starts with el and tmp. */
  ghost predicate Iterating(cond: Handle -> bool, s: seq<Handle>, all: seq<Handle>, visited: seq<Handle>,
                            el: Handle?, tmp: Handle?) {
    && visited <= s && all == Filter(Not<Handle>(cond), visited) + s[|visited|..]
    && el == At(s, |visited|) && tmp == At(s, |visited| + 1)
  }

  lemma IterStart(cond: Handle -> bool, s: seq<Handle>)
    ensures Iterating(cond, s, s, [], At(s, 0), At(s, 1))
  {
    assert s[0..] == s;
  }

  lemma IterPlan(cond: Handle -> bool, s: seq<Handle>, all: seq<Handle>, visited: seq<Handle>, el: Handle, tmp: Handle?)
    requires Iterating(cond, s, all, visited, el, tmp) && Distinct(all)
    ensures el in all && |visited| < |s|
    ensures var all' := if cond(el) then Without(all, el) else all;
      var k := |Filter(Not<Handle>(cond), visited + [el])|;
      At(all', k) == tmp && Iterating(cond, s, all', visited + [el], tmp, At(all', k + 1))
  {
    hide *;
    OpenIter(cond, s, all, visited, el, tmp);
    var rest := s[|visited|..];
    IterStep(cond, visited, rest, all);
    RestOf(Filter(Not<Handle>(cond), visited + [el]), rest);
    CloseIter(cond, s, if cond(el) then Without(all, el) else all, visited, el);
  }

  lemma OpenIter(cond: Handle -> bool, s: seq<Handle>, all: seq<Handle>, visited: seq<Handle>, el: Handle, tmp: Handle?)
    requires Iterating(cond, s, all, visited, el, tmp)
    ensures |visited| < |s| && visited == s[..|visited|] && el == s[|visited|]
    ensures var rest := s[|visited|..];
      && rest != [] && rest[0] == el && tmp == At(rest, 1)
      && all == Filter(Not<Handle>(cond), visited) + rest
  {
  }

  lemma CloseIter(cond: Handle -> bool, s: seq<Handle>, all: seq<Handle>, visited: seq<Handle>, el: Handle)
    requires |visited| < |s| && visited == s[..|visited|] && el == s[|visited|]
    requires all == Filter(Not<Handle>(cond), visited + [el]) + s[|visited|..][1..]
    ensures Iterating(cond, s, all, visited + [el], At(s[|visited|..], 1), At(s[|visited|..][1..], 1))
  {
    var n := |visited|;
    assert s[n..][1..] == s[n + 1..] && s[..n] + [s[n]] == s[..n + 1];
  }

  lemma IterEnd(cond: Handle -> bool, s: seq<Handle>, all: seq<Handle>, visited: seq<Handle>, tmp: Handle?)
    requires Iterating(cond, s, all, visited, null, tmp)
    ensures visited == s && all == Filter(Not<Handle>(cond), s)
    ensures At(all, 0) == null <==> forall h | h in s :: cond(h)
  {
    FilterEmpty(cond, s);
  }

  /** What one turn of a deleting iteration does to the kept elements. */
  lemma IterStep(cond: Handle -> bool, visited: seq<Handle>, rest: seq<Handle>, all: seq<Handle>)
    requires rest != [] && all == Filter(Not<Handle>(cond), visited) + rest && Distinct(all)
    ensures rest[0] in all && visited + rest == visited + [rest[0]] + rest[1..]
    ensures Filter(Not<Handle>(cond), visited + [rest[0]]) + rest[1..] ==
            if cond(rest[0]) then Without(all, rest[0]) else all
  {
    var keep := Not<Handle>(cond);
    var kept := Filter(keep, visited);
    FilterAppend(keep, visited, [rest[0]]);
    WithoutHead(kept, rest);
    if keep(rest[0]) {
      assert Filter(keep, [rest[0]]) == [rest[0]];
      assert kept + [rest[0]] + rest[1..] == kept + rest;
    } else {
      assert Filter(keep, [rest[0]]) == [];
      assert kept + [] == kept;
    }
  }

  /** Positions in the rest of an iteration. */
  lemma RestOf(kept: seq<Handle>, rest: seq<Handle>)
    requires rest != []
    ensures At(rest[1..], 0) == At(rest, 1) == At(kept + rest[1..], |kept|)
    ensures At(rest[1..], 1) == At(kept + rest[1..], |kept| + 1)
  {
  }

  lemma FilterEmpty(cond: Handle -> bool, s: seq<Handle>)
    ensures Filter(Not<Handle>(cond), s) == [] <==> forall h | h in s :: cond(h)
  {
    forall h | h in s
      ensures h in Filter(Not<Handle>(cond), s) <==> !cond(h)
    {
      FilterIn(Not<Handle>(cond), s, h);
    }
    if forall h | h in s :: cond(h) {
      FilterNone(Not<Handle>(cond), s);
    }
  }

  /** Where d sits, and what HASH_DELETE makes of the abstract table. */
  lemma DeletePlan(cfg: Config, t: Table, d: Handle) returns (k: nat, j: nat, m: nat)
    requires Inv(cfg, t) && d in Elements(t)
    ensures t.Table? && Shape(t) && Distinct(t.order) && k < |t.order| && t.order[k] == d && ChainsApart(t.chains)
    ensures j < |t.chains| && j == BucketOf(cfg, d, |t.chains|)
    ensures Distinct(t.chains[j]) && m < |t.chains[j]| && t.chains[j][m] == d
    ensures Shape(TableSpec.Delete(cfg, t, d)) && |t.order| >= 1
    ensures |t.order| == 1 ==> TableSpec.Delete(cfg, t, d) == NoTable
    ensures |t.order| > 1 ==>
      var r := TableSpec.Delete(cfg, t, d);
      && r.Table? && r == t.(order := Drop(t.order, k), chains := t.chains[j := Drop(t.chains[j], m)])
      && d !in r.order && InNone(d, r.chains)
  {
    j := BucketOf(cfg, d, |t.chains|);
    k :| 0 <= k < |t.order| && t.order[k] == d;
    assert ChainPlaced(cfg, t, j);
    m :| 0 <= m < |t.chains[j]| && t.chains[j][m] == d;
    WithoutAt(t.order, k);
    WithoutAt(t.chains[j], m);
    PlacedBucketed(cfg, t);
    if |t.order| > 1 {
      WithoutIn(t.order, d, d);
      TableLaws.DeletePlaced(cfg, t, d);
      PlacedBucketed(cfg, TableSpec.Delete(cfg, t, d));
    }
  }

  /** twin is injective on all and maps it into twins: the address of the other hash handle of the
      same element. */
  ghost predicate Twinned(twin: Handle -> Handle, all: seq<Handle>, twins: set<Handle>) {
    && Distinct(all)
    && (forall i :: 0 <= i < |all| ==> twin(all[i]) in twins)
    && (forall i, j :: 0 <= i < j < |all| ==> twin(all[i]) != twin(all[j]))
  }

  lemma SelectedMore(cfg: Config, ds: seq<Handle>, d: Handle)
    ensures Selected(cfg, ds + [d]) == SelectStep(cfg, Selected(cfg, ds), d) && ds + [] == ds
  {
    hide SelectStep;
    assert (ds + [d])[..|ds|] == ds;
  }

  lemma PickOne(twin: Handle -> Handle, cond: Handle -> bool, all: seq<Handle>, p: nat, twins: set<Handle>)
    requires p < |all| && Twinned(twin, all, twins)
    ensures twin(all[p]) in twins && twin(all[p]) !in Map(twin, Filter(cond, all[..p]))
    ensures Map(twin, Filter(cond, all[..p + 1])) ==
            Map(twin, Filter(cond, all[..p])) + if cond(all[p]) then [twin(all[p])] else []
  {
    var h, picked := all[p], Filter(cond, all[..p]);
    assert all[..p + 1] == all[..p] + [h];
    FilterAppend(cond, all[..p], [h]);
    assert Filter(cond, [h]) == if cond(h) then [h] else [];
    forall i | 0 <= i < |picked|
      ensures twin(picked[i]) != twin(h)
    {
      FilterIn(cond, all[..p], picked[i]);
      assert picked[i] in all[..p];
      var j :| 0 <= j < p && all[j] == picked[i];
    }
  }

  /** Link d behind the last handle of a list (uthash.h:859-861). */
  method LinkBehind(d: Handle, last: Handle?, ghost order: seq<Handle>)
    requires AppLinked(order) && d !in order && last == At(order, |order| - 1)
    modifies d`prev, d`next, order`next
    ensures AppLinked(order + [d])
  {
    d.prev := last;
    d.next := null;
    if last != null {
      last.next := d;
    }
    ghost var s := order + [d];
    forall i | 0 <= i < |s|
      ensures s[i].prev == At(s, i - 1) && s[i].next == At(s, i + 1)
    {
      if i < |order| {
        assert s[i] == order[i] && old(order[i].prev) == At(order, i - 1) && old(order[i].next) == At(order, i + 1);
      }
    }
  }

  /** Patch up d's neighbours in the application order (uthash.h:209-219). */
  method SpliceApp(d: Handle, ghost k: nat, ghost s: seq<Handle>)
    requires AppLinked(s) && Distinct(s) && k < |s| && s[k] == d
    modifies s`prev, s`next
    ensures AppLinked(Drop(s, k))
  {
    assert d.prev == At(s, k - 1) && d.next == At(s, k + 1);
    if d.prev != null {
      d.prev.next := d.next;
    }
    if d.next != null {
      d.next.prev := d.prev;
    }
    forall m | 0 <= m < |s| && m != k
      ensures s[m].prev == At(s, if m == k + 1 then k - 1 else m - 1)
      ensures s[m].next == At(s, if m == k - 1 then k + 1 else m + 1)
    {
      assert old(s[m].prev) == At(s, m - 1) && old(s[m].next) == At(s, m + 1);
      assert s[m] != d;
    }
    SplicedOrder(s, k);
  }

  lemma SplicedOrder(s: seq<Handle>, k: nat)
    requires k < |s|
    requires forall m {:trigger s[m].prev} {:trigger s[m].next} :: 0 <= m < |s| && m != k ==>
      && s[m].prev == At(s, if m == k + 1 then k - 1 else m - 1)
      && s[m].next == At(s, if m == k - 1 then k + 1 else m + 1)
    ensures AppLinked(Drop(s, k))
  {
    hide Drop, At;
    forall i | 0 <= i < |s| - 1
      ensures Drop(s, k)[i].prev == At(Drop(s, k), i - 1) && Drop(s, k)[i].next == At(Drop(s, k), i + 1)
    {
      DropNeighbours(s, k, i);
    }
  }

  lemma OrderBothWays(s: seq<Handle>)
    requires Walkable(s)
    ensures AppLinked(s) <==> PrevLinked(s)
  {
  }

  lemma FilterIndexInRange(nbits: nat, hashv: nat)
    ensures FilterIndex(nbits, hashv) < Pow2(nbits)
    ensures Bloom.InRange(FilterIndex(nbits, hashv), Bloom.ByteLength(nbits))
  {
    ModAtMost(Pow2(nbits) - 1, 0x1_0000_0000);
    MaskBound(hashv, (Pow2(nbits) - 1) % 0x1_0000_0000);
    Bloom.IndexInRange(FilterIndex(nbits, hashv), nbits);
  }

  lemma ModAtMost(x: nat, m: nat)
    requires m > 0
    ensures x % m <= x
  {
  }
}
