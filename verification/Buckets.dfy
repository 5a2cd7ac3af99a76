/** The bucket array (UT_hash_bucket) and the chains that hang off it. */
module Buckets {
  import opened Seqs
  import opened Handles

  datatype Bucket = Bucket(hhHead: Handle?, count: nat, expandMult: nat)

  const EMPTY_BUCKET := Bucket(null, 0, 0)

  /** Bucket j heads the doubly linked chain chains[j]; every link belongs to an element of all. */
  ghost predicate Links(a: array<Bucket>, chains: seq<seq<Handle>>, all: set<Handle>)
    reads a, all`hhPrev, all`hhNext
  {
    a.Length == |chains| && forall j :: 0 <= j < |chains| ==> Headed(a[j], chains[j], all)
  }

  ghost predicate Headed(b: Bucket, c: seq<Handle>, all: set<Handle>)
    reads all`hhPrev, all`hhNext
  {
    b.hhHead == At(c, 0) && Over(c, all) && ChainLinked(c)
  }

  /** The bucket's forward links alone lead through c, whose elements belong to all. */
  ghost predicate ForwardChain(b: Bucket, c: seq<Handle>, all: set<Handle>)
    reads all`hhNext
  {
    && b.hhHead == At(c, 0) && Over(c, all)
    && forall i {:trigger c[i].hhNext} :: 0 <= i < |c| ==> c[i].hhNext == At(c, i + 1)
  }

  /** The bucket's back links and count agree with c. */
  ghost predicate SoundChain(b: Bucket, c: seq<Handle>, all: set<Handle>)
    requires Over(c, all)
    reads all`hhPrev
  {
    b.count == |c| && forall i {:trigger c[i].hhPrev} :: 0 <= i < |c| ==> c[i].hhPrev == At(c, i - 1)
  }

  lemma ChainBothWays(b: Bucket, c: seq<Handle>, all: set<Handle>)
    requires ForwardChain(b, c, all)
    ensures SoundChain(b, c, all) <==> Headed(b, c, all) && b.count == |c|
  {
  }

  ghost predicate Counts(a: array<Bucket>, chains: seq<seq<Handle>>)
    reads a
  {
    a.Length == |chains| && forall j :: 0 <= j < |chains| ==> a[j].count == |chains[j]|
  }

  ghost predicate ChainsApart(chains: seq<seq<Handle>>) {
    forall i, j :: 0 <= i < |chains| && 0 <= j < |chains| && i != j ==> Apart(chains[i], chains[j])
  }

  ghost predicate InNone(h: Handle, chains: seq<seq<Handle>>) {
    forall j :: 0 <= j < |chains| ==> h !in chains[j]
  }

  /** A chain none of whose elements had a bucket link changed is still linked. */
  twostate lemma ChainUntouched(c: seq<Handle>)
    requires old(ChainLinked(c))
    requires forall i :: 0 <= i < |c| ==> c[i].hhPrev == old(c[i].hhPrev) && c[i].hhNext == old(c[i].hhNext)
    ensures ChainLinked(c)
  {
  }

  /** Put h in front of chain j (uthash.h:653-656, 732-736). */
  method LinkFront(a: array<Bucket>, j: nat, h: Handle, ghost chains: seq<seq<Handle>>, ghost all: set<Handle>)
    requires Links(a, chains, all) && ChainsApart(chains) && j < |chains|
    requires h in all && InNone(h, chains)
    modifies a, all`hhPrev, all`hhNext
    ensures Links(a, chains[j := [h] + chains[j]], all)
    ensures forall i :: 0 <= i < a.Length ==> a[i].count == old(a[i].count) && a[i].expandMult == old(a[i].expandMult)
    ensures forall x :: x in all && x != h ==> x.hhNext == old(x.hhNext)
  {
    ghost var c := chains[j];
    assert Headed(a[j], c, all);
    h.hhPrev := null;
    h.hhNext := a[j].hhHead;
    if a[j].hhHead != null {
      a[j].hhHead.hhPrev := h;
    }
    a[j] := a[j].(hhHead := h);
    forall i | 0 <= i < |chains| && i != j
      ensures Headed(a[i], chains[i], all)
    {
      assert old(Headed(a[i], chains[i], all));
      assert Apart(c, chains[i]);
      ChainUntouched(chains[i]);
    }
    ghost var d := [h] + c;
    forall i | 0 <= i < |d|
      ensures d[i].hhPrev == At(d, i - 1) && d[i].hhNext == At(d, i + 1)
    {
      if i > 0 {
        assert d[i] == c[i - 1] && c[i - 1] != h;
        assert old(c[i - 1].hhPrev) == At(c, i - 2) && old(c[i - 1].hhNext) == At(c, i);
      }
    }
    assert Headed(a[j], d, all);
  }

  /** Patch up h's neighbours in the chain (uthash.h:669-674). */
  method SpliceChain(h: Handle, ghost k: nat, ghost c: seq<Handle>)
    requires ChainLinked(c) && Distinct(c) && k < |c| && c[k] == h
    modifies c`hhPrev, c`hhNext
    ensures ChainLinked(Drop(c, k))
  {
    assert h.hhPrev == At(c, k - 1) && h.hhNext == At(c, k + 1);
    if h.hhPrev != null {
      h.hhPrev.hhNext := h.hhNext;
    }
    if h.hhNext != null {
      h.hhNext.hhPrev := h.hhPrev;
    }
    forall m | 0 <= m < |c| && m != k
      ensures c[m].hhPrev == At(c, if m == k + 1 then k - 1 else m - 1)
      ensures c[m].hhNext == At(c, if m == k - 1 then k + 1 else m + 1)
    {
      assert old(c[m].hhPrev) == At(c, m - 1) && old(c[m].hhNext) == At(c, m + 1);
      assert c[m] != h;
    }
    SplicedChain(c, k);
  }

  lemma SplicedChain(c: seq<Handle>, k: nat)
    requires k < |c|
    requires forall m {:trigger c[m].hhPrev} {:trigger c[m].hhNext} :: 0 <= m < |c| && m != k ==>
      && c[m].hhPrev == At(c, if m == k + 1 then k - 1 else m - 1)
      && c[m].hhNext == At(c, if m == k - 1 then k + 1 else m + 1)
    ensures ChainLinked(Drop(c, k))
  {
    hide Drop, At;
    forall i | 0 <= i < |c| - 1
      ensures Drop(c, k)[i].hhPrev == At(Drop(c, k), i - 1) && Drop(c, k)[i].hhNext == At(Drop(c, k), i + 1)
    {
      DropNeighbours(c, k, i);
    }
  }

  /** Take h, the k-th element of chain j, out of it (uthash.h:666-674). */
  method UnlinkChain(a: array<Bucket>, j: nat, h: Handle, ghost k: nat,
                     ghost chains: seq<seq<Handle>>, ghost all: set<Handle>)
    requires Links(a, chains, all) && ChainsApart(chains) && j < |chains| && Distinct(chains[j])
    requires k < |chains[j]| && chains[j][k] == h
    modifies a, all`hhPrev, all`hhNext
    ensures Links(a, chains[j := Drop(chains[j], k)], all)
    ensures forall i :: 0 <= i < a.Length ==> a[i].count == old(a[i].count) && a[i].expandMult == old(a[i].expandMult)
  {
    ghost var c := chains[j];
    assert Headed(a[j], c, all);
    assert h.hhNext == At(c, k + 1);
    if a[j].hhHead == h {
      a[j] := a[j].(hhHead := h.hhNext);
    }
    SpliceChain(h, k, c);
    forall i | 0 <= i < |chains| && i != j
      ensures Headed(a[i], chains[i], all)
    {
      assert old(Headed(a[i], chains[i], all));
      assert Apart(c, chains[i]);
      ChainUntouched(chains[i]);
    }
    assert Headed(a[j], Drop(c, k), all);
  }
}
