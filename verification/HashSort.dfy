/** HASH_SRT: the in-place mergesort that relinks next and prev. */
module HashSort {
  import opened Seqs
  import opened Handles
  import opened Common
  import opened MergeSpec

  /** Merged output, not yet merged part of the left run, and the list from the right run on. */
  ghost predicate Parts(done: seq<Handle>, ps: seq<Handle>, qs: seq<Handle>) {
    && Distinct(done) && Distinct(ps) && Distinct(qs)
    && Apart(done, ps) && Apart(done, qs) && Apart(ps, qs)
  }

  /** done is the output list built so far: everything but the last next link is in place. */
  ghost predicate Output(done: seq<Handle>, list: Handle?, tail: Handle?)
    reads done`next, done`prev
  {
    NextLinked(done) && PrevLinked(done) && list == At(done, 0) && tail == At(done, |done| - 1)
  }

  lemma TakeLeft(done: seq<Handle>, ps: seq<Handle>, qs: seq<Handle>)
    requires Parts(done, ps, qs) && ps != []
    ensures Parts(done + [ps[0]], ps[1..], qs)
  {
  }

  lemma TakeRight(done: seq<Handle>, ps: seq<Handle>, qs: seq<Handle>)
    requires Parts(done, ps, qs) && qs != []
    ensures Parts(done + [qs[0]], ps, qs[1..])
  {
  }

  /** Link e, the head of either run, behind the current output (uthash.h:813-821). */
  method Emit(list: Handle?, tail: Handle?, e: Handle, ghost done: seq<Handle>, ghost ps: seq<Handle>,
              ghost qs: seq<Handle>, ghost all: set<Handle>)
    returns (list': Handle, tail': Handle)
    requires Output(done, list, tail) && Parts(done, ps, qs) && (e == At(ps, 0) || e == At(qs, 0))
    requires NextLinked(ps) && Walkable(qs)
    requires e in all && (tail != null ==> tail in all)
    modifies all`next, all`prev
    ensures Output(done + [e], list', tail') && NextLinked(ps) && Walkable(qs)
  {
    assert e in ps || e in qs;
    assert e !in done;
    if tail != null {
      tail.next := e;
      list' := list;
    } else {
      list' := e;
    }
    e.prev := tail;
    tail' := e;
  }

  /** The first up to `size` elements of s: a run. */
  ghost function Run(s: seq<Handle>, size: nat): seq<Handle> {
    s[..Min(size, |s|)]
  }

  lemma LeftStep(cmp: (Handle, Handle) -> int, done: seq<Handle>, ps: seq<Handle>, qs: seq<Handle>, size: nat)
    requires ps != []
    requires size == 0 || qs == [] || cmp(ps[0], qs[0]) <= 0
    ensures done + [ps[0]] + Merge(cmp, ps[1..], Run(qs, size)) == done + Merge(cmp, ps, Run(qs, size))
    ensures MergeCost(cmp, ps, Run(qs, size)) ==
            MergeCost(cmp, ps[1..], Run(qs, size)) + if size == 0 || qs == [] then 0 else 1
  {
    var r := Run(qs, size);
    assert Merge(cmp, ps, r) == [ps[0]] + Merge(cmp, ps[1..], r) by {
      if r == [] {
        assert Merge(cmp, ps[1..], r) == ps[1..];
      }
    }
    Associate(done, [ps[0]], Merge(cmp, ps[1..], r));
  }

  lemma RightStep(cmp: (Handle, Handle) -> int, done: seq<Handle>, ps: seq<Handle>, qs: seq<Handle>, size: nat)
    requires qs != [] && size > 0
    requires ps == [] || cmp(ps[0], qs[0]) > 0
    ensures done + [qs[0]] + Merge(cmp, ps, Run(qs[1..], size - 1)) == done + Merge(cmp, ps, Run(qs, size))
    ensures qs[1..][|Run(qs[1..], size - 1)|..] == qs[|Run(qs, size)|..]
    ensures MergeCost(cmp, ps, Run(qs, size)) ==
            MergeCost(cmp, ps, Run(qs[1..], size - 1)) + if ps == [] then 0 else 1
  {
    RunTail(qs, size);
    var r, r' := Run(qs, size), Run(qs[1..], size - 1);
    assert Merge(cmp, ps, r) == [qs[0]] + Merge(cmp, ps, r');
    Associate(done, [qs[0]], Merge(cmp, ps, r'));
  }

  lemma RunTail(qs: seq<Handle>, size: nat)
    requires qs != [] && size > 0
    ensures Run(qs, size) == [qs[0]] + Run(qs[1..], size - 1)
    ensures Run(qs, size)[1..] == Run(qs[1..], size - 1)
    ensures qs[1..][|Run(qs[1..], size - 1)|..] == qs[|Run(qs, size)|..]
  {
  }

  /** Take the next element from one of the two runs (uthash.h:785-812). */
  method Choose(cmp: (Handle, Handle) -> int, p: Handle?, psize: nat, q: Handle?, qsize: nat,
                ghost ps: seq<Handle>, ghost qs: seq<Handle>)
    returns (e: Handle, p': Handle?, psize': nat, q': Handle?, qsize': nat, ghost left: bool, ghost calls: nat)
    requires psize == |ps| && (ps != [] ==> p == ps[0]) && NextLinked(ps)
    requires Walkable(qs) && q == At(qs, 0)
    requires psize > 0 || (qsize > 0 && q != null)
    ensures left ==>
      && ps != [] && e == ps[0] && psize' == psize - 1 && (|ps| > 1 ==> p' == ps[1])
      && q' == q && qsize' == qsize && (qsize == 0 || qs == [] || cmp(ps[0], qs[0]) <= 0)
      && calls == if qsize == 0 || qs == [] then 0 else 1
    ensures !left ==>
      && qs != [] && qsize > 0 && e == qs[0] && q' == At(qs, 1) && qsize' == qsize - 1
      && p' == p && psize' == psize && (ps == [] || cmp(ps[0], qs[0]) > 0)
      && calls == if ps == [] then 0 else 1
  {
    p', psize', q', qsize', calls := p, psize, q, qsize, 0;
    if psize == 0 {
      e, q', qsize', left := q, q.next, qsize - 1, false;
    } else if qsize == 0 || q == null {
      e, p', psize', left := p, p.next, psize - 1, true;
    } else {
      var c := cmp(p, q);
      calls := 1;
      if c <= 0 {
        e, p', psize', left := p, p.next, psize - 1, true;
      } else {
        e, q', qsize', left := q, q.next, qsize - 1, false;
      }
    }
  }

  /** The state of a merge: the output so far, and the heads and sizes of both runs. */
  ghost predicate Merging(all: set<Handle>, done: seq<Handle>, ps: seq<Handle>, qs: seq<Handle>,
                          p: Handle?, psize: nat, q: Handle?, list: Handle?, tail: Handle?)
    reads all`next, all`prev
  {
    && Over(done, all) && Over(ps, all) && Over(qs, all)
    && psize == |ps| && (ps != [] ==> p == ps[0]) && NextLinked(ps)
    && Walkable(qs) && q == At(qs, 0)
    && Output(done, list, tail) && Parts(done, ps, qs)
  }

  /** The state after e = ps[0] was emitted. */
  lemma MergingLeft(all: set<Handle>, done: seq<Handle>, ps: seq<Handle>, qs: seq<Handle>,
                    p: Handle?, psize: nat, q: Handle?, list: Handle?, tail: Handle?)
    requires Parts(done, ps, qs) && Over(done, all) && Over(ps, all) && Over(qs, all)
    requires ps != [] && psize == |ps| - 1 && (|ps| > 1 ==> p == ps[1]) && NextLinked(ps)
    requires Walkable(qs) && q == At(qs, 0) && Output(done + [ps[0]], list, tail)
    ensures Merging(all, done + [ps[0]], ps[1..], qs, p, psize, q, list, tail)
  {
    TakeLeft(done, ps, qs);
  }

  /** The state after e = qs[0] was emitted. */
  lemma MergingRight(all: set<Handle>, done: seq<Handle>, ps: seq<Handle>, qs: seq<Handle>,
                     p: Handle?, psize: nat, q: Handle?, list: Handle?, tail: Handle?)
    requires Parts(done, ps, qs) && Over(done, all) && Over(ps, all) && Over(qs, all)
    requires psize == |ps| && (ps != [] ==> p == ps[0]) && NextLinked(ps)
    requires qs != [] && Walkable(qs) && q == At(qs, 1) && Output(done + [qs[0]], list, tail)
    ensures Merging(all, done + [qs[0]], ps, qs[1..], p, psize, q, list, tail)
  {
    TakeRight(done, ps, qs);
    WalkOn(qs);
  }

  lemma WalkOn(s: seq<Handle>)
    requires s != [] && Walkable(s)
    ensures Walkable(s[1..]) && At(s[1..], 0) == At(s, 1)
  {
  }

  /** One turn of the inner loop (uthash.h:785-821). */
  method MergeStep(cmp: (Handle, Handle) -> int, p0: Handle?, psize0: nat, q0: Handle?, qsize0: nat,
                   list0: Handle?, tail0: Handle?,
                   ghost all: set<Handle>, ghost done0: seq<Handle>, ghost ps0: seq<Handle>, ghost qs0: seq<Handle>)
    returns (p: Handle?, psize: nat, q: Handle?, qsize: nat, list: Handle?, tail: Handle?,
             ghost done: seq<Handle>, ghost ps: seq<Handle>, ghost qs: seq<Handle>, ghost calls: nat)
    requires Merging(all, done0, ps0, qs0, p0, psize0, q0, list0, tail0)
    requires psize0 > 0 || (qsize0 > 0 && q0 != null)
    modifies all`next, all`prev
    ensures Merging(all, done, ps, qs, p, psize, q, list, tail)
    ensures done + Merge(cmp, ps, Run(qs, qsize)) == done0 + Merge(cmp, ps0, Run(qs0, qsize0))
    ensures qs[|Run(qs, qsize)|..] == qs0[|Run(qs0, qsize0)|..]
    ensures calls + MergeCost(cmp, ps, Run(qs, qsize)) == MergeCost(cmp, ps0, Run(qs0, qsize0))
    ensures |ps| + |qs| < |ps0| + |qs0|
  {
    var e;
    ghost var left;
    e, p, psize, q, qsize, left, calls := Choose(cmp, p0, psize0, q0, qsize0, ps0, qs0);
    list, tail := Emit(list0, tail0, e, done0, ps0, qs0, all);
    done := done0 + [e];
    if left {
      LeftStep(cmp, done0, ps0, qs0, qsize0);
      MergingLeft(all, done0, ps0, qs0, p, psize, q, list, tail);
      ps, qs := ps0[1..], qs0;
    } else {
      RightStep(cmp, done0, ps0, qs0, qsize0);
      MergingRight(all, done0, ps0, qs0, p, psize, q, list, tail);
      ps, qs := ps0, qs0[1..];
    }
  }

  /** When the left run is used up and so is the right one, nothing is left to merge. */
  lemma RunsUsedUp(cmp: (Handle, Handle) -> int, done: seq<Handle>, qs: seq<Handle>, size: nat)
    requires size == 0 || qs == []
    ensures done + Merge(cmp, [], Run(qs, size)) == done
    ensures qs[|Run(qs, size)|..] == qs && MergeCost(cmp, [], Run(qs, size)) == 0
  {
    assert Run(qs, size) == [];
  }

  /** The inner loop (uthash.h:783-823): merge the left run, psize elements from p on, with the
      right run, at most insize elements from q on. */
  method MergeRuns(cmp: (Handle, Handle) -> int, p0: Handle?, psize0: nat, q0: Handle?, insize: nat,
                   list0: Handle?, tail0: Handle?,
                   ghost all: set<Handle>, ghost done0: seq<Handle>, ghost ps0: seq<Handle>, ghost qs0: seq<Handle>)
    returns (q: Handle?, list: Handle?, tail: Handle?,
             ghost done: seq<Handle>, ghost qs: seq<Handle>, ghost calls: nat)
    requires Merging(all, done0, ps0, qs0, p0, psize0, q0, list0, tail0)
    modifies all`next, all`prev
    ensures Merging(all, done, [], qs, null, 0, q, list, tail)
    ensures done == done0 + Merge(cmp, ps0, Run(qs0, insize))
    ensures qs == qs0[|Run(qs0, insize)|..]
    ensures calls == MergeCost(cmp, ps0, Run(qs0, insize))
  {
    ghost var goal, rest := done0 + Merge(cmp, ps0, Run(qs0, insize)), qs0[|Run(qs0, insize)|..];
    ghost var cost := MergeCost(cmp, ps0, Run(qs0, insize));
    var p, psize, qsize := p0, psize0, insize;
    ghost var ps := ps0;
    q, list, tail, done, qs, calls := q0, list0, tail0, done0, qs0, 0;
    while psize > 0 || (qsize > 0 && q != null)
      invariant Merging(all, done, ps, qs, p, psize, q, list, tail)
      invariant done + Merge(cmp, ps, Run(qs, qsize)) == goal
      invariant qs[|Run(qs, qsize)|..] == rest
      invariant calls + MergeCost(cmp, ps, Run(qs, qsize)) == cost
      decreases |ps| + |qs|
    {
      ghost var c;
      p, psize, q, qsize, list, tail, done, ps, qs, c :=
        MergeStep(cmp, p, psize, q, qsize, list, tail, all, done, ps, qs);
      calls := calls + c;
    }
    RunsUsedUp(cmp, done, qs, qsize);
    assert ps == [];
  }

  /** Step over the left run (uthash.h:774-782). */
  method SkipRun(p: Handle, insize: nat, ghost s: seq<Handle>) returns (q: Handle?, psize: nat)
    requires s != [] && p == s[0] && Walkable(s) && insize > 0
    ensures psize == Min(insize, |s|) && q == At(s, psize)
  {
    q, psize := p, 0;
    var i := 0;
    while i < insize
      invariant i == psize <= insize && psize < |s| && q == s[psize]
    {
      psize := psize + 1;
      q := q.next;
      assert q == At(s, psize);
      if q == null {
        break;
      }
      i := i + 1;
    }
  }

  /** The state of a pass between two merges: the output so far and the list still to go. */
  ghost predicate Passing(all: set<Handle>, done: seq<Handle>, rest: seq<Handle>,
                          p: Handle?, list: Handle?, tail: Handle?)
    reads all`next, all`prev
  {
    Merging(all, done, [], rest, null, 0, p, list, tail)
  }

  lemma SplitRun(all: set<Handle>, done: seq<Handle>, rest: seq<Handle>, p: Handle?, list: Handle?, tail: Handle?,
                 psize: nat, q: Handle?)
    requires Passing(all, done, rest, p, list, tail) && 0 < psize <= |rest| && q == At(rest, psize)
    ensures Merging(all, done, rest[..psize], rest[psize..], p, psize, q, list, tail)
  {
    assert NextLinked(rest);
    var qs := rest[psize..];
    assert Walkable(qs) by {
      assert qs != [] ==> qs[|qs| - 1] == rest[|rest| - 1];
    }
  }

  lemma PassUnfold(cmp: (Handle, Handle) -> int, w: nat, done: seq<Handle>, rest: seq<Handle>)
    requires w > 0 && rest != []
    ensures var ps, qs := Run(rest, w), rest[|Run(rest, w)|..];
      && done + Merge(cmp, ps, Run(qs, w)) + Pass(cmp, w, qs[|Run(qs, w)|..]) == done + Pass(cmp, w, rest)
      && MergeCost(cmp, ps, Run(qs, w)) + PassCost(cmp, w, qs[|Run(qs, w)|..]) == PassCost(cmp, w, rest)
      && 1 + MergesIn(w, |qs[|Run(qs, w)|..]|) == MergesIn(w, |rest|)
  {
    var a, b := Min(w, |rest|), Min(2 * w, |rest|);
    var ps, qs := Run(rest, w), rest[|Run(rest, w)|..];
    var qr, rem := Run(qs, w), qs[|Run(qs, w)|..];
    assert qr == rest[a..b] && rem == rest[b..];
    assert Pass(cmp, w, rest) == Merge(cmp, ps, qr) + Pass(cmp, w, rem);
    Associate(done, Merge(cmp, ps, qr), Pass(cmp, w, rem));
  }

  /** One turn of the middle loop (uthash.h:773-823). */
  method PassStep(cmp: (Handle, Handle) -> int, insize: nat, p0: Handle, list0: Handle?, tail0: Handle?,
                  ghost all: set<Handle>, ghost done0: seq<Handle>, ghost rest0: seq<Handle>)
    returns (p: Handle?, list: Handle?, tail: Handle?,
             ghost done: seq<Handle>, ghost rest: seq<Handle>, ghost calls: nat)
    requires insize > 0 && Passing(all, done0, rest0, p0, list0, tail0)
    modifies all`next, all`prev
    ensures Passing(all, done, rest, p, list, tail) && done != []
    ensures done + Pass(cmp, insize, rest) == done0 + Pass(cmp, insize, rest0)
    ensures calls + PassCost(cmp, insize, rest) == PassCost(cmp, insize, rest0)
    ensures 1 + MergesIn(insize, |rest|) == MergesIn(insize, |rest0|)
    ensures |rest| < |rest0|
  {
    var q, psize := SkipRun(p0, insize, rest0);
    ghost var ps, qs := Run(rest0, insize), rest0[psize..];
    SplitRun(all, done0, rest0, p0, list0, tail0, psize, q);
    PassUnfold(cmp, insize, done0, rest0);
    p, list, tail, done, rest, calls := MergeRuns(cmp, p0, psize, q, insize, list0, tail0, all, done0, ps, qs);
  }

  /** One pass (uthash.h:768-825): runs of length insize are merged pairwise. */
  method OnePass(cmp: (Handle, Handle) -> int, insize: nat, p0: Handle, ghost s: seq<Handle>, ghost all: set<Handle>)
    returns (list: Handle, tail: Handle, nmerges: nat, ghost calls: nat)
    requires insize > 0 && s != [] && p0 == s[0]
    requires Over(s, all) && Distinct(s) && Walkable(s)
    modifies all`next, all`prev
    ensures var r := Pass(cmp, insize, s);
      AppLinked(r) && Distinct(r) && Over(r, all) && list == r[0] && tail == r[|r| - 1]
    ensures nmerges == MergesIn(insize, |s|) && calls == PassCost(cmp, insize, s)
  {
    hide *;
    var p: Handle?, l: Handle?, t: Handle? := p0, null, null;
    nmerges, calls := 0, 0;
    ghost var done: seq<Handle>, rest := [], s;
    PassStart(cmp, insize, s, all);
    while p != null
      invariant Passing(all, done, rest, p, l, t) && (done == [] ==> rest == s)
      invariant done + Pass(cmp, insize, rest) == Pass(cmp, insize, s)
      invariant nmerges + MergesIn(insize, |rest|) == MergesIn(insize, |s|)
      invariant calls + PassCost(cmp, insize, rest) == PassCost(cmp, insize, s)
      decreases |rest|
    {
      ghost var c;
      p, l, t, done, rest, c := PassStep(cmp, insize, p, l, t, all, done, rest);
      nmerges, calls := nmerges + 1, calls + c;
    }
    PassEnd(cmp, insize, s, all, done, rest, l, t);
    list, tail := Close(l, t, all, done);
  }

  lemma PassStart(cmp: (Handle, Handle) -> int, insize: nat, s: seq<Handle>, all: set<Handle>)
    requires insize > 0 && s != [] && Over(s, all) && Distinct(s) && Walkable(s)
    ensures Passing(all, [], s, s[0], null, null) && [] + Pass(cmp, insize, s) == Pass(cmp, insize, s)
  {
  }

  lemma PassEnd(cmp: (Handle, Handle) -> int, insize: nat, s: seq<Handle>, all: set<Handle>,
                done: seq<Handle>, rest: seq<Handle>, l: Handle?, t: Handle?)
    requires insize > 0 && s != [] && Passing(all, done, rest, null, l, t) && (done == [] ==> rest == s)
    requires done + Pass(cmp, insize, rest) == Pass(cmp, insize, s)
    ensures rest == [] && done != [] && done == Pass(cmp, insize, s)
    ensures Output(done, l, t) && Over(done, all) && Distinct(done)
    ensures MergesIn(insize, |rest|) == 0 && PassCost(cmp, insize, rest) == 0
  {
    assert rest == [];
    assert done + [] == done;
  }

  /** End the output list (uthash.h:825). */
  method Close(l: Handle?, t: Handle?, ghost all: set<Handle>, ghost done: seq<Handle>)
    returns (list: Handle, tail: Handle)
    requires done != [] && Output(done, l, t) && Over(done, all) && Distinct(done)
    modifies all`next
    ensures AppLinked(done) && list == done[0] && tail == done[|done| - 1]
  {
    list, tail := l, t;
    tail.next := null;
  }

  /** HASH_SRT (uthash.h:763-832): passes over runs of length 1, 2, 4, ... until a pass needs a
      single merge. The new head and tail are the ends of the sorted list. */
  method SortList(cmp: (Handle, Handle) -> int, head: Handle, ghost s: seq<Handle>, ghost all: set<Handle>)
    returns (newHead: Handle, newTail: Handle, ghost passes: nat, ghost calls: nat)
    requires s != [] && head == s[0] && AppLinked(s) && Distinct(s) && Over(s, all)
    modifies all`next, all`prev
    ensures var r := Sort(cmp, s);
      AppLinked(r) && Distinct(r) && Over(r, all) && newHead == r[0] && newTail == r[|r| - 1]
    ensures passes == PassesFrom(1, |s|) && calls == SortCost(cmp, 1, s)
  {
    hide *;
    var insize, looping := 1, true;
    ghost var cur := s;
    var list, tail := head, head;
    passes, calls := 0, 0;
    while looping
      invariant insize > 0 && cur != [] && |cur| == |s| && list == cur[0]
      invariant AppLinked(cur) && Distinct(cur) && Over(cur, all)
      invariant looping ==> SortFrom(cmp, insize, cur) == SortFrom(cmp, 1, s)
      invariant looping ==> passes + PassesFrom(insize, |s|) == PassesFrom(1, |s|)
      invariant looping ==> calls + SortCost(cmp, insize, cur) == SortCost(cmp, 1, s)
      invariant !looping ==> cur == SortFrom(cmp, 1, s) && tail == cur[|s| - 1]
      invariant !looping ==> passes == PassesFrom(1, |s|) && calls == SortCost(cmp, 1, s)
      decreases looping, |s| - insize
    {
      var nmerges;
      ghost var c;
      SortUnfold(cmp, insize, cur);
      list, tail, nmerges, c := OnePass(cmp, insize, list, cur, all);
      cur := Pass(cmp, insize, cur);
      passes, calls := passes + 1, calls + c;
      if nmerges <= 1 {
        looping := false;
      }
      insize := insize * 2;
    }
    newHead, newTail := list, tail;
    SortIsFromOne(cmp, s);
  }

  lemma SortIsFromOne(cmp: (Handle, Handle) -> int, s: seq<Handle>)
    ensures Sort(cmp, s) == SortFrom(cmp, 1, s) && |Sort(cmp, s)| == |s|
  {
  }

  /** What one pass does to the values that describe the whole sort. */
  lemma SortUnfold(cmp: (Handle, Handle) -> int, w: nat, cur: seq<Handle>)
    requires w > 0 && cur != [] && AppLinked(cur)
    ensures Walkable(cur) && |Pass(cmp, w, cur)| == |cur|
    ensures MergesIn(w, |cur|) <= 1 <==> |cur| <= 2 * w
    ensures var r, last := Pass(cmp, w, cur), |cur| <= 2 * w;
      && SortFrom(cmp, w, cur) == (if last then r else SortFrom(cmp, 2 * w, r))
      && SortCost(cmp, w, cur) == PassCost(cmp, w, cur) + (if last then 0 else SortCost(cmp, 2 * w, r))
      && PassesFrom(w, |cur|) == (if last then 1 else 1 + PassesFrom(2 * w, |cur|))
  {
    SingleMerge(w, |cur|);
  }

  /** The exit test "at most one merge" says that the two runs covered the whole list. */
  lemma SingleMerge(w: nat, n: nat)
    requires w > 0
    ensures MergesIn(w, n) <= 1 <==> n <= 2 * w
  {
    if n > 2 * w {
      assert MergesIn(w, n) == 1 + MergesIn(w, n - 2 * w);
    }
  }
}
