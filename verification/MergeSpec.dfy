/** The bottom-up mergesort of HASH_SRT on plain sequences, with what it is for: a sorted, stable
    permutation, reached after ceil(log2 n) passes. The pointer version refines these functions. */
module MergeSpec {
  import opened Bits
  import opened Common
  import opened Seqs

  predicate Le<T>(cmp: (T, T) -> int, x: T, y: T) {
    cmp(x, y) <= 0
  }

  /** The comparator is a total preorder on the elements of d. */
  ghost predicate TotalPreorderOn<T>(cmp: (T, T) -> int, d: set<T>) {
    && (forall x, y :: x in d && y in d ==> Le(cmp, x, y) || Le(cmp, y, x))
    && (forall x, y, z :: x in d && y in d && z in d && Le(cmp, x, y) && Le(cmp, y, z) ==> Le(cmp, x, z))
  }

  ghost predicate Sorted<T>(cmp: (T, T) -> int, s: seq<T>) {
    forall i, j :: 0 <= i < j < |s| ==> Le(cmp, s[i], s[j])
  }

  /** Being equal to g as far as the comparator can tell. */
  function Ties<T>(cmp: (T, T) -> int, g: T): T -> bool {
    x => Le(cmp, g, x) && Le(cmp, x, g)
  }

  /** The elements of s that tie with g, in the order in which s holds them. */
  function TiesIn<T>(cmp: (T, T) -> int, g: T, s: seq<T>): seq<T> {
    Filter(Ties(cmp, g), s)
  }

  /** Elements that tie keep their relative order. */
  ghost predicate SameTies<T>(cmp: (T, T) -> int, d: set<T>, s: seq<T>, t: seq<T>) {
    forall g :: g in d ==> TiesIn(cmp, g, s) == TiesIn(cmp, g, t)
  }

  function Merge<T>(cmp: (T, T) -> int, p: seq<T>, q: seq<T>): (r: seq<T>)
    ensures |r| == |p| + |q|
  {
    if p == [] then q
    else if q == [] then p
    else if cmp(p[0], q[0]) <= 0 then [p[0]] + Merge(cmp, p[1..], q)
    else [q[0]] + Merge(cmp, p, q[1..])
  }

  /** Comparator calls that Merge makes. */
  function MergeCost<T>(cmp: (T, T) -> int, p: seq<T>, q: seq<T>): (r: nat)
    ensures r <= |p| + |q|
  {
    if p == [] || q == [] then 0
    else if cmp(p[0], q[0]) <= 0 then 1 + MergeCost(cmp, p[1..], q)
    else 1 + MergeCost(cmp, p, q[1..])
  }

  /** One pass over the list: neighbouring runs of length w are merged pairwise. */
  function Pass<T>(cmp: (T, T) -> int, w: nat, s: seq<T>): (r: seq<T>)
    requires w > 0
    ensures |r| == |s|
    decreases |s|
  {
    if s == [] then []
    else
      var a, b := Min(w, |s|), Min(2 * w, |s|);
      Merge(cmp, s[..a], s[a..b]) + Pass(cmp, w, s[b..])
  }

  function PassCost<T>(cmp: (T, T) -> int, w: nat, s: seq<T>): (r: nat)
    requires w > 0
    ensures r <= |s|
    decreases |s|
  {
    if s == [] then 0
    else
      var a, b := Min(w, |s|), Min(2 * w, |s|);
      MergeCost(cmp, s[..a], s[a..b]) + PassCost(cmp, w, s[b..])
  }

  /** Merges in one pass over n elements. */
  function MergesIn(w: nat, n: nat): nat
    requires w > 0
  {
    if n == 0 then 0 else 1 + MergesIn(w, n - Min(2 * w, n))
  }

  /** Passes with run lengths w, 2w, 4w, ... until one pass does a single merge. */
  function SortFrom<T>(cmp: (T, T) -> int, w: nat, s: seq<T>): (r: seq<T>)
    requires w > 0
    ensures |r| == |s|
    decreases |s| - w
  {
    if |s| <= 2 * w then Pass(cmp, w, s) else SortFrom(cmp, 2 * w, Pass(cmp, w, s))
  }

  function SortCost<T>(cmp: (T, T) -> int, w: nat, s: seq<T>): nat
    requires w > 0
    decreases |s| - w
  {
    PassCost(cmp, w, s) + if |s| <= 2 * w then 0 else SortCost(cmp, 2 * w, Pass(cmp, w, s))
  }

  function PassesFrom(w: nat, n: nat): (r: nat)
    requires w > 0
    ensures r > 0
    decreases n - w
  {
    if n <= 2 * w then 1 else 1 + PassesFrom(2 * w, n)
  }

  function Sort<T>(cmp: (T, T) -> int, s: seq<T>): (r: seq<T>)
    ensures |r| == |s|
  {
    SortFrom(cmp, 1, s)
  }

  // ----- Merge

  lemma {:induction false} MergePermutes<T>(cmp: (T, T) -> int, p: seq<T>, q: seq<T>)
    ensures multiset(Merge(cmp, p, q)) == multiset(p) + multiset(q)
  {
    if p != [] && q != [] {
      assert p == [p[0]] + p[1..] && q == [q[0]] + q[1..];
      if cmp(p[0], q[0]) <= 0 {
        MergePermutes(cmp, p[1..], q);
      } else {
        MergePermutes(cmp, p, q[1..]);
      }
    }
  }

  lemma SortedCons<T>(cmp: (T, T) -> int, x: T, s: seq<T>)
    requires Sorted(cmp, s)
    requires forall y :: y in multiset(s) ==> Le(cmp, x, y)
    ensures Sorted(cmp, [x] + s)
  {
    var t := [x] + s;
    forall i, j | 0 <= i < j < |t|
      ensures Le(cmp, t[i], t[j])
    {
      assert t[j] == s[j - 1] && s[j - 1] in multiset(s);
      if i > 0 {
        assert t[i] == s[i - 1];
      }
    }
  }

  /** The head of a sorted run is below y as soon as it is below the head of y's run. */
  lemma HeadBelow<T>(cmp: (T, T) -> int, d: set<T>, x: T, s: seq<T>)
    requires TotalPreorderOn(cmp, d) && x in d && Over(s, d)
    requires s != [] ==> Le(cmp, x, s[0])
    requires Sorted(cmp, s)
    ensures forall y :: y in multiset(s) ==> Le(cmp, x, y)
  {
    forall y | y in multiset(s)
      ensures Le(cmp, x, y)
    {
      var i :| 0 <= i < |s| && s[i] == y;
      if i > 0 {
        assert Le(cmp, s[0], s[i]);
      }
    }
  }

  lemma {:induction false} MergeSorts<T>(cmp: (T, T) -> int, p: seq<T>, q: seq<T>, d: set<T>)
    requires TotalPreorderOn(cmp, d) && Over(p, d) && Over(q, d)
    requires Sorted(cmp, p) && Sorted(cmp, q)
    ensures Sorted(cmp, Merge(cmp, p, q))
  {
    if p != [] && q != [] {
      if cmp(p[0], q[0]) <= 0 {
        MergeSorts(cmp, p[1..], q, d);
        MergePermutes(cmp, p[1..], q);
        HeadBelow(cmp, d, p[0], p[1..]);
        HeadBelow(cmp, d, p[0], q);
        SortedCons(cmp, p[0], Merge(cmp, p[1..], q));
      } else {
        MergeSorts(cmp, p, q[1..], d);
        MergePermutes(cmp, p, q[1..]);
        assert Le(cmp, q[0], p[0]);
        HeadBelow(cmp, d, q[0], p);
        HeadBelow(cmp, d, q[0], q[1..]);
        SortedCons(cmp, q[0], Merge(cmp, p, q[1..]));
      }
    }
  }

  /** If q's head is taken first, nothing left in p can tie with it. */
  lemma NoTieBehind<T>(cmp: (T, T) -> int, d: set<T>, g: T, p: seq<T>, y: T)
    requires TotalPreorderOn(cmp, d) && Over(p, d) && y in d && g in d
    requires Sorted(cmp, p) && p != [] && !Le(cmp, p[0], y)
    requires Ties(cmp, g)(y)
    ensures TiesIn(cmp, g, p) == []
  {
    forall x | x in p
      ensures !Ties(cmp, g)(x)
    {
      var i :| 0 <= i < |p| && p[i] == x;
      assert i > 0 ==> Le(cmp, p[0], x);
      assert Le(cmp, x, g) && Le(cmp, g, y) ==> Le(cmp, x, y);
      assert !Le(cmp, x, y);
    }
    FilterNone(Ties(cmp, g), p);
  }

  lemma {:induction false} MergeKeepsTies<T>(cmp: (T, T) -> int, d: set<T>, g: T, p: seq<T>, q: seq<T>)
    requires TotalPreorderOn(cmp, d) && Over(p, d) && Over(q, d) && g in d
    requires Sorted(cmp, p)
    ensures TiesIn(cmp, g, Merge(cmp, p, q)) == TiesIn(cmp, g, p) + TiesIn(cmp, g, q)
  {
    if p != [] && q != [] {
      if cmp(p[0], q[0]) <= 0 {
        MergeKeepsTies(cmp, d, g, p[1..], q);
        TiesTakeLeft(cmp, g, p, q);
      } else {
        MergeKeepsTies(cmp, d, g, p, q[1..]);
        if Ties(cmp, g)(q[0]) {
          NoTieBehind(cmp, d, g, p, q[0]);
        }
        TiesTakeRight(cmp, g, p, q);
      }
    }
  }

  lemma TiesTakeLeft<T>(cmp: (T, T) -> int, g: T, p: seq<T>, q: seq<T>)
    requires p != [] && q != [] && cmp(p[0], q[0]) <= 0
    requires TiesIn(cmp, g, Merge(cmp, p[1..], q)) == TiesIn(cmp, g, p[1..]) + TiesIn(cmp, g, q)
    ensures TiesIn(cmp, g, Merge(cmp, p, q)) == TiesIn(cmp, g, p) + TiesIn(cmp, g, q)
  {
    hide *;
    MergeUnfold(cmp, p, q);
    TiesCons(cmp, g, p[0], Merge(cmp, p[1..], q));
    TiesCons(cmp, g, p[0], p[1..]);
    Associate(TiesIn(cmp, g, [p[0]]), TiesIn(cmp, g, p[1..]), TiesIn(cmp, g, q));
  }

  lemma TiesTakeRight<T>(cmp: (T, T) -> int, g: T, p: seq<T>, q: seq<T>)
    requires p != [] && q != [] && cmp(p[0], q[0]) > 0
    requires TiesIn(cmp, g, Merge(cmp, p, q[1..])) == TiesIn(cmp, g, p) + TiesIn(cmp, g, q[1..])
    requires Ties(cmp, g)(q[0]) ==> TiesIn(cmp, g, p) == []
    ensures TiesIn(cmp, g, Merge(cmp, p, q)) == TiesIn(cmp, g, p) + TiesIn(cmp, g, q)
  {
    hide *;
    MergeUnfold(cmp, p, q);
    TiesCons(cmp, g, q[0], Merge(cmp, p, q[1..]));
    TiesCons(cmp, g, q[0], q[1..]);
    SwapPast(TiesIn(cmp, g, [q[0]]), TiesIn(cmp, g, p), TiesIn(cmp, g, q[1..]));
  }

  lemma MergeUnfold<T>(cmp: (T, T) -> int, p: seq<T>, q: seq<T>)
    requires p != [] && q != []
    ensures [p[0]] + p[1..] == p && [q[0]] + q[1..] == q
    ensures Merge(cmp, p, q) ==
      if cmp(p[0], q[0]) <= 0 then [p[0]] + Merge(cmp, p[1..], q) else [q[0]] + Merge(cmp, p, q[1..])
  {
  }

  lemma SwapPast<T>(u: seq<T>, a: seq<T>, b: seq<T>)
    requires u == [] || a == []
    ensures u + (a + b) == a + (u + b)
  {
  }

  lemma TiesCons<T>(cmp: (T, T) -> int, g: T, x: T, s: seq<T>)
    ensures TiesIn(cmp, g, [x] + s) == TiesIn(cmp, g, [x]) + TiesIn(cmp, g, s)
    ensures TiesIn(cmp, g, [x]) == if Ties(cmp, g)(x) then [x] else []
  {
    FilterAppend(Ties(cmp, g), [x], s);
  }

  // ----- Passes

  /** s is a sequence of sorted runs of length w, the last one possibly shorter. */
  ghost predicate RunsSorted<T>(cmp: (T, T) -> int, w: nat, s: seq<T>)
    requires w > 0
    decreases |s|
  {
    if |s| <= w then Sorted(cmp, s)
    else Sorted(cmp, s[..w]) && RunsSorted(cmp, w, s[w..])
  }

  lemma {:induction false} SingletonRuns<T>(cmp: (T, T) -> int, s: seq<T>)
    ensures RunsSorted(cmp, 1, s)
    decreases |s|
  {
    if |s| > 1 {
      SingletonRuns(cmp, s[1..]);
    }
  }

  /** The pieces that one merge of a pass works on. */
  lemma FirstRuns<T>(cmp: (T, T) -> int, w: nat, s: seq<T>)
    requires w > 0 && s != [] && RunsSorted(cmp, w, s)
    ensures var a, b := Min(w, |s|), Min(2 * w, |s|);
      Sorted(cmp, s[..a]) && Sorted(cmp, s[a..b]) && RunsSorted(cmp, w, s[b..])
  {
    EmptyRuns(cmp, w);
    RunsUnfold(cmp, w, s);
    hide Sorted, RunsSorted;
    if |s| <= w {
      NothingBehind(s);
    } else {
      RunsUnfold(cmp, w, s[w..]);
      if |s| <= 2 * w {
        NothingBehind(s);
        NothingBehind(s[w..]);
      } else {
        SliceTwice(s, w);
      }
    }
  }

  lemma NothingBehind<T>(s: seq<T>)
    ensures s[..|s|] == s && s[|s|..] == [] && s[|s|..|s|] == []
    ensures forall i :: 0 <= i <= |s| ==> s[i..|s|] == s[i..]
  {
  }

  lemma SliceTwice<T>(s: seq<T>, w: nat)
    requires 2 * w <= |s|
    ensures s[w..][..w] == s[w..2 * w] && s[w..][w..] == s[2 * w..]
  {
  }

  lemma RunsUnfold<T>(cmp: (T, T) -> int, w: nat, s: seq<T>)
    requires w > 0
    ensures RunsSorted(cmp, w, s) <==>
      if |s| <= w then Sorted(cmp, s) else Sorted(cmp, s[..w]) && RunsSorted(cmp, w, s[w..])
  {
    hide Sorted;
  }

  lemma EmptyRuns<T>(cmp: (T, T) -> int, w: nat)
    requires w > 0
    ensures Sorted(cmp, []) && RunsSorted(cmp, w, [])
  {
  }

  lemma {:induction false} PassPermutes<T>(cmp: (T, T) -> int, w: nat, s: seq<T>)
    requires w > 0
    ensures multiset(Pass(cmp, w, s)) == multiset(s)
    decreases |s|
  {
    if s != [] {
      var a, b := Min(w, |s|), Min(2 * w, |s|);
      assert s == s[..a] + s[a..b] + s[b..];
      MergePermutes(cmp, s[..a], s[a..b]);
      PassPermutes(cmp, w, s[b..]);
    }
  }

  lemma PassOver<T>(cmp: (T, T) -> int, w: nat, s: seq<T>, d: set<T>)
    requires w > 0 && Over(s, d)
    ensures Over(Pass(cmp, w, s), d)
  {
    PassPermutes(cmp, w, s);
    var r := Pass(cmp, w, s);
    forall i | 0 <= i < |r|
      ensures r[i] in d
    {
      assert r[i] in multiset(r);
      assert r[i] in s;
    }
  }

  /** A pass doubles the length of the sorted runs. */
  lemma {:induction false} PassDoublesRuns<T>(cmp: (T, T) -> int, w: nat, s: seq<T>, d: set<T>)
    requires w > 0 && TotalPreorderOn(cmp, d) && Over(s, d)
    requires RunsSorted(cmp, w, s)
    ensures RunsSorted(cmp, 2 * w, Pass(cmp, w, s))
    decreases |s|
  {
    if s != [] {
      var a, b := Min(w, |s|), Min(2 * w, |s|);
      FirstRuns(cmp, w, s);
      MergeSorts(cmp, s[..a], s[a..b], d);
      PassDoublesRuns(cmp, w, s[b..], d);
      var m, rest := Merge(cmp, s[..a], s[a..b]), Pass(cmp, w, s[b..]);
      if b == |s| {
        assert m + rest == m;
      } else {
        assert (m + rest)[..2 * w] == m && (m + rest)[2 * w..] == rest;
      }
    }
  }

  lemma {:induction false} PassKeepsTies<T>(cmp: (T, T) -> int, w: nat, s: seq<T>, d: set<T>, g: T)
    requires w > 0 && TotalPreorderOn(cmp, d) && Over(s, d) && g in d
    requires RunsSorted(cmp, w, s)
    ensures TiesIn(cmp, g, Pass(cmp, w, s)) == TiesIn(cmp, g, s)
    decreases |s|
  {
    if s != [] {
      var a, b := Min(w, |s|), Min(2 * w, |s|);
      FirstRuns(cmp, w, s);
      MergeKeepsTies(cmp, d, g, s[..a], s[a..b]);
      PassKeepsTies(cmp, w, s[b..], d, g);
      TiesAppend(cmp, g, Merge(cmp, s[..a], s[a..b]), Pass(cmp, w, s[b..]));
      TiesSplit(cmp, g, s, a, b);
    }
  }

  lemma TiesAppend<T>(cmp: (T, T) -> int, g: T, a: seq<T>, b: seq<T>)
    ensures TiesIn(cmp, g, a + b) == TiesIn(cmp, g, a) + TiesIn(cmp, g, b)
  {
    FilterAppend(Ties(cmp, g), a, b);
  }

  lemma TiesSplit<T>(cmp: (T, T) -> int, g: T, s: seq<T>, a: nat, b: nat)
    requires a <= b <= |s|
    ensures TiesIn(cmp, g, s) == TiesIn(cmp, g, s[..a]) + TiesIn(cmp, g, s[a..b]) + TiesIn(cmp, g, s[b..])
  {
    assert s == s[..a] + s[a..b] + s[b..];
    TiesAppend(cmp, g, s[..a] + s[a..b], s[b..]);
    TiesAppend(cmp, g, s[..a], s[a..b]);
  }

  // ----- The whole sort

  lemma {:induction false} SortFromPermutes<T>(cmp: (T, T) -> int, w: nat, s: seq<T>)
    requires w > 0
    ensures multiset(SortFrom(cmp, w, s)) == multiset(s)
    decreases |s| - w
  {
    PassPermutes(cmp, w, s);
    if |s| > 2 * w {
      SortFromPermutes(cmp, 2 * w, Pass(cmp, w, s));
    }
  }

  lemma {:induction false} SortFromSorts<T>(cmp: (T, T) -> int, w: nat, s: seq<T>, d: set<T>)
    requires w > 0 && TotalPreorderOn(cmp, d) && Over(s, d)
    requires RunsSorted(cmp, w, s)
    ensures Sorted(cmp, SortFrom(cmp, w, s))
    ensures SameTies(cmp, d, SortFrom(cmp, w, s), s)
    decreases |s| - w
  {
    var r := Pass(cmp, w, s);
    PassDoublesRuns(cmp, w, s, d);
    PassOver(cmp, w, s, d);
    forall g | g in d
      ensures TiesIn(cmp, g, r) == TiesIn(cmp, g, s)
    {
      PassKeepsTies(cmp, w, s, d, g);
    }
    if |s| > 2 * w {
      SortFromSorts(cmp, 2 * w, r, d);
    }
  }

  /** For any comparator the sort permutes; for a total preorder it sorts, and stably. */
  lemma SortIsStableSort<T>(cmp: (T, T) -> int, s: seq<T>, d: set<T>)
    requires Over(s, d)
    ensures multiset(Sort(cmp, s)) == multiset(s)
    ensures TotalPreorderOn(cmp, d) ==> Sorted(cmp, Sort(cmp, s)) && SameTies(cmp, d, Sort(cmp, s), s)
  {
    SortFromPermutes(cmp, 1, s);
    if TotalPreorderOn(cmp, d) {
      SingletonRuns(cmp, s);
      SortFromSorts(cmp, 1, s, d);
    }
  }

  /** In plain terms: if the comparator is a total preorder on the elements, no element is followed by a
      smaller one, and elements that compare equal stay in their old order. */
  lemma SortMeaning<T>(cmp: (T, T) -> int, s: seq<T>)
    requires forall x, y :: x in s && y in s ==> cmp(x, y) <= 0 || cmp(y, x) <= 0
    requires forall x, y, z :: x in s && y in s && z in s && cmp(x, y) <= 0 && cmp(y, z) <= 0 ==> cmp(x, z) <= 0
    ensures var r := Sort(cmp, s);
      && multiset(r) == multiset(s)
      && (forall i, j :: 0 <= i < j < |r| ==> cmp(r[i], r[j]) <= 0)
      && forall g | g in s ::
        var equal := (x: T) => cmp(g, x) <= 0 && cmp(x, g) <= 0;
        Filter(equal, r) == Filter(equal, s)
  {
    var d := set x | x in s;
    var r := Sort(cmp, s);
    assert TotalPreorderOn(cmp, d);
    SortIsStableSort(cmp, s, d);
    forall i, j | 0 <= i < j < |r|
      ensures cmp(r[i], r[j]) <= 0
    {
      assert Le(cmp, r[i], r[j]);
    }
    forall g | g in s
      ensures var equal := (x: T) => cmp(g, x) <= 0 && cmp(x, g) <= 0;
        Filter(equal, r) == Filter(equal, s)
    {
      var equal := (x: T) => cmp(g, x) <= 0 && cmp(x, g) <= 0;
      FilterSame(equal, Ties(cmp, g), r);
      FilterSame(equal, Ties(cmp, g), s);
      assert TiesIn(cmp, g, r) == TiesIn(cmp, g, s);
    }
  }

  lemma TieHead<T>(cmp: (T, T) -> int, d: set<T>, s: seq<T>, t: seq<T>)
    requires TotalPreorderOn(cmp, d) && Over(s, d) && Over(t, d)
    requires Sorted(cmp, t) && SameTies(cmp, d, s, t) && s != []
    ensures t != [] && Le(cmp, t[0], s[0])
  {
    var g := s[0];
    assert Le(cmp, g, g);
    FilterIn(Ties(cmp, g), s, g);
    FilterIn(Ties(cmp, g), t, g);
    var i :| 0 <= i < |t| && t[i] == g;
    if i > 0 {
      assert Le(cmp, t[0], t[i]);
    }
  }

  /** There is only one sorted arrangement that keeps ties in order: the sort computes that one. */
  lemma {:induction false} StableSortUnique<T>(cmp: (T, T) -> int, d: set<T>, s: seq<T>, t: seq<T>)
    requires TotalPreorderOn(cmp, d) && Over(s, d) && Over(t, d)
    requires Sorted(cmp, s) && Sorted(cmp, t) && SameTies(cmp, d, s, t)
    ensures s == t
  {
    if s == [] {
      if t != [] {
        TieHead(cmp, d, t, s);
      }
    } else {
      TieHead(cmp, d, s, t);
      TieHead(cmp, d, t, s);
      var g := s[0];
      assert Le(cmp, g, g);
      assert TiesIn(cmp, g, s)[0] == s[0];
      assert TiesIn(cmp, g, t)[0] == t[0];
      assert s[0] == t[0];
      forall h | h in d
        ensures TiesIn(cmp, h, s[1..]) == TiesIn(cmp, h, t[1..])
      {
        var u := if Ties(cmp, h)(s[0]) then [s[0]] else [];
        assert TiesIn(cmp, h, s) == u + TiesIn(cmp, h, s[1..]);
        assert TiesIn(cmp, h, t) == u + TiesIn(cmp, h, t[1..]);
        assert TiesIn(cmp, h, s[1..]) == TiesIn(cmp, h, s)[|u|..];
      }
      StableSortUnique(cmp, d, s[1..], t[1..]);
    }
  }

  // ----- Cost

  lemma {:induction false} MergesInIsCeil(w: nat, n: nat)
    requires w > 0
    ensures MergesIn(w, n) == CeilDiv(n, 2 * w)
  {
    if n > 0 {
      MergesInIsCeil(w, n - Min(2 * w, n));
    }
  }

  /** The number of passes is the least k >= 1 with n <= 2^k times the initial run length. */
  lemma {:induction false} PassesAreLogarithmic(w: nat, n: nat)
    requires w > 0
    ensures n <= w * Pow2(PassesFrom(w, n))
    ensures PassesFrom(w, n) == 1 || w * Pow2(PassesFrom(w, n) - 1) < n
    decreases n - w
  {
    if n <= 2 * w {
      assert Pow2(1) == 2 * Pow2(0);
    } else {
      PassesAreLogarithmic(2 * w, n);
      var k := PassesFrom(2 * w, n);
      MoveFactor(w, Pow2(k));
      MoveFactor(w, Pow2(k - 1));
    }
  }

  lemma MoveFactor(w: nat, x: nat)
    ensures w * (2 * x) == 2 * w * x
  {
  }

  lemma {:induction false} SortCostBound<T>(cmp: (T, T) -> int, w: nat, s: seq<T>)
    requires w > 0
    ensures SortCost(cmp, w, s) <= |s| * PassesFrom(w, |s|)
    decreases |s| - w
  {
    if |s| > 2 * w {
      SortCostBound(cmp, 2 * w, Pass(cmp, w, s));
      Distribute(|s|, 1, PassesFrom(2 * w, |s|));
    }
  }
}
