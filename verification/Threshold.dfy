/** A run after which a chain stands at its threshold: the bounds on chains are reached, and cannot be
    made strict. Elements come from a pool that holds enough of them for each hash value. */
module Threshold {
  import opened Bits
  import opened Seqs
  import opened Handles
  import opened TableSpec
  import opened TableRuns
  import TableLaws

  /** pool[v] holds distinct elements whose hash value is v. */
  ghost predicate Pool(cfg: Config, pool: seq<seq<Handle>>) {
    forall v :: 0 <= v < |pool| ==> Distinct(pool[v]) && forall h | h in pool[v] :: cfg.hash(h.key) == v
  }

  function Adds(hs: seq<Handle>): (r: seq<Op>)
    ensures |r| == |hs|
  {
    Map((h: Handle) => AddOp(h), hs)
  }

  /** The table after adding hs: chain j holds the first lens[j] elements of pool[j], the thresholds
      are given by mult, and it expanded e times. */
  ghost predicate Stage(cfg: Config, pool: seq<seq<Handle>>, hs: seq<Handle>, lens: seq<nat>, mult: seq<nat>, e: nat) {
    && LegalRun(cfg, Adds(hs)) && |lens| <= |pool|
    && Elements(Run(cfg, Adds(hs))) == hs && Shows(Run(cfg, Adds(hs)), lens, mult, e)
    && forall h | h in hs :: InPool(cfg, pool, lens, h)
  }

  /** Chain lengths, multipliers and number of expansions of a table that may still expand. */
  ghost predicate Shows(t: Table, lens: seq<nat>, mult: seq<nat>, e: nat) {
    t.Table? && Lens(t.chains) == lens && t.mult == mult && |t.history| == e && !t.noexpand
  }

  ghost predicate InPool(cfg: Config, pool: seq<seq<Handle>>, lens: seq<nat>, h: Handle)
    requires |lens| <= |pool|
  {
    var v := cfg.hash(h.key);
    v < |lens| && lens[v] <= |pool[v]| && h in pool[v][..lens[v]]
  }

  lemma AddsSnoc(hs: seq<Handle>, h: Handle)
    ensures Adds(hs + [h]) == Adds(hs) + [AddOp(h)]
  {
  }

  /** The next element for chain j is not in the table yet. */
  lemma NextIsNew(cfg: Config, pool: seq<seq<Handle>>, hs: seq<Handle>, lens: seq<nat>, j: nat)
    requires Pool(cfg, pool) && j < |lens| <= |pool| && lens[j] < |pool[j]|
    requires forall h | h in hs :: InPool(cfg, pool, lens, h)
    ensures var h := pool[j][lens[j]];
      && h !in hs && cfg.hash(h.key) == j
      && forall x | x in hs + [h] :: InPool(cfg, pool, lens[j := lens[j] + 1], x)
  {
    var h, lens' := pool[j][lens[j]], lens[j := lens[j] + 1];
    assert h in pool[j];
    forall x | x in hs + [h]
      ensures InPool(cfg, pool, lens', x)
    {
      if x in hs {
        assert InPool(cfg, pool, lens, x);
        var v := cfg.hash(x.key);
        assert pool[v][..lens[v]] <= pool[v][..lens'[v]];
      } else {
        assert pool[j][..lens[j] + 1][lens[j]] == h;
      }
    }
  }

  lemma LastAdd(cfg: Config, hs: seq<Handle>, h: Handle)
    requires LegalRun(cfg, Adds(hs)) && Elements(Run(cfg, Adds(hs))) == hs && h !in hs
    ensures LegalRun(cfg, Adds(hs + [h])) && Run(cfg, Adds(hs + [h])) == Add(cfg, Run(cfg, Adds(hs)), h)
    ensures Elements(Run(cfg, Adds(hs + [h]))) == hs + [h]
  {
    AddsSnoc(hs, h);
    var ops := Adds(hs) + [AddOp(h)];
    assert ops[..|ops| - 1] == Adds(hs) && ops[|ops| - 1] == AddOp(h);
    RunKeepsInv(cfg, Adds(hs));
    TableLaws.AddKeepsInv(cfg, Run(cfg, Adds(hs)), h);
  }

  lemma FirstAdd(cfg: Config, pool: seq<seq<Handle>>)
    requires Pool(cfg, pool) && |pool| >= 32 && |pool[0]| >= 1
    ensures Stage(cfg, pool, [pool[0][0]], seq(32, j => if j == 0 then 1 else 0), seq(32, j => 0), 0)
  {
    var h, lens: seq<nat> := pool[0][0], seq(32, j => 0);
    NextIsNew(cfg, pool, [], lens, 0);
    LastAdd(cfg, [], h);
    DoubledFrom32(0);
    assert [] + [h] == [h];
    var t, j := Run(cfg, Adds([h])), BucketOf(cfg, h, 32);
    assert t == Remember(cfg, Push(cfg, MakeTable(), h), h);
    assert lens[0 := 1] == seq(32, j => if j == 0 then 1 else 0);
  }

  lemma QuietAdd(cfg: Config, t: Table, h: Handle, lens: seq<nat>, mult: seq<nat>, e: nat, j: nat)
    requires Shape(t) && Shows(t, lens, mult, e) && j < |lens| == |mult| && cfg.hash(h.key) == j
    requires lens[j] + 1 < CAPACITY_THRESH * (mult[j] + 1)
    ensures Shows(Add(cfg, t, h), lens[j := lens[j] + 1], mult, e)
  {
    DivModUnique(j, |lens|, 0, j);
    var p := Push(cfg, t, h);
    assert Lens(p.chains) == lens[j := lens[j] + 1];
    assert !Crowded(p, j);
  }

  /** An add below the threshold. */
  lemma AddOne(cfg: Config, pool: seq<seq<Handle>>, hs: seq<Handle>, lens: seq<nat>, mult: seq<nat>, e: nat, j: nat)
    requires Stage(cfg, pool, hs, lens, mult, e) && Pool(cfg, pool)
    requires j < |lens| == |mult| && lens[j] < |pool[j]| && lens[j] + 1 < CAPACITY_THRESH * (mult[j] + 1)
    ensures Stage(cfg, pool, hs + [pool[j][lens[j]]], lens[j := lens[j] + 1], mult, e)
  {
    hide Run, LegalRun, Shows, Pool, InPool, Adds, Elements, Add;
    NextIsNew(cfg, pool, hs, lens, j);
    LastAdd(cfg, hs, pool[j][lens[j]]);
    QuietAdd(cfg, Run(cfg, Adds(hs)), pool[j][lens[j]], lens, mult, e, j);
  }

  /** Adds to chain j, until it holds n elements. */
  lemma {:induction false} AddSeveral(cfg: Config, pool: seq<seq<Handle>>, hs: seq<Handle>, lens: seq<nat>,
                                      mult: seq<nat>, e: nat, j: nat, n: nat)
    requires Stage(cfg, pool, hs, lens, mult, e) && Pool(cfg, pool)
    requires j < |lens| == |mult| && |lens| <= |pool|
    requires lens[j] <= n <= |pool[j]| && n < CAPACITY_THRESH * (mult[j] + 1)
    ensures Stage(cfg, pool, hs + pool[j][lens[j]..n], lens[j := n], mult, e)
    decreases n - lens[j]
  {
    hide *;
    if lens[j] == n {
      assert lens[j := n] == lens && hs + pool[j][lens[j]..n] == hs;
    } else {
      AddOne(cfg, pool, hs, lens, mult, e, j);
      var h, lens' := pool[j][lens[j]], lens[j := lens[j] + 1];
      AddSeveral(cfg, pool, hs + [h], lens', mult, e, j, n);
      assert lens'[j := n] == lens[j := n];
      assert hs + pool[j][lens[j]..n] == hs + [h] + pool[j][lens'[j]..n];
    }
  }

  /** The elements that the chains from k on lack. */
  function Missing(pool: seq<seq<Handle>>, lens: seq<nat>, target: seq<nat>, k: nat): seq<Handle>
    requires k <= |lens| == |target| <= |pool|
    requires forall j :: k <= j < |lens| ==> lens[j] <= target[j] <= |pool[j]|
    decreases |lens| - k
  {
    if k == |lens| then [] else pool[k][lens[k]..target[k]] + Missing(pool, lens, target, k + 1)
  }

  lemma {:induction false} MissingAfter(pool: seq<seq<Handle>>, lens: seq<nat>, target: seq<nat>, k: nat,
                                        i: nat, n: nat)
    requires i < k <= |lens| == |target| <= |pool|
    requires forall j :: k <= j < |lens| ==> lens[j] <= target[j] <= |pool[j]|
    ensures Missing(pool, lens[i := n], target, k) == Missing(pool, lens, target, k)
    decreases |lens| - k
  {
    if k < |lens| {
      MissingAfter(pool, lens, target, k + 1, i, n);
    }
  }

  /** Adds to the chains from k on, until they hold as many elements as target says. */
  lemma {:induction false} Fill(cfg: Config, pool: seq<seq<Handle>>, hs: seq<Handle>, lens: seq<nat>,
                                mult: seq<nat>, e: nat, target: seq<nat>, k: nat)
    requires Stage(cfg, pool, hs, lens, mult, e) && Pool(cfg, pool)
    requires k <= |lens| == |mult| == |target| <= |pool| && target[..k] == lens[..k]
    requires forall j :: k <= j < |lens| ==>
      lens[j] <= target[j] <= |pool[j]| && target[j] < CAPACITY_THRESH * (mult[j] + 1)
    ensures Stage(cfg, pool, hs + Missing(pool, lens, target, k), target, mult, e)
    decreases |lens| - k
  {
    hide Stage, Pool;
    if k == |lens| {
      assert lens == target && hs + [] == hs;
    } else {
      var more, lens' := pool[k][lens[k]..target[k]], lens[k := target[k]];
      AddSeveral(cfg, pool, hs, lens, mult, e, k, target[k]);
      assert target[..k + 1] == target[..k] + [target[k]] && lens'[..k + 1] == lens[..k] + [target[k]];
      Fill(cfg, pool, hs + more, lens', mult, e, target, k + 1);
      MissingAfter(pool, lens, target, k + 1, k, target[k]);
      Associate(hs, more, Missing(pool, lens, target, k + 1));
    }
  }

  // ----- Expansions that keep every element where it is

  lemma MovedAllOrNone(cfg: Config, c: seq<Handle>, nb: nat, j: nat)
    requires nb > 0
    ensures (forall h | h in c :: BucketOf(cfg, h, nb) == j) ==> |Moved(cfg, c, nb, j)| == |c|
    ensures (forall h | h in c :: BucketOf(cfg, h, nb) != j) ==> |Moved(cfg, c, nb, j)| == 0
  {
    var p := (h: Handle) => BucketOf(cfg, h, nb) == j;
    TableLaws.MovedIsReversedShare(cfg, c, nb, j);
    if forall h | h in c :: p(h) {
      FilterAll(p, c);
    }
    if forall h | h in c :: !p(h) {
      FilterNone(p, c);
    }
  }

  /** Chain lengths after a doubling, when all hash values are below the old number of buckets. */
  function Doubled(lens: seq<nat>): (r: seq<nat>)
    ensures |r| == 2 * |lens|
  {
    lens + seq(|lens|, _ => 0)
  }

  lemma LowStay(cfg: Config, t: Table)
    requires t.Table? && Shape(t) && Placed(cfg, t) && forall h | h in t.order :: cfg.hash(h.key) < |t.chains|
    ensures Lens(Redistribute(cfg, t.chains)) == Doubled(Lens(t.chains))
  {
    var b := |t.chains|;
    forall k | 0 <= k < 2 * b
      ensures |Moved(cfg, t.chains[k % b], 2 * b, k)| == Doubled(Lens(t.chains))[k]
    {
      var i := k % b;
      DivModUnique(k, b, if k < b then 0 else 1, if k < b then k else k - b);
      assert ChainPlaced(cfg, t, i);
      forall h | h in t.chains[i]
        ensures BucketOf(cfg, h, 2 * b) == i
      {
        DivModUnique(cfg.hash(h.key), b, 0, cfg.hash(h.key));
        DivModUnique(cfg.hash(h.key), 2 * b, 0, cfg.hash(h.key));
      }
      MovedAllOrNone(cfg, t.chains[i], 2 * b, k);
    }
  }

  /** What an expansion makes of the lengths, unless it is the second ineffective one. */
  lemma ExpandShows(cfg: Config, p: Table, lens': seq<nat>, ideal: nat, e: nat)
    requires p.Table? && Shape(p) && p.order != [] && !p.noexpand && |p.history| == e && (e == 0 ==> p.ineff == 0)
    requires lens' == Lens(Redistribute(cfg, p.chains)) && ideal == CeilDiv(|p.order|, |lens'|) > 0
    requires e == 0 || Sum(Excesses(lens', ideal)) <= |p.order| / 2
    ensures var r := Expand(cfg, p);
      Shows(r, lens', Mults(lens', ideal), e + 1) && r.ideal == ideal
  {
  }

  lemma AddExpands(cfg: Config, t: Table, h: Handle, j: nat)
    requires t.Table? && Shape(t) && !t.noexpand && j == BucketOf(cfg, h, |t.chains|)
    requires |t.chains[j]| + 1 >= CAPACITY_THRESH * (t.mult[j] + 1)
    ensures Add(cfg, t, h) == Remember(cfg, Expand(cfg, Push(cfg, t, h)), h)
  {
    assert Crowded(Push(cfg, t, h), j);
  }

  lemma RememberShows(cfg: Config, t: Table, h: Handle, lens: seq<nat>, mult: seq<nat>, e: nat)
    requires Shape(t) && Shows(t, lens, mult, e)
    ensures var r := Remember(cfg, t, h);
      Shows(r, lens, mult, e) && r.ideal == t.ideal
  {
  }

  lemma PushShows(cfg: Config, t: Table, h: Handle, lens: seq<nat>, mult: seq<nat>, e: nat, j: nat)
    requires Inv(cfg, t) && Shape(t) && Shows(t, lens, mult, e) && h !in t.order
    requires j < |lens| == |mult| && cfg.hash(h.key) == j
    requires forall x | x in t.order :: cfg.hash(x.key) < |lens|
    ensures j == BucketOf(cfg, h, |t.chains|) && |t.chains[j]| == lens[j] && t.mult[j] == mult[j]
    ensures var p := Push(cfg, t, h);
      && p.Table? && Shape(p) && |p.order| == |t.order| + 1 && !p.noexpand && |p.history| == e
      && (e == 0 ==> p.ineff == 0) && Lens(Redistribute(cfg, p.chains)) == Doubled(lens[j := lens[j] + 1])
  {
    var p := Push(cfg, t, h);
    DivModUnique(j, |lens|, 0, j);
    TableLaws.PushPlaced(cfg, t, h);
    assert Lens(p.chains) == lens[j := lens[j] + 1];
    LowStay(cfg, p);
  }

  lemma ExpandingAdd(cfg: Config, t: Table, h: Handle, lens: seq<nat>, mult: seq<nat>, e: nat, j: nat,
                     lens': seq<nat>, ideal: nat)
    requires Inv(cfg, t) && Shape(t) && Shows(t, lens, mult, e) && t.Table? && h !in t.order
    requires j < |lens| == |mult| && cfg.hash(h.key) == j && lens[j] + 1 >= CAPACITY_THRESH * (mult[j] + 1)
    requires forall x | x in t.order :: cfg.hash(x.key) < |lens|
    requires lens' == Doubled(lens[j := lens[j] + 1]) && ideal == CeilDiv(|t.order| + 1, |lens'|) > 0
    requires e == 0 || Sum(Excesses(lens', ideal)) <= (|t.order| + 1) / 2
    ensures var r := Add(cfg, t, h);
      Shape(r) && Shows(r, lens', Mults(lens', ideal), e + 1) && r.Table? && r.ideal == ideal
  {
    PushShows(cfg, t, h, lens, mult, e, j);
    var p := Push(cfg, t, h);
    hide Push, Placed, Inv, Expand, Remember, Redistribute, Mults, Excesses, Doubled, CeilDiv, Add;
    ExpandShows(cfg, p, lens', ideal, e);
    AddExpands(cfg, t, h, j);
    RememberShows(cfg, Expand(cfg, p), h, lens', Mults(lens', ideal), e + 1);
  }

  /** The add that brings chain j to its threshold. */
  lemma AddExpanding(cfg: Config, pool: seq<seq<Handle>>, hs: seq<Handle>, lens: seq<nat>, mult: seq<nat>, e: nat,
                     j: nat, lens': seq<nat>, ideal: nat)
    requires Stage(cfg, pool, hs, lens, mult, e) && Pool(cfg, pool)
    requires j < |lens| == |mult| && 2 * |lens| <= |pool| && lens[j] < |pool[j]|
    requires lens[j] + 1 >= CAPACITY_THRESH * (mult[j] + 1)
    requires lens' == Doubled(lens[j := lens[j] + 1]) && ideal == CeilDiv(|hs| + 1, |lens'|) > 0
    requires e == 0 || Sum(Excesses(lens', ideal)) <= (|hs| + 1) / 2
    ensures var hs' := hs + [pool[j][lens[j]]];
      Stage(cfg, pool, hs', lens', Mults(lens', ideal), e + 1)
      && Run(cfg, Adds(hs')).Table? && Run(cfg, Adds(hs')).ideal == ideal
  {
    hide Run, LegalRun, Shows, Pool, InPool, Adds, Inv, Elements, Add, Mults, Excesses, CeilDiv, Doubled;
    var h := pool[j][lens[j]];
    var hs' := hs + [h];
    NextIsNew(cfg, pool, hs, lens, j);
    LastAdd(cfg, hs, h);
    RunKeepsInv(cfg, Adds(hs));
    StillInPool(cfg, pool, lens[j := lens[j] + 1], lens', hs');
    AllLow(cfg, pool, lens, hs);
    TableOf(cfg, pool, hs, lens, mult, e);
    ExpandingAdd(cfg, Run(cfg, Adds(hs)), h, lens, mult, e, j, lens', ideal);
  }

  lemma TableOf(cfg: Config, pool: seq<seq<Handle>>, hs: seq<Handle>, lens: seq<nat>, mult: seq<nat>, e: nat)
    requires Stage(cfg, pool, hs, lens, mult, e)
    ensures LegalRun(cfg, Adds(hs))
    ensures var t := Run(cfg, Adds(hs));
      t.Table? && t.order == hs && Shape(t) && Shows(t, lens, mult, e)
  {
  }

  lemma StillInPool(cfg: Config, pool: seq<seq<Handle>>, lens: seq<nat>, lens': seq<nat>, hs: seq<Handle>)
    requires |lens'| <= |pool| && lens' == Doubled(lens)
    requires forall h | h in hs :: InPool(cfg, pool, lens, h)
    ensures forall h | h in hs :: InPool(cfg, pool, lens', h)
  {
    forall h | h in hs
      ensures InPool(cfg, pool, lens', h)
    {
      assert InPool(cfg, pool, lens, h);
    }
  }

  lemma AllLow(cfg: Config, pool: seq<seq<Handle>>, lens: seq<nat>, hs: seq<Handle>)
    requires |lens| <= |pool| && forall h | h in hs :: InPool(cfg, pool, lens, h)
    ensures forall h | h in hs :: cfg.hash(h.key) < |lens|
  {
    forall h | h in hs
      ensures cfg.hash(h.key) < |lens|
    {
      assert InPool(cfg, pool, lens, h);
    }
  }

  // ----- The run

  /** Six times a, then b, then c. */
  function Stepped(n: nat, a: nat, b: nat, c: nat): (s: seq<nat>)
    ensures |s| == n && forall j :: 0 <= j < n ==> s[j] == if j < 6 then a else if j == 6 then b else c
  {
    seq(n, j => if j < 6 then a else if j == 6 then b else c)
  }

  lemma {:induction false} SumConstant(s: seq<nat>, c: nat)
    requires forall j :: 0 <= j < |s| ==> s[j] == c
    ensures Sum(s) == c * |s|
  {
    if s != [] {
      SumConstant(s[1..], c);
      Distribute(c, 1, |s[1..]|);
    }
  }

  lemma SumStepped(n: nat, a: nat, b: nat, c: nat)
    requires n >= 7
    ensures Sum(Stepped(n, a, b, c)) == 6 * a + b + c * (n - 7)
  {
    var s := Stepped(n, a, b, c);
    SumConstant(s[..6], a);
    SumConstant(s[7..], c);
    SumAppend(s[..6], [b] + s[7..]);
    assert s == s[..6] + ([b] + s[7..]);
    assert ([b] + s[7..])[1..] == s[7..];
  }

  /** As many elements as the chains hold. */
  lemma StageCount(cfg: Config, pool: seq<seq<Handle>>, hs: seq<Handle>, lens: seq<nat>, mult: seq<nat>, e: nat)
    requires Stage(cfg, pool, hs, lens, mult, e)
    ensures |hs| == Sum(lens)
  {
    RunKeepsInv(cfg, Adds(hs));
  }

  /** The last operation was an expansion that computed the ideal length 10 and left chain j at its
      threshold, in a table that may still expand. */
  ghost predicate AtThreshold(cfg: Config, ops: seq<Op>, j: nat) {
    && ops != [] && LegalRun(cfg, ops)
    && var t, t0 := Run(cfg, ops), Run(cfg, ops[..|ops| - 1]);
    && t.Table? && t0.Table? && |t.history| == |t0.history| + 1 && !t.noexpand
    && t.ideal == CAPACITY_THRESH && j < |t.chains|
    && |t.chains[j]| == CAPACITY_THRESH == CAPACITY_THRESH * (t.mult[j] + 1)
  }

  ghost predicate Ample(cfg: Config, pool: seq<seq<Handle>>) {
    Pool(cfg, pool) && |pool| == 128 && forall v :: 0 <= v < 64 ==> |pool[v]| >= 109
  }

  /** All elements come from the pool. */
  ghost predicate Drawn(cfg: Config, pool: seq<seq<Handle>>, hs: seq<Handle>) {
    forall h | h in hs :: cfg.hash(h.key) < |pool| && h in pool[cfg.hash(h.key)]
  }

  lemma StageDrawn(cfg: Config, pool: seq<seq<Handle>>, hs: seq<Handle>, lens: seq<nat>, mult: seq<nat>, e: nat)
    requires Stage(cfg, pool, hs, lens, mult, e)
    ensures Drawn(cfg, pool, hs)
  {
    hide Run, LegalRun, Adds, Shows;
    forall h | h in hs
      ensures cfg.hash(h.key) < |pool| && h in pool[cfg.hash(h.key)]
    {
      assert InPool(cfg, pool, lens, h);
    }
  }

  lemma AmplePool(cfg: Config, pool: seq<seq<Handle>>)
    requires Ample(cfg, pool)
    ensures Pool(cfg, pool) && |pool| == 128 && forall v :: 0 <= v < 64 ==> |pool[v]| >= 109
  {
  }

  /** 57 elements in seven of 32 chains, and one more. */
  lemma FirstNumbers()
    ensures Sum(Stepped(32, 8, 9, 0)) == 57
    ensures Doubled(Stepped(32, 8, 9, 0)[6 := 10]) == Stepped(64, 8, 10, 0)
    ensures CeilDiv(58, 64) == 1 && Mults(Stepped(64, 8, 10, 0), 1) == Stepped(64, 8, 10, 0)
  {
    SumStepped(32, 8, 9, 0);
  }

  /** 1156 elements fill 64 chains up to one below their thresholds; one more goes to the last chain. */
  lemma SecondNumbers()
    ensures Sum(Stepped(64, 89, 109, 9)) == 1156 && CeilDiv(1157, 128) == 10
    ensures var lens' := Doubled(Stepped(64, 89, 109, 9)[63 := 10]);
      lens'[63] == 10 && Sum(Excesses(lens', 10)) == 573
  {
    SumStepped(64, 89, 109, 9);
    SumStepped(128, 79, 99, 0);
    CeilDivIsQuotient(1157, 128);
    assert Excesses(Doubled(Stepped(64, 89, 109, 9)[63 := 10]), 10) == Stepped(128, 79, 99, 0);
  }

  /** The elements of the first 32 chains' stage, of the 64 chains' stage, and of the whole run. */
  function FirstElements(pool: seq<seq<Handle>>): seq<Handle>
    requires |pool| == 128 && forall v :: 0 <= v < 64 ==> |pool[v]| >= 109
  {
    [pool[0][0]] + Missing(pool, Stepped(32, 0, 0, 0)[0 := 1], Stepped(32, 8, 9, 0), 0)
  }

  function SecondElements(pool: seq<seq<Handle>>): seq<Handle>
    requires |pool| == 128 && forall v :: 0 <= v < 64 ==> |pool[v]| >= 109
  {
    FirstElements(pool) + [pool[6][9]] + Missing(pool, Stepped(64, 8, 10, 0), Stepped(64, 89, 109, 9), 0)
  }

  function ThresholdRun(pool: seq<seq<Handle>>): seq<Op>
    requires |pool| == 128 && forall v :: 0 <= v < 64 ==> |pool[v]| >= 109
  {
    Adds(SecondElements(pool) + [pool[63][9]])
  }

  /** 58 elements in seven chains expand the table to 64 chains, with an ideal length of 1. */
  lemma FirstExpansion(cfg: Config, pool: seq<seq<Handle>>)
    requires Ample(cfg, pool)
    ensures Stage(cfg, pool, FirstElements(pool) + [pool[6][9]], Stepped(64, 8, 10, 0), Stepped(64, 8, 10, 0), 1)
  {
    hide Stage, Pool, Ample, Adds, Run, LegalRun, Stepped, Doubled, Sum, Mults, Excesses, CeilDiv, Missing;
    AmplePool(cfg, pool);
    FirstNumbers();
    FirstAdd(cfg, pool);
    var one, none, lens := Stepped(32, 0, 0, 0)[0 := 1], Stepped(32, 0, 0, 0), Stepped(32, 8, 9, 0);
    assert one == seq(32, j => if j == 0 then 1 else 0) && none == seq(32, j => 0);
    Fill(cfg, pool, [pool[0][0]], one, none, 0, lens, 0);
    StageCount(cfg, pool, FirstElements(pool), lens, none, 0);
    AddExpanding(cfg, pool, FirstElements(pool), lens, none, 0, 6, Stepped(64, 8, 10, 0), 1);
  }

  /** The bounds on chains are reached: the run's last add expands the table and leaves a chain of 10
      elements at the threshold 10. */
  lemma ThresholdIsReached(cfg: Config, pool: seq<seq<Handle>>)
    requires Ample(cfg, pool)
    ensures |ThresholdRun(pool)| == 1157 && AtThreshold(cfg, ThresholdRun(pool), 63)
    ensures Drawn(cfg, pool, SecondElements(pool) + [pool[63][9]])
  {
    hide Stage, Pool, Ample, Adds, Run, LegalRun, Stepped, Doubled, Sum, Mults, Excesses, CeilDiv;
    hide Missing, FirstElements;
    AmplePool(cfg, pool);
    SecondNumbers();
    FirstExpansion(cfg, pool);
    var low, lens := Stepped(64, 8, 10, 0), Stepped(64, 89, 109, 9);
    var hs, lens' := SecondElements(pool), Doubled(lens[63 := 10]);
    Fill(cfg, pool, FirstElements(pool) + [pool[6][9]], low, low, 1, lens, 0);
    StageCount(cfg, pool, hs, lens, low, 1);
    AddExpanding(cfg, pool, hs, lens, low, 1, 63, lens', 10);
    ThresholdReached(cfg, pool, hs, hs + [pool[63][9]], lens, low, lens', 1, 63);
    StageDrawn(cfg, pool, hs + [pool[63][9]], lens', Mults(lens', 10), 2);
  }

  lemma ThresholdReached(cfg: Config, pool: seq<seq<Handle>>, hs: seq<Handle>, hs': seq<Handle>,
                         lens: seq<nat>, mult: seq<nat>, lens': seq<nat>, e: nat, j: nat)
    requires Stage(cfg, pool, hs, lens, mult, e)
    requires Stage(cfg, pool, hs', lens', Mults(lens', CAPACITY_THRESH), e + 1) && |hs'| == |hs| + 1 && hs <= hs'
    requires Run(cfg, Adds(hs')).ideal == CAPACITY_THRESH && j < |lens'| && lens'[j] == CAPACITY_THRESH
    ensures AtThreshold(cfg, Adds(hs'), j)
  {
    hide Run, LegalRun, Stage, Adds;
    AddsSnoc(hs, hs'[|hs|]);
    assert hs' == hs + [hs'[|hs|]];
    assert Adds(hs')[..|Adds(hs')| - 1] == Adds(hs);
    TableOf(cfg, pool, hs, lens, mult, e);
    TableOf(cfg, pool, hs', lens', Mults(lens', CAPACITY_THRESH), e + 1);
    var t := Run(cfg, Adds(hs'));
    assert |t.chains[j]| == Lens(t.chains)[j] == CAPACITY_THRESH;
  }

  lemma RunIsLegal(cfg: Config, pool: seq<seq<Handle>>)
    requires Ample(cfg, pool)
    ensures |pool| == 128 && LegalRun(cfg, ThresholdRun(pool))
    ensures forall i :: 0 <= i < |ThresholdRun(pool)| ==>
      ThresholdRun(pool)[i].AddOp? && exists v :: 0 <= v < |pool| && ThresholdRun(pool)[i].h in pool[v]
  {
    hide *;
    AmplePool(cfg, pool);
    ThresholdIsReached(cfg, pool);
    ReachedLegally(cfg, ThresholdRun(pool), 63);
    DrawnAdds(cfg, pool, SecondElements(pool) + [pool[63][9]]);
    RunOf(pool);
  }

  lemma RunOf(pool: seq<seq<Handle>>)
    requires |pool| == 128 && forall v :: 0 <= v < 64 ==> |pool[v]| >= 109
    ensures ThresholdRun(pool) == Adds(SecondElements(pool) + [pool[63][9]])
  {
  }

  lemma ReachedLegally(cfg: Config, ops: seq<Op>, j: nat)
    requires AtThreshold(cfg, ops, j)
    ensures LegalRun(cfg, ops)
  {
    hide Run, LegalRun;
  }

  lemma DrawnAdds(cfg: Config, pool: seq<seq<Handle>>, hs: seq<Handle>)
    requires Drawn(cfg, pool, hs)
    ensures forall i :: 0 <= i < |Adds(hs)| ==>
      Adds(hs)[i].AddOp? && exists v :: 0 <= v < |pool| && Adds(hs)[i].h in pool[v]
  {
    forall i | 0 <= i < |Adds(hs)|
      ensures Adds(hs)[i].AddOp? && exists v :: 0 <= v < |pool| && Adds(hs)[i].h in pool[v]
    {
      assert Adds(hs)[i] == AddOp(hs[i]) && hs[i] in hs;
      assert hs[i] in pool[cfg.hash(hs[i].key)];
    }
  }
}
