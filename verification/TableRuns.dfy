/** What holds over whole runs of HASH_ADD, HASH_DELETE and HASH_SRT from an empty table, for any hash
    function. */
module TableRuns {
  import opened Bits
  import opened Common
  import opened Seqs
  import opened Handles
  import opened TableSpec
  import TableLaws
  import opened TableMeaning

  datatype Op = AddOp(h: Handle) | DeleteOp(h: Handle) | SortOp(cmp: (Handle, Handle) -> int)

  ghost function Step(cfg: Config, t: Table, op: Op): (r: Table)
    requires Shape(t)
    ensures Shape(r)
  {
    match op
    case AddOp(h) => Add(cfg, t, h)
    case DeleteOp(h) => Delete(cfg, t, h)
    case SortOp(cmp) => Resort(t, cmp)
  }

  /** What the macros ask of their callers. */
  ghost predicate Legal(t: Table, op: Op) {
    match op
    case AddOp(h) => h !in Elements(t)
    case DeleteOp(h) => h in Elements(t)
    case SortOp(_) => true
  }

  ghost function Run(cfg: Config, ops: seq<Op>): (r: Table)
    ensures Shape(r)
  {
    if ops == [] then NoTable else Step(cfg, Run(cfg, ops[..|ops| - 1]), ops[|ops| - 1])
  }

  ghost predicate LegalRun(cfg: Config, ops: seq<Op>) {
    ops == [] || (LegalRun(cfg, ops[..|ops| - 1]) && Legal(Run(cfg, ops[..|ops| - 1]), ops[|ops| - 1]))
  }

  lemma StepKeepsInv(cfg: Config, t: Table, op: Op)
    requires Inv(cfg, t) && Legal(t, op)
    ensures Inv(cfg, Step(cfg, t, op))
  {
    match op {
      case AddOp(h) => TableLaws.AddKeepsInv(cfg, t, h);
      case DeleteOp(h) => TableLaws.DeleteKeepsInv(cfg, t, h);
      case SortOp(cmp) => TableLaws.ResortKeepsInv(cfg, t, cmp);
    }
  }

  lemma {:induction false} RunKeepsInv(cfg: Config, ops: seq<Op>)
    requires LegalRun(cfg, ops)
    ensures Inv(cfg, Run(cfg, ops))
  {
    if ops != [] {
      RunKeepsInv(cfg, ops[..|ops| - 1]);
      StepKeepsInv(cfg, Run(cfg, ops[..|ops| - 1]), ops[|ops| - 1]);
    }
  }

  // ----- Bounded chains

  /** While expansion is allowed, the load is bounded and so is every chain. */
  lemma RunLoadBound(cfg: Config, ops: seq<Op>)
    requires LegalRun(cfg, ops)
    ensures var t := Run(cfg, ops);
      t.Table? && !t.noexpand ==>
        && |t.order| <= 19 * |t.chains|
        && forall j :: 0 <= j < |t.chains| ==> |t.chains[j]| <= CAPACITY_THRESH * (t.mult[j] + 1)
  {
    RunKeepsInv(cfg, ops);
    var t := Run(cfg, ops);
    if t.Table? && !t.noexpand {
      var w: seq<nat> :| WeightedBy(t, w);
      TableLaws.WeightedLoad(t, w);
    }
  }

  lemma {:induction false} DoubledFrom32(k: nat)
    ensures Pow2(INITIAL_LOG2 + k) == 32 * Pow2(k)
  {
    if k == 0 {
      assert Pow2(1) == 2 && Pow2(2) == 4 && Pow2(3) == 8 && Pow2(4) == 16;
    } else {
      DoubledFrom32(k - 1);
    }
  }

  /** For each call since the table was made that doubled the buckets: whether more than half of the
      elements were misplaced afterwards. */
  ghost function Verdicts(cfg: Config, ops: seq<Op>): seq<bool> {
    if ops == [] then []
    else
      var t, r := Run(cfg, ops[..|ops| - 1]), Run(cfg, ops);
      if t.NoTable? || r.NoTable? then []
      else if |r.chains| > |t.chains| then Verdicts(cfg, ops[..|ops| - 1]) + [Ineffective(r, |r.order|)]
      else Verdicts(cfg, ops[..|ops| - 1])
  }

  lemma StepHistory(cfg: Config, t: Table, op: Op)
    requires Inv(cfg, t) && Legal(t, op)
    ensures var r := Step(cfg, t, op);
      r.Table? ==>
        r.history ==
          if t.NoTable? then []
          else if |r.chains| > |t.chains| then t.history + [Ineffective(r, |r.order|)]
          else t.history
  {
    match op {
      case AddOp(h) =>
        if t.NoTable? {
          FirstAddMeaning(cfg, h);
        } else {
          AddMeaning(cfg, t, h);
        }
      case DeleteOp(h) =>
        DeleteMeaning(cfg, t, h);
      case SortOp(_) =>
    }
  }

  /** The recorded history is the list of those verdicts. */
  lemma {:induction false} HistoryIsVerdicts(cfg: Config, ops: seq<Op>)
    requires LegalRun(cfg, ops)
    ensures Run(cfg, ops).Table? ==> Run(cfg, ops).history == Verdicts(cfg, ops)
  {
    if ops != [] {
      hide Inv, Step, Legal, Ineffective;
      LastStep(cfg, ops);
      RunKeepsInv(cfg, ops[..|ops| - 1]);
      HistoryIsVerdicts(cfg, ops[..|ops| - 1]);
      StepHistory(cfg, Run(cfg, ops[..|ops| - 1]), ops[|ops| - 1]);
    }
  }

  /** The bucket count doubles with each verdict, the ideal length stays within the threshold, and
      expansion is inhibited exactly when the last two verdicts were bad. */
  ghost predicate ExpansionRecord(t: Table, verdicts: seq<bool>)
    requires t.Table?
  {
    && |t.chains| == 32 * Pow2(|verdicts|)
    && (verdicts != [] ==> 1 <= t.ideal <= 10)
    && t.ineff == TrailingRun(verdicts)
    && (t.noexpand <==> |verdicts| >= 2 && verdicts[|verdicts| - 1] && verdicts[|verdicts| - 2])
  }

  lemma RunCounters(cfg: Config, ops: seq<Op>)
    requires LegalRun(cfg, ops) && Run(cfg, ops).Table?
    ensures ExpansionRecord(Run(cfg, ops), Verdicts(cfg, ops))
  {
    hide *;
    RunKeepsInv(cfg, ops);
    InvCounted(cfg, Run(cfg, ops));
    CountersMean(Run(cfg, ops));
    HistoryIsVerdicts(cfg, ops);
  }

  lemma InvCounted(cfg: Config, t: Table)
    requires Inv(cfg, t) && t.Table?
    ensures Shape(t) && Counted(t)
  {
  }

  lemma CountersMean(t: Table)
    requires t.Table? && Shape(t) && Counted(t)
    ensures ExpansionRecord(t, t.history)
  {
    DoubledFrom32(|t.history|);
    TrailingTwo(t.history);
  }

  lemma TrailingTwo(s: seq<bool>)
    ensures TrailingRun(s) >= 2 <==> |s| >= 2 && s[|s| - 1] && s[|s| - 2]
  {
    if s != [] && s[|s| - 1] {
      var u := s[..|s| - 1];
      assert TrailingRun(s) == 1 + TrailingRun(u);
    }
  }

  /** Once expansion is inhibited, the bucket count is frozen as long as the table lives. */
  lemma InhibitedForGood(cfg: Config, t: Table, op: Op)
    requires Inv(cfg, t) && t.Table? && t.noexpand && Legal(t, op)
    ensures var r := Step(cfg, t, op);
      r.Table? ==> r.noexpand && |r.chains| == |t.chains| && r.mult == t.mult && r.history == t.history
  {
  }

  /** The table after more operations. */
  ghost function Continue(cfg: Config, t: Table, ops: seq<Op>): (r: Table)
    requires Shape(t)
    ensures Shape(r)
    decreases |ops|
  {
    if ops == [] then t else Continue(cfg, Step(cfg, t, ops[0]), ops[1..])
  }

  lemma {:induction false} RunContinues(cfg: Config, before: seq<Op>, after: seq<Op>)
    ensures Continue(cfg, Run(cfg, before), after) == Run(cfg, before + after)
    decreases |after|
  {
    if after == [] {
      assert before + after == before;
    } else {
      var more := before + [after[0]];
      assert more[..|more| - 1] == before;
      RunContinues(cfg, more, after[1..]);
      assert more + after[1..] == before + after;
    }
  }

  /** The operations are legal, and none of them frees the table. */
  ghost predicate LivesOn(cfg: Config, t: Table, ops: seq<Op>)
    requires Shape(t)
    decreases |ops|
  {
    t.Table? && (ops != [] ==> Legal(t, ops[0]) && LivesOn(cfg, Step(cfg, t, ops[0]), ops[1..]))
  }

  /** From then on the bucket count never changes, however long the table lives. */
  lemma {:induction false} InhibitedRun(cfg: Config, t: Table, ops: seq<Op>)
    requires Inv(cfg, t) && LivesOn(cfg, t, ops) && t.noexpand
    ensures var r := Continue(cfg, t, ops);
      r.Table? && r.noexpand && |r.chains| == |t.chains| && r.mult == t.mult && r.history == t.history
    decreases |ops|
  {
    if ops != [] {
      InhibitedForGood(cfg, t, ops[0]);
      StepKeepsInv(cfg, t, ops[0]);
      InhibitedRun(cfg, Step(cfg, t, ops[0]), ops[1..]);
    }
  }

  // ----- Lookup

  lemma {:induction false} FirstWithKeyIs(c: seq<Handle>, key: Key)
    ensures var r := FirstWithKey(c, key);
      if r == null then forall h | h in c :: h.key != key else r in c && r.key == key
    ensures var r := FirstWithKey(c, key);
      r != null ==> exists i :: 0 <= i < |c| && c[i] == r && forall k :: 0 <= k < i ==> c[k].key != key
  {
    if c != [] && c[0].key != key {
      FirstWithKeyIs(c[1..], key);
      assert c == [c[0]] + c[1..];
      if FirstWithKey(c, key) != null {
        var i :| 0 <= i < |c[1..]| && c[1..][i] == FirstWithKey(c, key) &&
          forall k :: 0 <= k < i ==> c[1..][k].key != key;
        assert c[i + 1] == FirstWithKey(c, key) && forall k :: 0 < k < i + 1 ==> c[k] == c[1..][k - 1];
      }
    }
  }

  /** HASH_FIND finds an element with the key if there is one, and reports null otherwise. */
  lemma FindIsExact(cfg: Config, t: Table, key: Key)
    requires Shape(t) && (t.Table? ==> Placed(cfg, t))
    ensures var r := FindUnfiltered(cfg, t, key);
      if r == null then forall h | h in Elements(t) :: h.key != key else r in Elements(t) && r.key == key
  {
    if t.Table? {
      var j := cfg.hash(key) % |t.chains|;
      FirstWithKeyIs(t.chains[j], key);
      assert ChainPlaced(cfg, t, j);
      forall h | h in t.order && h.key == key
        ensures h in t.chains[j]
      {
      }
    }
  }

  /** The Bloom filter never hides an element: HASH_FIND answers as if it were not there. */
  lemma FilterIsTransparent(cfg: Config, t: Table, key: Key)
    requires Inv(cfg, t)
    ensures Find(cfg, t, key) == FindUnfiltered(cfg, t, key)
  {
    FindIsExact(cfg, t, key);
  }

  /** A table filled by HASH_SELECT has an empty filter: with HASH_BLOOM its lookups find nothing, so
      they are right exactly for absent keys. */
  lemma SelectedFind(cfg: Config, t: Table, key: Key)
    requires t.Table? && Shape(t) && Placed(cfg, t) && t.filter == {}
    ensures Find(cfg, t, key) == FindUnfiltered(cfg, t, key) <==>
            cfg.bloom.None? || forall h | h in t.order :: h.key != key
  {
    FindIsExact(cfg, t, key);
  }

  /** So with HASH_BLOOM no selected element can be looked up. */
  lemma SelectedMisses(cfg: Config, t: Table, h: Handle)
    requires t.Table? && Shape(t) && Placed(cfg, t) && t.filter == {}
    requires cfg.bloom.Some? && h in t.order
    ensures Find(cfg, t, h.key) == null && FindUnfiltered(cfg, t, h.key) != null
  {
    FindIsExact(cfg, t, h.key);
  }

  /** The finite map that the table stands for when keys are distinct. */
  ghost function MapAfter(ops: seq<Op>): map<Key, Handle> {
    if ops == [] then map[]
    else
      var m := MapAfter(ops[..|ops| - 1]);
      match ops[|ops| - 1]
      case AddOp(h) => m[h.key := h]
      case DeleteOp(h) => m - {h.key}
      case SortOp(_) => m
  }

  /** Every added element has a key that is not in the table yet. */
  ghost predicate DistinctKeys(cfg: Config, ops: seq<Op>) {
    ops == [] || (DistinctKeys(cfg, ops[..|ops| - 1]) &&
      (ops[|ops| - 1].AddOp? ==> forall x | x in Elements(Run(cfg, ops[..|ops| - 1])) :: x.key != ops[|ops| - 1].h.key))
  }

  /** The elements are exactly the map's values, each under its own key. */
  ghost predicate Agrees(s: seq<Handle>, m: map<Key, Handle>) {
    && (forall h | h in s :: h.key in m && m[h.key] == h)
    && (forall k | k in m :: m[k] in s && m[k].key == k)
  }

  lemma AgreesAdd(s: seq<Handle>, m: map<Key, Handle>, h: Handle)
    requires Agrees(s, m) && forall x | x in s :: x.key != h.key
    ensures Agrees(s + [h], m[h.key := h])
  {
  }

  lemma AgreesDelete(s: seq<Handle>, m: map<Key, Handle>, h: Handle)
    requires Agrees(s, m) && h in s
    ensures Agrees(Without(s, h), m - {h.key})
  {
    forall x | x in s
      ensures x in Without(s, h) <==> x != h
    {
      WithoutIn(s, h, x);
    }
    forall x | x in Without(s, h)
      ensures x in s
    {
      WithoutIn(s, h, x);
    }
  }

  lemma {:induction false} RunAgrees(cfg: Config, ops: seq<Op>)
    requires LegalRun(cfg, ops) && DistinctKeys(cfg, ops)
    ensures Agrees(Elements(Run(cfg, ops)), MapAfter(ops))
  {
    if ops != [] {
      var init, op := ops[..|ops| - 1], ops[|ops| - 1];
      var t, m := Run(cfg, init), MapAfter(init);
      RunAgrees(cfg, init);
      RunKeepsInv(cfg, init);
      match op {
        case AddOp(h) =>
          TableLaws.AddKeepsInv(cfg, t, h);
          AgreesAdd(Elements(t), m, h);
        case DeleteOp(h) =>
          TableLaws.DeleteKeepsInv(cfg, t, h);
          AgreesDelete(Elements(t), m, h);
        case SortOp(cmp) =>
          TableLaws.ResortKeepsInv(cfg, t, cmp);
          SameElements(Elements(t), Elements(Resort(t, cmp)));
      }
    }
  }

  lemma SameElements(s: seq<Handle>, t: seq<Handle>)
    requires multiset(s) == multiset(t)
    ensures forall h :: h in s <==> h in t
  {
    forall h
      ensures h in s <==> h in t
    {
      assert h in s <==> h in multiset(s);
      assert h in t <==> h in multiset(t);
    }
  }

  /** With distinct keys HASH_FIND is lookup in a finite map, whatever the hash function, with or
      without the Bloom filter, across expansions and sorts. */
  lemma FindRefinesMap(cfg: Config, ops: seq<Op>, key: Key)
    requires LegalRun(cfg, ops) && DistinctKeys(cfg, ops)
    ensures var m := MapAfter(ops);
      Find(cfg, Run(cfg, ops), key) == if key in m then m[key] else null
  {
    var t := Run(cfg, ops);
    RunKeepsInv(cfg, ops);
    RunAgrees(cfg, ops);
    FindIsExact(cfg, t, key);
    FilterIsTransparent(cfg, t, key);
  }

  // ----- Chains and filter over runs

  /** Every chain holds its bucket's elements, the newest first. */
  ghost predicate Stacked(cfg: Config, t: Table)
    requires t.Table? && Shape(t)
  {
    forall j :: 0 <= j < |t.chains| ==> t.chains[j] == Reverse(Filter(InBucket(cfg, |t.chains|, j), t.order))
  }

  lemma StackedAdd(cfg: Config, t: Table, h: Handle)
    requires t.Table? && Shape(t) && Placed(cfg, t) && Stacked(cfg, t) && h !in t.order
    requires |Add(cfg, t, h).chains| == |t.chains|
    ensures Stacked(cfg, Add(cfg, t, h))
  {
    var r, b := Add(cfg, t, h), |t.chains|;
    AddMeaning(cfg, t, h);
    forall j | 0 <= j < b
      ensures r.chains[j] == Reverse(Filter(InBucket(cfg, b, j), r.order))
    {
      var p := InBucket(cfg, b, j);
      FilterAppend(p, t.order, [h]);
      assert Filter(p, [h]) == if p(h) then [h] else [];
      if p(h) {
        TableLaws.ReverseSnoc(Filter(p, t.order), h);
      } else {
        assert Filter(p, t.order) + [] == Filter(p, t.order);
      }
    }
  }

  lemma StackedFirst(cfg: Config, h: Handle)
    ensures Stacked(cfg, Add(cfg, NoTable, h))
  {
    FirstAddMeaning(cfg, h);
  }

  lemma StackedDelete(cfg: Config, t: Table, h: Handle)
    requires t.Table? && Shape(t) && Placed(cfg, t) && Stacked(cfg, t) && h in t.order && |t.order| != 1
    ensures Delete(cfg, t, h).Table? && Stacked(cfg, Delete(cfg, t, h))
  {
    var r, b := Delete(cfg, t, h), |t.chains|;
    DeleteMeaning(cfg, t, h);
    hide Delete;
    forall j | 0 <= j < b
      ensures r.chains[j] == Reverse(Filter(InBucket(cfg, b, j), r.order))
    {
      WithoutReverse(Filter(InBucket(cfg, b, j), t.order), h);
      FilterWithout(InBucket(cfg, b, j), t.order, h);
    }
  }

  lemma {:induction false} WithoutReverse(s: seq<Handle>, h: Handle)
    ensures Without(Reverse(s), h) == Reverse(Without(s, h))
  {
    if s != [] {
      WithoutReverse(s[1..], h);
      WithoutAppend(Reverse(s[1..]), [s[0]], h);
      WithoutAppend([s[0]], s[1..], h);
      assert s == [s[0]] + s[1..];
      var rest := Without(s[1..], h);
      if s[0] == h {
        assert Without([s[0]], h) == [] && [] + rest == rest && Reverse(rest) + [] == Reverse(rest);
      } else {
        assert Without([s[0]], h) == [s[0]] && ([s[0]] + rest)[1..] == rest;
      }
    }
  }

  lemma {:induction false} FilterWithout(p: Handle -> bool, s: seq<Handle>, h: Handle)
    ensures Filter(p, Without(s, h)) == Without(Filter(p, s), h)
  {
    if s != [] {
      FilterWithout(p, s[1..], h);
      var u := if p(s[0]) then [s[0]] else [];
      WithoutAppend(u, Filter(p, s[1..]), h);
      if s[0] != h {
        assert Without(s, h) == [s[0]] + Without(s[1..], h);
        FilterAppend(p, [s[0]], Without(s[1..], h));
        assert Filter(p, [s[0]]) == u && Without(u, h) == u;
      } else {
        assert Without(s, h) == Without(s[1..], h) && Without(u, h) == [];
      }
    }
  }

  /** As long as the buckets were not doubled since the table was made, and without sorting, every chain
      holds its bucket's elements, the newest first. */
  lemma {:induction false} RunStacked(cfg: Config, ops: seq<Op>)
    requires LegalRun(cfg, ops) && forall i :: 0 <= i < |ops| ==> !ops[i].SortOp?
    requires Run(cfg, ops).Table? && |Run(cfg, ops).chains| == 32
    ensures Stacked(cfg, Run(cfg, ops))
  {
    hide Stacked, Step, Legal, Inv, Placed, Add, Delete;
    var init, op := ops[..|ops| - 1], ops[|ops| - 1];
    var t := Run(cfg, init);
    LastStep(cfg, ops);
    RunKeepsInv(cfg, init);
    StepSize(cfg, t, op);
    if t.Table? {
      RunStacked(cfg, init);
      if op.AddOp? {
        StackedAdd(cfg, t, op.h);
      } else {
        StackedDelete(cfg, t, op.h);
      }
    } else {
      StackedFirst(cfg, op.h);
    }
  }

  /** What a call that is not a sort needs and does, by the size of the table. */
  lemma StepSize(cfg: Config, t: Table, op: Op)
    requires Inv(cfg, t) && Legal(t, op) && !op.SortOp? && Step(cfg, t, op).Table?
    ensures t.NoTable? ==> op.AddOp?
    ensures t.Table? ==> Placed(cfg, t) && 32 <= |t.chains| <= |Step(cfg, t, op).chains|
    ensures Step(cfg, t, op) == if op.AddOp? then Add(cfg, t, op.h) else Delete(cfg, t, op.h)
    ensures t.Table? ==> if op.AddOp? then op.h !in t.order else op.h in t.order && |t.order| != 1
  {
    if t.Table? {
      DoubledFrom32(|t.history|);
      if op.AddOp? {
        AddMeaning(cfg, t, op.h);
      } else {
        DeleteMeaning(cfg, t, op.h);
      }
    }
  }

  /** The elements added since the table was made. */
  ghost function SinceMade(cfg: Config, ops: seq<Op>): seq<Handle> {
    if ops == [] || Run(cfg, ops).NoTable? then []
    else SinceMade(cfg, ops[..|ops| - 1]) + if ops[|ops| - 1].AddOp? then [ops[|ops| - 1].h] else []
  }

  /** The filter bits of hs: the low bits of the hash values. */
  ghost function BitsOf(cfg: Config, hs: seq<Handle>): set<nat> {
    if cfg.bloom.None? then {}
    else set k | 0 <= k < |hs| :: cfg.hash(hs[k].key) % Pow2(Min(cfg.bloom.value, 32))
  }

  lemma BitsOfMore(cfg: Config, hs: seq<Handle>, h: Handle)
    ensures BitsOf(cfg, []) == {}
    ensures BitsOf(cfg, hs + [h]) ==
            BitsOf(cfg, hs) + if cfg.bloom.None? then {} else {FilterIndex(cfg.bloom.value, cfg.hash(h.key))}
  {
    if cfg.bloom.Some? {
      TableLaws.FilterIndexIsMod(cfg.bloom.value, cfg.hash(h.key));
      hide FilterIndex;
      var n, more := Pow2(Min(cfg.bloom.value, 32)), hs + [h];
      forall k | 0 <= k < |more|
        ensures cfg.hash(more[k].key) % n in BitsOf(cfg, hs) + {FilterIndex(cfg.bloom.value, cfg.hash(h.key))}
      {
        assert k < |hs| ==> more[k] == hs[k];
      }
      forall k | 0 <= k < |hs|
        ensures cfg.hash(hs[k].key) % n in BitsOf(cfg, more)
      {
        assert more[k] == hs[k];
      }
      assert more[|hs|] == h;
    }
  }

  lemma StepFilter(cfg: Config, t: Table, op: Op)
    requires Inv(cfg, t) && Legal(t, op)
    ensures var r := Step(cfg, t, op);
      r.Table? ==>
        r.filter == (if t.NoTable? then {} else t.filter) +
          if op.AddOp? && cfg.bloom.Some? then {FilterIndex(cfg.bloom.value, cfg.hash(op.h.key))} else {}
    ensures t.NoTable? && !op.AddOp? ==> Step(cfg, t, op).NoTable?
  {
    hide FilterIndex;
    match op {
      case AddOp(h) =>
        if t.NoTable? {
          FirstAddMeaning(cfg, h);
        } else {
          AddMeaning(cfg, t, h);
        }
      case DeleteOp(h) =>
        DeleteMeaning(cfg, t, h);
      case SortOp(_) =>
    }
  }

  /** The Bloom filter has exactly the bits of the elements added since the table was made. */
  lemma {:induction false} RunFilter(cfg: Config, ops: seq<Op>)
    requires LegalRun(cfg, ops) && Run(cfg, ops).Table?
    ensures Run(cfg, ops).filter == BitsOf(cfg, SinceMade(cfg, ops))
  {
    hide Inv, Step, Legal, BitsOf, FilterIndex, LegalRun;
    var init, op := ops[..|ops| - 1], ops[|ops| - 1];
    LastStep(cfg, ops);
    RunKeepsInv(cfg, init);
    StepFilter(cfg, Run(cfg, init), op);
    if Run(cfg, init).Table? {
      RunFilter(cfg, init);
    }
    if op.AddOp? {
      BitsOfMore(cfg, SinceMade(cfg, init), op.h);
    }
    assert SinceMade(cfg, init) + [] == SinceMade(cfg, init);
  }

  // ----- Application order

  ghost predicate DeletedIn(h: Handle, ops: seq<Op>) {
    exists i :: 0 <= i < |ops| && ops[i] == DeleteOp(h)
  }

  /** The added elements that no later operation deletes, in the order of their addition. */
  ghost function Survivors(ops: seq<Op>): seq<Handle> {
    if ops == [] then []
    else
      (if ops[0].AddOp? && !DeletedIn(ops[0].h, ops[1..]) then [ops[0].h] else []) + Survivors(ops[1..])
  }

  lemma {:induction false} SurvivorsAdd(ops: seq<Op>, h: Handle)
    ensures Survivors(ops + [AddOp(h)]) == Survivors(ops) + [h]
  {
    var all := ops + [AddOp(h)];
    if ops == [] {
      assert all == [AddOp(h)] && all[1..] == [];
    } else {
      SurvivorsAdd(ops[1..], h);
      assert all[1..] == ops[1..] + [AddOp(h)];
      DeletedInMore(ops[0], ops[1..], AddOp(h));
      var u := if ops[0].AddOp? && !DeletedIn(ops[0].h, ops[1..]) then [ops[0].h] else [];
      assert Survivors(all) == u + (Survivors(ops[1..]) + [h]);
      Associate(u, Survivors(ops[1..]), [h]);
    }
  }

  lemma DeletedInMore(op: Op, ops: seq<Op>, last: Op)
    ensures op.AddOp? ==> (DeletedIn(op.h, ops + [last]) <==> DeletedIn(op.h, ops) || last == DeleteOp(op.h))
  {
    if op.AddOp? {
      var all := ops + [last];
      if DeletedIn(op.h, ops) {
        var i :| 0 <= i < |ops| && ops[i] == DeleteOp(op.h);
        assert all[i] == DeleteOp(op.h);
      }
      if last == DeleteOp(op.h) {
        assert all[|ops|] == DeleteOp(op.h);
      }
    }
  }

  lemma {:induction false} SurvivorsDelete(ops: seq<Op>, h: Handle)
    ensures Survivors(ops + [DeleteOp(h)]) == Without(Survivors(ops), h)
  {
    var all := ops + [DeleteOp(h)];
    if ops == [] {
      assert all[1..] == [];
    } else {
      SurvivorsDelete(ops[1..], h);
      assert all[1..] == ops[1..] + [DeleteOp(h)];
      DeletedInMore(ops[0], ops[1..], DeleteOp(h));
      var u := if ops[0].AddOp? && !DeletedIn(ops[0].h, ops[1..]) then [ops[0].h] else [];
      WithoutAppend(u, Survivors(ops[1..]), h);
      assert Survivors(ops) == u + Survivors(ops[1..]);
      assert u != [] ==> u[1..] == [];
    }
  }

  /** What one call does to the application order. */
  lemma StepElements(cfg: Config, t: Table, op: Op)
    requires Inv(cfg, t) && Legal(t, op)
    ensures op.AddOp? ==> Elements(Step(cfg, t, op)) == Elements(t) + [op.h]
    ensures op.DeleteOp? ==> Elements(Step(cfg, t, op)) == Without(Elements(t), op.h)
  {
    match op {
      case AddOp(h) => TableLaws.AddKeepsInv(cfg, t, h);
      case DeleteOp(h) => TableLaws.DeleteKeepsInv(cfg, t, h);
      case SortOp(_) =>
    }
  }

  lemma LastStep(cfg: Config, ops: seq<Op>)
    requires LegalRun(cfg, ops) && ops != []
    ensures var init, op := ops[..|ops| - 1], ops[|ops| - 1];
      && ops == init + [op] && LegalRun(cfg, init) && Legal(Run(cfg, init), op)
      && Run(cfg, ops) == Step(cfg, Run(cfg, init), op)
  {
  }

  /** Without sorting, the application order is insertion order minus deletions. */
  lemma {:induction false} RunOrder(cfg: Config, ops: seq<Op>)
    requires LegalRun(cfg, ops) && forall i :: 0 <= i < |ops| ==> !ops[i].SortOp?
    ensures Elements(Run(cfg, ops)) == Survivors(ops)
  {
    if ops != [] {
      hide *;
      var init, op := ops[..|ops| - 1], ops[|ops| - 1];
      LastStep(cfg, ops);
      RunOrder(cfg, init);
      RunKeepsInv(cfg, init);
      StepElements(cfg, Run(cfg, init), op);
      if op.AddOp? {
        SurvivorsAdd(init, op.h);
        assert op == AddOp(op.h);
      } else {
        SurvivorsDelete(init, op.h);
        assert op == DeleteOp(op.h);
      }
    }
  }

  // ----- All elements

  /** No element is lost or duplicated: the chains together hold each element once. */
  lemma ChainsHoldAll(cfg: Config, t: Table)
    requires t.Table? && |t.chains| > 0 && Placed(cfg, t)
    ensures Distinct(Flatten<Handle>(t.chains)) && |Flatten<Handle>(t.chains)| == |t.order|
    ensures forall i :: 0 <= i < |Flatten<Handle>(t.chains)| ==> Flatten<Handle>(t.chains)[i] in t.order
    ensures forall h | h in t.order :: h in Flatten<Handle>(t.chains)
  {
    forall i | 0 <= i < |t.chains|
      ensures Distinct(t.chains[i])
    {
      assert ChainPlaced(cfg, t, i);
    }
    forall i, j, h | 0 <= i < j < |t.chains| && h in t.chains[i]
      ensures h !in t.chains[j]
    {
      assert ChainPlaced(cfg, t, i) && ChainPlaced(cfg, t, j);
    }
    FlattenDistinct(t.chains);
    FlattenLength(t.chains);
    forall k | 0 <= k < |Flatten<Handle>(t.chains)|
      ensures Flatten<Handle>(t.chains)[k] in t.order
    {
      var h := Flatten<Handle>(t.chains)[k];
      FlattenIn(t.chains, h);
      var i :| 0 <= i < |t.chains| && h in t.chains[i];
      assert ChainPlaced(cfg, t, i);
    }
    forall h | h in t.order
      ensures h in Flatten<Handle>(t.chains)
    {
      FlattenIn(t.chains, h);
      assert h in t.chains[BucketOf(cfg, h, |t.chains|)];
    }
  }

  lemma {:induction false} FlattenLength(ss: seq<seq<Handle>>)
    ensures |Flatten(ss)| == Sum(Lens(ss))
  {
    if ss != [] {
      FlattenLength(ss[1..]);
      assert Lens(ss)[1..] == Lens(ss[1..]);
    }
  }

  lemma {:induction false} FlattenIn(ss: seq<seq<Handle>>, h: Handle)
    ensures h in Flatten(ss) <==> exists i :: 0 <= i < |ss| && h in ss[i]
  {
    if ss != [] {
      FlattenIn(ss[1..], h);
      if h in Flatten(ss[1..]) {
        var i :| 0 <= i < |ss[1..]| && h in ss[1..][i];
        assert h in ss[i + 1];
      }
      if i :| 0 < i < |ss| && h in ss[i] {
        assert h in ss[1..][i - 1];
      }
    }
  }

  lemma {:induction false} FlattenDistinct(ss: seq<seq<Handle>>)
    requires forall i :: 0 <= i < |ss| ==> Distinct(ss[i])
    requires forall i, j, h | 0 <= i < j < |ss| && h in ss[i] :: h !in ss[j]
    ensures Distinct(Flatten(ss))
  {
    if ss != [] {
      FlattenDistinct(ss[1..]);
      forall h | h in ss[0]
        ensures h !in Flatten(ss[1..])
      {
        FlattenIn(ss[1..], h);
      }
      DistinctAppend(ss[0], Flatten(ss[1..]));
    }
  }
}
