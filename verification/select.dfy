/** `cracker_select_specific` of both table variants: seeding from the
    pivot index, tightening, the scan, and recording the answer. */
module Select {
  import opened Wrappers
  import opened Column
  import opened Runs
  import opened Rows
  import opened CrackerIndex
  import opened Cracked
  import opened Tighten
  import opened Scan
  import opened LessRound
  import opened Greater
  import opened Underswap
  import opened Overswap

  /** The two tables differ only in the exchange of runs above `x`. */
  datatype Strategy = Under | Over

  /** One above-`x` round of the scan: the exchange of the strategy, then
      tighten-high (underswap lines 278-318, overswap lines 289-407). */
  method GreaterRound(strategy: Strategy, ghost c0: IntCol, c: IntCol, x: int, ghost s0: int, ghost s1: int,
                      lo: nat, itr: nat, hi: nat) returns (c': IntCol, hi': nat)
    requires ScanInv(c0, c, x, s0, s1, lo, itr, hi) && itr <= hi && c.crk[itr] > x
    ensures ScanInv(c0, c', x, s0, s1, lo, itr, hi')
    ensures hi' <= hi && (hi' < hi || c'.crk[itr] <= x)
  {
    GreaterSetup(c.crk, c.runLengths, x, lo, itr, hi);
    var c1, h1;
    if strategy == Under {
      c1, h1 := UnderGreater(c0, c, x, s0, s1, itr, hi);
    } else {
      c1, h1 := OverGreater(c0, c, x, s0, s1, itr, hi);
    }
    c', hi' := GreaterTighten(c0, c, c1, x, s0, s1, lo, itr, hi, h1);
  }

  /** Tighten-high after the exchange of an above-`x` round, from
      `p_high = h1`. */
  method GreaterTighten(ghost c0: IntCol, ghost c: IntCol, c1: IntCol, x: int, ghost s0: int, ghost s1: int,
                        lo: nat, itr: nat, hi: nat, h1: nat) returns (c': IntCol, hi': nat)
    requires ScanInv(c0, c, x, s0, s1, lo, itr, hi) && itr <= hi && c.crk[itr] > x
    requires GreaterPost(c0, c, c1, x, s0, s1, itr, hi, h1)
    ensures ScanInv(c0, c', x, s0, s1, lo, itr, hi')
    ensures hi' <= hi && (hi' < hi || c'.crk[itr] <= x)
  {
    var rl2, h2, hit := TightenHigh(c1.crk, c1.runLengths, x, lo, h1, itr);
    GreaterNoHit(c.crk, c.runLengths, c1.crk, c1.runLengths, x, itr, hi, h1, hit);
    GreaterTightenShape(c.crk, c.runLengths, c1.crk, c1.runLengths, rl2, x, lo, itr, hi, h1, h2);
    FrameRuns(c0, c1, s0, s1, rl2);
    c' := c1.(runLengths := rl2);
    hi' := h2;
  }

  /** The scan (underswap lines 210-322, overswap lines 220-411): runs
      below `x` join the low group, runs above `x` the high group, runs
      equal to `x` are passed over, until `p_itr` passes `p_high`.  When
      the scan starts on one marked run holding `x`, it changes nothing. */
  method ScanLoop(strategy: Strategy, ghost c0: IntCol, c: IntCol, x: int, ghost s0: int, ghost s1: int,
                  lo: nat, itr: nat, hi: nat) returns (c': IntCol, lo': nat, hi': nat)
    requires ScanInv(c0, c, x, s0, s1, lo, itr, hi)
    ensures ScanInv(c0, c', x, s0, s1, lo', hi' + 1, hi')
    ensures itr == lo && Block(c.crk, c.runLengths, lo, hi + 1) && c.crk[lo] == x ==>
              c' == c && lo' == lo && hi' == hi
  {
    ghost var memo := itr == lo && Block(c.crk, c.runLengths, lo, hi + 1) && c.crk[lo] == x;
    c', lo', hi' := c, lo, hi;
    var i := itr;
    while i <= hi'
      invariant ScanInv(c0, c', x, s0, s1, lo', i, hi')
      invariant memo ==> c' == c && lo' == lo && hi' == hi && (i == lo || i == hi + 1)
      decreases 2 * hi' + 2 - i - lo', if i <= hi' && c'.crk[i] > x then 1 else 0
    {
      if c'.crk[i] < x {
        c', lo', i := Less(c0, c', x, s0, s1, lo', i, hi');
      } else if c'.crk[i] > x {
        c', hi' := GreaterRound(strategy, c0, c', x, s0, s1, lo', i, hi');
      } else {
        EqualStep(c'.crk, c'.runLengths, x, lo', i, hi');
        i := i + c'.runLengths[i];
      }
    }
  }

  /** The state the pre-scan tightening leaves: everything before `lo` is
      below `x`, everything after `hi` above it, and unless the two
      pointers met, the scan can start with `p_itr` at `lo`. */
  ghost predicate Narrowed(crk: seq<int>, rl: seq<nat>, x: int, lo: int, hi: int) {
    && 0 <= lo <= hi + 1 && hi < |crk| == |rl|
    && (forall j :: 0 <= j < lo ==> crk[j] < x)
    && (forall j :: hi < j < |crk| ==> crk[j] > x)
    && (lo != hi ==> ScanShape(crk, rl, x, lo, lo, hi))
  }

  /** The pre-scan tightening (underswap lines 158-200, overswap lines
      168-210): tighten-low, then tighten-high.  `hit` reports that
      tighten-high found every value up to `p_high` above `x`; the source
      then indexes below slot 0 (see `TightenHighAsWritten`), the model
      stops with an empty answer. */
  method Narrow(crk: seq<int>, rl: seq<nat>, x: int, lo: nat, hi: nat)
    returns (rl': seq<nat>, lo': nat, hi': nat, hit: bool)
    requires |crk| == |rl| && AllPositive(rl) && lo < |crk| && hi < |crk| && lo <= hi + 1
    requires Tiled(crk, rl, 0, lo) && Tiled(crk, rl, lo, hi + 1) && Tiled(crk, rl, hi + 1, |crk|)
    requires forall j :: 0 <= j < lo ==> crk[j] < x
    requires forall j :: hi < j < |crk| ==> crk[j] > x
    ensures |rl'| == |rl| && AllPositive(rl') && Tiled(crk, rl', 0, |crk|)
    ensures hit ==> forall j :: 0 <= j < |crk| ==> crk[j] != x
    ensures !hit ==> lo <= lo' && hi' <= hi && Narrowed(crk, rl', x, lo', hi')
    ensures crk[lo] == x && crk[hi] == x ==> !hit && rl' == rl && lo' == lo && hi' == hi
  {
    var rl1, lo1 := TightenLow(crk, rl, x, lo, hi);
    NarrowLow(crk, rl, rl1, x, lo, hi, lo1);
    assert forall j :: 0 <= j < lo1 ==> crk[j] < x;
    lo' := lo1;
    if crk[hi] > x && hi > lo1 {
      rl', hi', hit := NarrowHighRuns(crk, rl1, x, lo1, hi);
    } else {
      rl', hi', hit := rl1, hi, false;
      NarrowSkip(crk, rl1, x, lo1, hi);
    }
  }

  /** Tighten-high when its loop runs at least once. */
  method NarrowHighRuns(crk: seq<int>, rl: seq<nat>, x: int, lo: nat, hi: nat)
    returns (rl': seq<nat>, hi': nat, hit: bool)
    requires |crk| == |rl| && AllPositive(rl) && lo < hi < |crk|
    requires Tiled(crk, rl, 0, lo) && Tiled(crk, rl, lo, hi + 1) && Tiled(crk, rl, hi + 1, |crk|)
    requires forall j :: 0 <= j < lo ==> crk[j] < x
    requires forall j :: hi < j < |crk| ==> crk[j] > x
    requires lo < hi ==> crk[lo] >= x
    ensures |rl'| == |rl| && AllPositive(rl') && Tiled(crk, rl', 0, |crk|)
    ensures hit ==> forall j :: 0 <= j < |crk| ==> crk[j] != x
    ensures !hit ==> hi' <= hi && Narrowed(crk, rl', x, lo, hi')
  {
    rl', hi', hit := TightenHigh(crk, rl, x, lo, hi, lo);
    NarrowHighShape(crk, rl, rl', x, lo, hi, hi', hit);
  }

  /** What tighten-high leaves, in the terms of `Narrowed`. */
  lemma NarrowHighShape(crk: seq<int>, rl: seq<nat>, rl': seq<nat>, x: int, lo: nat, hi: nat, hi': nat, hit: bool)
    requires |crk| == |rl| && AllPositive(rl) && lo < hi < |crk|
    requires Tiled(crk, rl, 0, lo) && Tiled(crk, rl, hi + 1, |crk|)
    requires forall j :: 0 <= j < lo ==> crk[j] < x
    requires forall j :: hi < j < |crk| ==> crk[j] > x
    requires lo < hi ==> crk[lo] >= x
    requires |rl'| == |rl| && AllPositive(rl') && SameOutside(rl, rl', lo, hi) && Tiled(crk, rl', lo, hi + 1)
    requires hit ==> lo == 0 && forall j :: 0 <= j <= hi ==> crk[j] > x
    requires !hit ==> && hi' <= hi && lo <= hi' + 1
                      && (forall j :: hi' < j <= hi ==> crk[j] > x)
                      && (crk[hi'] <= x || hi' <= lo)
                      && Tiled(crk, rl', lo, hi' + 1) && Tiled(crk, rl', hi' + 1, hi + 1)
    ensures Tiled(crk, rl', 0, |crk|)
    ensures hit ==> forall j :: 0 <= j < |crk| ==> crk[j] != x
    ensures !hit ==> Narrowed(crk, rl', x, lo, hi')
  {
    NarrowHigh(crk, rl, rl', x, lo, hi, hi', hit);
  }

  /** Tighten-high when its loop does not run: `p_high` already holds a
      value of at most `x`, or has met `p_low`. */
  lemma NarrowSkip(crk: seq<int>, rl: seq<nat>, x: int, lo: nat, hi: nat)
    requires |crk| == |rl| && lo <= hi + 1 && hi < |crk|
    requires lo != hi ==> Tiled(crk, rl, 0, lo) && Tiled(crk, rl, lo, hi + 1)
    requires Tiled(crk, rl, hi + 1, |crk|)
    requires forall j :: 0 <= j < lo ==> crk[j] < x
    requires forall j :: hi < j < |crk| ==> crk[j] > x
    requires lo < hi ==> crk[lo] >= x
    requires !(crk[hi] > x && hi > lo)
    ensures Narrowed(crk, rl, x, lo, hi)
  {
    if lo != hi {
      assert Tiled(crk, rl, lo, lo);
    }
  }

  /** After tighten-low the column is still tiled, and cut at `lo'` too
      unless tighten-low stopped on the last slot. */
  lemma NarrowLow(crk: seq<int>, rl: seq<nat>, rl1: seq<nat>, x: int, lo: nat, hi: nat, lo1: nat)
    requires |crk| == |rl| && lo <= hi + 1 && hi < |crk|
    requires Tiled(crk, rl, 0, lo) && Tiled(crk, rl, hi + 1, |crk|)
    requires SameOutside(rl, rl1, lo, hi) && lo <= lo1 <= hi + 1
    requires || (Tiled(crk, rl1, lo, lo1) && Tiled(crk, rl1, lo1, hi + 1))
             || (hi + 1 == |crk| && lo1 == hi && Tiled(crk, rl1, lo, hi + 1))
    ensures Tiled(crk, rl1, 0, |crk|) && Tiled(crk, rl1, hi + 1, |crk|)
    ensures lo1 != hi ==> Tiled(crk, rl1, 0, lo1) && Tiled(crk, rl1, lo1, hi + 1)
  {
    TiledOutside(crk, rl, crk, rl1, 0, lo, lo, hi);
    TiledOutside(crk, rl, crk, rl1, hi + 1, |crk|, lo, hi);
    if Tiled(crk, rl1, lo, lo1) && Tiled(crk, rl1, lo1, hi + 1) {
      TiledConcat(crk, rl1, 0, lo, lo1);
      TiledConcat(crk, rl1, 0, lo1, hi + 1);
    } else {
      TiledConcat(crk, rl1, 0, lo, hi + 1);
    }
    TiledConcat(crk, rl1, 0, hi + 1, |crk|);
  }

  /** After tighten-high the column is still tiled, cut at `lo` and after
      `hi'`. */
  lemma NarrowHigh(crk: seq<int>, rl1: seq<nat>, rl2: seq<nat>, x: int, lo: nat, hi: nat, h2: nat, hit: bool)
    requires |crk| == |rl1| && lo < hi < |crk|
    requires Tiled(crk, rl1, 0, lo) && Tiled(crk, rl1, hi + 1, |crk|)
    requires SameOutside(rl1, rl2, lo, hi) && Tiled(crk, rl2, lo, hi + 1)
    requires !hit ==> h2 <= hi && lo <= h2 + 1 && Tiled(crk, rl2, lo, h2 + 1) && Tiled(crk, rl2, h2 + 1, hi + 1)
    ensures Tiled(crk, rl2, 0, lo) && Tiled(crk, rl2, 0, |crk|)
    ensures !hit ==> Tiled(crk, rl2, h2 + 1, |crk|)
  {
    TiledOutside(crk, rl1, crk, rl2, 0, lo, lo, hi);
    TiledOutside(crk, rl1, crk, rl2, hi + 1, |crk|, lo, hi);
    TiledConcat(crk, rl2, 0, lo, hi + 1);
    TiledConcat(crk, rl2, 0, hi + 1, |crk|);
    if !hit {
      TiledConcat(crk, rl2, h2 + 1, hi + 1, |crk|);
    }
  }

  /** The answer recorded for `x`: the slots `[p, q)` of the working copy
      hold `x`, form one marked run, and the pivot index maps `x` to `p`
      and `x + 1` to `q`; the rows returned are their base indices. */
  ghost predicate RecordedAt(idx: Index, c': IntCol, x: int, rows: seq<nat>, p: int, q: int) {
    && 0 <= p < q <= |c'.crk| && |c'.baseIdx| == |c'.crk|
    && c'.crkIdx == Insert(Insert(idx, x, p), x + 1, q)
    && Block(c'.crk, c'.runLengths, p, q) && c'.crk[p] == x
    && rows == c'.baseIdx[p..q]
  }

  ghost predicate Recorded(idx: Index, c': IntCol, x: int, rows: seq<nat>) {
    exists p, q :: RecordedAt(idx, c', x, rows, p, q)
  }

  /** Writing the length of the `x` group at both its ends makes it one
      marked run of a tiled column. */
  lemma RecordTiles(crk: seq<int>, rl: seq<nat>, x: int, lo: nat, hi: nat)
    requires |crk| == |rl| && lo <= hi < |crk|
    requires Tiled(crk, rl, 0, lo) && Tiled(crk, rl, hi + 1, |crk|)
    requires forall j :: lo <= j <= hi ==> crk[j] == x
    ensures Block(crk, rl[lo := hi - lo + 1][hi := hi - lo + 1], lo, hi + 1)
    ensures Tiled(crk, rl[lo := hi - lo + 1][hi := hi - lo + 1], 0, |crk|)
  {
    var rl' := rl[lo := hi - lo + 1][hi := hi - lo + 1];
    TiledWrites(crk, rl, lo, hi, hi - lo + 1, 0, lo);
    TiledWrites(crk, rl, lo, hi, hi - lo + 1, hi + 1, |crk|);
    BlockTiled(crk, rl', lo, hi + 1);
    TiledConcat(crk, rl', 0, lo, hi + 1);
    TiledConcat(crk, rl', 0, hi + 1, |crk|);
  }

  /** The end of the query (underswap lines 324-336, overswap lines
      413-425): an empty `x` group gives no rows; otherwise its length is
      written at both its ends, the pivots `x -> p_low` and
      `x + 1 -> p_high + 1` are recorded, and its base indices returned. */
  method Record(ghost c0: IntCol, c: IntCol, x: int, ghost s0: int, ghost s1: int, lo: nat, hi: nat)
    returns (c': IntCol, rows: seq<nat>)
    requires Valid(c0) && ScanInv(c0, c, x, s0, s1, lo, hi + 1, hi)
    requires forall k :: k in c0.crkIdx ==> c0.crkIdx[k] <= s0 || s1 <= c0.crkIdx[k]
    ensures Valid(c') && c'.v == c0.v
    ensures multiset(rows) == multiset(Matching(c0.v, x))
    ensures hi < lo ==> c' == c && rows == []
    ensures lo <= hi ==> RecordedAt(c0.crkIdx, c', x, rows, lo, hi + 1)
    ensures Memoized(c, x) && c.crkIdx[x] == lo && c.crkIdx[x + 1] == hi + 1 ==>
              c' == c && rows == c.baseIdx[lo..hi + 1]
  {
    if hi < lo {
      c', rows := c, [];
      RecordNone(c0, c, x, s0, s1, lo, hi);
    } else {
      c', rows := RecordRun(c0, c, x, s0, s1, lo, hi);
    }
  }

  lemma RecordNone(c0: IntCol, c: IntCol, x: int, s0: int, s1: int, lo: nat, hi: int)
    requires Valid(c0) && ScanInv(c0, c, x, s0, s1, lo, hi + 1, hi) && hi < lo
    requires forall k :: k in c0.crkIdx ==> c0.crkIdx[k] <= s0 || s1 <= c0.crkIdx[k]
    ensures Valid(c) && c.v == c0.v
    ensures multiset(c.baseIdx[lo..hi + 1]) == multiset(Matching(c0.v, x))
  {
    FrameSplits(c0, c, s0, s1);
    TiledConcat(c.crk, c.runLengths, 0, lo, |c.crk|);
    FrameValid(c0, c, s0, s1);
    PartitionRows(c, x, lo, hi);
  }

  method RecordRun(ghost c0: IntCol, c: IntCol, x: int, ghost s0: int, ghost s1: int, lo: nat, hi: nat)
    returns (c': IntCol, rows: seq<nat>)
    requires Valid(c0) && ScanInv(c0, c, x, s0, s1, lo, hi + 1, hi) && lo <= hi
    requires forall k :: k in c0.crkIdx ==> c0.crkIdx[k] <= s0 || s1 <= c0.crkIdx[k]
    ensures Valid(c') && c'.v == c0.v
    ensures multiset(rows) == multiset(Matching(c0.v, x))
    ensures RecordedAt(c0.crkIdx, c', x, rows, lo, hi + 1)
    ensures Memoized(c, x) && c.crkIdx[x] == lo && c.crkIdx[x + 1] == hi + 1 ==>
              c' == c && rows == c.baseIdx[lo..hi + 1]
  {
    var r: nat := hi - lo + 1;
    c' := c.(runLengths := c.runLengths[lo := r][hi := r],
             crkIdx := Insert(Insert(c.crkIdx, x, lo), x + 1, hi + 1));
    rows := c'.baseIdx[lo..hi + 1];
    RecordValid(c0, c, c', x, s0, s1, lo, hi, r);
    RecordRows(c', x, lo, hi, c0.crkIdx);
    RecordAgain(c, c', x, lo, hi, r);
  }

  lemma RecordValid(c0: IntCol, c: IntCol, c': IntCol, x: int, s0: int, s1: int, lo: nat, hi: nat, r: nat)
    requires Valid(c0) && ScanInv(c0, c, x, s0, s1, lo, hi + 1, hi) && lo <= hi && r == hi - lo + 1
    requires forall k :: k in c0.crkIdx ==> c0.crkIdx[k] <= s0 || s1 <= c0.crkIdx[k]
    requires c' == c.(runLengths := c.runLengths[lo := r][hi := r],
                      crkIdx := Insert(Insert(c.crkIdx, x, lo), x + 1, hi + 1))
    ensures Valid(c') && c'.v == c0.v && Block(c'.crk, c'.runLengths, lo, hi + 1)
  {
    var c1 := c.(runLengths := c'.runLengths);
    RecordRunsValid(c0, c, c1, x, s0, s1, lo, hi);
    RecordSplits(c.crk, c.crkIdx, c'.crkIdx, x, lo, hi);
    Reindexed(c1, c'.crkIdx);
    assert c' == c1.(crkIdx := c'.crkIdx);
  }

  /** The marker writes alone keep the column cracked. */
  lemma RecordRunsValid(c0: IntCol, c: IntCol, c1: IntCol, x: int, s0: int, s1: int, lo: nat, hi: nat)
    requires Valid(c0) && ScanInv(c0, c, x, s0, s1, lo, hi + 1, hi) && lo <= hi
    requires forall k :: k in c0.crkIdx ==> c0.crkIdx[k] <= s0 || s1 <= c0.crkIdx[k]
    requires c1 == c.(runLengths := c.runLengths[lo := hi - lo + 1][hi := hi - lo + 1])
    ensures Valid(c1) && c1.v == c0.v && Block(c1.crk, c1.runLengths, lo, hi + 1)
    ensures forall j :: 0 <= j < lo ==> c1.crk[j] < x
    ensures forall j :: lo <= j <= hi ==> c1.crk[j] == x
    ensures forall j :: hi < j < |c1.crk| ==> c1.crk[j] > x
  {
    FrameSplits(c0, c, s0, s1);
    RecordTiles(c.crk, c.runLengths, x, lo, hi);
    FrameRuns(c0, c, s0, s1, c1.runLengths);
    FrameValid(c0, c1, s0, s1);
  }

  /** The rows returned are the rows holding `x`, and the answer is
      recorded. */
  lemma RecordRows(c': IntCol, x: int, lo: nat, hi: nat, idx: Index)
    requires Valid(c') && lo <= hi < |c'.crk| && Block(c'.crk, c'.runLengths, lo, hi + 1)
    requires forall j :: 0 <= j < lo ==> c'.crk[j] < x
    requires forall j :: lo <= j <= hi ==> c'.crk[j] == x
    requires forall j :: hi < j < |c'.crk| ==> c'.crk[j] > x
    requires c'.crkIdx == Insert(Insert(idx, x, lo), x + 1, hi + 1)
    ensures multiset(c'.baseIdx[lo..hi + 1]) == multiset(Matching(c'.v, x))
    ensures RecordedAt(idx, c', x, c'.baseIdx[lo..hi + 1], lo, hi + 1)
  {
    PartitionRows(c', x, lo, hi);
  }

  /** Recording both pivots keeps the index valid. */
  lemma RecordSplits(crk: seq<int>, idx: Index, idx': Index, x: int, lo: nat, hi: nat)
    requires Splits(crk, idx) && lo <= hi < |crk|
    requires forall j :: 0 <= j < lo ==> crk[j] < x
    requires forall j :: lo <= j <= hi ==> crk[j] == x
    requires forall j :: hi < j < |crk| ==> crk[j] > x
    requires idx' == Insert(Insert(idx, x, lo), x + 1, hi + 1)
    ensures Splits(crk, idx')
  {
    InsertSplits(crk, idx, x, lo);
    InsertSplits(crk, Insert(idx, x, lo), x + 1, hi + 1);
  }

  /** Recording an answer that is already memoised changes nothing. */
  lemma RecordAgain(c: IntCol, c': IntCol, x: int, lo: nat, hi: nat, r: nat)
    requires Shaped(c) && lo <= hi < |c.crk| && r == hi - lo + 1
    requires c' == c.(runLengths := c.runLengths[lo := r][hi := r],
                      crkIdx := Insert(Insert(c.crkIdx, x, lo), x + 1, hi + 1))
    ensures Memoized(c, x) && c.crkIdx[x] == lo && c.crkIdx[x + 1] == hi + 1 ==> c' == c
  {
    if Memoized(c, x) && c.crkIdx[x] == lo && c.crkIdx[x + 1] == hi + 1 {
      assert c'.runLengths == c.runLengths && c'.crkIdx == c.crkIdx;
    }
  }

  /** The seeds of a query for `x` on a cracked column: `p_low` is the
      position of the greatest pivot at most `x` (0 without one), `up` the
      position of the smallest pivot at least `x + 1` (the column's length
      without one), and `p_high` is `up - 1` (underswap lines 151-155,
      overswap lines 161-165). */
  lemma Seeds(c: IntCol, x: int, lo: nat, up: nat)
    requires Valid(c)
    requires lo == LowerBound(c.crkIdx, x).GetOr(0) && up == UpperBound(c.crkIdx, x + 1).GetOr(|c.crk|)
    ensures lo <= up <= |c.crk|
    ensures forall j :: 0 <= j < lo ==> c.crk[j] < x
    ensures forall j :: up <= j < |c.crk| ==> c.crk[j] > x
    ensures Tiled(c.crk, c.runLengths, 0, lo) && Tiled(c.crk, c.runLengths, lo, up)
    ensures Tiled(c.crk, c.runLengths, up, |c.crk|)
    ensures forall k :: k in c.crkIdx ==> c.crkIdx[k] <= lo || up <= c.crkIdx[k]
  {
    SeedBounds(c.crk, c.crkIdx, x);
    TiledSplit(c.crk, c.runLengths, 0, lo, |c.crk|);
    TiledSplit(c.crk, c.runLengths, lo, up, |c.crk|);
  }

  /** When the seeds leave no slot between them, no row holds `x`. */
  lemma EmptySeeds(c: IntCol, x: int)
    requires Valid(c)
    requires LowerBound(c.crkIdx, x).GetOr(0) == |c.crk| || UpperBound(c.crkIdx, x + 1).GetOr(|c.crk|) == 0
    ensures Matching(c.v, x) == []
  {
    Seeds(c, x, LowerBound(c.crkIdx, x).GetOr(0), UpperBound(c.crkIdx, x + 1).GetOr(|c.crk|));
    NoRows(c, x);
  }

  /** A memoised answer is found through its own pivots. */
  lemma MemoSeeds(c: IntCol, x: int)
    requires Valid(c) && Memoized(c, x)
    ensures LowerBound(c.crkIdx, x).GetOr(0) == c.crkIdx[x]
    ensures UpperBound(c.crkIdx, x + 1).GetOr(|c.crk|) == c.crkIdx[x + 1]
  {
  }

  /** With no value equal to `x`, no row holds `x`. */
  lemma NoRows(c: IntCol, x: int)
    requires Valid(c) && forall j :: 0 <= j < |c.crk| ==> c.crk[j] != x
    ensures Matching(c.v, x) == []
  {
    PartitionRows(c, x, 0, -1);
    assert c.baseIdx[0..0] == [];
  }

  /** A column whose run lengths the pre-scan tightening re-marked is still
      cracked. */
  lemma NarrowValid(c: IntCol, rl: seq<nat>)
    requires Valid(c) && |rl| == |c.runLengths| && AllPositive(rl) && Tiled(c.crk, rl, 0, |c.crk|)
    ensures Valid(c.(runLengths := rl))
  {
    FrameRuns(c, c, 0, |c.crk|, rl);
    FrameValid(c, c.(runLengths := rl), 0, |c.crk|);
  }

  lemma MetRows(c: IntCol, x: int, p: nat)
    requires Valid(c) && p < |c.crk|
    requires forall j :: 0 <= j < p ==> c.crk[j] < x
    requires forall j :: p < j < |c.crk| ==> c.crk[j] > x
    ensures c.crk[p] == x ==> multiset(c.baseIdx[p..p + 1]) == multiset(Matching(c.v, x))
    ensures c.crk[p] != x ==> Matching(c.v, x) == []
  {
    if c.crk[p] == x {
      PartitionRows(c, x, p, p);
    } else {
      PartitionRows(c, x, p, p - 1);
      assert c.baseIdx[p..p] == [];
    }
  }

  /** The scan and the recording of the answer, once the pointers have not
      met. */
  method ScanAndRecord(strategy: Strategy, ghost c0: IntCol, c: IntCol, x: int, ghost s0: int, ghost s1: int,
                       lo: nat, hi: nat)
    returns (c': IntCol, rows: seq<nat>)
    requires Valid(c0) && ScanInv(c0, c, x, s0, s1, lo, lo, hi)
    requires forall k :: k in c0.crkIdx ==> c0.crkIdx[k] <= s0 || s1 <= c0.crkIdx[k]
    ensures Valid(c') && c'.v == c0.v
    ensures multiset(rows) == multiset(Matching(c0.v, x))
    ensures c'.crkIdx == c0.crkIdx || Recorded(c0.crkIdx, c', x, rows)
    ensures |rows| > 1 ==> Recorded(c0.crkIdx, c', x, rows)
    ensures Memoized(c, x) && c.crkIdx[x] == lo && c.crkIdx[x + 1] == hi + 1 ==>
              c' == c && rows == c.baseIdx[lo..hi + 1]
  {
    ghost var memo := Memoized(c, x) && c.crkIdx[x] == lo && c.crkIdx[x + 1] == hi + 1;
    var c2, lo2, hi2 := ScanLoop(strategy, c0, c, x, s0, s1, lo, lo, hi);
    c', rows := Record(c0, c2, x, s0, s1, lo2, hi2);
    if memo {
      MemoKept(c, c2, c', x, rows, lo, hi, lo2, hi2);
    }
    Answered(c0.crkIdx, c2, c', x, rows, lo2, hi2);
  }

  /** A memoised answer survives the scan and the recording unchanged. */
  lemma MemoKept(c: IntCol, c2: IntCol, c': IntCol, x: int, rows: seq<nat>, lo: int, hi: int, lo2: int, hi2: int)
    requires Shaped(c) && Shaped(c2)
    requires Memoized(c, x) && c.crkIdx[x] == lo && c.crkIdx[x + 1] == hi + 1
    requires Block(c.crk, c.runLengths, lo, hi + 1) && c.crk[lo] == x ==> c2 == c && lo2 == lo && hi2 == hi
    requires Memoized(c2, x) && c2.crkIdx[x] == lo2 && c2.crkIdx[x + 1] == hi2 + 1 ==>
               c' == c2 && rows == c2.baseIdx[lo2..hi2 + 1]
    ensures c' == c && rows == c.baseIdx[lo..hi + 1]
  {
  }

  /** Either the query recorded its answer or it left the index alone, and
      an answer of more than one row is always recorded. */
  lemma Answered(idx: Index, c2: IntCol, c': IntCol, x: int, rows: seq<nat>, lo: int, hi: int)
    requires c2.crkIdx == idx
    requires hi < lo ==> c' == c2 && rows == []
    requires lo <= hi ==> RecordedAt(idx, c', x, rows, lo, hi + 1)
    ensures c'.crkIdx == idx || Recorded(idx, c', x, rows)
    ensures |rows| > 1 ==> Recorded(idx, c', x, rows)
  {
  }

  /** A query between the seeds `lo` and `hi`: the pre-scan tightening,
      then the scan and the recording of the answer. */
  method QueryBetween(strategy: Strategy, c: IntCol, x: int, lo: nat, hi: nat)
    returns (c': IntCol, rows: seq<nat>)
    requires Valid(c) && lo < |c.crk| && hi < |c.crk| && lo <= hi + 1
    requires forall j :: 0 <= j < lo ==> c.crk[j] < x
    requires forall j :: hi < j < |c.crk| ==> c.crk[j] > x
    requires Tiled(c.crk, c.runLengths, 0, lo) && Tiled(c.crk, c.runLengths, lo, hi + 1)
    requires Tiled(c.crk, c.runLengths, hi + 1, |c.crk|)
    requires forall k :: k in c.crkIdx ==> c.crkIdx[k] <= lo || hi + 1 <= c.crkIdx[k]
    ensures Valid(c') && c'.v == c.v
    ensures multiset(rows) == multiset(Matching(c.v, x))
    ensures c'.crkIdx == c.crkIdx || Recorded(c.crkIdx, c', x, rows)
    ensures |rows| > 1 ==> Recorded(c.crkIdx, c', x, rows)
    ensures Memoized(c, x) && c.crkIdx[x] == lo && c.crkIdx[x + 1] == hi + 1 ==>
              c' == c && rows == c.baseIdx[lo..hi + 1]
  {
    ghost var memo := Memoized(c, x) && c.crkIdx[x] == lo && c.crkIdx[x + 1] == hi + 1;
    if memo {
      MemoEnds(c, x, lo, hi);
    }
    var rl1, lo1, hi1, hit := Narrow(c.crk, c.runLengths, x, lo, hi);
    var c1 := c.(runLengths := rl1);
    NarrowValid(c, rl1);
    if memo {
      SameRuns(c, rl1);
    }
    if hit {
      NoRows(c1, x);
      return c1, [];
    }
    if lo1 == hi1 {
      rows := Met(c1, x, lo1);
      return c1, rows;
    }
    FrameRuns(c, c, lo, hi + 1, rl1);
    c', rows := ScanAndRecord(strategy, c, c1, x, lo, hi + 1, lo1, hi1);
    if memo {
      MemoPassed(c, c1, c', x, rows, lo, hi, lo1, hi1);
    }
  }

  lemma SameRuns(c: IntCol, rl: seq<nat>)
    requires rl == c.runLengths
    ensures c.(runLengths := rl) == c
  {
  }

  lemma MemoPassed(c: IntCol, c1: IntCol, c': IntCol, x: int, rows: seq<nat>, lo: int, hi: int, lo1: int, hi1: int)
    requires Shaped(c) && c1 == c && lo1 == lo && hi1 == hi
    requires Memoized(c, x) && c.crkIdx[x] == lo && c.crkIdx[x + 1] == hi + 1
    requires Memoized(c1, x) && c1.crkIdx[x] == lo1 && c1.crkIdx[x + 1] == hi1 + 1 ==>
               c' == c1 && rows == c1.baseIdx[lo1..hi1 + 1]
    ensures c' == c && rows == c.baseIdx[lo..hi + 1]
  {
  }

  /** The slots a memoised answer spans both hold `x`. */
  lemma MemoEnds(c: IntCol, x: int, lo: nat, hi: nat)
    requires Memoized(c, x) && c.crkIdx[x] == lo && c.crkIdx[x + 1] == hi + 1
    ensures c.crk[lo] == x && c.crk[hi] == x
  {
  }

  /** When the pointers meet (underswap lines 202-208, overswap lines
      212-218) the answer is the row at that slot if it holds `x`, and
      nothing else. */
  method Met(c: IntCol, x: int, p: nat) returns (rows: seq<nat>)
    requires Valid(c) && p < |c.crk|
    requires forall j :: 0 <= j < p ==> c.crk[j] < x
    requires forall j :: p < j < |c.crk| ==> c.crk[j] > x
    ensures multiset(rows) == multiset(Matching(c.v, x))
    ensures c.crk[p] == x ==> rows == c.baseIdx[p..p + 1]
    ensures c.crk[p] != x ==> rows == []
  {
    MetRows(c, x, p);
    if c.crk[p] == x {
      rows := c.baseIdx[p..p + 1];
    } else {
      rows := [];
    }
  }

  /** `cracker_select_specific` of the underswap table (`strategy ==
      Under`, underswap lines 149-337) and of the overswap table
      (`strategy == Over`, overswap lines 153-426), on the cracked column:
      the base indices of exactly the rows holding `x`.  The column stays
      cracked; its stored values never change; a query that seeds outside
      the column changes nothing; a query whose answer is memoised changes
      nothing and returns the memoised run; any pivot recorded is the answer. */
  method Query(strategy: Strategy, c: IntCol, x: int) returns (c': IntCol, rows: seq<nat>)
    requires Valid(c)
    ensures Valid(c') && c'.v == c.v
    ensures multiset(rows) == multiset(Matching(c.v, x))
    ensures (LowerBound(c.crkIdx, x).GetOr(0) == |c.crk| || UpperBound(c.crkIdx, x + 1).GetOr(|c.crk|) == 0) ==>
              c' == c && rows == []
    ensures Memoized(c, x) ==> c' == c && rows == c.baseIdx[c.crkIdx[x]..c.crkIdx[x + 1]]
    ensures c'.crkIdx == c.crkIdx || Recorded(c.crkIdx, c', x, rows)
    ensures |rows| > 1 ==> Recorded(c.crkIdx, c', x, rows)
  {
    var lo := LowerBound(c.crkIdx, x).GetOr(0);
    if lo == |c.crk| {
      EmptySeeds(c, x);
      return c, [];
    }
    var up := UpperBound(c.crkIdx, x + 1).GetOr(|c.crk|);
    if up == 0 {
      EmptySeeds(c, x);
      return c, [];
    }
    Seeds(c, x, lo, up);
    if Memoized(c, x) {
      MemoSeeds(c, x);
    }
    c', rows := QueryBetween(strategy, c, x, lo, up - 1);
  }

  /** Both strategies answer every query alike: the same rows up to order,
      the stored values untouched, and a memoised answer returned as it
      stands by both. */
  method BothStrategies(c: IntCol, x: int) returns (cu: IntCol, ru: seq<nat>, co: IntCol, ro: seq<nat>)
    requires Valid(c)
    ensures Valid(cu) && Valid(co) && cu.v == co.v
    ensures multiset(ru) == multiset(ro)
    ensures Memoized(c, x) ==> cu == co && ru == ro
  {
    cu, ru := Query(Under, c, x);
    co, ro := Query(Over, c, x);
  }
}
