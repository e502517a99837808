/** The invariant a cracked column keeps between queries, and the facts the
    query algorithm uses to keep it. */
module Cracked {
  import opened Column
  import opened Runs
  import opened Rows
  import opened CrackerIndex

  /** A cracked column between queries: the working copy is a permutation of
      the stored column aligned through the base index, it is tiled by
      marked runs, and the pivot index describes it. */
  ghost predicate Valid(c: IntCol) {
    && Shaped(c) && |c.v| == |c.crk|
    && Aligned(c)
    && multiset(c.baseIdx) == multiset(Iota(|c.v|))
    && multiset(c.crk) == multiset(c.v)
    && AllPositive(c.runLengths)
    && Tiled(c.crk, c.runLengths, 0, |c.crk|)
    && Splits(c.crk, c.crkIdx)
  }

  /** The answer for `x` is memoised: pivots `x` and `x+1` bracket one
      marked run holding `x`. */
  ghost predicate Memoized(c: IntCol, x: int) {
    && x in c.crkIdx && x + 1 in c.crkIdx
    && Block(c.crk, c.runLengths, c.crkIdx[x], c.crkIdx[x + 1])
    && c.crk[c.crkIdx[x]] == x
  }

  /** What a query may have changed so far, relative to the column `c0` it
      started from: the working copy, base index and run lengths only, the
      working copy only inside `[s0, s1)` and only by permuting it. */
  ghost predicate Frame(c0: IntCol, c: IntCol, s0: int, s1: int) {
    && c.v == c0.v && c.crkIdx == c0.crkIdx && c.ofs == c0.ofs
    && Shaped(c) && |c.crk| == |c0.crk|
    && Aligned(c)
    && multiset(c.baseIdx) == multiset(c0.baseIdx)
    && multiset(c.crk) == multiset(c0.crk)
    && AllPositive(c.runLengths)
    && 0 <= s0 <= s1 <= |c.crk|
    && (forall j :: 0 <= j < s0 ==> c.crk[j] == c0.crk[j])
    && (forall j :: s1 <= j < |c.crk| ==> c.crk[j] == c0.crk[j])
  }

  /** A column a query reached from a cracked column is cracked again once
      it is tiled and its pivot index describes it. */
  lemma FrameValid(c0: IntCol, c: IntCol, s0: int, s1: int)
    requires Valid(c0) && Frame(c0, c, s0, s1)
    requires Tiled(c.crk, c.runLengths, 0, |c.crk|) && Splits(c.crk, c.crkIdx)
    ensures Valid(c)
  {
  }

  /** A cracked column stays cracked under any pivot index that describes
      its working copy. */
  lemma Reindexed(c: IntCol, idx: Index)
    requires Valid(c) && Splits(c.crk, idx)
    ensures Valid(c.(crkIdx := idx))
  {
  }

  /** Writes one run-length marker. */
  function SetRun(c: IntCol, i: nat, r: nat): (c': IntCol)
    requires i < |c.runLengths|
    ensures c'.runLengths == c.runLengths[i := r]
    ensures c'.crk == c.crk && c'.baseIdx == c.baseIdx && c'.v == c.v
    ensures c'.crkIdx == c.crkIdx && c'.ofs == c.ofs
  {
    c.(runLengths := c.runLengths[i := r])
  }

  lemma FrameStart(c: IntCol, s0: int, s1: int)
    requires Valid(c) && 0 <= s0 <= s1 <= |c.crk|
    ensures Frame(c, c, s0, s1)
  {
  }

  lemma FrameSetRun(c0: IntCol, c: IntCol, s0: int, s1: int, i: nat, r: nat)
    requires Frame(c0, c, s0, s1) && i < |c.runLengths| && r >= 1
    ensures Frame(c0, SetRun(c, i, r), s0, s1)
  {
  }

  /** Replacing the run lengths by positive ones of the same length keeps
      the frame. */
  lemma FrameRuns(c0: IntCol, c: IntCol, s0: int, s1: int, rl: seq<nat>)
    requires Frame(c0, c, s0, s1) && |rl| == |c.runLengths| && AllPositive(rl)
    ensures Frame(c0, c.(runLengths := rl), s0, s1)
  {
  }

  lemma FrameSwap(c0: IntCol, c: IntCol, s0: int, s1: int, l: nat, a: nat, b: nat)
    requires Frame(c0, c, s0, s1)
    requires s0 <= a && a + l <= s1 && s0 <= b && b + l <= s1 && Swappable(l, a, b)
    ensures Frame(c0, SwapRange(c, l, a, b), s0, s1)
  {
    SwapRangeAligned(c, l, a, b);
    var r := SwapRange(c, l, a, b);
    forall j | 0 <= j < |c.crk| && (j < s0 || s1 <= j)
      ensures r.crk[j] == c.crk[j]
    {
      assert SwapSource(l, a, b, j) == j;
    }
    forall j | 0 <= j < |c.crk|
      ensures r.runLengths[j] >= 1
    {
      assert r.runLengths[j] == c.runLengths[SwapSource(l, a, b, j)];
    }
  }

  /** Permuting a sequence without touching `[..s0]` and `[s1..]` permutes
      `[s0..s1]`. */
  lemma SameMiddle(before: seq<int>, cur: seq<int>, s0: int, s1: int)
    requires |before| == |cur| && 0 <= s0 <= s1 <= |cur|
    requires multiset(cur) == multiset(before)
    requires before[..s0] == cur[..s0] && before[s1..] == cur[s1..]
    ensures multiset(before[s0..s1]) == multiset(cur[s0..s1])
  {
    MiddleMultiset(before, s0, s1);
    MiddleMultiset(cur, s0, s1);
  }

  lemma MiddleMultiset(s: seq<int>, s0: int, s1: int)
    requires 0 <= s0 <= s1 <= |s|
    ensures multiset(s[s0..s1]) == multiset(s) - multiset(s[..s0]) - multiset(s[s1..])
  {
    assert s == s[..s0] + s[s0..s1] + s[s1..];
  }

  lemma RegionValue(before: seq<int>, cur: seq<int>, s0: int, s1: int, i: int) returns (j: int)
    requires |before| == |cur| && 0 <= s0 <= i < s1 <= |cur|
    requires multiset(cur) == multiset(before)
    requires before[..s0] == cur[..s0] && before[s1..] == cur[s1..]
    ensures s0 <= j < s1 && before[j] == cur[i]
  {
    var mb, mc := before[s0..s1], cur[s0..s1];
    SameMiddle(before, cur, s0, s1);
    assert mc[i - s0] == cur[i];
    assert cur[i] in multiset(mc);
    assert cur[i] in mb;
    var k :| 0 <= k < |mb| && mb[k] == cur[i];
    j := s0 + k;
  }

  /** Permuting the working copy inside `[s0, s1)` keeps every pivot whose
      position is outside that range valid. */
  lemma FrameSplits(c0: IntCol, c: IntCol, s0: int, s1: int)
    requires Frame(c0, c, s0, s1) && Splits(c0.crk, c0.crkIdx)
    requires forall k :: k in c0.crkIdx ==> c0.crkIdx[k] <= s0 || s1 <= c0.crkIdx[k]
    ensures Splits(c.crk, c.crkIdx)
  {
    var n := |c.crk|;
    assert c0.crk[..s0] == c.crk[..s0];
    assert c0.crk[s1..] == c.crk[s1..];
    forall k, i | k in c.crkIdx && 0 <= i < n
      ensures i < c.crkIdx[k] ==> c.crk[i] < k
      ensures c.crkIdx[k] <= i ==> c.crk[i] >= k
    {
      if s0 <= i < s1 {
        var j := RegionValue(c0.crk, c.crk, s0, s1, i);
      }
    }
  }

  lemma SelectedRows(c: IntCol, x: int, lo: int, hi: int)
    requires Aligned(c) && |c.v| == |c.crk|
    requires 0 <= lo <= hi + 1 <= |c.crk|
    requires forall i :: 0 <= i < lo ==> c.crk[i] != x
    requires forall i :: lo <= i <= hi ==> c.crk[i] == x
    requires forall i :: hi < i < |c.crk| ==> c.crk[i] != x
    ensures InRange(c.baseIdx, |c.v|)
    ensures RowsWhere(c.baseIdx, c.v, x) == c.baseIdx[lo..hi + 1]
  {
    RowsWhereBand(c.baseIdx, c.v, x, lo, hi);
  }

  /** When exactly the positions `[lo, hi]` of the working copy hold `x`,
      their base indices are the rows of the stored column holding `x`. */
  lemma PartitionRows(c: IntCol, x: int, lo: int, hi: int)
    requires Aligned(c) && |c.v| == |c.crk| && multiset(c.baseIdx) == multiset(Iota(|c.v|))
    requires 0 <= lo <= hi + 1 <= |c.crk|
    requires forall i :: 0 <= i < lo ==> c.crk[i] != x
    requires forall i :: lo <= i <= hi ==> c.crk[i] == x
    requires forall i :: hi < i < |c.crk| ==> c.crk[i] != x
    ensures multiset(c.baseIdx[lo..hi + 1]) == multiset(Matching(c.v, x))
  {
    SelectedRows(c, x, lo, hi);
    RowsWherePermutation(c.baseIdx, Iota(|c.v|), c.v, x);
  }
}
