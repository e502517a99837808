/** The scan loop of `cracker_select_specific` (underswap lines 210-322,
    overswap lines 220-411).  Between the pointers the working copy is
    sorted into three groups: `[0, p_low)` below the queried value `x`,
    `[p_low, p_itr)` equal to it, `(p_high, n)` above it; `[p_itr, p_high]`
    is still unscanned.  Each round handles the whole run at `p_itr`. */
module Scan {
  import opened Column
  import opened Runs
  import opened Cracked
  import opened Tighten

  /** The three value groups of the scan. */
  ghost predicate Partitioned(crk: seq<int>, x: int, lo: int, itr: int, hi: int) {
    && 0 <= lo <= itr <= hi + 1 <= |crk|
    && (forall j :: 0 <= j < lo ==> crk[j] < x)
    && (forall j :: lo <= j < itr ==> crk[j] == x)
    && (forall j :: hi < j < |crk| ==> crk[j] > x)
  }

  /** Each of the four segments of the scan is a sequence of marked runs. */
  ghost predicate Segmented(crk: seq<int>, rl: seq<nat>, lo: int, itr: int, hi: int) {
    && Tiled(crk, rl, 0, lo) && Tiled(crk, rl, lo, itr)
    && Tiled(crk, rl, itr, hi + 1) && Tiled(crk, rl, hi + 1, |crk|)
  }

  /** Two facts that keep every read of the scan inside the column: while
      the scan goes on, `p_high` holds no value above `x`; and while
      `p_high` is the last slot and `p_low` meets `p_itr` on a run below
      `x`, a value above `x` follows that run before `p_high`. */
  ghost predicate InBounds(crk: seq<int>, rl: seq<nat>, x: int, lo: int, itr: int, hi: int) {
    && |crk| == |rl| && 0 <= lo <= itr <= hi + 1 <= |crk|
    && (itr <= hi ==> crk[hi] <= x)
    && (hi + 1 == |crk| && lo == itr <= hi && crk[lo] < x ==>
          itr + rl[itr] <= hi && crk[itr + rl[itr]] > x)
  }

  /** The loop invariant of the scan, relative to the column `c0` the query
      started from and the range `[s0, s1)` the pivot index left open. */
  ghost predicate ScanInv(c0: IntCol, c: IntCol, x: int, s0: int, s1: int, lo: int, itr: int, hi: int) {
    && Frame(c0, c, s0, s1)
    && s0 <= lo && hi + 1 <= s1
    && ScanShape(c.crk, c.runLengths, x, lo, itr, hi)
  }

  /** The part of the invariant about the working copy and run lengths. */
  ghost predicate ScanShape(crk: seq<int>, rl: seq<nat>, x: int, lo: int, itr: int, hi: int) {
    && Partitioned(crk, x, lo, itr, hi)
    && Segmented(crk, rl, lo, itr, hi)
    && InBounds(crk, rl, x, lo, itr, hi)
  }

  /** A round on a run equal to `x` (underswap lines 319-320, overswap
      lines 408-409) moves `p_itr` past the run and changes nothing else. */
  lemma EqualStep(crk: seq<int>, rl: seq<nat>, x: int, lo: int, itr: int, hi: int)
    requires ScanShape(crk, rl, x, lo, itr, hi) && itr <= hi && crk[itr] == x
    ensures 1 <= rl[itr] && ScanShape(crk, rl, x, lo, itr + rl[itr], hi)
  {
    TiledFirst(crk, rl, itr, hi + 1);
    BlockTiled(crk, rl, itr, itr + rl[itr]);
    TiledConcat(crk, rl, lo, itr, itr + rl[itr]);
  }

  /** `s'` is `s` with the disjoint ranges `[a, a+l)` and `[b, b+l)`
      exchanged, stated range by range. */
  ghost predicate Exchanged<T>(s: seq<T>, s': seq<T>, l: nat, a: nat, b: nat) {
    && |s'| == |s| && a + l <= |s| && b + l <= |s|
    && (forall j {:trigger s'[j]} :: a <= j < a + l ==> s'[j] == s[j - a + b])
    && (forall j {:trigger s'[j]} :: b <= j < b + l ==> s'[j] == s[j - b + a])
    && (forall j {:trigger s'[j]} :: 0 <= j < |s| && !(a <= j < a + l) && !(b <= j < b + l) ==> s'[j] == s[j])
  }

  lemma ExchangedInside<T>(s: seq<T>, s': seq<T>, l: nat, a: nat, b: nat, lo: int, hi: int)
    requires Exchanged(s, s', l, a, b)
    requires lo <= a && a + l <= hi + 1 && lo <= b && b + l <= hi + 1
    ensures SameOutside(s, s', lo, hi)
  {
  }

  /** Two exchanges inside `[lo, hi]`, after marker writes inside it, leave
      both arrays unchanged outside it. */
  lemma TwoExchangesFrame(crk: seq<int>, rl: seq<nat>, rlw: seq<nat>, crk3: seq<int>, rl3: seq<nat>,
                          crk': seq<int>, rl': seq<nat>, l1: nat, a1: nat, b1: nat,
                          l2: nat, a2: nat, b2: nat, lo: int, hi: int)
    requires SameOutside(rl, rlw, lo, hi)
    requires Exchanged(crk, crk3, l1, a1, b1) && Exchanged(rlw, rl3, l1, a1, b1)
    requires Exchanged(crk3, crk', l2, a2, b2) && Exchanged(rl3, rl', l2, a2, b2)
    requires lo <= a1 && a1 + l1 <= hi + 1 && lo <= b1 && b1 + l1 <= hi + 1
    requires lo <= a2 && a2 + l2 <= hi + 1 && lo <= b2 && b2 + l2 <= hi + 1
    ensures SameOutside(crk, crk', lo, hi) && SameOutside(rl, rl', lo, hi)
  {
    ExchangedTwiceInside(crk, crk3, crk', l1, a1, b1, l2, a2, b2, lo, hi);
    ExchangedTwiceInside(rlw, rl3, rl', l1, a1, b1, l2, a2, b2, lo, hi);
    SameOutsideTrans(rl, rlw, rl', lo, hi);
  }

  lemma ExchangedTwiceInside<T>(s: seq<T>, s1: seq<T>, s2: seq<T>, l1: nat, a1: nat, b1: nat,
                                l2: nat, a2: nat, b2: nat, lo: int, hi: int)
    requires Exchanged(s, s1, l1, a1, b1) && Exchanged(s1, s2, l2, a2, b2)
    requires lo <= a1 && a1 + l1 <= hi + 1 && lo <= b1 && b1 + l1 <= hi + 1
    requires lo <= a2 && a2 + l2 <= hi + 1 && lo <= b2 && b2 + l2 <= hi + 1
    ensures SameOutside(s, s2, lo, hi)
  {
    ExchangedInside(s, s1, l1, a1, b1, lo, hi);
    ExchangedInside(s1, s2, l2, a2, b2, lo, hi);
    SameOutsideTrans(s, s1, s2, lo, hi);
  }

  lemma SwapExchanged(c: IntCol, l: nat, a: nat, b: nat)
    requires Shaped(c) && a + l <= |c.crk| && b + l <= |c.crk| && Disjoint(l, a, b)
    ensures Exchanged(c.crk, SwapRange(c, l, a, b).crk, l, a, b)
    ensures Exchanged(c.runLengths, SwapRange(c, l, a, b).runLengths, l, a, b)
  {
  }

  /** `swap_range` as the scan uses it: the two ranges trade places in the
      working copy and the run lengths, and the query frame is kept. */
  method Exchange(ghost c0: IntCol, c: IntCol, ghost s0: int, ghost s1: int, l: nat, a: nat, b: nat)
    returns (c': IntCol)
    requires Frame(c0, c, s0, s1) && Disjoint(l, a, b)
    requires s0 <= a && a + l <= s1 && s0 <= b && b + l <= s1
    ensures Frame(c0, c', s0, s1)
    ensures Exchanged(c.crk, c'.crk, l, a, b) && Exchanged(c.runLengths, c'.runLengths, l, a, b)
  {
    c' := SwapRange(c, l, a, b);
    SwapExchanged(c, l, a, b);
    FrameSwap(c0, c, s0, s1, l, a, b);
  }

  /** Two run-length writes of the scan, in source order. */
  method SetRuns(ghost c0: IntCol, c: IntCol, ghost s0: int, ghost s1: int, i: nat, j: nat, r: nat)
    returns (c': IntCol)
    requires Frame(c0, c, s0, s1) && i < |c.crk| && j < |c.crk| && r >= 1
    ensures Frame(c0, c', s0, s1)
    ensures c'.crk == c.crk && c'.runLengths == c.runLengths[i := r][j := r]
  {
    FrameSetRun(c0, c, s0, s1, i, r);
    c' := SetRun(c, i, r);
    FrameSetRun(c0, c', s0, s1, j, r);
    c' := SetRun(c', j, r);
  }

  /** Exchanging a range with itself changes nothing. */
  lemma SwapSelf(c: IntCol, l: nat, a: nat)
    requires Shaped(c) && a + l <= |c.crk|
    ensures SwapRange(c, l, a, a) == c
  {
  }

  /** A tiled segment clear of both exchanged ranges stays tiled. */
  lemma ExchangeKeeps(crk: seq<int>, rl: seq<nat>, crk': seq<int>, rl': seq<nat>,
                      l: nat, a: nat, b: nat, lo: int, hi: int)
    requires Exchanged(crk, crk', l, a, b) && Exchanged(rl, rl', l, a, b)
    requires Tiled(crk, rl, lo, hi)
    requires hi <= a || a + l <= lo
    requires hi <= b || b + l <= lo
    ensures Tiled(crk', rl', lo, hi)
  {
    TiledFrame(crk, rl, crk', rl', lo, hi);
  }

  /** A tiled first range lands tiled in the second, with the ends of
      both ranges named. */
  lemma ExchangeCarries(crk: seq<int>, rl: seq<nat>, crk': seq<int>, rl': seq<nat>,
                        l: nat, a: nat, ae: int, b: nat, be: int)
    requires Exchanged(crk, crk', l, a, b) && Exchanged(rl, rl', l, a, b)
    requires ae == a + l && be == b + l && Tiled(crk, rl, a, ae)
    ensures Tiled(crk', rl', b, be)
  {
    TiledMoved(crk, rl, crk', rl', a, b, l);
  }

  /** Exchanging `[p1, p2)` with `[p3, p4)` keeps `[p0, p1)` and `[p2, p3)`
      tiled and brings the tiling of `[p3, p4)` down to `[p1, p2)`. */
  lemma ExchangeDown(crk: seq<int>, rl: seq<nat>, crk': seq<int>, rl': seq<nat>,
                     p0: nat, p1: nat, p2: nat, p3: nat, p4: nat)
    requires p0 <= p1 <= p2 <= p3 <= p4 && p4 - p3 == p2 - p1
    requires Exchanged(crk, crk', p2 - p1, p1, p3) && Exchanged(rl, rl', p2 - p1, p1, p3)
    requires Tiled(crk, rl, p0, p1) && Tiled(crk, rl, p2, p3) && Tiled(crk, rl, p3, p4)
    ensures Tiled(crk', rl', p0, p1) && Tiled(crk', rl', p1, p2) && Tiled(crk', rl', p2, p3)
  {
    ExchangeKeeps(crk, rl, crk', rl', p2 - p1, p1, p3, p0, p1);
    ExchangeReturns(crk, rl, crk', rl', p2 - p1, p1, p2, p3, p4);
    ExchangeKeeps(crk, rl, crk', rl', p2 - p1, p1, p3, p2, p3);
  }

  /** Exchanging `[p1, p2)` with `[p3, p4)` keeps `[p2, p3)` and `[p4, p5)`
      tiled and carries the tiling of `[p1, p2)` up to `[p3, p4)`. */
  lemma ExchangeUp(crk: seq<int>, rl: seq<nat>, crk': seq<int>, rl': seq<nat>,
                   p1: nat, p2: nat, p3: nat, p4: nat, p5: nat)
    requires p1 <= p2 <= p3 <= p4 <= p5 && p4 - p3 == p2 - p1
    requires Exchanged(crk, crk', p2 - p1, p1, p3) && Exchanged(rl, rl', p2 - p1, p1, p3)
    requires Tiled(crk, rl, p1, p2) && Tiled(crk, rl, p2, p3) && Tiled(crk, rl, p4, p5)
    ensures Tiled(crk', rl', p2, p3) && Tiled(crk', rl', p3, p4) && Tiled(crk', rl', p4, p5)
  {
    ExchangeKeeps(crk, rl, crk', rl', p2 - p1, p1, p3, p4, p5);
    ExchangeKeeps(crk, rl, crk', rl', p2 - p1, p1, p3, p2, p3);
    ExchangeCarries(crk, rl, crk', rl', p2 - p1, p1, p2, p3, p4);
  }

  /** Exchanging `[p1, p2)` with `[p5, p6)` keeps `[p3, p4)` and `[p4, p5)`
      tiled and brings the tiling of `[p5, p6)` down to `[p1, p2)`. */
  lemma ExchangeFar(crk: seq<int>, rl: seq<nat>, crk': seq<int>, rl': seq<nat>,
                    p1: nat, p2: nat, p3: nat, p4: nat, p5: nat, p6: nat)
    requires p1 <= p2 <= p3 <= p4 <= p5 <= p6 && p6 - p5 == p2 - p1
    requires Exchanged(crk, crk', p2 - p1, p1, p5) && Exchanged(rl, rl', p2 - p1, p1, p5)
    requires Tiled(crk, rl, p3, p4) && Tiled(crk, rl, p4, p5) && Tiled(crk, rl, p5, p6)
    ensures Tiled(crk', rl', p1, p2) && Tiled(crk', rl', p3, p4) && Tiled(crk', rl', p4, p5)
  {
    ExchangeReturns(crk, rl, crk', rl', p2 - p1, p1, p2, p5, p6);
    ExchangeKeeps(crk, rl, crk', rl', p2 - p1, p1, p5, p3, p4);
    ExchangeKeeps(crk, rl, crk', rl', p2 - p1, p1, p5, p4, p5);
  }

  lemma ExchangeReturns(crk: seq<int>, rl: seq<nat>, crk': seq<int>, rl': seq<nat>,
                        l: nat, a: nat, ae: int, b: nat, be: int)
    requires Exchanged(crk, crk', l, a, b) && Exchanged(rl, rl', l, a, b)
    requires ae == a + l && be == b + l && Tiled(crk, rl, b, be)
    ensures Tiled(crk', rl', a, ae)
  {
    TiledMoved(crk, rl, crk', rl', b, a, l);
  }

  lemma ExchangeMoves(crk: seq<int>, rl: seq<nat>, crk': seq<int>, rl': seq<nat>,
                      l: nat, a: nat, b: nat)
    requires Exchanged(crk, crk', l, a, b) && Exchanged(rl, rl', l, a, b)
    ensures Tiled(crk, rl, a, a + l) ==> Tiled(crk', rl', b, b + l)
    ensures Tiled(crk, rl, b, b + l) ==> Tiled(crk', rl', a, a + l)
  {
    if Tiled(crk, rl, a, a + l) {
      TiledMoved(crk, rl, crk', rl', a, b, l);
    }
    if Tiled(crk, rl, b, b + l) {
      TiledMoved(crk, rl, crk', rl', b, a, l);
    }
  }
}
