/** One "below `x`" round of the scan (underswap lines 213-277, overswap
    lines 224-289): the run at `p_itr` joins the group below `x` by an
    exchange with the front of the `x` group, then tighten-low skips what
    already lies below `x`. */
module LessRound {
  import opened Column
  import opened Runs
  import opened Cracked
  import opened Tighten
  import opened Scan

  /** What the swap of a "below `x`" round leaves for tighten-low, on the
      working copy and the run lengths: the run moved below `p_low`, the
      groups and segments intact, and no change outside `[p_low, p_high]`.
      `itr'` is where the scan resumes once `p_itr` is lifted to `p_low`
      (underswap lines 275-277). */
  ghost predicate LessShape(crk: seq<int>, rl: seq<nat>, crk': seq<int>, rl': seq<nat>, x: int,
                            lo: int, itr: int, hi: int, lo': int, itr': int) {
    && SameOutside(crk, crk', lo, hi) && SameOutside(rl, rl', lo, hi)
    && lo < lo' < |crk| && lo' <= hi + 1 && itr <= itr' <= hi + 1
    && Partitioned(crk', x, lo', itr', hi)
    && Segmented(crk', rl', lo', itr', hi)
    && 0 <= hi < |crk'| && crk'[hi] <= x
    && (hi + 1 == |crk| ==> crk'[lo'] >= x)
  }

  /** The same, for the whole column. */
  ghost predicate LessPost(c0: IntCol, c: IntCol, c': IntCol, x: int, s0: int, s1: int,
                           lo: int, itr: int, hi: int, lo': int, itr': int) {
    && Frame(c0, c', s0, s1)
    && LessShape(c.crk, c.runLengths, c'.crk, c'.runLengths, x, lo, itr, hi, lo', itr')
  }

  /** Below-`x` round with `p_low == p_itr`: the run is already in place
      (the source's exchange of the run with itself changes nothing) and
      `p_low` skips it. */
  lemma SelfShape(crk: seq<int>, rl: seq<nat>, x: int, lo: nat, itr: nat, hi: nat, lo': int, itr': int)
    requires ScanShape(crk, rl, x, lo, itr, hi) && itr <= hi && crk[itr] < x
    requires lo == itr
    ensures rl[itr] >= 1 && itr + rl[itr] <= |crk|
    requires lo' == lo + rl[itr] && itr' == lo + rl[itr]
    ensures LessShape(crk, rl, crk, rl, x, lo, itr, hi, lo', itr')
  {
    TiledFirst(crk, rl, itr, hi + 1);
    var ri := rl[itr];
    BlockTiled(crk, rl, lo, lo + ri);
    TiledConcat(crk, rl, 0, lo, lo + ri);
    assert Tiled(crk, rl, lo + ri, lo + ri);
  }

  method LessSelf(ghost c0: IntCol, c: IntCol, x: int, ghost s0: int, ghost s1: int,
                  lo: nat, itr: nat, hi: nat) returns (lo': nat, itr': nat)
    requires ScanInv(c0, c, x, s0, s1, lo, itr, hi) && itr <= hi && c.crk[itr] < x
    requires lo == itr
    ensures LessPost(c0, c, c, x, s0, s1, lo, itr, hi, lo', itr')
    ensures lo' == itr' == lo + c.runLengths[itr]
  {
    lo', itr' := lo + c.runLengths[itr], lo + c.runLengths[itr];
    SelfShape(c.crk, c.runLengths, x, lo, itr, hi, lo', itr');
  }

  /** Values of a below-`x` round that exchanges the run at `p_itr` with
      the equally long first run of the `x` group. */
  lemma LessHeadValues(crk: seq<int>, crk': seq<int>, x: int, lo: nat, itr: nat, hi: nat, ri: nat)
    requires Partitioned(crk, x, lo, itr, hi) && itr <= hi && crk[hi] <= x
    requires 1 <= ri && lo + ri <= itr && itr + ri <= hi + 1
    requires forall j :: itr <= j < itr + ri ==> crk[j] < x
    requires Exchanged(crk, crk', ri, lo, itr)
    ensures Partitioned(crk', x, lo + ri, itr, hi)
    ensures crk'[hi] <= x && crk'[lo + ri] == x
  {
    if lo + ri < itr {
      assert crk'[lo + ri] == crk[lo + ri];
    }
  }

  /** Runs of the same round: the moved run lands at `p_low`, the first `x`
      run lands at `p_itr`, everything else stays. */
  lemma LessHeadTiles(crk: seq<int>, rl: seq<nat>, crk': seq<int>, rl': seq<nat>,
                      lo: nat, itr: nat, hi: nat, ri: nat)
    requires Segmented(crk, rl, lo, itr, hi) && lo < itr <= hi
    requires ri == rl[lo] == rl[itr]
    requires Exchanged(crk, crk', ri, lo, itr) && Exchanged(rl, rl', ri, lo, itr)
    ensures lo + ri <= itr && itr + ri <= hi + 1
    ensures Segmented(crk', rl', lo + ri, itr, hi)
  {
    TiledFirst(crk, rl, lo, itr);
    TiledFirst(crk, rl, itr, hi + 1);
    LessHeadLow(crk, rl, crk', rl', lo, itr, ri);
    LessHeadHigh(crk, rl, crk', rl', lo, itr, hi, ri);
    ExchangeKeeps(crk, rl, crk', rl', ri, lo, itr, hi + 1, |crk|);
  }

  lemma LessHeadLow(crk: seq<int>, rl: seq<nat>, crk': seq<int>, rl': seq<nat>,
                    lo: nat, itr: nat, ri: nat)
    requires Tiled(crk, rl, 0, lo) && Tiled(crk, rl, lo + ri, itr) && lo + ri <= itr
    requires Block(crk, rl, itr, itr + ri)
    requires Exchanged(crk, crk', ri, lo, itr) && Exchanged(rl, rl', ri, lo, itr)
    ensures Tiled(crk', rl', 0, lo + ri) && Tiled(crk', rl', lo + ri, itr)
  {
    BlockTiled(crk, rl, itr, itr + ri);
    ExchangeMoves(crk, rl, crk', rl', ri, lo, itr);
    ExchangeKeeps(crk, rl, crk', rl', ri, lo, itr, 0, lo);
    TiledConcat(crk', rl', 0, lo, lo + ri);
    ExchangeKeeps(crk, rl, crk', rl', ri, lo, itr, lo + ri, itr);
  }

  lemma LessHeadHigh(crk: seq<int>, rl: seq<nat>, crk': seq<int>, rl': seq<nat>,
                     lo: nat, itr: nat, hi: nat, ri: nat)
    requires lo + ri <= itr
    requires Block(crk, rl, lo, lo + ri) && Tiled(crk, rl, itr + ri, hi + 1)
    requires Exchanged(crk, crk', ri, lo, itr) && Exchanged(rl, rl', ri, lo, itr)
    ensures Tiled(crk', rl', itr, hi + 1)
  {
    BlockTiled(crk, rl, lo, lo + ri);
    ExchangeMoves(crk, rl, crk', rl', ri, lo, itr);
    ExchangeKeeps(crk, rl, crk', rl', ri, lo, itr, itr + ri, hi + 1);
    TiledConcat(crk', rl', itr, itr + ri, hi + 1);
  }

  lemma HeadShape(crk: seq<int>, rl: seq<nat>, crk': seq<int>, rl': seq<nat>,
                  x: int, lo: nat, itr: nat, hi: nat, lo': int, itr': int)
    requires ScanShape(crk, rl, x, lo, itr, hi) && itr <= hi && crk[itr] < x
    requires lo < itr && rl[itr] == rl[lo]
    requires Exchanged(crk, crk', rl[itr], lo, itr) && Exchanged(rl, rl', rl[itr], lo, itr)
    requires lo' == lo + rl[itr] && itr' == itr
    ensures LessShape(crk, rl, crk', rl', x, lo, itr, hi, lo', itr')
  {
    var ri := rl[itr];
    TiledFirst(crk, rl, lo, itr);
    TiledFirst(crk, rl, itr, hi + 1);
    LessHeadValues(crk, crk', x, lo, itr, hi, ri);
    LessHeadTiles(crk, rl, crk', rl', lo, itr, hi, ri);
    ExchangedInside(crk, crk', ri, lo, itr, lo, hi);
    ExchangedInside(rl, rl', ri, lo, itr, lo, hi);
  }

  /** Values of a below-`x` round whose run at `p_itr` is shorter than the
      `x` group: the group moves up by the run's length. */
  lemma ShorterValues(crk: seq<int>, crk': seq<int>, x: int, lo: nat, itr: nat, hi: nat, ri: nat)
    requires Partitioned(crk, x, lo, itr, hi) && itr <= hi && crk[hi] <= x
    requires 1 <= ri < itr - lo && itr + ri <= hi + 1
    requires forall j :: itr <= j < itr + ri ==> crk[j] < x
    requires Exchanged(crk, crk', ri, lo, itr)
    ensures Partitioned(crk', x, lo + ri, itr + ri, hi)
    ensures crk'[hi] <= x && crk'[lo + ri] == x
  {
    assert crk'[lo + ri] == crk[lo + ri];
  }

  /** What the shorter case needs before its exchange: a uniform `x`
      group whose new ends are already marked, and the segments the
      exchange keeps or moves still tiled. */
  ghost predicate ShorterReady(crk: seq<int>, rlw: seq<nat>, lo: nat, itr: nat, hi: nat, ri: nat) {
    && lo < itr <= hi && 1 <= ri < itr - lo && itr + ri <= hi + 1 <= |crk| == |rlw|
    && (forall j :: lo <= j < itr ==> crk[j] == crk[lo])
    && rlw[lo + ri] == itr - lo && rlw[lo + ri - 1] == itr - lo
    && Tiled(crk, rlw, 0, lo) && Tiled(crk, rlw, itr, itr + ri)
    && Tiled(crk, rlw, itr + ri, hi + 1) && Tiled(crk, rlw, hi + 1, |crk|)
  }

  /** The two markers written before the exchange touch none of the
      segments the exchange relies on. */
  lemma ShorterWrites(crk: seq<int>, rl: seq<nat>, rlw: seq<nat>, lo: nat, itr: nat, hi: nat, ri: nat)
    requires Segmented(crk, rl, lo, itr, hi) && lo < itr <= hi
    requires forall j :: lo <= j < itr ==> crk[j] == crk[lo]
    requires ri == rl[itr] && ri < itr - lo
    requires rlw == rl[lo + ri := itr - lo][lo + ri - 1 := itr - lo]
    ensures ShorterReady(crk, rlw, lo, itr, hi, ri)
  {
    TiledFirst(crk, rl, itr, hi + 1);
    BlockTiled(crk, rl, itr, itr + ri);
    TiledWrites(crk, rl, lo + ri, lo + ri - 1, itr - lo, 0, lo);
    TiledWrites(crk, rl, lo + ri, lo + ri - 1, itr - lo, itr, itr + ri);
    TiledWrites(crk, rl, lo + ri, lo + ri - 1, itr - lo, itr + ri, hi + 1);
    TiledWrites(crk, rl, lo + ri, lo + ri - 1, itr - lo, hi + 1, |crk|);
  }

  /** Runs of the same round: the run from `p_itr` lands at `p_low`, and the
      two markers written before the exchange close the moved `x` group
      `[p_low + rl_itr, p_itr + rl_itr)` into one run. */
  lemma ShorterTiles(crk: seq<int>, rlw: seq<nat>, crk': seq<int>, rl': seq<nat>,
                     lo: nat, itr: nat, hi: nat, ri: nat)
    requires ShorterReady(crk, rlw, lo, itr, hi, ri)
    requires Exchanged(crk, crk', ri, lo, itr) && Exchanged(rlw, rl', ri, lo, itr)
    ensures Segmented(crk', rl', lo + ri, itr + ri, hi)
  {
    ShorterLow(crk, rlw, crk', rl', lo, itr, ri);
    ShorterGroup(crk, rlw, crk', rl', lo, itr, ri);
    ExchangeKeeps(crk, rlw, crk', rl', ri, lo, itr, itr + ri, hi + 1);
    ExchangeKeeps(crk, rlw, crk', rl', ri, lo, itr, hi + 1, |crk|);
  }

  lemma ShorterLow(crk: seq<int>, rlw: seq<nat>, crk': seq<int>, rl': seq<nat>,
                   lo: nat, itr: nat, ri: nat)
    requires lo + ri <= itr
    requires Tiled(crk, rlw, 0, lo) && Tiled(crk, rlw, itr, itr + ri)
    requires Exchanged(crk, crk', ri, lo, itr) && Exchanged(rlw, rl', ri, lo, itr)
    ensures Tiled(crk', rl', 0, lo + ri)
  {
    ExchangeMoves(crk, rlw, crk', rl', ri, lo, itr);
    ExchangeKeeps(crk, rlw, crk', rl', ri, lo, itr, 0, lo);
    TiledConcat(crk', rl', 0, lo, lo + ri);
  }

  lemma ShorterGroup(crk: seq<int>, rlw: seq<nat>, crk': seq<int>, rl': seq<nat>,
                     lo: nat, itr: nat, ri: nat)
    requires lo < itr && 1 <= ri < itr - lo && itr + ri <= |crk| == |rlw|
    requires forall j :: lo <= j < itr ==> crk[j] == crk[lo]
    requires rlw[lo + ri] == itr - lo && rlw[lo + ri - 1] == itr - lo
    requires Exchanged(crk, crk', ri, lo, itr) && Exchanged(rlw, rl', ri, lo, itr)
    ensures Tiled(crk', rl', lo + ri, itr + ri)
  {
    assert rl'[lo + ri] == rlw[lo + ri];
    assert rl'[itr + ri - 1] == rlw[lo + ri - 1];
    assert crk'[lo + ri] == crk[lo];
    assert Block(crk', rl', lo + ri, itr + ri);
    BlockTiled(crk', rl', lo + ri, itr + ri);
  }

  /** The markers of the shorter case (underswap lines 236-237), written
      on a column in scan state. */
  method ShorterMarks(ghost c0: IntCol, c: IntCol, x: int, ghost s0: int, ghost s1: int,
                      lo: nat, itr: nat, hi: nat) returns (c1: IntCol)
    requires ScanInv(c0, c, x, s0, s1, lo, itr, hi) && itr <= hi
    requires lo < itr && c.runLengths[itr] < itr - lo
    ensures Frame(c0, c1, s0, s1) && c1.crk == c.crk
    ensures SameOutside(c.runLengths, c1.runLengths, lo, hi)
    ensures ShorterReady(c.crk, c1.runLengths, lo, itr, hi, c.runLengths[itr])
  {
    var ri := c.runLengths[itr];
    ShorterWrites(c.crk, c.runLengths, c.runLengths[lo + ri := itr - lo][lo + ri - 1 := itr - lo], lo, itr, hi, ri);
    c1 := SetRuns(c0, c, s0, s1, lo + ri, lo + ri - 1, itr - lo);
  }

  /** Below-`x` round, the run at `p_itr` shorter than the `x` group
      `[p_low, p_itr)` (underswap lines 234-240): the group's new ends are
      marked, then the run trades places with the group's first slots. */
  method LessShorter(ghost c0: IntCol, c: IntCol, x: int, ghost s0: int, ghost s1: int,
                     lo: nat, itr: nat, hi: nat) returns (c': IntCol, lo': nat, itr': nat)
    requires ScanInv(c0, c, x, s0, s1, lo, itr, hi) && itr <= hi && c.crk[itr] < x
    requires lo < itr && c.runLengths[itr] < itr - lo
    ensures LessPost(c0, c, c', x, s0, s1, lo, itr, hi, lo', itr')
    ensures lo' == lo + c.runLengths[itr] && itr' == itr + c.runLengths[itr]
  {
    var c1 := ShorterMarks(c0, c, x, s0, s1, lo, itr, hi);
    c' := Exchange(c0, c1, s0, s1, c.runLengths[itr], lo, itr);
    lo', itr' := lo + c.runLengths[itr], itr + c.runLengths[itr];
    ShorterShape(c.crk, c.runLengths, c1.runLengths, c'.crk, c'.runLengths, x, lo, itr, hi, lo', itr');
  }

  lemma ShorterShape(crk: seq<int>, rl: seq<nat>, rlw: seq<nat>, crk': seq<int>, rl': seq<nat>,
                     x: int, lo: nat, itr: nat, hi: nat, lo': int, itr': int)
    requires ScanShape(crk, rl, x, lo, itr, hi) && itr <= hi && crk[itr] < x
    requires lo < itr && rl[itr] < itr - lo
    requires SameOutside(rl, rlw, lo, hi)
    requires ShorterReady(crk, rlw, lo, itr, hi, rl[itr])
    requires Exchanged(crk, crk', rl[itr], lo, itr)
    requires Exchanged(rlw, rl', rl[itr], lo, itr)
    requires lo' == lo + rl[itr] && itr' == itr + rl[itr]
    ensures LessShape(crk, rl, crk', rl', x, lo, itr, hi, lo', itr')
  {
    var ri := rl[itr];
    TiledFirst(crk, rl, itr, hi + 1);
    ShorterValues(crk, crk', x, lo, itr, hi, ri);
    ShorterTiles(crk, rlw, crk', rl', lo, itr, hi, ri);
    ExchangedInside(crk, crk', ri, lo, itr, lo, hi);
    ExchangedInside(rlw, rl', ri, lo, itr, lo, hi);
    SameOutsideTrans(rl, rlw, rl', lo, hi);
  }

  /** Marking the whole `x` group `[p_low, p_itr)` as one run (underswap
      lines 226-227 and 243-244) keeps the scan's shape. */
  lemma MergeGroup(crk: seq<int>, rl: seq<nat>, rlw: seq<nat>, x: int, lo: nat, itr: nat, hi: nat)
    requires ScanShape(crk, rl, x, lo, itr, hi) && lo < itr <= hi
    requires rlw == rl[lo := itr - lo][itr - 1 := itr - lo]
    ensures ScanShape(crk, rlw, x, lo, itr, hi) && SameOutside(rl, rlw, lo, hi)
    ensures rlw[lo] == itr - lo && rlw[itr - 1] == itr - lo && rlw[itr] == rl[itr]
  {
    assert rlw == Mark(rl, lo, itr - lo);
    MarkBlock(crk, rl, lo, itr - lo, 0, lo);
    BlockTiled(crk, rlw, lo, itr);
    MarkBlock(crk, rl, lo, itr - lo, itr, hi + 1);
    MarkBlock(crk, rl, lo, itr - lo, hi + 1, |crk|);
  }

  /** Below-`x` round, the run at `p_itr` exactly as long as the `x` group:
      the group is marked as one run, then the two trade places (underswap
      lines 241-247). */
  method LessSame(ghost c0: IntCol, c: IntCol, x: int, ghost s0: int, ghost s1: int,
                  lo: nat, itr: nat, hi: nat) returns (c': IntCol, lo': nat, itr': nat)
    requires ScanInv(c0, c, x, s0, s1, lo, itr, hi) && itr <= hi && c.crk[itr] < x
    requires lo < itr && c.runLengths[itr] == itr - lo
    ensures LessPost(c0, c, c', x, s0, s1, lo, itr, hi, lo', itr')
    ensures lo' == lo + c.runLengths[itr] && itr' == itr
  {
    var d := itr - lo;
    MergeGroup(c.crk, c.runLengths, c.runLengths[lo := d][itr - 1 := d], x, lo, itr, hi);
    var c1 := SetRuns(c0, c, s0, s1, lo, itr - 1, d);
    c' := Exchange(c0, c1, s0, s1, d, lo, itr);
    lo', itr' := lo + d, itr;
    HeadShape(c.crk, c1.runLengths, c'.crk, c'.runLengths, x, lo, itr, hi, lo', itr');
    LessShapeFrom(c.crk, c.runLengths, c1.runLengths, c'.crk, c'.runLengths, x, lo, itr, hi, lo', itr');
  }

  /** A shape reached from marker writes inside `[p_low, p_high]` is a shape
      reached from the column before the writes. */
  lemma LessShapeFrom(crk: seq<int>, rl: seq<nat>, rlw: seq<nat>, crk': seq<int>, rl': seq<nat>,
                      x: int, lo: int, itr: int, hi: int, lo': int, itr': int)
    requires SameOutside(rl, rlw, lo, hi)
    requires LessShape(crk, rlw, crk', rl', x, lo, itr, hi, lo', itr')
    ensures LessShape(crk, rl, crk', rl', x, lo, itr, hi, lo', itr')
  {
    SameOutsideTrans(rl, rlw, rl', lo, hi);
  }

  /** What the longer case needs before its exchange: the `x` group
      `[p_low, p_itr)` marked as one run of length `d`, and the last `d`
      slots of the run at `p_itr` cut off by markers at `q - 1` and `q`. */
  ghost predicate LongerReady(crk: seq<int>, rlw: seq<nat>, lo: nat, itr: nat, hi: nat, ri: nat) {
    && lo < itr <= hi && itr - lo < ri && itr + ri <= hi + 1 <= |crk| == |rlw|
    && (forall j :: lo <= j < itr ==> crk[j] == crk[lo])
    && (forall j :: itr <= j < itr + ri ==> crk[j] == crk[itr])
    && rlw[lo] == itr - lo && rlw[itr - 1] == itr - lo
    && rlw[itr + ri - (itr - lo)] == ri && rlw[itr + ri - (itr - lo) - 1] == ri
    && Tiled(crk, rlw, 0, lo)
    && Tiled(crk, rlw, itr + ri, hi + 1) && Tiled(crk, rlw, hi + 1, |crk|)
  }

  /** After the group is marked, cutting the run at `p_itr` leaves the
      segments the exchange relies on tiled. */
  lemma LongerWrites(crk: seq<int>, rl: seq<nat>, rlw: seq<nat>, x: int, lo: nat, itr: nat, hi: nat, ri: nat)
    requires ScanShape(crk, rl, x, lo, itr, hi) && lo < itr <= hi
    requires rl[lo] == itr - lo && rl[itr - 1] == itr - lo && ri == rl[itr] > itr - lo
    requires rlw == rl[itr + ri - (itr - lo) := ri][itr + ri - (itr - lo) - 1 := ri]
    ensures LongerReady(crk, rlw, lo, itr, hi, ri) && SameOutside(rl, rlw, lo, hi)
  {
    var d := itr - lo;
    var q := itr + ri - d;
    TiledFirst(crk, rl, itr, hi + 1);
    assert rlw == rl[q := ri][q - 1 := ri];
    TiledWrites(crk, rl, q, q - 1, ri, 0, lo);
    TiledWrites(crk, rl, q, q - 1, ri, itr + ri, hi + 1);
    TiledWrites(crk, rl, q, q - 1, ri, hi + 1, |crk|);
    assert rlw[lo] == d && rlw[itr - 1] == d;
  }

  /** The markers of the longer case (underswap lines 224-230). */
  method LongerMarks(ghost c0: IntCol, c: IntCol, x: int, ghost s0: int, ghost s1: int,
                     lo: nat, itr: nat, hi: nat) returns (c1: IntCol)
    requires ScanInv(c0, c, x, s0, s1, lo, itr, hi) && itr <= hi
    requires lo < itr && c.runLengths[itr] > itr - lo
    ensures Frame(c0, c1, s0, s1) && c1.crk == c.crk
    ensures SameOutside(c.runLengths, c1.runLengths, lo, hi)
    ensures LongerReady(c.crk, c1.runLengths, lo, itr, hi, c.runLengths[itr])
  {
    var ri, d := c.runLengths[itr], itr - lo;
    MergeGroup(c.crk, c.runLengths, c.runLengths[lo := d][itr - 1 := d], x, lo, itr, hi);
    var cw := SetRuns(c0, c, s0, s1, lo, itr - 1, d);
    LongerWrites(c.crk, cw.runLengths, cw.runLengths[itr + ri - d := ri][itr + ri - d - 1 := ri],
                 x, lo, itr, hi, ri);
    c1 := SetRuns(c0, cw, s0, s1, itr + ri - d, itr + ri - d - 1, ri);
    SameOutsideTrans(c.runLengths, cw.runLengths, c1.runLengths, lo, hi);
  }

  lemma LongerShape(crk: seq<int>, rl: seq<nat>, rlw: seq<nat>, crk': seq<int>, rl': seq<nat>,
                    x: int, lo: nat, itr: nat, hi: nat, lo': int, itr': int)
    requires ScanShape(crk, rl, x, lo, itr, hi) && itr <= hi && crk[itr] < x
    requires lo < itr && rl[itr] > itr - lo
    requires SameOutside(rl, rlw, lo, hi)
    requires LongerReady(crk, rlw, lo, itr, hi, rl[itr])
    requires Exchanged(crk, crk', itr - lo, lo, itr + rl[itr] - (itr - lo))
    requires Exchanged(rlw, rl', itr - lo, lo, itr + rl[itr] - (itr - lo))
    requires lo' == lo + rl[itr] && itr' == lo + rl[itr]
    ensures LessShape(crk, rl, crk', rl', x, lo, itr, hi, lo', itr')
  {
    var ri, d := rl[itr], itr - lo;
    var q := itr + ri - d;
    LongerValues(crk, crk', x, lo, itr, hi, ri);
    LongerTiles(crk, rlw, crk', rl', lo, itr, hi, ri);
    ExchangedInside(crk, crk', d, lo, q, lo, hi);
    ExchangedInside(rlw, rl', d, lo, q, lo, hi);
    SameOutsideTrans(rl, rlw, rl', lo, hi);
  }

  lemma LongerValues(crk: seq<int>, crk': seq<int>, x: int, lo: nat, itr: nat, hi: nat, ri: nat)
    requires Partitioned(crk, x, lo, itr, hi) && itr <= hi && crk[hi] <= x
    requires lo < itr && itr - lo < ri && itr + ri <= hi + 1
    requires forall j :: itr <= j < itr + ri ==> crk[j] < x
    requires Exchanged(crk, crk', itr - lo, lo, itr + ri - (itr - lo))
    ensures Partitioned(crk', x, lo + ri, lo + ri, hi)
    ensures crk'[hi] <= x && crk'[lo + ri] == x
  {
  }

  lemma LongerTiles(crk: seq<int>, rlw: seq<nat>, crk': seq<int>, rl': seq<nat>,
                    lo: nat, itr: nat, hi: nat, ri: nat)
    requires LongerReady(crk, rlw, lo, itr, hi, ri)
    requires Exchanged(crk, crk', itr - lo, lo, itr + ri - (itr - lo))
    requires Exchanged(rlw, rl', itr - lo, lo, itr + ri - (itr - lo))
    ensures Segmented(crk', rl', lo + ri, lo + ri, hi)
  {
    var d := itr - lo;
    var q := itr + ri - d;
    LongerBelow(crk, rlw, crk', rl', lo, itr, hi, ri);
    LongerGroup(crk, rlw, crk', rl', lo, itr, hi, ri);
    ExchangeKeeps(crk, rlw, crk', rl', d, lo, q, itr + ri, hi + 1);
    ExchangeKeeps(crk, rlw, crk', rl', d, lo, q, hi + 1, |crk|);
    TiledConcat(crk', rl', q, itr + ri, hi + 1);
    assert Tiled(crk', rl', lo + ri, lo + ri);
  }

  /** The run below `x` assembled at `[p_low, p_low + rl_itr)`. */
  lemma LongerBelow(crk: seq<int>, rlw: seq<nat>, crk': seq<int>, rl': seq<nat>,
                    lo: nat, itr: nat, hi: nat, ri: nat)
    requires LongerReady(crk, rlw, lo, itr, hi, ri)
    requires Exchanged(crk, crk', itr - lo, lo, itr + ri - (itr - lo))
    requires Exchanged(rlw, rl', itr - lo, lo, itr + ri - (itr - lo))
    ensures Tiled(crk', rl', 0, lo + ri)
  {
    var d := itr - lo;
    var q := itr + ri - d;
    assert Block(crk', rl', lo, lo + ri) by {
      assert rl'[lo] == rlw[q];
      assert rl'[lo + ri - 1] == rlw[q - 1];
      assert crk'[lo] == crk[q];
    }
    BlockTiled(crk', rl', lo, lo + ri);
    ExchangeKeeps(crk, rlw, crk', rl', d, lo, q, 0, lo);
    TiledConcat(crk', rl', 0, lo, lo + ri);
  }

  /** The `x` group assembled at `[p_low + rl_itr, p_itr + rl_itr)`. */
  lemma LongerGroup(crk: seq<int>, rlw: seq<nat>, crk': seq<int>, rl': seq<nat>,
                    lo: nat, itr: nat, hi: nat, ri: nat)
    requires LongerReady(crk, rlw, lo, itr, hi, ri)
    requires Exchanged(crk, crk', itr - lo, lo, itr + ri - (itr - lo))
    requires Exchanged(rlw, rl', itr - lo, lo, itr + ri - (itr - lo))
    ensures Tiled(crk', rl', itr + ri - (itr - lo), itr + ri)
  {
    var q := itr + ri - (itr - lo);
    assert Block(crk', rl', q, itr + ri) by {
      assert rl'[q] == rlw[lo];
      assert rl'[itr + ri - 1] == rlw[itr - 1];
      assert crk'[q] == crk[lo];
    }
    BlockTiled(crk', rl', q, itr + ri);
  }

  /** Below-`x` round, the run at `p_itr` longer than the `x` group
      (underswap lines 220-233): the group is marked as one run, the run's
      last `d` slots are cut off, and the group trades places with them. */
  method LessLonger(ghost c0: IntCol, c: IntCol, x: int, ghost s0: int, ghost s1: int,
                    lo: nat, itr: nat, hi: nat) returns (c': IntCol, lo': nat, itr': nat)
    requires ScanInv(c0, c, x, s0, s1, lo, itr, hi) && itr <= hi && c.crk[itr] < x
    requires lo < itr && c.runLengths[itr] > itr - lo
    ensures LessPost(c0, c, c', x, s0, s1, lo, itr, hi, lo', itr')
    ensures lo' == lo + c.runLengths[itr] && itr' == lo + c.runLengths[itr]
  {
    var c1 := LongerMarks(c0, c, x, s0, s1, lo, itr, hi);
    c' := Exchange(c0, c1, s0, s1, itr - lo, lo, itr + c.runLengths[itr] - (itr - lo));
    lo', itr' := lo + c.runLengths[itr], lo + c.runLengths[itr];
    LongerShape(c.crk, c.runLengths, c1.runLengths, c'.crk, c'.runLengths, x, lo, itr, hi, lo', itr');
  }

  /** Below-`x` round, the run at `p_itr` as long as the run at `p_low`
      (underswap lines 217-219): the two trade places. */
  method LessHead(ghost c0: IntCol, c: IntCol, x: int, ghost s0: int, ghost s1: int,
                  lo: nat, itr: nat, hi: nat) returns (c': IntCol, lo': nat, itr': nat)
    requires ScanInv(c0, c, x, s0, s1, lo, itr, hi) && itr <= hi && c.crk[itr] < x
    requires lo < itr && c.runLengths[itr] == c.runLengths[lo]
    ensures LessPost(c0, c, c', x, s0, s1, lo, itr, hi, lo', itr')
    ensures lo' == lo + c.runLengths[itr] && itr' == itr
  {
    TiledFirst(c.crk, c.runLengths, lo, itr);
    TiledFirst(c.crk, c.runLengths, itr, hi + 1);
    c' := Exchange(c0, c, s0, s1, c.runLengths[itr], lo, itr);
    lo', itr' := lo + c.runLengths[itr], itr;
    HeadShape(c.crk, c.runLengths, c'.crk, c'.runLengths, x, lo, itr, hi, lo', itr');
  }

  /** After tighten-low, the scan invariant holds again with `p_itr` lifted
      to `p_low` (underswap lines 250-277).  Tighten-low only moves `p_low`
      when the `x` group is empty, and cannot take its overflow evasion,
      since that needs a value below `x` at `p_low` with `p_high` last. */
  lemma LessTightenShape(crk: seq<int>, rl: seq<nat>, crk1: seq<int>, rl1: seq<nat>, rl2: seq<nat>,
                         x: int, lo: int, itr: int, hi: int, l1: int, m: int, lo2: int)
    requires LessShape(crk, rl, crk1, rl1, x, lo, itr, hi, l1, m)
    requires |rl1| == |crk1| && SameOutside(rl1, rl2, l1, hi)
    requires l1 <= lo2 <= hi + 1
    requires forall j :: l1 <= j < lo2 ==> crk1[j] < x
    requires crk1[l1] >= x ==> lo2 == l1
    requires lo2 == l1 ==> rl2 == rl1
    requires || (Tiled(crk1, rl2, l1, lo2) && Tiled(crk1, rl2, lo2, hi + 1))
             || (hi + 1 == |crk1| && lo2 == hi && crk1[hi] < x && Tiled(crk1, rl2, l1, hi + 1))
    ensures ScanShape(crk1, rl2, x, lo2, Max(m, lo2), hi)
    ensures SameOutside(rl, rl2, lo, hi) && lo < lo2 && itr <= Max(m, lo2)
  {
    if lo2 != l1 {
      assert m == l1;
      TiledFrame(crk1, rl1, crk1, rl2, 0, l1);
      TiledFrame(crk1, rl1, crk1, rl2, hi + 1, |crk1|);
      TiledConcat(crk1, rl2, 0, l1, lo2);
      assert Tiled(crk1, rl2, lo2, lo2);
    }
  }

  /** The exchange of one below-`x` round, chosen as the source does by
      comparing the run at `p_itr` with the run at `p_low` and with the `x`
      group (underswap lines 213-248, overswap lines 224-259). */
  method LessSwap(ghost c0: IntCol, c: IntCol, x: int, ghost s0: int, ghost s1: int,
                  lo: nat, itr: nat, hi: nat) returns (c': IntCol, lo': nat, itr': nat)
    requires ScanInv(c0, c, x, s0, s1, lo, itr, hi) && itr <= hi && c.crk[itr] < x
    ensures LessPost(c0, c, c', x, s0, s1, lo, itr, hi, lo', itr')
    ensures lo' == lo + c.runLengths[itr]
  {
    var ri := c.runLengths[itr];
    if ri == c.runLengths[lo] {
      if lo == itr {
        c' := c;
        lo', itr' := LessSelf(c0, c, x, s0, s1, lo, itr, hi);
      } else {
        c', lo', itr' := LessHead(c0, c, x, s0, s1, lo, itr, hi);
      }
    } else if ri > itr - lo {
      c', lo', itr' := LessLonger(c0, c, x, s0, s1, lo, itr, hi);
    } else if ri < itr - lo {
      c', lo', itr' := LessShorter(c0, c, x, s0, s1, lo, itr, hi);
    } else {
      c', lo', itr' := LessSame(c0, c, x, s0, s1, lo, itr, hi);
    }
  }

  /** One below-`x` round of the scan: the exchange, then tighten-low and
      the lift of `p_itr` to `p_low` (underswap lines 213-277, overswap
      lines 224-289). */
  method Less(ghost c0: IntCol, c: IntCol, x: int, ghost s0: int, ghost s1: int,
              lo: nat, itr: nat, hi: nat) returns (c': IntCol, lo': nat, itr': nat)
    requires ScanInv(c0, c, x, s0, s1, lo, itr, hi) && itr <= hi && c.crk[itr] < x
    ensures ScanInv(c0, c', x, s0, s1, lo', itr', hi)
    ensures SameOutside(c.crk, c'.crk, lo, hi) && SameOutside(c.runLengths, c'.runLengths, lo, hi)
    ensures lo < lo' && itr <= itr'
  {
    var c1, l1, m := LessSwap(c0, c, x, s0, s1, lo, itr, hi);
    TiledConcat(c1.crk, c1.runLengths, l1, m, hi + 1);
    var rl2, lo2 := TightenLow(c1.crk, c1.runLengths, x, l1, hi);
    LessTightenShape(c.crk, c.runLengths, c1.crk, c1.runLengths, rl2, x, lo, itr, hi, l1, m, lo2);
    FrameRuns(c0, c1, s0, s1, rl2);
    c' := c1.(runLengths := rl2);
    lo' := lo2;
    itr' := if m < lo2 then lo2 else m;
  }
}
