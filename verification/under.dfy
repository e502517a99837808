/** The above-`x` round of the underswap strategy (underswap lines 278-300):
    the longer of the run at `p_itr` and the run ending at `p_high` is cut
    to the length of the shorter, and the two equal runs trade places. */
module Underswap {
  import opened Column
  import opened Runs
  import opened Cracked
  import opened Tighten
  import opened Scan
  import opened Greater

  /** The run ending at `p_high` is longer: its last `ri` slots become a
      run of their own (underswap lines 285-289). */
  lemma HighCutReady(crk: seq<int>, rl: seq<nat>, rlw: seq<nat>, x: int, itr: nat, hi: nat)
    requires GreaterReady(crk, rl, x, itr, hi) && rl[itr] < rl[hi]
    requires rlw == Cut(rl, hi - rl[hi] + 1, rl[hi] - rl[itr], rl[hi])
    ensures GreaterReady(crk, rlw, x, itr, hi) && SameOutside(rl, rlw, itr, hi)
    ensures rlw[itr] == rlw[hi] == rl[itr]
  {
    var ri, rh := rl[itr], rl[hi];
    var a := hi - rh + 1;
    SplitRun(crk, rl, a, rh - ri, rh, itr + ri, a);
    BlockTiled(crk, rlw, a, hi - ri + 1);
    TiledConcat(crk, rlw, itr + ri, a, hi - ri + 1);
  }

  /** The run at `p_itr` is longer: its first `rh` slots become a run of
      their own (underswap lines 291-295). */
  lemma ItrCutReady(crk: seq<int>, rl: seq<nat>, rlw: seq<nat>, x: int, itr: nat, hi: nat)
    requires GreaterReady(crk, rl, x, itr, hi) && rl[itr] > rl[hi]
    requires rlw == Cut(rl, itr, rl[hi], rl[itr])
    ensures GreaterReady(crk, rlw, x, itr, hi) && SameOutside(rl, rlw, itr, hi)
    ensures rlw[itr] == rlw[hi] == rl[hi]
  {
    var ri, rh := rl[itr], rl[hi];
    SplitRun(crk, rl, itr, rh, ri, itr + ri, hi - rh + 1);
    BlockTiled(crk, rlw, itr + rh, itr + ri);
    TiledConcat(crk, rlw, itr + rh, itr + ri, hi - rh + 1);
  }

  method CutHigh(ghost c0: IntCol, c: IntCol, x: int, ghost s0: int, ghost s1: int,
                 itr: nat, hi: nat) returns (c1: IntCol, n: nat)
    requires Frame(c0, c, s0, s1) && GreaterReady(c.crk, c.runLengths, x, itr, hi)
    requires c.runLengths[itr] < c.runLengths[hi]
    ensures SplitDone(c0, c, c1, x, s0, s1, itr, hi, n) && n == c.runLengths[itr]
  {
    var ri, rh := c.runLengths[itr], c.runLengths[hi];
    var r := c.runLengths[hi - rh + 1] - ri;
    c1 := SetRuns(c0, c, s0, s1, hi - rh + 1, hi - ri, r);
    c1 := SetRuns(c0, c1, s0, s1, hi, hi - ri + 1, ri);
    CutHeadFirst(c.runLengths, hi - rh + 1, rh - ri, rh);
    HighCutReady(c.crk, c.runLengths, c1.runLengths, x, itr, hi);
    n := ri;
  }

  method CutItr(ghost c0: IntCol, c: IntCol, x: int, ghost s0: int, ghost s1: int,
                itr: nat, hi: nat) returns (c1: IntCol, n: nat)
    requires Frame(c0, c, s0, s1) && GreaterReady(c.crk, c.runLengths, x, itr, hi)
    requires c.runLengths[itr] > c.runLengths[hi]
    ensures SplitDone(c0, c, c1, x, s0, s1, itr, hi, n) && n == c.runLengths[hi]
  {
    var ri, rh := c.runLengths[itr], c.runLengths[hi];
    var r := c.runLengths[itr + ri - 1] - rh;
    c1 := SetRuns(c0, c, s0, s1, itr + ri - 1, itr + rh, r);
    c1 := SetRuns(c0, c1, s0, s1, itr, itr + rh - 1, rh);
    CutTailFirst(c.runLengths, itr, rh, ri);
    ItrCutReady(c.crk, c.runLengths, c1.runLengths, x, itr, hi);
    n := rh;
  }

  /** The cut of underswap lines 282-296: `n` (the source's `n_swaps`) is
      the shorter of the two runs, and both runs now have that length. */
  method CutToShorter(ghost c0: IntCol, c: IntCol, x: int, ghost s0: int, ghost s1: int,
                      itr: nat, hi: nat) returns (c1: IntCol, n: nat)
    requires Frame(c0, c, s0, s1) && GreaterReady(c.crk, c.runLengths, x, itr, hi)
    ensures SplitDone(c0, c, c1, x, s0, s1, itr, hi, n)
    ensures n == Min(c.runLengths[itr], c.runLengths[hi])
  {
    if c.runLengths[itr] == c.runLengths[hi] {
      c1, n := c, c.runLengths[itr];
    } else if c.runLengths[itr] < c.runLengths[hi] {
      c1, n := CutHigh(c0, c, x, s0, s1, itr, hi);
    } else {
      c1, n := CutItr(c0, c, x, s0, s1, itr, hi);
    }
  }

  /** The exchange of an underswap above-`x` round: after the cut, the
      equal runs trade places and `p_high` moves down by `n_swaps`
      (underswap lines 278-300). */
  method UnderGreater(ghost c0: IntCol, c: IntCol, x: int, ghost s0: int, ghost s1: int,
                      itr: nat, hi: nat) returns (c': IntCol, hi': nat)
    requires Frame(c0, c, s0, s1) && s0 <= itr && hi + 1 <= s1
    requires GreaterReady(c.crk, c.runLengths, x, itr, hi)
    ensures GreaterPost(c0, c, c', x, s0, s1, itr, hi, hi')
    ensures hi' == hi - Min(c.runLengths[itr], c.runLengths[hi])
  {
    var c1, n := CutToShorter(c0, c, x, s0, s1, itr, hi);
    c', hi' := SwapEqual(c0, c1, x, s0, s1, itr, hi);
    GreaterShapeFrom(c.crk, c.runLengths, c1.runLengths, c'.crk, c'.runLengths, x, itr, hi, hi');
  }
}
