/** The two boundary-tightening loops of `cracker_select_specific`.  Both
    only read the working copy `crk` and write run-length markers `rl`:
    tighten-low moves `p_low` up over whole runs below the queried value,
    tighten-high moves `p_high` down over whole runs above it, and both
    merge a run with its neighbours of the same value on the way. */
module Tighten {
  import opened Runs
  import opened Wrappers

  /** Writes the two markers of the run `[p, p + r)`. */
  function Mark(rl: seq<nat>, p: nat, r: nat): (rl': seq<nat>)
    requires 1 <= r && p + r <= |rl|
    ensures |rl'| == |rl| && rl'[p] == r && rl'[p + r - 1] == r
    ensures forall j :: 0 <= j < |rl| && j != p && j != p + r - 1 ==> rl'[j] == rl[j]
  {
    rl[p := r][p + r - 1 := r]
  }

  /** Marking a uniform stretch turns it into a block and keeps every tiling
      that lies wholly before or wholly after it. */
  lemma MarkBlock(crk: seq<int>, rl: seq<nat>, p: nat, r: nat, lo: int, hi: int)
    requires |crk| == |rl| && 1 <= r && p + r <= |rl|
    requires forall j :: p <= j < p + r ==> crk[j] == crk[p]
    requires Tiled(crk, rl, lo, hi) && (hi <= p || p + r <= lo)
    ensures Block(crk, Mark(rl, p, r), p, p + r)
    ensures Tiled(crk, Mark(rl, p, r), lo, hi)
  {
    TiledFrame(crk, rl, crk, Mark(rl, p, r), lo, hi);
  }

  /** The merge loop of tighten-low (underswap lines 170-180): grows the run
      `[p, p + r0)` by the following runs of the same value while the grown
      run stays short of `hi`.  Inside the last run of the column (`tail`)
      the lengths it reads are stale, but the growth stays inside that run. */
  method MergeUp(crk: seq<int>, rl: seq<nat>, x: int, p: nat, r0: nat, hi: nat, ghost tail: bool)
    returns (r: nat)
    requires |crk| == |rl| && AllPositive(rl) && hi < |crk|
    requires 1 <= r0 && p + r0 < |crk|
    requires forall j :: p <= j < p + r0 ==> crk[j] == crk[p]
    requires !tail ==> && p + r0 <= hi + 1 && Tiled(crk, rl, p + r0, hi + 1) && crk[p] < x
                       && forall j :: hi < j < |crk| ==> crk[j] > x
    requires tail ==> p + r0 <= hi && forall j :: p <= j <= hi ==> crk[j] == crk[p]
    ensures r0 <= r && p + r < |crk|
    ensures forall j :: p <= j < p + r ==> crk[j] == crk[p]
    ensures !tail ==> p + r <= hi + 1 && Tiled(crk, rl, p + r, hi + 1)
    ensures tail ==> p + r <= hi
  {
    r := r0;
    while crk[p + r] == crk[p]
      invariant r0 <= r && p + r < |crk|
      invariant forall j :: p <= j < p + r ==> crk[j] == crk[p]
      invariant !tail ==> p + r <= hi + 1 && Tiled(crk, rl, p + r, hi + 1)
      invariant tail ==> p + r <= hi
      decreases |crk| - (p + r)
    {
      if !tail {
        TiledFirst(crk, rl, p + r, hi + 1);
      }
      var inc := rl[p + r];
      if p + r + inc >= hi {
        break;
      }
      r := r + inc;
    }
  }

  /** The "evade overflow" loop (underswap lines 162-168): inside the last
      run `[a, n)` of the column, steps one slot at a time until the stale
      length read there no longer reaches past the end, or the last slot. */
  method Evade(crk: seq<int>, rl: seq<nat>, x: int, ghost lo: nat, ghost a: nat, p: nat) returns (p': nat, r: nat)
    requires |crk| == |rl| && AllPositive(rl)
    requires lo <= a <= p && p + 1 < |crk| && Block(crk, rl, a, |crk|) && crk[a] < x
    requires forall j :: lo <= j < a ==> crk[j] < x
    ensures a < p' < |crk| && p <= p' && r == rl[p'] && (p' + r < |crk| || p' + 1 == |crk|)
    ensures forall j :: lo <= j < p' ==> crk[j] < x
  {
    p' := p + 1;
    r := rl[p'];
    while p' + r >= |crk| && p' + 1 < |crk|
      invariant a < p' < |crk| && p <= p' && r == rl[p']
      decreases |crk| - p'
    {
      p' := p' + 1;
      r := rl[p'];
    }
  }

  /** The rest of tighten-low once the run at `p_low` is the last run
      `[a, n)` of the column and reaches past the end: the loop steps through
      that run on stale lengths (merging by them, which writes only inside
      the run) until `p_low` sits on the last slot. */
  method LowTail(crk: seq<int>, rl: seq<nat>, x: int, ghost lo: nat, a: nat, hi: nat) returns (rl': seq<nat>, lo': nat)
    requires |crk| == |rl| && AllPositive(rl) && hi + 1 == |crk| && lo <= a < hi
    requires Tiled(crk, rl, lo, a) && Block(crk, rl, a, |crk|) && crk[a] < x
    requires forall j :: lo <= j < a ==> crk[j] < x
    ensures |rl'| == |rl| && AllPositive(rl')
    ensures forall j :: 0 <= j < |rl| && (j <= a || hi <= j) ==> rl'[j] == rl[j]
    ensures lo' == hi && crk[hi] < x && Tiled(crk, rl', lo, hi + 1)
    ensures forall j :: lo <= j < lo' ==> crk[j] < x
  {
    var n := |crk|;
    var r;
    lo', r := Evade(crk, rl, x, lo, a, a);
    rl' := rl;
    while lo' + r < n
      invariant |rl'| == n && AllPositive(rl')
      invariant forall j :: 0 <= j < n && (j <= a || hi <= j) ==> rl'[j] == rl[j]
      invariant a < lo' < n && r == rl'[lo'] && (lo' + r < n || lo' == hi)
      invariant forall j :: lo <= j < lo' ==> crk[j] < x
      decreases n - lo'
    {
      if crk[lo' + r] == crk[lo'] {
        r := MergeUp(crk, rl', x, lo', r, hi, true);
        rl' := Mark(rl', lo', r);
      }
      lo' := lo' + r;
      if !(crk[lo'] < x && lo' < hi) {
        break;
      }
      r := rl'[lo'];
      if lo' + r >= n && lo' + 1 < n {
        lo', r := Evade(crk, rl', x, lo, a, lo');
      }
    }
    TiledFrame(crk, rl, crk, rl', lo, a);
    BlockTiled(crk, rl', a, n);
    TiledConcat(crk, rl', lo, a, n);
  }

  /** The merging half of a tighten-low round: the run at `p` is followed
      by a run of the same value, so it absorbs the following runs of that
      value and gets marked with the grown length. */
  method MergeLow(crk: seq<int>, rl: seq<nat>, x: int, ghost lo: nat, p: nat, hi: nat) returns (rl': seq<nat>, r: nat)
    requires |crk| == |rl| && AllPositive(rl) && lo <= p < hi < |crk|
    requires Tiled(crk, rl, lo, p) && Tiled(crk, rl, p, hi + 1)
    requires p + rl[p] < |crk| && crk[p] < x
    requires forall j :: hi < j < |crk| ==> crk[j] > x
    ensures |rl'| == |rl| && AllPositive(rl')
    ensures forall j :: 0 <= j < |rl| && (j < p || hi < j) ==> rl'[j] == rl[j]
    ensures 1 <= r && p + r <= hi + 1 && p + r < |crk|
    ensures Block(crk, rl', p, p + r)
    ensures Tiled(crk, rl', lo, p) && Tiled(crk, rl', p + r, hi + 1)
  {
    TiledFirst(crk, rl, p, hi + 1);
    r := MergeUp(crk, rl, x, p, rl[p], hi, false);
    MarkBlock(crk, rl, p, r, lo, p);
    MarkBlock(crk, rl, p, r, p + r, hi + 1);
    rl' := Mark(rl, p, r);
  }

  /** One round of tighten-low away from the end of the column: the run at
      `p` is merged with the following runs of its value (if the next one
      has it) and marked, and `p_low` then skips it. */
  method LowRound(crk: seq<int>, rl: seq<nat>, x: int, ghost lo: nat, p: nat, hi: nat) returns (rl': seq<nat>, r: nat)
    requires |crk| == |rl| && AllPositive(rl) && lo <= p < hi < |crk|
    requires Tiled(crk, rl, lo, p) && Tiled(crk, rl, p, hi + 1)
    requires p + rl[p] < |crk| && crk[p] < x
    requires forall j :: hi < j < |crk| ==> crk[j] > x
    ensures |rl'| == |rl| && AllPositive(rl')
    ensures forall j :: 0 <= j < |rl| && (j < p || hi < j) ==> rl'[j] == rl[j]
    ensures 1 <= r && p + r <= hi + 1 && p + r < |crk|
    ensures forall j :: p <= j < p + r ==> crk[j] < x
    ensures Tiled(crk, rl', lo, p + r) && Tiled(crk, rl', p + r, hi + 1)
  {
    if crk[p + rl[p]] == crk[p] {
      rl', r := MergeLow(crk, rl, x, lo, p, hi);
    } else {
      TiledFirst(crk, rl, p, hi + 1);
      rl', r := rl, rl[p];
    }
    BlockTiled(crk, rl', p, p + r);
    TiledConcat(crk, rl', lo, p, p + r);
  }

  /** Tighten-low (lines 159-182 of underswap_rle_compression.rs, repeated
      at 250-273).  While `crk[p_low] < x` and `p_low < p_high`, `p_low`
      skips the run starting there, first merging it with the following
      runs of the same value.  When that run reaches the end of the column
      the loop "evades overflow" (`LowTail`) and stops at the last slot. */
  method TightenLow(crk: seq<int>, rl: seq<nat>, x: int, lo: nat, hi: nat) returns (rl': seq<nat>, lo': nat)
    requires |crk| == |rl| && AllPositive(rl)
    requires lo < |crk| && hi < |crk| && lo <= hi + 1
    requires Tiled(crk, rl, lo, hi + 1)
    requires forall j :: hi < j < |crk| ==> crk[j] > x
    ensures AllPositive(rl') && SameOutside(rl, rl', lo, hi)
    ensures lo <= lo' < |crk| && lo' <= hi + 1
    ensures forall j :: lo <= j < lo' ==> crk[j] < x
    ensures lo' < hi ==> crk[lo'] >= x
    ensures crk[lo] >= x || hi <= lo ==> lo' == lo && rl' == rl
    ensures lo' == lo ==> rl' == rl
    ensures || (Tiled(crk, rl', lo, lo') && Tiled(crk, rl', lo', hi + 1))
            || (hi + 1 == |crk| && lo' == hi && crk[hi] < x && Tiled(crk, rl', lo, hi + 1))
  {
    var n := |crk|;
    rl', lo' := rl, lo;
    while crk[lo'] < x && lo' < hi
      invariant |rl'| == n && AllPositive(rl')
      invariant forall j :: 0 <= j < n && (j < lo || hi < j) ==> rl'[j] == rl[j]
      invariant lo <= lo' < n && lo' <= hi + 1
      invariant forall j :: lo <= j < lo' ==> crk[j] < x
      invariant lo' == lo ==> rl' == rl
      invariant lo' != lo ==> crk[lo] < x && lo < hi
      invariant Tiled(crk, rl', lo, lo') && Tiled(crk, rl', lo', hi + 1)
      decreases n - lo'
    {
      var r := rl'[lo'];
      TiledFirst(crk, rl', lo', hi + 1);
      if lo' + r >= n && lo' + 1 < n {
        rl', lo' := LowTail(crk, rl', x, lo, lo', hi);
        return;
      }
      if lo' + r >= n {
        break;
      }
      rl', r := LowRound(crk, rl', x, lo, lo', hi);
      lo' := lo' + r;
    }
  }

  /** The merge loop of tighten-high (underswap lines 186-198): grows the
      run `(p - r0, p]` downwards by the preceding runs of the same value,
      as long as the grown run does not reach below `lo` or below slot 0. */
  method MergeDown(crk: seq<int>, rl: seq<nat>, x: int, lo: nat, p: nat, r0: nat, ghost bot: nat)
    returns (r: nat)
    requires |crk| == |rl| && AllPositive(rl) && p < |crk| && lo <= bot
    requires 1 <= r0 <= p && bot <= p - r0 + 1 && crk[p] > x
    requires forall j :: p - r0 < j <= p ==> crk[j] == crk[p]
    requires forall j :: 0 <= j < bot ==> crk[j] <= x
    requires Tiled(crk, rl, bot, p - r0 + 1)
    ensures r0 <= r <= p && bot <= p - r + 1
    ensures forall j :: p - r < j <= p ==> crk[j] == crk[p]
    ensures Tiled(crk, rl, bot, p - r + 1)
    ensures r == GrowDown(crk, rl, lo, p, r0)
  {
    r := r0;
    while crk[p - r] == crk[p]
      invariant r0 <= r <= p && bot <= p - r + 1
      invariant GrowDown(crk, rl, lo, p, r) == GrowDown(crk, rl, lo, p, r0)
      invariant forall j :: p - r < j <= p ==> crk[j] == crk[p]
      invariant Tiled(crk, rl, bot, p - r + 1)
      decreases p - r
    {
      TiledLast(crk, rl, bot, p - r + 1);
      var inc := rl[p - r];
      if p < r + inc {
        break;
      } else if p - (r + inc) < lo {
        break;
      }
      r := r + inc;
    }
  }

  /** The merging half of a tighten-high round. */
  method MergeHigh(crk: seq<int>, rl: seq<nat>, x: int, lo: nat, p: nat, hi: nat, ghost bot: nat)
    returns (rl': seq<nat>, r: nat)
    requires |crk| == |rl| && AllPositive(rl) && lo <= bot <= p <= hi < |crk|
    requires Tiled(crk, rl, bot, p + 1) && Tiled(crk, rl, p + 1, hi + 1)
    requires rl[p] <= p && crk[p] > x
    requires forall j :: 0 <= j < bot ==> crk[j] <= x
    ensures |rl'| == |rl| && AllPositive(rl')
    ensures 1 <= r <= p && bot <= p - r + 1
    ensures forall j :: 0 <= j < |rl| && (j <= p - r || p < j) ==> rl'[j] == rl[j]
    ensures Block(crk, rl', p - r + 1, p + 1)
    ensures Tiled(crk, rl', bot, p - r + 1) && Tiled(crk, rl', p + 1, hi + 1)
    ensures r == GrowDown(crk, rl, lo, p, rl[p]) && rl' == Mark(rl, p - r + 1, r)
  {
    TiledLast(crk, rl, bot, p + 1);
    r := MergeDown(crk, rl, x, lo, p, rl[p], bot);
    MarkBlock(crk, rl, p - r + 1, r, bot, p - r + 1);
    MarkBlock(crk, rl, p - r + 1, r, p + 1, hi + 1);
    rl' := Mark(rl, p - r + 1, r);
  }

  /** One round of tighten-high.  `hit` is the case the source does not
      guard: the run ending at `p_high` starts at slot 0, so every value up
      to `p_high` is above `x` (see `TightenHighAsWritten`). */
  method HighRound(crk: seq<int>, rl: seq<nat>, x: int, lo: nat, p: nat, hi: nat, ghost bot: nat)
    returns (rl': seq<nat>, r: nat, hit: bool)
    requires |crk| == |rl| && AllPositive(rl) && lo <= bot <= p <= hi < |crk|
    requires Tiled(crk, rl, bot, p + 1) && Tiled(crk, rl, p + 1, hi + 1)
    requires crk[p] > x
    requires forall j :: 0 <= j < bot ==> crk[j] <= x
    ensures |rl'| == |rl| && AllPositive(rl')
    ensures hit ==> rl' == rl && bot == 0 && forall j :: 0 <= j <= p ==> crk[j] > x
    ensures !hit ==> && 1 <= r <= p && bot <= p - r + 1
                     && (forall j :: p - r < j <= p ==> crk[j] > x)
                     && (forall j :: 0 <= j < |rl| && (j <= p - r || p < j) ==> rl'[j] == rl[j])
                     && Tiled(crk, rl', bot, p - r + 1) && Tiled(crk, rl', p - r + 1, hi + 1)
    ensures hit <==> rl[p] > p
    ensures !hit && crk[p - rl[p]] != crk[p] ==> r == rl[p] && rl' == rl
    ensures !hit && crk[p - rl[p]] == crk[p] ==> r == GrowDown(crk, rl, lo, p, rl[p]) && rl' == Mark(rl, p - r + 1, r)
  {
    r := rl[p];
    TiledLast(crk, rl, bot, p + 1);
    if r > p {
      return rl, r, true;
    }
    hit := false;
    if crk[p - r] == crk[p] {
      rl', r := MergeHigh(crk, rl, x, lo, p, hi, bot);
    } else {
      rl' := rl;
      assert Tiled(crk, rl', bot, p - r + 1);
    }
    HighJoin(crk, rl', x, p, r, hi);
  }

  /** A run above `x` marked in front of the tiled segment after it joins
      that segment. */
  lemma HighJoin(crk: seq<int>, rl: seq<nat>, x: int, p: nat, r: nat, hi: nat)
    requires 1 <= r <= p && Block(crk, rl, p - r + 1, p + 1) && Tiled(crk, rl, p + 1, hi + 1)
    requires crk[p] > x
    ensures Tiled(crk, rl, p - r + 1, hi + 1)
    ensures forall j :: p - r < j <= p ==> crk[j] > x
  {
    BlockTiled(crk, rl, p - r + 1, p + 1);
    TiledConcat(crk, rl, p - r + 1, p + 1, hi + 1);
  }

  /** One pass of the tighten-high loop: a round of `HighRound` from
      `p_high = p`, recorded as a step of the chain of states when it does
      not hit slot 0. */
  method HighStep(crk: seq<int>, rl: seq<nat>, x: int, lo: nat, p: nat, hi: nat, ghost bot: nat,
                  ghost trace: seq<(seq<nat>, nat)>)
    returns (rl': seq<nat>, p': nat, hit: bool, ghost trace': seq<(seq<nat>, nat)>)
    requires |crk| == |rl| && AllPositive(rl) && lo <= bot <= p <= hi < |crk| && lo < p
    requires Tiled(crk, rl, bot, p + 1) && Tiled(crk, rl, p + 1, hi + 1)
    requires crk[p] > x
    requires forall j :: 0 <= j < bot ==> crk[j] <= x
    requires Chain(crk, x, lo, trace) && |trace| >= 1 && trace[|trace| - 1] == (rl, p)
    ensures |rl'| == |rl| && AllPositive(rl')
    ensures hit ==> && rl' == rl && p' == p && trace' == trace && rl[p] > p && bot == 0
                    && forall j :: 0 <= j <= p ==> crk[j] > x
    ensures !hit ==> && p' < p && bot <= p' + 1
                     && (forall j :: p' < j <= p ==> crk[j] > x)
                     && (forall j :: 0 <= j < |rl| && (j <= p' || p < j) ==> rl'[j] == rl[j])
                     && Tiled(crk, rl', bot, p' + 1) && Tiled(crk, rl', p' + 1, hi + 1)
                     && trace' == trace + [(rl', p')] && Chain(crk, x, lo, trace')
  {
    var r;
    rl', r, hit := HighRound(crk, rl, x, lo, p, hi, bot);
    if hit {
      return rl', p, hit, trace;
    }
    ChainExtend(crk, x, lo, trace, rl, p, rl', r);
    p' := p - r;
    trace' := trace + [(rl', p')];
  }

  /** The loop of tighten-high, with the states it passes through. */
  method TightenHighLoop(crk: seq<int>, rl: seq<nat>, x: int, lo: nat, hi: nat, ghost bot: nat)
    returns (rl': seq<nat>, hi': nat, hitStart: bool, ghost trace: seq<(seq<nat>, nat)>)
    requires |crk| == |rl| && AllPositive(rl) && lo <= bot <= hi + 1 && hi < |crk|
    requires Tiled(crk, rl, bot, hi + 1)
    requires forall j :: 0 <= j < bot ==> crk[j] <= x
    ensures |rl'| == |rl| && AllPositive(rl') && SameOutside(rl, rl', bot, hi)
    ensures Tiled(crk, rl', bot, hi + 1)
    ensures hitStart ==> bot == 0 && forall j :: 0 <= j <= hi ==> crk[j] > x
    ensures !hitStart ==> && hi' <= hi && bot <= hi' + 1
                          && (forall j :: hi' < j <= hi ==> crk[j] > x)
                          && (crk[hi'] <= x || hi' <= lo)
                          && Tiled(crk, rl', bot, hi' + 1) && Tiled(crk, rl', hi' + 1, hi + 1)
                          && (forall j :: 0 <= j <= hi' ==> rl'[j] == rl[j])
    ensures !hitStart && hi' == hi ==> rl' == rl
    ensures |trace| >= 1 && trace[0] == (rl, hi) && trace[|trace| - 1] == (rl', hi')
    ensures Chain(crk, x, lo, trace)
    ensures hitStart ==> hi' <= hi && crk[hi'] > x && hi' > lo && rl'[hi'] > hi'
    ensures !hitStart ==> !(crk[hi'] > x && hi' > lo)
  {
    rl', hi', hitStart := rl, hi, false;
    trace := [(rl, hi)];
    while crk[hi'] > x && hi' > lo
      invariant |rl'| == |rl| && AllPositive(rl')
      invariant hi' <= hi && bot <= hi' + 1
      invariant forall j :: hi' < j <= hi ==> crk[j] > x
      invariant forall j :: 0 <= j < |rl| && (j <= hi' || hi < j) ==> rl'[j] == rl[j]
      invariant Tiled(crk, rl', bot, hi' + 1) && Tiled(crk, rl', hi' + 1, hi + 1)
      invariant hi' == hi ==> rl' == rl
      invariant |trace| >= 1 && trace[0] == (rl, hi) && trace[|trace| - 1] == (rl', hi')
      invariant Chain(crk, x, lo, trace)
      decreases hi'
    {
      var hit;
      rl', hi', hit, trace := HighStep(crk, rl', x, lo, hi', hi, bot, trace);
      if hit {
        hitStart := true;
        break;
      }
    }
    TiledConcat(crk, rl', bot, hi' + 1, hi + 1);
  }

  /** Tighten-high (lines 184-200 of underswap_rle_compression.rs, repeated
      at 302-318).  While `crk[p_high] > x` and `p_high > p_low`, `p_high`
      skips down over the run ending there, first merging it with the
      preceding runs of the same value.  Every value below `bot` is at most
      `x` and `[bot, p_high]` is tiled.  `hitStart` reports that a run
      reaching slot 0 was found, where the source would index below slot 0;
      then no value up to `p_high` is at most `x`. */
  method TightenHigh(crk: seq<int>, rl: seq<nat>, x: int, lo: nat, hi: nat, ghost bot: nat)
    returns (rl': seq<nat>, hi': nat, hitStart: bool)
    requires |crk| == |rl| && AllPositive(rl) && lo <= bot <= hi + 1 && hi < |crk|
    requires Tiled(crk, rl, bot, hi + 1)
    requires forall j :: 0 <= j < bot ==> crk[j] <= x
    ensures AllPositive(rl') && SameOutside(rl, rl', bot, hi)
    ensures Tiled(crk, rl', bot, hi + 1)
    ensures hitStart ==> bot == 0 && forall j :: 0 <= j <= hi ==> crk[j] > x
    ensures !hitStart ==> && hi' <= hi && bot <= hi' + 1
                          && (forall j :: hi' < j <= hi ==> crk[j] > x)
                          && (crk[hi'] <= x || hi' <= lo)
                          && Tiled(crk, rl', bot, hi' + 1) && Tiled(crk, rl', hi' + 1, hi + 1)
                          && (forall j :: 0 <= j <= hi' ==> rl'[j] == rl[j])
    ensures !hitStart && hi' == hi ==> rl' == rl
    ensures hitStart ==> TightenHighAsWritten(crk, rl, x, lo, hi).Failure?
    ensures !hitStart ==> TightenHighAsWritten(crk, rl, x, lo, hi) == Success((rl', hi'))
  {
    ghost var trace;
    rl', hi', hitStart, trace := TightenHighLoop(crk, rl, x, lo, hi, bot);
    LoopAgrees(crk, x, lo, trace, hitStart);
  }

  /** The merge loop of tighten-high as a function of the run length found
      so far (the `rl` of underswap lines 186-198). */
  function GrowDown(crk: seq<int>, rl: seq<nat>, lo: nat, p: nat, r: nat): (r': nat)
    requires |crk| == |rl| && AllPositive(rl) && p < |crk| && 1 <= r <= p
    ensures r <= r' <= p
    decreases p - r
  {
    if crk[p - r] != crk[p] then r
    else
      var inc := rl[p - r];
      if p < r + inc then r
      else if p - (r + inc) < lo then r
      else GrowDown(crk, rl, lo, p, r + inc)
  }

  /** Tighten-high exactly as the source writes it, with its one failure:
      when the run read at `p_high` starts at slot 0 (`rl > p_high`), the
      read of `crk[p_high - rl]` underflows the unsigned index and panics. */
  function TightenHighAsWritten(crk: seq<int>, rl: seq<nat>, x: int, lo: nat, hi: nat)
    : (res: Result<(seq<nat>, nat), string>)
    requires |crk| == |rl| && AllPositive(rl) && hi < |crk|
    ensures res.Success? ==> res.value.1 <= hi && |res.value.0| == |rl|
    ensures res.Success? ==> crk[res.value.1] <= x || res.value.1 <= lo
    decreases hi
  {
    if !(crk[hi] > x && hi > lo) then Success((rl, hi))
    else
      var r := rl[hi];
      if r > hi then Failure("index out of bounds")
      else if crk[hi - r] == crk[hi] then
        var r' := GrowDown(crk, rl, lo, hi, r);
        TightenHighAsWritten(crk, Mark(rl, hi - r' + 1, r'), x, lo, hi - r')
      else TightenHighAsWritten(crk, rl, x, lo, hi - r)
  }

  /** One round of the loop as written takes the run lengths `rl` and
      `p_high = p` to `rl'` and `p'`: the run ending at `p` does not reach
      slot 0, and it is either skipped as it is or first merged with the
      preceding runs of its value (`GrowDown`) and re-marked. */
  ghost predicate Stepped(crk: seq<int>, x: int, lo: nat, rl: seq<nat>, p: nat, rl': seq<nat>, p': nat) {
    && |crk| == |rl| && AllPositive(rl) && lo < p < |crk| && crk[p] > x && rl[p] <= p
    && |rl'| == |rl| && AllPositive(rl') && p' < p
    && (crk[p - rl[p]] != crk[p] ==> rl' == rl && p' == p - rl[p])
    && (crk[p - rl[p]] == crk[p] ==>
          var r := GrowDown(crk, rl, lo, p, rl[p]);
          rl' == Mark(rl, p - r + 1, r) && p' == p - r)
  }

  /** A step leaves the result of the loop as written unchanged. */
  lemma SteppedAgrees(crk: seq<int>, x: int, lo: nat, rl: seq<nat>, p: nat, rl': seq<nat>, p': nat)
    requires Stepped(crk, x, lo, rl, p, rl', p')
    ensures TightenHighAsWritten(crk, rl, x, lo, p) == TightenHighAsWritten(crk, rl', x, lo, p')
  {
  }

  /** Each state of `trace` is one step of the loop as written from the
      state before it. */
  ghost predicate Chain(crk: seq<int>, x: int, lo: nat, trace: seq<(seq<nat>, nat)>) {
    forall k :: 0 <= k < |trace| - 1 ==> Stepped(crk, x, lo, trace[k].0, trace[k].1, trace[k + 1].0, trace[k + 1].1)
  }

  /** A round of `HighRound` that does not hit slot 0 extends the chain. */
  lemma ChainExtend(crk: seq<int>, x: int, lo: nat, trace: seq<(seq<nat>, nat)>,
                    rl: seq<nat>, p: nat, rl': seq<nat>, r: nat)
    requires Chain(crk, x, lo, trace) && |trace| >= 1 && trace[|trace| - 1] == (rl, p)
    requires |crk| == |rl| && AllPositive(rl) && lo < p < |crk| && crk[p] > x && rl[p] <= p
    requires |rl'| == |rl| && AllPositive(rl') && 1 <= r <= p
    requires crk[p - rl[p]] != crk[p] ==> r == rl[p] && rl' == rl
    requires crk[p - rl[p]] == crk[p] ==> r == GrowDown(crk, rl, lo, p, rl[p]) && rl' == Mark(rl, p - r + 1, r)
    ensures Chain(crk, x, lo, trace + [(rl', p - r)])
  {
    var t := trace + [(rl', p - r)];
    forall k | 0 <= k < |t| - 1
      ensures Stepped(crk, x, lo, t[k].0, t[k].1, t[k + 1].0, t[k + 1].1)
    {
      if k < |trace| - 1 {
        assert t[k] == trace[k] && t[k + 1] == trace[k + 1];
      }
    }
  }

  /** A chain of steps leaves the result of the loop as written unchanged. */
  lemma {:induction false} TraceAgrees(crk: seq<int>, x: int, lo: nat, trace: seq<(seq<nat>, nat)>)
    requires |trace| >= 1 && |crk| == |trace[0].0| && AllPositive(trace[0].0) && trace[0].1 < |crk|
    requires Chain(crk, x, lo, trace)
    ensures |crk| == |trace[|trace| - 1].0| && AllPositive(trace[|trace| - 1].0) && trace[|trace| - 1].1 < |crk|
    ensures TightenHighAsWritten(crk, trace[0].0, x, lo, trace[0].1)
            == TightenHighAsWritten(crk, trace[|trace| - 1].0, x, lo, trace[|trace| - 1].1)
    decreases |trace|
  {
    if |trace| > 1 {
      var n := |trace| - 1;
      TraceAgrees(crk, x, lo, trace[..n]);
      assert trace[..n][n - 1] == trace[n - 1];
      SteppedAgrees(crk, x, lo, trace[n - 1].0, trace[n - 1].1, trace[n].0, trace[n].1);
    }
  }

  /** The loop as written run from the first state of a chain gives the
      last state if the loop stops there, and panics if the run ending at
      the last `p_high` reaches slot 0. */
  lemma LoopAgrees(crk: seq<int>, x: int, lo: nat, trace: seq<(seq<nat>, nat)>, hit: bool)
    requires |trace| >= 1 && |crk| == |trace[0].0| && AllPositive(trace[0].0) && trace[0].1 < |crk|
    requires Chain(crk, x, lo, trace)
    requires |trace[|trace| - 1].0| == |crk| && trace[|trace| - 1].1 < |crk|
    requires var (rl, p) := trace[|trace| - 1];
             && (hit ==> crk[p] > x && p > lo && rl[p] > p)
             && (!hit ==> !(crk[p] > x && p > lo))
    ensures hit ==> TightenHighAsWritten(crk, trace[0].0, x, lo, trace[0].1).Failure?
    ensures !hit ==> TightenHighAsWritten(crk, trace[0].0, x, lo, trace[0].1)
                     == Success((trace[|trace| - 1].0, trace[|trace| - 1].1))
  {
    TraceAgrees(crk, x, lo, trace);
    WrittenStops(crk, trace[|trace| - 1].0, x, lo, trace[|trace| - 1].1);
  }

  /** Where the source loop stops, or panics on a run reaching slot 0. */
  lemma WrittenStops(crk: seq<int>, rl: seq<nat>, x: int, lo: nat, p: nat)
    requires |crk| == |rl| && AllPositive(rl) && p < |crk|
    ensures !(crk[p] > x && p > lo) ==> TightenHighAsWritten(crk, rl, x, lo, p) == Success((rl, p))
    ensures crk[p] > x && p > lo && rl[p] > p ==> TightenHighAsWritten(crk, rl, x, lo, p).Failure?
  {
  }

  /** A legitimately tiled working copy on which the source's tighten-high
      panics: four slots of 1 whose first two form one marked run (the state
      a query for 2 leaves behind on a fresh column `[1, 1, 1, 1]`), queried
      for 0.  The first round merges the last two slots and moves `p_high`
      to 1, where the stored run of length 2 reaches slot 0. */
  lemma TightenHighAsWrittenFails()
    ensures Tiled([1, 1, 1, 1], [2, 2, 1, 1], 0, 4)
    ensures TightenHighAsWritten([1, 1, 1, 1], [2, 2, 1, 1], 0, 0, 3).Failure?
  {
    var crk, rl := [1, 1, 1, 1], [2, 2, 1, 1];
    assert Tiled(crk, rl, 3, 4) by { assert Tiled(crk, rl, 4, 4); }
    assert Tiled(crk, rl, 2, 4);
    assert GrowDown(crk, rl, 0, 3, 1) == 2;
    assert Mark(rl, 2, 2) == [2, 2, 2, 2];
    assert TightenHighAsWritten(crk, [2, 2, 2, 2], 0, 0, 1).Failure?;
  }
}
