/** The above-`x` round of the overswap strategy (overswap lines 290-389):
    the whole of the longer of the run at `p_itr` and the run ending at
    `p_high` is moved, together with enough neighbouring slots ("padding")
    to make the exchanged ranges the same length; when the two target
    ranges would overlap, only the stretch between them is moved. */
module Overswap {
  import opened Column
  import opened Runs
  import opened Cracked
  import opened Tighten
  import opened Scan
  import opened Greater
  import opened Wrappers

  /** The padding length: how much longer one run is than the other. */
  function PadSize(ri: nat, rh: nat): (pad: nat)
    ensures ri == rh + pad || rh == ri + pad
  {
    if ri >= rh then ri - rh else rh - ri
  }

  /** Rust's `as i8`: the low eight bits, read as two's complement.  In a
      release build an `i8` operation that overflows gives the same. */
  function I8(v: int): (r: int)
    ensures -128 <= r < 128 && (r - v) % 256 == 0
  {
    var m := v % 256;
    if m >= 128 then m - 256 else m
  }

  /** The number of values of a 64-bit `usize`. */
  const UsizeRange: int := 0x1_0000_0000_0000_0000

  /** The padding length as overswap line 293 computes it in a release
      build: both run lengths are cast to `i8`, the subtraction and `abs`
      wrap around on `i8` overflow, and the cast of the negative `i8::MIN`
      to `usize` sign-extends.  The result agrees with the true difference
      only modulo 256 and up to sign. */
  function PadSizeAsWritten(ri: nat, rh: nat): (pad: nat)
    ensures pad < 128 || pad == UsizeRange - 128
    ensures pad < 128 ==> (pad - (ri - rh)) % 256 == 0 || (pad + (ri - rh)) % 256 == 0
  {
    var d := I8(I8(ri) - I8(rh));
    var a := if d < 0 then I8(-d) else d;
    PadCongruent(ri, rh, d, a);
    if a < 0 then UsizeRange + a else a
  }

  /** The `i8` padding before its cast to `usize`: congruent to the
      difference of the run lengths or to its negation, and negative only
      as `i8::MIN`. */
  lemma PadCongruent(ri: int, rh: int, d: int, a: int)
    requires d == I8(I8(ri) - I8(rh)) && a == (if d < 0 then I8(-d) else d)
    ensures a < 0 ==> a == -128
    ensures a >= 0 ==> (a - (ri - rh)) % 256 == 0 || (a + (ri - rh)) % 256 == 0
  {
    var i, h := I8(ri), I8(rh);
    assert (d - (i - h)) % 256 == 0 && (i - ri) % 256 == 0 && (h - rh) % 256 == 0;
    var k := (d - (ri - rh)) / 256;
    assert d - (ri - rh) == 256 * k;
    if d < 0 {
      assert (a + d) % 256 == 0;
      assert a + (ri - rh) == (a + d) - 256 * k;
    }
  }

  /** For runs shorter than 128 slots the cast is harmless. */
  lemma PadSizeAsWrittenShort(ri: nat, rh: nat)
    requires ri < 128 && rh < 128
    ensures PadSizeAsWritten(ri, rh) == PadSize(ri, rh)
  {
    assert I8(ri) == ri && I8(rh) == rh && I8(ri - rh) == ri - rh;
  }

  /** A run of 200 slots against a run of one: the cast gives 57 where the
      padding is 199 slots long, so the second exchange of the padded case
      (line 334) moves only part of the padding.  Runs of 129 slots and of
      one give a padding beyond the end of any column. */
  lemma PadSizeAsWrittenWrong()
    ensures PadSizeAsWritten(200, 1) == 57 && PadSize(200, 1) == 199
    ensures PadSizeAsWritten(129, 1) == UsizeRange - 128 && PadSize(129, 1) == 128
  {
    assert I8(200) == -56 && I8(-57) == -57 && I8(57) == 57;
    assert I8(129) == -127 && I8(-128) == -128 && I8(128) == -128;
  }

  /** Overlapping case, run at `p_itr` longer (overswap lines 297-304): the
      stretch after the run at `p_itr` up to `p_high` trades places with the
      run's first slots, and the run's markers are moved to its new ends. */
  lemma LongerOverlapTiles(crk: seq<int>, rl: seq<nat>, rlw: seq<nat>, crk': seq<int>, rl': seq<nat>,
                           x: int, itr: nat, hi: nat, g: nat)
    requires GreaterReady(crk, rl, x, itr, hi) && rl[itr] > rl[hi]
    requires g == hi + 1 - itr - rl[itr] && g < rl[itr]
    requires rlw == rl[itr + g - 1 := rl[itr]][itr + g := rl[itr]]
    requires Exchanged(crk, crk', g, itr, itr + rl[itr]) && Exchanged(rlw, rl', g, itr, itr + rl[itr])
    ensures Tiled(crk', rl', itr, itr + g) && Block(crk', rl', itr + g, hi + 1)
  {
    var ri, rh := rl[itr], rl[hi];
    BlockTiled(crk, rl, hi - rh + 1, hi + 1);
    TiledConcat(crk, rl, itr + ri, hi - rh + 1, hi + 1);
    TiledWrites(crk, rl, itr + g - 1, itr + g, ri, itr + ri, hi + 1);
    ExchangeMoves(crk, rlw, crk', rl', g, itr, itr + ri);
    assert rl'[itr + g] == ri && rl'[hi] == ri;
    assert forall j :: itr + g <= j < hi + 1 ==> crk'[j] == crk[itr];
  }

  lemma LongerOverlapShape(crk: seq<int>, rl: seq<nat>, rlw: seq<nat>, crk': seq<int>, rl': seq<nat>,
                           x: int, itr: nat, hi: nat, g: nat, hi': int)
    requires GreaterReady(crk, rl, x, itr, hi) && rl[itr] > rl[hi]
    requires g == hi + 1 - itr - rl[itr] && g < rl[itr] && hi' == hi - rl[itr]
    requires rlw == rl[itr + g - 1 := rl[itr]][itr + g := rl[itr]]
    requires Exchanged(crk, crk', g, itr, itr + rl[itr]) && Exchanged(rlw, rl', g, itr, itr + rl[itr])
    ensures GreaterShape(crk, rl, crk', rl', x, itr, hi, hi')
  {
    var ri := rl[itr];
    LongerOverlapTiles(crk, rl, rlw, crk', rl', x, itr, hi, g);
    BlockTiled(crk', rl', itr + g, hi + 1);
    ExchangedInside(crk, crk', g, itr, itr + ri, itr, hi);
    ExchangedInside(rlw, rl', g, itr, itr + ri, itr, hi);
    SameOutsideTrans(rl, rlw, rl', itr, hi);
    assert crk'[hi'] == crk[hi];
  }

  method LongerOverlap(ghost c0: IntCol, c: IntCol, x: int, ghost s0: int, ghost s1: int,
                       itr: nat, hi: nat) returns (c': IntCol, hi': nat)
    requires Frame(c0, c, s0, s1) && s0 <= itr && hi + 1 <= s1
    requires GreaterReady(c.crk, c.runLengths, x, itr, hi)
    requires c.runLengths[itr] > c.runLengths[hi] && hi - c.runLengths[itr] + 1 < itr + c.runLengths[itr]
    ensures GreaterPost(c0, c, c', x, s0, s1, itr, hi, hi')
    ensures hi' == hi - c.runLengths[itr]
  {
    var ri := c.runLengths[itr];
    var ov := (itr + ri) - (hi - ri + 1);
    var g := ri - ov;
    var c1 := SetRuns(c0, c, s0, s1, itr + g - 1, itr + g, ri);
    c' := Exchange(c0, c1, s0, s1, g, itr, hi - ri + 1 + ov);
    hi' := hi - ri;
    LongerOverlapShape(c.crk, c.runLengths, c1.runLengths, c'.crk, c'.runLengths, x, itr, hi, g, hi');
  }

  /** Overlapping case, run ending at `p_high` longer (overswap lines
      340-347): the stretch from `p_itr` up to that run trades places with
      the run's last slots, and `p_high` stays where it is. */
  lemma ShorterOverlapTiles(crk: seq<int>, rl: seq<nat>, rlw: seq<nat>, crk': seq<int>, rl': seq<nat>,
                            x: int, itr: nat, hi: nat, g: nat)
    requires GreaterReady(crk, rl, x, itr, hi) && rl[hi] > rl[itr]
    requires g == hi - rl[hi] + 1 - itr && g < rl[hi]
    requires rlw == rl[hi - g + 1 := rl[hi]][hi - g := rl[hi]]
    requires Exchanged(crk, crk', g, itr, hi - g + 1) && Exchanged(rlw, rl', g, itr, hi - g + 1)
    ensures Block(crk', rl', itr, itr + rl[hi]) && Tiled(crk', rl', hi - g + 1, hi + 1)
  {
    var rh := rl[hi];
    ShorterOverlapMoved(crk, rl, rlw, crk', rl', x, itr, hi, g);
    assert rl'[itr] == rh && rl'[itr + rh - 1] == rh;
    assert forall j :: itr <= j < itr + rh ==> crk'[j] == crk[hi];
  }

  /** The stretch from `p_itr` up to the run ending at `p_high` lands
      tiled in that run's last slots. */
  lemma ShorterOverlapMoved(crk: seq<int>, rl: seq<nat>, rlw: seq<nat>, crk': seq<int>, rl': seq<nat>,
                            x: int, itr: nat, hi: nat, g: nat)
    requires GreaterReady(crk, rl, x, itr, hi) && rl[hi] > rl[itr]
    requires g == hi - rl[hi] + 1 - itr && g < rl[hi]
    requires rlw == rl[hi - g + 1 := rl[hi]][hi - g := rl[hi]]
    requires Exchanged(crk, crk', g, itr, hi - g + 1) && Exchanged(rlw, rl', g, itr, hi - g + 1)
    ensures Tiled(crk', rl', hi - g + 1, hi + 1)
  {
    var ri, rh := rl[itr], rl[hi];
    BlockTiled(crk, rl, itr, itr + ri);
    TiledConcat(crk, rl, itr, itr + ri, hi - rh + 1);
    TiledWrites(crk, rl, hi - g + 1, hi - g, rh, itr, itr + g);
    ExchangeCarries(crk, rlw, crk', rl', g, itr, itr + g, hi - g + 1, hi + 1);
  }

  lemma ShorterOverlapShape(crk: seq<int>, rl: seq<nat>, rlw: seq<nat>, crk': seq<int>, rl': seq<nat>,
                            x: int, itr: nat, hi: nat, g: nat)
    requires GreaterReady(crk, rl, x, itr, hi) && rl[hi] > rl[itr]
    requires g == hi - rl[hi] + 1 - itr && g < rl[hi]
    requires rlw == rl[hi - g + 1 := rl[hi]][hi - g := rl[hi]]
    requires Exchanged(crk, crk', g, itr, hi - g + 1) && Exchanged(rlw, rl', g, itr, hi - g + 1)
    ensures GreaterShape(crk, rl, crk', rl', x, itr, hi, hi)
  {
    var rh := rl[hi];
    ShorterOverlapTiles(crk, rl, rlw, crk', rl', x, itr, hi, g);
    BlockTiled(crk', rl', itr, itr + rh);
    TiledConcat(crk', rl', itr, itr + rh, hi + 1);
    assert Tiled(crk', rl', hi + 1, hi + 1);
    ExchangedInside(crk, crk', g, itr, hi - g + 1, itr, hi);
    ExchangedInside(rlw, rl', g, itr, hi - g + 1, itr, hi);
    SameOutsideTrans(rl, rlw, rl', itr, hi);
    assert crk'[itr + rh] == crk[itr];
  }

  method ShorterOverlap(ghost c0: IntCol, c: IntCol, x: int, ghost s0: int, ghost s1: int,
                        itr: nat, hi: nat) returns (c': IntCol, hi': nat)
    requires Frame(c0, c, s0, s1) && s0 <= itr && hi + 1 <= s1
    requires GreaterReady(c.crk, c.runLengths, x, itr, hi)
    requires c.runLengths[hi] > c.runLengths[itr] && hi - c.runLengths[hi] + 1 < itr + c.runLengths[hi]
    ensures GreaterPost(c0, c, c', x, s0, s1, itr, hi, hi')
    ensures hi' == hi
  {
    var rh := c.runLengths[hi];
    var ov := (itr + rh) - (hi - rh + 1);
    var g := rh - ov;
    var c1 := SetRuns(c0, c, s0, s1, hi - g + 1, hi - g, rh);
    c' := Exchange(c0, c1, s0, s1, g, itr, hi - g + 1);
    hi' := hi;
    ShorterOverlapShape(c.crk, c.runLengths, c1.runLengths, c'.crk, c'.runLengths, x, itr, hi, g);
  }

  /** The two runs of an above-`x` round: `[itr, itr + ri)` above `x` and
      `[hi - rh + 1, hi]` at most `x`. */
  ghost predicate Ends(crk: seq<int>, rl: seq<nat>, x: int, itr: int, hi: int, ri: int, rh: int) {
    && 0 <= itr && hi < |crk| == |rl|
    && Block(crk, rl, itr, itr + ri) && Block(crk, rl, hi - rh + 1, hi + 1)
    && crk[itr] > x && crk[hi] <= x
  }

  /** The layout of a padded exchange: the run at `p_itr`, the run ending at
      `p_high`, and the tiled stretch between them cut at `m` into two
      tiled parts, one of which is the padding. */
  ghost predicate PadLayout(crk: seq<int>, rl: seq<nat>, x: int, itr: int, hi: int, ri: int, rh: int, m: int) {
    && 0 <= itr && 1 <= ri && 1 <= rh && itr + ri <= m <= hi - rh + 1 && hi < |crk| == |rl|
    && Block(crk, rl, itr, itr + ri) && Block(crk, rl, hi - rh + 1, hi + 1)
    && Tiled(crk, rl, itr + ri, m) && Tiled(crk, rl, m, hi - rh + 1)
    && crk[itr] > x && crk[hi] <= x
  }

  /** The padding walk of overswap lines 308-311: from just before the run
      ending at `p_high`, `p_pad` steps down run by run to the run that holds
      slot `p_high - rl_itr + 1`, the first slot of the padding. */
  method PadWalkDown(crk: seq<int>, rl: seq<nat>, x: int, itr: nat, hi: nat) returns (p: nat)
    requires GreaterReady(crk, rl, x, itr, hi) && rl[itr] > rl[hi]
    requires itr + rl[itr] <= hi - rl[itr] + 1
    ensures hi - rl[itr] + 1 <= p <= hi - rl[hi]
    ensures 1 <= rl[p] && itr + rl[itr] <= p + 1 - rl[p] <= hi - rl[itr] + 1
    ensures Block(crk, rl, p + 1 - rl[p], p + 1)
    ensures Tiled(crk, rl, itr + rl[itr], p + 1 - rl[p]) && Tiled(crk, rl, p + 1, hi - rl[hi] + 1)
  {
    var ri, rh := rl[itr], rl[hi];
    ghost var b, e := itr + ri, hi - rh + 1;
    p := hi - rh;
    assert Tiled(crk, rl, p + 1, e);
    TiledLast(crk, rl, b, p + 1);
    while hi - (p - rl[p]) < ri
      invariant hi - ri + 1 <= p < e
      invariant 1 <= rl[p] && b <= p + 1 - rl[p]
      invariant Block(crk, rl, p + 1 - rl[p], p + 1)
      invariant Tiled(crk, rl, b, p + 1 - rl[p]) && Tiled(crk, rl, p + 1, e)
      decreases p
    {
      WalkDownStep(crk, rl, b, p, e);
      p := p - rl[p];
    }
  }

  /** One step of the downward walk: the run before the current one is
      marked, and the tiling below and above it still holds. */
  lemma WalkDownStep(crk: seq<int>, rl: seq<nat>, b: nat, p: nat, e: nat)
    requires p < e <= |crk| == |rl| && 1 <= rl[p] && b < p + 1 - rl[p]
    requires Block(crk, rl, p + 1 - rl[p], p + 1)
    requires Tiled(crk, rl, b, p + 1 - rl[p]) && Tiled(crk, rl, p + 1, e)
    ensures var q := p - rl[p];
      && 1 <= rl[q] && b <= q + 1 - rl[q]
      && Block(crk, rl, q + 1 - rl[q], q + 1)
      && Tiled(crk, rl, b, q + 1 - rl[q]) && Tiled(crk, rl, q + 1, e)
  {
    BlockTiled(crk, rl, p + 1 - rl[p], p + 1);
    TiledConcat(crk, rl, p + 1 - rl[p], p + 1, e);
    TiledLast(crk, rl, b, p - rl[p] + 1);
  }

  /** The padding walk of overswap lines 351-354: from just after the run at
      `p_itr`, `p_pad` steps up run by run to the run that holds slot
      `p_itr + rl_high - 1`, the last slot of the padding. */
  method PadWalkUp(crk: seq<int>, rl: seq<nat>, x: int, itr: nat, hi: nat) returns (p: nat)
    requires GreaterReady(crk, rl, x, itr, hi) && rl[hi] > rl[itr]
    requires itr + rl[hi] <= hi - rl[hi] + 1
    ensures itr + rl[itr] <= p < itr + rl[hi]
    ensures 1 <= rl[p] && itr + rl[hi] <= p + rl[p] <= hi - rl[hi] + 1
    ensures Block(crk, rl, p, p + rl[p])
    ensures Tiled(crk, rl, itr + rl[itr], p) && Tiled(crk, rl, p + rl[p], hi - rl[hi] + 1)
  {
    var ri, rh := rl[itr], rl[hi];
    ghost var b, e := itr + ri, hi - rh + 1;
    p := itr + ri;
    assert Tiled(crk, rl, b, p);
    TiledFirst(crk, rl, p, e);
    while p + rl[p] < itr + rh
      invariant b <= p < itr + rh
      invariant 1 <= rl[p] && p + rl[p] <= e
      invariant Block(crk, rl, p, p + rl[p])
      invariant Tiled(crk, rl, b, p) && Tiled(crk, rl, p + rl[p], e)
      decreases hi - p
    {
      WalkUpStep(crk, rl, b, p, e);
      p := p + rl[p];
    }
  }

  /** One step of the upward walk: the run after the current one is
      marked, and the tiling below and above it still holds. */
  lemma WalkUpStep(crk: seq<int>, rl: seq<nat>, b: nat, p: nat, e: nat)
    requires b <= p < e <= |crk| == |rl| && 1 <= rl[p] && p + rl[p] < e
    requires Block(crk, rl, p, p + rl[p])
    requires Tiled(crk, rl, b, p) && Tiled(crk, rl, p + rl[p], e)
    ensures var q := p + rl[p];
      && 1 <= rl[q] && q + rl[q] <= e
      && Block(crk, rl, q, q + rl[q])
      && Tiled(crk, rl, b, q) && Tiled(crk, rl, q + rl[q], e)
  {
    BlockTiled(crk, rl, p, p + rl[p]);
    TiledConcat(crk, rl, b, p, p + rl[p]);
    TiledFirst(crk, rl, p + rl[p], e);
  }

  /** Cutting the run `[s, s + r)` after `k` slots lays out the padding
      (overswap lines 316-324 and 359-367) ... */
  lemma PadCut(crk: seq<int>, rl: seq<nat>, rl1: seq<nat>, x: int, itr: nat, hi: nat, ri: nat, rh: nat,
               s: nat, k: nat, r: nat, m: nat)
    requires itr < hi && Ends(crk, rl, x, itr, hi, ri, rh)
    requires itr + ri <= s && 1 <= k < r && s + r <= hi - rh + 1 && m == s + k
    requires Block(crk, rl, s, s + r) && Tiled(crk, rl, itr + ri, s) && Tiled(crk, rl, s + r, hi - rh + 1)
    requires rl1 == Cut(rl, s, k, r)
    ensures PadLayout(crk, rl1, x, itr, hi, ri, rh, m)
    ensures SameOutside(rl, rl1, itr + ri, hi - rh)
  {
    CutTiled(crk, rl, itr + ri, s, k, r, hi - rh + 1);
    BlockOutside(crk, rl, rl1, itr, itr + ri, s, s + r - 1);
    BlockOutside(crk, rl, rl1, hi - rh + 1, hi + 1, s, s + r - 1);
  }

  /** ... unless the run already ends or starts where the padding does. */
  lemma PadExact(crk: seq<int>, rl: seq<nat>, x: int, itr: nat, hi: nat, ri: nat, rh: nat,
                 s: nat, e: nat, m: nat)
    requires itr < hi && Ends(crk, rl, x, itr, hi, ri, rh)
    requires itr + ri <= s < e <= hi - rh + 1 && (m == s || m == e)
    requires Block(crk, rl, s, e) && Tiled(crk, rl, itr + ri, s) && Tiled(crk, rl, e, hi - rh + 1)
    ensures PadLayout(crk, rl, x, itr, hi, ri, rh, m)
  {
    BlockTiled(crk, rl, s, e);
    if m == s {
      TiledConcat(crk, rl, s, e, hi - rh + 1);
    } else {
      TiledConcat(crk, rl, itr + ri, s, e);
    }
  }

  /** The padding of the longer-`p_itr` case is the stretch
      `[p_high - rl_itr + 1, p_high - rl_high]` (overswap lines 306-324):
      the walk down finds the run holding its first slot ... */
  method PadCutDown(ghost c0: IntCol, c: IntCol, x: int, ghost s0: int, ghost s1: int,
                    itr: nat, hi: nat) returns (c1: IntCol)
    requires Frame(c0, c, s0, s1)
    requires GreaterReady(c.crk, c.runLengths, x, itr, hi) && c.runLengths[itr] > c.runLengths[hi]
    requires itr + c.runLengths[itr] <= hi - c.runLengths[itr] + 1
    ensures Frame(c0, c1, s0, s1) && c1.crk == c.crk
    ensures SameOutside(c.runLengths, c1.runLengths, itr + c.runLengths[itr], hi - c.runLengths[hi])
    ensures PadLayout(c.crk, c1.runLengths, x, itr, hi, c.runLengths[itr], c.runLengths[hi],
                      hi - c.runLengths[itr] + 1)
  {
    var p := PadWalkDown(c.crk, c.runLengths, x, itr, hi);
    c1 := CutDownAt(c0, c, x, s0, s1, itr, hi, c.runLengths[itr], c.runLengths[hi], p);
  }

  /** ... and cuts it there unless it starts there. */
  method CutDownAt(ghost c0: IntCol, c: IntCol, x: int, ghost s0: int, ghost s1: int,
                   itr: nat, hi: nat, ri: nat, rh: nat, p: nat) returns (c1: IntCol)
    requires Frame(c0, c, s0, s1) && itr < hi && Ends(c.crk, c.runLengths, x, itr, hi, ri, rh)
    requires hi - ri + 1 <= p <= hi - rh && 1 <= c.runLengths[p]
    requires itr + ri <= p + 1 - c.runLengths[p] <= hi - ri + 1
    requires Block(c.crk, c.runLengths, p + 1 - c.runLengths[p], p + 1)
    requires Tiled(c.crk, c.runLengths, itr + ri, p + 1 - c.runLengths[p])
    requires Tiled(c.crk, c.runLengths, p + 1, hi - rh + 1)
    ensures Frame(c0, c1, s0, s1) && c1.crk == c.crk
    ensures SameOutside(c.runLengths, c1.runLengths, itr + ri, hi - rh)
    ensures PadLayout(c.crk, c1.runLengths, x, itr, hi, ri, rh, hi - ri + 1)
  {
    var rp := c.runLengths[p];
    var rem := p - (hi - ri);
    var s := p + 1 - rp;
    assert s + rp == p + 1;
    if p - rp != hi - ri {
      c1 := CutHead(c0, c, x, s0, s1, itr, hi, ri, rh, s, c.runLengths[s] - rem, rp, hi - ri + 1);
    } else {
      c1 := c;
      PadExact(c.crk, c.runLengths, x, itr, hi, ri, rh, s, p + 1, hi - ri + 1);
    }
  }

  /** The cut of overswap lines 318-323: the head part's markers are
      written first, at `s` and `p_high - rl_itr`, then the tail part's, at
      `p_pad` and `p_pad - rem_size + 1`. */
  method CutHead(ghost c0: IntCol, c: IntCol, x: int, ghost s0: int, ghost s1: int,
                 itr: nat, hi: nat, ri: nat, rh: nat, s: nat, k: nat, r: nat, m: nat) returns (c1: IntCol)
    requires Frame(c0, c, s0, s1) && itr < hi && Ends(c.crk, c.runLengths, x, itr, hi, ri, rh)
    requires itr + ri <= s && 1 <= k < r && s + r <= hi - rh + 1 && m == s + k
    requires Block(c.crk, c.runLengths, s, s + r)
    requires Tiled(c.crk, c.runLengths, itr + ri, s) && Tiled(c.crk, c.runLengths, s + r, hi - rh + 1)
    ensures Frame(c0, c1, s0, s1) && c1.crk == c.crk
    ensures SameOutside(c.runLengths, c1.runLengths, itr + ri, hi - rh)
    ensures PadLayout(c.crk, c1.runLengths, x, itr, hi, ri, rh, m)
  {
    var ca := SetRuns(c0, c, s0, s1, s, s + k - 1, k);
    c1 := SetRuns(c0, ca, s0, s1, s + r - 1, s + k, r - k);
    CutHeadFirst(c.runLengths, s, k, r);
    PadCut(c.crk, c.runLengths, c1.runLengths, x, itr, hi, ri, rh, s, k, r, m);
  }

  /** The padding of the longer-`p_high` case is the stretch
      `[p_itr + rl_itr, p_itr + rl_high)` (overswap lines 349-367): the walk
      up finds the run holding its last slot ... */
  method PadCutUp(ghost c0: IntCol, c: IntCol, x: int, ghost s0: int, ghost s1: int,
                  itr: nat, hi: nat) returns (c1: IntCol)
    requires Frame(c0, c, s0, s1)
    requires GreaterReady(c.crk, c.runLengths, x, itr, hi) && c.runLengths[hi] > c.runLengths[itr]
    requires itr + c.runLengths[hi] <= hi - c.runLengths[hi] + 1
    ensures Frame(c0, c1, s0, s1) && c1.crk == c.crk
    ensures SameOutside(c.runLengths, c1.runLengths, itr + c.runLengths[itr], hi - c.runLengths[hi])
    ensures PadLayout(c.crk, c1.runLengths, x, itr, hi, c.runLengths[itr], c.runLengths[hi],
                      itr + c.runLengths[hi])
  {
    var p := PadWalkUp(c.crk, c.runLengths, x, itr, hi);
    c1 := CutUpAt(c0, c, x, s0, s1, itr, hi, c.runLengths[itr], c.runLengths[hi], p);
  }

  /** ... and cuts it there unless it ends there. */
  method CutUpAt(ghost c0: IntCol, c: IntCol, x: int, ghost s0: int, ghost s1: int,
                 itr: nat, hi: nat, ri: nat, rh: nat, p: nat) returns (c1: IntCol)
    requires Frame(c0, c, s0, s1) && itr < hi && Ends(c.crk, c.runLengths, x, itr, hi, ri, rh)
    requires itr + ri <= p < itr + rh && 1 <= c.runLengths[p]
    requires itr + rh <= p + c.runLengths[p] <= hi - rh + 1
    requires Block(c.crk, c.runLengths, p, p + c.runLengths[p])
    requires Tiled(c.crk, c.runLengths, itr + ri, p)
    requires Tiled(c.crk, c.runLengths, p + c.runLengths[p], hi - rh + 1)
    ensures Frame(c0, c1, s0, s1) && c1.crk == c.crk
    ensures SameOutside(c.runLengths, c1.runLengths, itr + ri, hi - rh)
    ensures PadLayout(c.crk, c1.runLengths, x, itr, hi, ri, rh, itr + rh)
  {
    var rp := c.runLengths[p];
    var rem := (itr + rh) - p;
    if p + rp != itr + rh {
      c1 := CutTail(c0, c, x, s0, s1, itr, hi, ri, rh, p, rem, rp, itr + rh);
    } else {
      c1 := c;
      PadExact(c.crk, c.runLengths, x, itr, hi, ri, rh, p, p + rp, itr + rh);
    }
  }

  /** The cut of overswap lines 361-366: the tail part's markers are
      written first, at `p_pad + rl_pad - 1` and `p_itr + rl_high`, then the
      head part's, at `p_pad` and `p_pad + rem_size - 1`. */
  method CutTail(ghost c0: IntCol, c: IntCol, x: int, ghost s0: int, ghost s1: int,
                 itr: nat, hi: nat, ri: nat, rh: nat, s: nat, k: nat, r: nat, m: nat) returns (c1: IntCol)
    requires Frame(c0, c, s0, s1) && itr < hi && Ends(c.crk, c.runLengths, x, itr, hi, ri, rh)
    requires itr + ri <= s && 1 <= k < r && s + r <= hi - rh + 1 && m == s + k
    requires Block(c.crk, c.runLengths, s, s + r)
    requires Tiled(c.crk, c.runLengths, itr + ri, s) && Tiled(c.crk, c.runLengths, s + r, hi - rh + 1)
    ensures Frame(c0, c1, s0, s1) && c1.crk == c.crk
    ensures SameOutside(c.runLengths, c1.runLengths, itr + ri, hi - rh)
    ensures PadLayout(c.crk, c1.runLengths, x, itr, hi, ri, rh, m)
  {
    var ca := SetRuns(c0, c, s0, s1, s + r - 1, s + k, c.runLengths[s + r - 1] - k);
    c1 := SetRuns(c0, ca, s0, s1, s, s + k - 1, k);
    CutTailFirst(c.runLengths, s, k, r);
    PadCut(c.crk, c.runLengths, c1.runLengths, x, itr, hi, ri, rh, s, k, r, m);
  }

  /** After the marker writes and the first exchange of the longer-`p_itr`
      padded case (overswap lines 327-331): the run ending at `p_high` sits
      at `p_itr`; the tail of the `p_itr` run, marked `rl_itr` at its first
      slot, is still in place; its head, marked `rl_itr` at its last slot,
      sits at the end; the middle and the padding are untouched. */
  ghost predicate LongerFirstDone(crk: seq<int>, crk3: seq<int>, rl3: seq<nat>,
                                  itr: int, hi: int, ri: int, rh: int) {
    && 0 <= itr && 1 <= rh < ri && itr + ri <= hi - ri + 1 && hi < |crk| == |crk3| == |rl3|
    && Tiled(crk3, rl3, itr, itr + rh)
    && Tiled(crk3, rl3, itr + ri, hi - ri + 1) && Tiled(crk3, rl3, hi - ri + 1, hi - rh + 1)
    && rl3[itr + rh] == ri && rl3[hi] == ri
    && (forall j :: itr + rh <= j < itr + ri ==> crk3[j] == crk[itr])
    && (forall j :: hi - rh + 1 <= j <= hi ==> crk3[j] == crk[itr])
    && crk3[itr] == crk[hi]
  }

  lemma LongerFirst(crk: seq<int>, rl: seq<nat>, rlw: seq<nat>, crk3: seq<int>, rl3: seq<nat>,
                    x: int, itr: nat, hi: nat, ri: nat, rh: nat)
    requires PadLayout(crk, rl, x, itr, hi, ri, rh, hi - ri + 1) && rh < ri
    requires rlw == rl[itr + rh := ri][itr + rh - 1 := ri]
    requires Exchanged(crk, crk3, rh, itr, hi - rh + 1) && Exchanged(rlw, rl3, rh, itr, hi - rh + 1)
    ensures LongerFirstDone(crk, crk3, rl3, itr, hi, ri, rh)
  {
    LongerMarks(crk, rl, rlw, x, itr, hi, ri, rh);
    LongerFirstTiles(crk, rlw, crk3, rl3, itr, hi, ri, rh);
    assert rl3[hi] == rlw[itr + rh - 1];
  }

  /** The marker writes of overswap lines 327-328 fall inside the `p_itr`
      run, so the rest of the layout stays tiled. */
  lemma LongerMarks(crk: seq<int>, rl: seq<nat>, rlw: seq<nat>, x: int, itr: nat, hi: nat, ri: nat, rh: nat)
    requires PadLayout(crk, rl, x, itr, hi, ri, rh, hi - ri + 1) && rh < ri
    requires rlw == rl[itr + rh := ri][itr + rh - 1 := ri]
    ensures Tiled(crk, rlw, itr + ri, hi - ri + 1) && Tiled(crk, rlw, hi - ri + 1, hi - rh + 1)
    ensures Tiled(crk, rlw, hi - rh + 1, hi + 1)
  {
    BlockTiled(crk, rl, hi - rh + 1, hi + 1);
    TiledWrites(crk, rl, itr + rh, itr + rh - 1, ri, hi - rh + 1, hi + 1);
    TiledWrites(crk, rl, itr + rh, itr + rh - 1, ri, itr + ri, hi - ri + 1);
    TiledWrites(crk, rl, itr + rh, itr + rh - 1, ri, hi - ri + 1, hi - rh + 1);
  }

  lemma LongerFirstTiles(crk: seq<int>, rlw: seq<nat>, crk3: seq<int>, rl3: seq<nat>,
                         itr: nat, hi: nat, ri: nat, rh: nat)
    requires 1 <= rh < ri && itr + ri <= hi - ri + 1 && hi < |crk|
    requires Tiled(crk, rlw, itr + ri, hi - ri + 1) && Tiled(crk, rlw, hi - ri + 1, hi - rh + 1)
    requires Tiled(crk, rlw, hi - rh + 1, hi + 1)
    requires Exchanged(crk, crk3, rh, itr, hi - rh + 1) && Exchanged(rlw, rl3, rh, itr, hi - rh + 1)
    ensures Tiled(crk3, rl3, itr, itr + rh)
    ensures Tiled(crk3, rl3, itr + ri, hi - ri + 1) && Tiled(crk3, rl3, hi - ri + 1, hi - rh + 1)
  {
    ExchangeFar(crk, rlw, crk3, rl3, itr, itr + rh, itr + ri, hi - ri + 1, hi - rh + 1, hi + 1);
  }

  /** The second exchange (overswap line 334) trades the tail of the
      `p_itr` run for the padding: the run ending at `p_high` and the
      padding now start at `p_itr`, and the whole `p_itr` run ends at
      `p_high`. */
  lemma LongerSecond(crk: seq<int>, crk3: seq<int>, rl3: seq<nat>, crk': seq<int>, rl': seq<nat>,
                     itr: nat, hi: nat, ri: nat, rh: nat)
    requires LongerFirstDone(crk, crk3, rl3, itr, hi, ri, rh)
    requires Exchanged(crk3, crk', ri - rh, itr + rh, hi - ri + 1)
    requires Exchanged(rl3, rl', ri - rh, itr + rh, hi - ri + 1)
    ensures Tiled(crk', rl', itr, hi - ri + 1) && Tiled(crk', rl', hi - ri + 1, hi + 1)
    ensures crk'[itr] == crk[hi] && forall j :: hi - ri + 1 <= j <= hi ==> crk'[j] == crk[itr]
  {
    LongerSecondTiles(crk3, rl3, crk', rl', itr, hi, ri, rh);
    LongerJoined(crk, crk3, rl3, crk', rl', itr, hi, ri, rh);
    TiledConcat(crk', rl', itr, itr + rh, itr + ri);
    TiledConcat(crk', rl', itr, itr + ri, hi - ri + 1);
    BlockTiled(crk', rl', hi - ri + 1, hi + 1);
  }

  lemma LongerSecondTiles(crk3: seq<int>, rl3: seq<nat>, crk': seq<int>, rl': seq<nat>,
                          itr: nat, hi: nat, ri: nat, rh: nat)
    requires 1 <= rh < ri && itr + ri <= hi - ri + 1 && hi < |crk3|
    requires Tiled(crk3, rl3, itr, itr + rh) && Tiled(crk3, rl3, itr + ri, hi - ri + 1)
    requires Tiled(crk3, rl3, hi - ri + 1, hi - rh + 1)
    requires Exchanged(crk3, crk', ri - rh, itr + rh, hi - ri + 1)
    requires Exchanged(rl3, rl', ri - rh, itr + rh, hi - ri + 1)
    ensures Tiled(crk', rl', itr, itr + rh) && Tiled(crk', rl', itr + rh, itr + ri)
    ensures Tiled(crk', rl', itr + ri, hi - ri + 1)
  {
    ExchangeDown(crk3, rl3, crk', rl', itr, itr + rh, itr + ri, hi - ri + 1, hi - rh + 1);
  }

  /** ... and the whole `p_itr` run now ends at `p_high`. */
  lemma LongerJoined(crk: seq<int>, crk3: seq<int>, rl3: seq<nat>, crk': seq<int>, rl': seq<nat>,
                     itr: nat, hi: nat, ri: nat, rh: nat)
    requires LongerFirstDone(crk, crk3, rl3, itr, hi, ri, rh)
    requires Exchanged(crk3, crk', ri - rh, itr + rh, hi - ri + 1)
    requires Exchanged(rl3, rl', ri - rh, itr + rh, hi - ri + 1)
    ensures Block(crk', rl', hi - ri + 1, hi + 1)
    ensures crk'[itr] == crk[hi] && forall j :: hi - ri + 1 <= j <= hi ==> crk'[j] == crk[itr]
  {
    assert rl'[hi - ri + 1] == rl3[itr + rh];
    forall j | hi - ri + 1 <= j < hi - rh + 1
      ensures crk'[j] == crk[itr]
    {
      assert crk'[j] == crk3[j - (hi - ri + 1) + (itr + rh)];
    }
  }

  /** Both padded cases end the same way: the `p_itr` run, now at the top,
      is the part above `x`, and the run from `p_high` sits at `p_itr`. */
  lemma ShapeTop(crk: seq<int>, rl: seq<nat>, crk': seq<int>, rl': seq<nat>, x: int,
                 itr: nat, hi: nat, hi': int)
    requires SameOutside(crk, crk', itr, hi) && SameOutside(rl, rl', itr, hi)
    requires itr <= hi' < hi < |crk| && crk[itr] > x && crk[hi] <= x
    requires Tiled(crk', rl', itr, hi' + 1) && Tiled(crk', rl', hi' + 1, hi + 1)
    requires crk'[itr] == crk[hi] && forall j :: hi' < j <= hi ==> crk'[j] == crk[itr]
    ensures GreaterShape(crk, rl, crk', rl', x, itr, hi, hi')
  {
  }

  lemma LongerPadShape(crk: seq<int>, rl: seq<nat>, rlw: seq<nat>, crk3: seq<int>, rl3: seq<nat>,
                       crk': seq<int>, rl': seq<nat>, x: int, itr: nat, hi: nat, ri: nat, rh: nat, hi': int)
    requires PadLayout(crk, rl, x, itr, hi, ri, rh, hi - ri + 1) && rh < ri && hi' == hi - ri
    requires rlw == rl[itr + rh := ri][itr + rh - 1 := ri]
    requires Exchanged(crk, crk3, rh, itr, hi - rh + 1) && Exchanged(rlw, rl3, rh, itr, hi - rh + 1)
    requires Exchanged(crk3, crk', ri - rh, itr + rh, hi - ri + 1)
    requires Exchanged(rl3, rl', ri - rh, itr + rh, hi - ri + 1)
    ensures GreaterShape(crk, rl, crk', rl', x, itr, hi, hi')
  {
    TwoExchangesFrame(crk, rl, rlw, crk3, rl3, crk', rl', rh, itr, hi - rh + 1, ri - rh, itr + rh, hi - ri + 1, itr, hi);
    LongerFirst(crk, rl, rlw, crk3, rl3, x, itr, hi, ri, rh);
    LongerSecond(crk, crk3, rl3, crk', rl', itr, hi, ri, rh);
    ShapeTop(crk, rl, crk', rl', x, itr, hi, hi');
  }

  /** The first step of both padded cases: two markers are written, then
      two ranges are exchanged. */
  method MarkThenExchange(ghost c0: IntCol, c: IntCol, ghost s0: int, ghost s1: int,
                          i: nat, j: nat, r: nat, l: nat, a: nat, b: nat) returns (c': IntCol)
    requires Frame(c0, c, s0, s1) && i < |c.crk| && j < |c.crk| && r >= 1
    requires Disjoint(l, a, b) && s0 <= a && a + l <= s1 && s0 <= b && b + l <= s1
    ensures Frame(c0, c', s0, s1)
    ensures Exchanged(c.crk, c'.crk, l, a, b)
    ensures Exchanged(c.runLengths[i := r][j := r], c'.runLengths, l, a, b)
  {
    var c2 := SetRuns(c0, c, s0, s1, i, j, r);
    c' := Exchange(c0, c2, s0, s1, l, a, b);
  }

  /** The exchange of the longer-`p_itr` padded case (overswap lines
      325-334); the padding has already been cut out. */
  method LongerPadSwap(ghost c0: IntCol, c: IntCol, x: int, ghost s0: int, ghost s1: int,
                       itr: nat, hi: nat, ri: nat, rh: nat) returns (c': IntCol, hi': nat)
    requires Frame(c0, c, s0, s1) && s0 <= itr && hi + 1 <= s1
    requires PadLayout(c.crk, c.runLengths, x, itr, hi, ri, rh, hi - ri + 1) && rh < ri
    ensures GreaterPost(c0, c, c', x, s0, s1, itr, hi, hi') && hi' == hi - ri
  {
    var pad := PadSize(ri, rh);
    assert pad == ri - rh;
    var c3 := MarkThenExchange(c0, c, s0, s1, itr + rh, itr + rh - 1, ri, rh, itr, hi - rh + 1);
    c' := Exchange(c0, c3, s0, s1, pad, itr + rh, hi - ri + 1);
    hi' := hi - ri;
    LongerPadShape(c.crk, c.runLengths, c.runLengths[itr + rh := ri][itr + rh - 1 := ri],
                   c3.crk, c3.runLengths, c'.crk, c'.runLengths, x, itr, hi, ri, rh, hi');
  }

  /** The longer-`p_itr` case without overlap (overswap lines 305-336):
      the padding is cut out, then the `p_itr` run and the padding trade
      places with the run ending at `p_high`. */
  method LongerPadded(ghost c0: IntCol, c: IntCol, x: int, ghost s0: int, ghost s1: int,
                      itr: nat, hi: nat) returns (c': IntCol, hi': nat)
    requires Frame(c0, c, s0, s1) && s0 <= itr && hi + 1 <= s1
    requires GreaterReady(c.crk, c.runLengths, x, itr, hi)
    requires c.runLengths[itr] > c.runLengths[hi] && itr + c.runLengths[itr] <= hi - c.runLengths[itr] + 1
    ensures GreaterPost(c0, c, c', x, s0, s1, itr, hi, hi')
    ensures hi' == hi - c.runLengths[itr]
  {
    var c1 := PadCutDown(c0, c, x, s0, s1, itr, hi);
    c', hi' := LongerPadSwap(c0, c1, x, s0, s1, itr, hi, c.runLengths[itr], c.runLengths[hi]);
    GreaterShapeFrom(c.crk, c.runLengths, c1.runLengths, c'.crk, c'.runLengths, x, itr, hi, hi');
  }

  /** The marker writes of overswap lines 370-371 fall inside the run
      ending at `p_high`, so the rest of the layout stays tiled. */
  lemma ShorterMarks(crk: seq<int>, rl: seq<nat>, rlw: seq<nat>, x: int, itr: nat, hi: nat, ri: nat, rh: nat)
    requires PadLayout(crk, rl, x, itr, hi, ri, rh, itr + rh) && ri < rh
    requires rlw == rl[hi - ri := rh][hi - ri + 1 := rh]
    ensures Tiled(crk, rlw, itr, itr + ri) && Tiled(crk, rlw, itr + ri, itr + rh)
    ensures Tiled(crk, rlw, itr + rh, hi - rh + 1)
  {
    BlockTiled(crk, rl, itr, itr + ri);
    TiledWrites(crk, rl, hi - ri, hi - ri + 1, rh, itr, itr + ri);
    TiledWrites(crk, rl, hi - ri, hi - ri + 1, rh, itr + ri, itr + rh);
    TiledWrites(crk, rl, hi - ri, hi - ri + 1, rh, itr + rh, hi - rh + 1);
  }

  /** After the marker writes and the first exchange of the longer-`p_high`
      padded case (overswap lines 370-374): the `p_itr` run sits at the end;
      the tail of the run ending at `p_high`, marked `rl_high` at its first
      slot, sits at `p_itr`; its head, marked `rl_high` at its last slot, is
      still in place; the padding and the middle are untouched. */
  ghost predicate ShorterFirstDone(crk: seq<int>, crk3: seq<int>, rl3: seq<nat>,
                                   itr: int, hi: int, ri: int, rh: int) {
    && 0 <= itr && 1 <= ri < rh && itr + rh <= hi - rh + 1 && hi < |crk| == |crk3| == |rl3|
    && Tiled(crk3, rl3, itr + ri, itr + rh) && Tiled(crk3, rl3, itr + rh, hi - rh + 1)
    && Tiled(crk3, rl3, hi - ri + 1, hi + 1)
    && rl3[itr] == rh && rl3[hi - ri] == rh
    && (forall j :: itr <= j < itr + ri ==> crk3[j] == crk[hi])
    && (forall j :: hi - rh + 1 <= j <= hi - ri ==> crk3[j] == crk[hi])
    && (forall j :: hi - ri + 1 <= j <= hi ==> crk3[j] == crk[itr])
  }

  lemma ShorterFirst(crk: seq<int>, rl: seq<nat>, rlw: seq<nat>, crk3: seq<int>, rl3: seq<nat>,
                     x: int, itr: nat, hi: nat, ri: nat, rh: nat)
    requires PadLayout(crk, rl, x, itr, hi, ri, rh, itr + rh) && ri < rh
    requires rlw == rl[hi - ri := rh][hi - ri + 1 := rh]
    requires Exchanged(crk, crk3, ri, itr, hi - ri + 1) && Exchanged(rlw, rl3, ri, itr, hi - ri + 1)
    ensures ShorterFirstDone(crk, crk3, rl3, itr, hi, ri, rh)
  {
    ShorterMarks(crk, rl, rlw, x, itr, hi, ri, rh);
    ShorterFirstTiles(crk, rlw, crk3, rl3, itr, hi, ri, rh);
    assert rl3[itr] == rlw[hi - ri + 1];
    assert crk[hi] == crk[hi - rh + 1];
  }

  lemma ShorterFirstTiles(crk: seq<int>, rlw: seq<nat>, crk3: seq<int>, rl3: seq<nat>,
                          itr: nat, hi: nat, ri: nat, rh: nat)
    requires 1 <= ri < rh && itr + rh <= hi - rh + 1 && hi < |crk|
    requires Tiled(crk, rlw, itr, itr + ri) && Tiled(crk, rlw, itr + ri, itr + rh)
    requires Tiled(crk, rlw, itr + rh, hi - rh + 1)
    requires Exchanged(crk, crk3, ri, itr, hi - ri + 1) && Exchanged(rlw, rl3, ri, itr, hi - ri + 1)
    ensures Tiled(crk3, rl3, itr + ri, itr + rh) && Tiled(crk3, rl3, itr + rh, hi - rh + 1)
    ensures Tiled(crk3, rl3, hi - ri + 1, hi + 1)
  {
    ExchangeMoves(crk, rlw, crk3, rl3, ri, itr, hi - ri + 1);
    ExchangeKeeps(crk, rlw, crk3, rl3, ri, itr, hi - ri + 1, itr + ri, itr + rh);
    ExchangeKeeps(crk, rlw, crk3, rl3, ri, itr, hi - ri + 1, itr + rh, hi - rh + 1);
  }

  /** The second exchange (overswap line 377) trades the padding for the
      head of the run ending at `p_high`: that run is whole again at
      `p_itr` ... */
  lemma ShorterJoined(crk: seq<int>, crk3: seq<int>, rl3: seq<nat>, crk': seq<int>, rl': seq<nat>,
                      itr: nat, hi: nat, ri: nat, rh: nat)
    requires ShorterFirstDone(crk, crk3, rl3, itr, hi, ri, rh)
    requires Exchanged(crk3, crk', rh - ri, itr + ri, hi - rh + 1)
    requires Exchanged(rl3, rl', rh - ri, itr + ri, hi - rh + 1)
    ensures Block(crk', rl', itr, itr + rh) && crk'[itr] == crk[hi]
  {
    assert rl'[itr + rh - 1] == rl3[hi - ri];
    forall j | itr + ri <= j < itr + rh
      ensures crk'[j] == crk[hi]
    {
      assert crk'[j] == crk3[j - (itr + ri) + (hi - rh + 1)];
    }
  }

  /** ... the middle stays, the padding sits just before the `p_itr` run. */
  lemma ShorterSecond(crk: seq<int>, crk3: seq<int>, rl3: seq<nat>, crk': seq<int>, rl': seq<nat>,
                      itr: nat, hi: nat, ri: nat, rh: nat)
    requires ShorterFirstDone(crk, crk3, rl3, itr, hi, ri, rh)
    requires Exchanged(crk3, crk', rh - ri, itr + ri, hi - rh + 1)
    requires Exchanged(rl3, rl', rh - ri, itr + ri, hi - rh + 1)
    ensures Tiled(crk', rl', itr, hi - ri + 1) && Tiled(crk', rl', hi - ri + 1, hi + 1)
    ensures crk'[itr] == crk[hi] && forall j :: hi - ri + 1 <= j <= hi ==> crk'[j] == crk[itr]
  {
    ShorterJoined(crk, crk3, rl3, crk', rl', itr, hi, ri, rh);
    ShorterSecondTiles(crk3, rl3, crk', rl', itr, hi, ri, rh);
    BlockTiled(crk', rl', itr, itr + rh);
    TiledConcat(crk', rl', itr, itr + rh, hi - rh + 1);
    TiledConcat(crk', rl', itr, hi - rh + 1, hi - ri + 1);
  }

  lemma ShorterSecondTiles(crk3: seq<int>, rl3: seq<nat>, crk': seq<int>, rl': seq<nat>,
                           itr: nat, hi: nat, ri: nat, rh: nat)
    requires 1 <= ri < rh && itr + rh <= hi - rh + 1 && hi < |crk3|
    requires Tiled(crk3, rl3, itr + ri, itr + rh) && Tiled(crk3, rl3, itr + rh, hi - rh + 1)
    requires Tiled(crk3, rl3, hi - ri + 1, hi + 1)
    requires Exchanged(crk3, crk', rh - ri, itr + ri, hi - rh + 1)
    requires Exchanged(rl3, rl', rh - ri, itr + ri, hi - rh + 1)
    ensures Tiled(crk', rl', itr + rh, hi - rh + 1) && Tiled(crk', rl', hi - rh + 1, hi - ri + 1)
    ensures Tiled(crk', rl', hi - ri + 1, hi + 1)
  {
    ExchangeUp(crk3, rl3, crk', rl', itr + ri, itr + rh, hi - rh + 1, hi - ri + 1, hi + 1);
  }

  lemma ShorterPadShape(crk: seq<int>, rl: seq<nat>, rlw: seq<nat>, crk3: seq<int>, rl3: seq<nat>,
                        crk': seq<int>, rl': seq<nat>, x: int, itr: nat, hi: nat, ri: nat, rh: nat, hi': int)
    requires PadLayout(crk, rl, x, itr, hi, ri, rh, itr + rh) && ri < rh && hi' == hi - ri
    requires rlw == rl[hi - ri := rh][hi - ri + 1 := rh]
    requires Exchanged(crk, crk3, ri, itr, hi - ri + 1) && Exchanged(rlw, rl3, ri, itr, hi - ri + 1)
    requires Exchanged(crk3, crk', rh - ri, itr + ri, hi - rh + 1)
    requires Exchanged(rl3, rl', rh - ri, itr + ri, hi - rh + 1)
    ensures GreaterShape(crk, rl, crk', rl', x, itr, hi, hi')
  {
    ShorterPadMoves(crk, rl, rlw, crk3, rl3, crk', rl', x, itr, hi, ri, rh);
    ShapeTop(crk, rl, crk', rl', x, itr, hi, hi');
  }

  /** What the two exchanges of the longer-`p_high` padded case move where:
      the `p_itr` run ends up in the top `rl_itr` slots, and the value of
      the `p_high` run at `p_itr`. */
  lemma ShorterPadMoves(crk: seq<int>, rl: seq<nat>, rlw: seq<nat>, crk3: seq<int>, rl3: seq<nat>,
                        crk': seq<int>, rl': seq<nat>, x: int, itr: nat, hi: nat, ri: nat, rh: nat)
    requires PadLayout(crk, rl, x, itr, hi, ri, rh, itr + rh) && ri < rh
    requires rlw == rl[hi - ri := rh][hi - ri + 1 := rh]
    requires Exchanged(crk, crk3, ri, itr, hi - ri + 1) && Exchanged(rlw, rl3, ri, itr, hi - ri + 1)
    requires Exchanged(crk3, crk', rh - ri, itr + ri, hi - rh + 1)
    requires Exchanged(rl3, rl', rh - ri, itr + ri, hi - rh + 1)
    ensures SameOutside(crk, crk', itr, hi) && SameOutside(rl, rl', itr, hi)
    ensures Tiled(crk', rl', itr, hi - ri + 1) && Tiled(crk', rl', hi - ri + 1, hi + 1)
    ensures crk'[itr] == crk[hi] && forall j :: hi - ri + 1 <= j <= hi ==> crk'[j] == crk[itr]
  {
    TwoExchangesFrame(crk, rl, rlw, crk3, rl3, crk', rl', ri, itr, hi - ri + 1, rh - ri, itr + ri, hi - rh + 1, itr, hi);
    ShorterFirst(crk, rl, rlw, crk3, rl3, x, itr, hi, ri, rh);
    ShorterSecond(crk, crk3, rl3, crk', rl', itr, hi, ri, rh);
  }

  /** The exchange of the longer-`p_high` padded case (overswap lines
      368-380); the padding has already been cut out. */
  method ShorterPadSwap(ghost c0: IntCol, c: IntCol, x: int, ghost s0: int, ghost s1: int,
                        itr: nat, hi: nat, ri: nat, rh: nat) returns (c': IntCol, hi': nat)
    requires Frame(c0, c, s0, s1) && s0 <= itr && hi + 1 <= s1
    requires PadLayout(c.crk, c.runLengths, x, itr, hi, ri, rh, itr + rh) && ri < rh
    ensures GreaterPost(c0, c, c', x, s0, s1, itr, hi, hi') && hi' == hi - ri
  {
    var pad := PadSize(ri, rh);
    assert pad == rh - ri;
    var c3 := MarkThenExchange(c0, c, s0, s1, hi - ri, hi - ri + 1, rh, ri, itr, hi - ri + 1);
    c' := Exchange(c0, c3, s0, s1, pad, itr + ri, hi - rh + 1);
    hi' := hi - ri;
    ShorterPadShape(c.crk, c.runLengths, c.runLengths[hi - ri := rh][hi - ri + 1 := rh],
                    c3.crk, c3.runLengths, c'.crk, c'.runLengths, x, itr, hi, ri, rh, hi');
  }

  /** The longer-`p_high` case without overlap (overswap lines 348-381):
      the padding is cut out, then the `p_itr` run trades places with the
      tail of the run ending at `p_high`, and the padding with its head. */
  method ShorterPadded(ghost c0: IntCol, c: IntCol, x: int, ghost s0: int, ghost s1: int,
                       itr: nat, hi: nat) returns (c': IntCol, hi': nat)
    requires Frame(c0, c, s0, s1) && s0 <= itr && hi + 1 <= s1
    requires GreaterReady(c.crk, c.runLengths, x, itr, hi)
    requires c.runLengths[hi] > c.runLengths[itr] && itr + c.runLengths[hi] <= hi - c.runLengths[hi] + 1
    ensures GreaterPost(c0, c, c', x, s0, s1, itr, hi, hi')
    ensures hi' == hi - c.runLengths[itr]
  {
    var c1 := PadCutUp(c0, c, x, s0, s1, itr, hi);
    c', hi' := ShorterPadSwap(c0, c1, x, s0, s1, itr, hi, c.runLengths[itr], c.runLengths[hi]);
    GreaterShapeFrom(c.crk, c.runLengths, c1.runLengths, c'.crk, c'.runLengths, x, itr, hi, hi');
  }

  /** Where `p_high` ends up after an overswap above-`x` round: it stays
      only in the overlapping longer-`p_high` case (overswap lines 340-347),
      and otherwise moves down by `rl_itr` (lines 337, 380 and 387). */
  function OverHighAfter(itr: int, hi: int, ri: int, rh: int): int {
    if rh > ri && hi - rh + 1 < itr + rh then hi else hi - ri
  }

  method OverLonger(ghost c0: IntCol, c: IntCol, x: int, ghost s0: int, ghost s1: int,
                    itr: nat, hi: nat) returns (c': IntCol, hi': nat)
    requires Frame(c0, c, s0, s1) && s0 <= itr && hi + 1 <= s1
    requires GreaterReady(c.crk, c.runLengths, x, itr, hi) && c.runLengths[itr] > c.runLengths[hi]
    ensures GreaterPost(c0, c, c', x, s0, s1, itr, hi, hi')
    ensures hi' == hi - c.runLengths[itr]
  {
    if hi - c.runLengths[itr] + 1 < itr + c.runLengths[itr] {
      c', hi' := LongerOverlap(c0, c, x, s0, s1, itr, hi);
    } else {
      c', hi' := LongerPadded(c0, c, x, s0, s1, itr, hi);
    }
  }

  method OverShorter(ghost c0: IntCol, c: IntCol, x: int, ghost s0: int, ghost s1: int,
                     itr: nat, hi: nat) returns (c': IntCol, hi': nat)
    requires Frame(c0, c, s0, s1) && s0 <= itr && hi + 1 <= s1
    requires GreaterReady(c.crk, c.runLengths, x, itr, hi) && c.runLengths[hi] > c.runLengths[itr]
    ensures GreaterPost(c0, c, c', x, s0, s1, itr, hi, hi')
    ensures hi' == OverHighAfter(itr, hi, c.runLengths[itr], c.runLengths[hi])
  {
    if hi - c.runLengths[hi] + 1 < itr + c.runLengths[hi] {
      c', hi' := ShorterOverlap(c0, c, x, s0, s1, itr, hi);
    } else {
      c', hi' := ShorterPadded(c0, c, x, s0, s1, itr, hi);
    }
  }

  /** The above-`x` round of the overswap strategy (overswap lines
      289-386): the run at `p_itr` and the run ending at `p_high` trade
      places whole, the shorter one padded out with the runs next to it. */
  method OverGreater(ghost c0: IntCol, c: IntCol, x: int, ghost s0: int, ghost s1: int,
                     itr: nat, hi: nat) returns (c': IntCol, hi': nat)
    requires Frame(c0, c, s0, s1) && s0 <= itr && hi + 1 <= s1
    requires GreaterReady(c.crk, c.runLengths, x, itr, hi)
    ensures GreaterPost(c0, c, c', x, s0, s1, itr, hi, hi')
    ensures hi' == OverHighAfter(itr, hi, c.runLengths[itr], c.runLengths[hi])
  {
    if c.runLengths[itr] > c.runLengths[hi] {
      c', hi' := OverLonger(c0, c, x, s0, s1, itr, hi);
    } else if c.runLengths[hi] > c.runLengths[itr] {
      c', hi' := OverShorter(c0, c, x, s0, s1, itr, hi);
    } else {
      c', hi' := SwapEqual(c0, c, x, s0, s1, itr, hi);
    }
  }
}
