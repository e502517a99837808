/** What both strategies share in an "above `x`" round of the scan
    (underswap lines 278-318, overswap lines 290-407): the run at `p_itr`
    holds values above `x` and is moved behind `p_high`, in exchange for
    the run ending at `p_high`, which tighten-high has left at most `x`. */
module Greater {
  import opened Column
  import opened Runs
  import opened Cracked
  import opened Tighten
  import opened Scan

  /** The layout an above-`x` round starts from: the run at `p_itr`
      (`[itr, itr + ri)`, above `x`), the run ending at `p_high`
      (`[hi - rh + 1, hi]`, at most `x`), and the tiled stretch between. */
  ghost predicate GreaterReady(crk: seq<int>, rl: seq<nat>, x: int, itr: int, hi: int) {
    && 0 <= itr < hi < |crk| == |rl|
    && Block(crk, rl, itr, itr + rl[itr])
    && Block(crk, rl, hi - rl[hi] + 1, hi + 1)
    && itr + rl[itr] <= hi - rl[hi] + 1
    && Tiled(crk, rl, itr + rl[itr], hi - rl[hi] + 1)
    && crk[itr] > x && crk[hi] <= x
  }

  /** The scan invariant gives the layout: `p_high` is at most `x`, so the
      run at `p_itr` ends before the run ending at `p_high` starts. */
  lemma GreaterSetup(crk: seq<int>, rl: seq<nat>, x: int, lo: int, itr: int, hi: int)
    requires ScanShape(crk, rl, x, lo, itr, hi) && itr <= hi && crk[itr] > x
    ensures GreaterReady(crk, rl, x, itr, hi)
  {
    TiledFirst(crk, rl, itr, hi + 1);
    assert itr + rl[itr] <= hi by {
      assert crk[hi] != crk[itr];
    }
    TiledLast(crk, rl, itr + rl[itr], hi + 1);
  }

  /** What the exchange of an above-`x` round leaves for tighten-high:
      nothing changes outside `[p_itr, p_high]`; `p_high` moves down to
      `hi'` over values above `x`; both sides of `hi'` are tiled; and `x` or
      less sits at `p_itr` or at `hi'`.  When `p_high` stays put (the
      overswap overlap case of lines 338-347), the value at `p_itr` is at
      most `x` and a value above `x` follows its run before `p_high`. */
  ghost predicate GreaterShape(crk: seq<int>, rl: seq<nat>, crk': seq<int>, rl': seq<nat>, x: int,
                               itr: int, hi: int, hi': int) {
    && SameOutside(crk, crk', itr, hi) && SameOutside(rl, rl', itr, hi)
    && 0 <= itr <= hi' <= hi < |crk'|
    && (forall j :: hi' < j <= hi ==> crk'[j] > x)
    && Tiled(crk', rl', itr, hi' + 1) && Tiled(crk', rl', hi' + 1, hi + 1)
    && (crk'[itr] <= x || crk'[hi'] <= x)
    && (hi' == hi ==> crk'[itr] <= x && itr + rl'[itr] <= hi && crk'[itr + rl'[itr]] > x)
  }

  /** The same, for the whole column. */
  ghost predicate GreaterPost(c0: IntCol, c: IntCol, c': IntCol, x: int, s0: int, s1: int,
                              itr: int, hi: int, hi': int) {
    && Frame(c0, c', s0, s1)
    && GreaterShape(c.crk, c.runLengths, c'.crk, c'.runLengths, x, itr, hi, hi')
  }

  /** A shape reached after marker writes inside `[p_itr, p_high]` is a
      shape reached from the column before the writes. */
  lemma GreaterShapeFrom(crk: seq<int>, rl: seq<nat>, rlw: seq<nat>, crk': seq<int>, rl': seq<nat>,
                         x: int, itr: int, hi: int, hi': int)
    requires SameOutside(rl, rlw, itr, hi)
    requires GreaterShape(crk, rlw, crk', rl', x, itr, hi, hi')
    ensures GreaterShape(crk, rl, crk', rl', x, itr, hi, hi')
  {
    SameOutsideTrans(rl, rlw, rl', itr, hi);
  }

  /** The run lengths after the block `[s, s + r)` is cut into
      `[s, s + k)` and `[s + k, s + r)`. */
  function Cut(rl: seq<nat>, s: nat, k: nat, r: nat): (rl': seq<nat>)
    requires 1 <= k < r && s + r <= |rl|
    ensures |rl'| == |rl| && rl'[s] == k && rl'[s + k - 1] == k && rl'[s + k] == r - k && rl'[s + r - 1] == r - k
    ensures forall j :: 0 <= j < |rl| && j != s && j != s + k - 1 && j != s + k && j != s + r - 1 ==> rl'[j] == rl[j]
  {
    Mark(Mark(rl, s, k), s + k, r - k)
  }

  /** The source writes a cut head markers first (underswap lines 286-289,
      overswap lines 318-323) ... */
  lemma CutHeadFirst(rl: seq<nat>, s: nat, k: nat, r: nat)
    requires 1 <= k < r && s + r <= |rl|
    ensures rl[s := k][s + k - 1 := k][s + r - 1 := r - k][s + k := r - k] == Cut(rl, s, k, r)
  {
  }

  /** ... or tail markers first (underswap lines 292-295, overswap lines
      361-366). */
  lemma CutTailFirst(rl: seq<nat>, s: nat, k: nat, r: nat)
    requires 1 <= k < r && s + r <= |rl|
    ensures rl[s + r - 1 := r - k][s + k := r - k][s := k][s + k - 1 := k] == Cut(rl, s, k, r)
  {
  }

  /** Cutting the block `[s, s + r)` after `k` slots gives two blocks;
      tilings wholly outside it are kept. */
  lemma SplitRun(crk: seq<int>, rl: seq<nat>, s: nat, k: nat, r: nat, lo: int, hi: int)
    requires Block(crk, rl, s, s + r) && 1 <= k < r
    requires Tiled(crk, rl, lo, hi) && (hi <= s || s + r <= lo)
    ensures Block(crk, Cut(rl, s, k, r), s, s + k) && Block(crk, Cut(rl, s, k, r), s + k, s + r)
    ensures Tiled(crk, Cut(rl, s, k, r), lo, hi)
  {
    MarkBlock(crk, rl, s, k, lo, hi);
    MarkBlock(crk, Mark(rl, s, k), s + k, r - k, lo, hi);
  }

  /** Cutting the block `[s, s + r)` after `k` slots inside the tiled
      stretch `[a, b)` leaves both sides of the cut tiled. */
  lemma CutTiled(crk: seq<int>, rl: seq<nat>, a: int, s: nat, k: nat, r: nat, b: int)
    requires a <= s && 1 <= k < r && s + r <= b && Block(crk, rl, s, s + r)
    requires Tiled(crk, rl, a, s) && Tiled(crk, rl, s + r, b)
    ensures Tiled(crk, Cut(rl, s, k, r), a, s + k) && Tiled(crk, Cut(rl, s, k, r), s + k, b)
  {
    var rl' := Cut(rl, s, k, r);
    SplitRun(crk, rl, s, k, r, a, s);
    TiledOutside(crk, rl, crk, rl', s + r, b, s, s + r - 1);
    BlockTiled(crk, rl', s, s + k);
    BlockTiled(crk, rl', s + k, s + r);
    TiledConcat(crk, rl', a, s, s + k);
    TiledConcat(crk, rl', s + k, s + r, b);
  }

  /** The layout once both runs have the same length `n`. */
  ghost predicate SplitDone(c0: IntCol, c: IntCol, c1: IntCol, x: int, s0: int, s1: int,
                            itr: int, hi: int, n: nat) {
    && Frame(c0, c1, s0, s1) && c1.crk == c.crk
    && SameOutside(c.runLengths, c1.runLengths, itr, hi)
    && GreaterReady(c1.crk, c1.runLengths, x, itr, hi)
    && c1.runLengths[itr] == n && c1.runLengths[hi] == n
  }

  /** Exchanging two runs of the same length, the above-`x` run at `p_itr`
      and the run ending at `p_high` (underswap line 298, overswap line
      385), moves `p_high` down by that length. */
  lemma EqualShape(crk: seq<int>, rl: seq<nat>, crk': seq<int>, rl': seq<nat>,
                   x: int, itr: nat, hi: nat, hi': int)
    requires GreaterReady(crk, rl, x, itr, hi) && rl[itr] == rl[hi] && hi' == hi - rl[itr]
    requires Exchanged(crk, crk', rl[itr], itr, hi' + 1) && Exchanged(rl, rl', rl[itr], itr, hi' + 1)
    ensures GreaterShape(crk, rl, crk', rl', x, itr, hi, hi')
  {
    var ri := rl[itr];
    EqualTiles(crk, rl, crk', rl', itr, hi, ri);
    ExchangedInside(crk, crk', ri, itr, hi' + 1, itr, hi);
    ExchangedInside(rl, rl', ri, itr, hi' + 1, itr, hi);
    assert crk'[itr] == crk[hi' + 1];
  }

  lemma EqualTiles(crk: seq<int>, rl: seq<nat>, crk': seq<int>, rl': seq<nat>,
                   itr: nat, hi: nat, ri: nat)
    requires Block(crk, rl, itr, itr + ri) && Block(crk, rl, hi - ri + 1, hi + 1)
    requires itr + ri <= hi - ri + 1 && Tiled(crk, rl, itr + ri, hi - ri + 1)
    requires Exchanged(crk, crk', ri, itr, hi - ri + 1) && Exchanged(rl, rl', ri, itr, hi - ri + 1)
    ensures Tiled(crk', rl', itr, hi - ri + 1) && Tiled(crk', rl', hi - ri + 1, hi + 1)
  {
    BlockTiled(crk, rl, itr, itr + ri);
    BlockTiled(crk, rl, hi - ri + 1, hi + 1);
    ExchangeMoves(crk, rl, crk', rl', ri, itr, hi - ri + 1);
    ExchangeKeeps(crk, rl, crk', rl', ri, itr, hi - ri + 1, itr + ri, hi - ri + 1);
    TiledConcat(crk', rl', itr, itr + ri, hi - ri + 1);
  }

  /** The exchange of two runs of the same length. */
  method SwapEqual(ghost c0: IntCol, c: IntCol, x: int, ghost s0: int, ghost s1: int,
                   itr: nat, hi: nat) returns (c': IntCol, hi': nat)
    requires Frame(c0, c, s0, s1) && s0 <= itr && hi + 1 <= s1
    requires GreaterReady(c.crk, c.runLengths, x, itr, hi)
    requires c.runLengths[itr] == c.runLengths[hi]
    ensures GreaterPost(c0, c, c', x, s0, s1, itr, hi, hi')
    ensures hi' == hi - c.runLengths[itr]
  {
    hi' := hi - c.runLengths[itr];
    c' := Exchange(c0, c, s0, s1, c.runLengths[itr], itr, hi' + 1);
    EqualShape(c.crk, c.runLengths, c'.crk, c'.runLengths, x, itr, hi, hi');
  }

  /** Tighten-high after the exchange (underswap lines 302-318, overswap
      lines 391-407) cannot reach slot 0, since a value of at most `x` lies
      at `p_itr` or at the new `p_high`. */
  lemma GreaterNoHit(crk: seq<int>, rl: seq<nat>, crk1: seq<int>, rl1: seq<nat>,
                     x: int, itr: int, hi: int, h1: int, hit: bool)
    requires GreaterShape(crk, rl, crk1, rl1, x, itr, hi, h1)
    requires hit ==> itr == 0 && forall j :: 0 <= j <= h1 ==> crk1[j] > x
    ensures !hit
  {
  }

  /** After tighten-high the scan invariant holds again, and `p_high` has
      moved down unless the value at `p_itr` dropped to at most `x`. */
  lemma GreaterTightenShape(crk: seq<int>, rl: seq<nat>, crk1: seq<int>, rl1: seq<nat>, rl2: seq<nat>,
                            x: int, lo: int, itr: int, hi: int, h1: int, h2: int)
    requires ScanShape(crk, rl, x, lo, itr, hi) && itr <= hi
    requires GreaterShape(crk, rl, crk1, rl1, x, itr, hi, h1)
    requires SameOutside(rl1, rl2, itr, h1)
    requires h2 <= h1 && itr <= h2 + 1
    requires forall j :: h2 < j <= h1 ==> crk1[j] > x
    requires crk1[h2] <= x || h2 <= lo
    requires Tiled(crk1, rl2, itr, h2 + 1) && Tiled(crk1, rl2, h2 + 1, h1 + 1)
    requires h2 == h1 ==> rl2 == rl1
    ensures ScanShape(crk1, rl2, x, lo, itr, h2)
    ensures SameOutside(rl, rl2, itr, hi) && h2 <= hi && (h2 < hi || crk1[itr] <= x)
  {
    SameOutsideTrans(rl, rl1, rl2, itr, hi);
    GreaterTightenValues(crk, rl, crk1, rl1, rl2, x, lo, itr, hi, h1, h2);
    TiledOutside(crk, rl, crk1, rl2, 0, lo, itr, hi);
    TiledOutside(crk, rl, crk1, rl2, lo, itr, itr, hi);
    GreaterTightenTiles(crk, rl, crk1, rl1, rl2, x, lo, itr, hi, h1, h2);
  }

  lemma GreaterTightenTiles(crk: seq<int>, rl: seq<nat>, crk1: seq<int>, rl1: seq<nat>, rl2: seq<nat>,
                            x: int, lo: int, itr: int, hi: int, h1: int, h2: int)
    requires Tiled(crk, rl, hi + 1, |crk|) && itr <= h2 + 1 && h2 <= h1 <= hi < |crk|
    requires SameOutside(crk, crk1, itr, hi) && SameOutside(rl, rl2, itr, hi)
    requires SameOutside(rl1, rl2, itr, h1) && |crk1| == |rl2|
    requires Tiled(crk1, rl1, h1 + 1, hi + 1)
    requires Tiled(crk1, rl2, h2 + 1, h1 + 1)
    ensures Tiled(crk1, rl2, h2 + 1, |crk1|)
  {
    TiledOutside(crk, rl, crk1, rl2, hi + 1, |crk|, itr, hi);
    TiledOutside(crk1, rl1, crk1, rl2, h1 + 1, hi + 1, itr, h1);
    TiledConcat(crk1, rl2, h2 + 1, h1 + 1, hi + 1);
    TiledConcat(crk1, rl2, h2 + 1, hi + 1, |crk|);
  }

  lemma GreaterTightenValues(crk: seq<int>, rl: seq<nat>, crk1: seq<int>, rl1: seq<nat>, rl2: seq<nat>,
                             x: int, lo: int, itr: int, hi: int, h1: int, h2: int)
    requires ScanShape(crk, rl, x, lo, itr, hi) && itr <= hi
    requires GreaterShape(crk, rl, crk1, rl1, x, itr, hi, h1)
    requires h2 <= h1 && itr <= h2 + 1 && |rl2| == |rl1|
    requires forall j :: h2 < j <= h1 ==> crk1[j] > x
    requires crk1[h2] <= x || h2 <= lo
    requires h2 == h1 ==> rl2 == rl1
    ensures Partitioned(crk1, x, lo, itr, h2)
    ensures itr <= h2 ==> crk1[h2] <= x
    ensures h2 + 1 == |crk1| && lo == itr <= h2 && crk1[lo] < x ==>
              itr + rl2[itr] <= h2 && crk1[itr + rl2[itr]] > x
    ensures h2 < hi || crk1[itr] <= x
  {
  }
}
