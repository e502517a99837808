/** Run-length markers of the compressed working copy.  A segment of the
    working copy is *tiled* when it is a sequence of runs of one value each,
    and the first and the last slot of every run hold the run's length in
    `runLengths`.  Slots strictly inside a run hold stale lengths that no
    operation relies on. */
module Runs {

  /** The larger and the smaller of two positions or lengths. */
  function Max(a: int, b: int): int {
    if a < b then b else a
  }

  function Min(a: int, b: int): int {
    if a < b then a else b
  }

  /** `[lo, hi)` is a single marked run. */
  ghost predicate Block(crk: seq<int>, rl: seq<nat>, lo: int, hi: int) {
    && |crk| == |rl|
    && 0 <= lo < hi <= |crk|
    && rl[lo] == hi - lo
    && rl[hi - 1] == hi - lo
    && forall j :: lo <= j < hi ==> crk[j] == crk[lo]
  }

  /** `[lo, hi)` of the working copy `crk` is a sequence of marked runs
      (run lengths in `rl`). */
  ghost predicate Tiled(crk: seq<int>, rl: seq<nat>, lo: int, hi: int)
    decreases hi - lo
  {
    && |crk| == |rl|
    && 0 <= lo <= hi <= |crk|
    && (lo == hi ||
        (&& 1 <= rl[lo] <= hi - lo
         && Block(crk, rl, lo, lo + rl[lo])
         && Tiled(crk, rl, lo + rl[lo], hi)))
  }

  /** `s'` differs from `s` at most inside `[lo, hi]`. */
  ghost predicate SameOutside<T>(s: seq<T>, s': seq<T>, lo: int, hi: int) {
    && |s'| == |s|
    && forall j {:trigger s'[j]} :: 0 <= j < |s| && (j < lo || hi < j) ==> s'[j] == s[j]
  }

  lemma SameOutsideTrans<T>(s: seq<T>, s': seq<T>, s'': seq<T>, lo: int, hi: int)
    requires SameOutside(s, s', lo, hi) && SameOutside(s', s'', lo, hi)
    ensures SameOutside(s, s'', lo, hi)
  {
  }

  /** A marker written outside a tiled segment leaves it tiled. */
  lemma TiledWrite(crk: seq<int>, rl: seq<nat>, i: nat, r: nat, lo: int, hi: int)
    requires Tiled(crk, rl, lo, hi) && i < |rl| && (i < lo || hi <= i)
    ensures Tiled(crk, rl[i := r], lo, hi)
  {
    TiledFrame(crk, rl, crk, rl[i := r], lo, hi);
  }

  /** Two markers written outside a tiled segment leave it tiled. */
  lemma TiledWrites(crk: seq<int>, rl: seq<nat>, i: nat, j: nat, r: nat, lo: int, hi: int)
    requires Tiled(crk, rl, lo, hi) && i < |rl| && j < |rl|
    requires i < lo || hi <= i
    requires j < lo || hi <= j
    ensures Tiled(crk, rl[i := r][j := r], lo, hi)
  {
    TiledWrite(crk, rl, i, r, lo, hi);
    TiledWrite(crk, rl[i := r], j, r, lo, hi);
  }

  /** Every run length in `rl` is at least one (also the stale ones). */
  ghost predicate AllPositive(rl: seq<nat>) {
    forall i :: 0 <= i < |rl| ==> rl[i] >= 1
  }

  /** Adjacent tiled segments form a tiled segment. */
  lemma {:induction false} TiledConcat(crk: seq<int>, rl: seq<nat>, lo: int, mid: int, hi: int)
    requires Tiled(crk, rl, lo, mid) && Tiled(crk, rl, mid, hi)
    ensures Tiled(crk, rl, lo, hi)
    decreases mid - lo
  {
    if lo < mid {
      TiledConcat(crk, rl, lo + rl[lo], mid, hi);
    }
  }

  /** A marked run is a tiled segment. */
  lemma BlockTiled(crk: seq<int>, rl: seq<nat>, lo: int, hi: int)
    requires Block(crk, rl, lo, hi)
    ensures Tiled(crk, rl, lo, hi)
  {
    assert Tiled(crk, rl, hi, hi);
  }

  /** A non-empty tiled segment starts with a marked run. */
  lemma TiledFirst(crk: seq<int>, rl: seq<nat>, lo: int, hi: int)
    requires Tiled(crk, rl, lo, hi) && lo < hi
    ensures 1 <= rl[lo] <= hi - lo
    ensures Block(crk, rl, lo, lo + rl[lo])
    ensures Tiled(crk, rl, lo + rl[lo], hi)
  {
  }

  /** A non-empty tiled segment ends with a marked run. */
  lemma {:induction false} TiledLast(crk: seq<int>, rl: seq<nat>, lo: int, hi: int)
    requires Tiled(crk, rl, lo, hi) && lo < hi
    ensures 1 <= rl[hi - 1] <= hi - lo
    ensures Block(crk, rl, hi - rl[hi - 1], hi)
    ensures Tiled(crk, rl, lo, hi - rl[hi - 1])
    decreases hi - lo
  {
    var e := lo + rl[lo];
    if e == hi {
      assert Tiled(crk, rl, lo, lo);
    } else {
      TiledLast(crk, rl, e, hi);
    }
  }

  /** Tiling depends only on the slots of the segment. */
  lemma {:induction false} TiledFrame(crk: seq<int>, rl: seq<nat>, crk': seq<int>, rl': seq<nat>, lo: int, hi: int)
    requires Tiled(crk, rl, lo, hi) && |crk'| == |rl'| && hi <= |crk'|
    requires forall j :: lo <= j < hi ==> crk'[j] == crk[j] && rl'[j] == rl[j]
    ensures Tiled(crk', rl', lo, hi)
    decreases hi - lo
  {
    if lo < hi {
      TiledFrame(crk, rl, crk', rl', lo + rl[lo], hi);
    }
  }

  /** Tiling survives any change confined to `[a, b]` when the segment
      lies wholly outside it. */
  lemma TiledOutside(crk: seq<int>, rl: seq<nat>, crk': seq<int>, rl': seq<nat>,
                     lo: int, hi: int, a: int, b: int)
    requires SameOutside(crk, crk', a, b) && SameOutside(rl, rl', a, b) && |crk'| == |rl'|
    requires Tiled(crk, rl, lo, hi) && (hi <= a || b < lo)
    ensures Tiled(crk', rl', lo, hi)
  {
    TiledFrame(crk, rl, crk', rl', lo, hi);
  }

  /** A marked run survives any change of the run lengths confined to
      `[a, b]` when it lies wholly outside it. */
  lemma BlockOutside(crk: seq<int>, rl: seq<nat>, rl': seq<nat>, lo: int, hi: int, a: int, b: int)
    requires Block(crk, rl, lo, hi) && SameOutside(rl, rl', a, b) && (hi <= a || b < lo)
    ensures Block(crk, rl', lo, hi)
  {
  }

  /** A tiled segment moved wholesale to another place stays tiled. */
  lemma {:induction false} TiledMoved(crk: seq<int>, rl: seq<nat>, crk': seq<int>, rl': seq<nat>, src: int, dst: int, len: int)
    requires Tiled(crk, rl, src, src + len)
    requires |crk'| == |rl'| && 0 <= dst && dst + len <= |crk'|
    requires forall j :: dst <= j < dst + len ==> crk'[j] == crk[j - dst + src] && rl'[j] == rl[j - dst + src]
    ensures Tiled(crk', rl', dst, dst + len)
    decreases len
  {
    if 0 < len {
      var r := rl[src];
      assert rl'[dst] == r;
      assert rl'[dst + r - 1] == rl[src + r - 1];
      assert forall j :: dst <= j < dst + r ==> crk'[j] == crk[j - dst + src];
      TiledMoved(crk, rl, crk', rl', src + r, dst + r, len - r);
    }
  }

  /** A tiled segment splits into two tiled segments where the value changes. */
  lemma {:induction false} TiledSplit(crk: seq<int>, rl: seq<nat>, lo: int, p: int, hi: int)
    requires Tiled(crk, rl, lo, hi) && lo <= p <= hi
    requires lo < p < hi ==> crk[p - 1] != crk[p]
    ensures Tiled(crk, rl, lo, p) && Tiled(crk, rl, p, hi)
    decreases hi - lo
  {
    if lo < p {
      var e := lo + rl[lo];
      if p < e {
        assert false;
      }
      TiledSplit(crk, rl, e, p, hi);
    }
  }
}
