/** `IntCol` (column.rs): one integer column together with its cracked
    working copy.  `v` is the column as stored; `crk` the working copy that
    queries reorganise; `crkIdx` the pivot index over `crk`; `baseIdx[i]`
    the row of `v` that `crk[i]` came from; `runLengths` the run-length
    markers of the compressed working copy; `ofs` an offset vector that no
    operation of the core reads. */
module Column {
  import CrackerIndex
  import opened Rows

  datatype IntCol = IntCol(
    v: seq<int>,
    crk: seq<int>,
    crkIdx: CrackerIndex.Index,
    baseIdx: seq<nat>,
    ofs: seq<nat>,
    runLengths: seq<nat>)

  /** Two ranges of length `l` starting at `a` and `b` do not overlap. */
  predicate Disjoint(l: nat, a: nat, b: nat) {
    a + l <= b || b + l <= a
  }

  /** The ranges may be exchanged: they do not overlap, or they coincide
      (then the exchange changes nothing). */
  predicate Swappable(l: nat, a: nat, b: nat) {
    Disjoint(l, a, b) || a == b
  }

  /** Where the element that lands at `i` came from when the ranges
      `[a, a+l)` and `[b, b+l)` are exchanged. */
  function SwapSource(l: nat, a: nat, b: nat, i: nat): nat {
    if a <= i < a + l then i - a + b
    else if b <= i < b + l then i - b + a
    else i
  }

  /** `s` with the non-overlapping ranges `[a, a+l)` and `[b, b+l)`
      exchanged (`ptr::swap_nonoverlapping`). */
  function SwapSeq<T>(s: seq<T>, l: nat, a: nat, b: nat): (r: seq<T>)
    requires a + l <= |s| && b + l <= |s| && Disjoint(l, a, b)
    ensures |r| == |s|
  {
    if a + l <= b then
      s[..a] + s[b..b+l] + s[a+l..b] + s[a..a+l] + s[b+l..]
    else
      s[..b] + s[a..a+l] + s[b+l..a] + s[b..b+l] + s[a+l..]
  }

  lemma SwapSeqOrderedMultiset<T>(s: seq<T>, l: nat, a: nat, b: nat)
    requires a + l <= b && b + l <= |s|
    ensures multiset(SwapSeq(s, l, a, b)) == multiset(s)
  {
    var p1, p2, p3, p4, p5 := s[..a], s[b..b+l], s[a+l..b], s[a..a+l], s[b+l..];
    calc {
      multiset(SwapSeq(s, l, a, b));
      multiset(p1 + p2 + p3 + p4 + p5);
      { ExchangeParts(p1, p2, p3, p4, p5); }
      multiset(p1 + p4 + p3 + p2 + p5);
      { FiveParts(s, l, a, b); }
      multiset(s);
    }
  }

  lemma FiveParts<T>(s: seq<T>, l: nat, a: nat, b: nat)
    requires a + l <= b && b + l <= |s|
    ensures multiset(s) == multiset(s[..a] + s[a..a+l] + s[a+l..b] + s[b..b+l] + s[b+l..])
  {
    assert s == s[..a] + s[a..a+l] + s[a+l..b] + s[b..b+l] + s[b+l..];
  }

  /** Exchanging the second and fourth of five parts keeps the elements. */
  lemma ExchangeParts<T>(p1: seq<T>, p2: seq<T>, p3: seq<T>, p4: seq<T>, p5: seq<T>)
    ensures multiset(p1 + p2 + p3 + p4 + p5) == multiset(p1 + p4 + p3 + p2 + p5)
  {
    calc {
      multiset(p1 + p2 + p3 + p4 + p5);
      multiset(p1) + multiset(p2) + multiset(p3) + multiset(p4) + multiset(p5);
      multiset(p1 + p4 + p3 + p2 + p5);
    }
  }

  /** Exchanging two ranges only permutes the elements. */
  lemma SwapSeqMultiset<T>(s: seq<T>, l: nat, a: nat, b: nat)
    requires a + l <= |s| && b + l <= |s| && Disjoint(l, a, b)
    ensures multiset(SwapSeq(s, l, a, b)) == multiset(s)
  {
    if a + l <= b {
      SwapSeqOrderedMultiset(s, l, a, b);
    } else {
      SwapSeqOrderedMultiset(s, l, b, a);
    }
  }

  lemma SwapSeqOrderedAt<T>(s: seq<T>, l: nat, a: nat, b: nat, i: nat)
    requires a + l <= b && b + l <= |s| && i < |s|
    ensures SwapSeq(s, l, a, b)[i] == s[SwapSource(l, a, b, i)]
  {
    var p1, p2, p3, p4, p5 := s[..a], s[b..b+l], s[a+l..b], s[a..a+l], s[b+l..];
    assert SwapSeq(s, l, a, b) == p1 + p2 + p3 + p4 + p5;
    if i < a {
      assert (p1 + p2 + p3 + p4 + p5)[i] == p1[i];
    } else if i < a + l {
      assert (p1 + p2 + p3 + p4 + p5)[i] == p2[i - a];
    } else if i < b {
      assert (p1 + p2 + p3 + p4 + p5)[i] == p3[i - a - l];
    } else if i < b + l {
      assert (p1 + p2 + p3 + p4 + p5)[i] == p4[i - b];
    } else {
      assert (p1 + p2 + p3 + p4 + p5)[i] == p5[i - b - l];
    }
  }

  /** Every element of a swapped sequence comes from the mirrored position. */
  lemma SwapSeqAt<T>(s: seq<T>, l: nat, a: nat, b: nat)
    requires a + l <= |s| && b + l <= |s| && Disjoint(l, a, b)
    ensures forall i :: 0 <= i < |s| ==> SwapSeq(s, l, a, b)[i] == s[SwapSource(l, a, b, i)]
  {
    forall i | 0 <= i < |s|
      ensures SwapSeq(s, l, a, b)[i] == s[SwapSource(l, a, b, i)]
    {
      if a + l <= b {
        SwapSeqOrderedAt(s, l, a, b, i);
      } else {
        SwapSeqOrderedAt(s, l, b, a, i);
        assert SwapSource(l, b, a, i) == SwapSource(l, a, b, i);
      }
    }
  }

  /** The three parallel vectors of a column have the working copy's length. */
  ghost predicate Shaped(c: IntCol) {
    |c.baseIdx| == |c.crk| && |c.runLengths| == |c.crk|
  }

  /** Every working-copy value is the stored value of the row it came from. */
  ghost predicate Aligned(c: IntCol) {
    && |c.baseIdx| == |c.crk|
    && forall i :: 0 <= i < |c.crk| ==> c.baseIdx[i] < |c.v| && c.crk[i] == c.v[c.baseIdx[i]]
  }

  /** `swap_range(l, a, b)`: exchanges `[a, a+l)` and `[b, b+l)` in the
      working copy, the base index and the run lengths, all in step.  The
      source hands the ranges to `ptr::swap_nonoverlapping`; when a query
      asks to exchange a range with itself (`a == b`) the model leaves the
      column as it is. */
  function SwapRange(c: IntCol, l: nat, a: nat, b: nat): (r: IntCol)
    requires Shaped(c) && a + l <= |c.crk| && b + l <= |c.crk| && Swappable(l, a, b)
    ensures Shaped(r) && |r.crk| == |c.crk|
    ensures r.v == c.v && r.crkIdx == c.crkIdx && r.ofs == c.ofs
    ensures forall i :: 0 <= i < |c.crk| ==>
              && r.crk[i] == c.crk[SwapSource(l, a, b, i)]
              && r.baseIdx[i] == c.baseIdx[SwapSource(l, a, b, i)]
              && r.runLengths[i] == c.runLengths[SwapSource(l, a, b, i)]
    ensures multiset(r.crk) == multiset(c.crk) && multiset(r.baseIdx) == multiset(c.baseIdx)
  {
    if a == b then c
    else
      SwapSeqAt(c.crk, l, a, b);
      SwapSeqMultiset(c.crk, l, a, b);
      SwapSeqAt(c.baseIdx, l, a, b);
      SwapSeqMultiset(c.baseIdx, l, a, b);
      SwapSeqAt(c.runLengths, l, a, b);
      c.(crk := SwapSeq(c.crk, l, a, b),
         baseIdx := SwapSeq(c.baseIdx, l, a, b),
         runLengths := SwapSeq(c.runLengths, l, a, b))
  }

  lemma SwapSeqInvolution<T>(s: seq<T>, l: nat, a: nat, b: nat)
    requires a + l <= |s| && b + l <= |s| && Disjoint(l, a, b)
    ensures SwapSeq(SwapSeq(s, l, a, b), l, a, b) == s
  {
    var m := SwapSeq(s, l, a, b);
    var r := SwapSeq(m, l, a, b);
    SwapSeqAt(s, l, a, b);
    SwapSeqAt(m, l, a, b);
    forall i | 0 <= i < |s| ensures r[i] == s[i] {
      var j := SwapSource(l, a, b, i);
      assert SwapSource(l, a, b, j) == i;
    }
  }

  /** Exchanging the same two ranges twice restores the column. */
  lemma SwapRangeInvolution(c: IntCol, l: nat, a: nat, b: nat)
    requires Shaped(c) && a + l <= |c.crk| && b + l <= |c.crk| && Swappable(l, a, b)
    ensures SwapRange(SwapRange(c, l, a, b), l, a, b) == c
  {
    if a == b {
      return;
    }
    SwapSeqInvolution(c.crk, l, a, b);
    SwapSeqInvolution(c.baseIdx, l, a, b);
    SwapSeqInvolution(c.runLengths, l, a, b);
  }

  /** A swap keeps every working-copy value next to the row it came from. */
  lemma SwapRangeAligned(c: IntCol, l: nat, a: nat, b: nat)
    requires Shaped(c) && Aligned(c) && a + l <= |c.crk| && b + l <= |c.crk| && Swappable(l, a, b)
    ensures Aligned(SwapRange(c, l, a, b))
  {
  }

  /** `Column::empty()`. */
  function Empty(): (r: IntCol)
    ensures |r.v| == 0 && |r.crk| == 0 && |r.baseIdx| == 0 && |r.ofs| == 0 && |r.runLengths| == 0
    ensures r.crkIdx == map[]
  {
    IntCol([], [], map[], [], [], [])
  }

  /** `at(idx)`: the stored value of row `idx`. */
  function At(c: IntCol, idx: nat): (r: int)
    requires idx < |c.v|
    ensures Aligned(c) ==> forall i :: 0 <= i < |c.crk| && c.baseIdx[i] == idx ==> c.crk[i] == r
  {
    c.v[idx]
  }

  /** `append(values)`: the batch is moved to the end of the stored column
      and the caller's vector is left empty. */
  function Append(c: IntCol, values: seq<int>): (r: (IntCol, seq<int>))
    ensures |r.0.v| == |c.v| + |values| && r.1 == []
    ensures forall i :: 0 <= i < |c.v| ==> At(r.0, i) == At(c, i)
    ensures forall k :: 0 <= k < |values| ==> At(r.0, |c.v| + k) == values[k]
    ensures r.0.crk == c.crk && r.0.crkIdx == c.crkIdx && r.0.baseIdx == c.baseIdx
    ensures r.0.ofs == c.ofs && r.0.runLengths == c.runLengths
  {
    (c.(v := c.v + values), [])
  }

  /** `rearrange(indices)`: the stored column becomes the rows listed in
      `indices`, in that order; all cracking state is dropped. */
  function Rearrange(c: IntCol, indices: seq<nat>): (r: IntCol)
    requires InRange(indices, |c.v|)
    ensures |r.v| == |indices|
    ensures forall k :: 0 <= k < |indices| ==> At(r, k) == At(c, indices[k])
    ensures r.crk == [] && r.crkIdx == map[] && r.baseIdx == [] && r.ofs == [] && r.runLengths == []
  {
    IntCol(Gather(c.v, indices), [], map[], [], [], [])
  }

  /** Appending a batch and then keeping the rows that were there before
      gives back the stored column. */
  lemma AppendRearrange(c: IntCol, values: seq<int>)
    ensures InRange(Iota(|c.v|), |Append(c, values).0.v|)
    ensures Rearrange(Append(c, values).0, Iota(|c.v|)).v == c.v
  {
    var w := Append(c, values).0;
    var r := Rearrange(w, Iota(|c.v|));
    assert forall k :: 0 <= k < |c.v| ==> r.v[k] == c.v[k] by {
      forall k | 0 <= k < |c.v| ensures r.v[k] == c.v[k] {
        assert At(r, k) == At(w, Iota(|c.v|)[k]);
      }
    }
  }
}
