/** Row positions: which rows of a stored column hold a given value, and
    the values of other columns at those rows. */
module Rows {

  /** The rows `0, 1, ..., n-1`. */
  function Iota(n: nat): (r: seq<nat>)
    ensures |r| == n
    ensures forall i :: 0 <= i < n ==> r[i] == i
  {
    if n == 0 then [] else Iota(n - 1) + [n - 1]
  }

  /** All listed rows address `v`. */
  ghost predicate InRange(rows: seq<nat>, n: int) {
    forall k :: 0 <= k < |rows| ==> rows[k] < n
  }

  /** `values` gathered at the positions listed in `positions`. */
  function Gather(values: seq<int>, positions: seq<nat>): (r: seq<int>)
    requires InRange(positions, |values|)
    ensures |r| == |positions|
    ensures forall k :: 0 <= k < |positions| ==> r[k] == values[positions[k]]
  {
    if |positions| == 0 then []
    else [values[positions[0]]] + Gather(values, positions[1..])
  }

  /** The listed rows whose stored value is `x`, in list order. */
  function RowsWhere(rows: seq<nat>, v: seq<int>, x: int): (r: seq<nat>)
    requires InRange(rows, |v|)
    ensures InRange(r, |v|)
    ensures forall k :: 0 <= k < |r| ==> v[r[k]] == x
  {
    if |rows| == 0 then []
    else (if v[rows[0]] == x then [rows[0]] else []) + RowsWhere(rows[1..], v, x)
  }

  /** The rows of `v` holding `x`, ascending. */
  function Matching(v: seq<int>, x: int): (r: seq<nat>)
    ensures InRange(r, |v|)
  {
    RowsWhere(Iota(|v|), v, x)
  }

  /** `count_col_eq`: how many stored values equal `x`. */
  function CountEq(v: seq<int>, x: int): nat {
    if |v| == 0 then 0
    else CountEq(v[..|v| - 1], x) + (if v[|v| - 1] == x then 1 else 0)
  }

  lemma {:induction false} RowsWhereConcat(a: seq<nat>, b: seq<nat>, v: seq<int>, x: int)
    requires InRange(a, |v|) && InRange(b, |v|)
    ensures InRange(a + b, |v|)
    ensures RowsWhere(a + b, v, x) == RowsWhere(a, v, x) + RowsWhere(b, v, x)
    decreases |a|
  {
    if |a| == 0 {
      assert a + b == b;
    } else {
      RowsWhereConcat(a[1..], b, v, x);
      assert (a + b)[1..] == a[1..] + b;
    }
  }

  /** How often a row occurs among the selected rows. */
  lemma {:induction false} RowsWhereCount(rows: seq<nat>, v: seq<int>, x: int, e: nat)
    requires InRange(rows, |v|)
    ensures multiset(RowsWhere(rows, v, x))[e] ==
              if e < |v| && v[e] == x then multiset(rows)[e] else 0
    decreases |rows|
  {
    if |rows| > 0 {
      RowsWhereCount(rows[1..], v, x, e);
      assert rows == [rows[0]] + rows[1..];
    }
  }

  /** Selecting from two permutations of the same rows yields permutations. */
  lemma RowsWherePermutation(a: seq<nat>, b: seq<nat>, v: seq<int>, x: int)
    requires InRange(a, |v|) && InRange(b, |v|) && multiset(a) == multiset(b)
    ensures multiset(RowsWhere(a, v, x)) == multiset(RowsWhere(b, v, x))
  {
    forall e: nat
      ensures multiset(RowsWhere(a, v, x))[e] == multiset(RowsWhere(b, v, x))[e]
    {
      RowsWhereCount(a, v, x, e);
      RowsWhereCount(b, v, x, e);
    }
  }

  lemma {:induction false} RowsWhereNone(rows: seq<nat>, v: seq<int>, x: int)
    requires InRange(rows, |v|)
    requires forall k :: 0 <= k < |rows| ==> v[rows[k]] != x
    ensures RowsWhere(rows, v, x) == []
    decreases |rows|
  {
    if |rows| > 0 {
      RowsWhereNone(rows[1..], v, x);
    }
  }

  /** When exactly the listed rows at list positions `[lo, hi]` hold `x`,
      those are the rows selected. */
  lemma {:induction false} RowsWhereBand(rows: seq<nat>, v: seq<int>, x: int, lo: int, hi: int)
    requires InRange(rows, |v|) && 0 <= lo <= hi + 1 <= |rows|
    requires forall k :: 0 <= k < lo ==> v[rows[k]] != x
    requires forall k :: lo <= k <= hi ==> v[rows[k]] == x
    requires forall k :: hi < k < |rows| ==> v[rows[k]] != x
    ensures RowsWhere(rows, v, x) == rows[lo..hi + 1]
    decreases |rows|
  {
    if hi < lo {
      RowsWhereNone(rows, v, x);
    } else {
      var tail := rows[1..];
      assert forall k :: 0 <= k < |tail| ==> tail[k] == rows[k + 1];
      assert RowsWhere(rows, v, x) == (if 0 < lo then [] else [rows[0]]) + RowsWhere(tail, v, x);
      if 0 < lo {
        RowsWhereBand(tail, v, x, lo - 1, hi - 1);
        assert tail[lo - 1..hi] == rows[lo..hi + 1];
      } else {
        RowsWhereBand(tail, v, x, 0, hi - 1);
        assert rows[..hi + 1] == [rows[0]] + tail[..hi];
      }
    }
  }

  lemma {:induction false} RowsWherePrefix(rows: seq<nat>, v: seq<int>, w: seq<int>, x: int)
    requires InRange(rows, |v|) && |v| <= |w| && v == w[..|v|]
    ensures InRange(rows, |w|)
    ensures RowsWhere(rows, v, x) == RowsWhere(rows, w, x)
    decreases |rows|
  {
    if |rows| > 0 {
      RowsWherePrefix(rows[1..], v, w, x);
    }
  }

  /** Every row below `n` occurs in `Iota(n)` exactly once. */
  lemma {:induction false} IotaCount(n: nat, e: nat)
    ensures multiset(Iota(n))[e] == if e < n then 1 else 0
    decreases n
  {
    if n > 0 {
      IotaCount(n - 1, e);
      assert multiset(Iota(n)) == multiset(Iota(n - 1)) + multiset{(n - 1) as nat};
    }
  }

  /** `Matching(v, x)` lists every row whose stored value is `x` exactly
      once, and no other row. */
  lemma MatchingRows(v: seq<int>, x: int, e: nat)
    ensures multiset(Matching(v, x))[e] == if e < |v| && v[e] == x then 1 else 0
  {
    RowsWhereCount(Iota(|v|), v, x, e);
    IotaCount(|v|, e);
  }

  /** `count_col_eq` counts exactly the rows `Matching` lists. */
  lemma {:induction false} MatchingCount(v: seq<int>, x: int)
    ensures |Matching(v, x)| == CountEq(v, x)
    decreases |v|
  {
    if |v| > 0 {
      var n := |v|;
      var p := v[..n - 1];
      MatchingCount(p, x);
      assert Iota(n) == Iota(n - 1) + [n - 1];
      RowsWhereConcat(Iota(n - 1), [n - 1], v, x);
      RowsWherePrefix(Iota(n - 1), p, v, x);
      assert RowsWhere([n - 1], v, x) == (if v[n - 1] == x then [n - 1] else []);
    }
  }

  /** A permutation of rows that address `v` addresses `v` too, and has
      as many rows. */
  lemma PermutationInRange(rows: seq<nat>, other: seq<nat>, n: int)
    requires multiset(rows) == multiset(other) && InRange(other, n)
    ensures InRange(rows, n) && |rows| == |other|
  {
    assert |rows| == |multiset(rows)| == |multiset(other)| == |other|;
    forall k | 0 <= k < |rows|
      ensures rows[k] < n
    {
      assert rows[k] in multiset(other);
    }
  }

  lemma GatherConcat(values: seq<int>, a: seq<nat>, b: seq<nat>)
    requires InRange(a, |values|) && InRange(b, |values|)
    ensures InRange(a + b, |values|)
    ensures Gather(values, a + b) == Gather(values, a) + Gather(values, b)
  {
    assert InRange(a + b, |values|) by {
      forall k | 0 <= k < |a + b| ensures (a + b)[k] < |values| {
        if k >= |a| { assert (a + b)[k] == b[k - |a|]; }
      }
    }
  }

  lemma IndexOf(b: seq<nat>, e: nat) returns (j: int)
    requires e in multiset(b)
    ensures 0 <= j < |b| && b[j] == e
  {
    assert e in b;
    j :| 0 <= j < |b| && b[j] == e;
  }

  lemma GatherSplice(values: seq<int>, b: seq<nat>, j: int)
    requires InRange(b, |values|) && 0 <= j < |b|
    ensures InRange(b[..j] + b[j + 1..], |values|)
    ensures multiset(Gather(values, b)) ==
              multiset(Gather(values, b[..j] + b[j + 1..])) + multiset{values[b[j]]}
  {
    var b1, b2 := b[..j], b[j + 1..];
    var g := Gather(values, b);
    assert Gather(values, b1) == g[..j];
    assert Gather(values, b2) == g[j + 1..];
    GatherConcat(values, b1, b2);
    SplitAt(g, j);
  }

  lemma SplitAt<T>(s: seq<T>, j: int)
    requires 0 <= j < |s|
    ensures multiset(s) == multiset(s[..j] + s[j + 1..]) + multiset{s[j]}
    ensures multiset(s[..j] + s[j + 1..]) == multiset(s) - multiset{s[j]}
  {
    assert s == s[..j] + [s[j]] + s[j + 1..];
  }

  /** Gathering at two permutations of the same positions yields permutations. */
  lemma {:induction false} GatherPermutation(values: seq<int>, a: seq<nat>, b: seq<nat>)
    requires InRange(a, |values|) && InRange(b, |values|) && multiset(a) == multiset(b)
    ensures multiset(Gather(values, a)) == multiset(Gather(values, b))
    decreases |a|
  {
    if |a| == 0 {
      assert |b| == |multiset(b)| == 0;
    } else {
      var e := a[0];
      var j := IndexOf(b, e) by {
        assert a == [e] + a[1..];
      }
      var a', b' := a[1..], b[..j] + b[j + 1..];
      assert a[..0] + a[1..] == a';
      SplitAt(a, 0);
      SplitAt(b, j);
      GatherSplice(values, b, j);
      GatherSplice(values, a, 0);
      GatherPermutation(values, a', b');
    }
  }
}
