/** The pivot index of a cracked column (`AVLCrackerIndex`).  Only its
    observable behaviour is modelled: a finite map from pivot values to
    positions of the working copy, queried for the nearest pivot at or
    below / at or above a value.  The AVL balancing is not modelled. */
module CrackerIndex {
  import opened Wrappers

  /** Pivot value |-> position p such that every working-copy value before p
      is below the pivot and every value from p on is at or above it. */
  type Index = map<int, nat>

  /** The meaning of an index for a working copy `crk`. */
  ghost predicate Splits(crk: seq<int>, idx: Index) {
    forall k :: k in idx ==>
      && idx[k] <= |crk|
      && (forall i :: 0 <= i < idx[k] ==> crk[i] < k)
      && (forall i :: idx[k] <= i < |crk| ==> crk[i] >= k)
  }

  /** `m` is the greatest element of `s`. */
  predicate IsMax(s: set<int>, m: int) {
    m in s && forall y :: y in s ==> y <= m
  }

  /** `m` is the least element of `s`. */
  predicate IsMin(s: set<int>, m: int) {
    m in s && forall y :: y in s ==> m <= y
  }

  lemma {:induction false} MaxExists(s: set<int>)
    requires s != {}
    ensures exists m :: IsMax(s, m)
    decreases |s|
  {
    assert exists e :: e in s by {
      if forall e :: e !in s { assert false; }
    }
    var a :| a in s;
    if s == {a} {
      assert IsMax(s, a);
    } else {
      MaxExists(s - {a});
      var m :| IsMax(s - {a}, m);
      var b := if a <= m then m else a;
      forall y | y in s ensures y <= b {
        if y != a { assert y in s - {a}; }
      }
      assert IsMax(s, b);
    }
  }

  lemma {:induction false} MinExists(s: set<int>)
    requires s != {}
    ensures exists m :: IsMin(s, m)
    decreases |s|
  {
    assert exists e :: e in s by {
      if forall e :: e !in s { assert false; }
    }
    var a :| a in s;
    if s == {a} {
      assert IsMin(s, a);
    } else {
      MinExists(s - {a});
      var m :| IsMin(s - {a}, m);
      var b := if m <= a then m else a;
      forall y | y in s ensures b <= y {
        if y != a { assert y in s - {a}; }
      }
      assert IsMin(s, b);
    }
  }

  /** The greatest pivot at or below `k`, if any. */
  function GreatestAtMost(idx: Index, k: int): (r: Option<int>)
    ensures r.None? <==> forall q :: q in idx ==> q > k
    ensures r.Some? ==> r.value in idx && r.value <= k
    ensures r.Some? ==> forall q :: q in idx && q <= k ==> q <= r.value
  {
    var s := set q | q in idx && q <= k;
    if s == {} then
      assert forall q :: q in idx ==> q > k by {
        forall q | q in idx ensures q > k {
          assert q !in s;
        }
      }
      None
    else
      MaxExists(s);
      var m :| IsMax(s, m);
      assert forall q :: q in idx && q <= k ==> q in s;
      Some(m)
  }

  /** The smallest pivot at or above `k`, if any. */
  function SmallestAtLeast(idx: Index, k: int): (r: Option<int>)
    ensures r.None? <==> forall q :: q in idx ==> q < k
    ensures r.Some? ==> r.value in idx && r.value >= k
    ensures r.Some? ==> forall q :: q in idx && q >= k ==> r.value <= q
  {
    var s := set q | q in idx && q >= k;
    if s == {} then
      assert forall q :: q in idx ==> q < k by {
        forall q | q in idx ensures q < k {
          assert q !in s;
        }
      }
      None
    else
      MinExists(s);
      var m :| IsMin(s, m);
      assert forall q :: q in idx && q >= k ==> q in s;
      Some(m)
  }

  /** `lower_bound(k)`: the position stored for the greatest pivot <= k. */
  function LowerBound(idx: Index, k: int): (r: Option<nat>)
    ensures r.None? <==> forall q :: q in idx ==> q > k
    ensures r.Some? ==> exists q :: q in idx && q <= k && r.value == idx[q]
                                    && forall q' :: q' in idx && q' <= k ==> q' <= q
  {
    match GreatestAtMost(idx, k)
    case None => None
    case Some(q) => Some(idx[q])
  }

  /** `upper_bound(k)`: the position stored for the smallest pivot >= k. */
  function UpperBound(idx: Index, k: int): (r: Option<nat>)
    ensures r.None? <==> forall q :: q in idx ==> q < k
    ensures r.Some? ==> exists q :: q in idx && q >= k && r.value == idx[q]
                                    && forall q' :: q' in idx && q' >= k ==> q <= q'
  {
    match SmallestAtLeast(idx, k)
    case None => None
    case Some(q) => Some(idx[q])
  }

  /** `insert(k, p)`: records pivot `k` at position `p`, overwriting any
      earlier position for `k`. */
  function Insert(idx: Index, k: int, p: nat): (r: Index)
    ensures r.Keys == idx.Keys + {k}
    ensures r[k] == p
    ensures forall q :: q in idx && q != k ==> r[q] == idx[q]
  {
    idx[k := p]
  }

  /** Positions recorded for larger pivots are never smaller. */
  lemma PositionsMonotone(crk: seq<int>, idx: Index, k1: int, k2: int)
    requires Splits(crk, idx)
    requires k1 in idx && k2 in idx && k1 <= k2
    ensures idx[k1] <= idx[k2]
  {
    if idx[k2] < |crk| {
      var w := crk[idx[k2]];
    }
  }

  /** The two seeds of a query for `x` bracket every occurrence of `x`, lie
      at value boundaries of the working copy, and no other pivot points
      strictly between them. */
  lemma SeedBounds(crk: seq<int>, idx: Index, x: int)
    requires Splits(crk, idx)
    ensures var lo := LowerBound(idx, x).GetOr(0);
            var up := UpperBound(idx, x + 1).GetOr(|crk|);
            && lo <= up <= |crk|
            && (forall i :: 0 <= i < lo ==> crk[i] < x)
            && (forall i :: up <= i < |crk| ==> crk[i] > x)
            && (0 < lo < |crk| ==> crk[lo - 1] < crk[lo])
            && (0 < up < |crk| ==> crk[up - 1] < crk[up])
            && (forall k :: k in idx ==> idx[k] <= lo || up <= idx[k])
  {
    var lo := LowerBound(idx, x).GetOr(0);
    var up := UpperBound(idx, x + 1).GetOr(|crk|);
    var gl := GreatestAtMost(idx, x);
    var gu := SmallestAtLeast(idx, x + 1);
    if gl.Some? && gu.Some? {
      PositionsMonotone(crk, idx, gl.value, gu.value);
    }
    forall k | k in idx
      ensures idx[k] <= lo || up <= idx[k]
    {
      if k <= x {
        PositionsMonotone(crk, idx, k, GreatestAtMost(idx, x).value);
      } else {
        PositionsMonotone(crk, idx, SmallestAtLeast(idx, x + 1).value, k);
      }
    }
  }

  /** Recording a pivot at a value boundary keeps the index valid. */
  lemma InsertSplits(crk: seq<int>, idx: Index, k: int, p: nat)
    requires Splits(crk, idx) && p <= |crk|
    requires forall i :: 0 <= i < p ==> crk[i] < k
    requires forall i :: p <= i < |crk| ==> crk[i] >= k
    ensures Splits(crk, Insert(idx, k, p))
  {
  }
}
