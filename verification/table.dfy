/** The table wrapper around the cracked column (`UnderswapRLETable` in
    underswap_rle_compression.rs and `OverswapRLETable` in
    overswap_rle_compression.rs; apart from the query the two are line for
    line the same).  A table holds named stored columns of equal length
    `count` and one cracked column, a copy of one of them, that equality
    queries crack.  The `HashMap` of columns is a Dafny `map`; where the
    source iterates it, the iteration order is an explicit parameter. */
module Table {
  import opened Wrappers
  import opened Column
  import opened Rows
  import opened Runs
  import opened CrackerIndex
  import opened Cracked
  import opened Select

  datatype Table = Table(count: nat, crkCol: IntCol, columns: map<string, IntCol>)

  /** Every stored column has `count` rows. */
  ghost predicate ColumnsAligned(t: Table) {
    forall k :: k in t.columns ==> |t.columns[k].v| == t.count
  }

  /** A table ready for queries: its columns have `count` rows and its
      cracked column is a cracked copy of `count` rows. */
  ghost predicate Ready(t: Table) {
    && ColumnsAligned(t)
    && |t.crkCol.v| == t.count
    && Valid(t.crkCol)
  }

  /** `order` lists the keys of a map once each: an iteration order. */
  ghost predicate Enumerates<V>(order: seq<string>, m: map<string, V>) {
    && (forall i :: 0 <= i < |order| ==> order[i] in m)
    && (forall k :: k in m ==> k in order)
    && (forall i, j :: 0 <= i < j < |order| ==> order[i] != order[j])
  }

  /** `new()` (underswap lines 21-28): no rows, no columns, an empty
      cracked column. */
  function New(): (t: Table)
    ensures t.count == 0 && t.columns == map[]
    ensures Ready(t)
  {
    Table(0, Empty(), map[])
  }

  /** `new_columns` (underswap lines 61-65): each name gets an empty column,
      replacing any column of that name; the rest is untouched. */
  function NewColumns(t: Table, names: seq<string>): (r: Table)
    ensures r.count == t.count && r.crkCol == t.crkCol
    ensures r.columns.Keys == t.columns.Keys + set k | k in names
    ensures forall k :: k in names ==> r.columns[k] == Empty()
    ensures forall k :: k in t.columns && k !in names ==> r.columns[k] == t.columns[k]
    decreases |names|
  {
    if |names| == 0 then t
    else NewColumns(t.(columns := t.columns[names[0] := Empty()]), names[1..])
  }

  /** `set_crk_col` (underswap lines 67-77): the named column becomes the
      stored column and the working copy of the cracked column, with the
      identity base index and every slot a run of its own.  The pivot index
      and `ofs` are left as they were.  An unknown name panics. */
  function SetCrkCol(t: Table, name: string): (r: Result<Table, string>)
    ensures r.Failure? <==> name !in t.columns
    ensures r.Success? ==>
              && r.value.count == t.count && r.value.columns == t.columns
              && r.value.crkCol.v == t.columns[name].v && r.value.crkCol.crk == t.columns[name].v
              && r.value.crkCol.crkIdx == t.crkCol.crkIdx && r.value.crkCol.ofs == t.crkCol.ofs
              && |r.value.crkCol.baseIdx| == t.count
              && (forall i :: 0 <= i < t.count ==> r.value.crkCol.baseIdx[i] == i)
              && |r.value.crkCol.runLengths| == t.count
              && (forall i :: 0 <= i < t.count ==> r.value.crkCol.runLengths[i] == 1)
  {
    if name !in t.columns then Failure("set_crk_col: no such col")
    else
      var v := t.columns[name].v;
      Success(t.(crkCol := t.crkCol.(v := v, crk := v, baseIdx := Iota(t.count),
                                     runLengths := seq(t.count, _ => 1))))
  }

  /** Slots that are each a run of length one tile the working copy. */
  lemma {:induction false} OnesTiled(crk: seq<int>, rl: seq<nat>, lo: int, hi: int)
    requires |crk| == |rl| && 0 <= lo <= hi <= |crk|
    requires forall i :: lo <= i < hi ==> rl[i] == 1
    ensures Tiled(crk, rl, lo, hi)
    decreases hi - lo
  {
    if lo < hi {
      OnesTiled(crk, rl, lo + 1, hi);
      assert Block(crk, rl, lo, lo + 1);
    }
  }

  /** A freshly designated cracked column is cracked: when the column has
      `count` rows and the pivot index it inherits describes it (as the
      empty index of a new table does), the table is ready for queries. */
  lemma SetCrkColReady(t: Table, name: string)
    requires ColumnsAligned(t) && name in t.columns
    requires Splits(t.columns[name].v, t.crkCol.crkIdx)
    ensures SetCrkCol(t, name).Success? && Ready(SetCrkCol(t, name).value)
  {
    var c := SetCrkCol(t, name).value.crkCol;
    assert c.baseIdx == Iota(t.count);
    OnesTiled(c.crk, c.runLengths, 0, t.count);
  }

  /** The batch lengths of the columns listed in `order` agree with each
      other and, once one is known, with `n`. */
  ghost predicate Uniform(batches: map<string, seq<int>>, order: seq<string>, n: Option<nat>) {
    && (forall i :: 0 <= i < |order| ==> order[i] in batches)
    && (forall i :: 0 <= i < |order| ==> |batches[order[i]]| == |batches[order[0]]|)
    && (n.Some? && |order| > 0 ==> |batches[order[0]]| == n.value)
  }

  /** The loop of `insert` as intended: the columns in `order` each get their
      batch appended; a missing batch panics (`unwrap`), and so does a batch
      whose length differs from the batches before it.  `n` is the common
      length seen so far, `None` before the first column. */
  function AppendBatches(cols: map<string, IntCol>, batches: map<string, seq<int>>,
                         order: seq<string>, n: Option<nat>): (r: Result<(map<string, IntCol>, Option<nat>), string>)
    requires forall i :: 0 <= i < |order| ==> order[i] in cols
    requires forall i, j :: 0 <= i < j < |order| ==> order[i] != order[j]
    ensures r.Success? <==> Uniform(batches, order, n)
    ensures r.Success? ==> r.value.0.Keys == cols.Keys
    ensures r.Success? ==> forall k :: k in cols && k !in order ==> r.value.0[k] == cols[k]
    ensures r.Success? ==> forall i :: 0 <= i < |order| ==>
              r.value.0[order[i]].v == cols[order[i]].v + batches[order[i]]
    ensures r.Success? ==> r.value.1 == if |order| == 0 then n else Some(|batches[order[0]]|)
    decreases |order|
  {
    if |order| == 0 then Success((cols, n))
    else
      var key := order[0];
      if key !in batches then Failure("insert: no batch for a column")
      else
        var m := |batches[key]|;
        if n.None? || n.value == m then
          var rest := AppendBatches(cols[key := Append(cols[key], batches[key]).0], batches, order[1..], Some(m));
          assert forall i :: 1 <= i < |order| ==> order[i] == order[1..][i - 1];
          rest
        else Failure("insert: new_values has vectors of differing lengths")
  }

  /** `insert` as intended (underswap lines 80-93): with one batch per column,
      all of one length `n`, every column gets its batch appended and
      `count` grows by `n`; otherwise it panics. */
  function Insert(t: Table, batches: map<string, seq<int>>, order: seq<string>): (r: Result<Table, string>)
    requires Enumerates(order, t.columns)
    ensures r.Success? <==>
              && (forall k :: k in t.columns ==> k in batches)
              && (forall k1, k2 :: k1 in t.columns && k2 in t.columns ==> |batches[k1]| == |batches[k2]|)
    ensures r.Success? ==>
              && r.value.crkCol == t.crkCol && r.value.columns.Keys == t.columns.Keys
              && (forall k :: k in t.columns ==> r.value.columns[k].v == t.columns[k].v + batches[k])
              && (forall k :: k in t.columns ==> r.value.count == t.count + |batches[k]|)
              && (t.columns == map[] ==> r.value.count == t.count)
  {
    match AppendBatches(t.columns, batches, order, None)
    case Failure(e) => Failure(e)
    case Success((cols, n)) => Success(t.(columns := cols, count := t.count + n.GetOr(0)))
  }

  /** Inserting a uniform batch keeps every column at `count` rows. */
  lemma InsertAligned(t: Table, batches: map<string, seq<int>>, order: seq<string>)
    requires Enumerates(order, t.columns) && ColumnsAligned(t)
    ensures Insert(t, batches, order).Success? ==> ColumnsAligned(Insert(t, batches, order).value)
  {
  }

  /** The loop of `insert` as written (underswap lines 81-92): the common
      length is kept in a `usize` that starts at 0 and 0 doubles as "no
      column seen yet", so any batch is accepted after an empty one. */
  function AppendBatchesAsWritten(cols: map<string, IntCol>, batches: map<string, seq<int>>,
                                  order: seq<string>, n: nat): (r: Result<(map<string, IntCol>, nat), string>)
    requires forall i :: 0 <= i < |order| ==> order[i] in cols
    ensures Uniform(batches, order, if n == 0 then None else Some(n)) ==> r.Success?
    decreases |order|
  {
    if |order| == 0 then Success((cols, n))
    else
      var key := order[0];
      if key !in batches then Failure("insert: no batch for a column")
      else
        var m := |batches[key]|;
        if n == 0 || n == m then
          AppendBatchesAsWritten(cols[key := Append(cols[key], batches[key]).0], batches, order[1..], m)
        else Failure("insert: new_values has vectors of differing lengths")
  }

  /** `insert` as written (underswap lines 80-93, overswap lines 85-98). */
  function InsertAsWritten(t: Table, batches: map<string, seq<int>>, order: seq<string>): (r: Result<Table, string>)
    requires Enumerates(order, t.columns)
    ensures Insert(t, batches, order).Success? ==> r.Success?
  {
    match AppendBatchesAsWritten(t.columns, batches, order, 0)
    case Failure(e) => Failure(e)
    case Success((cols, n)) => Success(t.(columns := cols, count := t.count + n))
  }

  /** Wherever the intended loop succeeds, the loop as written computes the
      same columns and the same common length (0 standing for `None`). */
  lemma {:induction false} AppendBatchesAgree(cols: map<string, IntCol>, batches: map<string, seq<int>>,
                                              order: seq<string>, n: Option<nat>)
    requires forall i :: 0 <= i < |order| ==> order[i] in cols
    requires forall i, j :: 0 <= i < j < |order| ==> order[i] != order[j]
    requires AppendBatches(cols, batches, order, n).Success?
    ensures AppendBatchesAsWritten(cols, batches, order, n.GetOr(0))
            == Success((AppendBatches(cols, batches, order, n).value.0,
                        AppendBatches(cols, batches, order, n).value.1.GetOr(0)))
    decreases |order|
  {
    if |order| > 0 {
      var key := order[0];
      var m := |batches[key]|;
      var cols' := cols[key := Append(cols[key], batches[key]).0];
      assert forall i :: 1 <= i < |order| ==> order[i] == order[1..][i - 1];
      AppendBatchesAgree(cols', batches, order[1..], Some(m));
    }
  }

  /** Wherever the intended `insert` succeeds, the source's `insert` gives
      the same table. */
  lemma InsertAsWrittenAgrees(t: Table, batches: map<string, seq<int>>, order: seq<string>)
    requires Enumerates(order, t.columns)
    ensures Insert(t, batches, order).Success? ==> InsertAsWritten(t, batches, order) == Insert(t, batches, order)
  {
    if Insert(t, batches, order).Success? {
      var r := AppendBatches(t.columns, batches, order, None);
      AppendBatchesAgree(t.columns, batches, order, None);
      var w := InsertAsWritten(t, batches, order);
      assert w.value.columns == r.value.0 && w.value.count == t.count + r.value.1.GetOr(0);
      assert w.value == Insert(t, batches, order).value;
    }
  }

  /** The source's `insert` accepts batches of different lengths when the
      first column it visits gets an empty batch, and leaves the columns of
      the table with different numbers of rows. */
  lemma InsertAsWrittenAcceptsMismatch()
    ensures var t := NewColumns(New(), ["src", "dst"]);
            var batches := map["src" := [], "dst" := [1, 2]];
            && Enumerates(["src", "dst"], t.columns)
            && InsertAsWritten(t, batches, ["src", "dst"]).Success?
            && !ColumnsAligned(InsertAsWritten(t, batches, ["src", "dst"]).value)
            && Insert(t, batches, ["src", "dst"]).Failure?
  {
    var t := NewColumns(New(), ["src", "dst"]);
    var batches := map["src" := [], "dst" := [1, 2]];
    assert t.columns == map["src" := Empty(), "dst" := Empty()];
    assert |batches["src"]| != |batches["dst"]|;
    var r := InsertAsWritten(t, batches, ["src", "dst"]).value;
    assert r.count == 2 && |r.columns["src"].v| == 0;
  }

  /** `get_col` (underswap lines 95-97): the named column; an unknown name
      panics (`unwrap`). */
  function GetCol(t: Table, name: string): (r: Result<IntCol, string>)
    ensures r.Failure? <==> name !in t.columns
    ensures r.Success? ==> r.value == t.columns[name]
  {
    if name in t.columns then Success(t.columns[name]) else Failure("get_col: no such col")
  }

  /** Every listed row addresses every column, and the stored values of the
      cracked column (and its working copy, when there is one). */
  ghost predicate RowsIn(t: Table, indices: seq<nat>) {
    && StoredRowsIn(t, indices)
    && (|t.crkCol.crk| > 0 ==> InRange(indices, |t.crkCol.crk|))
  }

  /** The listed rows exist in every stored column, the cracked one too. */
  ghost predicate StoredRowsIn(t: Table, indices: seq<nat>) {
    && (forall k :: k in t.columns ==> InRange(indices, |t.columns[k].v|))
    && InRange(indices, |t.crkCol.v|)
  }

  /** `get_indices` (underswap lines 99-131): a new table of the listed rows,
      in list order.  Its cracked column keeps only the stored values and,
      when there is one, the working copy gathered at the same positions,
      with an empty pivot index and no base index or run lengths. */
  function GetIndices(t: Table, indices: seq<nat>): (r: Table)
    requires RowsIn(t, indices)
    ensures r.count == |indices| && r.columns.Keys == t.columns.Keys
    ensures forall k, j :: k in t.columns && 0 <= j < |indices| ==>
              |r.columns[k].v| == |indices| && At(r.columns[k], j) == At(t.columns[k], indices[j])
    ensures forall k :: k in t.columns ==> r.columns[k].crk == [] && r.columns[k].baseIdx == []
    ensures |r.crkCol.v| == |indices|
    ensures forall j :: 0 <= j < |indices| ==> r.crkCol.v[j] == t.crkCol.v[indices[j]]
    ensures |t.crkCol.crk| > 0 ==>
              && |r.crkCol.crk| == |indices|
              && forall j :: 0 <= j < |indices| ==> r.crkCol.crk[j] == t.crkCol.crk[indices[j]]
    ensures |t.crkCol.crk| == 0 ==> r.crkCol.crk == []
    ensures r.crkCol.crkIdx == map[] && r.crkCol.baseIdx == [] && r.crkCol.runLengths == []
  {
    var selection := map k | k in t.columns :: Rearrange(t.columns[k], indices);
    var crk := if |t.crkCol.crk| > 0 then Gather(t.crkCol.crk, indices) else [];
    Table(|indices|, Empty().(v := Gather(t.crkCol.v, indices), crk := crk), selection)
  }

  /** `get_values` (underswap lines 133-139): the values of column `col` at
      the listed rows, in list order.  The column is looked up once per row,
      so an unknown name panics only when a row is listed. */
  function GetValues(t: Table, indices: seq<nat>, col: string): (r: Result<seq<int>, string>)
    requires col in t.columns ==> InRange(indices, |t.columns[col].v|)
    ensures r.Failure? <==> col !in t.columns && |indices| > 0
    ensures r.Success? ==> |r.value| == |indices|
    ensures r.Success? ==> forall j :: 0 <= j < |indices| ==> r.value[j] == t.columns[col].v[indices[j]]
  {
    if |indices| == 0 then Success([])
    else if col !in t.columns then Failure("get_values: no such col")
    else Success(Gather(t.columns[col].v, indices))
  }

  /** The values `get_values` reads are the stored values of the table
      `get_indices` builds from the same rows. */
  lemma GetValuesOfIndices(t: Table, indices: seq<nat>, col: string)
    requires RowsIn(t, indices) && col in t.columns
    ensures GetValues(t, indices, col) == Success(GetIndices(t, indices).columns[col].v)
  {
  }

  /** `rearrange` (underswap lines 141-146): every column, and the cracked
      column, is replaced by the listed rows, in list order; all cracking
      state is dropped.  `count` is not updated. */
  function RearrangeTable(t: Table, indices: seq<nat>): (r: Table)
    requires StoredRowsIn(t, indices)
    ensures r.count == t.count && r.columns.Keys == t.columns.Keys
    ensures forall k, j :: k in t.columns && 0 <= j < |indices| ==>
              |r.columns[k].v| == |indices| && At(r.columns[k], j) == At(t.columns[k], indices[j])
    ensures |r.crkCol.v| == |indices|
    ensures forall j :: 0 <= j < |indices| ==> At(r.crkCol, j) == At(t.crkCol, indices[j])
    ensures r.crkCol.crk == [] && r.crkCol.crkIdx == map[] && r.crkCol.runLengths == []
  {
    t.(columns := map k | k in t.columns :: Rearrange(t.columns[k], indices),
       crkCol := Rearrange(t.crkCol, indices))
  }

  /** Rearranging a table in place leaves the same stored columns as
      selecting the rows into a new table. */
  lemma RearrangeIsGetIndices(t: Table, indices: seq<nat>)
    requires RowsIn(t, indices)
    ensures RearrangeTable(t, indices).columns == GetIndices(t, indices).columns
    ensures RearrangeTable(t, indices).crkCol.v == GetIndices(t, indices).crkCol.v
  {
  }

  /** `count_col_eq` (underswap lines 340-343): the number of rows of column
      `col` holding `eq`; an unknown name panics. */
  function CountColEq(t: Table, col: string, eq: int): (r: Result<int, string>)
    ensures r.Failure? <==> col !in t.columns
  {
    match GetCol(t, col)
    case Failure(e) => Failure(e)
    case Success(c) => Success(CountEq(c.v, eq) as int)
  }

  /** `count_col_eq` counts the rows an equality selection on the same
      column returns. */
  lemma CountColEqMatches(t: Table, col: string, eq: int)
    requires col in t.columns
    ensures CountColEq(t, col, eq) == Success(|Matching(t.columns[col].v, eq)|)
  {
    MatchingCount(t.columns[col].v, eq);
  }

  /** `cracker_select_specific(x, col)` of the underswap table (`strategy ==
      Under`, underswap lines 149-337) or the overswap table (`strategy ==
      Over`, overswap lines 153-426): the values of column `col` at exactly
      the rows whose cracked-column value is `x`, in some order.  The table
      stays ready for queries and its stored values do not change; an
      unknown `col` panics only when some row matches. */
  method CrackerSelectSpecific(strategy: Strategy, t: Table, x: int, col: string)
    returns (t': Table, r: Result<seq<int>, string>)
    requires Ready(t)
    ensures Ready(t') && t'.count == t.count && t'.columns == t.columns && t'.crkCol.v == t.crkCol.v
    ensures r.Failure? <==> col !in t.columns && |Matching(t.crkCol.v, x)| > 0
    ensures r.Success? && col in t.columns ==>
              multiset(r.value) == multiset(Gather(t.columns[col].v, Matching(t.crkCol.v, x)))
    ensures r.Success? && col !in t.columns ==> r.value == []
  {
    var c', rows := Query(strategy, t.crkCol, x);
    t' := t.(crkCol := c');
    PermutationInRange(rows, Matching(t.crkCol.v, x), t.count);
    r := GetValues(t', rows, col);
    if r.Success? && col in t.columns {
      assert r.value == Gather(t.columns[col].v, rows);
      GatherPermutation(t.columns[col].v, rows, Matching(t.crkCol.v, x));
    }
  }

  /** The underswap and the overswap table answer every query alike, up to
      the order of the values. */
  method StrategiesAgree(t: Table, x: int, col: string)
    returns (tu: Table, ru: Result<seq<int>, string>, to: Table, ro: Result<seq<int>, string>)
    requires Ready(t)
    ensures ru.Success? <==> ro.Success?
    ensures ru.Success? ==> multiset(ru.value) == multiset(ro.value)
    ensures tu.columns == to.columns && tu.crkCol.v == to.crkCol.v
  {
    tu, ru := CrackerSelectSpecific(Under, t, x, col);
    to, ro := CrackerSelectSpecific(Over, t, x, col);
  }

  /** `from_adjacency_vectors` (underswap lines 346-352): a table with the
      columns "src" and "dst" holding the two vectors, cracked on `crk`.
      `order` is the order in which `insert` visits the two columns. */
  function FromAdjacencyVectors(src: seq<int>, dst: seq<int>, crk: string, order: seq<string>): (r: Result<Table, string>)
    requires order == ["src", "dst"] || order == ["dst", "src"]
    ensures r.Success? <==> |src| == |dst| && (crk == "src" || crk == "dst")
    ensures r.Success? ==>
              && r.value.count == |src| && r.value.columns.Keys == {"src", "dst"}
              && r.value.columns["src"].v == src && r.value.columns["dst"].v == dst
              && r.value.crkCol.v == (if crk == "src" then src else dst)
  {
    var t := NewColumns(New(), ["src", "dst"]);
    AdjacencyInsert(src, dst, order);
    match Insert(t, map["src" := src, "dst" := dst], order)
    case Failure(e) => Failure(e)
    case Success(t1) => SetCrkCol(t1, crk)
  }

  /** The insert step of `from_adjacency_vectors`. */
  lemma AdjacencyInsert(src: seq<int>, dst: seq<int>, order: seq<string>)
    requires order == ["src", "dst"] || order == ["dst", "src"]
    ensures Enumerates(order, NewColumns(New(), ["src", "dst"]).columns)
    ensures var r := Insert(NewColumns(New(), ["src", "dst"]), map["src" := src, "dst" := dst], order);
            && (r.Success? <==> |src| == |dst|)
            && (r.Success? ==>
                  && r.value.count == |src| && r.value.columns.Keys == {"src", "dst"}
                  && r.value.columns["src"].v == src && r.value.columns["dst"].v == dst
                  && ColumnsAligned(r.value) && r.value.crkCol == Empty())
  {
    var t := NewColumns(New(), ["src", "dst"]);
    assert t.columns == map["src" := Empty(), "dst" := Empty()];
  }

  /** A table built from adjacency vectors is ready for queries. */
  lemma FromAdjacencyVectorsReady(src: seq<int>, dst: seq<int>, crk: string, order: seq<string>)
    requires order == ["src", "dst"] || order == ["dst", "src"]
    requires FromAdjacencyVectors(src, dst, crk, order).Success?
    ensures Ready(FromAdjacencyVectors(src, dst, crk, order).value)
  {
    var t := NewColumns(New(), ["src", "dst"]);
    AdjacencyInsert(src, dst, order);
    var t1 := Insert(t, map["src" := src, "dst" := dst], order).value;
    SetCrkColReady(t1, crk);
  }
}
