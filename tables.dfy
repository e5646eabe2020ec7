/**
 * The slice of pandas and AnnData the scripts use: an obs table (a data
 * frame whose columns carry a name, whether their dtype is categorical, and
 * the number of declared categories), `drop(columns=...)`,
 * `drop_duplicates()`, `reset_index()`, `df[name] = scalar` and `pd.concat`.
 */
module Tables {
  import opened Wrappers
  import opened Seqs

  /** One cell of a table. */
  datatype Cell = Text(s: string) | Number(n: int) | Flag(b: bool) | Missing

  /**
   * A column: its name, whether its dtype is categorical, how many categories
   * its dtype declares (`len(col.cat.categories)`, 0 when not categorical),
   * and its cells.
   */
  datatype Column = Column(name: string, isCategorical: bool, nCategories: nat, values: seq<Cell>)

  /** A data frame: the row labels (its index) and the columns in order. */
  datatype Table = Table(index: seq<Cell>, columns: seq<Column>)
  {
    /** Every column holds one cell per row label. */
    predicate WellFormed()
    {
      forall j :: 0 <= j < |columns| ==> |columns[j].values| == |index|
    }

    function Height(): nat
    {
      |index|
    }
  }

  /** The tables pandas can build: rectangular ones. */
  type Frame = t: Table | t.WellFormed() witness Table([], [])

  /** An AnnData object, reduced to the part the scripts touch: its `obs` table. */
  class AnnData {
    var obs: Frame

    constructor (obs: Frame)
      ensures this.obs == obs
    {
      this.obs := obs;
    }
  }

  /** The column names, in order (`df.columns`). */
  function Names(cols: seq<Column>): (ns: seq<string>)
    ensures |ns| == |cols| && forall j :: 0 <= j < |cols| ==> ns[j] == cols[j].name
  {
    seq(|cols|, j requires 0 <= j < |cols| => cols[j].name)
  }

  /** Row `i` as the sequence of its cells, one per column. */
  function Row(t: Frame, i: nat): (r: seq<Cell>)
    requires i < t.Height()
    ensures |r| == |t.columns|
  {
    seq(|t.columns|, j requires 0 <= j < |t.columns| => t.columns[j].values[i])
  }

  /** All rows in order; `drop_duplicates` compares these. */
  function Rows(t: Frame): (rs: seq<seq<Cell>>)
    ensures |rs| == t.Height()
  {
    seq(t.Height(), i requires 0 <= i < t.Height() => Row(t, i))
  }

  /** `n` copies of a cell. */
  function Repeat(c: Cell, n: nat): (r: seq<Cell>)
    ensures |r| == n && forall i :: 0 <= i < n ==> r[i] == c
  {
    seq(n, i => c)
  }

  /** The default integer index `0, 1, ..., n - 1` (a `RangeIndex`). */
  function RangeIndex(n: nat): (r: seq<Cell>)
    ensures |r| == n && forall i :: 0 <= i < n ==> r[i] == Number(i)
  {
    seq(n, i => Number(i))
  }

  // ---------------------------------------------------------------- drop

  /** The columns whose name is not listed, in their original order. */
  function Kept(cols: seq<Column>, names: seq<string>): seq<Column>
  {
    if cols == [] then []
    else
      var n := |cols| - 1;
      Kept(cols[..n], names) + (if cols[n].name in names then [] else [cols[n]])
  }

  /** `df.drop(columns=names)`: every column whose name is listed goes, the rest stay in order. */
  function DropColumns(t: Frame, names: seq<string>): (r: Frame)
    ensures r.index == t.index
  {
    var kept := Kept(t.columns, names);
    assert forall j :: 0 <= j < |kept| ==> |kept[j].values| == |t.index| by {
      forall j | 0 <= j < |kept|
        ensures |kept[j].values| == |t.index|
      {
        KeptMembers(t.columns, names, kept[j]);
        var k :| 0 <= k < |t.columns| && t.columns[k] == kept[j];
      }
    }
    Table(t.index, kept)
  }

  /** Dropping by name keeps exactly the columns whose name is not listed. */
  lemma {:induction false} KeptMembers(cols: seq<Column>, names: seq<string>, c: Column)
    ensures c in Kept(cols, names) <==> c in cols && c.name !in names
  {
    if cols != [] {
      var n := |cols| - 1;
      KeptMembers(cols[..n], names, c);
      assert cols == cols[..n] + [cols[n]];
    }
  }

  /** Dropping by name keeps the order: it works piece by piece. */
  lemma {:induction false} KeptAppend(a: seq<Column>, b: seq<Column>, names: seq<string>)
    ensures Kept(a + b, names) == Kept(a, names) + Kept(b, names)
    decreases |b|
  {
    if b == [] {
      assert a + b == a;
    } else {
      var n := |b| - 1;
      assert (a + b)[..|a| + n] == a + b[..n];
      KeptAppend(a, b[..n], names);
    }
  }

  /** Dropping names that no column has changes nothing. */
  lemma {:induction false} KeptNone(cols: seq<Column>, names: seq<string>)
    requires forall j :: 0 <= j < |cols| ==> cols[j].name !in names
    ensures Kept(cols, names) == cols
  {
    if cols != [] {
      var n := |cols| - 1;
      var init := cols[..n];
      assert forall j :: 0 <= j < |init| ==> init[j] == cols[j];
      KeptNone(init, names);
      assert Kept(cols, names) == init + [cols[n]];
      assert cols == init + [cols[n]];
    }
  }

  // ------------------------------------------------------ drop_duplicates

  /** The rows at the given positions, in the given order, with their labels. */
  function SelectRows(t: Frame, idx: seq<nat>): (r: Frame)
    requires forall k :: 0 <= k < |idx| ==> idx[k] < |t.index|
    ensures r.Height() == |idx| && Names(r.columns) == Names(t.columns)
  {
    assert forall j :: 0 <= j < |t.columns| ==> |t.columns[j].values| == |t.index|;
    Table(Select(t.index, idx),
          seq(|t.columns|, j requires 0 <= j < |t.columns| =>
            var c := t.columns[j];
            Column(c.name, c.isCategorical, c.nCategories, Select(c.values, idx))))
  }

  /** Selecting rows selects the same rows of the row view. */
  lemma RowsOfSelect(t: Frame, idx: seq<nat>)
    requires forall k :: 0 <= k < |idx| ==> idx[k] < |t.index|
    ensures Rows(SelectRows(t, idx)) == Select(Rows(t), idx)
  {
    var r := SelectRows(t, idx);
    forall k | 0 <= k < |idx|
      ensures Rows(r)[k] == Rows(t)[idx[k]]
    {
      assert Row(r, k) == Row(t, idx[k]);
    }
  }

  /**
   * `df.drop_duplicates()`: keeps the first row of each distinct combination
   * of cell values (the index is not compared), with its label. A table
   * without columns is returned unchanged, every row kept, as pandas does
   * for an empty frame.
   */
  function DropDuplicates(t: Frame): (r: Frame)
    ensures Names(r.columns) == Names(t.columns)
  {
    if t.columns == [] then t else SelectRows(t, FirstOccurrences(Rows(t)))
  }

  /** The rows `drop_duplicates` keeps, in order: all of them without columns, else the first of each distinct row. */
  function DedupRows(t: Frame): seq<seq<Cell>>
  {
    if t.columns == [] then Rows(t) else Distinct(Rows(t))
  }

  /** The labels of the rows `drop_duplicates` keeps. */
  function DedupLabels(t: Frame): seq<Cell>
  {
    if t.columns == [] then t.index else Select(t.index, FirstOccurrences(Rows(t)))
  }

  /**
   * After `drop_duplicates` every input row appears, at the position of its
   * first occurrence and with that occurrence's label, and there are no
   * more rows than before; when the table has columns the rows are pairwise
   * distinct, and when it has none it comes back unchanged.
   */
  lemma DropDuplicatesSpec(t: Frame)
    ensures Rows(DropDuplicates(t)) == DedupRows(t)
    ensures DropDuplicates(t).index == DedupLabels(t)
    ensures t.columns != [] ==> AllDistinct(Rows(DropDuplicates(t)))
    ensures t.columns == [] ==> DropDuplicates(t) == t
    ensures forall row :: row in Rows(DropDuplicates(t)) <==> row in Rows(t)
    ensures DropDuplicates(t).Height() <= t.Height()
  {
    if t.columns != [] {
      RowsOfSelect(t, FirstOccurrences(Rows(t)));
      DistinctSpec(Rows(t));
    }
  }

  // ---------------------------------------------------------- reset_index

  /**
   * `df.reset_index()`: the row labels become a first column named "index"
   * and the rows are relabelled `0 .. n - 1`.
   */
  function ResetIndex(t: Frame): (r: Frame)
    ensures r.Height() == t.Height() && r.index == RangeIndex(t.Height())
    ensures r.columns == [Column("index", false, 0, t.index)] + t.columns
  {
    Table(RangeIndex(t.Height()), [Column("index", false, 0, t.index)] + t.columns)
  }

  /** A reset row is the old label followed by the old row. */
  lemma ResetIndexRows(t: Frame, i: nat)
    requires i < t.Height()
    ensures Rows(ResetIndex(t))[i] == [t.index[i]] + Rows(t)[i]
  {
    assert Row(ResetIndex(t), i) == [t.index[i]] + Row(t, i);
  }

  /** `df.drop_duplicates().reset_index()`, how both obs scripts finish. */
  function DedupReset(t: Frame): Frame
  {
    ResetIndex(DropDuplicates(t))
  }

  /**
   * After `drop_duplicates().reset_index()` the table has one row per
   * distinct row of `t` (every row when `t` has no columns), in
   * first-occurrence order: a leading "index" column holds the label of that
   * first occurrence, the other cells are the row itself, and the rows are
   * relabelled from 0.
   */
  lemma DedupResetSpec(t: Frame)
    ensures DedupReset(t).Height() == |DedupRows(t)| <= t.Height()
    ensures DedupReset(t).index == RangeIndex(DedupReset(t).Height())
    ensures Names(DedupReset(t).columns) == ["index"] + Names(t.columns)
    ensures DedupReset(t).columns[0].values == DedupLabels(t)
    ensures forall i :: 0 <= i < DedupReset(t).Height() ==>
              Rows(DedupReset(t))[i] == [DedupReset(t).columns[0].values[i]] + DedupRows(t)[i]
    ensures t.columns != [] ==> AllDistinct(DedupRows(t))
    ensures t.columns == [] ==> DedupReset(t).Height() == t.Height()
    ensures forall row :: row in DedupRows(t) <==> row in Rows(t)
  {
    var u := DropDuplicates(t);
    DropDuplicatesSpec(t);
    forall i | 0 <= i < u.Height()
      ensures Rows(DedupReset(t))[i] == [DedupReset(t).columns[0].values[i]] + DedupRows(t)[i]
    {
      ResetIndexRows(u, i);
    }
    assert Names(DedupReset(t).columns) == ["index"] + Names(u.columns);
  }

  // --------------------------------------------------------- df[name] = v

  /**
   * `df[name] = v` with a scalar `v`: every column called `name` is replaced
   * by a plain (non-categorical) column holding `v` in every row; when there
   * is none, such a column is added at the end.
   */
  function SetColumn(t: Frame, name: string, v: Cell): (r: Frame)
    ensures r.index == t.index
  {
    var filled := Column(name, false, 0, Repeat(v, t.Height()));
    if name in Names(t.columns) then
      Table(t.index, seq(|t.columns|, j requires 0 <= j < |t.columns| =>
                           if t.columns[j].name == name then filled else t.columns[j]))
    else
      Table(t.index, t.columns + [filled])
  }

  /** A column name not yet present is appended, holding `v` in every row. */
  lemma SetNewColumn(t: Frame, name: string, v: Cell)
    requires name !in Names(t.columns)
    ensures SetColumn(t, name, v).columns == t.columns + [Column(name, false, 0, Repeat(v, t.Height()))]
    ensures Names(SetColumn(t, name, v).columns) == Names(t.columns) + [name]
  {
  }

  /** After `df[name] = v`, every column called `name` holds `v` in every row, and the other columns are unchanged. */
  lemma SetColumnValues(t: Frame, name: string, v: Cell)
    ensures name in Names(SetColumn(t, name, v).columns)
    ensures forall c :: c in SetColumn(t, name, v).columns && c.name == name ==>
              c.values == Repeat(v, t.Height())
    ensures forall c :: c in t.columns && c.name != name ==> c in SetColumn(t, name, v).columns
    ensures forall c :: c in SetColumn(t, name, v).columns && c.name != name ==> c in t.columns
  {
    var r := SetColumn(t, name, v);
    if name in Names(t.columns) {
      var j :| 0 <= j < |t.columns| && Names(t.columns)[j] == name;
      assert Names(r.columns)[j] == name;
      forall c | c in t.columns && c.name != name
        ensures c in r.columns
      {
        var k :| 0 <= k < |t.columns| && t.columns[k] == c;
        assert r.columns[k] == c;
      }
    } else {
      assert Names(r.columns)[|t.columns|] == name;
    }
  }

  // --------------------------------------------------------------- concat

  datatype ConcatError = NoObjectsToConcatenate

  /**
   * How a script that stacks per-dataset tables stops early: an exception
   * out of the per-dataset work, or nothing to stack.
   */
  datatype StackError<E> = Raised(e: E) | Concatenation(c: ConcatError)

  /** The position of the first column called `name`. */
  function FirstNamed(cols: seq<Column>, name: string): (j: nat)
    requires name in Names(cols)
    ensures j < |cols| && cols[j].name == name
    ensures forall i :: 0 <= i < j ==> cols[i].name != name
  {
    if cols[0].name == name then 0
    else
      assert name in Names(cols[1..]) by {
        var k :| 0 <= k < |cols| && Names(cols)[k] == name;
        assert Names(cols[1..])[k - 1] == name;
      }
      FirstNamed(cols[1..], name) + 1
  }

  /** The cells of the first column called `name`, or a missing cell per row when there is none. */
  function ValuesOr(t: Frame, name: string): (vs: seq<Cell>)
    ensures |vs| == t.Height()
  {
    if name in Names(t.columns) then t.columns[FirstNamed(t.columns, name)].values
    else Repeat(Missing, t.Height())
  }

  /** The number of rows of all tables together. */
  function TotalHeight(ts: seq<Frame>): nat
  {
    if ts == [] then 0 else TotalHeight(ts[..|ts| - 1]) + ts[|ts| - 1].Height()
  }

  /** One column of the concatenation: each table's cells under `name`, table after table. */
  function ConcatValues(ts: seq<Frame>, name: string): (vs: seq<Cell>)
    ensures |vs| == TotalHeight(ts)
  {
    if ts == [] then [] else ConcatValues(ts[..|ts| - 1], name) + ValuesOr(ts[|ts| - 1], name)
  }

  /** The row labels of all tables, table after table. */
  function ConcatIndex(ts: seq<Frame>): (ix: seq<Cell>)
    ensures |ix| == TotalHeight(ts)
  {
    if ts == [] then [] else ConcatIndex(ts[..|ts| - 1]) + ts[|ts| - 1].index
  }

  /** Every column name of every table, once each, in order of first appearance. */
  function UnionNames(ts: seq<Frame>): seq<string>
  {
    Distinct(Flatten(seq(|ts|, i requires 0 <= i < |ts| => Names(ts[i].columns))))
  }

  /**
   * `pd.concat(ts, ignore_index=...)`: rows of all tables stacked in order
   * under the union of their column names; a table without some column
   * contributes missing cells to it. The labels are kept, or renumbered from
   * 0 with `ignore_index=True`. An empty list raises.
   */
  function Concat(ts: seq<Frame>, ignoreIndex: bool): (r: Result<Frame, ConcatError>)
    ensures r.Err? <==> ts == []
    ensures r.Ok? ==> r.value.Height() == TotalHeight(ts)
  {
    if ts == [] then Err(NoObjectsToConcatenate)
    else
      var names := UnionNames(ts);
      var index := if ignoreIndex then RangeIndex(TotalHeight(ts)) else ConcatIndex(ts);
      var t: Frame := Table(index, seq(|names|, j requires 0 <= j < |names| =>
                                     Column(names[j], false, 0, ConcatValues(ts, names[j]))));
      Ok(t)
  }

  /** The row count of a concatenation is the sum of the row counts. */
  lemma {:induction false} TotalHeightIsSum(ts: seq<Frame>)
    ensures TotalHeight(ts) == Sum(seq(|ts|, i requires 0 <= i < |ts| => ts[i].Height()))
  {
    if ts != [] {
      var n := |ts| - 1;
      TotalHeightIsSum(ts[..n]);
      var hs := seq(|ts|, i requires 0 <= i < |ts| => ts[i].Height());
      assert hs[..n] == seq(n, i requires 0 <= i < n => ts[..n][i].Height());
    }
  }

  /** Row `k` of table `i` sits at row `TotalHeight(ts[..i]) + k` of the concatenation, with its cells under each name. */
  lemma {:induction false} ConcatValuesAt(ts: seq<Frame>, name: string, i: nat, k: nat)
    requires i < |ts| && k < ts[i].Height()
    ensures TotalHeight(ts[..i]) + k < TotalHeight(ts)
    ensures ConcatValues(ts, name)[TotalHeight(ts[..i]) + k] == ValuesOr(ts[i], name)[k]
  {
    var n := |ts| - 1;
    assert ts[..n][..i] == ts[..i] by { if i <= n { } }
    if i < n {
      ConcatValuesAt(ts[..n], name, i, k);
    } else {
      assert ts[..n] == ts[..i];
    }
  }

  /**
   * `pd.concat` lines columns up by name: a name that some table has is a
   * column of the result, holding each table's cells under that name, table
   * after table.
   */
  lemma ConcatColumn(ts: seq<Frame>, ignoreIndex: bool, i: nat, name: string)
    requires i < |ts| && name in Names(ts[i].columns)
    ensures Concat(ts, ignoreIndex).Ok?
    ensures name in Names(Concat(ts, ignoreIndex).value.columns)
    ensures ValuesOr(Concat(ts, ignoreIndex).value, name) == ConcatValues(ts, name)
  {
    var nss := seq(|ts|, i requires 0 <= i < |ts| => Names(ts[i].columns));
    FlattenMember(nss, i, name);
    DistinctSpec(Flatten(nss));
    var big := Concat(ts, ignoreIndex).value;
    assert Names(big.columns) == UnionNames(ts);
    var j := FirstNamed(big.columns, name);
    assert big.columns[j].values == ConcatValues(ts, name);
  }

  /** Row `k` of table `i` keeps its label at row `TotalHeight(ts[..i]) + k` when the index is not ignored. */
  lemma {:induction false} ConcatIndexAt(ts: seq<Frame>, i: nat, k: nat)
    requires i < |ts| && k < ts[i].Height()
    ensures TotalHeight(ts[..i]) + k < TotalHeight(ts)
    ensures ConcatIndex(ts)[TotalHeight(ts[..i]) + k] == ts[i].index[k]
  {
    var n := |ts| - 1;
    assert ts[..n][..i] == ts[..i] by { if i <= n { } }
    if i < n {
      ConcatIndexAt(ts[..n], i, k);
    } else {
      assert ts[..n] == ts[..i];
    }
  }

  /** Row `k` of table `i` carries, in the concatenation, its own cell under any name table `i` has. */
  lemma ConcatColumnAt(ts: seq<Frame>, ignoreIndex: bool, i: nat, k: nat, name: string)
    requires i < |ts| && k < ts[i].Height() && name in Names(ts[i].columns)
    ensures Concat(ts, ignoreIndex).Ok?
    ensures TotalHeight(ts[..i]) + k < Concat(ts, ignoreIndex).value.Height()
    ensures ValuesOr(Concat(ts, ignoreIndex).value, name)[TotalHeight(ts[..i]) + k] == ValuesOr(ts[i], name)[k]
  {
    ConcatColumn(ts, ignoreIndex, i, name);
    ConcatValuesAt(ts, name, i, k);
  }
}
