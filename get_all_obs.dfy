/**
 * `get_all_obs.py`: drop the categorical obs columns with too many declared
 * categories from every processed dataset, drop repeated rows and stack the
 * tables, keeping their own row labels.
 */
module GetAllObs {
  import opened Wrappers
  import opened Seqs
  import opened Dicts
  import opened Tables
  import opened CellxgeneApply

  /** The default `max_categories` of `make_all_obs`. */
  const DefaultMaxCategories: int := 1000

  /** A categorical column declaring more than `maxCategories` categories; the test is strict. */
  predicate TooWide(c: Column, maxCategories: int)
  {
    c.isCategorical && c.nCategories > maxCategories
  }

  // ------------------------------------------------------------ make_all_obs

  /** The names of the too-wide columns, in column order: `columns_to_drop`. */
  function WideNames(cols: seq<Column>, maxCategories: int): seq<string>
  {
    if cols == [] then []
    else
      var n := |cols| - 1;
      WideNames(cols[..n], maxCategories) + (if TooWide(cols[n], maxCategories) then [cols[n].name] else [])
  }

  /** The columns that are not too wide, in their original order. */
  function NarrowOnly(cols: seq<Column>, maxCategories: int): seq<Column>
  {
    if cols == [] then []
    else
      var n := |cols| - 1;
      NarrowOnly(cols[..n], maxCategories) + (if TooWide(cols[n], maxCategories) then [] else [cols[n]])
  }

  /** `adata.obs` after `adata.obs = adata.obs.drop(columns=columns_to_drop)`. */
  function ObsWithin(obs: Frame, maxCategories: int): Frame
  {
    DropColumns(obs, WideNames(obs.columns, maxCategories))
  }

  /** What `make_all_obs` returns for an obs table. */
  function MakeAllObsOf(obs: Frame, maxCategories: int): Frame
  {
    DedupReset(ObsWithin(obs, maxCategories))
  }

  /**
   * `make_all_obs(adata, max_categories)`: collects the names of the
   * categorical columns with more than `max_categories` categories, drops
   * them from `adata.obs` in place, and returns the deduplicated,
   * re-indexed table.
   */
  method MakeAllObs(adata: AnnData, maxCategories: int) returns (r: Frame)
    modifies adata
    ensures adata.obs == ObsWithin(old(adata.obs), maxCategories)
    ensures r == MakeAllObsOf(old(adata.obs), maxCategories)
  {
    var columns := adata.obs.columns;
    var columnsToDrop: seq<string> := [];
    for i := 0 to |columns|
      invariant columnsToDrop == WideNames(columns[..i], maxCategories)
    {
      var column := columns[i];
      assert columns[..i + 1][..i] == columns[..i];
      if column.isCategorical {
        var nCategories := column.nCategories;
        if nCategories > maxCategories {
          columnsToDrop := columnsToDrop + [column.name];
        }
      }
    }
    assert columns[..|columns|] == columns;
    adata.obs := DropColumns(adata.obs, columnsToDrop);
    r := DedupReset(adata.obs);
  }

  /** A name is to be dropped exactly when some too-wide column has it. */
  lemma {:induction false} WideNamesMembers(cols: seq<Column>, maxCategories: int, name: string)
    ensures name in WideNames(cols, maxCategories) <==>
              exists j :: 0 <= j < |cols| && cols[j].name == name && TooWide(cols[j], maxCategories)
  {
    if cols != [] {
      var n := |cols| - 1;
      WideNamesMembers(cols[..n], maxCategories, name);
      if name in WideNames(cols[..n], maxCategories) {
        var j :| 0 <= j < n && cols[..n][j].name == name && TooWide(cols[..n][j], maxCategories);
        assert cols[j] == cols[..n][j];
      }
      if exists j :: 0 <= j < |cols| && cols[j].name == name && TooWide(cols[j], maxCategories) {
        var j :| 0 <= j < |cols| && cols[j].name == name && TooWide(cols[j], maxCategories);
        if j < n {
          assert cols[..n][j] == cols[j];
        }
      }
    }
  }

  /** When a column's name is listed exactly when the column is too wide, dropping the listed names keeps the other columns. */
  lemma {:induction false} KeptNarrow(cols: seq<Column>, names: seq<string>, maxCategories: int)
    requires forall j :: 0 <= j < |cols| ==> (cols[j].name in names <==> TooWide(cols[j], maxCategories))
    ensures Kept(cols, names) == NarrowOnly(cols, maxCategories)
  {
    if cols != [] {
      var n := |cols| - 1;
      var init := cols[..n];
      assert forall j :: 0 <= j < |init| ==> init[j] == cols[j];
      KeptNarrow(init, names, maxCategories);
    }
  }

  /**
   * After the drop, `adata.obs` keeps its row labels, no column in it is too
   * wide, and a column survives exactly when no too-wide column shares its
   * name (the drop goes by name). In particular a non-categorical column,
   * or a categorical one with at most `maxCategories` categories, survives
   * unless a too-wide column has the same name.
   */
  lemma ObsWithinColumns(obs: Frame, maxCategories: int)
    ensures ObsWithin(obs, maxCategories).index == obs.index
    ensures forall c :: c in ObsWithin(obs, maxCategories).columns ==> !TooWide(c, maxCategories)
    ensures forall c :: c in ObsWithin(obs, maxCategories).columns <==>
              c in obs.columns
              && forall j :: 0 <= j < |obs.columns| && obs.columns[j].name == c.name ==> !TooWide(obs.columns[j], maxCategories)
  {
    var cols := obs.columns;
    var names := WideNames(cols, maxCategories);
    forall c
      ensures c in ObsWithin(obs, maxCategories).columns <==>
                c in cols && forall j :: 0 <= j < |cols| && cols[j].name == c.name ==> !TooWide(cols[j], maxCategories)
      ensures c in ObsWithin(obs, maxCategories).columns ==> !TooWide(c, maxCategories)
    {
      KeptMembers(cols, names, c);
      WideNamesMembers(cols, maxCategories, c.name);
      if c in cols {
        var j :| 0 <= j < |cols| && cols[j] == c;
      }
    }
  }

  /** When the column names are distinct, the survivors are exactly the columns that are not too wide, in input order. */
  lemma ObsWithinDistinctNames(obs: Frame, maxCategories: int)
    requires AllDistinct(Names(obs.columns))
    ensures ObsWithin(obs, maxCategories).columns == NarrowOnly(obs.columns, maxCategories)
  {
    var cols := obs.columns;
    var names := WideNames(cols, maxCategories);
    forall j | 0 <= j < |cols|
      ensures cols[j].name in names <==> TooWide(cols[j], maxCategories)
    {
      WideNamesMembers(cols, maxCategories, cols[j].name);
      if cols[j].name in names {
        var l :| 0 <= l < |cols| && cols[l].name == cols[j].name && TooWide(cols[l], maxCategories);
        assert Names(cols)[l] == Names(cols)[j];
      }
    }
    KeptNarrow(cols, names, maxCategories);
  }

  /**
   * With the default threshold, a categorical column declaring 1200
   * categories goes, while one declaring 3 and one declaring exactly 1000
   * stay, in their order.
   */
  lemma DefaultThresholdExample(a: seq<Cell>, b: seq<Cell>, c: seq<Cell>, index: seq<Cell>)
    requires |a| == |b| == |c| == |index|
    ensures var obs: Frame := Table(index, [Column("A", true, 3, a), Column("B", true, 1200, b), Column("C", true, 1000, c)]);
            ObsWithin(obs, DefaultMaxCategories).columns == [Column("A", true, 3, a), Column("C", true, 1000, c)]
  {
    var obs: Frame := Table(index, [Column("A", true, 3, a), Column("B", true, 1200, b), Column("C", true, 1000, c)]);
    var cols := obs.columns;
    assert cols[..2][..1] == cols[..1] && cols[..1][..0] == [];
    assert WideNames(cols[..1], DefaultMaxCategories) == [];
    assert WideNames(cols[..2], DefaultMaxCategories) == ["B"];
    assert WideNames(cols, DefaultMaxCategories) == ["B"];
    assert "A" != "B" && "C" != "B";
    assert Kept(cols[..1], ["B"]) == [cols[0]];
    assert Kept(cols[..2], ["B"]) == [cols[0]];
  }

  /**
   * `make_all_obs` returns one row per distinct row of the surviving
   * columns (every row when none survives), in first-occurrence order,
   * never more rows than the input: a
   * leading "index" column holds the original label of that first
   * occurrence and the remaining columns are the survivors, in order.
   */
  lemma MakeAllObsSpec(obs: Frame, maxCategories: int)
    ensures MakeAllObsOf(obs, maxCategories).Height() == |DedupRows(ObsWithin(obs, maxCategories))| <= obs.Height()
    ensures Names(MakeAllObsOf(obs, maxCategories).columns) == ["index"] + Names(ObsWithin(obs, maxCategories).columns)
    ensures MakeAllObsOf(obs, maxCategories).columns[0].values == DedupLabels(ObsWithin(obs, maxCategories))
    ensures forall i :: 0 <= i < MakeAllObsOf(obs, maxCategories).Height() ==>
              Rows(MakeAllObsOf(obs, maxCategories))[i] ==
                [MakeAllObsOf(obs, maxCategories).columns[0].values[i]] + DedupRows(ObsWithin(obs, maxCategories))[i]
    ensures ObsWithin(obs, maxCategories).columns != [] ==> AllDistinct(DedupRows(ObsWithin(obs, maxCategories)))
    ensures ObsWithin(obs, maxCategories).columns == [] ==> MakeAllObsOf(obs, maxCategories).Height() == obs.Height()
    ensures forall row :: row in DedupRows(ObsWithin(obs, maxCategories)) <==> row in Rows(ObsWithin(obs, maxCategories))
  {
    DedupResetSpec(ObsWithin(obs, maxCategories));
  }

  // -------------------------------------------------------------------- main

  /** `make_all_obs` with the default threshold, as the per-dataset function of the apply loop: it never raises. */
  function MakeAllObsResult<E>(obs: Frame): Result<Frame, E>
  {
    Ok(MakeAllObsOf(obs, DefaultMaxCategories))
  }

  /** `pd.concat(list(results.values()))`: the row labels of each table are kept. */
  function BigObs(results: Dict<string, Frame>): Result<Frame, ConcatError>
    requires results.Valid()
  {
    Concat(results.Values(), false)
  }

  /**
   * The stacked table exists exactly when there is at least one result, and
   * has as many rows as all results together.
   */
  lemma BigObsSpec(results: Dict<string, Frame>)
    requires results.Valid()
    ensures BigObs(results).Err? <==> results.keys == []
    ensures BigObs(results).Ok? ==>
              BigObs(results).value.Height() == Sum(seq(|results.keys|, i requires 0 <= i < |results.keys| => results.Values()[i].Height()))
  {
    var ts := results.Values();
    TotalHeightIsSum(ts);
    assert seq(|ts|, i requires 0 <= i < |ts| => ts[i].Height())
        == seq(|results.keys|, i requires 0 <= i < |results.keys| => results.Values()[i].Height());
  }

  /**
   * Row `k` of the `i`-th result sits in the stacked table right after the
   * rows of the results before it, with its own label; for a table made by
   * `make_all_obs` that label is `k`, so labels start again at 0 with every
   * dataset.
   */
  lemma BigObsRowLabel(results: Dict<string, Frame>, i: nat, k: nat)
    requires results.Valid() && i < |results.keys| && k < results.Values()[i].Height()
    ensures BigObs(results).Ok?
    ensures TotalHeight(results.Values()[..i]) + k < BigObs(results).value.Height()
    ensures BigObs(results).value.index[TotalHeight(results.Values()[..i]) + k] == results.Values()[i].index[k]
    ensures (exists obs :: results.Values()[i] == MakeAllObsOf(obs, DefaultMaxCategories)) ==>
              BigObs(results).value.index[TotalHeight(results.Values()[..i]) + k] == Number(k)
  {
    ConcatIndexAt(results.Values(), i, k);
    if exists obs :: results.Values()[i] == MakeAllObsOf(obs, DefaultMaxCategories) {
      var obs :| results.Values()[i] == MakeAllObsOf(obs, DefaultMaxCategories);
      DedupResetSpec(ObsWithin(obs, DefaultMaxCategories));
    }
  }

  /**
   * `main`: run `make_all_obs` over the catalog and stack the results. The
   * stacked table is what `main` computes; it is not written anywhere.
   */
  method StackAllObs<B, E>(raws: seq<RawRow>, fetch: (string, string) -> Option<B>, read: B -> Result<Frame, E>)
    returns (out: Result<Frame, StackError<E>>, ghost scratchPresent: bool)
    ensures scratchPresent <==> out.Err? && out.error.Raised?
    ensures out.Err? && out.error.Raised? <==>
              Collect(Processed(DataInfo(Catalog(raws)).keys, fetch), fetch, read, MakeAllObsResult).Err?
    ensures out.Err? && out.error.Concatenation? <==>
              Collect(Processed(DataInfo(Catalog(raws)).keys, fetch), fetch, read, MakeAllObsResult).Ok?
              && Processed(DataInfo(Catalog(raws)).keys, fetch) == []
    ensures out.Ok? ==>
              var results := Collect(Processed(DataInfo(Catalog(raws)).keys, fetch), fetch, read, MakeAllObsResult).value;
              && BigObs(results) == Ok(out.value)
              && results.keys == Processed(DataInfo(Catalog(raws)).keys, fetch)
  {
    var results;
    results, scratchPresent := ApplyFunctionPortalH5ads(raws, fetch, read, MakeAllObsResult);
    if results.Err? {
      out := Err(Raised(results.error));
      return;
    }
    ApplyResults(Catalog(raws), fetch, read, MakeAllObsResult, results.value);
    BigObsSpec(results.value);
    var bigObs := Concat(results.value.Values(), false);
    if bigObs.Err? {
      out := Err(Concatenation(bigObs.error));
    } else {
      out := Ok(bigObs.value);
    }
  }
}
