/**
 * `get_all_obs_standard.py`: reduce every processed dataset's obs table to
 * the columns of the standard cellxgene schema, drop repeated rows, tag each
 * table with the URI it came from and stack them all into one table.
 */
module GetAllObsStandard {
  import opened Wrappers
  import opened Seqs
  import opened Dicts
  import opened Tables
  import opened CellxgeneApply

  /** The obs columns of the standard schema that `make_all_obs` keeps. */
  const StandardColumns: seq<string> := [
    "assay_ontology_term_id",
    "cell_type_ontology_term_id",
    "development_stage_ontology_term_id",
    "donor_id",
    "is_primary_data",
    "organism_ontology_term_id",
    "self_reported_ethnicity_ontology_term_id",
    "ethnicity_ontology_term_id",
    "sex_ontology_term_id",
    "suspension_type",
    "assay",
    "cell_type",
    "development_stage",
    "disease",
    "organism",
    "self_reported_ethnicity",
    "ethnicity",
    "sex",
    "tissue"
  ]

  // ------------------------------------------------------------ make_all_obs

  /** The names of the columns outside the standard schema, in column order: `columns_to_drop`. */
  function NonStandardNames(cols: seq<Column>): seq<string>
  {
    if cols == [] then []
    else
      var n := |cols| - 1;
      NonStandardNames(cols[..n]) + (if cols[n].name in StandardColumns then [] else [cols[n].name])
  }

  /** The columns of the standard schema, in their original order. */
  function StandardOnly(cols: seq<Column>): seq<Column>
  {
    if cols == [] then []
    else
      var n := |cols| - 1;
      StandardOnly(cols[..n]) + (if cols[n].name in StandardColumns then [cols[n]] else [])
  }

  /** `adata.obs` after `adata.obs = adata.obs.drop(columns=columns_to_drop)`. */
  function StandardObs(obs: Frame): Frame
  {
    DropColumns(obs, NonStandardNames(obs.columns))
  }

  /** What `make_all_obs` returns for an obs table. */
  function MakeAllObsOf(obs: Frame): Frame
  {
    DedupReset(StandardObs(obs))
  }

  /**
   * `make_all_obs(adata)`: collects the names of the columns outside the
   * schema, drops them from `adata.obs` in place, and returns the
   * deduplicated, re-indexed table.
   */
  method MakeAllObs(adata: AnnData) returns (r: Frame)
    modifies adata
    ensures adata.obs == StandardObs(old(adata.obs))
    ensures r == MakeAllObsOf(old(adata.obs))
  {
    var columns := adata.obs.columns;
    var columnsToDrop: seq<string> := [];
    for i := 0 to |columns|
      invariant columnsToDrop == NonStandardNames(columns[..i])
    {
      var column := columns[i];
      assert columns[..i + 1][..i] == columns[..i];
      if column.name !in StandardColumns {
        columnsToDrop := columnsToDrop + [column.name];
      }
    }
    assert columns[..|columns|] == columns;
    adata.obs := DropColumns(adata.obs, columnsToDrop);
    r := DedupReset(adata.obs);
  }

  /** A name is to be dropped exactly when some column has it and it is outside the schema. */
  lemma {:induction false} NonStandardNamesMembers(cols: seq<Column>, name: string)
    ensures name in NonStandardNames(cols) <==> name in Names(cols) && name !in StandardColumns
  {
    if cols != [] {
      var n := |cols| - 1;
      NonStandardNamesMembers(cols[..n], name);
      assert Names(cols) == Names(cols[..n]) + [cols[n].name];
    }
  }

  /** Dropping names that are exactly the out-of-schema names of the columns keeps the schema columns. */
  lemma {:induction false} KeptStandard(cols: seq<Column>, names: seq<string>)
    requires forall j :: 0 <= j < |cols| ==> (cols[j].name in names <==> cols[j].name !in StandardColumns)
    ensures Kept(cols, names) == StandardOnly(cols)
  {
    if cols != [] {
      var n := |cols| - 1;
      var init := cols[..n];
      assert forall j :: 0 <= j < |init| ==> init[j] == cols[j];
      KeptStandard(init, names);
    }
  }

  /** The schema filter keeps exactly the columns whose name is on the list. */
  lemma {:induction false} StandardOnlyMembers(cols: seq<Column>, c: Column)
    ensures c in StandardOnly(cols) <==> c in cols && c.name in StandardColumns
  {
    if cols != [] {
      var n := |cols| - 1;
      StandardOnlyMembers(cols[..n], c);
      assert cols == cols[..n] + [cols[n]];
    }
  }

  /**
   * After the drop, `adata.obs` holds exactly the input columns whose name
   * is in the schema, in input order, with the same row labels: no schema
   * column is dropped and no other column survives.
   */
  lemma StandardObsColumns(obs: Frame)
    ensures StandardObs(obs).columns == StandardOnly(obs.columns)
    ensures StandardObs(obs).index == obs.index
    ensures forall c :: c in StandardObs(obs).columns <==> c in obs.columns && c.name in StandardColumns
  {
    var cols := obs.columns;
    var names := NonStandardNames(cols);
    forall j | 0 <= j < |cols|
      ensures cols[j].name in names <==> cols[j].name !in StandardColumns
    {
      NonStandardNamesMembers(cols, cols[j].name);
      assert Names(cols)[j] == cols[j].name;
    }
    KeptStandard(cols, names);
    forall c
      ensures c in StandardObs(obs).columns <==> c in cols && c.name in StandardColumns
    {
      StandardOnlyMembers(cols, c);
    }
  }

  /**
   * `make_all_obs` returns one row per distinct row of the schema columns
   * (every row when it has none of them), in first-occurrence order, never
   * more rows than the input: a leading
   * "index" column holds the original label of that first occurrence and
   * the remaining columns are the schema columns of the input, in order.
   */
  lemma MakeAllObsSpec(obs: Frame)
    ensures MakeAllObsOf(obs).Height() == |DedupRows(StandardObs(obs))| <= obs.Height()
    ensures Names(MakeAllObsOf(obs).columns) == ["index"] + Names(StandardOnly(obs.columns))
    ensures MakeAllObsOf(obs).columns[0].values == DedupLabels(StandardObs(obs))
    ensures forall i :: 0 <= i < MakeAllObsOf(obs).Height() ==>
              Rows(MakeAllObsOf(obs))[i] == [MakeAllObsOf(obs).columns[0].values[i]] + DedupRows(StandardObs(obs))[i]
    ensures StandardOnly(obs.columns) != [] ==> AllDistinct(DedupRows(StandardObs(obs)))
    ensures StandardOnly(obs.columns) == [] ==> MakeAllObsOf(obs).Height() == obs.Height()
    ensures forall row :: row in DedupRows(StandardObs(obs)) <==> row in Rows(StandardObs(obs))
  {
    StandardObsColumns(obs);
    DedupResetSpec(StandardObs(obs));
  }

  // -------------------------------------------------------------------- main

  /** The column `main` adds to every result table. */
  const ExplorerUrl: string := "explorer_url"

  /** Every result table with its `explorer_url` column set to its own key. */
  function Tagged(results: Dict<string, Frame>): (t: Dict<string, Frame>)
    ensures t.keys == results.keys
  {
    Dict(results.keys, map u | u in results.items :: SetColumn(results.items[u], ExplorerUrl, Text(u)))
  }

  /**
   * `for key, values in results.items(): results[key]["explorer_url"] = key`:
   * each table gains (or has overwritten) a column holding its key.
   */
  method TagExplorerUrl(results: Dict<string, Frame>) returns (tagged: Dict<string, Frame>)
    requires results.Valid()
    ensures tagged == Tagged(results)
  {
    tagged := results;
    for i := 0 to |results.keys|
      invariant tagged.keys == results.keys && tagged.items.Keys == results.items.Keys
      invariant forall j :: 0 <= j < i ==>
                  tagged.items[results.keys[j]] == SetColumn(results.items[results.keys[j]], ExplorerUrl, Text(results.keys[j]))
      invariant forall j :: i <= j < |results.keys| ==> tagged.items[results.keys[j]] == results.items[results.keys[j]]
    {
      var key := results.keys[i];
      tagged := Put(tagged, key, SetColumn(tagged.items[key], ExplorerUrl, Text(key)));
    }
  }

  /** A result table with its `explorer_url` column set to `key`. */
  function Tag(t: Frame, key: string): Frame
  {
    SetColumn(t, ExplorerUrl, Text(key))
  }

  /** The tagged table has the same rows, and its `explorer_url` column holds `key` in every row. */
  lemma TagSpec(t: Frame, key: string)
    ensures Tag(t, key).index == t.index
    ensures ExplorerUrl in Names(Tag(t, key).columns)
    ensures ValuesOr(Tag(t, key), ExplorerUrl) == Repeat(Text(key), t.Height())
  {
    SetColumnValues(t, ExplorerUrl, Text(key));
    var s := Tag(t, key);
    var j := FirstNamed(s.columns, ExplorerUrl);
    assert s.columns[j] in s.columns;
  }

  /** `list(results.values())` after the tagging loop: each table tagged with its own key, in key order. */
  function TaggedTables(results: Dict<string, Frame>): (ts: seq<Frame>)
    requires results.Valid()
    ensures |ts| == |results.keys|
  {
    seq(|results.keys|, i requires 0 <= i < |results.keys| => Tag(results.Values()[i], results.keys[i]))
  }

  /** Tagging keeps the dict well formed, and its values are the tagged tables in key order. */
  lemma TaggedValues(results: Dict<string, Frame>)
    requires results.Valid()
    ensures Tagged(results).Valid()
    ensures Tagged(results).Values() == TaggedTables(results)
  {
  }

  /** `pd.concat(list(results.values()), ignore_index=True)` after the tagging loop. */
  function BigObs(results: Dict<string, Frame>): Result<Frame, ConcatError>
    requires results.Valid()
  {
    Concat(TaggedTables(results), true)
  }

  /**
   * The stacked table exists exactly when there is at least one result; it
   * has as many rows as all results together, numbered from 0, and an
   * `explorer_url` column.
   */
  lemma BigObsSpec(results: Dict<string, Frame>)
    requires results.Valid()
    ensures BigObs(results).Err? <==> results.keys == []
    ensures BigObs(results).Ok? ==>
              BigObs(results).value.Height() == Sum(seq(|results.keys|, i requires 0 <= i < |results.keys| => results.Values()[i].Height()))
    ensures BigObs(results).Ok? ==> BigObs(results).value.index == RangeIndex(BigObs(results).value.Height())
    ensures BigObs(results).Ok? ==> ExplorerUrl in Names(BigObs(results).value.columns)
  {
    var ts := TaggedTables(results);
    TotalHeightIsSum(ts);
    assert seq(|ts|, i requires 0 <= i < |ts| => ts[i].Height())
        == seq(|results.keys|, i requires 0 <= i < |results.keys| => results.Values()[i].Height());
    if ts != [] {
      TagSpec(results.Values()[0], results.keys[0]);
      ConcatColumn(ts, true, 0, ExplorerUrl);
    }
  }

  /**
   * Row `k` of the `i`-th result sits in the stacked table right after the
   * rows of the results before it, and carries the `i`-th URI under
   * `explorer_url`.
   */
  lemma BigObsRowUrl(results: Dict<string, Frame>, i: nat, k: nat)
    requires results.Valid() && i < |results.keys| && k < results.Values()[i].Height()
    ensures BigObs(results).Ok?
    ensures TotalHeight(TaggedTables(results)[..i]) + k < BigObs(results).value.Height()
    ensures ValuesOr(BigObs(results).value, ExplorerUrl)[TotalHeight(TaggedTables(results)[..i]) + k]
            == Text(results.keys[i])
  {
    var ts := TaggedTables(results);
    TagSpec(results.Values()[i], results.keys[i]);
    ConcatColumnAt(ts, true, i, k, ExplorerUrl);
  }

  /** `make_all_obs` as the per-dataset function of the apply loop: it never raises. */
  function MakeAllObsResult<E>(obs: Frame): Result<Frame, E>
  {
    Ok(MakeAllObsOf(obs))
  }

  /**
   * `main`: run `make_all_obs` over the catalog, tag each table with its
   * URI and stack them. Writing the stacked table out is not modelled.
   */
  method StackAllObs<B, E>(raws: seq<RawRow>, fetch: (string, string) -> Option<B>, read: B -> Result<Frame, E>)
    returns (out: Result<Frame, StackError<E>>, ghost scratchPresent: bool)
    ensures scratchPresent <==> out.Err? && out.error.Raised?
    ensures out.Err? && out.error.Raised? <==>
              Collect(Processed(DataInfo(Catalog(raws)).keys, fetch), fetch, read, MakeAllObsResult).Err?
    ensures out.Err? && out.error.Concatenation? <==>
              Collect(Processed(DataInfo(Catalog(raws)).keys, fetch), fetch, read, MakeAllObsResult).Ok?
              && Processed(DataInfo(Catalog(raws)).keys, fetch) == []
    ensures out.Ok? ==>
              var results := Collect(Processed(DataInfo(Catalog(raws)).keys, fetch), fetch, read, MakeAllObsResult).value;
              && BigObs(results) == Ok(out.value)
              && results.keys == Processed(DataInfo(Catalog(raws)).keys, fetch)
  {
    var results;
    results, scratchPresent := ApplyFunctionPortalH5ads(raws, fetch, read, MakeAllObsResult);
    if results.Err? {
      out := Err(Raised(results.error));
      return;
    }
    ApplyResults(Catalog(raws), fetch, read, MakeAllObsResult, results.value);
    var tagged := TagExplorerUrl(results.value);
    TaggedValues(results.value);
    BigObsSpec(results.value);
    var bigObs := Concat(tagged.Values(), true);
    if bigObs.Err? {
      out := Err(Concatenation(bigObs.error));
    } else {
      out := Ok(bigObs.value);
    }
  }
}
