/**
 * cellxgene_apply.py: reading the dataset catalog into a dict keyed by S3
 * URI, splitting an S3 URI into bucket and key, and the loop that downloads
 * each dataset, opens it, applies a function to it and collects the results.
 */
module CellxgeneApply {
  import opened Wrappers
  import opened Strings
  import opened Seqs
  import opened Dicts

  // ------------------------------------------------------ converter_fun

  const Brackets: set<char> := {'[', ']'}
  const Quote: char := '\''
  const ListSeparator: string := ", "

  /**
   * `converter_fun`: a list written out as text, such as "['a', 'b']", read
   * back as ["a", "b"] by stripping brackets from both ends, deleting every
   * quote and splitting on ", ". The result is never empty.
   */
  function ConvertList(x: string): (r: seq<string>)
    ensures |r| >= 1
  {
    Split(Replace(Strip(x, Brackets), [Quote], ""), ListSeparator)
  }

  /** No element of a converted list holds a quote or the ", " separator. */
  lemma ConvertListPieces(x: string)
    ensures forall k :: 0 <= k < |ConvertList(x)| ==> Quote !in ConvertList(x)[k] && !Contains(ConvertList(x)[k], ListSeparator)
  {
    var cleaned := Replace(Strip(x, Brackets), [Quote], "");
    DeleteChar(Strip(x, Brackets), Quote);
    SplitKeepsChars(cleaned, ListSeparator, Quote);
    SplitPiecesFree(cleaned, ListSeparator);
  }

  /** Joining the elements with ", " gives back the text with its brackets stripped and its quotes deleted. */
  lemma ConvertListJoin(x: string)
    ensures Join(ConvertList(x), ListSeparator) == Replace(Strip(x, Brackets), [Quote], "")
  {
    JoinSplit(Replace(Strip(x, Brackets), [Quote], ""), ListSeparator);
  }

  /** The empty list "[]" reads as one empty string, not as no element. */
  lemma ConvertEmptyList()
    ensures ConvertList("[]") == [""]
  {
    assert StripLeft("[]", Brackets) == "";
    assert Strip("[]", Brackets) == "";
    assert FindFirst("", [Quote]) == None;
    assert Split("", [Quote]) == [""];
    assert FindFirst("", ListSeparator) == None;
  }

  // -------------------------------------------------- get_all_data_info

  /**
   * One catalog row as the tab-separated file holds it: the four list-valued
   * columns ("S3 URIs", "Organisms", "Tissues", "Assays") as text, the
   * others already typed.
   */
  datatype RawRow = RawRow(
    s3Uris: string, explorerUrl: string, id: string, name: string,
    cellCount: int, organisms: string, tissues: string, assays: string)

  /** One catalog row once `pd.read_csv` has applied `converter_fun` to the four list-valued columns. */
  datatype CatalogRow = CatalogRow(
    s3Uris: seq<string>, explorerUrl: string, id: string, name: string,
    cellCount: int, organisms: seq<string>, tissues: seq<string>, assays: seq<string>)

  /** The converters `get_all_data_info` hands to `pd.read_csv`. */
  function ReadRow(raw: RawRow): (row: CatalogRow)
    ensures |row.s3Uris| >= 1 && |row.organisms| >= 1 && |row.tissues| >= 1 && |row.assays| >= 1
  {
    CatalogRow(ConvertList(raw.s3Uris), raw.explorerUrl, raw.id, raw.name, raw.cellCount,
               ConvertList(raw.organisms), ConvertList(raw.tissues), ConvertList(raw.assays))
  }

  /** The "S3 URIs" list of a read row, joined back with ", ", is the cell's text without brackets and quotes. */
  lemma ReadRowUris(raw: RawRow)
    ensures Join(ReadRow(raw).s3Uris, ListSeparator) == Replace(Strip(raw.s3Uris, Brackets), [Quote], "")
  {
    ConvertListJoin(raw.s3Uris);
  }

  /** The catalog as `pd.read_csv` delivers it: every raw row read through the converters, in file order. */
  function Catalog(raws: seq<RawRow>): (rows: seq<CatalogRow>)
    ensures |rows| == |raws|
  {
    Map(raws, ReadRow)
  }

  /** Row `i` of the catalog is raw row `i` read through the converters. */
  lemma CatalogAt(raws: seq<RawRow>, i: nat)
    requires i < |raws|
    ensures Catalog(raws)[i] == ReadRow(raws[i])
  {
    MapAt(raws, ReadRow, i);
  }

  /** The record `get_all_data_info` stores for one dataset. */
  datatype DatasetInfo = DatasetInfo(
    datasetUriProd: string, explorerUrl: string, collectionId: string, collectionName: string,
    cellCount: int, organisms: seq<string>, tissues: seq<string>, assays: seq<string>)

  const H5adMarker: string := "h5ad"
  const DevBucket: string := "corpora-data-dev"
  const ProdBucket: string := "corpora-data-prod"

  /** The record for `uri` built from the row it was listed in. */
  function InfoFor(uri: string, row: CatalogRow): DatasetInfo
  {
    DatasetInfo(Replace(uri, DevBucket, ProdBucket), row.explorerUrl, row.id, row.name,
                row.cellCount, row.organisms, row.tissues, row.assays)
  }

  /** The URIs that contain "h5ad", in order. */
  function H5adUris(uris: seq<string>): seq<string>
  {
    if uris == [] then []
    else
      var n := |uris| - 1;
      H5adUris(uris[..n]) + (if Contains(uris[n], H5adMarker) then [uris[n]] else [])
  }

  /** The (URI, record) pairs one row contributes, one per URI that contains "h5ad". */
  function RowEntries(uris: seq<string>, row: CatalogRow): seq<(string, DatasetInfo)>
  {
    if uris == [] then []
    else
      var n := |uris| - 1;
      RowEntries(uris[..n], row) + (if Contains(uris[n], H5adMarker) then [(uris[n], InfoFor(uris[n], row))] else [])
  }

  lemma RowEntriesStep(uris: seq<string>, j: nat, row: CatalogRow)
    requires j < |uris|
    ensures RowEntries(uris[..j + 1], row) ==
              RowEntries(uris[..j], row) + (if Contains(uris[j], H5adMarker) then [(uris[j], InfoFor(uris[j], row))] else [])
  {
    assert uris[..j + 1][..j] == uris[..j];
  }

  /** The entries of all rows, row after row. */
  function CatalogEntries(rows: seq<CatalogRow>): seq<(string, DatasetInfo)>
  {
    if rows == [] then []
    else
      var n := |rows| - 1;
      CatalogEntries(rows[..n]) + RowEntries(rows[n].s3Uris, rows[n])
  }

  /** Every URI containing "h5ad" of every row, row after row, repeats included. */
  function CatalogUris(rows: seq<CatalogRow>): seq<string>
  {
    if rows == [] then []
    else
      var n := |rows| - 1;
      CatalogUris(rows[..n]) + H5adUris(rows[n].s3Uris)
  }

  /** The dict `get_all_data_info` builds: the entries stored one after the other. */
  function DataInfo(rows: seq<CatalogRow>): (d: Dict<string, DatasetInfo>)
    ensures d.Valid()
  {
    PutAllValid(Empty(), CatalogEntries(rows));
    PutAll(Empty(), CatalogEntries(rows))
  }

  /**
   * `get_all_data_info`: the catalog file's rows, each read through the
   * converters, and every "h5ad" URI of each row stored with that row's
   * record.
   */
  method GetAllDataInfo(raws: seq<RawRow>) returns (dataDict: Dict<string, DatasetInfo>)
    ensures dataDict == DataInfo(Catalog(raws))
  {
    var allData := Catalog(raws);
    dataDict := StoreRows(allData);
  }

  /** The loops of `get_all_data_info` over the rows read from the catalog. */
  method StoreRows(rows: seq<CatalogRow>) returns (dataDict: Dict<string, DatasetInfo>)
    ensures dataDict == DataInfo(rows)
  {
    dataDict := Empty();
    for i := 0 to |rows|
      invariant dataDict == PutAll(Empty(), CatalogEntries(rows[..i]))
    {
      var row := rows[i];
      var uris := row.s3Uris;
      ghost var done := CatalogEntries(rows[..i]);
      assert done + RowEntries(uris[..0], row) == done;
      for j := 0 to |uris|
        invariant dataDict == PutAll(Empty(), done + RowEntries(uris[..j], row))
      {
        var datasetUri := uris[j];
        ghost var before := done + RowEntries(uris[..j], row);
        RowEntriesStep(uris, j, row);
        if !Contains(datasetUri, H5adMarker) {
          assert done + RowEntries(uris[..j + 1], row) == before;
          continue;
        }
        var info := InfoFor(datasetUri, row);
        assert done + RowEntries(uris[..j + 1], row) == before + [(datasetUri, info)];
        PutAllSnoc(Empty(), before, datasetUri, info);
        dataDict := Put(dataDict, datasetUri, info);
      }
      assert rows[..i + 1][..i] == rows[..i];
      assert uris[..|uris|] == uris;
    }
    assert rows[..|rows|] == rows;
  }

  /** A URI is among the "h5ad" URIs exactly when it is listed and contains "h5ad". */
  lemma {:induction false} H5adUrisMembers(uris: seq<string>, u: string)
    ensures u in H5adUris(uris) <==> u in uris && Contains(u, H5adMarker)
  {
    if uris != [] {
      var n := |uris| - 1;
      H5adUrisMembers(uris[..n], u);
      assert uris == uris[..n] + [uris[n]];
    }
  }

  /** A row's entries are keyed by its "h5ad" URIs and hold that row's record for each. */
  lemma {:induction false} RowEntriesSpec(uris: seq<string>, row: CatalogRow)
    ensures Firsts(RowEntries(uris, row)) == H5adUris(uris)
    ensures forall j :: 0 <= j < |RowEntries(uris, row)| ==>
              RowEntries(uris, row)[j].1 == InfoFor(RowEntries(uris, row)[j].0, row)
  {
    if uris != [] {
      RowEntriesSpec(uris[..|uris| - 1], row);
    }
  }

  /** The catalog's entries are keyed by the catalog's "h5ad" URIs, in order. */
  lemma {:induction false} CatalogEntriesKeys(rows: seq<CatalogRow>)
    ensures Firsts(CatalogEntries(rows)) == CatalogUris(rows)
  {
    if rows != [] {
      var n := |rows| - 1;
      CatalogEntriesKeys(rows[..n]);
      RowEntriesSpec(rows[n].s3Uris, rows[n]);
      var a := CatalogEntries(rows[..n]);
      var b := RowEntries(rows[n].s3Uris, rows[n]);
      assert Firsts(a + b) == Firsts(a) + Firsts(b);
    }
  }

  /** Some row lists `u` among its "S3 URIs". */
  predicate Listed(rows: seq<CatalogRow>, u: string)
  {
    exists i :: 0 <= i < |rows| && u in rows[i].s3Uris
  }

  /** A URI is listed by some row exactly when an earlier row or the last one lists it. */
  lemma ListedSnoc(rows: seq<CatalogRow>, u: string)
    requires rows != []
    ensures Listed(rows, u) <==> Listed(rows[..|rows| - 1], u) || u in rows[|rows| - 1].s3Uris
  {
    var n := |rows| - 1;
    if Listed(rows[..n], u) {
      var i :| 0 <= i < n && u in rows[..n][i].s3Uris;
      assert rows[..n][i] == rows[i];
    }
    if Listed(rows, u) {
      var i :| 0 <= i < |rows| && u in rows[i].s3Uris;
      if i < n {
        assert rows[..n][i] == rows[i];
      }
    }
  }

  /** A URI is in the catalog's "h5ad" URIs exactly when some row lists it and it contains "h5ad". */
  lemma {:induction false} CatalogUrisMembers(rows: seq<CatalogRow>, u: string)
    ensures u in CatalogUris(rows) <==> Contains(u, H5adMarker) && Listed(rows, u)
  {
    if rows != [] {
      var n := |rows| - 1;
      CatalogUrisMembers(rows[..n], u);
      H5adUrisMembers(rows[n].s3Uris, u);
      ListedSnoc(rows, u);
      assert CatalogUris(rows) == CatalogUris(rows[..n]) + H5adUris(rows[n].s3Uris);
    }
  }

  /**
   * The keys of `get_all_data_info` are exactly the listed URIs that contain
   * "h5ad", each once, in the order of their first listing.
   */
  lemma DataInfoKeys(rows: seq<CatalogRow>, u: string)
    ensures DataInfo(rows).keys == Distinct(CatalogUris(rows))
    ensures u in DataInfo(rows).items <==>
              Contains(u, H5adMarker) && Listed(rows, u)
  {
    PutAllKeys(CatalogEntries(rows));
    CatalogEntriesKeys(rows);
    DistinctSpec(CatalogUris(rows));
    CatalogUrisMembers(rows, u);
  }

  /**
   * When a URI is listed in several rows, the record stored for it is built
   * from the last of them.
   */
  lemma {:induction false} DataInfoLastRowWins(rows: seq<CatalogRow>, u: string, i: nat)
    requires i < |rows| && u in rows[i].s3Uris && Contains(u, H5adMarker)
    requires forall l :: i < l < |rows| ==> u !in rows[l].s3Uris
    ensures u in DataInfo(rows).items && DataInfo(rows).items[u] == InfoFor(u, rows[i])
  {
    var n := |rows| - 1;
    DataInfoSnoc(rows);
    if i == n {
      RowEntriesStore(DataInfo(rows[..n]), rows[n].s3Uris, rows[n], u);
    } else {
      assert rows[..n][i] == rows[i];
      DataInfoLastRowWins(rows[..n], u, i);
      RowEntriesSkip(DataInfo(rows[..n]), rows[n].s3Uris, rows[n], u);
    }
  }

  /** The dict of all rows is the dict of all but the last, updated with the last row's entries. */
  lemma DataInfoSnoc(rows: seq<CatalogRow>)
    requires rows != []
    ensures DataInfo(rows) == PutAll(DataInfo(rows[..|rows| - 1]), RowEntries(rows[|rows| - 1].s3Uris, rows[|rows| - 1]))
  {
    var n := |rows| - 1;
    PutAllAppend(Empty(), CatalogEntries(rows[..n]), RowEntries(rows[n].s3Uris, rows[n]));
  }

  /** A row stores its own record for each of its "h5ad" URIs. */
  lemma RowEntriesStore(d: Dict<string, DatasetInfo>, uris: seq<string>, row: CatalogRow, u: string)
    requires u in uris && Contains(u, H5adMarker)
    ensures u in PutAll(d, RowEntries(uris, row)).items && PutAll(d, RowEntries(uris, row)).items[u] == InfoFor(u, row)
  {
    var es := RowEntries(uris, row);
    RowEntriesSpec(uris, row);
    H5adUrisMembers(uris, u);
    var k :| 0 <= k < |H5adUris(uris)| && H5adUris(uris)[k] == u;
    assert es[k].0 == u;
    PutAllSame(d, es, u, InfoFor(u, row));
  }

  /** A row leaves alone every URI it does not list. */
  lemma RowEntriesSkip(d: Dict<string, DatasetInfo>, uris: seq<string>, row: CatalogRow, u: string)
    requires u !in uris
    ensures u in PutAll(d, RowEntries(uris, row)).items <==> u in d.items
    ensures u in d.items ==> PutAll(d, RowEntries(uris, row)).items[u] == d.items[u]
  {
    var es := RowEntries(uris, row);
    RowEntriesSpec(uris, row);
    H5adUrisMembers(uris, u);
    forall j | 0 <= j < |es|
      ensures es[j].0 != u
    {
      assert Firsts(es)[j] in H5adUris(uris);
    }
    PutAllUntouched(d, es, u);
  }

  /**
   * The production URI stored for a key is the key with every
   * "corpora-data-dev" replaced by "corpora-data-prod"; a key without that
   * substring is its own production URI.
   */
  lemma DataInfoProdUri(rows: seq<CatalogRow>, u: string)
    requires u in DataInfo(rows).items
    ensures DataInfo(rows).items[u].datasetUriProd == Replace(u, DevBucket, ProdBucket)
    ensures !Contains(u, DevBucket) ==> DataInfo(rows).items[u].datasetUriProd == u
  {
    DataInfoKeys(rows, u);
    var i := LastRowListing(rows, u);
    DataInfoLastRowWins(rows, u, i);
    if !Contains(u, DevBucket) {
      ReplaceAbsent(u, DevBucket, ProdBucket);
    }
  }

  /** The last row whose "S3 URIs" list holds `u`. */
  function LastRowListing(rows: seq<CatalogRow>, u: string): (i: nat)
    requires Listed(rows, u)
    ensures i < |rows| && u in rows[i].s3Uris
    ensures forall l :: i < l < |rows| ==> u !in rows[l].s3Uris
  {
    var n := |rows| - 1;
    if u in rows[n].s3Uris then n
    else
      ListedSnoc(rows, u);
      LastRowListing(rows[..n], u)
  }

  // ---------------------------------------------------- download_from_s3

  datatype UriError = IndexError

  /**
   * The bucket and key `download_from_s3` derives from an S3 URI: split on
   * "/", the bucket is part 2 and the key is parts 3.. joined by "/". Fewer
   * than three parts raise an IndexError.
   */
  function SplitS3Uri(uri: string): (r: Result<(string, string), UriError>)
    ensures r.Err? <==> |Split(uri, "/")| < 3
    ensures r.Ok? ==> '/' !in r.value.0
  {
    var parts := Split(uri, "/");
    if |parts| < 3 then Err(IndexError)
    else
      SplitPiecesFree(uri, "/");
      ContainsChar(parts[2], '/');
      Ok((parts[2], Join(parts[3..], "/")))
  }

  /**
   * For a URI of four or more "/"-separated parts, the first two parts, the
   * bucket and the key joined with "/" give the URI again; with exactly three
   * parts the key is empty and the first two parts and the bucket give the URI.
   */
  lemma SplitS3UriRebuilds(uri: string)
    requires |Split(uri, "/")| >= 3
    ensures var parts := Split(uri, "/");
            var (bucket, key) := SplitS3Uri(uri).value;
            && bucket == parts[2]
            && (|parts| >= 4 ==> Join([parts[0], parts[1], bucket, key], "/") == uri)
            && (|parts| == 3 ==> key == "" && Join([parts[0], parts[1], bucket], "/") == uri)
  {
    var parts := Split(uri, "/");
    JoinSplit(uri, "/");
    if |parts| >= 4 {
      JoinFirstThree(parts, "/");
    } else {
      assert parts == [parts[0], parts[1], parts[2]];
    }
  }

  /** "scheme://bucket/key", that is the pieces scheme, "", bucket and key joined with "/", splits into that bucket and that key. */
  lemma SplitS3UriOf(scheme: string, bucket: string, key: string)
    requires '/' !in scheme && '/' !in bucket
    ensures SplitS3Uri(Join([scheme, "", bucket, key], "/")) == Ok((bucket, key))
  {
    var pieces := [scheme, "", bucket, key];
    JoinHead(pieces, "/");
    JoinHead(pieces[1..], "/");
    JoinHead(pieces[2..], "/");
    assert pieces[1..][1..] == pieces[2..];
    assert pieces[2..][1..] == [key];
    SplitPeelThree(scheme, "", bucket, key, '/');
    JoinSplit(key, "/");
  }

  /**
   * `download_from_s3(uri, "temp.h5ad")`: the object fetched from the
   * bucket and key of `uri`, or None when the call raises, be it in splitting
   * the URI or in the download itself.
   */
  function Download<B>(uri: string, fetch: (string, string) -> Option<B>): Option<B>
  {
    match SplitS3Uri(uri)
    case Err(_) => None
    case Ok((bucket, key)) => fetch(bucket, key)
  }

  /** A URI "scheme//bucket/key" downloads object `key` of bucket `bucket`. */
  lemma DownloadOf<B>(scheme: string, bucket: string, key: string, fetch: (string, string) -> Option<B>)
    requires '/' !in scheme && '/' !in bucket
    ensures Download(Join([scheme, "", bucket, key], "/"), fetch) == fetch(bucket, key)
  {
    SplitS3UriOf(scheme, bucket, key);
  }

  // ----------------------------------------- apply_function_portal_h5ads

  /** The loop stops after this many successes (`counter > 5` once `counter` reaches 6). */
  const MaxResults: nat := 6

  /** The URIs whose download succeeds, in order. */
  function Downloadable<B>(uris: seq<string>, fetch: (string, string) -> Option<B>): (ds: seq<string>)
    ensures forall k :: 0 <= k < |ds| ==> Download(ds[k], fetch).Some? && ds[k] in uris
  {
    if uris == [] then []
    else
      var n := |uris| - 1;
      Downloadable(uris[..n], fetch) + (if Download(uris[n], fetch).Some? then [uris[n]] else [])
  }

  /** The URIs the loop opens and transforms: the first `MaxResults` downloadable ones. */
  function Processed<B>(uris: seq<string>, fetch: (string, string) -> Option<B>): (ps: seq<string>)
    ensures |ps| <= MaxResults
    ensures forall k :: 0 <= k < |ps| ==> Download(ps[k], fetch).Some? && ps[k] in uris
  {
    var ds := Downloadable(uris, fetch);
    if |ds| <= MaxResults then ds else ds[..MaxResults]
  }

  /** Opening a downloaded object and applying `fun` to it; either step may raise. */
  function Outcome<B, T, R, E>(blob: B, read: B -> Result<T, E>, fun: T -> Result<R, E>): Result<R, E>
  {
    match read(blob)
    case Err(e) => Err(e)
    case Ok(adata) => fun(adata)
  }

  /**
   * Opening and transforming the given downloadable URIs in turn: the first
   * exception ends everything, otherwise each result is stored under its URI.
   */
  function Collect<B, T, R, E>(us: seq<string>, fetch: (string, string) -> Option<B>,
                               read: B -> Result<T, E>, fun: T -> Result<R, E>): (r: Result<Dict<string, R>, E>)
    requires forall k :: 0 <= k < |us| ==> Download(us[k], fetch).Some?
    ensures r.Ok? ==> r.value.Valid()
  {
    if us == [] then Ok(Empty())
    else
      var n := |us| - 1;
      match Collect(us[..n], fetch, read, fun)
      case Err(e) => Err(e)
      case Ok(d) =>
        match Outcome(Download(us[n], fetch).value, read, fun)
        case Err(e) => Err(e)
        case Ok(v) => PutValid(d, us[n], v); Ok(Put(d, us[n], v))
  }

  /** Downloadable URIs of a prefix come first among those of the whole. */
  lemma {:induction false} DownloadableAppend<B>(a: seq<string>, b: seq<string>, fetch: (string, string) -> Option<B>)
    ensures Downloadable(a + b, fetch) == Downloadable(a, fetch) + Downloadable(b, fetch)
    decreases |b|
  {
    if b == [] {
      assert a + b == a;
    } else {
      var n := |b| - 1;
      assert (a + b)[..|a| + n] == a + b[..n];
      DownloadableAppend(a, b[..n], fetch);
    }
  }

  /** An exception among the first URIs is the exception of the whole run. */
  lemma {:induction false} CollectErrPrefix<B, T, R, E>(us: seq<string>, m: nat, fetch: (string, string) -> Option<B>,
                                                        read: B -> Result<T, E>, fun: T -> Result<R, E>)
    requires m <= |us|
    requires forall k :: 0 <= k < |us| ==> Download(us[k], fetch).Some?
    requires Collect(us[..m], fetch, read, fun).Err?
    ensures Collect(us, fetch, read, fun) == Collect(us[..m], fetch, read, fun)
    decreases |us|
  {
    if |us| == m {
      assert us[..m] == us;
    } else {
      var n := |us| - 1;
      assert us[..n][..m] == us[..m];
      CollectErrPrefix(us[..n], m, fetch, read, fun);
    }
  }

  /** A URI whose download fails adds nothing to the downloadable ones. */
  lemma DownloadableSkip<B>(uris: seq<string>, i: nat, fetch: (string, string) -> Option<B>)
    requires i < |uris| && Download(uris[i], fetch).None?
    ensures Downloadable(uris[..i + 1], fetch) == Downloadable(uris[..i], fetch)
  {
    assert uris[..i + 1][..i] == uris[..i];
  }

  /**
   * While fewer than `MaxResults` URIs have downloaded, the next one that
   * downloads is the next one the loop processes.
   */
  lemma DownloadableNext<B>(uris: seq<string>, i: nat, fetch: (string, string) -> Option<B>)
    requires i < |uris| && Download(uris[i], fetch).Some?
    requires |Downloadable(uris[..i], fetch)| < MaxResults
    ensures Downloadable(uris[..i + 1], fetch) == Downloadable(uris[..i], fetch) + [uris[i]]
    ensures |Downloadable(uris[..i + 1], fetch)| <= |Processed(uris, fetch)|
    ensures Downloadable(uris[..i + 1], fetch) == Processed(uris, fetch)[..|Downloadable(uris[..i + 1], fetch)|]
    ensures |Downloadable(uris[..i + 1], fetch)| == MaxResults ==> Downloadable(uris[..i + 1], fetch) == Processed(uris, fetch)
  {
    assert uris[..i + 1][..i] == uris[..i];
    DownloadableAppend(uris[..i + 1], uris[i + 1..], fetch);
    assert uris[..i + 1] + uris[i + 1..] == uris;
  }

  /** Storing the result of one more URI. */
  lemma CollectSnoc<B, T, R, E>(us: seq<string>, u: string, fetch: (string, string) -> Option<B>,
                                read: B -> Result<T, E>, fun: T -> Result<R, E>, d: Dict<string, R>)
    requires forall k :: 0 <= k < |us| ==> Download(us[k], fetch).Some?
    requires Download(u, fetch).Some?
    requires Collect(us, fetch, read, fun) == Ok(d)
    ensures Collect(us + [u], fetch, read, fun) ==
              match Outcome(Download(u, fetch).value, read, fun)
              case Err(e) => Err(e)
              case Ok(v) => Ok(Put(d, u, v))
  {
    assert (us + [u])[..|us|] == us;
  }

  /** An exception on a processed URI is the exception of the whole run. */
  lemma CollectErrAt<B, T, R, E>(uris: seq<string>, i: nat, fetch: (string, string) -> Option<B>,
                                 read: B -> Result<T, E>, fun: T -> Result<R, E>, d: Dict<string, R>, e: E)
    requires i < |uris| && Download(uris[i], fetch).Some?
    requires |Downloadable(uris[..i], fetch)| < MaxResults
    requires Collect(Downloadable(uris[..i], fetch), fetch, read, fun) == Ok(d)
    requires Outcome(Download(uris[i], fetch).value, read, fun) == Err(e)
    ensures Collect(Processed(uris, fetch), fetch, read, fun) == Err(e)
  {
    DownloadableNext(uris, i, fetch);
    var upTo := Downloadable(uris[..i + 1], fetch);
    var all := Processed(uris, fetch);
    CollectSnoc(Downloadable(uris[..i], fetch), uris[i], fetch, read, fun, d);
    CollectErrPrefix(all, |upTo|, fetch, read, fun);
  }

  /** A URI is downloadable exactly when it is listed and its download succeeds. */
  lemma {:induction false} DownloadableMembers<B>(uris: seq<string>, fetch: (string, string) -> Option<B>, u: string)
    ensures u in Downloadable(uris, fetch) <==> u in uris && Download(u, fetch).Some?
  {
    if uris != [] {
      var n := |uris| - 1;
      DownloadableMembers(uris[..n], fetch, u);
      assert uris == uris[..n] + [uris[n]];
    }
  }

  /** Distinct URIs stay distinct once the failed downloads are dropped. */
  lemma {:induction false} DownloadableDistinct<B>(uris: seq<string>, fetch: (string, string) -> Option<B>)
    requires AllDistinct(uris)
    ensures AllDistinct(Downloadable(uris, fetch))
  {
    if uris != [] {
      var n := |uris| - 1;
      assert AllDistinct(uris[..n]);
      DownloadableDistinct(uris[..n], fetch);
      DownloadableMembers(uris[..n], fetch, uris[n]);
    }
  }

  /** Each count up to the number of downloadable URIs is reached by some prefix of the URIs. */
  lemma {:induction false} DownloadableReaches<B>(uris: seq<string>, fetch: (string, string) -> Option<B>, c: nat)
    requires c <= |Downloadable(uris, fetch)|
    ensures exists m :: 0 <= m <= |uris| && |Downloadable(uris[..m], fetch)| == c
  {
    if c == |Downloadable(uris, fetch)| {
      assert uris[..|uris|] == uris;
    } else {
      var n := |uris| - 1;
      DownloadableReaches(uris[..n], fetch, c);
      var m :| 0 <= m <= n && |Downloadable(uris[..n][..m], fetch)| == c;
      assert uris[..n][..m] == uris[..m];
    }
  }

  /**
   * The processed URIs are the downloadable URIs of some prefix of the
   * catalog: either of the whole catalog, or of the shortest prefix holding
   * `MaxResults` of them.
   */
  lemma ProcessedSpec<B>(uris: seq<string>, fetch: (string, string) -> Option<B>)
    ensures exists m :: 0 <= m <= |uris| && Processed(uris, fetch) == Downloadable(uris[..m], fetch)
                        && (m == |uris| || |Processed(uris, fetch)| == MaxResults)
  {
    if |Downloadable(uris, fetch)| <= MaxResults {
      assert uris[..|uris|] == uris;
    } else {
      DownloadableReaches(uris, fetch, MaxResults);
      var m :| 0 <= m <= |uris| && |Downloadable(uris[..m], fetch)| == MaxResults;
      DownloadableAppend(uris[..m], uris[m..], fetch);
      assert uris[..m] + uris[m..] == uris;
    }
  }

  /**
   * `d` lists exactly the URIs `us`, in order, and the value stored for each
   * is what opening it and applying `fun` returned.
   */
  ghost predicate StoresOutcomes<B, T, R, E>(us: seq<string>, d: Dict<string, R>, fetch: (string, string) -> Option<B>,
                                             read: B -> Result<T, E>, fun: T -> Result<R, E>)
    requires forall k :: 0 <= k < |us| ==> Download(us[k], fetch).Some?
  {
    && d.keys == us
    && forall k :: 0 <= k < |us| ==>
         us[k] in d.items && Outcome(Download(us[k], fetch).value, read, fun) == Ok(d.items[us[k]])
  }

  /**
   * A run that ends normally stores one entry per processed URI, in order,
   * and the value stored for each is what opening it and applying `fun`
   * returned.
   */
  lemma {:induction false} CollectOk<B, T, R, E>(us: seq<string>, fetch: (string, string) -> Option<B>,
                                                 read: B -> Result<T, E>, fun: T -> Result<R, E>, d: Dict<string, R>)
    requires forall k :: 0 <= k < |us| ==> Download(us[k], fetch).Some?
    requires AllDistinct(us)
    requires Collect(us, fetch, read, fun) == Ok(d)
    ensures StoresOutcomes(us, d, fetch, read, fun)
  {
    if us != [] {
      var n := |us| - 1;
      var prev, v := CollectLast(us, fetch, read, fun, d);
      assert AllDistinct(us[..n]);
      CollectOk(us[..n], fetch, read, fun, prev);
      assert us[n] !in us[..n];
      CollectOkStep(us, fetch, read, fun, prev, v);
    }
  }

  /** A run that ends normally over a non-empty list ended normally on all but the last URI, then stored its result. */
  lemma CollectLast<B, T, R, E>(us: seq<string>, fetch: (string, string) -> Option<B>,
                                read: B -> Result<T, E>, fun: T -> Result<R, E>, d: Dict<string, R>)
    returns (prev: Dict<string, R>, v: R)
    requires us != [] && forall k :: 0 <= k < |us| ==> Download(us[k], fetch).Some?
    requires Collect(us, fetch, read, fun) == Ok(d)
    ensures Collect(us[..|us| - 1], fetch, read, fun) == Ok(prev) && prev.Valid()
    ensures Outcome(Download(us[|us| - 1], fetch).value, read, fun) == Ok(v)
    ensures d == Put(prev, us[|us| - 1], v)
  {
    var n := |us| - 1;
    prev := Collect(us[..n], fetch, read, fun).value;
    v := Outcome(Download(us[n], fetch).value, read, fun).value;
  }

  /** Storing the outcome of one more, new URI extends what is stored. */
  lemma CollectOkStep<B, T, R, E>(us: seq<string>, fetch: (string, string) -> Option<B>,
                                  read: B -> Result<T, E>, fun: T -> Result<R, E>, d: Dict<string, R>, v: R)
    requires us != [] && forall k :: 0 <= k < |us| ==> Download(us[k], fetch).Some?
    requires us[|us| - 1] !in us[..|us| - 1]
    requires d.Valid() && StoresOutcomes(us[..|us| - 1], d, fetch, read, fun)
    requires Outcome(Download(us[|us| - 1], fetch).value, read, fun) == Ok(v)
    ensures StoresOutcomes(us, Put(d, us[|us| - 1], v), fetch, read, fun)
  {
    var n := |us| - 1;
    var d' := Put(d, us[n], v);
    assert d'.keys == us[..n] + [us[n]] == us;
    forall k | 0 <= k < |us|
      ensures us[k] in d'.items && Outcome(Download(us[k], fetch).value, read, fun) == Ok(d'.items[us[k]])
    {
      if k < n {
        assert us[..n][k] == us[k];
      }
    }
  }


  /**
   * A run that raises raises the exception of the first processed URI whose
   * opening or transform fails; all URIs before it went through.
   */
  lemma {:induction false} CollectErr<B, T, R, E>(us: seq<string>, fetch: (string, string) -> Option<B>,
                                                  read: B -> Result<T, E>, fun: T -> Result<R, E>)
    returns (k: nat)
    requires forall k :: 0 <= k < |us| ==> Download(us[k], fetch).Some?
    requires Collect(us, fetch, read, fun).Err?
    ensures k < |us|
    ensures Outcome(Download(us[k], fetch).value, read, fun) == Err(Collect(us, fetch, read, fun).error)
    ensures Collect(us[..k], fetch, read, fun).Ok?
  {
    var n := |us| - 1;
    if Collect(us[..n], fetch, read, fun).Err? {
      k := CollectErr(us[..n], fetch, read, fun);
      assert us[..n][..k] == us[..k];
      assert us[..n][k] == us[k];
    } else {
      k := n;
    }
  }

  /**
   * What `apply_function_portal_h5ads` returns when it ends normally: at
   * most `MaxResults` entries, keyed by catalog URIs whose download
   * succeeded, in catalog order, each holding `fun` of the opened dataset.
   */
  lemma ApplyResults<B, T, R, E>(rows: seq<CatalogRow>, fetch: (string, string) -> Option<B>,
                                 read: B -> Result<T, E>, fun: T -> Result<R, E>, d: Dict<string, R>)
    requires Collect(Processed(DataInfo(rows).keys, fetch), fetch, read, fun) == Ok(d)
    ensures d.keys == Processed(DataInfo(rows).keys, fetch)
    ensures |d.keys| <= MaxResults
    ensures forall u :: u in d.items ==>
              && u in DataInfo(rows).items
              && Download(u, fetch).Some?
              && Outcome(Download(u, fetch).value, read, fun) == Ok(d.items[u])
  {
    var ps := Processed(DataInfo(rows).keys, fetch);
    ProcessedFromCatalog(rows, fetch);
    CollectOk(ps, fetch, read, fun, d);
    forall u | u in d.items
      ensures u in DataInfo(rows).items && Download(u, fetch).Some?
              && Outcome(Download(u, fetch).value, read, fun) == Ok(d.items[u])
    {
      var k :| 0 <= k < |ps| && ps[k] == u;
    }
  }

  /** The processed URIs are distinct keys of the catalog dict. */
  lemma ProcessedFromCatalog<B>(rows: seq<CatalogRow>, fetch: (string, string) -> Option<B>)
    ensures AllDistinct(Processed(DataInfo(rows).keys, fetch))
    ensures forall k :: 0 <= k < |Processed(DataInfo(rows).keys, fetch)| ==>
              Processed(DataInfo(rows).keys, fetch)[k] in DataInfo(rows).items
  {
    var keys := DataInfo(rows).keys;
    var ps := Processed(keys, fetch);
    var ds := Downloadable(keys, fetch);
    DownloadableDistinct(keys, fetch);
    if |ds| > MaxResults {
      assert forall k :: 0 <= k < |ps| ==> ps[k] == ds[k];
    }
  }

  /**
   * `apply_function_portal_h5ads`: for each catalog URI in order, download it
   * to the scratch file (a failure is logged and skipped), open it, apply
   * `fun`, store the result under the URI and remove the scratch file; stop
   * after the sixth success. Opening and `fun` are not guarded: their
   * exception ends the run, leaving the scratch file behind.
   */
  method ApplyFunctionPortalH5ads<B, T, R, E>(raws: seq<RawRow>, fetch: (string, string) -> Option<B>,
                                              read: B -> Result<T, E>, fun: T -> Result<R, E>)
    returns (results: Result<Dict<string, R>, E>, ghost scratchPresent: bool)
    ensures results == Collect(Processed(DataInfo(Catalog(raws)).keys, fetch), fetch, read, fun)
    ensures scratchPresent <==> results.Err?
  {
    var dataInfo := GetAllDataInfo(raws);
    var uris := dataInfo.keys;
    var res: Dict<string, R> := Empty();
    var counter := 1;
    scratchPresent := false;
    var i := 0;
    while i < |uris|
      invariant 0 <= i <= |uris|
      invariant counter == |Downloadable(uris[..i], fetch)| + 1 <= MaxResults
      invariant Collect(Downloadable(uris[..i], fetch), fetch, read, fun) == Ok(res)
      invariant !scratchPresent
    {
      var devUri := uris[i];
      var blob := Download(devUri, fetch);
      if blob.None? {
        DownloadableSkip(uris, i, fetch);
        i := i + 1;
        continue;
      }
      scratchPresent := true;
      DownloadableNext(uris, i, fetch);
      var adata := read(blob.value);
      if adata.Err? {
        CollectErrAt(uris, i, fetch, read, fun, res, adata.error);
        results := Err(adata.error);
        return;
      }
      var value := fun(adata.value);
      if value.Err? {
        CollectErrAt(uris, i, fetch, read, fun, res, value.error);
        results := Err(value.error);
        return;
      }
      CollectSnoc(Downloadable(uris[..i], fetch), devUri, fetch, read, fun, res);
      res := Put(res, devUri, value.value);
      scratchPresent := false;
      if counter > 5 {
        break;
      }
      counter := counter + 1;
      i := i + 1;
    }
    if i == |uris| {
      assert uris[..i] == uris;
    }
    results := Ok(res);
  }
}
