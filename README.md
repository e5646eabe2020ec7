# cellxgene-data-analyses in Dafny

A model of the batch scripts of `cellxgene-data-analyses`. The scripts walk the CZ CELLxGENE Discover
dataset catalog and process every `.h5ad` dataset listed in it.

- `cellxgene_apply.py` does three things:
  - it reads the catalog table into a dict keyed by S3 URI (`get_all_data_info` and its `converter_fun`);
  - it splits an S3 URI into bucket and key (`download_from_s3`);
  - it downloads, opens and transforms the datasets one after another (`apply_function_portal_h5ads`). Download failures are skipped. The loop stops after six successes.
- `get_cat_per_dataset.py` counts the categorical obs columns of each dataset (`count_categories_h5ad`). It then gathers the per-dataset counts into parallel lists and builds a `Counter` histogram of category counts, ordered by `most_common`.
- `get_all_obs_standard.py` does the following:
  - it keeps only the obs columns of the standard schema, a fixed list of 19 names;
  - it drops repeated rows and resets the index;
  - it tags every table with its URI in an `explorer_url` column;
  - it stacks the tables with `pd.concat(..., ignore_index=True)`.
- `get_all_obs.py` drops the categorical obs columns that declare more than `max_categories` (default 1000) categories. It then drops repeated rows, resets the index and stacks the tables, keeping their labels.

Files:

| file | module | contents |
|---|---|---|
| `wrappers.dfy` | `Wrappers` | `Option`, `Result` |
| `seqs.dfy` | `Seqs` | distinctness, keep-first deduplication, flatten, sum |
| `strings.dfy` | `Strings` | Python `in`, `split`, `join`, `replace`, `strip(chars)` |
| `dicts.dfy` | `Dicts` | an insertion-ordered Python `dict` |
| `tables.dfy` | `Tables` | an obs data frame; `AnnData` as a class whose `obs` field is reassigned; `drop(columns=)`, `drop_duplicates`, `reset_index`, `df[name] = v`, `pd.concat` |
| `cellxgene_apply.dfy` | `CellxgeneApply` | catalog reading, URI split, the apply loop |
| `get_cat_per_dataset.dfy` | `GetCatPerDataset` | the counting loop, aggregation, `Counter` / `most_common` |
| `get_all_obs_standard.dfy` | `GetAllObsStandard` | allow-list filter, tagging, stacking |
| `get_all_obs.dfy` | `GetAllObs` | cardinality filter, stacking |

The loops of the source are `method`s with loop invariants. Each method is proved equal to a specification function, and the lemmas state what that function means:
- `GetAllDataInfo` and `ApplyFunctionPortalH5ads`;
- `CountCategoriesH5ad` and `Aggregate`;
- both `MakeAllObs`, and `TagExplorerUrl`.

Only the outside world is abstract:
- the S3 download is a parameter `fetch: (bucket, key) -> Option<Blob>`, where `None` stands for any exception the download raises;
- `ad.read` is a parameter `read: Blob -> Result<Frame, E>`, which delivers the dataset's obs table or the exception it raised;
- the per-dataset function is `fun: T -> Result<R, E>`.

The ghost out-parameter `scratchPresent` records whether `temp.h5ad` is left on disk.

Where the code and its design notes disagree, the model follows the code:
- **Only a download failure is skipped.** The `try` at `cellxgene_apply.py:44-48` covers only the download. An exception from `ad.read` or from `fun` ends the whole run, and `temp.h5ad` is then not removed. `Collect` and `ApplyFunctionPortalH5ads` model exactly this.
- **The run stops after six results.** `counter` starts at 1, grows only after a success, and the loop breaks once `counter > 5` after storing a result.
- **The catalog is a tab-separated table.** It is read row by row. When a URI is listed in several rows, the last row's fields win (`DataInfoLastRowWins`).
- **An IndexError is skipped.** A URI with fewer than three `/`-separated parts raises IndexError inside the `try`, so it is skipped like a failed download.

## Model

| member | source | states |
|---|---|---|
| CellxgeneApply.ConvertList | cellxgene_apply.py:85 | the parsed list is never empty |
| CellxgeneApply.ConvertListPieces | cellxgene_apply.py:85 | no element of the parsed list holds a quote or the ", " separator |
| CellxgeneApply.ConvertListJoin | cellxgene_apply.py:85 | joining the parsed list with ", " gives the input with brackets stripped from both ends and every quote deleted |
| CellxgeneApply.ConvertEmptyList | cellxgene_apply.py:85 | "[]" is read as [""] |
| CellxgeneApply.ReadRow | cellxgene_apply.py:87-97 | the four list-valued columns are converted by `converter_fun` and none is empty |
| CellxgeneApply.ReadRowUris | cellxgene_apply.py:87-97 | the "S3 URIs" list of a read row joins back with ", " to the cell's text without brackets and quotes |
| CellxgeneApply.Catalog | cellxgene_apply.py:87-99 | `pd.read_csv` yields one converted row per raw row |
| CellxgeneApply.CatalogAt | cellxgene_apply.py:87-99 | row i of the catalog is raw row i read through the converters, so the file order is kept |
| CellxgeneApply.DataInfo | cellxgene_apply.py:99-123 | the catalog dict is well formed: keys distinct and in step with the map |
| CellxgeneApply.GetAllDataInfo | cellxgene_apply.py:87-123 | reading the raw catalog rows through the converters and running the loops gives exactly the dict `DataInfo` describes for the read rows |
| CellxgeneApply.StoreRows | cellxgene_apply.py:101-123 | the nested loops over the read rows fill exactly the dict `DataInfo` describes |
| CellxgeneApply.InfoFor | cellxgene_apply.py:110-121 | the record stored for a URI: its prod URI and the listing row's fields (definition; `DataInfoProdUri` and `DataInfoLastRowWins` state what it holds) |
| CellxgeneApply.H5adUrisMembers | cellxgene_apply.py:105-108 | a URI passes the row filter iff it is listed in the row and contains "h5ad" |
| CellxgeneApply.RowEntriesSpec | cellxgene_apply.py:105-121 | a row contributes one entry per listed h5ad URI, in order, each built from that row |
| CellxgeneApply.CatalogEntriesKeys | cellxgene_apply.py:101-110 | the keys written are the rows' h5ad URIs, row after row |
| CellxgeneApply.CatalogUrisMembers | cellxgene_apply.py:101-110 | a URI is written iff it contains "h5ad" and some row lists it |
| CellxgeneApply.DataInfoKeys | cellxgene_apply.py:101-110 | the dict's keys are the h5ad URIs of all rows in first-appearance order, and a URI is a key iff it contains "h5ad" and some row lists it |
| CellxgeneApply.DataInfoLastRowWins | cellxgene_apply.py:110-121 | the record stored for a URI is built from the last row that lists it |
| CellxgeneApply.DataInfoSnoc | cellxgene_apply.py:101-121 | one more row stores its h5ad entries on top of the dict built so far |
| CellxgeneApply.RowEntriesStore | cellxgene_apply.py:105-121 | after a row is processed, each of its h5ad URIs holds that row's record |
| CellxgeneApply.RowEntriesSkip | cellxgene_apply.py:105-121 | a row leaves the URIs it does not list untouched |
| CellxgeneApply.DataInfoProdUri | cellxgene_apply.py:111-113 | `dataset_uri_prod` is the key with every "corpora-data-dev" replaced by "corpora-data-prod", and equals the key when the key holds none |
| CellxgeneApply.LastRowListing | cellxgene_apply.py:101-121 | the last row that lists a URI: it lists it and no later row does |
| CellxgeneApply.SplitS3Uri | cellxgene_apply.py:128-130 | IndexError iff the URI has fewer than three "/"-parts, and the bucket holds no "/" |
| CellxgeneApply.SplitS3UriRebuilds | cellxgene_apply.py:128-130 | the bucket is part 2, and parts 0 and 1, the bucket and the key joined by "/" rebuild the URI |
| CellxgeneApply.SplitS3UriOf | cellxgene_apply.py:128-130 | "scheme//bucket/key" splits into exactly that bucket and key |
| CellxgeneApply.Download | cellxgene_apply.py:126-132 | `download_from_s3` inside the `try`: None when the URI split raises IndexError or the download raises, else the fetched object (definition) |
| CellxgeneApply.DownloadOf | cellxgene_apply.py:126-132 | a URI "scheme//bucket/key" downloads object `key` of bucket `bucket` |
| CellxgeneApply.Outcome | cellxgene_apply.py:51-53 | `ad.read` then `fun`, the first exception of either being the outcome (definition) |
| CellxgeneApply.Downloadable | cellxgene_apply.py:40-48 | the URIs kept after skipping failed downloads all downloaded and come from the catalog |
| CellxgeneApply.Processed | cellxgene_apply.py:37-58 | at most six URIs are processed, each downloadable and from the catalog |
| CellxgeneApply.Collect | cellxgene_apply.py:51-53 | a run that raises nothing yields a well-formed results dict |
| CellxgeneApply.DownloadableAppend | cellxgene_apply.py:40-48 | the skip filter works piece by piece |
| CellxgeneApply.DownloadableSkip | cellxgene_apply.py:44-48 | a failed download adds nothing |
| CellxgeneApply.DownloadableNext | cellxgene_apply.py:44-58 | a successful download before the sixth success extends the processed prefix by that URI, and the sixth completes it |
| CellxgeneApply.CollectSnoc | cellxgene_apply.py:51-53 | one more processed URI either raises its exception or stores its result |
| CellxgeneApply.CollectErrPrefix | cellxgene_apply.py:51-53 | once an exception is raised, later URIs change nothing |
| CellxgeneApply.CollectErrAt | cellxgene_apply.py:51-53 | an exception on a processed URI is the exception of the whole run |
| CellxgeneApply.DownloadableMembers | cellxgene_apply.py:40-48 | a URI survives the skip filter iff it is in the catalog and its download succeeds |
| CellxgeneApply.DownloadableDistinct | cellxgene_apply.py:40-48 | no URI is processed twice |
| CellxgeneApply.DownloadableReaches | cellxgene_apply.py:40-58 | every count of successes up to the total is reached at some point of the loop |
| CellxgeneApply.ProcessedSpec | cellxgene_apply.py:40-58 | the processed URIs are the downloadable ones of a prefix of the catalog, which is all of it unless six were processed |
| CellxgeneApply.CollectOk | cellxgene_apply.py:51-53 | a run that ends normally stores one entry per processed URI, in order, holding `fun` of the opened dataset |
| CellxgeneApply.CollectErr | cellxgene_apply.py:51-53 | a run that raises raises the exception of the first processed URI whose opening or transform raised |
| CellxgeneApply.ApplyResults | cellxgene_apply.py:34-60 | the results have at most six keys, all catalog URIs whose download succeeded, each holding `fun` of its dataset |
| CellxgeneApply.ProcessedFromCatalog | cellxgene_apply.py:34-40 | the processed URIs are distinct keys of the catalog dict |
| CellxgeneApply.ApplyFunctionPortalH5ads | cellxgene_apply.py:14-60 | the loop returns what `Collect` over the processed URIs gives, and leaves the scratch file on disk iff it raised |
| GetCatPerDataset.CountCategoriesH5ad | get_cat_per_dataset.py:55-86 | the loop over obs columns computes `CategoryCountsOf` the columns |
| GetCatPerDataset.PerColumnCounts | get_cat_per_dataset.py:65-75 | `n_categories_per_column` lists the category counts of the counted columns (categorical, no "ontology_term_id" in the name), in order |
| GetCatPerDataset.OneOrMore | get_cat_per_dataset.py:81-84 | two-or-more is the number of counted columns with more than one category, and one plus two-or-more is the number of counted columns |
| GetCatPerDataset.Max | get_cat_per_dataset.py:77-79 | a reference maximum: an upper bound that is 0 or an element |
| GetCatPerDataset.LargestIsMax | get_cat_per_dataset.py:77-79 | `largest_category_n` is the largest count, 0 when there is none |
| GetCatPerDataset.SkippedColumnsIgnored | get_cat_per_dataset.py:65-70 | the ontology-id and non-categorical columns do not affect any result |
| GetCatPerDataset.CountedBelowLargest | get_cat_per_dataset.py:77-79 | no counted column has more categories than `largest_category_n` |
| GetCatPerDataset.LabelIsFirstLargest | get_cat_per_dataset.py:57-79 | the label is unset iff the largest count is 0, and otherwise names the first counted column with the largest count |
| GetCatPerDataset.PerColumnLists | get_cat_per_dataset.py:39 | one per-column list per result |
| GetCatPerDataset.Aggregate | get_cat_per_dataset.py:14-39 | the parallel lists follow the results' key order field by field, and `n_cat_per_column` is all per-column lists concatenated in that order |
| GetCatPerDataset.Occurrences | get_cat_per_dataset.py:41 | a reference count: positive iff the value occurs |
| GetCatPerDataset.Tally | get_cat_per_dataset.py:41 | `Counter(n_cat_per_column)`, built one `counter[x] += 1` at a time (definition; `TallyKeys`, `TallyCounts` and `CountersTotal` state what it holds) |
| GetCatPerDataset.TallyKeys | get_cat_per_dataset.py:41 | the `Counter`'s keys are the distinct values in first-appearance order |
| GetCatPerDataset.TallyCounts | get_cat_per_dataset.py:41 | a value is counted iff it occurs, and its count is its number of occurrences |
| GetCatPerDataset.MostCommon | get_cat_per_dataset.py:42 | `most_common()` as a stable sort of the items by count, largest first (definition; `SortByCountSpec` and `Histogram` state what it holds) |
| GetCatPerDataset.InsertByCountEntries | get_cat_per_dataset.py:42 | inserting into the ordering neither loses nor adds entries |
| GetCatPerDataset.InsertByCountSorted | get_cat_per_dataset.py:42 | inserting keeps the counts non-increasing |
| GetCatPerDataset.SortByCountSpec | get_cat_per_dataset.py:42 | `most_common` ordering is a permutation with non-increasing counts |
| GetCatPerDataset.SumCountsInsert | get_cat_per_dataset.py:42 | inserting an entry adds its count to the total |
| GetCatPerDataset.SumCountsSort | get_cat_per_dataset.py:42 | ordering keeps the total count |
| GetCatPerDataset.SumCountsUpdate | get_cat_per_dataset.py:41 | replacing an entry changes the total by the difference of counts |
| GetCatPerDataset.CountOneTotal | get_cat_per_dataset.py:41 | counting one more value raises the sum of the counts by exactly one |
| GetCatPerDataset.CountersTotal | get_cat_per_dataset.py:41 | the counts of the `Counter` add up to the number of values |
| GetCatPerDataset.Histogram | get_cat_per_dataset.py:41-42 | `most_common` has one entry per distinct value, holding its number of occurrences, with non-increasing counts summing to the number of values |
| GetCatPerDataset.CatalogCounts | get_cat_per_dataset.py:7-11 | the results of the apply loop with `count_categories_h5ad`; when no exception is raised they form a well-formed dict |
| GetCatPerDataset.FinalResultsOfFields | get_cat_per_dataset.py:14-37 | lists holding each result's fields in key order are exactly `final_results` |
| GetCatPerDataset.SummaryOfSpec | get_cat_per_dataset.py:14-42 | the k-th entry of each parallel list is the k-th result's field, and the histogram lists each category count found in any dataset's columns once, with its number of columns, largest number first, the numbers adding up to the number of columns counted |
| GetCatPerDataset.Summarize | get_cat_per_dataset.py:7-45 | `main` fails iff the apply loop raised (leaving the scratch file), and otherwise returns `SummaryOf` the results: the parallel lists of the processed URIs (at most six) and `most_common` of the `Counter` of all per-column counts |
| GetAllObsStandard.MakeAllObs | get_all_obs_standard.py:23-56 | the loop collects the out-of-schema names, `adata.obs` is replaced by the table without them, and the deduplicated, re-indexed table is returned |
| GetAllObsStandard.NonStandardNamesMembers | get_all_obs_standard.py:48-52 | a name is dropped iff some column has it and it is not one of the 19 schema names |
| GetAllObsStandard.KeptStandard | get_all_obs_standard.py:49-54 | dropping exactly the out-of-schema names keeps exactly the schema columns, in order |
| GetAllObsStandard.StandardOnlyMembers | get_all_obs_standard.py:25-52 | the schema filter keeps a column iff its name is on the list |
| GetAllObsStandard.StandardObs | get_all_obs_standard.py:48-54 | `adata.obs` after dropping the collected names (definition; `StandardObsColumns` states what it keeps) |
| GetAllObsStandard.StandardObsColumns | get_all_obs_standard.py:25-54 | after the drop, the columns are exactly the input columns with a schema name, in input order, and the row labels are unchanged |
| GetAllObsStandard.MakeAllObsSpec | get_all_obs_standard.py:56 | the result has one row per distinct row of the schema columns, in first-occurrence order and no more rows than the input, with an "index" column holding the original label of that first occurrence; with no schema column left, every row is kept |
| GetAllObsStandard.Tagged | get_all_obs_standard.py:15-16 | tagging keeps the keys in order |
| GetAllObsStandard.TagExplorerUrl | get_all_obs_standard.py:15-16 | the loop sets `explorer_url` of every result table to that table's key |
| GetAllObsStandard.TagSpec | get_all_obs_standard.py:16 | setting `explorer_url` keeps the row labels, adds or replaces the column, and holds the URI in every row |
| GetAllObsStandard.TaggedValues | get_all_obs_standard.py:15-18 | after tagging, the dict's values are the tables tagged with their own keys, in key order |
| GetAllObsStandard.BigObsSpec | get_all_obs_standard.py:18 | stacking fails iff there are no results; otherwise the row count is the sum of the per-result row counts, the rows are numbered from 0, and `explorer_url` is a column |
| GetAllObsStandard.BigObsRowUrl | get_all_obs_standard.py:15-18 | row k of the i-th result lands after the rows of the earlier results and carries the i-th URI under `explorer_url` |
| GetAllObsStandard.StackAllObs | get_all_obs_standard.py:7-20 | `main` raises iff the apply loop raised, fails to stack iff nothing was processed, and otherwise returns the stacked tagged tables of the processed URIs |
| GetAllObs.MakeAllObs | get_all_obs.py:18-34 | the loop collects the names of categorical columns with more than `max_categories` categories, `adata.obs` is replaced by the table without them, and the deduplicated, re-indexed table is returned |
| GetAllObs.WideNamesMembers | get_all_obs.py:21-30 | a name is dropped iff a categorical column with more than `max_categories` categories has it |
| GetAllObs.KeptNarrow | get_all_obs.py:21-32 | when a column's name is dropped exactly when the column is too wide, the drop keeps exactly the other columns, in order |
| GetAllObs.ObsWithin | get_all_obs.py:32 | `adata.obs` after dropping the collected names (definition; `ObsWithinColumns` states what it keeps) |
| GetAllObs.ObsWithinColumns | get_all_obs.py:24-32 | no surviving column is too wide, and a column survives iff no too-wide column shares its name, so non-categorical columns and those with at most `max_categories` categories stay unless such a name clash exists |
| GetAllObs.ObsWithinDistinctNames | get_all_obs.py:24-32 | with distinct column names, the survivors are exactly the columns that are not too wide, in input order |
| GetAllObs.DefaultThresholdExample | get_all_obs.py:18-32 | with the default 1000, a 1200-category column goes, and a 3-category one and one with exactly 1000 stay |
| GetAllObs.MakeAllObsSpec | get_all_obs.py:34 | the result has one row per distinct row of the surviving columns, in first-occurrence order and no more rows than the input, with an "index" column holding the original label; with no column left, every row is kept |
| GetAllObs.BigObsSpec | get_all_obs.py:15 | stacking fails iff there are no results, and otherwise has as many rows as all results together |
| GetAllObs.BigObsRowLabel | get_all_obs.py:15 | row k of the i-th result keeps its label after the rows of the earlier results, so labels restart at 0 for every dataset |
| GetAllObs.StackAllObs | get_all_obs.py:7-15 | `main` raises iff the apply loop raised, fails to stack iff nothing was processed, and otherwise returns the stacked tables of the processed URIs |
| Strings.Split | cellxgene_apply.py:128 | `str.split(sep)` never returns an empty list |
| Strings.SplitPiecesFree | cellxgene_apply.py:85 | no piece of a split holds the separator |
| Strings.JoinSplit | cellxgene_apply.py:130 | joining the pieces with the separator gives back the string |
| Strings.SplitKeepsChars | cellxgene_apply.py:85 | a character absent from the string is absent from every piece |
| Strings.FindFirst | cellxgene_apply.py:85 | the leftmost occurrence of the pattern, or none iff it does not occur |
| Strings.Replace | cellxgene_apply.py:111-113 | `str.replace`: each leftmost non-overlapping occurrence replaced (definition) |
| Strings.ReplaceJoinSplit | cellxgene_apply.py:85 | `s.replace(p, w)` equals `w.join(s.split(p))` |
| Strings.DeleteChar | cellxgene_apply.py:85 | `replace("'", "")` removes every quote and keeps every other character |
| Strings.StripLeft | cellxgene_apply.py:85 | the removed prefix is all stripped characters and the result does not start with one |
| Strings.StripRight | cellxgene_apply.py:85 | the removed suffix is all stripped characters and the result does not end with one |
| Strings.Strip | cellxgene_apply.py:85 | `strip("[]")` removes bracket characters from both ends and no more |
| Dicts.PutValid | cellxgene_apply.py:110 | `d[k] = v` keeps a well-formed dict and maps k to v |
| Dicts.PutAllKeys | cellxgene_apply.py:110 | the keys of a dict filled entry by entry are the distinct keys in first-insertion order |
| Dicts.PutAllLastWins | cellxgene_apply.py:110 | a key holds the value of its last assignment |
| Dicts.PutAllKeysFromEntries | cellxgene_apply.py:110 | a key is present iff some entry assigned it |
| Dicts.PutAllAppend | cellxgene_apply.py:101-110 | filling with two runs of entries is filling with the first and then the second |
| Dicts.PutAllUntouched | cellxgene_apply.py:105-110 | keys not assigned keep their presence and value |
| Dicts.PutAllSame | cellxgene_apply.py:105-110 | a key every assignment of which writes v holds v |
| Dicts.ItemsPutNew | get_cat_per_dataset.py:41 | storing under a new key appends the pair to `items()` |
| Dicts.ItemsPutOld | get_cat_per_dataset.py:41 | storing under a present key replaces its pair in place |
| Seqs.FirstOccurrencesMembers | get_all_obs.py:34 | a position is kept by keep-first deduplication iff its value did not occur before |
| Seqs.DistinctSpec | get_all_obs.py:34 | keep-first deduplication has no repeats, keeps exactly the values, each at its first occurrence, and is no longer |
| Seqs.DistinctSnoc | get_cat_per_dataset.py:41 | a new value extends the deduplicated sequence, a repeated one does not |
| Seqs.FlattenLength | get_cat_per_dataset.py:39 | the length of the extended list is the sum of the lengths |
| Tables.KeptMembers | get_all_obs.py:32 | `drop(columns=names)` keeps exactly the columns whose name is not listed |
| Tables.KeptAppend | get_all_obs.py:32 | dropping works piece by piece, so the order is kept |
| Tables.KeptNone | get_all_obs.py:32 | dropping names no column has changes nothing |
| Tables.DropColumns | get_all_obs.py:32 | dropping columns keeps the row labels |
| Tables.DropDuplicates | get_all_obs.py:34 | `drop_duplicates()` keeps the column names |
| Tables.DropDuplicatesSpec | get_all_obs.py:34 | `drop_duplicates()` keeps the first row of each distinct row with its label, so the rows are distinct, the same rows occur and there are no more than before; a table with no columns comes back unchanged |
| Tables.ResetIndex | get_all_obs.py:34 | `reset_index()` prepends the labels as an "index" column and relabels from 0 |
| Tables.ResetIndexRows | get_all_obs.py:34 | a reset row is the old label followed by the old row |
| Tables.DedupResetSpec | get_all_obs_standard.py:56 | `drop_duplicates().reset_index()` gives one row per distinct row, in first-occurrence order, led by its original label; a table with no columns keeps all its rows |
| Tables.SetColumn | get_all_obs_standard.py:16 | `df[name] = v` keeps the row labels |
| Tables.SetNewColumn | get_all_obs_standard.py:16 | setting a new column appends it, holding the value in every row |
| Tables.SetColumnValues | get_all_obs_standard.py:16 | after `df[name] = v` every column called name holds v in every row and the other columns are unchanged |
| Tables.Concat | get_all_obs_standard.py:18 | `pd.concat` fails iff the list is empty, and otherwise has as many rows as all tables together |
| Tables.TotalHeightIsSum | get_all_obs_standard.py:18 | that row count is the sum of the tables' row counts |
| Tables.ConcatColumn | get_all_obs_standard.py:18 | a column name of any table is a column of the result, holding each table's cells under that name in turn |
| Tables.ConcatValuesAt | get_all_obs_standard.py:18 | row k of table i is row (rows of earlier tables) + k of the result |
| Tables.ConcatColumnAt | get_all_obs_standard.py:18 | under a column that table i has, row k of table i reappears at row (rows of earlier tables) + k of the result |
| Tables.ConcatIndexAt | get_all_obs.py:15 | without `ignore_index`, that row keeps its own label |

## Left out

- The S3 download (`boto3`, `cellxgene_apply.py:11,132`) is the parameter `fetch`. Writing `temp.h5ad` and `os.remove` are not file I/O: the ghost flag `scratchPresent` records only whether the file is left behind.
- `ad.read` and the HDF5 format are the parameter `read`. It delivers the obs table (`adata.obs`), the only part of an AnnData the scripts touch. In the composed `main`s, `make_all_obs` and `count_categories_h5ad` take that table. The class-based `MakeAllObs` and `CountCategoriesH5ad` take the `AnnData` object itself.
- `pd.read_csv` tokenising and type conversion are left out. The catalog arrives as rows of named text fields (`RawRow`). `GetAllDataInfo` takes these rows, and `Catalog` reads each one through `ReadRow`, which applies `converter_fun` to the four list columns. The scripts pass a `.json` path to the tab-separated reader. That mismatch is library behaviour and is not modelled.
- Logging, writing the TSV and gzip outputs, and renaming the histogram columns are left out (`cellxgene_apply.py:8-10,42,47,50`, `get_cat_per_dataset.py:43-52`, `get_all_obs_standard.py:20`).
- Cells are text, integers, booleans or missing. Floating-point cells and the dtype that `pd.concat` infers are not modelled. Concatenated columns are not categorical.
- GetAllObs.MakeAllObs, GetCatPerDataset.CountCategoriesH5ad: with a duplicated obs column name, `adata.obs[column]` is a DataFrame, and its missing `.dtype` raises AttributeError (`get_all_obs.py:24`, `get_cat_per_dataset.py:70`; in the latter only for names without "ontology_term_id"). That exception ends the whole run. The model reads each column by itself and raises nothing, so for such tables it returns a result where the scripts stop. The name-clash clause of `GetAllObs.ObsWithinColumns` therefore describes tables the script never gets past. `get_all_obs_standard.py` only compares names and handles such tables.
- `reset_index()` on a table that already has an "index" column would name the new column "level_0". The model always uses "index".
- `largest_category_label` starts as the integer 0 in the source. The model uses `NoLabel` for it.
- GetCatPerDataset.MostCommon: CPython orders equal counts by first appearance. The model does the same, with a stable insertion sort, but the lemmas claim only non-increasing counts and a permutation, which is what `Counter.most_common` documents.
- CellxgeneApply.SplitS3UriRebuilds: the rebuilt URI is stated as `"/".join([parts[0], parts[1], bucket, key])`. This equals `parts[0] + "/" + parts[1] + "/" + bucket + "/" + key`.
