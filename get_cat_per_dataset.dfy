/**
 * get_cat_per_dataset.py: `count_categories_h5ad`, which counts the
 * categorical columns of one dataset's obs table, and `main`, which runs it
 * over the catalog, lays the per-dataset results out as parallel lists and
 * builds a histogram of the category counts with `Counter.most_common`.
 */
module GetCatPerDataset {
  import opened Wrappers
  import opened Strings
  import opened Seqs
  import opened Dicts
  import opened Tables
  import opened CellxgeneApply

  // ------------------------------------------------ count_categories_h5ad

  /** "largest_category_label": the int 0 it starts as, or the name of a column. */
  datatype Label = NoLabel | ColumnLabel(name: string)

  /** The dict `count_categories_h5ad` returns. */
  datatype CategoryCounts = CategoryCounts(
    nColOneCategory: nat, nColTwoOrMoreCategory: nat,
    largestCategoryN: nat, largestCategoryLabel: Label,
    nCategoriesPerColumn: seq<nat>)

  /** The dict before the loop. */
  const NoCounts: CategoryCounts := CategoryCounts(0, 0, 0, NoLabel, [])

  const OntologyMarker: string := "ontology_term_id"

  /** A column the loop looks at: its name lacks "ontology_term_id" and its dtype is categorical. */
  predicate Counted(c: Column)
  {
    !Contains(c.name, OntologyMarker) && c.isCategorical
  }

  /** One turn of the loop over the columns. */
  function CountColumn(r: CategoryCounts, c: Column): CategoryCounts
  {
    if !Counted(c) then r
    else
      var n := c.nCategories;
      var bigger := n > r.largestCategoryN;
      CategoryCounts(
        if n > 1 then r.nColOneCategory else r.nColOneCategory + 1,
        if n > 1 then r.nColTwoOrMoreCategory + 1 else r.nColTwoOrMoreCategory,
        if bigger then n else r.largestCategoryN,
        if bigger then ColumnLabel(c.name) else r.largestCategoryLabel,
        r.nCategoriesPerColumn + [n])
  }

  /** The loop run over `cols` from `r`. */
  function CountFrom(r: CategoryCounts, cols: seq<Column>): CategoryCounts
  {
    if cols == [] then r else CountColumn(CountFrom(r, cols[..|cols| - 1]), cols[|cols| - 1])
  }

  /** What `count_categories_h5ad` returns for an obs table with these columns. */
  function CategoryCountsOf(cols: seq<Column>): CategoryCounts
  {
    CountFrom(NoCounts, cols)
  }

  /** `count_categories_h5ad(adata)`. */
  method CountCategoriesH5ad(adata: AnnData) returns (results: CategoryCounts)
    ensures results == CategoryCountsOf(adata.obs.columns)
  {
    var columns := adata.obs.columns;
    var nColOneCategory: nat := 0;
    var nColTwoOrMoreCategory: nat := 0;
    var largestCategoryN: nat := 0;
    var largestCategoryLabel := NoLabel;
    var nCategoriesPerColumn: seq<nat> := [];
    for i := 0 to |columns|
      invariant CategoryCounts(nColOneCategory, nColTwoOrMoreCategory, largestCategoryN,
                               largestCategoryLabel, nCategoriesPerColumn) == CategoryCountsOf(columns[..i])
    {
      var column := columns[i];
      assert columns[..i + 1][..i] == columns[..i];
      if Contains(column.name, OntologyMarker) {
        continue;
      }
      if column.isCategorical {
        var nCategories := column.nCategories;
        nCategoriesPerColumn := nCategoriesPerColumn + [nCategories];
        if nCategories > largestCategoryN {
          largestCategoryN := nCategories;
          largestCategoryLabel := ColumnLabel(column.name);
        }
        if nCategories > 1 {
          nColTwoOrMoreCategory := nColTwoOrMoreCategory + 1;
        } else {
          nColOneCategory := nColOneCategory + 1;
        }
      }
    }
    assert columns[..|columns|] == columns;
    results := CategoryCounts(nColOneCategory, nColTwoOrMoreCategory, largestCategoryN,
                              largestCategoryLabel, nCategoriesPerColumn);
  }

  // -------------------------------------------- reference definitions

  /** The columns the loop looks at, in order. */
  function CountedColumns(cols: seq<Column>): seq<Column>
  {
    if cols == [] then []
    else
      var n := |cols| - 1;
      CountedColumns(cols[..n]) + (if Counted(cols[n]) then [cols[n]] else [])
  }

  /** How many of the numbers exceed `t`. */
  function CountAbove(xs: seq<nat>, t: nat): nat
  {
    if xs == [] then 0 else CountAbove(xs[..|xs| - 1], t) + (if xs[|xs| - 1] > t then 1 else 0)
  }

  /** The largest of the numbers, 0 for none. */
  function Max(xs: seq<nat>): (m: nat)
    ensures forall k :: 0 <= k < |xs| ==> xs[k] <= m
    ensures m == 0 || m in xs
  {
    if xs == [] then 0
    else
      var n := |xs| - 1;
      var m := Max(xs[..n]);
      assert forall k :: 0 <= k < n ==> xs[..n][k] == xs[k];
      if xs[n] > m then xs[n] else m
  }

  // --------------------------------------------------------- properties

  /** The per-column list holds the declared category counts of the counted columns, in column order. */
  lemma {:induction false} PerColumnCounts(cols: seq<Column>)
    ensures |CategoryCountsOf(cols).nCategoriesPerColumn| == |CountedColumns(cols)|
    ensures forall k :: 0 <= k < |CountedColumns(cols)| ==>
              CategoryCountsOf(cols).nCategoriesPerColumn[k] == CountedColumns(cols)[k].nCategories
  {
    if cols != [] {
      PerColumnCounts(cols[..|cols| - 1]);
    }
  }

  /**
   * Every counted column is either one-category (0 or 1 declared
   * categories) or two-or-more: the two counters add up to the list's length.
   */
  lemma {:induction false} OneOrMore(cols: seq<Column>)
    ensures CategoryCountsOf(cols).nColTwoOrMoreCategory == CountAbove(CategoryCountsOf(cols).nCategoriesPerColumn, 1)
    ensures CategoryCountsOf(cols).nColOneCategory + CategoryCountsOf(cols).nColTwoOrMoreCategory
              == |CategoryCountsOf(cols).nCategoriesPerColumn|
  {
    if cols != [] {
      var n := |cols| - 1;
      OneOrMore(cols[..n]);
      var per := CategoryCountsOf(cols[..n]).nCategoriesPerColumn;
      if Counted(cols[n]) {
        assert (per + [cols[n].nCategories])[..|per|] == per;
      }
    }
  }

  /** "largest_category_n" is the largest entry of the per-column list, 0 when it is empty. */
  lemma {:induction false} LargestIsMax(cols: seq<Column>)
    ensures CategoryCountsOf(cols).largestCategoryN == Max(CategoryCountsOf(cols).nCategoriesPerColumn)
  {
    if cols != [] {
      var n := |cols| - 1;
      LargestIsMax(cols[..n]);
      var per := CategoryCountsOf(cols[..n]).nCategoriesPerColumn;
      if Counted(cols[n]) {
        assert (per + [cols[n].nCategories])[..|per|] == per;
      }
    }
  }

  /** Columns the loop skips change nothing: counting only the counted columns gives the same dict. */
  lemma {:induction false} SkippedColumnsIgnored(cols: seq<Column>)
    ensures CategoryCountsOf(cols) == CategoryCountsOf(CountedColumns(cols))
  {
    if cols != [] {
      var n := |cols| - 1;
      SkippedColumnsIgnored(cols[..n]);
      var before := CountedColumns(cols[..n]);
      if Counted(cols[n]) {
        assert (before + [cols[n]])[..|before|] == before;
      } else {
        assert CountedColumns(cols) == before + [];
        assert before + [] == before;
      }
    }
  }

  /** No counted column declares more categories than "largest_category_n". */
  lemma CountedBelowLargest(cols: seq<Column>)
    ensures forall j :: 0 <= j < |CountedColumns(cols)| ==>
              CountedColumns(cols)[j].nCategories <= CategoryCountsOf(cols).largestCategoryN
  {
    PerColumnCounts(cols);
    LargestIsMax(cols);
  }

  /**
   * "largest_category_label" is the first counted column that declares
   * "largest_category_n" categories (a later column with as many does not
   * replace it), and stays 0 exactly when no counted column declares any.
   */
  lemma {:induction false} LabelIsFirstLargest(cols: seq<Column>)
    ensures CategoryCountsOf(cols).largestCategoryLabel == NoLabel <==> CategoryCountsOf(cols).largestCategoryN == 0
    ensures CategoryCountsOf(cols).largestCategoryN > 0 ==>
              exists k :: 0 <= k < |CountedColumns(cols)|
                          && CountedColumns(cols)[k].nCategories == CategoryCountsOf(cols).largestCategoryN
                          && CategoryCountsOf(cols).largestCategoryLabel == ColumnLabel(CountedColumns(cols)[k].name)
                          && forall j :: 0 <= j < k ==> CountedColumns(cols)[j].nCategories < CategoryCountsOf(cols).largestCategoryN
  {
    if cols != [] {
      var n := |cols| - 1;
      var c := cols[n];
      LabelIsFirstLargest(cols[..n]);
      var prev := CategoryCountsOf(cols[..n]);
      var before := CountedColumns(cols[..n]);
      var r := CategoryCountsOf(cols);
      var cc := CountedColumns(cols);
      if Counted(c) {
        assert cc == before + [c];
        if c.nCategories > prev.largestCategoryN {
          CountedBelowLargest(cols[..n]);
          assert cc[|before|] == c;
          assert forall j :: 0 <= j < |before| ==> cc[j].nCategories < r.largestCategoryN;
        } else if r.largestCategoryN > 0 {
          var k :| 0 <= k < |before| && before[k].nCategories == prev.largestCategoryN
                   && prev.largestCategoryLabel == ColumnLabel(before[k].name)
                   && forall j :: 0 <= j < k ==> before[j].nCategories < prev.largestCategoryN;
          assert cc[k] == before[k];
          assert forall j :: 0 <= j < k ==> cc[j] == before[j];
        }
      } else {
        assert cc == before + [];
        assert before + [] == before;
      }
    }
  }

  // ------------------------------------------------------------- main

  /** The `final_results` dict of parallel lists, one entry per result. */
  datatype FinalResults = FinalResults(
    expUrl: seq<string>, nColOneCategory: seq<nat>, nColTwoOrMoreCategory: seq<nat>,
    largestCategoryN: seq<nat>, largestCategoryLabel: seq<Label>)

  /** The per-column lists of the results, in key order. */
  function PerColumnLists(results: Dict<string, CategoryCounts>): (lists: seq<seq<nat>>)
    requires results.Valid()
    ensures |lists| == |results.keys|
  {
    seq(|results.keys|, k requires 0 <= k < |results.keys| => results.Values()[k].nCategoriesPerColumn)
  }

  /**
   * The loop of `main` over the results: one entry per result in each list
   * of `final_results`, in the results' key order, and all per-column lists
   * concatenated in the same order.
   */
  method Aggregate(results: Dict<string, CategoryCounts>) returns (finalResults: FinalResults, nCatPerColumn: seq<nat>)
    requires results.Valid()
    ensures finalResults.expUrl == results.keys
    ensures |finalResults.nColOneCategory| == |finalResults.nColTwoOrMoreCategory| == |results.keys|
    ensures |finalResults.largestCategoryN| == |finalResults.largestCategoryLabel| == |results.keys|
    ensures forall k :: 0 <= k < |results.keys| ==>
              && finalResults.nColOneCategory[k] == results.Values()[k].nColOneCategory
              && finalResults.nColTwoOrMoreCategory[k] == results.Values()[k].nColTwoOrMoreCategory
              && finalResults.largestCategoryN[k] == results.Values()[k].largestCategoryN
              && finalResults.largestCategoryLabel[k] == results.Values()[k].largestCategoryLabel
    ensures nCatPerColumn == Flatten(PerColumnLists(results))
  {
    var keys := results.keys;
    var vals := results.Values();
    var expUrls: seq<string> := [];
    var ones: seq<nat> := [];
    var twos: seq<nat> := [];
    var largestNs: seq<nat> := [];
    var largestLabels: seq<Label> := [];
    nCatPerColumn := [];
    ghost var lists := PerColumnLists(results);
    for i := 0 to |keys|
      invariant expUrls == keys[..i]
      invariant |ones| == |twos| == |largestNs| == |largestLabels| == i
      invariant forall k :: 0 <= k < i ==>
                  && ones[k] == vals[k].nColOneCategory
                  && twos[k] == vals[k].nColTwoOrMoreCategory
                  && largestNs[k] == vals[k].largestCategoryN
                  && largestLabels[k] == vals[k].largestCategoryLabel
      invariant nCatPerColumn == Flatten(lists[..i])
    {
      var r := vals[i];
      expUrls := expUrls + [keys[i]];
      ones := ones + [r.nColOneCategory];
      twos := twos + [r.nColTwoOrMoreCategory];
      largestNs := largestNs + [r.largestCategoryN];
      largestLabels := largestLabels + [r.largestCategoryLabel];
      FlattenPrefixStep(lists, i);
      nCatPerColumn := nCatPerColumn + r.nCategoriesPerColumn;
    }
    assert lists[..|keys|] == lists;
    finalResults := FinalResults(expUrls, ones, twos, largestNs, largestLabels);
  }

  // ------------------------------------------- Counter and most_common

  /** How often `v` occurs in `xs`. */
  function Occurrences(xs: seq<nat>, v: nat): (c: nat)
    ensures c > 0 <==> v in xs
  {
    if xs == [] then 0
    else
      var n := |xs| - 1;
      assert xs == xs[..n] + [xs[n]];
      Occurrences(xs[..n], v) + (if xs[n] == v then 1 else 0)
  }

  /** `Counter(xs)`: each value with its count, keys in order of first appearance. */
  function Tally(xs: seq<nat>): Dict<nat, nat>
  {
    if xs == [] then Empty() else CountOne(Tally(xs[..|xs| - 1]), xs[|xs| - 1])
  }

  /** `counter[x] += 1`, a missing key counting as 0. */
  function CountOne(d: Dict<nat, nat>, x: nat): Dict<nat, nat>
  {
    Put(d, x, (if x in d.items then d.items[x] else 0) + 1)
  }

  /** The counter is a well-formed dict listing each value of `xs` once, in order of first appearance. */
  lemma {:induction false} TallyKeys(xs: seq<nat>)
    ensures Tally(xs).Valid()
    ensures Tally(xs).keys == Distinct(xs)
  {
    if xs != [] {
      var n := |xs| - 1;
      var x := xs[n];
      var d := Tally(xs[..n]);
      TallyKeys(xs[..n]);
      PutValid(d, x, (if x in d.items then d.items[x] else 0) + 1);
      DistinctLast(xs);
      DistinctSpec(xs[..n]);
    }
  }

  /** The counter holds each value of `xs`, and nothing else, with its number of occurrences. */
  lemma {:induction false} TallyCounts(xs: seq<nat>, v: nat)
    ensures v in Tally(xs).items <==> v in xs
    ensures v in Tally(xs).items ==> Tally(xs).items[v] == Occurrences(xs, v)
  {
    if xs != [] {
      var n := |xs| - 1;
      var x := xs[n];
      var d := Tally(xs[..n]);
      TallyCounts(xs[..n], v);
      assert xs == xs[..n] + [x];
      assert Occurrences(xs, v) == Occurrences(xs[..n], v) + (if x == v then 1 else 0);
      assert Tally(xs).items == d.items[x := (if x in d.items then d.items[x] else 0) + 1];
    }
  }

  /** Counts never grow along the sequence. */
  predicate CountsNonIncreasing(es: seq<(nat, nat)>)
  {
    forall i, j :: 0 <= i < j < |es| ==> es[i].1 >= es[j].1
  }

  /** Placing an entry after every entry whose count is at least its own. */
  function InsertByCount(s: seq<(nat, nat)>, e: (nat, nat)): seq<(nat, nat)>
  {
    if s == [] then [e]
    else if s[|s| - 1].1 >= e.1 then s + [e]
    else InsertByCount(s[..|s| - 1], e) + [s[|s| - 1]]
  }

  /** A stable sort by count, largest first. */
  function SortByCount(es: seq<(nat, nat)>): seq<(nat, nat)>
  {
    if es == [] then [] else InsertByCount(SortByCount(es[..|es| - 1]), es[|es| - 1])
  }

  /** `counter.most_common()`: the entries in insertion order, stably sorted by count, largest first. */
  function MostCommon(counter: Dict<nat, nat>): seq<(nat, nat)>
    requires counter.Valid()
  {
    SortByCount(counter.Items())
  }

  /** Inserting adds exactly the one entry. */
  lemma {:induction false} InsertByCountEntries(s: seq<(nat, nat)>, e: (nat, nat))
    ensures multiset(InsertByCount(s, e)) == multiset(s) + multiset{e}
    decreases |s|
  {
    if s != [] {
      var n := |s| - 1;
      if s[n].1 < e.1 {
        InsertByCountEntries(s[..n], e);
        assert s == s[..n] + [s[n]];
      }
    }
  }

  /** An entry whose count is at most every count before it extends non-increasing counts. */
  lemma SortedSnoc(r: seq<(nat, nat)>, x: (nat, nat))
    requires CountsNonIncreasing(r)
    requires forall k :: 0 <= k < |r| ==> r[k].1 >= x.1
    ensures CountsNonIncreasing(r + [x])
  {
    var rx := r + [x];
    forall i, j | 0 <= i < j < |rx|
      ensures rx[i].1 >= rx[j].1
    {
      if j < |r| {
        assert rx[i] == r[i] && rx[j] == r[j];
      } else {
        assert rx[i] == r[i];
      }
    }
  }

  /** Inserting into entries with non-increasing counts keeps them non-increasing. */
  lemma {:induction false} InsertByCountSorted(s: seq<(nat, nat)>, e: (nat, nat))
    requires CountsNonIncreasing(s)
    ensures CountsNonIncreasing(InsertByCount(s, e))
    decreases |s|
  {
    if s != [] {
      var n := |s| - 1;
      var last := s[n];
      if last.1 >= e.1 {
        SortedSnoc(s, e);
      } else {
        var init := s[..n];
        InsertByCountSorted(init, e);
        InsertByCountEntries(init, e);
        var r := InsertByCount(init, e);
        forall k | 0 <= k < |r|
          ensures r[k].1 >= last.1
        {
          assert r[k] in multiset(r);
          if r[k] != e {
            assert r[k] in multiset(init);
            var j :| 0 <= j < n && init[j] == r[k];
            assert s[j] == init[j];
          }
        }
        SortedSnoc(r, last);
      }
    }
  }

  /** Sorting gives non-increasing counts and the same entries. */
  lemma {:induction false} SortByCountSpec(es: seq<(nat, nat)>)
    ensures CountsNonIncreasing(SortByCount(es))
    ensures multiset(SortByCount(es)) == multiset(es)
  {
    if es != [] {
      var n := |es| - 1;
      SortByCountSpec(es[..n]);
      InsertByCountSorted(SortByCount(es[..n]), es[n]);
      InsertByCountEntries(SortByCount(es[..n]), es[n]);
      MultisetSnoc(es);
    }
  }

  /** The entries of a non-empty sequence are those of all but its last, plus the last. */
  lemma MultisetSnoc(es: seq<(nat, nat)>)
    requires es != []
    ensures multiset(es) == multiset(es[..|es| - 1]) + multiset{es[|es| - 1]}
  {
    assert es == es[..|es| - 1] + [es[|es| - 1]];
  }

  /** The total of the counts. */
  function SumCounts(es: seq<(nat, nat)>): nat
  {
    if es == [] then 0 else SumCounts(es[..|es| - 1]) + es[|es| - 1].1
  }

  /** Inserting an entry adds its count to the total. */
  lemma {:induction false} SumCountsInsert(s: seq<(nat, nat)>, e: (nat, nat))
    ensures SumCounts(InsertByCount(s, e)) == SumCounts(s) + e.1
    decreases |s|
  {
    if s != [] {
      var n := |s| - 1;
      if s[n].1 >= e.1 {
        assert (s + [e])[..|s|] == s;
      } else {
        SumCountsInsert(s[..n], e);
        var r := InsertByCount(s[..n], e);
        assert (r + [s[n]])[..|r|] == r;
      }
    }
  }

  /** Sorting keeps the total of the counts. */
  lemma {:induction false} SumCountsSort(es: seq<(nat, nat)>)
    ensures SumCounts(SortByCount(es)) == SumCounts(es)
  {
    if es != [] {
      var n := |es| - 1;
      SumCountsSort(es[..n]);
      SumCountsInsert(SortByCount(es[..n]), es[n]);
    }
  }

  /** Replacing one entry changes the total by the difference of the two counts. */
  lemma {:induction false} SumCountsUpdate(s: seq<(nat, nat)>, i: nat, p: (nat, nat))
    requires i < |s|
    ensures SumCounts(s[i := p]) + s[i].1 == SumCounts(s) + p.1
  {
    var n := |s| - 1;
    if i < n {
      SumCountsUpdate(s[..n], i, p);
      assert s[i := p][..n] == s[..n][i := p];
    } else {
      assert s[i := p][..n] == s[..n];
    }
  }

  /** Counting one more value adds one to the total of the counts. */
  lemma CountOneTotal(d: Dict<nat, nat>, x: nat)
    requires d.Valid()
    ensures CountOne(d, x).Valid()
    ensures SumCounts(CountOne(d, x).Items()) == SumCounts(d.Items()) + 1
  {
    if x in d.items {
      CountOneOld(d, x);
    } else {
      var c := 1;
      ItemsPutNew(d, x, c);
      assert (d.Items() + [(x, c)])[..|d.Items()|] == d.Items();
    }
  }

  /** Counting a value already present raises its count in place. */
  lemma CountOneOld(d: Dict<nat, nat>, x: nat)
    requires d.Valid() && x in d.items
    ensures CountOne(d, x).Valid()
    ensures SumCounts(CountOne(d, x).Items()) == SumCounts(d.Items()) + 1
  {
    var c := d.items[x] + 1;
    var i :| 0 <= i < |d.keys| && d.keys[i] == x;
    var s := d.Items();
    assert CountOne(d, x) == Put(d, x, c);
    ItemsPutOld(d, x, c, i);
    SumCountsUpdate(s, i, (x, c));
    assert s[i].1 == c - 1;
  }

  /** The counts of `Counter(xs)` add up to the length of `xs`. */
  lemma {:induction false} CountersTotal(xs: seq<nat>)
    ensures Tally(xs).Valid()
    ensures SumCounts(Tally(xs).Items()) == |xs|
  {
    if xs != [] {
      CountersTotal(xs[..|xs| - 1]);
      CountOneTotal(Tally(xs[..|xs| - 1]), xs[|xs| - 1]);
    }
  }

  /**
   * The histogram `main` writes: one entry per distinct category count, with
   * the number of columns declaring it, largest number first, the numbers
   * adding up to the number of columns counted.
   */
  lemma Histogram(xs: seq<nat>)
    ensures Tally(xs).Valid()
    ensures CountsNonIncreasing(MostCommon(Tally(xs)))
    ensures multiset(MostCommon(Tally(xs))) == multiset(Tally(xs).Items())
    ensures forall k :: 0 <= k < |MostCommon(Tally(xs))| ==>
              MostCommon(Tally(xs))[k].0 in xs
              && MostCommon(Tally(xs))[k].1 == Occurrences(xs, MostCommon(Tally(xs))[k].0)
    ensures forall v :: v in xs ==> (v, Occurrences(xs, v)) in MostCommon(Tally(xs))
    ensures |MostCommon(Tally(xs))| == |Distinct(xs)|
    ensures SumCounts(MostCommon(Tally(xs))) == |xs|
  {
    TallyKeys(xs);
    var c := Tally(xs);
    var es := c.Items();
    var h := MostCommon(c);
    SortByCountSpec(es);
    SumCountsSort(es);
    CountersTotal(xs);
    assert |h| == |multiset(h)| == |multiset(es)| == |es|;
    forall k | 0 <= k < |h|
      ensures h[k].0 in xs && h[k].1 == Occurrences(xs, h[k].0)
    {
      assert h[k] in multiset(es);
      var i :| 0 <= i < |es| && es[i] == h[k];
      TallyCounts(xs, c.keys[i]);
    }
    forall v | v in xs
      ensures (v, Occurrences(xs, v)) in h
    {
      TallyCounts(xs, v);
      var i :| 0 <= i < |c.keys| && c.keys[i] == v;
      assert es[i] == (v, Occurrences(xs, v));
      assert es[i] in multiset(h);
    }
  }

  /** What `count_categories_h5ad` returns for an opened dataset, given by its obs table. */
  function CountObs<E>(obs: Frame): Result<CategoryCounts, E>
  {
    Ok(CategoryCountsOf(obs.columns))
  }

  /** The per-dataset category counts `main` gets back from the apply loop. */
  function CatalogCounts<B, E>(raws: seq<RawRow>, fetch: (string, string) -> Option<B>, read: B -> Result<Frame, E>)
    : (r: Result<Dict<string, CategoryCounts>, E>)
    ensures r.Ok? ==> r.value.Valid()
  {
    Collect(Processed(DataInfo(Catalog(raws)).keys, fetch), fetch, read, CountObs)
  }

  /** The `final_results` lists for a set of results, in key order. */
  function FinalResultsOf(res: Dict<string, CategoryCounts>): FinalResults
    requires res.Valid()
  {
    var vs := res.Values();
    FinalResults(
      res.keys,
      seq(|vs|, k requires 0 <= k < |vs| => vs[k].nColOneCategory),
      seq(|vs|, k requires 0 <= k < |vs| => vs[k].nColTwoOrMoreCategory),
      seq(|vs|, k requires 0 <= k < |vs| => vs[k].largestCategoryN),
      seq(|vs|, k requires 0 <= k < |vs| => vs[k].largestCategoryLabel))
  }

  /** What `main` computes from the results: the parallel lists and the histogram of per-column counts. */
  function SummaryOf(res: Dict<string, CategoryCounts>): (FinalResults, seq<(nat, nat)>)
    requires res.Valid()
  {
    TallyKeys(Flatten(PerColumnLists(res)));
    (FinalResultsOf(res), MostCommon(Tally(Flatten(PerColumnLists(res)))))
  }

  /** Lists holding each result's fields in key order are the `final_results` of those results. */
  lemma FinalResultsOfFields(res: Dict<string, CategoryCounts>, fr: FinalResults)
    requires res.Valid()
    requires fr.expUrl == res.keys
    requires |fr.nColOneCategory| == |fr.nColTwoOrMoreCategory| == |res.keys|
    requires |fr.largestCategoryN| == |fr.largestCategoryLabel| == |res.keys|
    requires forall k :: 0 <= k < |res.keys| ==>
               && fr.nColOneCategory[k] == res.Values()[k].nColOneCategory
               && fr.nColTwoOrMoreCategory[k] == res.Values()[k].nColTwoOrMoreCategory
               && fr.largestCategoryN[k] == res.Values()[k].largestCategoryN
               && fr.largestCategoryLabel[k] == res.Values()[k].largestCategoryLabel
    ensures fr == FinalResultsOf(res)
  {
  }

  /**
   * The summary holds, for the k-th result key, that dataset's counts in
   * each parallel list; its histogram has one entry per category count
   * found in any dataset's columns, with the number of columns declaring
   * it, largest number first.
   */
  lemma SummaryOfSpec(res: Dict<string, CategoryCounts>)
    requires res.Valid()
    ensures SummaryOf(res).0.expUrl == res.keys
    ensures |SummaryOf(res).0.nColOneCategory| == |SummaryOf(res).0.nColTwoOrMoreCategory| == |res.keys|
    ensures |SummaryOf(res).0.largestCategoryN| == |SummaryOf(res).0.largestCategoryLabel| == |res.keys|
    ensures forall k :: 0 <= k < |res.keys| ==>
              && SummaryOf(res).0.nColOneCategory[k] == res.items[res.keys[k]].nColOneCategory
              && SummaryOf(res).0.nColTwoOrMoreCategory[k] == res.items[res.keys[k]].nColTwoOrMoreCategory
              && SummaryOf(res).0.largestCategoryN[k] == res.items[res.keys[k]].largestCategoryN
              && SummaryOf(res).0.largestCategoryLabel[k] == res.items[res.keys[k]].largestCategoryLabel
    ensures CountsNonIncreasing(SummaryOf(res).1)
    ensures forall k :: 0 <= k < |SummaryOf(res).1| ==>
              && SummaryOf(res).1[k].0 in Flatten(PerColumnLists(res))
              && SummaryOf(res).1[k].1 == Occurrences(Flatten(PerColumnLists(res)), SummaryOf(res).1[k].0)
    ensures forall v :: v in Flatten(PerColumnLists(res)) ==>
              (v, Occurrences(Flatten(PerColumnLists(res)), v)) in SummaryOf(res).1
    ensures SumCounts(SummaryOf(res).1) == |Flatten(PerColumnLists(res))|
  {
    Histogram(Flatten(PerColumnLists(res)));
  }

  /**
   * `main`: the category counts of the first datasets of the catalog, laid
   * out as parallel lists, and the histogram of their per-column category
   * counts in `most_common` order.
   */
  method Summarize<B, E>(raws: seq<RawRow>, fetch: (string, string) -> Option<B>, read: B -> Result<Frame, E>)
    returns (out: Result<(FinalResults, seq<(nat, nat)>), E>, ghost scratchPresent: bool)
    ensures out.Err? <==> CatalogCounts(raws, fetch, read).Err?
    ensures scratchPresent <==> out.Err?
    ensures out.Ok? ==> out.value == SummaryOf(CatalogCounts(raws, fetch, read).value)
    ensures out.Ok? ==> out.value.0.expUrl == Processed(DataInfo(Catalog(raws)).keys, fetch)
    ensures out.Ok? ==> |out.value.0.expUrl| <= MaxResults
  {
    var results;
    results, scratchPresent := ApplyFunctionPortalH5ads(raws, fetch, read, CountObs);
    if results.Err? {
      out := Err(results.error);
      return;
    }
    ApplyResults(Catalog(raws), fetch, read, CountObs, results.value);
    var finalResults, nCatPerColumn := Aggregate(results.value);
    FinalResultsOfFields(results.value, finalResults);
    TallyKeys(nCatPerColumn);
    out := Ok((finalResults, MostCommon(Tally(nCatPerColumn))));
  }
}
