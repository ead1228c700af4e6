/** extract_repeating_regions.py: a UCSC repeat table indexed by chromosome,
    each chromosome's regions ordered by their integer start. */
module RepeatingRegions {
  import opened Common
  import opened Sorting

  /** A repeat's start and end, kept as the table's text. */
  datatype Region = Region(start: string, end: string)

  /** The table's columns: chromosome, start and end are columns 5, 6 and 7. */
  const CHROMOSOME_COLUMN := 5
  const START_COLUMN := 6
  const END_COLUMN := 7

  /** The output file name used when none is given. */
  const DEFAULT_OUTPUT := "repeating_regions.out"

  /** Every row holds the three columns the script reads. */
  predicate WellFormed(rows: seq<seq<string>>)
  {
    forall i :: 0 <= i < |rows| ==> |rows[i]| > END_COLUMN
  }

  function RegionOf(row: seq<string>): Region
    requires |row| > END_COLUMN
  {
    Region(row[START_COLUMN], row[END_COLUMN])
  }

  // ---------------------------------------------------------------------
  // Grouping

  /** The first data row too short to unpack, whose IndexError ends the loop. */
  function FirstShort(rows: seq<seq<string>>): (r: Option<seq<string>>)
    ensures r.None? <==> WellFormed(rows)
    ensures r.Some? ==> exists i :: 0 <= i < |rows| && rows[i] == r.value && |rows[i]| <= END_COLUMN
                                    && forall j :: 0 <= j < i ==> |rows[j]| > END_COLUMN
  {
    if rows == [] then None
    else if |rows[0]| <= END_COLUMN then Some(rows[0])
    else
      var r := FirstShort(rows[1..]);
      assert forall i :: 1 <= i < |rows| ==> rows[i] == rows[1..][i - 1];
      if r.Some? then
        var k :| 0 <= k < |rows[1..]| && rows[1..][k] == r.value && |rows[1..][k]| <= END_COLUMN
                 && forall j :: 0 <= j < k ==> |rows[1..][j]| > END_COLUMN;
        assert rows[k + 1] == r.value;
        r
      else r
  }

  /** The results dict after the first loop: each row's region appended to
      the list of its chromosome, a list opened at the chromosome's first row. */
  function Grouped(rows: seq<seq<string>>): map<string, seq<Region>>
    requires WellFormed(rows)
  {
    if rows == [] then map[]
    else
      var last := rows[|rows| - 1];
      var g := Grouped(rows[..|rows| - 1]);
      var c := last[CHROMOSOME_COLUMN];
      g[c := (if c in g then g[c] else []) + [RegionOf(last)]]
  }

  /** The regions of one chromosome's rows, in row order: a reference
      definition of a group that does not build the dict. */
  function RegionsOn(rows: seq<seq<string>>, c: string): seq<Region>
    requires WellFormed(rows)
  {
    if rows == [] then []
    else
      var last := rows[|rows| - 1];
      RegionsOn(rows[..|rows| - 1], c) + (if last[CHROMOSOME_COLUMN] == c then [RegionOf(last)] else [])
  }

  /** The dict's keys are the chromosomes of the rows, every list is the
      chromosome's regions in row order, and no list is empty. */
  lemma {:induction false} GroupedSpec(rows: seq<seq<string>>, c: string)
    requires WellFormed(rows)
    ensures c in Grouped(rows) <==> exists i :: 0 <= i < |rows| && rows[i][CHROMOSOME_COLUMN] == c
    ensures c in Grouped(rows) ==> Grouped(rows)[c] == RegionsOn(rows, c) && |Grouped(rows)[c]| > 0
    ensures c !in Grouped(rows) ==> RegionsOn(rows, c) == []
  {
    if rows != [] {
      var init := rows[..|rows| - 1];
      assert forall i :: 0 <= i < |init| ==> init[i] == rows[i];
      GroupedSpec(init, c);
    }
  }

  // ---------------------------------------------------------------------
  // Sorting one chromosome's list

  /** Every start of a list is a number int() accepts. */
  predicate IntStarts(g: seq<Region>)
  {
    forall i :: 0 <= i < |g| ==> IsInt(g[i].start)
  }

  /** Each region paired with the key int(start) gives it. */
  function Decorate(g: seq<Region>): (r: seq<Keyed<Region>>)
    requires IntStarts(g)
    ensures |r| == |g| && forall i :: 0 <= i < |g| ==> r[i] == Keyed(IntOf(g[i].start), g[i])
  {
    seq(|g|, i requires 0 <= i < |g| => Keyed(IntOf(g[i].start), g[i]))
  }

  /** `list.sort(key=lambda x: int(x[0]))`. */
  function SortRegions(g: seq<Region>): seq<Region>
    requires IntStarts(g)
  {
    Items(SortByKey(Decorate(g)))
  }

  function ItemOf(k: Keyed<Region>): Region
  {
    k.item
  }

  /** Every element of a rearrangement of the decorated list carries
      int(start) of its own region as its key. */
  lemma KeysFollowStarts(g: seq<Region>, s: seq<Keyed<Region>>)
    requires IntStarts(g)
    requires multiset(s) == multiset(Decorate(g))
    ensures forall i :: 0 <= i < |s| ==> IsInt(s[i].item.start) && s[i].key == IntOf(s[i].item.start)
  {
    var d := Decorate(g);
    forall i | 0 <= i < |s| ensures IsInt(s[i].item.start) && s[i].key == IntOf(s[i].item.start) {
      assert s[i] in multiset(d);
      var m :| 0 <= m < |d| && d[m] == s[i];
    }
  }

  /** The sorted list is a rearrangement of the list, ascending by int(start). */
  lemma SortRegionsSorted(g: seq<Region>)
    requires IntStarts(g)
    ensures var r := SortRegions(g);
            |r| == |g| && multiset(r) == multiset(g)
            && (IntStarts(r))
            && forall i, j :: 0 <= i < j < |r| ==> IntOf(r[i].start) <= IntOf(r[j].start)
  {
    var d := Decorate(g);
    var s := SortByKey(d);
    assert multiset(Items(s)) == multiset(g) by {
      assert Items(s) == Map(ItemOf, s);
      assert g == Map(ItemOf, d);
      MapPerm(ItemOf, s, d);
    }
    KeysFollowStarts(g, s);
  }

  /** The regions whose start has integer value k, in list order. */
  function StartingAt(g: seq<Region>, k: int): seq<Region>
    requires IntStarts(g)
  {
    if g == [] then [] else (if IntOf(g[0].start) == k then [g[0]] else []) + StartingAt(g[1..], k)
  }

  /** Undecorating the elements with key k gives the regions starting at k. */
  lemma {:induction false} ItemsWithKey(s: seq<Keyed<Region>>, k: int)
    requires forall i :: 0 <= i < |s| ==> IsInt(s[i].item.start) && s[i].key == IntOf(s[i].item.start)
    ensures forall i :: 0 <= i < |Items(s)| ==> IsInt(Items(s)[i].start)
    ensures Items(WithKey(s, k)) == StartingAt(Items(s), k)
  {
    if s != [] {
      assert forall i :: 0 <= i < |s[1..]| ==> s[1..][i] == s[i + 1];
      ItemsWithKey(s[1..], k);
      assert Items(s)[1..] == Items(s[1..]);
      ItemsAppend((if s[0].key == k then [s[0]] else []), WithKey(s[1..], k));
    }
  }

  lemma {:induction false} ItemsAppend<T>(a: seq<Keyed<T>>, b: seq<Keyed<T>>)
    ensures Items(a + b) == Items(a) + Items(b)
  {
    if a != [] {
      assert (a + b)[1..] == a[1..] + b;
      ItemsAppend(a[1..], b);
    } else {
      assert a + b == b;
    }
  }

  /** The sort is stable: regions with equal integer starts keep their order. */
  lemma SortRegionsStable(g: seq<Region>, k: int)
    requires IntStarts(g)
    ensures IntStarts(SortRegions(g))
    ensures StartingAt(SortRegions(g), k) == StartingAt(g, k)
  {
    var d := Decorate(g);
    var s := SortByKey(d);
    KeysFollowStarts(g, s);
    ItemsWithKey(s, k);
    ItemsWithKey(d, k);
    assert Items(d) == g;
    SortByKeyStable(d, k);
  }

  // ---------------------------------------------------------------------
  // main, lines 30-47

  /** Every data row's start is an integer. */
  predicate StartsAreInts(rows: seq<seq<string>>)
    requires WellFormed(rows)
  {
    forall i :: 0 <= i < |rows| ==> IsInt(rows[i][START_COLUMN])
  }

  lemma {:induction false} GroupedStartsAreInts(rows: seq<seq<string>>, c: string)
    requires WellFormed(rows)
    requires StartsAreInts(rows)
    ensures IntStarts(RegionsOn(rows, c))
  {
    if rows != [] {
      var init := rows[..|rows| - 1];
      assert forall i :: 0 <= i < |init| ==> init[i] == rows[i];
      GroupedStartsAreInts(init, c);
    }
  }

  /** Every list's starts are integers. */
  predicate GroupsIntStarts(results: map<string, seq<Region>>)
  {
    forall c :: c in results ==> IntStarts(results[c])
  }

  /** Every list sorted. */
  function SortAll(results: map<string, seq<Region>>): (r: map<string, seq<Region>>)
    requires GroupsIntStarts(results)
    ensures r.Keys == results.Keys
  {
    map c | c in results :: SortRegions(results[c])
  }

  /** The lists' starts are integers exactly when the rows' starts are. */
  lemma GroupsIntStartsOfRows(rows: seq<seq<string>>)
    requires WellFormed(rows)
    ensures GroupsIntStarts(Grouped(rows)) <==> StartsAreInts(rows)
  {
    if StartsAreInts(rows) {
      forall c | c in Grouped(rows) ensures IntStarts(Grouped(rows)[c]) {
        GroupedSpec(rows, c);
        GroupedStartsAreInts(rows, c);
      }
    }
    if GroupsIntStarts(Grouped(rows)) {
      AllGroupsInts(rows, Grouped(rows));
    }
  }

  /** The index the script dumps: every chromosome's regions, sorted. */
  function Index(rows: seq<seq<string>>): (r: map<string, seq<Region>>)
    requires WellFormed(rows)
    requires StartsAreInts(rows)
    ensures r.Keys == Grouped(rows).Keys
  {
    GroupsIntStartsOfRows(rows);
    SortAll(Grouped(rows))
  }

  /** The index holds a list for exactly the chromosomes some row names;
      each list is that chromosome's regions, none missing and none added,
      ascending by integer start, with the regions of equal start in row
      order; and no list is empty. */
  lemma IndexSpec(rows: seq<seq<string>>, c: string, k: int)
    requires WellFormed(rows)
    requires StartsAreInts(rows)
    ensures c in Index(rows) <==> exists i :: 0 <= i < |rows| && rows[i][CHROMOSOME_COLUMN] == c
    ensures c in Index(rows) ==>
              var l := Index(rows)[c];
              |l| > 0 && multiset(l) == multiset(RegionsOn(rows, c))
              && IntStarts(l) && IntStarts(RegionsOn(rows, c))
              && (forall i, j :: 0 <= i < j < |l| ==> IntOf(l[i].start) <= IntOf(l[j].start))
              && StartingAt(l, k) == StartingAt(RegionsOn(rows, c), k)
  {
    GroupedSpec(rows, c);
    if c in Index(rows) {
      GroupedStartsAreInts(rows, c);
      SortRegionsSorted(RegionsOn(rows, c));
      SortRegionsStable(RegionsOn(rows, c), k);
    }
  }

  /** The first loop of main: the table's data rows grouped by chromosome. */
  method GroupRows(rows: seq<seq<string>>) returns (r: Result<map<string, seq<Region>>>)
    ensures FirstShort(rows).Some? ==> r == Failure(ShortRow(FirstShort(rows).value))
    ensures FirstShort(rows).None? ==> r == Success(Grouped(rows))
  {
    var results: map<string, seq<Region>> := map[];
    var i := 0;
    while i < |rows|
      invariant 0 <= i <= |rows|
      invariant forall j :: 0 <= j < i ==> |rows[j]| > END_COLUMN
      invariant results == Grouped(rows[..i])
    {
      var words := rows[i];
      if |words| <= END_COLUMN {
        FirstShortAt(rows, i);
        return Failure(ShortRow(words));
      }
      var chromosome, genomeStart, genomeEnd := words[CHROMOSOME_COLUMN], words[START_COLUMN], words[END_COLUMN];
      if chromosome !in results {
        results := results[chromosome := []];
      }
      results := results[chromosome := results[chromosome] + [Region(genomeStart, genomeEnd)]];
      assert rows[..i + 1][..i] == rows[..i];
      i := i + 1;
    }
    assert rows[..|rows|] == rows;
    return Success(results);
  }

  lemma FirstShortAt(rows: seq<seq<string>>, i: nat)
    requires i < |rows| && |rows[i]| <= END_COLUMN && forall j :: 0 <= j < i ==> |rows[j]| > END_COLUMN
    ensures FirstShort(rows) == Some(rows[i])
  {
    var r := FirstShort(rows);
    assert r.Some?;
    var k :| 0 <= k < |rows| && rows[k] == r.value && |rows[k]| <= END_COLUMN && forall j :: 0 <= j < k ==> |rows[j]| > END_COLUMN;
    assert k == i;
  }

  /** The second loop of main: every chromosome's list sorted, chromosome by
      chromosome in the dict's own (unspecified) order. A start int() rejects
      ends the loop with its ValueError. */
  method SortGroups(results: map<string, seq<Region>>) returns (r: Result<map<string, seq<Region>>>)
    ensures GroupsIntStarts(results) ==> r == Success(SortAll(results))
    ensures !GroupsIntStarts(results) ==> r.Failure?
    ensures r.Failure? ==> r.error.NotAnInteger? && !IsInt(r.error.text)
                           && exists c :: c in results && StartOf(results[c], r.error.text)
  {
    var sorted := results;
    var todo := results.Keys;
    while todo != {}
      invariant todo <= results.Keys && sorted.Keys == results.Keys
      invariant forall c :: c in results && c !in todo ==> IntStarts(results[c]) && sorted[c] == SortRegions(results[c])
      decreases todo
    {
      var c :| c in todo;
      var g := results[c];
      var bad := FirstNonIntStart(g);
      if bad.Some? {
        assert !IntStarts(results[c]) && StartOf(results[c], bad.value);
        return Failure(NotAnInteger(bad.value));
      }
      sorted := sorted[c := SortRegions(g)];
      todo := todo - {c};
    }
    SortAllIs(results, sorted);
    return Success(sorted);
  }

  /** A dict holding every list sorted is SortAll's. */
  lemma SortAllIs(results: map<string, seq<Region>>, sorted: map<string, seq<Region>>)
    requires sorted.Keys == results.Keys
    requires forall c :: c in results ==> IntStarts(results[c]) && sorted[c] == SortRegions(results[c])
    ensures GroupsIntStarts(results) && sorted == SortAll(results)
  {
  }

  /** s is the start of a region of the list. */
  predicate StartOf(g: seq<Region>, s: string)
  {
    exists i :: 0 <= i < |g| && g[i].start == s
  }

  /** The first start of a list that int() rejects, in list order. */
  function FirstNonIntStart(g: seq<Region>): (r: Option<string>)
    ensures r.None? <==> IntStarts(g)
    ensures r.Some? ==> StartOf(g, r.value) && !IsInt(r.value)
  {
    if g == [] then None
    else if !IsInt(g[0].start) then Some(g[0].start)
    else
      var r := FirstNonIntStart(g[1..]);
      assert forall i :: 1 <= i < |g| ==> g[i] == g[1..][i - 1];
      r
  }

  /** A start found in a chromosome's list is the start of one of its rows. */
  lemma {:induction false} NonIntStartRow(rows: seq<seq<string>>, c: string, s: string)
    requires WellFormed(rows)
    requires StartOf(RegionsOn(rows, c), s)
    ensures exists i :: 0 <= i < |rows| && rows[i][START_COLUMN] == s
  {
    var init := rows[..|rows| - 1];
    assert forall i :: 0 <= i < |init| ==> init[i] == rows[i];
    var last := rows[|rows| - 1];
    if !(last[CHROMOSOME_COLUMN] == c && last[START_COLUMN] == s) {
      var k :| 0 <= k < |RegionsOn(rows, c)| && RegionsOn(rows, c)[k].start == s;
      assert k < |RegionsOn(init, c)| && RegionsOn(init, c)[k] == RegionsOn(rows, c)[k];
      NonIntStartRow(init, c, s);
    }
  }

  /** When every list's starts are integers, so is every row's start. */
  lemma AllGroupsInts(rows: seq<seq<string>>, results: map<string, seq<Region>>)
    requires WellFormed(rows)
    requires results == Grouped(rows)
    requires forall c :: c in results ==> IntStarts(results[c])
    ensures StartsAreInts(rows)
  {
    forall i | 0 <= i < |rows| ensures IsInt(rows[i][START_COLUMN]) {
      var c := rows[i][CHROMOSOME_COLUMN];
      GroupedSpec(rows, c);
      RowInRegionsOn(rows, i);
    }
  }

  /** Each row's region is in its chromosome's list. */
  lemma {:induction false} RowInRegionsOn(rows: seq<seq<string>>, i: nat)
    requires WellFormed(rows)
    requires i < |rows|
    ensures RegionOf(rows[i]) in RegionsOn(rows, rows[i][CHROMOSOME_COLUMN])
  {
    var init := rows[..|rows| - 1];
    assert forall j :: 0 <= j < |init| ==> init[j] == rows[j];
    if i < |rows| - 1 {
      RowInRegionsOn(init, i);
    }
  }

  /** main, lines 30-47: skip the header line, group the data rows, sort
      every group; the first line missing is the StopIteration of
      in_file.next(). */
  method IndexRepeats(lines: seq<seq<string>>) returns (r: Result<map<string, seq<Region>>>)
    ensures lines == [] ==> r == Failure(EmptyInput)
    ensures lines != [] && FirstShort(lines[1..]).Some? ==> r == Failure(ShortRow(FirstShort(lines[1..]).value))
    ensures lines != [] && FirstShort(lines[1..]).None? && StartsAreInts(lines[1..]) ==> r == Success(Index(lines[1..]))
    ensures lines != [] && FirstShort(lines[1..]).None? && !StartsAreInts(lines[1..]) ==>
              r.Failure? && r.error.NotAnInteger?
              && !IsInt(r.error.text) && exists i :: 0 <= i < |lines[1..]| && lines[1..][i][START_COLUMN] == r.error.text
  {
    if lines == [] {
      return Failure(EmptyInput);
    }
    var rows := lines[1..];
    var grouped := GroupRows(rows);
    if grouped.Failure? {
      return grouped;
    }
    r := SortGroups(grouped.value);
    GroupsIntStartsOfRows(rows);
    if r.Failure? {
      var c :| c in grouped.value && StartOf(grouped.value[c], r.error.text);
      GroupedSpec(rows, c);
      NonIntStartRow(rows, c, r.error.text);
    }
  }

  /** The output file name: the one given, or the default when none (or an
      empty one) is given. */
  function OutputName(given: Option<string>): (name: string)
    ensures given.Some? && given.value != "" ==> name == given.value
    ensures given.None? || given.value == "" ==> name == DEFAULT_OUTPUT
  {
    if given.Some? && given.value != "" then given.value else DEFAULT_OUTPUT
  }
}
