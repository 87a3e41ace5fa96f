/** `report_trends`: histograms of the report columns and the trending categories. A column enters as the
    sequence of its values; month keys are taken as the library formats them. */
module Trends {
  import opened Common

  /** How many rows hold `key`. */
  function CountOf(col: seq<string>, key: string): nat
    decreases |col|
  {
    if col == [] then 0 else CountOf(col[..|col| - 1], key) + if col[|col| - 1] == key then 1 else 0
  }

  lemma {:induction false} CountIsMultiplicity(col: seq<string>, key: string)
    ensures CountOf(col, key) == multiset(col)[key]
    decreases |col|
  {
    if col == [] {
    } else {
      CountIsMultiplicity(col[..|col| - 1], key);
      assert col == col[..|col| - 1] + [col[|col| - 1]];
    }
  }

  /** Each value of the column with its number of rows. */
  function Histogram(col: seq<string>): map<string, nat> {
    map key | key in col :: CountOf(col, key)
  }

  lemma CountAppend(col: seq<string>, x: string, key: string)
    ensures CountOf(col + [x], key) == CountOf(col, key) + if x == key then 1 else 0
  {
    assert (col + [x])[..|col|] == col;
  }

  lemma {:induction false} CountPositive(col: seq<string>, key: string)
    ensures CountOf(col, key) > 0 <==> key in col
    decreases |col|
  {
    if col == [] {
    } else {
      var front, last := col[..|col| - 1], col[|col| - 1];
      assert col == front + [last];
      CountPositive(front, key);
    }
  }

  lemma HistogramAppend(col: seq<string>, x: string)
    ensures Histogram(col + [x]) == Histogram(col)[x := CountOf(col, x) + 1]
    ensures x !in col ==> CountOf(col, x) == 0
  {
    CountPositive(col, x);
    hide CountOf;
    var more := col + [x];
    var longer, updated := Histogram(more), Histogram(col)[x := CountOf(col, x) + 1];
    forall key ensures (key in longer <==> key in updated) && (key in longer ==> longer[key] == updated[key]) {
      CountAppend(col, x, key);
      assert more[|col|] == x && (key in col ==> key in more);
    }
    hide Histogram;
  }

  /** First occurrences, in order: the library's `unique`. */
  function Unique(col: seq<string>): seq<string>
    decreases |col|
  {
    if col == [] then []
    else
      var front, last := Unique(col[..|col| - 1]), col[|col| - 1];
      if last in front then front else front + [last]
  }

  lemma {:induction false} UniqueCovers(col: seq<string>, key: string)
    ensures key in Unique(col) <==> key in col
    decreases |col|
  {
    if col == [] {
    } else {
      var front, last := col[..|col| - 1], col[|col| - 1];
      assert col == front + [last];
      UniqueCovers(front, key);
      UniqueCovers(front, last);
    }
  }

  /** Counting per distinct value, as for categories and regions. */
  method CountByValue(col: seq<string>) returns (counts: map<string, nat>)
    ensures counts == Histogram(col)
  {
    hide CountOf, Unique;
    var keys := Unique(col);
    counts := map[];
    for i := 0 to |keys|
      invariant counts == map key | key in keys[..i] :: CountOf(col, key)
    {
      counts := counts[keys[i] := CountOf(col, keys[i])];
      assert keys[..i + 1] == keys[..i] + [keys[i]];
    }
    assert keys[..|keys|] == keys;
    forall key ensures key in keys <==> key in col {
      UniqueCovers(col, key);
    }
  }

  /** Counting row by row, as for months: the same histogram. */
  method CountByRow(col: seq<string>) returns (counts: map<string, nat>)
    ensures counts == Histogram(col)
  {
    hide CountOf;
    counts := map[];
    for i := 0 to |col|
      invariant counts == Histogram(col[..i])
    {
      HistogramAppend(col[..i], col[i]);
      assert col[..i + 1] == col[..i] + [col[i]];
      counts := counts[col[i] := (if col[i] in counts then counts[col[i]] else 0) + 1];
    }
    assert col[..|col|] == col;
  }

  // ----- Conservation -----

  datatype Entry = Entry(key: string, count: nat)

  /** The dictionary as a list of its entries, in some order: the library's `collect`. */
  ghost predicate Enumerates(entries: seq<Entry>, counts: map<string, nat>) {
    && (forall i, j :: 0 <= i < j < |entries| ==> entries[i].key != entries[j].key)
    && (forall i :: 0 <= i < |entries| ==> entries[i].key in counts && counts[entries[i].key] == entries[i].count)
    && (forall key :: key in counts ==> IsListed(entries, |entries|, key))
  }

  /** The key stands among the first `n` entries. */
  predicate IsListed(entries: seq<Entry>, n: nat, key: string)
    requires n <= |entries|
  {
    exists i :: 0 <= i < n && entries[i].key == key
  }

  lemma ListedStep(entries: seq<Entry>, n: nat, key: string)
    requires 0 < n <= |entries| && forall i, j :: 0 <= i < j < |entries| ==> entries[i].key != entries[j].key
    ensures IsListed(entries, n, key) <==> IsListed(entries, n - 1, key) || entries[n - 1].key == key
    ensures IsListed(entries, n - 1, key) ==> entries[n - 1].key != key
  {
  }

  /** Sum of the counts of the first `n` entries. */
  function SumCounts(entries: seq<Entry>, n: nat): nat
    requires n <= |entries|
  {
    if n == 0 then 0 else SumCounts(entries, n - 1) + entries[n - 1].count
  }

  /** Rows of the column that fall to one of the first `n` entries. */
  function SumOver(entries: seq<Entry>, n: nat, col: seq<string>): nat
    requires n <= |entries|
  {
    if n == 0 then 0 else SumOver(entries, n - 1, col) + CountOf(col, entries[n - 1].key)
  }

  lemma {:induction false} SumOverEmpty(entries: seq<Entry>, n: nat)
    requires n <= |entries|
    ensures SumOver(entries, n, []) == 0
  {
    if n == 0 {
    } else {
      SumOverEmpty(entries, n - 1);
    }
  }

  /** One more row moves the sum by one, at the one entry of its key. */
  lemma {:induction false} SumOverAppend(entries: seq<Entry>, n: nat, col: seq<string>, x: string)
    requires n <= |entries| && forall i, j :: 0 <= i < j < |entries| ==> entries[i].key != entries[j].key
    ensures SumOver(entries, n, col + [x]) == SumOver(entries, n, col) + if IsListed(entries, n, x) then 1 else 0
  {
    if n == 0 {
    } else {
      hide CountOf, IsListed;
      SumOverAppend(entries, n - 1, col, x);
      CountAppend(col, x, entries[n - 1].key);
      ListedStep(entries, n, x);
    }
  }

  lemma {:induction false} SumOverAll(entries: seq<Entry>, col: seq<string>)
    requires forall i, j :: 0 <= i < j < |entries| ==> entries[i].key != entries[j].key
    requires forall key :: key in col ==> IsListed(entries, |entries|, key)
    ensures SumOver(entries, |entries|, col) == |col|
    decreases |col|
  {
    hide CountOf, SumOver, IsListed;
    if col == [] {
      SumOverEmpty(entries, |entries|);
    } else {
      var front, last := col[..|col| - 1], col[|col| - 1];
      assert col == front + [last];
      SumOverAll(entries, front);
      SumOverAppend(entries, |entries|, front, last);
    }
  }

  lemma {:induction false} SumsAgree(entries: seq<Entry>, n: nat, col: seq<string>)
    requires n <= |entries|
    requires forall i :: 0 <= i < |entries| ==> entries[i].count == CountOf(col, entries[i].key)
    ensures SumCounts(entries, n) == SumOver(entries, n, col)
  {
    if n == 0 {
    } else {
      SumsAgree(entries, n - 1, col);
    }
  }

  /** Conservation: the counts of a histogram add up to the number of rows, in whatever order they are listed. */
  lemma CountsConserved(entries: seq<Entry>, col: seq<string>)
    requires Enumerates(entries, Histogram(col))
    ensures SumCounts(entries, |entries|) == |col|
  {
    hide CountOf, SumOver, SumCounts, IsListed;
    SumsAgree(entries, |entries|, col);
    SumOverAll(entries, col);
  }

  // ----- Trending -----

  /** What sorting the entries by count, highest first, delivers; the order among equals is open. */
  ghost predicate Ranked(entries: seq<Entry>, counts: map<string, nat>) {
    && Enumerates(entries, counts)
    && forall i, j :: 0 <= i < j < |entries| ==> entries[i].count >= entries[j].count
  }

  function TopSize(n: nat): nat {
    if n < 5 then n else 5
  }

  function Trending(entries: seq<Entry>): (keys: seq<string>)
    ensures |keys| == TopSize(|entries|)
  {
    seq(TopSize(|entries|), i requires 0 <= i < TopSize(|entries|) => entries[i].key)
  }

  function KeysTo(entries: seq<Entry>, n: nat): set<string>
    requires n <= |entries|
  {
    if n == 0 then {} else KeysTo(entries, n - 1) + {entries[n - 1].key}
  }

  lemma {:induction false} KeysToIs(entries: seq<Entry>, n: nat)
    requires n <= |entries| && forall i, j :: 0 <= i < j < |entries| ==> entries[i].key != entries[j].key
    ensures forall key :: key in KeysTo(entries, n) <==> IsListed(entries, n, key)
    ensures |KeysTo(entries, n)| == n
  {
    if n == 0 {
    } else {
      hide IsListed;
      KeysToIs(entries, n - 1);
      forall key ensures key in KeysTo(entries, n) <==> IsListed(entries, n, key) {
        ListedStep(entries, n, key);
      }
      ListedStep(entries, n, entries[n - 1].key);
    }
  }

  lemma EnumerationSize(entries: seq<Entry>, counts: map<string, nat>)
    requires Enumerates(entries, counts)
    ensures |entries| == |counts|
  {
    KeysToIs(entries, |entries|);
    assert KeysTo(entries, |entries|) == counts.Keys;
  }

  /** The trending list holds min(5, number of categories) distinct categories by descending number of rows, and
      no category left out has more rows than one of them. */
  lemma TrendingIsTop(entries: seq<Entry>, counts: map<string, nat>)
    requires Ranked(entries, counts)
    ensures var top := Trending(entries);
      && |top| == (if |counts| < 5 then |counts| else 5)
      && (forall i, j :: 0 <= i < j < |top| ==> top[i] != top[j])
      && (forall i :: 0 <= i < |top| ==> top[i] in counts)
      && (forall i, j :: 0 <= i < j < |top| ==> counts[top[i]] >= counts[top[j]])
      && (forall key, i :: key in counts && key !in top && 0 <= i < |top| ==> counts[key] <= counts[top[i]])
  {
    EnumerationSize(entries, counts);
    var top := Trending(entries);
    forall j | 0 <= j < |top| ensures entries[j].key in top {
      assert top[j] == entries[j].key;
    }
    forall key, i | key in counts && key !in top && 0 <= i < |top| ensures counts[key] <= counts[top[i]] {
      assert IsListed(entries, |entries|, key);
      var j :| 0 <= j < |entries| && entries[j].key == key;
      assert entries[i].count >= entries[j].count;
    }
  }

  lemma {:induction false} SumBelow(entries: seq<Entry>, k: nat, n: nat, c: nat)
    requires k <= n <= |entries|
    requires forall i :: k <= i < n ==> entries[i].count <= c
    ensures SumCounts(entries, n) <= SumCounts(entries, k) + (n - k) * c
  {
    if n == k {
    } else {
      SumBelow(entries, k, n - 1, c);
      assert (n - k) * c == (n - 1 - k) * c + c;
    }
  }

  lemma {:induction false} SumAbove(entries: seq<Entry>, k: nat, c: nat)
    requires k <= |entries| && forall i :: 0 <= i < k ==> entries[i].count >= c
    ensures SumCounts(entries, k) >= k * c
  {
    if k == 0 {
    } else {
      SumAbove(entries, k - 1, c);
      assert k * c == (k - 1) * c + c;
    }
  }

  lemma ShareArithmetic(top: nat, all: nat, k: nat, n: nat, c: nat)
    requires k <= n && top >= k * c && all <= top + (n - k) * c
    ensures top * n >= k * all
  {
    var d := n - k;
    assert top * n == top * k + top * d;
    assert d * top >= d * (k * c);
    assert k * all <= k * top + k * (d * c);
    assert d * (k * c) == k * (d * c);
  }

  /** The trending categories cover at least their proportional share of the rows. */
  lemma TrendingShare(entries: seq<Entry>, col: seq<string>)
    requires Ranked(entries, Histogram(col))
    ensures var k := TopSize(|entries|); SumCounts(entries, k) * |entries| >= k * |col|
  {
    hide SumCounts, Histogram;
    CountsConserved(entries, col);
    var k := TopSize(|entries|);
    var c := if k == 0 then 0 else entries[k - 1].count;
    SumAbove(entries, k, c);
    SumBelow(entries, k, |entries|, c);
    ShareArithmetic(SumCounts(entries, k), |col|, k, |entries|, c);
  }

  /** The report table: a column may be missing; the present ones have one value per row. */
  datatype Reports = Reports(rows: nat, category: Option<seq<string>>, region: Option<seq<string>>,
                             month: Option<seq<string>>)

  predicate Rectangular(rows: nat, col: Option<seq<string>>) {
    col.Some? ==> |col.value| == rows
  }

  function Values(col: Option<seq<string>>): seq<string> {
    if col.Some? then col.value else []
  }

  /** `report_trends`; `ranked` is what the library sort makes of the category counts. */
  method ReportTrends(reports: Reports, ranked: seq<Entry>)
    returns (total: nat, byCategory: map<string, nat>, byRegion: map<string, nat>, byMonth: map<string, nat>,
             trending: seq<string>)
    requires Rectangular(reports.rows, reports.category) && Rectangular(reports.rows, reports.region)
    requires Rectangular(reports.rows, reports.month)
    requires Ranked(ranked, Histogram(Values(reports.category)))
    ensures total == reports.rows
    ensures byCategory == Histogram(Values(reports.category))
    ensures byRegion == Histogram(Values(reports.region))
    ensures byMonth == Histogram(Values(reports.month))
    ensures trending == Trending(ranked)
  {
    total, byCategory, byRegion, byMonth := reports.rows, map[], map[], map[];
    if total == 0 {
      assert Values(reports.category) == Values(reports.region) == Values(reports.month) == [];
      EnumerationSize(ranked, Histogram([]));
      assert Histogram([]) == map[];
      return total, byCategory, byRegion, byMonth, [];
    }
    if reports.category.Some? {
      byCategory := CountByValue(reports.category.value);
    }
    if reports.region.Some? {
      byRegion := CountByValue(reports.region.value);
    }
    if reports.month.Some? {
      byMonth := CountByRow(reports.month.value);
    }
    trending := Trending(ranked);
  }
}
