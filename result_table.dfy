/**
 * The result table of one reconciliation category (CategoryTable.jsx): a
 * case-insensitive search over every column, a stable sort on one column,
 * fixed pages of ten rows, a row highlight chosen by priority, the text of a
 * cell, and CSV export with a local fallback.
 *
 * The derivations are functions of (data, searchTerm, sortConfig, currentPage,
 * category); the component's four pieces of state live in TableState.
 */
module CategoryTable {
  import opened Wrappers
  import opened Values
  import Text
  import Sequences

  const PageSize: nat := 10

  const Matched := "matched"
  const InternalOnly := "internal_only"
  const ProviderOnly := "provider_only"

  function Min(a: int, b: int): int { if a <= b then a else b }
  function Max(a: int, b: int): int { if a >= b then a else b }

  // ---------------------------------------------------------------------------
  // Search (filteredData)
  // ---------------------------------------------------------------------------

  /**
   * `value?.toString().toLowerCase().includes(q)` for an already lower-cased q:
   * null never matches, whatever q is.
   */
  predicate ValueMatches(v: Value, loweredQuery: string) {
    match Stringify(v)
    case None => false
    case Some(t) => Text.Contains(Text.Lower(t), loweredQuery)
  }

  /** `Object.values(row).some(...)`: some column value matches the query. */
  predicate RowMatches(row: Record, query: string): (matches: bool)
    ensures matches ==> HasValue(row)
  {
    exists k :: k in row && ValueMatches(row[k], Text.Lower(query))
  }

  /**
   * `data.filter(...)`: the records that match, in their original order, each
   * as often as it occurs in data.
   */
  function FilterRows(data: seq<Record>, query: string): (kept: seq<Record>)
    ensures Sequences.Subsequence(kept, data)
    ensures forall row :: multiset(kept)[row] == if RowMatches(row, query) then multiset(data)[row] else 0
    decreases |data|
  {
    if data == [] then []
    else
      assert data == [data[0]] + data[1..];
      var rest := FilterRows(data[1..], query);
      if RowMatches(data[0], query) then [data[0]] + rest else rest
  }

  /** A record is kept exactly when it is in data and matches. */
  lemma FilterMembership(data: seq<Record>, query: string, row: Record)
    ensures row in FilterRows(data, query) <==> row in data && RowMatches(row, query)
  {
    var kept := FilterRows(data, query);
    assert row in kept <==> multiset(kept)[row] > 0;
    assert row in data <==> multiset(data)[row] > 0;
  }

  /**
   * With an empty query a record is kept iff some value is not null: "" is
   * contained in every text, but optional chaining drops null values.
   */
  lemma EmptyQueryMatches(row: Record)
    ensures RowMatches(row, "") <==> exists k :: k in row && row[k] != Null
  {
    if exists k :: k in row && row[k] != Null {
      var k :| k in row && row[k] != Null;
      Text.ContainsEmpty(Text.Lower(Stringify(row[k]).value));
      assert ValueMatches(row[k], Text.Lower(""));
    }
  }

  /** Some column of the record holds a value other than null. */
  predicate HasValue(row: Record) {
    exists k :: k in row && row[k] != Null
  }

  /** An empty query keeps the whole list when no record is all-null. */
  lemma {:induction false} EmptyQueryKeepsAll(data: seq<Record>)
    requires forall i :: 0 <= i < |data| ==> HasValue(data[i])
    ensures FilterRows(data, "") == data
    decreases |data|
  {
    if data != [] {
      EmptyQueryMatches(data[0]);
      assert forall i :: 0 <= i < |data[1..]| ==> data[1..][i] == data[i + 1];
      EmptyQueryKeepsAll(data[1..]);
    }
  }

  /** Case does not matter on either side of the search. */
  lemma QueryCaseInsensitive(row: Record, q1: string, q2: string)
    requires Text.Lower(q1) == Text.Lower(q2)
    ensures RowMatches(row, q1) <==> RowMatches(row, q2)
  {
  }

  // ---------------------------------------------------------------------------
  // Sort (sortConfig, handleSort, sortedData)
  // ---------------------------------------------------------------------------

  datatype Direction = Ascending | Descending
  datatype SortConfig = SortConfig(key: Option<string>, direction: Direction)

  const InitialSort := SortConfig(None, Ascending)

  /**
   * `handleSort(key)`: the key becomes the sort key; the direction becomes
   * descending exactly when the same key was already sorted ascending.
   */
  function NextSortConfig(prev: SortConfig, key: string): (next: SortConfig)
    ensures next.key == Some(key)
    ensures next.direction == Descending <==> prev.key == Some(key) && prev.direction == Ascending
  {
    SortConfig(Some(key), if prev.key == Some(key) && prev.direction == Ascending then Descending else Ascending)
  }

  /** Clicking the current sort column twice restores the configuration. */
  lemma SortToggleTwice(config: SortConfig, key: string)
    requires config.key == Some(key)
    ensures NextSortConfig(NextSortConfig(config, key), key) == config
  {
  }

  /** The first click on a column other than the sorted one sorts ascending. */
  lemma SortNewKeyAscending(config: SortConfig, key: string)
    requires config.key != Some(key)
    ensures NextSortConfig(config, key) == SortConfig(Some(key), Ascending)
  {
  }

  /** `if (!sortConfig.key)`: no key, or the empty column name, leaves the rows unsorted. */
  predicate SortActive(config: SortConfig) {
    config.key.Some? && config.key.value != ""
  }

  /**
   * a may stay before b: the comparator does not put b first. Ascending this
   * is a <= b, descending a >= b.
   */
  predicate InOrder(dir: Direction, a: Value, b: Value) {
    match dir
    case Ascending => !Less(b, a)
    case Descending => !Less(a, b)
  }

  lemma InOrderFlip(dir: Direction, a: Value, b: Value)
    requires !InOrder(dir, a, b)
    ensures a != b && InOrder(dir, b, a)
  {
    LessIrreflexive(a);
    if Less(a, b) && Less(b, a) {
      LessTransitive(a, b, a);
    }
  }

  lemma InOrderTransitive(dir: Direction, a: Value, b: Value, c: Value)
    requires InOrder(dir, a, b) && InOrder(dir, b, c)
    ensures InOrder(dir, a, c)
  {
    if !InOrder(dir, a, c) {
      InOrderFlip(dir, a, c);
      if a == b {
      } else {
        LessTotal(a, b);
        match dir
        case Ascending => LessTransitive(c, a, b);
        case Descending => LessTransitive(b, a, c);
      }
    }
  }

  /** Every pair of rows is in order on the key. */
  ghost predicate SortedBy(rows: seq<Record>, key: string, dir: Direction) {
    forall i, j :: 0 <= i < j < |rows| ==> InOrder(dir, Field(rows[i], key), Field(rows[j], key))
  }

  /** The rows whose key field equals v, in order: one class of equal sort keys. */
  function KeyClass(rows: seq<Record>, key: string, v: Value): (r: seq<Record>)
    decreases |rows|
  {
    if rows == [] then []
    else (if Field(rows[0], key) == v then [rows[0]] else []) + KeyClass(rows[1..], key, v)
  }

  /** Places row before the first element it may precede. */
  function Insert(row: Record, sorted: seq<Record>, key: string, dir: Direction): (r: seq<Record>)
    ensures multiset(r) == multiset(sorted) + multiset{row}
    decreases |sorted|
  {
    if sorted == [] then [row]
    else if InOrder(dir, Field(row, key), Field(sorted[0], key)) then [row] + sorted
    else
      assert sorted == [sorted[0]] + sorted[1..];
      [sorted[0]] + Insert(row, sorted[1..], key, dir)
  }

  /** Insert only adds `row`. */
  lemma InsertElements(row: Record, s: seq<Record>, key: string, dir: Direction, x: Record)
    requires x in Insert(row, s, key, dir)
    ensures x == row || x in s
  {
    assert x in multiset(Insert(row, s, key, dir));
  }

  /** In a sorted sequence the head is in order with every later row. */
  lemma SortedHead(s: seq<Record>, key: string, dir: Direction, x: Record)
    requires SortedBy(s, key, dir) && s != [] && x in s[1..]
    ensures InOrder(dir, Field(s[0], key), Field(x, key))
  {
    var k :| 0 <= k < |s[1..]| && s[1..][k] == x;
    assert s[k + 1] == x;
  }

  lemma SortedTail(s: seq<Record>, key: string, dir: Direction)
    requires SortedBy(s, key, dir) && s != []
    ensures SortedBy(s[1..], key, dir)
  {
    forall i, j | 0 <= i < j < |s[1..]|
      ensures InOrder(dir, Field(s[1..][i], key), Field(s[1..][j], key))
    {
      assert s[1..][i] == s[i + 1] && s[1..][j] == s[j + 1];
    }
  }

  /** A row in order with the head of a sorted sequence may go in front of it. */
  lemma SortedCons(row: Record, s: seq<Record>, key: string, dir: Direction)
    requires SortedBy(s, key, dir) && s != [] && InOrder(dir, Field(row, key), Field(s[0], key))
    ensures SortedBy([row] + s, key, dir)
  {
    var r := [row] + s;
    forall i, j | 0 <= i < j < |r|
      ensures InOrder(dir, Field(r[i], key), Field(r[j], key))
    {
      if i == 0 && j > 1 {
        InOrderTransitive(dir, Field(row, key), Field(s[0], key), Field(s[j - 1], key));
      }
    }
  }

  /** The head stays in front of the tail with `row` inserted, once `row` must follow it. */
  lemma SortedBehindHead(row: Record, s: seq<Record>, t: seq<Record>, key: string, dir: Direction)
    requires SortedBy(s, key, dir) && s != [] && InOrder(dir, Field(s[0], key), Field(row, key))
    requires SortedBy(t, key, dir)
    requires forall x :: x in t ==> x == row || x in s[1..]
    ensures SortedBy([s[0]] + t, key, dir)
  {
    var r := [s[0]] + t;
    forall i, j | 0 <= i < j < |r|
      ensures InOrder(dir, Field(r[i], key), Field(r[j], key))
    {
      if i == 0 {
        assert r[j] == t[j - 1] && t[j - 1] in t;
        if t[j - 1] != row {
          SortedHead(s, key, dir, t[j - 1]);
        }
      } else {
        assert r[i] == t[i - 1] && r[j] == t[j - 1];
      }
    }
  }

  lemma {:induction false} InsertSorted(row: Record, s: seq<Record>, key: string, dir: Direction)
    requires SortedBy(s, key, dir)
    ensures SortedBy(Insert(row, s, key, dir), key, dir)
    decreases |s|
  {
    if s == [] {
    } else if InOrder(dir, Field(row, key), Field(s[0], key)) {
      SortedCons(row, s, key, dir);
    } else {
      InOrderFlip(dir, Field(row, key), Field(s[0], key));
      SortedTail(s, key, dir);
      InsertSorted(row, s[1..], key, dir);
      var t := Insert(row, s[1..], key, dir);
      forall x | x in t
        ensures x == row || x in s[1..]
      {
        InsertElements(row, s[1..], key, dir, x);
      }
      SortedBehindHead(row, s, t, key, dir);
      assert Insert(row, s, key, dir) == [s[0]] + t;
    }
  }

  /** The class contribution of one row. */
  function KeyClassOf(row: Record, key: string, v: Value): seq<Record> {
    if Field(row, key) == v then [row] else []
  }

  lemma KeyClassCons(row: Record, rows: seq<Record>, key: string, v: Value)
    ensures KeyClass([row] + rows, key, v) == KeyClassOf(row, key, v) + KeyClass(rows, key, v)
  {
    assert ([row] + rows)[0] == row && ([row] + rows)[1..] == rows;
  }

  /** Rows with different keys never both belong to one class, so their order in it is moot. */
  lemma SwapDistinctKeys(x: Record, y: Record, rest: seq<Record>, key: string, v: Value)
    requires Field(x, key) != Field(y, key)
    ensures KeyClassOf(y, key, v) + (KeyClassOf(x, key, v) + rest) == KeyClassOf(x, key, v) + (KeyClassOf(y, key, v) + rest)
  {
  }

  lemma {:induction false} InsertStable(row: Record, s: seq<Record>, key: string, dir: Direction, v: Value)
    ensures KeyClass(Insert(row, s, key, dir), key, v) == KeyClass([row] + s, key, v)
    decreases |s|
  {
    if s != [] && !InOrder(dir, Field(row, key), Field(s[0], key)) {
      InOrderFlip(dir, Field(row, key), Field(s[0], key));
      var t := Insert(row, s[1..], key, dir);
      InsertStable(row, s[1..], key, dir, v);
      assert Insert(row, s, key, dir) == [s[0]] + t;
      calc {
        KeyClass(Insert(row, s, key, dir), key, v);
        KeyClass([s[0]] + t, key, v);
        { KeyClassCons(s[0], t, key, v); }
        KeyClassOf(s[0], key, v) + KeyClass(t, key, v);
        { KeyClassCons(row, s[1..], key, v); }
        KeyClassOf(s[0], key, v) + (KeyClassOf(row, key, v) + KeyClass(s[1..], key, v));
        { SwapDistinctKeys(row, s[0], KeyClass(s[1..], key, v), key, v); }
        KeyClassOf(row, key, v) + (KeyClassOf(s[0], key, v) + KeyClass(s[1..], key, v));
        { KeyClassCons(s[0], s[1..], key, v); assert s == [s[0]] + s[1..]; }
        KeyClassOf(row, key, v) + KeyClass(s, key, v);
        { KeyClassCons(row, s, key, v); }
        KeyClass([row] + s, key, v);
      }
    }
  }

  /** Insertion sort: stable, as `Array.prototype.sort` is. */
  function StableSort(rows: seq<Record>, key: string, dir: Direction): (sorted: seq<Record>)
    ensures multiset(sorted) == multiset(rows)
    decreases |rows|
  {
    if rows == [] then []
    else
      assert rows == [rows[0]] + rows[1..];
      Insert(rows[0], StableSort(rows[1..], key, dir), key, dir)
  }

  lemma {:induction false} StableSortSorted(rows: seq<Record>, key: string, dir: Direction)
    ensures SortedBy(StableSort(rows, key, dir), key, dir)
    decreases |rows|
  {
    if rows != [] {
      StableSortSorted(rows[1..], key, dir);
      InsertSorted(rows[0], StableSort(rows[1..], key, dir), key, dir);
    }
  }

  lemma {:induction false} StableSortStable(rows: seq<Record>, key: string, dir: Direction, v: Value)
    ensures KeyClass(StableSort(rows, key, dir), key, v) == KeyClass(rows, key, v)
    decreases |rows|
  {
    if rows != [] {
      var tail := StableSort(rows[1..], key, dir);
      StableSortStable(rows[1..], key, dir, v);
      InsertStable(rows[0], tail, key, dir, v);
      KeyClassCons(rows[0], tail, key, v);
      KeyClassCons(rows[0], rows[1..], key, v);
      assert rows == [rows[0]] + rows[1..];
    }
  }

  /**
   * `sortedData`: the filtered rows themselves when no key is set; otherwise a
   * sorted permutation in which rows with equal keys keep their order.
   */
  function SortRows(rows: seq<Record>, config: SortConfig): (sorted: seq<Record>)
    ensures multiset(sorted) == multiset(rows)
    ensures !SortActive(config) ==> sorted == rows
    ensures SortActive(config) ==> SortedBy(sorted, config.key.value, config.direction)
    ensures SortActive(config) ==>
              forall v :: KeyClass(sorted, config.key.value, v) == KeyClass(rows, config.key.value, v)
  {
    if !SortActive(config) then rows
    else
      var key := config.key.value;
      StableSortSorted(rows, key, config.direction);
      assert forall v :: KeyClass(StableSort(rows, key, config.direction), key, v) == KeyClass(rows, key, v) by {
        forall v {
          StableSortStable(rows, key, config.direction, v);
        }
      }
      StableSort(rows, key, config.direction)
  }

  /** The rows the table pages through: filter first, then sort. */
  function VisibleRows(data: seq<Record>, searchTerm: string, config: SortConfig): (rows: seq<Record>)
    ensures forall row :: multiset(rows)[row] == if RowMatches(row, searchTerm) then multiset(data)[row] else 0
  {
    SortRows(FilterRows(data, searchTerm), config)
  }

  // ---------------------------------------------------------------------------
  // Pages (paginatedData, totalPages, the "Showing" line)
  // ---------------------------------------------------------------------------

  /** `Math.ceil(n / 10)`: the least number of pages that holds n rows. */
  function PageCount(n: nat): (pages: nat)
    ensures pages * PageSize >= n
    ensures pages > 0 ==> (pages - 1) * PageSize < n
    ensures pages == 0 <==> n == 0
  {
    (n + PageSize - 1) / PageSize
  }

  function PageStart(page: nat): nat
    requires page >= 1
  {
    (page - 1) * PageSize
  }

  /**
   * `rows.slice(start, start + 10)`: the rows of one page; a page past the
   * last one is empty.
   */
  function PageRows(rows: seq<Record>, page: nat): (shown: seq<Record>)
    requires page >= 1
    ensures |shown| == if PageStart(page) >= |rows| then 0 else Min(PageSize, |rows| - PageStart(page))
    ensures forall i :: 0 <= i < |shown| ==> shown[i] == rows[PageStart(page) + i]
  {
    var start := PageStart(page);
    if start >= |rows| then [] else rows[start..Min(start + PageSize, |rows|)]
  }

  /** A page has rows exactly when it is one of the PageCount pages. */
  lemma PageNonEmptyIff(rows: seq<Record>, page: nat)
    requires page >= 1
    ensures PageRows(rows, page) != [] <==> page <= PageCount(|rows|)
    ensures |PageRows(rows, page)| <= PageSize
  {
  }

  /** The pages from `page` on, one after the other. */
  ghost function PagesFrom(rows: seq<Record>, page: nat): seq<Record>
    requires page >= 1
    decreases |rows| - PageStart(page)
  {
    if PageStart(page) >= |rows| then [] else PageRows(rows, page) + PagesFrom(rows, page + 1)
  }

  /** The pages, read in order, are the rows: nothing lost, nothing repeated. */
  lemma {:induction false} PagesPartitionRows(rows: seq<Record>, page: nat)
    requires page >= 1
    ensures PagesFrom(rows, page) == rows[Min(PageStart(page), |rows|)..]
    decreases |rows| - PageStart(page)
  {
    if PageStart(page) < |rows| {
      PagesPartitionRows(rows, page + 1);
      var start := PageStart(page);
      var stop := Min(start + PageSize, |rows|);
      assert PageStart(page + 1) == start + PageSize;
      assert rows[start..] == rows[start..stop] + rows[stop..];
    }
  }

  /** First row number of the "Showing a to b of n results" line. */
  function ShowingFrom(page: nat): nat
    requires page >= 1
  {
    PageStart(page) + 1
  }

  /** Last row number of the "Showing" line: `Math.min(page * 10, n)`. */
  function ShowingTo(page: nat, n: nat): nat {
    Min(page * PageSize, n)
  }

  /**
   * On a page that exists the "Showing" range counts exactly the rows shown;
   * past the last page it is an empty range.
   */
  lemma ShowingRangeCountsRows(rows: seq<Record>, page: nat)
    requires page >= 1
    ensures page <= PageCount(|rows|) ==>
              ShowingTo(page, |rows|) - ShowingFrom(page) + 1 == |PageRows(rows, page)|
    ensures page > PageCount(|rows|) ==> ShowingTo(page, |rows|) < ShowingFrom(page)
  {
  }

  /** The 15-row scenario: two pages, ten rows then five. */
  lemma FifteenRows(rows: seq<Record>)
    requires |rows| == 15
    ensures PageCount(|rows|) == 2
    ensures PageRows(rows, 1) == rows[..10] && PageRows(rows, 2) == rows[10..]
    ensures ShowingFrom(2) == 11 && ShowingTo(2, |rows|) == 15
  {
    assert PageRows(rows, 1) == rows[0..10];
    assert PageRows(rows, 2) == rows[10..15];
  }

  // ---------------------------------------------------------------------------
  // Row highlight (getRowClassName)
  // ---------------------------------------------------------------------------

  datatype Highlight =
    | HighRiskAnomaly   // bg-purple-200
    | AnomalyRow        // bg-purple-100
    | AmountMismatch    // bg-orange-100
    | StatusMismatch    // bg-red-100
    | InternalOnlyRow   // bg-yellow-100
    | ProviderOnlyRow   // bg-red-100
    | Plain             // base class only

  /** The first rule that applies wins; the comparisons are strict (`===`). */
  function RowHighlight(category: string, row: Record): (h: Highlight)
    ensures h == HighRiskAnomaly <==>
              category == Matched && Field(row, "anomaly") == Bool(true) && Field(row, "risk_level") == Str("High")
    ensures h == AnomalyRow <==>
              category == Matched && Field(row, "anomaly") == Bool(true) && Field(row, "risk_level") != Str("High")
    ensures h == AmountMismatch <==>
              category == Matched && Field(row, "anomaly") != Bool(true) && Field(row, "amount_match") == Bool(false)
    ensures h == StatusMismatch <==>
              category == Matched && Field(row, "anomaly") != Bool(true) &&
              Field(row, "amount_match") != Bool(false) && Field(row, "status_match") == Bool(false)
    ensures h == InternalOnlyRow <==> category == InternalOnly
    ensures h == ProviderOnlyRow <==> category == ProviderOnly
    ensures h == Plain <==>
              (category == Matched && Field(row, "anomaly") != Bool(true) &&
               Field(row, "amount_match") != Bool(false) && Field(row, "status_match") != Bool(false)) ||
              (category != Matched && category != InternalOnly && category != ProviderOnly)
  {
    if category == Matched then
      if Field(row, "anomaly") == Bool(true) then
        if Field(row, "risk_level") == Str("High") then HighRiskAnomaly else AnomalyRow
      else if Field(row, "amount_match") == Bool(false) then AmountMismatch
      else if Field(row, "status_match") == Bool(false) then StatusMismatch
      else Plain
    else if category == InternalOnly then InternalOnlyRow
    else if category == ProviderOnly then ProviderOnlyRow
    else Plain
  }

  const BaseRowClass := "border-b hover:bg-gray-50"

  function RowClassName(h: Highlight): (cls: string)
    ensures |cls| >= |BaseRowClass| && cls[..|BaseRowClass|] == BaseRowClass
    ensures h == Plain <==> cls == BaseRowClass
  {
    BaseRowClass +
      match h
      case HighRiskAnomaly => " bg-purple-200 border-purple-300"
      case AnomalyRow => " bg-purple-100 border-purple-200"
      case AmountMismatch => " bg-orange-100"
      case StatusMismatch => " bg-red-100"
      case InternalOnlyRow => " bg-yellow-100"
      case ProviderOnlyRow => " bg-red-100"
      case Plain => ""
  }

  /** A high-risk anomaly is never shown as an amount mismatch. */
  lemma AnomalyOutranksMismatch(row: Record)
    requires Field(row, "anomaly") == Bool(true) && Field(row, "risk_level") == Str("High")
    requires Field(row, "amount_match") == Bool(false)
    ensures RowHighlight(Matched, row) == HighRiskAnomaly
  {
  }

  // ---------------------------------------------------------------------------
  // Cells and headers
  // ---------------------------------------------------------------------------

  const CheckMark := "\U{2713}"
  const CrossMark := "\U{2717}"
  const Placeholder := "-"

  /**
   * A boolean shows as a check or a cross; otherwise the value's text, or '-'
   * when the value is null, absent, or its text is empty.
   */
  function CellText(row: Record, column: string): (text: string)
    ensures text != ""
    ensures Field(row, column) == Bool(true) ==> text == CheckMark
    ensures Field(row, column) == Bool(false) ==> text == CrossMark
    ensures Field(row, column) == Null || Field(row, column) == Str("") ==> text == Placeholder
    ensures Field(row, column).Str? && Field(row, column) != Str("") ==> text == Field(row, column).s
    ensures Field(row, column).Num? ==> text == Text.IntToString(Field(row, column).n)
  {
    match Field(row, column)
    case Bool(b) => if b then CheckMark else CrossMark
    case other =>
      match Stringify(other)
      case None => Placeholder
      case Some(t) => if t == "" then Placeholder else t
  }

  /** `column.replace(/_/g, ' ').toUpperCase()`. */
  function HeaderLabel(column: string): (heading: string)
    ensures |heading| == |column|
    ensures forall i :: 0 <= i < |column| ==>
              heading[i] == if column[i] == '_' then ' ' else Text.UpperChar(column[i])
    ensures forall i :: 0 <= i < |heading| ==> heading[i] != '_' && !Text.IsLower(heading[i])
    ensures forall i :: 0 <= i < |column| && column[i] != '_' && !Text.IsLower(column[i]) ==> heading[i] == column[i]
  {
    Text.Upper(Text.ReplaceChar(column, '_', ' '))
  }

  const UpArrow := "\U{2191}"
  const DownArrow := "\U{2193}"

  /** The arrow beside a header: only on the sort column, pointing by direction. */
  function SortIndicator(config: SortConfig, column: string): (arrow: Option<string>)
    ensures arrow.Some? <==> config.key == Some(column)
    ensures arrow.Some? ==> arrow.value == if config.direction == Ascending then UpArrow else DownArrow
  {
    if config.key == Some(column) then Some(if config.direction == Ascending then UpArrow else DownArrow)
    else None
  }

  // ---------------------------------------------------------------------------
  // Export (exportToCsvClient, exportToCsvServer)
  // ---------------------------------------------------------------------------

  /** What a saved file holds: the given records as CSV, or the server's response body. */
  datatype CsvBody = RecordsCsv(rows: seq<Record>) | ServerCsv
  datatype Download = Download(fileName: string, body: CsvBody)
  datatype ExportRequest = ExportRequest(category: string, sessionId: string)

  function ExportFileName(category: string): string {
    category + "_transactions.csv"
  }

  /**
   * Local export: nothing for an empty list; otherwise one file with the full,
   * unfiltered and unsorted data.
   */
  function ClientExport(data: seq<Record>, category: string): (saved: Option<Download>)
    ensures saved.None? <==> data == []
    ensures saved.Some? ==> saved.value.body == RecordsCsv(data) && saved.value.fileName == ExportFileName(category)
  {
    if data == [] then None else Some(Download(ExportFileName(category), RecordsCsv(data)))
  }

  /** `!sessionId` is false: a session id is present and not empty. */
  predicate HasSession(sessionId: Option<string>) {
    sessionId.Some? && sessionId.value != ""
  }

  // ---------------------------------------------------------------------------
  // The rendered view
  // ---------------------------------------------------------------------------

  datatype HeaderView = HeaderView(caption: string, indicator: Option<string>)
  datatype RowView = RowView(className: string, cells: map<string, string>)
  datatype Pager = Pager(
    showingFrom: nat, showingTo: nat, resultCount: nat,
    page: nat, pageCount: nat, previousEnabled: bool, nextEnabled: bool)
  datatype TableView =
    | NoData
    | Grid(recordCount: nat, headers: map<string, HeaderView>, rows: seq<RowView>,
           pager: Option<Pager>, serverExportEnabled: bool)

  function RenderRow(category: string, columns: set<string>, row: Record): (view: RowView)
    ensures view.cells.Keys == columns
    ensures view.className == RowClassName(RowHighlight(category, row))
  {
    RowView(RowClassName(RowHighlight(category, row)), map c | c in columns :: CellText(row, c))
  }

  /**
   * The pagination controls for `total` visible rows: shown only when there
   * is more than one page, with Previous disabled on the first page and Next
   * on the last.
   */
  function PagerView(total: nat, page: nat): (pager: Option<Pager>)
    requires page >= 1
    ensures pager.Some? <==> PageCount(total) > 1
    ensures pager.Some? ==>
              pager.value.page == page && pager.value.pageCount == PageCount(total) &&
              pager.value.resultCount == total &&
              pager.value.showingFrom == ShowingFrom(page) &&
              pager.value.showingTo == ShowingTo(page, total) &&
              (pager.value.previousEnabled <==> page != 1) &&
              (pager.value.nextEnabled <==> page != PageCount(total))
  {
    var pages := PageCount(total);
    if pages > 1 then
      Some(Pager(ShowingFrom(page), ShowingTo(page, total), total, page, pages, page != 1, page != pages))
    else None
  }

  /**
   * The whole table for one state: "No data available" for an empty list;
   * otherwise the headers of the first record's columns, the rows of the
   * current page, and the pagination controls only when there is more than
   * one page.
   */
  function Render(data: seq<Record>, category: string, searchTerm: string, config: SortConfig,
                  page: nat, exporting: bool): (view: TableView)
    requires page >= 1
    ensures view.NoData? <==> data == []
    ensures view.Grid? ==> view.recordCount == |data| && view.headers.Keys == data[0].Keys
    ensures view.Grid? ==>
              forall c :: c in view.headers ==> view.headers[c] == HeaderView(HeaderLabel(c), SortIndicator(config, c))
    ensures view.Grid? ==> view.serverExportEnabled == !exporting
    ensures view.Grid? ==>
              var shown := PageRows(VisibleRows(data, searchTerm, config), page);
              |view.rows| == |shown| <= PageSize &&
              forall i :: 0 <= i < |shown| ==> view.rows[i] == RenderRow(category, data[0].Keys, shown[i])
    ensures view.Grid? ==> view.pager == PagerView(|VisibleRows(data, searchTerm, config)|, page)
  {
    if data == [] then NoData
    else
      var columns := data[0].Keys;
      var visible := VisibleRows(data, searchTerm, config);
      var shown := PageRows(visible, page);
      Grid(
        |data|,
        map c | c in columns :: HeaderView(HeaderLabel(c), SortIndicator(config, c)),
        seq(|shown|, i requires 0 <= i < |shown| => RenderRow(category, columns, shown[i])),
        PagerView(|visible|, page),
        !exporting)
  }

  /** Before any search or sort the table pages through the records as given. */
  lemma UnsearchedUnsortedShowsAll(data: seq<Record>)
    requires forall i :: 0 <= i < |data| ==> HasValue(data[i])
    ensures VisibleRows(data, "", InitialSort) == data
  {
    EmptyQueryKeepsAll(data);
    assert !SortActive(InitialSort);
  }

  /**
   * 15 records and an empty search: "Page 1 of 2" with Previous disabled and
   * Next enabled; on page 2 rows 11 to 15 with Previous enabled and Next disabled.
   */
  lemma FifteenRowsView(data: seq<Record>)
    requires |data| == 15 && forall i :: 0 <= i < |data| ==> HasValue(data[i])
    ensures Render(data, Matched, "", InitialSort, 1, false).pager == Some(Pager(1, 10, 15, 1, 2, false, true))
    ensures Render(data, Matched, "", InitialSort, 2, false).pager == Some(Pager(11, 15, 15, 2, 2, true, false))
  {
    UnsearchedUnsortedShowsAll(data);
    assert PagerView(15, 1) == Some(Pager(1, 10, 15, 1, 2, false, true));
    assert PagerView(15, 2) == Some(Pager(11, 15, 15, 2, 2, true, false));
  }

  /**
   * Because the page is not reset when the search or the sort changes, a page
   * beyond the last one of the new result shows no rows.
   */
  lemma StalePageIsEmpty(data: seq<Record>, category: string, searchTerm: string, config: SortConfig,
                         page: nat, exporting: bool)
    requires page >= 1 && page > PageCount(|VisibleRows(data, searchTerm, config)|)
    ensures Render(data, category, searchTerm, config, page, exporting).Grid? ==>
              Render(data, category, searchTerm, config, page, exporting).rows == []
  {
  }

  // ---------------------------------------------------------------------------
  // Component state
  // ---------------------------------------------------------------------------

  /** One mounted table: its props and its four `useState` values. */
  class TableState {
    const data: seq<Record>
    const category: string
    const sessionId: Option<string>

    var searchTerm: string
    var currentPage: nat
    var sortConfig: SortConfig
    var exporting: bool

    /** Pages are numbered from 1; nothing keeps currentPage within the page count. */
    ghost predicate Valid()
      reads this
    {
      currentPage >= 1
    }

    constructor (data: seq<Record>, category: string, sessionId: Option<string>)
      ensures Valid()
      ensures this.data == data && this.category == category && this.sessionId == sessionId
      ensures searchTerm == "" && currentPage == 1 && sortConfig == InitialSort && !exporting
    {
      this.data := data;
      this.category := category;
      this.sessionId := sessionId;
      searchTerm := "";
      currentPage := 1;
      sortConfig := InitialSort;
      exporting := false;
    }

    function Visible(): seq<Record>
      reads this
    {
      VisibleRows(data, searchTerm, sortConfig)
    }

    function View(): TableView
      reads this
      requires Valid()
    {
      Render(data, category, searchTerm, sortConfig, currentPage, exporting)
    }

    /** Typing in the search box; the current page is left as it was. */
    method SetSearchTerm(term: string)
      requires Valid()
      modifies this`searchTerm
      ensures Valid()
      ensures searchTerm == term && currentPage == old(currentPage) && sortConfig == old(sortConfig)
    {
      searchTerm := term;
    }

    /** Clicking a column header; the current page is left as it was. */
    method HandleSort(key: string)
      requires Valid()
      modifies this`sortConfig
      ensures Valid()
      ensures sortConfig == NextSortConfig(old(sortConfig), key)
      ensures currentPage == old(currentPage) && searchTerm == old(searchTerm)
    {
      sortConfig := NextSortConfig(sortConfig, key);
    }

    /** "Previous", which exists only while there is more than one page. */
    method PreviousPage()
      requires Valid() && PageCount(|Visible()|) > 1
      modifies this`currentPage
      ensures Valid()
      ensures currentPage == Max(old(currentPage) - 1, 1)
    {
      currentPage := Max(currentPage - 1, 1);
    }

    /** "Next", which exists only while there is more than one page. */
    method NextPage()
      requires Valid() && PageCount(|Visible()|) > 1
      modifies this`currentPage
      ensures Valid()
      ensures currentPage == Min(old(currentPage) + 1, PageCount(|Visible()|))
    {
      currentPage := Min(currentPage + 1, PageCount(|Visible()|));
    }

    /**
     * First half of `exportToCsvServer`: without a session it is the local
     * export; with one it marks the export pending and issues the request.
     */
    method StartServerExport() returns (request: Option<ExportRequest>, saved: Option<Download>)
      requires Valid()
      modifies this`exporting
      ensures Valid()
      ensures !HasSession(sessionId) ==>
                request.None? && saved == ClientExport(data, category) && exporting == old(exporting)
      ensures HasSession(sessionId) ==>
                request == Some(ExportRequest(category, sessionId.value)) && saved.None? && exporting
    {
      if !HasSession(sessionId) {
        request, saved := None, ClientExport(data, category);
        return;
      }
      exporting := true;
      request, saved := Some(ExportRequest(category, sessionId.value)), None;
    }

    /**
     * Second half, once the request settles: the server's file on success,
     * exactly one local export on failure, and the export no longer pending.
     */
    method CompleteServerExport(response: Result<(), string>) returns (saved: Option<Download>)
      requires Valid() && exporting
      modifies this`exporting
      ensures Valid()
      ensures !exporting
      ensures response.Ok? ==> saved == Some(Download(ExportFileName(category), ServerCsv))
      ensures response.Err? ==> saved == ClientExport(data, category)
    {
      if response.Ok? {
        saved := Some(Download(ExportFileName(category), ServerCsv));
      } else {
        saved := ClientExport(data, category);
      }
      exporting := false;
    }
  }
}
