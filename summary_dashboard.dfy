/**
 * The read-only summary view (SummaryDashboard.jsx): category counts and
 * their share of the total, the quality counters, and the inferred column
 * mappings. Percentages are kept in integer tenths of a percent.
 */
module SummaryDashboard {
  import opened Wrappers
  import Text

  /** The summary object; the four quality counters may be absent. */
  datatype Summary = Summary(
    matched: nat, internalOnly: nat, providerOnly: nat,
    anomalies: Option<nat>, highRisk: Option<nat>,
    amountMismatches: Option<nat>, statusMismatches: Option<nat>)

  /** `column_mappings`: standard field name to original header, per file; either may be absent. */
  datatype ColumnMappings = ColumnMappings(internal: Option<map<string, string>>, provider: Option<map<string, string>>)

  /** One line of the mapping panel: `original → standard`. */
  datatype MappingEntry = MappingEntry(original: string, standard: string)
  datatype MappingPanel = MappingPanel(internal: set<MappingEntry>, provider: set<MappingEntry>)

  /** What the dashboard shows: the three category cards, the quality counters and the mapping panel. */
  datatype Dashboard = Dashboard(
    total: nat,
    matchedCount: nat, internalCount: nat, providerCount: nat,
    matchedPercent: string, internalPercent: string, providerPercent: string,
    anomalies: nat, highRisk: nat, amountMismatches: nat, statusMismatches: nat,
    mappingPanel: Option<MappingPanel>)

  lemma DivisionBounds(a: nat, d: nat)
    requires d > 0
    ensures (a / d) * d <= a < (a / d) * d + d
  {
  }

  lemma MultiplyMonotonic(x: nat, y: nat, d: nat)
    requires x <= y
    ensures x * d <= y * d
  {
  }

  lemma ShareAtMostWhole(count: nat, total: nat, q: nat)
    requires total > 0 && q * (2 * total) <= 2000 * count + total
    ensures count <= total ==> q <= 1000
  {
    if count <= total && q > 1000 {
      MultiplyMonotonic(1001, q, 2 * total);
    }
  }

  /**
   * `(count / total * 100).toFixed(1)` in tenths: the nearest tenth of a
   * percent, ties rounded up; 0 when the total is 0.
   */
  function PercentTenths(count: nat, total: nat): (tenths: nat)
    ensures total == 0 ==> tenths == 0
    ensures total > 0 ==> 2000 * count - total <= tenths * (2 * total) <= 2000 * count + total
    ensures total > 0 ==> 2000 * count + total < tenths * (2 * total) + 2 * total
    ensures count <= total ==> tenths <= 1000
  {
    if total == 0 then 0
    else
      var q := (2000 * count + total) / (2 * total);
      DivisionBounds(2000 * count + total, 2 * total);
      ShareAtMostWhole(count, total, q);
      q
  }

  /** Tenths written with one decimal: 811 as "81.1". */
  function TenthsText(tenths: nat): (text: string)
    ensures |text| >= 3 && text[|text| - 2] == '.'
  {
    Text.NatToString(tenths / 10) + "." + [Text.DigitChar(tenths % 10)]
  }

  /** The decimal text reads back as the same number of tenths. */
  lemma TenthsTextRoundTrip(tenths: nat)
    ensures var text := TenthsText(tenths);
            (forall i :: 0 <= i < |text| - 2 ==> Text.IsDigit(text[i])) &&
            Text.IsDigit(text[|text| - 1]) &&
            Text.ParseDigits(text[..|text| - 2]) * 10 + Text.DigitValue(text[|text| - 1]) == tenths
  {
    var text := TenthsText(tenths);
    assert text[..|text| - 2] == Text.NatToString(tenths / 10);
    Text.ParseNatToString(tenths / 10);
  }

  /** What the "% of total" line shows: the bare `0` without a total, else one decimal. */
  function PercentText(count: nat, total: nat): (text: string)
    ensures total == 0 ==> text == "0"
    ensures total > 0 ==> text == TenthsText(PercentTenths(count, total))
  {
    if total == 0 then "0" else TenthsText(PercentTenths(count, total))
  }

  /** `summary.x || 0`: an absent counter shows as 0. */
  function Counter(value: Option<nat>): (shown: nat)
    ensures value.None? ==> shown == 0
    ensures value.Some? ==> shown == value.value
  {
    value.GetOr(0)
  }

  /** `Object.entries(m || {})`: one `original → standard` entry per mapped field. */
  function MappingEntries(m: Option<map<string, string>>): (entries: set<MappingEntry>)
    ensures m.None? ==> entries == {}
    ensures forall e :: e in entries <==> m.Some? && e.standard in m.value && m.value[e.standard] == e.original
  {
    match m
    case None => {}
    case Some(fields) => set standard | standard in fields :: MappingEntry(fields[standard], standard)
  }

  /**
   * The dashboard: nothing at all without a summary; otherwise the total of
   * the three categories, each one's percentage, the counters, and a mapping
   * panel exactly when mappings were given.
   */
  function Render(summary: Option<Summary>, columnMappings: Option<ColumnMappings>): (view: Option<Dashboard>)
    ensures view.None? <==> summary.None?
    ensures view.Some? ==>
              var s := summary.value;
              var d := view.value;
              d.total == s.matched + s.internalOnly + s.providerOnly &&
              d.matchedCount == s.matched && d.internalCount == s.internalOnly && d.providerCount == s.providerOnly &&
              d.matchedPercent == PercentText(s.matched, d.total) &&
              d.internalPercent == PercentText(s.internalOnly, d.total) &&
              d.providerPercent == PercentText(s.providerOnly, d.total) &&
              d.anomalies == Counter(s.anomalies) && d.highRisk == Counter(s.highRisk) &&
              d.amountMismatches == Counter(s.amountMismatches) &&
              d.statusMismatches == Counter(s.statusMismatches)
    ensures view.Some? ==> (view.value.mappingPanel.Some? <==> columnMappings.Some?)
    ensures view.Some? && columnMappings.Some? ==>
              view.value.mappingPanel.value.internal == MappingEntries(columnMappings.value.internal) &&
              view.value.mappingPanel.value.provider == MappingEntries(columnMappings.value.provider)
  {
    match summary
    case None => None
    case Some(s) =>
      var total := s.matched + s.internalOnly + s.providerOnly;
      Some(Dashboard(
        total,
        s.matched, s.internalOnly, s.providerOnly,
        PercentText(s.matched, total), PercentText(s.internalOnly, total), PercentText(s.providerOnly, total),
        Counter(s.anomalies), Counter(s.highRisk), Counter(s.amountMismatches), Counter(s.statusMismatches),
        match columnMappings
        case None => None
        case Some(cm) => Some(MappingPanel(MappingEntries(cm.internal), MappingEntries(cm.provider)))))
  }

  /** Every category's share is at most 100.0%. */
  lemma PercentAtMostHundred(s: Summary)
    ensures var total := s.matched + s.internalOnly + s.providerOnly;
            PercentTenths(s.matched, total) <= 1000 && PercentTenths(s.internalOnly, total) <= 1000 &&
            PercentTenths(s.providerOnly, total) <= 1000
  {
  }

  /** Counts 150, 25 and 10: a total of 185 shown as 81.1%, 13.5% and 5.4%. */
  lemma ExampleSummary()
    ensures var view := Render(Some(Summary(150, 25, 10, Some(5), Some(2), Some(8), None)), None);
            view.Some? && view.value.total == 185 &&
            view.value.matchedCount == 150 && view.value.internalCount == 25 && view.value.providerCount == 10 &&
            view.value.matchedPercent == "81.1" && view.value.internalPercent == "13.5" &&
            view.value.providerPercent == "5.4" && view.value.statusMismatches == 0 &&
            view.value.mappingPanel.None?
  {
    assert PercentTenths(150, 185) == 811;
    assert PercentTenths(25, 185) == 135;
    assert PercentTenths(10, 185) == 54;
    assert Text.NatToString(81) == "81";
    assert Text.NatToString(13) == "13";
  }
}
