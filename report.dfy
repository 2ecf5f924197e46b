/**
 * The summary as it travels from reconcile_transactions to the dashboard:
 * the counts the back end computes, shown by SummaryDashboard.
 */
module Report {
  import opened Wrappers
  import Reconciliation
  import SummaryDashboard

  /**
   * The JSON summary the dashboard receives. The anomaly counters come from
   * detect_anomalies, which is not part of this model, so they arrive absent.
   */
  function DashboardSummary(s: Reconciliation.ReconSummary): (d: SummaryDashboard.Summary)
    ensures d.matched == s.matched && d.internalOnly == s.internalOnly && d.providerOnly == s.providerOnly
    ensures d.amountMismatches == Some(s.amountMismatches) && d.statusMismatches == Some(s.statusMismatches)
  {
    SummaryDashboard.Summary(s.matched, s.internalOnly, s.providerOnly, None, None,
                             Some(s.amountMismatches), Some(s.statusMismatches))
  }

  /**
   * The dashboard's "Total Transactions" is the number of distinct
   * references across both files, and the mismatch counters never exceed
   * the matched count.
   */
  lemma DashboardTotalCountsReferences(internal: Reconciliation.Frame, provider: Reconciliation.Frame)
    requires Reconciliation.Reconcile(internal, provider).Ok?
    ensures var s := Reconciliation.Reconcile(internal, provider).value.summary;
            var view := SummaryDashboard.Render(Some(DashboardSummary(s)), None);
            view.Some? &&
            view.value.total == |internal.rows.Keys + provider.rows.Keys| &&
            view.value.amountMismatches <= s.matched && view.value.statusMismatches <= s.matched
  {
    Reconciliation.SummaryCountsAddUp(internal, provider);
  }
}
