/**
 * The orchestrator `DurableGenerateReport`: one status lookup per fetched
 * transaction, then the status summary over all of the lookups' results.
 * The fetched batch is an input; the lookups run one after another, so
 * every result is available before the summary is computed.
 */
module Orchestrator {
  import opened Orders
  import opened Grouping

  /** The summary query over the lookup results: one row per distinct status. */
  function Summarize(tasks: seq<OrderDetails>): (report: seq<ReportEntry>)
    ensures GroupedCountOf(Statuses(tasks), report)
    ensures TotalCount(report) == |tasks|
  {
    CountByStatusCorrect(Statuses(tasks));
    CountByStatusTotal(Statuses(tasks));
    CountByStatus(Statuses(tasks))
  }

  /**
   * Fans out one lookup per transaction, keeping the batch's order, and
   * summarizes the results. `tasks` is the list of lookup results.
   */
  method RunOrchestrator(transactions: seq<Transaction>) returns (tasks: seq<OrderDetails>, report: seq<ReportEntry>)
    ensures |tasks| == |transactions|
    ensures forall i :: 0 <= i < |transactions| ==>
      tasks[i] == GetOrderProcess(transactions[i]) && tasks[i].orderId == transactions[i].id
    ensures report == Summarize(tasks)
    ensures GroupedCountOf(Statuses(tasks), report)
    ensures |report| <= 4
    ensures forall i :: 0 <= i < |report| ==> 1 <= report[i].status <= 4 && report[i].count >= 1
    ensures TotalCount(report) == |transactions|
  {
    tasks := [];
    for i := 0 to |transactions|
      invariant |tasks| == i
      invariant forall k :: 0 <= k < i ==> tasks[k] == GetOrderProcess(transactions[k])
    {
      tasks := tasks + [GetOrderProcess(transactions[i])];
    }
    report := Summarize(tasks);
    AtMostFourGroups(Statuses(tasks), report);
  }

  /**
   * A batch created at minutes 0, 1, 4 and 6 has statuses 1, 2, 1, 3, and its
   * report is (1, 2), (2, 1), (3, 1).
   */
  lemma ExampleBatchReport(tasks: seq<OrderDetails>)
    requires |tasks| == 4
    requires tasks[0] == GetOrderProcess(Transaction("ch_a", 0))
    requires tasks[1] == GetOrderProcess(Transaction("ch_b", 1))
    requires tasks[2] == GetOrderProcess(Transaction("ch_c", 4))
    requires tasks[3] == GetOrderProcess(Transaction("ch_d", 6))
    ensures Summarize(tasks) == [ReportEntry(1, 2), ReportEntry(2, 1), ReportEntry(3, 1)]
  {
    assert Statuses(tasks) == [1, 2, 1, 3];
    CountByStatusExample(1, 2, 3);
  }

  /** An empty batch yields an empty report. */
  lemma EmptyBatchReport()
    ensures Summarize([]) == []
  {
  }
}
