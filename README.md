# Durable order-status report

This project models the report computed by the `DurableGenerateReport` orchestration of the ShoppitySpa demo. The orchestration fetches a batch of Stripe charges. It then runs the activity `Durable_GetOrderProcess` once per charge, which gives each charge an order status and copies the charge id as the order id. Finally it summarizes the results with a LINQ `group … by status` query into one `{status, count}` row per distinct status.

The model is a sequential pipeline `seq<Transaction>` → `seq<OrderDetails>` → `seq<ReportEntry>`:

- `orders.dfy`, module `Orders`: the transaction and order-details records, and the status lookup `GetOrderProcess`. The status is the creation minute modulo 4, plus 1.
- `grouping.dfy`, module `Grouping`: the group-and-count step, written as the left-to-right walk that `Enumerable.GroupBy` performs (`CountByStatus`, built on `Bump`). It also holds a reference predicate, the ghost predicate `GroupedCountOf`, which states what a correct result is without computing one. Lemmas show that the walk satisfies `GroupedCountOf` and that `GroupedCountOf` allows exactly one result.
- `orchestrator.dfy`, module `Orchestrator`: the orchestrator body. `RunOrchestrator` is a method whose loop appends one lookup result per transaction to the list `tasks`, in batch order. It then summarizes `tasks`.

Modelling choices:

- A transaction is reduced to its id and the minute of its creation time, typed 0..59 as `DateTime.Minute` is.
- A status is the `int` value of the `Status` enum. A C# cast from `int` to an enum accepts any value, so the fact that a status lies in 1..4 is proved, not built into the type. The enum's names are not part of this model, so a report row shows the status value where the code returns `s.Key.ToString()`.
- Groups come out in the order their status first occurs, which is how `Enumerable.GroupBy` orders its groups. Only the count of each group is kept, because that is all the query selects.
- The code does not sort the rows by status; they stay in that first-occurrence order (lines 40-42). It has no error row, no log of its own, no retries and no cancellation. A failed lookup is left to the Durable Functions host.

## Model

| member | source | states |
|---|---|---|
| `Orders.GetOrderProcess` | ProcessOrder/DurableGenerateReport.cs:71-77 | the order id equals the transaction id; the status lies in 1..4; status − 1 is congruent to the creation minute modulo 4 |
| `Orders.EveryStatusOccurs` | ProcessOrder/DurableGenerateReport.cs:76 | each of the four statuses is produced by some creation minute, so no status value is unreachable |
| `Orchestrator.RunOrchestrator` | ProcessOrder/DurableGenerateReport.cs:24-42 | exactly one lookup result per fetched transaction, in the same order, each carrying that transaction's id; the report is the summary of those results; it has at most four rows, every status in 1..4, every count at least 1, and the counts sum to the batch size |
| `Orchestrator.Summarize` | ProcessOrder/DurableGenerateReport.cs:40-42 | the report is a correct grouped count of the results' statuses (the grouping key `details.Result.status`, taken by `Orders.Statuses`, which has no contract of its own), and its counts sum to the number of results |
| `Grouping.Bump` | ProcessOrder/DurableGenerateReport.cs:40-41 | adding one element to its key's group leaves the report the same length or one row longer, and every key is the added one or an existing key; `BumpShape` gives the exact effect when keys are distinct |
| `Grouping.CountByStatus` | ProcessOrder/DurableGenerateReport.cs:40-42 | the group-and-count walk has no more rows than elements, and every key occurs among the grouped statuses; `CountByStatusCorrect` proves it satisfies `GroupedCountOf`, and `GroupedCountUnique` proves that predicate fixes the result |
| `Grouping.FirstIndex` | ProcessOrder/DurableGenerateReport.cs:40-41 | the position returned holds the value and no earlier position does; this is the first-occurrence order that groups follow |
| `Grouping.BumpShape` | ProcessOrder/DurableGenerateReport.cs:40-41 | adding an element raises the count of its group by one and changes no other row; if the key has no group yet, a row with count 1 is appended at the end |
| `Grouping.BumpTotal` | ProcessOrder/DurableGenerateReport.cs:40-42 | adding one element raises the sum of the counts by exactly one |
| `Grouping.CountByStatusTotal` | ProcessOrder/DurableGenerateReport.cs:40-42 | the counts of the report sum to the number of grouped results |
| `Grouping.FirstIndexSnoc` | ProcessOrder/DurableGenerateReport.cs:40-41 | appending a result does not move where an earlier status first occurs |
| `Grouping.FirstIndexAppended` | ProcessOrder/DurableGenerateReport.cs:40-41 | a new status first occurs at the position where it is appended |
| `Grouping.BumpExisting` | ProcessOrder/DurableGenerateReport.cs:40-42 | adding a result whose status already has a group keeps the grouping correct for the longer sequence |
| `Grouping.BumpNew` | ProcessOrder/DurableGenerateReport.cs:40-42 | adding a result with a new status keeps the grouping correct, with the new group last |
| `Grouping.CountByStatusCorrect` | ProcessOrder/DurableGenerateReport.cs:40-42 | the grouping satisfies `GroupedCountOf`: keys pairwise distinct, each count equal to the number of results with that status, every result's status present, and rows ordered by first occurrence |
| `Grouping.OrderedKeysSameHead` | ProcessOrder/DurableGenerateReport.cs:40-41 | two key sequences in first-occurrence order with the same keys start with the same key |
| `Grouping.OrderedKeysTail` | ProcessOrder/DurableGenerateReport.cs:40-41 | dropping the first key of such a sequence keeps it ordered and leaves exactly the other keys |
| `Grouping.SameKeysEmpty` | ProcessOrder/DurableGenerateReport.cs:40-41 | helper for `OrderedKeysUnique`: two key sequences with the same members are either both empty or both non-empty |
| `Grouping.OrderedKeysUnique` | ProcessOrder/DurableGenerateReport.cs:40-41 | two key sequences in first-occurrence order with the same keys are equal |
| `Grouping.GroupedCountUnique` | ProcessOrder/DurableGenerateReport.cs:40-42 | `GroupedCountOf` fixes the report: any two correct grouped counts of the same results are equal |
| `Grouping.GroupedCountMembership` | ProcessOrder/DurableGenerateReport.cs:40-42 | a row is in the report if and only if its status occurs among the results and its count is the number of results with that status |
| `Grouping.CountByStatusPermutation` | ProcessOrder/DurableGenerateReport.cs:40-42 | reordering the results keeps the same set of rows; only the order of the rows can change |
| `Grouping.KeysWithin` | ProcessOrder/DurableGenerateReport.cs:40-42 | helper for `AtMostFourGroups`: pairwise distinct keys taken from a set are no more than the set's size |
| `Grouping.AtMostFourGroups` | ProcessOrder/DurableGenerateReport.cs:40-42 | when every status is in 1..4, the report has at most four rows, each with a status in 1..4 and a count of at least 1 |
| `Grouping.EmptyGroupedCount` | ProcessOrder/DurableGenerateReport.cs:40-42 | the only correct grouped count of no results is the empty report |
| `Grouping.CountByStatusExample` | ProcessOrder/DurableGenerateReport.cs:40-42 | statuses A, B, A, C give the rows (A, 2), (B, 1), (C, 1), in that order |
| `Orchestrator.ExampleBatchReport` | ProcessOrder/DurableGenerateReport.cs:30-42 | charges created at minutes 0, 1, 4 and 6 give the report (1, 2), (2, 1), (3, 1) |
| `Orchestrator.EmptyBatchReport` | ProcessOrder/DurableGenerateReport.cs:30-42 | an empty batch gives an empty report |

## Left out

- Fetching the transactions (`Durable_GetTransactions`, the Cosmos DB query and the `DocumentClient` built from environment variables): this is foreign I/O. The batch is an input of any length. That covers every batch of at most 100 charges that the hard-coded `SELECT top 100` (line 52) can return. The `maxRecords` argument (line 48) is never read.
- The HTTP starter `DurableGenerateReport_HttpStart` and its status-check response: this is HTTP and orchestration-client plumbing.
- `CallActivityAsync`, `Task.WhenAll`, and the host's replay and checkpointing: these are concurrency and persistence handled by the Durable Functions library. The lookups are modelled as run one after another, which gives the same results because each lookup depends only on its own transaction. Lookup failures, retries and cancellation are not modelled, because the code does not handle them.
- Logging through `TraceWriter`, the unused `orderTotals` list, and the `Status` enum's names (`ToString()`): logging and the unused list have no effect on the result, and the enum's definition is not part of this model.
- `RunOrchestrator`: the source returns only the report. The model also returns the list of lookup results as `tasks`, so that its contract can state the one-to-one correspondence with the batch.
