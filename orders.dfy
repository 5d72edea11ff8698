/**
 * Payment transactions and the order details looked up for each of them
 * (the activity `Durable_GetOrderProcess`).
 */
module Orders {

  /** `DateTime.Minute` of a transaction's creation time: always 0..59. */
  type Minute = m: int | 0 <= m < 60

  /** A fetched payment charge, reduced to the two fields the report reads. */
  datatype Transaction = Transaction(id: string, createdMinute: Minute)

  /**
   * The looked-up order. `status` is the underlying value of the `Status`
   * enum: a C# cast from `int` accepts any value, so it is an `int` here and
   * its range is a proved fact rather than a type.
   */
  datatype OrderDetails = OrderDetails(status: int, orderId: string)

  /**
   * The status lookup: the status is the creation minute modulo 4, plus one,
   * and the order id is the transaction's id. The minute is never negative,
   * so C#'s truncating `%` and Dafny's Euclidean `%` agree here.
   */
  function GetOrderProcess(t: Transaction): (d: OrderDetails)
    ensures d.orderId == t.id
    ensures 1 <= d.status <= 4
    ensures (d.status - 1 - t.createdMinute) % 4 == 0
  {
    OrderDetails(t.createdMinute % 4 + 1, t.id)
  }

  /** Every one of the four statuses is produced by some creation minute. */
  lemma EveryStatusOccurs(id: string, s: int)
    requires 1 <= s <= 4
    ensures exists m: Minute :: GetOrderProcess(Transaction(id, m)).status == s
  {
    var m: Minute := s - 1;
    assert GetOrderProcess(Transaction(id, m)).status == s;
  }

  /** The grouping key `details.Result.status` of each looked-up order, in the same order. */
  function Statuses(details: seq<OrderDetails>): seq<int>
  {
    seq(|details|, i requires 0 <= i < |details| => details[i].status)
  }
}
