/**
 * Model of class DBHelper in app/helpers/db_helper.py, over an abstract
 * in-memory database instead of a MySQL connection.
 *
 * The store holds three tables:
 *  - `orders`: the order_id column of the `orders` table, which
 *    get_next_order_id reads (nothing in this class writes it);
 *  - `orderItems`: the rows the `insert_order_item` stored procedure
 *    writes, one per successful call;
 *  - `orderTracking`: the rows of the `order_tracking` table, in insertion
 *    order.
 * What the backend decides on its own is given as two more fields, which
 * no method changes: `rejected`, the item rows on which the stored
 * procedure raises an error, and `totals`, the non-NULL answers of the SQL
 * function `get_total_order_price` (an order id absent from it gets NULL).
 */
module OrderStore {
  import opened Wrappers

  datatype ItemRow = ItemRow(foodItem: string, quantity: int, orderId: int)

  datatype TrackingRow = TrackingRow(orderId: int, status: string)

  /** A call that reached the backend, in the order the calls were made. */
  datatype Call =
    | CallSelectMaxOrderId
    | CallInsertOrderItem(item: ItemRow)
    | CallInsertTracking(entry: TrackingRow)

  /** SQL `MAX` over a non-empty column. */
  function MaxOf(ids: seq<int>): (m: int)
    requires ids != []
    ensures m in ids
    ensures forall k :: 0 <= k < |ids| ==> ids[k] <= m
  {
    if |ids| == 1 then ids[0]
    else
      var rest := MaxOf(ids[1..]);
      if ids[0] >= rest then ids[0] else rest
  }

  /**
   * The id get_next_order_id returns: 1 when `MAX(order_id)` is NULL (no
   * rows), otherwise the maximum plus one.
   */
  function NextOrderId(orders: seq<int>): (id: int)
    ensures orders == [] ==> id == 1
    ensures orders != [] ==> id - 1 in orders
    ensures forall k :: 0 <= k < |orders| ==> orders[k] < id
    ensures id !in orders
  {
    if orders == [] then 1 else MaxOf(orders) + 1
  }

  /**
   * The status column of the first `order_tracking` row whose order_id is
   * `orderId`, or None when there is none.
   */
  function FirstStatus(tracking: seq<TrackingRow>, orderId: int): (r: Option<string>)
    ensures r.None? <==> forall k :: 0 <= k < |tracking| ==> tracking[k].orderId != orderId
    ensures r.Some? ==> exists k :: 0 <= k < |tracking| && tracking[k] == TrackingRow(orderId, r.value)
                                    && forall k' :: 0 <= k' < k ==> tracking[k'].orderId != orderId
  {
    if tracking == [] then None
    else if tracking[0].orderId == orderId then Some(tracking[0].status)
    else FirstStatus(tracking[1..], orderId)
  }

  class DbHelper {
    var orders: seq<int>
    var orderItems: seq<ItemRow>
    var orderTracking: seq<TrackingRow>
    var rejected: set<ItemRow>
    var totals: map<int, int>

    /** The backend calls made by GetNextOrderId, InsertOrderItem and InsertOrderTracking. */
    ghost var calls: seq<Call>

    /** get_next_order_id: `MAX(order_id) + 1`, or 1 on an empty table; no table changes. */
    method GetNextOrderId() returns (id: int)
      modifies this`calls
      ensures id == NextOrderId(orders)
      ensures calls == old(calls) + [CallSelectMaxOrderId]
    {
      calls := calls + [CallSelectMaxOrderId];
      if orders == [] {
        id := 1;
      } else {
        id := MaxOf(orders) + 1;
      }
    }

    /**
     * insert_order_item: the stored procedure either writes the item row
     * and the transaction is committed (result 1), or it fails and the
     * rollback leaves every table as it was (result -1).
     */
    method InsertOrderItem(foodItem: string, quantity: int, orderId: int) returns (rcode: int)
      modifies this`orderItems, this`calls
      ensures rcode == 1 || rcode == -1
      ensures rcode == 1 <==> ItemRow(foodItem, quantity, orderId) !in rejected
      ensures orderItems == if rcode == 1 then old(orderItems) + [ItemRow(foodItem, quantity, orderId)]
                            else old(orderItems)
      ensures calls == old(calls) + [CallInsertOrderItem(ItemRow(foodItem, quantity, orderId))]
    {
      var row := ItemRow(foodItem, quantity, orderId);
      calls := calls + [CallInsertOrderItem(row)];
      if row in rejected {
        rcode := -1;
      } else {
        orderItems := orderItems + [row];
        rcode := 1;
      }
    }

    /** insert_order_tracking: appends one row and commits. */
    method InsertOrderTracking(orderId: int, status: string)
      modifies this`orderTracking, this`calls
      ensures orderTracking == old(orderTracking) + [TrackingRow(orderId, status)]
      ensures calls == old(calls) + [CallInsertTracking(TrackingRow(orderId, status))]
    {
      orderTracking := orderTracking + [TrackingRow(orderId, status)];
      calls := calls + [CallInsertTracking(TrackingRow(orderId, status))];
    }

    /** get_total_order_price: the backend's total, or 0 when it answers NULL. */
    method GetTotalOrderPrice(orderId: int) returns (total: int)
      ensures orderId in totals ==> total == totals[orderId]
      ensures orderId !in totals ==> total == 0
    {
      if orderId in totals {
        total := totals[orderId];
      } else {
        total := 0;
      }
    }

    /**
     * get_order_status: the status of the first fetched tracking row for
     * the order, or None when the order has no tracking row.
     */
    method GetOrderStatus(orderId: int) returns (status: Option<string>)
      ensures status.None? <==> forall k :: 0 <= k < |orderTracking| ==> orderTracking[k].orderId != orderId
      ensures status.Some? ==> exists k :: 0 <= k < |orderTracking| && orderTracking[k] == TrackingRow(orderId, status.value)
                                         && forall k' :: 0 <= k' < k ==> orderTracking[k'].orderId != orderId
    {
      status := FirstStatus(orderTracking, orderId);
    }
  }

  // ---------------------------------------------------------------------
  // Properties of the store
  // ---------------------------------------------------------------------

  /** With non-negative ids in the table, the allocated id is positive, never the -1 sentinel. */
  lemma NextOrderIdPositive(orders: seq<int>)
    requires forall k :: 0 <= k < |orders| ==> orders[k] >= 0
    ensures NextOrderId(orders) >= 1
  {
    if orders != [] {
      assert orders[0] < NextOrderId(orders);
    }
  }

  lemma NextOrderIdExamples()
    ensures NextOrderId([]) == 1
    ensures NextOrderId([5]) == 6
    ensures NextOrderId([3, 5, 4]) == 6
  {
  }

  /**
   * Appending a tracking row changes the looked-up status only for an order
   * that had none: in this model the first row wins, not the latest. (With
   * two or more matching rows, get_order_status closes its cursor with rows
   * still unread, which the MySQL connector reports as an error; that path
   * is not modelled.)
   */
  lemma {:induction false} FirstStatusAppend(tracking: seq<TrackingRow>, row: TrackingRow, orderId: int)
    ensures FirstStatus(tracking + [row], orderId) ==
            if FirstStatus(tracking, orderId).Some? then FirstStatus(tracking, orderId)
            else if row.orderId == orderId then Some(row.status)
            else None
  {
    if tracking != [] {
      assert (tracking + [row])[1..] == tracking[1..] + [row];
      FirstStatusAppend(tracking[1..], row, orderId);
    }
  }
}
