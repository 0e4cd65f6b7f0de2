/**
 * Model of app/tasks/save_to_db.py: persisting one order through the store.
 *
 * save_to_db allocates one order id, inserts the order's items one by one
 * under that id in the order's iteration order, returns -1 at the first
 * item the backend rejects (leaving the items inserted before it in
 * place), and only when every item went in appends one "in progress"
 * tracking row and returns the id.
 *
 * The order (a Python dict) is the sequence of its `(item, quantity)` pairs
 * in iteration order.
 */
module SaveToDb {
  import opened Wrappers
  import opened OrderStore

  const InProgress: string := "in progress"

  /** The sentinel save_to_db returns when an item insertion fails. */
  const Failed: int := -1

  /** The item rows of an order under one order id, in iteration order. */
  function ItemRows(order: seq<(string, int)>, orderId: int): seq<ItemRow>
  {
    seq(|order|, k requires 0 <= k < |order| => ItemRow(order[k].0, order[k].1, orderId))
  }

  /** One insert_order_item call per row, in the same order. */
  function InsertCalls(rows: seq<ItemRow>): seq<Call>
  {
    seq(|rows|, k requires 0 <= k < |rows| => CallInsertOrderItem(rows[k]))
  }

  /** How many leading rows the backend accepts: the index of the first rejected row, if any. */
  function AcceptedPrefix(rows: seq<ItemRow>, rejected: set<ItemRow>): (n: nat)
    ensures n <= |rows|
    ensures forall k :: 0 <= k < n ==> rows[k] !in rejected
    ensures n < |rows| ==> rows[n] in rejected
  {
    if rows == [] then 0
    else if rows[0] in rejected then 0
    else 1 + AcceptedPrefix(rows[1..], rejected)
  }

  datatype Tables = Tables(orders: seq<int>, orderItems: seq<ItemRow>, orderTracking: seq<TrackingRow>)

  /** What save_to_db returns, the tables it leaves and the backend calls it makes. */
  datatype Outcome = Outcome(result: int, tables: Tables, calls: seq<Call>)

  /**
   * The effect of save_to_db on tables `t`, when the backend rejects the
   * item rows in `rejected`.
   */
  function Persist(t: Tables, rejected: set<ItemRow>, order: seq<(string, int)>): (o: Outcome)
    ensures o.result == Failed || o.result == NextOrderId(t.orders)
    ensures o.tables.orders == t.orders
    ensures o.tables.orderTracking == t.orderTracking
         || o.tables.orderTracking == t.orderTracking + [TrackingRow(NextOrderId(t.orders), InProgress)]
    ensures |o.calls| >= 1 && o.calls[0] == CallSelectMaxOrderId
  {
    var id := NextOrderId(t.orders);
    var rows := ItemRows(order, id);
    var n := AcceptedPrefix(rows, rejected);
    if n == |rows| then
      Outcome(id, Tables(t.orders, t.orderItems + rows, t.orderTracking + [TrackingRow(id, InProgress)]),
              [CallSelectMaxOrderId] + InsertCalls(rows) + [CallInsertTracking(TrackingRow(id, InProgress))])
    else
      Outcome(Failed, Tables(t.orders, t.orderItems + rows[..n], t.orderTracking),
              [CallSelectMaxOrderId] + InsertCalls(rows[..n + 1]))
  }

  lemma SeqAppendAssoc<T>(a: seq<T>, b: seq<T>, c: seq<T>)
    ensures (a + b) + c == a + (b + c)
  {
  }

  /** save_to_db. */
  method SaveToDb(order: seq<(string, int)>, db: DbHelper) returns (r: int)
    modifies db`orderItems, db`orderTracking, db`calls
    ensures var o := Persist(Tables(old(db.orders), old(db.orderItems), old(db.orderTracking)), db.rejected, order);
      && r == o.result
      && Tables(db.orders, db.orderItems, db.orderTracking) == o.tables
      && db.calls == old(db.calls) + o.calls
  {
    var nextOrderId := db.GetNextOrderId();
    ghost var rows := ItemRows(order, nextOrderId);
    ghost var n := AcceptedPrefix(rows, db.rejected);
    for i := 0 to |order|
      invariant i <= n
      invariant db.orderItems == old(db.orderItems) + rows[..i]
      invariant db.orderTracking == old(db.orderTracking)
      invariant db.calls == old(db.calls) + ([CallSelectMaxOrderId] + InsertCalls(rows[..i]))
    {
      var (foodItem, quantity) := order[i];
      var rcode := db.InsertOrderItem(foodItem, quantity, nextOrderId);
      InsertCallsSnoc(rows, i);
      if rcode == -1 {
        PersistStopsAt(Tables(old(db.orders), old(db.orderItems), old(db.orderTracking)), db.rejected, order, i);
        return Failed;
      }
    }
    assert rows[..|order|] == rows;
    db.InsertOrderTracking(nextOrderId, InProgress);
    SeqAppendAssoc(old(db.calls), [CallSelectMaxOrderId] + InsertCalls(rows),
                   [CallInsertTracking(TrackingRow(nextOrderId, InProgress))]);
    return nextOrderId;
  }

  /** One more attempted insert adds one call at the end of the log. */
  lemma InsertCallsSnoc(rows: seq<ItemRow>, i: nat)
    requires i < |rows|
    ensures rows[..i + 1] == rows[..i] + [rows[i]]
    ensures InsertCalls(rows[..i + 1]) == InsertCalls(rows[..i]) + [CallInsertOrderItem(rows[i])]
  {
    assert rows[..i + 1] == rows[..i] + [rows[i]];
  }

  /** The workflow stops at the first rejected item. */
  lemma PersistStopsAt(t: Tables, rejected: set<ItemRow>, order: seq<(string, int)>, i: nat)
    requires i < |order|
    requires var rows := ItemRows(order, NextOrderId(t.orders));
      i <= AcceptedPrefix(rows, rejected) && rows[i] in rejected
    ensures var rows := ItemRows(order, NextOrderId(t.orders));
      Persist(t, rejected, order)
        == Outcome(Failed, Tables(t.orders, t.orderItems + rows[..i], t.orderTracking),
                   [CallSelectMaxOrderId] + InsertCalls(rows[..i + 1]))
  {
  }

  // ---------------------------------------------------------------------
  // Properties of the workflow
  // ---------------------------------------------------------------------

  /** Where each call stands in `[CallSelectMaxOrderId] + InsertCalls(rows) + tail`. */
  lemma CallsLayout(rows: seq<ItemRow>, tail: seq<Call>)
    ensures var cs := [CallSelectMaxOrderId] + InsertCalls(rows) + tail;
      && |cs| == 1 + |rows| + |tail|
      && cs[0] == CallSelectMaxOrderId
      && (forall k :: 0 <= k < |rows| ==> cs[k + 1] == CallInsertOrderItem(rows[k]))
      && (forall k :: 0 <= k < |tail| ==> cs[1 + |rows| + k] == tail[k])
  {
  }

  /**
   * The backend calls save_to_db makes: the id allocation; the item
   * inserts for the attempted rows (every row up to and including the first
   * rejected one); and, only when none was rejected, the tracking insert.
   */
  lemma PersistCallsLayout(t: Tables, rejected: set<ItemRow>, order: seq<(string, int)>)
    ensures var o := Persist(t, rejected, order);
      var id := NextOrderId(t.orders);
      var rows := ItemRows(order, id);
      var n := AcceptedPrefix(rows, rejected);
      var attempted := rows[..if n < |rows| then n + 1 else n];
      var tail := if n == |rows| then [CallInsertTracking(TrackingRow(id, InProgress))] else [];
      && |o.calls| == 1 + |attempted| + |tail|
      && o.calls[0] == CallSelectMaxOrderId
      && (forall k :: 0 <= k < |attempted| ==> o.calls[k + 1] == CallInsertOrderItem(attempted[k]))
      && (forall k :: 0 <= k < |tail| ==> o.calls[1 + |attempted| + k] == tail[k])
  {
    var id := NextOrderId(t.orders);
    var rows := ItemRows(order, id);
    var n := AcceptedPrefix(rows, rejected);
    assert rows[..|rows|] == rows;
    var tail := if n == |rows| then [CallInsertTracking(TrackingRow(id, InProgress))] else [];
    CallsLayout(rows[..if n < |rows| then n + 1 else n], tail);
  }

  /** Exactly one id allocation, and it is the first backend call. */
  lemma PersistAllocatesOnceFirst(t: Tables, rejected: set<ItemRow>, order: seq<(string, int)>)
    ensures var o := Persist(t, rejected, order);
      && |o.calls| >= 1
      && o.calls[0] == CallSelectMaxOrderId
      && forall k :: 0 < k < |o.calls| ==> o.calls[k] != CallSelectMaxOrderId
  {
    var o := Persist(t, rejected, order);
    var id := NextOrderId(t.orders);
    var rows := ItemRows(order, id);
    var n := AcceptedPrefix(rows, rejected);
    var attempted := rows[..if n < |rows| then n + 1 else n];
    PersistCallsLayout(t, rejected, order);
    forall k | 0 < k < |o.calls| ensures o.calls[k] != CallSelectMaxOrderId {
      if k <= |attempted| {
        assert o.calls[k] == CallInsertOrderItem(attempted[k - 1]);
      }
    }
  }

  /**
   * The item inserts follow the order's iteration order, all under the
   * allocated id, up to and including the first rejected item: no later
   * item is attempted.
   */
  lemma PersistInsertsInOrder(t: Tables, rejected: set<ItemRow>, order: seq<(string, int)>)
    ensures var o := Persist(t, rejected, order);
      var id := NextOrderId(t.orders);
      var n := AcceptedPrefix(ItemRows(order, id), rejected);
      var attempted := if n < |order| then n + 1 else n;
      && |o.calls| == 1 + attempted + (if n == |order| then 1 else 0)
      && forall k :: 0 <= k < attempted ==> o.calls[k + 1] == CallInsertOrderItem(ItemRow(order[k].0, order[k].1, id))
  {
    var o := Persist(t, rejected, order);
    var id := NextOrderId(t.orders);
    var rows := ItemRows(order, id);
    var n := AcceptedPrefix(rows, rejected);
    var attempted := rows[..if n < |rows| then n + 1 else n];
    PersistCallsLayout(t, rejected, order);
    forall k | 0 <= k < |attempted|
      ensures o.calls[k + 1] == CallInsertOrderItem(ItemRow(order[k].0, order[k].1, id))
    {
      assert attempted[k] == rows[k];
    }
  }

  /** The tracking insert is made only when no item was rejected, and it is the last call. */
  lemma PersistTracksLast(t: Tables, rejected: set<ItemRow>, order: seq<(string, int)>)
    ensures var o := Persist(t, rejected, order);
      var id := NextOrderId(t.orders);
      forall k :: 0 <= k < |o.calls| && o.calls[k].CallInsertTracking? ==>
        && AcceptedPrefix(ItemRows(order, id), rejected) == |order|
        && k == |o.calls| - 1
        && o.calls[k] == CallInsertTracking(TrackingRow(id, InProgress))
  {
    PersistCallsLayout(t, rejected, order);
  }

  /** The accepted prefix is the index of the first rejected row. */
  lemma AcceptedPrefixIsFirstRejection(rows: seq<ItemRow>, rejected: set<ItemRow>, n: nat)
    requires n <= |rows|
    requires forall k :: 0 <= k < n ==> rows[k] !in rejected
    requires n < |rows| ==> rows[n] in rejected
    ensures AcceptedPrefix(rows, rejected) == n
  {
  }

  /**
   * When the item at index n is the first the backend rejects: the result
   * is -1, the items before it stay in the table (there is no compensating
   * delete), no tracking row is written and nothing else changes.
   */
  lemma PersistFailure(t: Tables, rejected: set<ItemRow>, order: seq<(string, int)>, n: nat)
    requires n < |order|
    requires forall k :: 0 <= k < n ==> ItemRow(order[k].0, order[k].1, NextOrderId(t.orders)) !in rejected
    requires ItemRow(order[n].0, order[n].1, NextOrderId(t.orders)) in rejected
    ensures var o := Persist(t, rejected, order);
      && o.result == Failed
      && o.tables.orders == t.orders
      && o.tables.orderItems == t.orderItems + ItemRows(order[..n], NextOrderId(t.orders))
      && o.tables.orderTracking == t.orderTracking
  {
    var rows := ItemRows(order, NextOrderId(t.orders));
    AcceptedPrefixIsFirstRejection(rows, rejected, n);
    assert rows[..n] == ItemRows(order[..n], NextOrderId(t.orders));
  }

  /**
   * When the backend accepts every item: the result is the allocated id,
   * every item is in the table under it, and exactly one "in progress"
   * tracking row for it is appended.
   */
  lemma PersistSuccess(t: Tables, rejected: set<ItemRow>, order: seq<(string, int)>)
    requires forall k :: 0 <= k < |order| ==> ItemRow(order[k].0, order[k].1, NextOrderId(t.orders)) !in rejected
    ensures var o := Persist(t, rejected, order);
      var id := NextOrderId(t.orders);
      && o.result == id
      && o.tables.orders == t.orders
      && o.tables.orderItems == t.orderItems + ItemRows(order, id)
      && o.tables.orderTracking == t.orderTracking + [TrackingRow(id, InProgress)]
  {
    AcceptedPrefixIsFirstRejection(ItemRows(order, NextOrderId(t.orders)), rejected, |order|);
  }

  /** An empty order writes no item but still gets its tracking row and its id. */
  lemma PersistEmptyOrder(t: Tables, rejected: set<ItemRow>)
    ensures Persist(t, rejected, []) ==
      Outcome(NextOrderId(t.orders),
              Tables(t.orders, t.orderItems, t.orderTracking + [TrackingRow(NextOrderId(t.orders), InProgress)]),
              [CallSelectMaxOrderId, CallInsertTracking(TrackingRow(NextOrderId(t.orders), InProgress))])
  {
    assert ItemRows([], NextOrderId(t.orders)) == [];
    assert t.orderItems + [] == t.orderItems;
  }

  /**
   * With non-negative ids in the orders table, the sentinel cannot be
   * mistaken for an id: the result is -1 exactly when some item is rejected.
   */
  lemma PersistSentinel(t: Tables, rejected: set<ItemRow>, order: seq<(string, int)>)
    requires forall k :: 0 <= k < |t.orders| ==> t.orders[k] >= 0
    ensures Persist(t, rejected, order).result == Failed <==>
      exists k :: 0 <= k < |order| && ItemRow(order[k].0, order[k].1, NextOrderId(t.orders)) in rejected
  {
    NextOrderIdPositive(t.orders);
    var rows := ItemRows(order, NextOrderId(t.orders));
    var n := AcceptedPrefix(rows, rejected);
    if n < |order| {
      assert rows[n] in rejected;
    } else {
      forall k | 0 <= k < |order| ensures ItemRow(order[k].0, order[k].1, NextOrderId(t.orders)) !in rejected {
        assert rows[k] !in rejected;
      }
    }
  }

  /**
   * After a successful save of an order whose id had no tracking row, the
   * order's status reads "in progress".
   */
  lemma PersistThenStatus(t: Tables, rejected: set<ItemRow>, order: seq<(string, int)>)
    requires Persist(t, rejected, order).result != Failed
    requires FirstStatus(t.orderTracking, NextOrderId(t.orders)).None?
    ensures FirstStatus(Persist(t, rejected, order).tables.orderTracking, NextOrderId(t.orders)) == Some(InProgress)
  {
    var id := NextOrderId(t.orders);
    FirstStatusAppend(t.orderTracking, TrackingRow(id, InProgress), id);
  }

  // ---------------------------------------------------------------------
  // Worked examples
  // ---------------------------------------------------------------------

  /** One pizza on an empty store: id 1, one item row, one tracking row. */
  lemma ExampleHappyPath()
    ensures Persist(Tables([], [], []), {}, [("pizza", 2)]) ==
      Outcome(1, Tables([], [ItemRow("pizza", 2, 1)], [TrackingRow(1, InProgress)]),
              [CallSelectMaxOrderId, CallInsertOrderItem(ItemRow("pizza", 2, 1)), CallInsertTracking(TrackingRow(1, InProgress))])
  {
    assert ItemRows([("pizza", 2)], 1) == [ItemRow("pizza", 2, 1)];
  }

  /** The second of two items fails: -1, the first item's row stays, no tracking row. */
  lemma ExampleFailurePath()
    ensures var o := Persist(Tables([4], [], []), {ItemRow("soda", 1, 5)}, [("pizza", 2), ("soda", 1)]);
      && o.result == Failed
      && o.tables == Tables([4], [ItemRow("pizza", 2, 5)], [])
  {
    PersistFailure(Tables([4], [], []), {ItemRow("soda", 1, 5)}, [("pizza", 2), ("soda", 1)], 1);
    assert ItemRows([("pizza", 2), ("soda", 1)][..1], 5) == [ItemRow("pizza", 2, 5)];
  }
}
