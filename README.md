# Order persistence of the restaurant ordering chatbot backend

This backend records food orders in a MySQL database. Its callers
(outside this model) hand it an order as a dictionary from food item to
quantity, and a session string naming a `/sessions/…/contexts/` path.
This project models the four pieces that write and format orders:

- **`save_to_db`** (`app/tasks/save_to_db.py`) allocates the next order id.
  It then inserts one item row per dictionary entry, in iteration order, and
  stops with `-1` at the first insert that fails. Only when every insert
  succeeds does it add an `"in progress"` tracking row, and then it returns
  the new id. Item rows inserted before a failure stay in the database.
- **`DBHelper`** (`app/helpers/db_helper.py`) is a class over one
  connection. It inserts an item row by calling the `insert_order_item`
  stored procedure, which returns nothing. The Python method returns 1 once
  `callproc`, `commit`, `cursor.close` and `print` all finish, and -1 when
  either of its `except` branches catches an exception and rolls back. It also inserts tracking
  rows, asks the database for an order's total and fetches an order's
  status. It computes the next order id as `MAX(order_id) + 1`, or 1 for an
  empty table.
- **`extract_session_id`** (`app/helpers/session_helper.py`) returns the
  first span of the session string that matches `/sessions/(.*?)/contexts/`,
  or `""` when there is none.
- **`get_str_from_food_dict`** (`app/helpers/food_dict_helper.py`) builds the
  order summary shown to the user. It renders each entry as
  `"<quantity> <item>"` and joins the entries with `", "`.

The database is an abstract in-memory store: class `OrderStore.DbHelper`,
with fields for the `orders` order-id column, the item rows and the
tracking rows. Two backend decisions are inputs to the model:

- `rejected`: the rows on which the stored procedure fails;
- `totals`: the answers of the `get_total_order_price` SQL function.

No method changes either of them. Neither is tied to the item rows:
the model fixes them as inputs and says nothing about how the backend
derives them. A ghost field `calls` logs the calls
that change or allocate, in the order they are made. `SaveToDb.SaveToDb`
is an imperative method over this class. Its contract says it computes
exactly what the pure function `SaveToDb.Persist` describes: the result,
the new tables and the calls it made. The workflow's properties are then
proved as lemmas about `Persist`.

The regular expression is modelled for its one fixed pattern. Python's
`re.search` tries start positions from the left. At each start, the lazy
`.*?` takes the shortest middle part that reaches a `/contexts/` without
crossing a newline.

Two points where the code does less than its names suggest. This model
follows the code:

- The function's name and docstring (`app/helpers/session_helper.py:5-6`)
  speak of a session id. Line 9 returns `match.group(0)`, though: the
  whole span from `/sessions/` to `/contexts/`, delimiters included, and
  not the captured group. See `SessionHelper.ExtractDropsPrefix`.
- `get_order_status` runs `fetchone()` on a `SELECT` without `ORDER BY`
  (`app/helpers/db_helper.py:133-137`). It takes the first row fetched,
  which is not necessarily the latest status. This model treats that row
  as the first one inserted. See `OrderStore.FirstStatus` and
  `OrderStore.FirstStatusAppend`. That reading only describes the program
  when at most one row matches. The cursor is created unbuffered (line
  132), and closing it at line 138 with rows still unread is, under the
  MySQL connector's defaults, an error. So with two or more tracking rows
  for the order the call most likely raises instead of returning a
  status. The model does not capture that path.

Files: `wrappers.dfy` (an `Option` type), `db_helper.dfy`, `save_to_db.dfy`,
`session_helper.dfy` and `food_dict_helper.dfy`.

## Model

| member | source | states |
|---|---|---|
| OrderStore.MaxOf | app/helpers/db_helper.py:113-115 | `MAX` of a non-empty column is one of its values and at least every value |
| OrderStore.NextOrderId | app/helpers/db_helper.py:105-121 | the next id is 1 on an empty table; otherwise it is one more than a stored id; it is greater than every stored id, so it is new |
| OrderStore.NextOrderIdPositive | app/helpers/db_helper.py:117-121 | when stored ids are non-negative, the allocated id is at least 1 and so never the -1 failure value |
| OrderStore.NextOrderIdExamples | app/helpers/db_helper.py:117-121 | empty table gives 1; `[5]` gives 6; `[3, 5, 4]` gives 6 |
| OrderStore.FirstStatus | app/helpers/db_helper.py:132-142 | None exactly when no tracking row has the id; otherwise the status of a row with that id before which no row has it |
| OrderStore.FirstStatusAppend | app/helpers/db_helper.py:132-142 | a later tracking row changes the looked-up status only for an order that had none: the first row wins |
| OrderStore.DbHelper.GetNextOrderId | app/helpers/db_helper.py:105-121 | returns `NextOrderId` of the orders column; logs one allocation call; changes no table |
| OrderStore.DbHelper.InsertOrderItem | app/helpers/db_helper.py:33-66 | returns 1 or -1; 1 exactly when the backend accepts the row; on 1 the row is appended, on -1 the rollback leaves the items table unchanged; the call is logged either way |
| OrderStore.DbHelper.InsertOrderTracking | app/helpers/db_helper.py:68-82 | appends exactly the row `(order_id, status)` and logs it |
| OrderStore.DbHelper.GetTotalOrderPrice | app/helpers/db_helper.py:84-103 | the backend's total when it gives one; 0 when it answers NULL; nothing changes |
| OrderStore.DbHelper.GetOrderStatus | app/helpers/db_helper.py:123-142 | None exactly when the order has no tracking row; otherwise the status of its first row; nothing changes |
| SaveToDb.AcceptedPrefix | app/tasks/save_to_db.py:7-11 | the number of rows inserted before the loop stops: every earlier row is accepted, and the row it stops at is rejected |
| SaveToDb.Persist | app/tasks/save_to_db.py:4-15 | the reference for the workflow: the result is -1 or the allocated id; the orders column is unchanged; the tracking table is unchanged or gains exactly `(id, "in progress")`; the first call allocates the id |
| SaveToDb.SaveToDb | app/tasks/save_to_db.py:4-15 | result, new tables and call log are exactly those of `Persist` on the old tables; the orders column is untouched |
| SaveToDb.PersistCallsLayout | app/tasks/save_to_db.py:5-13 | the call log is: one allocation, then the attempted inserts in order (through the first failure), then one tracking insert on success |
| SaveToDb.PersistAllocatesOnceFirst | app/tasks/save_to_db.py:5 | the first call allocates the id, and no later call allocates again |
| SaveToDb.PersistInsertsInOrder | app/tasks/save_to_db.py:7-8 | call k + 1 inserts the k-th entry, with the allocated id, for each attempted entry |
| SaveToDb.PersistTracksLast | app/tasks/save_to_db.py:13 | a tracking call happens only on success; it is the last call and records `(id, "in progress")` |
| SaveToDb.AcceptedPrefixIsFirstRejection | app/tasks/save_to_db.py:7-11 | when row n is the first rejected row, the loop stops exactly at n |
| SaveToDb.PersistFailure | app/tasks/save_to_db.py:10-11 | when entry n is the first rejected one: result -1; the rows of entries before n stay inserted; no tracking row; orders column unchanged |
| SaveToDb.PersistSuccess | app/tasks/save_to_db.py:13-15 | when no entry is rejected: the result is the new id; every entry's row is appended in order; one `"in progress"` row is appended |
| SaveToDb.PersistEmptyOrder | app/tasks/save_to_db.py:4-15 | an empty order still allocates an id and writes an `"in progress"` tracking row |
| SaveToDb.PersistSentinel | app/tasks/save_to_db.py:10-15 | when stored ids are non-negative, the result is -1 exactly when some entry's row is rejected |
| SaveToDb.PersistThenStatus | app/tasks/save_to_db.py:13 | after a successful save of an order with no earlier tracking row, its status reads `"in progress"` |
| SaveToDb.ExampleHappyPath | app/tasks/save_to_db.py:4-15 | a one-entry order on an empty store gets id 1, one item row and one tracking row |
| SaveToDb.ExampleFailurePath | app/tasks/save_to_db.py:7-11 | when the second entry is rejected, the first entry's row stays and the result is -1 |
| SessionHelper.FindContexts | app/helpers/session_helper.py:7 | the lazy `.*?` ends the middle part at the first `/contexts/` reached before a newline; None when a newline comes first or there is none |
| SessionHelper.FindMatch | app/helpers/session_helper.py:7 | `re.search` gives the leftmost start with a match and, there, the shortest middle part; None when there is no match from the given position on |
| SessionHelper.ExtractSessionId | app/helpers/session_helper.py:5-12 | `extract_session_id`: the result is no longer than the input, and is either `""` or at least as long as both delimiters together |
| SessionHelper.ExtractSessionIdMeaning | app/helpers/session_helper.py:5-12 | the result is `""` exactly when the pattern matches nowhere; otherwise it is the span of the leftmost, shortest match |
| SessionHelper.FirstMatchUnique | app/helpers/session_helper.py:7 | there is at most one leftmost, shortest match |
| SessionHelper.ExtractFirstMatch | app/helpers/session_helper.py:7-10 | the result is group 0 of the first match: also the `/sessions/` prefix and `/contexts/` suffix |
| SessionHelper.ExtractDelimiters | app/helpers/session_helper.py:7-10 | a non-empty result starts with `/sessions/` and ends with `/contexts/` |
| SessionHelper.ExtractSubstring | app/helpers/session_helper.py:5-12 | the result occurs in the input |
| SessionHelper.ExtractNoNewline | app/helpers/session_helper.py:7 | the middle part of a non-empty result has no newline |
| SessionHelper.ExtractLazy | app/helpers/session_helper.py:7 | no `/contexts/` begins inside the middle part of a non-empty result |
| SessionHelper.ExtractIdempotent | app/helpers/session_helper.py:5-12 | extracting from an extracted span returns it unchanged |
| SessionHelper.ExtractEmptyMiddle | app/helpers/session_helper.py:7-10 | `/sessions//contexts/` is returned whole: `.*?` may match nothing |
| SessionHelper.ExtractDropsPrefix | app/helpers/session_helper.py:7-10 | for `https://x/sessions/abc123/contexts/y` the result is `/sessions/abc123/contexts/` |
| SessionHelper.ExtractNoMatch | app/helpers/session_helper.py:8-12 | without a match, here with no delimiters or with a newline in the middle, the result is `""` |
| FoodDictHelper.NatToDecimal | app/helpers/food_dict_helper.py:7 | the rendering of a natural number is a non-empty digit string without a leading zero |
| FoodDictHelper.IntToDecimal | app/helpers/food_dict_helper.py:7 | `str(int(value))`: a leading `-` exactly for negative numbers, then digits |
| FoodDictHelper.NatToDecimalValue | app/helpers/food_dict_helper.py:7 | the digits of n have value n |
| FoodDictHelper.IntToDecimalRoundTrip | app/helpers/food_dict_helper.py:7 | reading back the rendered quantity gives the quantity |
| FoodDictHelper.Pieces | app/helpers/food_dict_helper.py:7 | the list comprehension: one piece per entry |
| FoodDictHelper.PiecesRoundTrip | app/helpers/food_dict_helper.py:7 | the k-th piece reads back as the k-th entry, so pieces follow iteration order and lose nothing |
| FoodDictHelper.Join | app/helpers/food_dict_helper.py:6 | `", ".join`: no parts give `""`; a join starts with its first part |
| FoodDictHelper.GetStrFromFoodDict | app/helpers/food_dict_helper.py:4-9 | the summary is empty exactly for an empty order; a one-entry order gives `"<qty> <item>"` |
| FoodDictHelper.JoinAppend | app/helpers/food_dict_helper.py:6-8 | joining a concatenation of two non-empty lists puts one separator between the two joins |
| FoodDictHelper.PiecesAppend | app/helpers/food_dict_helper.py:7 | the pieces of a concatenated order are the two orders' pieces, in order |
| FoodDictHelper.FormatAppend | app/helpers/food_dict_helper.py:6-8 | the summary of two non-empty orders put together is their summaries joined by `", "` |
| FoodDictHelper.FormatCons | app/helpers/food_dict_helper.py:6-8 | the summary of a longer order starts with its first entry's piece, then `", "` |
| FoodDictHelper.JoinLength | app/helpers/food_dict_helper.py:6-8 | a join of n parts is as long as the parts plus n - 1 separators |
| FoodDictHelper.FormatLength | app/helpers/food_dict_helper.py:6-8 | the summary's length is the pieces' lengths plus two per separator |
| FoodDictHelper.PieceRoundTrip | app/helpers/food_dict_helper.py:7 | splitting a piece at its first space gives back the item and the quantity |
| FoodDictHelper.FormatEmptyAndSingle | app/helpers/food_dict_helper.py:4-9 | an empty order gives `""`; `{"rice": 1}` gives `"1 rice"` |
| FoodDictHelper.FormatTwoEntries | app/helpers/food_dict_helper.py:4-9 | `{"rice": 2, "beans": 3}` gives `"2 rice, 3 beans"` |
| FoodDictHelper.FormatNegativeQuantity | app/helpers/food_dict_helper.py:7 | a negative quantity keeps its minus sign: `"-12 tea"` |

## Left out

- The MySQL connection is not modelled: `DBHelper.__init__`, `close`, cursors, commits and rollbacks. The store is in memory, and a rollback is modelled as "no table changes".
- The bodies of the `insert_order_item` stored procedure and the `get_total_order_price` SQL function are not part of this model. They run inside the database, so they are inputs (`rejected`, `totals`).
- OrderStore.DbHelper.InsertOrderItem: does not model an item insert adding a row to the `orders` table. The stored procedure's body is not visible, so `orders` is read-only here.
- OrderStore.DbHelper.GetTotalOrderPrice: returns an int instead of Python's `float(result)`, because floating point is not modelled.
- OrderStore.DbHelper.GetTotalOrderPrice: `totals` is a fixed input, not tied to `orderItems`. The SQL function computes the total from the order's details (`app/helpers/db_helper.py:86-87`), so an insert can change what it reports. The model says nothing about how an insert changes an order's total. The frames that keep `totals` unchanged are not a claim about the backend.
- OrderStore.DbHelper.GetOrderStatus: SQL without `ORDER BY` does not fix a row order; the model takes "first fetched" to mean first inserted.
- OrderStore.DbHelper.InsertOrderItem: treats every -1 as rolled back, with no row stored. In the source, `cursor.close()` and `print` (`app/helpers/db_helper.py:52-53`) run inside the `try` after `commit()`. An exception there returns -1 although the row is already committed, and `rollback()` cannot undo it. `save_to_db` then returns -1 with the failing item's row stored too, which `SaveToDb.PersistFailure` does not describe.
- The f-string SQL text in `get_total_order_price` and `get_order_status`, and the injection it allows, is not modelled. Ids are integers here.
- `print` calls and the error messages they write are not modelled.
- Exceptions raised by `insert_order_tracking`, `get_next_order_id`, `get_total_order_price` and `get_order_status` are not modelled; those calls always succeed. This includes the unread-result error that `get_order_status` most likely raises when several tracking rows match. Only `insert_order_item` catches errors and turns them into -1.
- OrderStore.DbHelper.InsertOrderItem: always returns 1 or -1, but the source does not catch everything. An exception raised inside its `except` branches, by `print` or by `rollback()` (`app/helpers/db_helper.py:58-59` and `63-64`, for instance after a lost connection), propagates out of the method. `save_to_db` then raises instead of returning -1. The model does not capture that path.
- Concurrency is not modelled: two saves can read the same `MAX(order_id)` between allocation and insert, and the model runs each save alone.
- FoodDictHelper.GetStrFromFoodDict: quantities are integers, so `int(value)` truncating a float is not modelled. The dict is the sequence of its entries in iteration order, and key uniqueness is not required.
- SessionHelper.ExtractSessionId: only the fixed pattern `/sessions/(.*?)/contexts/` is modelled, not general regular expressions.
- `app/helpers/__init__.py` only re-exports the three names. It is not modelled.
