# Order book matching engine, in Dafny

This project models the in-memory order book of the trading platform
(`backend/app/services/order_book.py`). The book is a continuous double
auction with three operations:

- `add_order` crosses an incoming buy or sell against the best resting orders
  of the other side. Each trade is for the smaller of the two open quantities,
  at the resting order's price. It updates fills and statuses on both orders.
  Any remainder of the incoming order rests on its own side.
- `cancel_order` takes an order out of its side and out of the id registry.
- `get_order_book` publishes bids and asks with the quantity still open.

The model is functional. A `Book` is a value holding the bids, the asks, the
id registry (`orders`) and the arrival number of the next order. Every
operation returns a new book. The source shares one mutable object between a
heap and the registry. Here the invariant `OrderBook.Valid` keeps each queued
order equal to its registry entry instead.

Modules:

- `Orders` (`orders.dfy`): orders, trades, the `OrderType`/`OrderStatus` enums
  and the status rule.
- `Queues` (`queues.dfy`): the two sides. Each is a sequence in price-time
  priority: best price first, then earliest arrival.
- `Matching` (`matching.dfy`): the matching loop, and what it does to the
  taker, the opposite side, the registry and the trade list.
- `OrderBook` (`order_book.dfy`): the book, its invariant, and the three
  operations with their properties.
- `HeapEntries` (`heap_entries.dfy`): the source's `heapq` entries as
  written. It exhibits the defect listed under Findings.
- `Scenarios` (`scenarios.dfy`): concrete situations, as facts about the
  model. `FirstSellRests`, `BasicMatching` and `PartialMatching` are the
  situations of `backend/tests/test_order_matching.py`.
  `SecondSellQueuesBehind` and `EqualPriceArrivalOrder` are the equal-price
  situation of Findings, handled in arrival order. `CancelUnknownOnEmptyBook`
  is the unknown-id case of `cancel_order`.

Prices are integers, standing for fixed-point minor units. Quantities are
unbounded integers, as in Python.

`get_order_book` has no side effects, so `OrderBook.Snapshot` is a pure
function of the book.

Two behaviours of the code that the model keeps as they are:

- A resting order that is used up is marked Filled and stays in the registry
  (`order_book.py:61-62,110-111`). Cancelling it later still succeeds
  (`OrderBook.CancelFilledOrder`).
- A quantity of zero or less is accepted. Such an order trades nothing, is
  marked Filled (`order_book.py:24,65-69,113-118`) and is registered
  (`order_book.py:120`).

One behaviour the model replaces: the heaps have no working tie-break at equal
price (see Findings). The model breaks ties by arrival number, so equal prices
are matched first in, first out.

## Model

| member | source | states |
|---|---|---|
| Orders.StatusMeaning | backend/app/models/database.py:36-40 | For an order that is not overfilled and has a positive quantity, the status rule gives Filled iff all of it traded, PartiallyFilled iff some but not all did, Open iff none did, and never Cancelled. |
| Orders.ExecuteSettles | backend/app/services/order_book.py:53-62 | A fill of at most a resting order's open quantity leaves it settled. It stays resting unless completed, and it becomes Filled exactly when the fill equals its open quantity. |
| Orders.StatusAfterFill | backend/app/services/order_book.py:56-69 | The one status rule used for a resting order after a trade (lines 56-62) and for the incoming order after the loop (lines 64-69): Filled once the fill reaches the quantity, otherwise PartiallyFilled if anything traded, otherwise Open. Its meaning is stated by `Orders.StatusMeaning`. |
| Orders.Execute | backend/app/services/order_book.py:53-62 | A resting order after a trade of q: its fill grows by q and its status is recomputed by the status rule. Its effect is stated by `Orders.ExecuteSettles`. |
| Queues.Insert | backend/app/services/order_book.py:64-66 | Pushing an order onto a side lengthens it by one and adds exactly that order, keeping every other. |
| Queues.InsertKeepsOrder | backend/app/services/order_book.py:64-66 | An order arriving after every queued one keeps the side in price-time order and goes behind every order at its price: first in, first out at equal price. |
| Queues.InsertPermutes | backend/app/services/order_book.py:64-66 | The side after a push is a permutation of the old side plus the pushed order. |
| Queues.RemoveId | backend/app/services/order_book.py:133 | The filtered side holds exactly the orders whose id differs from the cancelled one, and it is unchanged when no order carries that id. |
| Queues.RemoveIdKeepsOrder | backend/app/services/order_book.py:132-137 | Filtering by id keeps the remaining orders in price-time order, so re-heapifying is not needed. |
| Queues.RemoveIdRemovesOne | backend/app/services/order_book.py:136 | With distinct ids, removing a queued id shortens the side by exactly one. |
| Matching.Match | backend/app/services/order_book.py:24-62 | The matching loop of the buy branch (the sell branch, lines 73-111, is the same with sides swapped). It trades the taker against the best maker while the taker is open and the maker crosses, and puts a partly filled maker back at the front. What it computes is stated by `Matching.MatchMeetsSpec` and the lemmas it gathers. |
| Matching.MatchFill | backend/app/services/order_book.py:24-53 | The loop changes only the taker's fill. The fill never passes the quantity asked for, and it equals the sum of the trades' quantities. |
| Matching.MatchStops | backend/app/services/order_book.py:24-84 | If the taker is still open when the loop ends, the opposite side is empty or its best order is outside the taker's limit. |
| Matching.MatchStopsUntouched | backend/app/services/order_book.py:32-84 | If the taker is still open, the opposite side is exactly the makers it did not trade with, unchanged. |
| Matching.MatchTrades | backend/app/services/order_book.py:38-99 | The i-th trade is with the i-th best maker. The maker crosses the taker's limit. The trade has the maker's price, buyer and seller by side, and a positive quantity within the maker's open quantity. |
| Matching.MatchLeftover | backend/app/services/order_book.py:56-111 | The opposite side after the loop is the untraded makers, preceded by the last maker when it was only partly filled. Every maker before the last was used up. |
| Matching.MatchRegistry | backend/app/services/order_book.py:53-111 | The registry after the loop has each traded maker's entry replaced by the maker with its new fill. A completed maker stays registered as Filled. |
| Matching.MatchMeetsSpec | backend/app/services/order_book.py:24-62 | The loop meets the loop specification, which gathers the six properties above. |
| Matching.TradeQuantityIsMin | backend/app/services/order_book.py:38-90 | Each trade's quantity is the smaller of what the taker still wanted at that point and what the maker still offered. |
| Matching.MatchRecordsMakers | backend/app/services/order_book.py:54-111 | Every maker traded with is registered with its new fill. It is Filled exactly when the trade used up its open quantity, and then no order with its id is left on its side. |
| OrderBook.EmptyBookValid | backend/app/services/order_book.py:7-11 | A new book is valid and uncrossed. |
| OrderBook.ValidIdsDistinct | backend/app/services/order_book.py:11 | In a valid book, queued orders have distinct ids, both within a side and across the two sides. |
| OrderBook.BestPricesUncrossed | backend/app/services/order_book.py:142-145 | In a valid book, no bid is at or above any ask iff a side is empty or the best bid is below the best ask. |
| OrderBook.Conclude | backend/app/services/order_book.py:64-120 | The end of a submission: the incoming order gets its final status, is pushed onto its own side if not completely filled, and is written to the registry. The opposite side and registry are those the loop left, and the arrival counter advances. |
| OrderBook.AddOrder | backend/app/services/order_book.py:13-121 | `add_order`: the loop over the opposite side, then `Conclude`. It returns the new book, the trades and the submitted order. Its properties are the `OrderBook.AddOrder*` lemmas below. |
| OrderBook.AddOrderAccounting | backend/app/services/order_book.py:53-121 | The trades returned add up to the order's fill. The fill is at most its quantity, and is zero with no trades when the quantity is not positive. The order is registered under its id even when fully filled. |
| OrderBook.AddOrderStatus | backend/app/services/order_book.py:64-118 | The submitted order is Filled iff its fill equals its quantity, PartiallyFilled iff the fill is strictly between zero and the quantity, and Open iff nothing traded. It rests on its side iff it is not completely filled. |
| OrderBook.AddOrderTrades | backend/app/services/order_book.py:22-99 | Trades follow the opposite side's priority order, stay inside the submitted limit, and are priced at the resting order. They name (incoming, resting) for a buy and (resting, incoming) for a sell, with a positive quantity. |
| OrderBook.AddOrderTradeSizes | backend/app/services/order_book.py:38-90 | Each trade is for the minimum of the incoming order's remaining quantity at that point and the resting order's open quantity. |
| OrderBook.AddOrderMakers | backend/app/services/order_book.py:53-111 | Resting orders traded with are registered with their new fill. One is Filled exactly when its trade used it up. It then stays in the registry, but no order with its id is left on its side. |
| OrderBook.AddOrderStops | backend/app/services/order_book.py:24-84 | If the incoming order is not filled, the opposite side keeps exactly the untraded orders. The best of them is priced above a buy's limit, or below a sell's. |
| OrderBook.AddOrderFrame | backend/app/services/order_book.py:24-120 | Nothing else changes. The opposite side is what the loop left of it, whether or not the order was filled. The own side gains exactly the submitted order when it rests (for any quantity) and nothing otherwise. No registry entry is removed, and the submitted id is added. Every registry entry other than the submitted id and the makers traded with keeps its value. |
| OrderBook.AddOrderPreservesValid | backend/app/services/order_book.py:13-121 | Submitting an order with a fresh id keeps the book valid. Both sides stay sorted and every queued order rests, and the registry stays consistent with them. |
| OrderBook.AddOrderKeepsBookUncrossed | backend/app/services/order_book.py:24-115 | If no bid was at or above any ask before a submission, none is after it. |
| OrderBook.CancelOrder | backend/app/services/order_book.py:123-140 | Cancelling succeeds iff the id is registered. An unknown id leaves the book unchanged. A known id leaves the registry and is returned marked Cancelled. |
| OrderBook.CancelRemovesOnlyTarget | backend/app/services/order_book.py:128-139 | On each side, exactly the orders carrying the id are removed, and the side opposite the cancelled order is left identical. Every other registry entry is unchanged, and the order returned is the registry's entry marked Cancelled. |
| OrderBook.CancelledIsGone | backend/app/services/order_book.py:131-139 | After a successful cancellation the id is in neither side and not in the registry. |
| OrderBook.CancelTwiceFails | backend/app/services/order_book.py:125-139 | A second cancellation of the same id fails and changes nothing. |
| OrderBook.CancelFilledOrder | backend/app/services/order_book.py:123-140 | Cancelling a Filled order still succeeds and leaves both sides as they were. |
| OrderBook.CancelQueuedShrinksSide | backend/app/services/order_book.py:132-137 | Cancelling a queued order takes exactly one order off its own side. |
| OrderBook.CancelPreservesValid | backend/app/services/order_book.py:123-140 | Cancellation keeps the book valid. |
| OrderBook.CancelKeepsBookUncrossed | backend/app/services/order_book.py:123-140 | Cancellation never makes the book crossed. |
| OrderBook.Snapshot | backend/app/services/order_book.py:142-152 | `get_order_book`: the published bids and asks, one `Levels` line per queued order, read without changing the book. Its ordering is stated by `OrderBook.SnapshotOrdered`. |
| OrderBook.Levels | backend/app/services/order_book.py:148-151 | The published list has one line per queued order, in queue order, showing its price and its open quantity. |
| OrderBook.SnapshotOrdered | backend/app/services/order_book.py:142-152 | For a valid book, the snapshot has one line per queued order, bids by non-increasing price and asks by non-decreasing price, each with a positive open quantity. |
| OrderBook.SnapshotShowsUncrossed | backend/app/services/order_book.py:142-152 | For a valid book, the published best bid is below the published best ask iff the book is uncrossed. |
| HeapEntries.SiftDownRaisesOnlyOnTies | backend/app/services/order_book.py:64-66 | A push raises only when the heap holds another order object with the same key. |
| HeapEntries.HeapPush | backend/app/services/order_book.py:64-66 | `heapq.heappush` on `(key, order)` entries as written: append, then sift towards the root using tuple comparison. The result says whether it finished or raised `TypeError`, together with the list as left behind, which is one entry longer either way. |
| HeapEntries.SiftDownPermutes | backend/app/services/order_book.py:64-66 | Sifting only moves entries: whether it finishes or raises, the list holds the entries it started with, the sifted entry filling the hole. |
| HeapEntries.HeapPushKeepsEntries | backend/app/services/order_book.py:64-66 | A push that finishes and a push that raises both leave the old entries plus the new one in the list, each exactly once. |
| HeapEntries.PushUnderTiedParentRaises | backend/app/services/order_book.py:64-66 | A push raises when the new entry's parent holds a different order with the same key. |
| HeapEntries.PushPastTieOffPath | backend/app/services/order_book.py:64-66 | An equal key that is not on the new entry's path to the root is never compared with, so that push succeeds. |
| HeapEntries.PushWithoutTiesSucceeds | backend/app/services/order_book.py:64-66 | A push onto a side with no order at the same price succeeds. |
| HeapEntries.PushTiedPriceRaises | backend/app/services/order_book.py:113-115 | Pushing a second order onto a side whose one entry has the same price raises `TypeError` after appending it: the side is left holding both entries, the Findings input. |
| Scenarios.FirstSellRests | backend/tests/test_order_matching.py:18-20 | A sell on an empty book makes no trade and rests as the only ask. |
| Scenarios.BasicMatching | backend/tests/test_order_matching.py:5-30 | A buy of 10 at 100 against a lone sell of 10 at 100 gives one trade of 10 at 100. Both orders end Filled and both sides end empty. |
| Scenarios.PartialMatching | backend/tests/test_order_matching.py:32-56 | A buy of 10 against a sell of 20 gives one trade of 10. The sell keeps resting PartiallyFilled with 10 filled, and the buy is Filled. |
| Scenarios.SecondSellQueuesBehind | backend/app/services/order_book.py:113-115 | A second sell at the same price rests behind the first. |
| Scenarios.EqualPriceArrivalOrder | backend/app/services/order_book.py:24-62 | Of two sells at the same price, a buy trades with the one that arrived first, and the other keeps resting. |
| Scenarios.CancelUnknownOnEmptyBook | backend/app/services/order_book.py:125-126 | Cancelling an id on an empty book fails and changes nothing. |

## Left out

- Floating-point prices (`backend/app/models/database.py:62`) are modelled as integers, meaning fixed-point minor units.
- The `heapq` mechanics (negated-price max-heap, `heapify`) are replaced by sequences kept in price-time order. `HeapEntries` models the push only as far as needed to show the equal-price defect; `heappop` and `heapify`, which make the same comparison, are not modelled.
- HeapEntries.HeapPush: the list left behind by a raise is the one CPython's C `heapq` leaves, which swaps the new entry up one level at a time. The pure-Python fallback moves parents down into a hole instead, so after at least one move it would leave a parent's copy where the new entry is. The two agree when the first comparison raises, as in the Findings input.
- The book that `add_order` leaves after that `TypeError` (the order queued but not registered) is described under Findings but not built as an `OrderBook.Book`: the rest of the model uses the corrected first-in, first-out queue.
- Ties at equal price are broken by arrival number. This is a modelling choice: the source has no working tie-break (see Findings).
- The `getattr(..., None) is None` field defaults (`order_book.py:17-20,27-30,76-79`) are left out. Orders are always fully initialised, with fill 0 and status Open on submission.
- OrderBook.Snapshot: at equal price, the source lists orders in the heap's array order, because its sort is by price only and is stable. The model lists them in arrival order. Only the price ordering is stated.
- The aliasing of one order object between a heap and the registry is left out. `OrderBook.Valid` states that the copies agree instead.
- OrderBook.AddOrderPreservesValid: requires an id not yet registered. The source accepts a reused id and then overwrites the registry entry while the old order may still be queued. The invariant does not hold in that case.
- OrderBook.AddOrderMakers: requires an id not yet registered, for the same reason. An incoming order whose id equals a maker's would overwrite that maker's entry.
- OrderBook.CancelOrder: the Cancelled status is carried by the returned order only, because the registry entry is deleted in the same call. The source sets it on the order object just before dropping that object from the registry (`order_book.py:128-129,139`).
- OrderBook.AddOrderStatus: requires a positive quantity. A quantity of zero or less is covered by `OrderBook.AddOrderAccounting` (Filled with no trade).
- The API and database layer (`backend/app/api/endpoints.py`, SQLAlchemy sessions, persistence of trades), authentication, and the WebSocket broadcast are left out. So are the frontend and the concurrency that a shared book in a web server brings: each engine call is treated as atomic.

## Findings

| source | as written | input that shows it | evidently intended | confidence | as-written member | corrected member |
|---|---|---|---|---|---|---|
| backend/app/services/order_book.py:34-115 | Heap entries are `(price, order)` tuples. When a comparison meets two entries with equal keys, Python compares the `Order` objects, which define no ordering, and raises `TypeError`. A push raises when the new entry's path to the root meets a different order with the same key. `heappop` (lines 25, 74) and `heapify` (lines 134, 137) make the same comparison. The push has already appended the entry when it raises, so `add_order` leaves the order on its side but exits before lines 116-120: it stays queued with the status it came in with and is not in the registry. A later buy can still trade with it, while `cancel_order` of its id fails. | On an empty book, add a sell of 5 at 100 (id 1), then another sell of 5 at 100 (id 2). The second `heappush` at line 115 compares `(100, order2)` with its parent `(100, order1)`. | Orders at equal price queue one behind the other, earliest first. | not executed | HeapEntries.PushTiedPriceRaises | Queues.InsertKeepsOrder |

The corrected side is used by the rest of the model. `Scenarios.SecondSellQueuesBehind` and `Scenarios.EqualPriceArrivalOrder` show two sells at the same price resting in arrival order and matched first in, first out.
