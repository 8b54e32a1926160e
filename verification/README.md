# Single-instrument limit-order matching engine

This project models the matching engine of `stock_exchange.py` and proves
what it promises. Traders submit buy and sell limit orders, each with a
price and a quantity. An incoming order is matched against the book of the
other side, oldest resting order first. It trades with every resting order
it crosses: a buy crosses a sell when the buy price is at least the sell
price. Each trade fills both orders by the smaller of their two remaining
quantities. A resting order that reaches 0 leaves its book. Matching stops
as soon as the incoming order is filled. An incoming order that is not
filled rests at the end of the book of its own side with what is left.

The project has three modules:

- `Matching` (`matching.dfy`) states the matching rules on values: an
  order's state (`OrderState`), the crossing test, the trade quantity,
  matching an order against a book (`Match`) and submitting an order to the
  two books (`Submit`). Its lemmas prove the properties of the rules:
  - quantity is conserved;
  - orders that do not cross keep their quantity and order;
  - time priority, with the scan stopping at the order that completes the fill;
  - an unfilled scan is exhaustive;
  - the books stay made of positive orders of their own side;
  - no resting buy crosses a resting sell;
  - the demonstration session ends as the source expects.
- `Exchange` (`exchange.dfy`) is the engine as the source builds it:
  - `Order` objects whose quantity changes in place;
  - `OrderBook` objects holding their resting orders in arrival order;
  - a `StockExchange` owning a buy book and a sell book.
  The matching scan is a `while` loop over the book. Every method is
  proved against the functions of `Matching`: after `MatchOrder` the
  book's values are what `Match` yields. After `Buy` and `Sell` the two
  books are what `Submit` yields.
- `AsWritten` (`linked_as_written.dfy`) keeps the books as the source keeps
  them: singly linked records with a first and a last pointer, updated
  exactly as the source updates them. It shows, on concrete sessions,
  where that pointer bookkeeping departs from the matching rules (see
  Findings). It also proves that appending is right while the last
  pointer names the true end of the list.

## Model

| member | source | states |
|---|---|---|
| Matching.IsMatching | stock_exchange.py:72-77 | Two orders cross only if their sides differ. When they do, they cross exactly when the buying order's price is at least the selling order's price, whichever argument is the buyer. Two orders of one side never cross. |
| Matching.TradeQuantity | stock_exchange.py:36-46 | The quantity one trade transfers is at most each of the two quantities and equal to one of them: the smaller. |
| Matching.Match | stock_exchange.py:50-70 | Matching never adds to the book. A filled order has 0 left. Against positive resting orders, the incoming order's quantity only goes down and never below 0. |
| Matching.MatchConservesQuantity | stock_exchange.py:36-46 | What the incoming order loses equals what the resting orders of the book lose in total. |
| Matching.MatchKeepsNonCrossing | stock_exchange.py:53-69 | The orders that do not cross the incoming order are all still in the book afterwards, with their quantities and in their relative order. |
| Matching.MatchKeepsResting | stock_exchange.py:59-63 | A book of orders with positive quantity stays one: every order that reaches 0 leaves the book. |
| Matching.MatchKeepsLimits | stock_exchange.py:50-70 | Every order left in the book has the side and price of an order that was there, so any property of side and price held by all resting orders still holds. |
| Matching.MatchUnfilled | stock_exchange.py:59-70 | When matching returns without a fill, the scan was exhaustive. Every crossing order was consumed and left the book, so the book is exactly its non-crossing orders. The incoming order keeps what the crossing orders could not supply, which is still positive. |
| Matching.MatchFilled | stock_exchange.py:65-66 | When matching fills the incoming order, there is a position m where this happened. The crossing orders before m held less than the incoming quantity, and those up to m held enough. Every crossing order before m left the book, the order at m keeps what was not taken, and every order after m is untouched. |
| Matching.MatchConsumesHead | stock_exchange.py:55-69 | A crossing first order smaller than the incoming order is consumed whole, and matching goes on with what is left against the rest of the book. |
| Matching.MatchFilledIffCovered | stock_exchange.py:50-70 | Against a book of positive orders, the incoming order is filled exactly when the crossing orders hold at least its quantity. |
| Matching.Submit | stock_exchange.py:117-129 | Submitting never adds to the opposite book. The order's own book gains at most one order, at the end, and keeps all the orders it had in their order. |
| Matching.SubmitRestsUnlessCovered | stock_exchange.py:117-129 | A positive order rests exactly when the crossing orders of the opposite book cannot fill it. It then rests with the quantity they could not supply, and the opposite book keeps only its non-crossing orders. The non-crossing orders always survive. |
| Matching.SubmitKeepsWellFormed | stock_exchange.py:117-129 | After a positive order is submitted, each book still holds only positive orders of its own side. |
| Matching.SubmitKeepsUncrossed | stock_exchange.py:117-129 | If no resting buy order crossed a resting sell order before a submission, none does after it. |
| Matching.ReferenceSession | stock_exchange.py:131-137 | The demonstration session: buys 10@80, 4@100 and 25@95 rest in arrival order. The sell 5@90 empties the buy at 100 and takes 1 from the buy at 95. The sell 15@92 leaves the buy book [10@80, 9@95] and the sell book empty. |
| Exchange.Order.constructor | stock_exchange.py:89-93 | A new order has the given price, quantity and side. |
| Exchange.OrderBook.constructor | stock_exchange.py:24-26 | A new book is empty and valid. |
| Exchange.OrderBook.AddOrder | stock_exchange.py:28-34 | The book becomes the old book followed by the new order. Its values are the old values followed by the new order's, and it stays valid. |
| Exchange.OrderBook.ExecuteTrade | stock_exchange.py:36-46 | For a buy and a sell order, whichever argument is which, both quantities drop by the smaller of the two. Neither goes negative and at least one ends at 0. For two orders of one side, the order taken as both buyer and seller is emptied and the other is untouched. |
| Exchange.OrderBook.Visit | stock_exchange.py:55-69 | One step of the scan keeps the loop invariant. A non-crossing order is passed and kept. A crossing order trades and is kept only if something is left of it. When the trade fills the incoming order, the scan's outcome is what Match yields. |
| Exchange.OrderBook.Scan | stock_exchange.py:51-70 | The loop visits the resting orders oldest first. It stops as soon as the incoming order is filled or the book is passed. It ends with the outcome Match yields on the book's values, and the orders it reached are recorded with their new quantities. |
| Exchange.OrderBook.MatchOrder | stock_exchange.py:50-70 | The result, the incoming order's remaining quantity and the book's new values are what Match yields on the old values. The book becomes its old orders less those emptied, in the same order, and stays valid: distinct orders, each with a positive quantity. |
| Exchange.Unlinked | stock_exchange.py:59-63 | Dropping the emptied orders among those the scan reached leaves exactly the live orders of the book, each once and positive, with the values matching yields. |
| Exchange.ScannedTrade | stock_exchange.py:55-66 | A trade during the scan is where Match is. It either completes the fill, with the book's values as Match yields them, or leaves the scan one order further on with what is left of the incoming order. |
| Exchange.ScannedSkip | stock_exchange.py:68-69 | Passing a non-crossing order keeps the scan where Match is, one order further on. |
| Exchange.MatchNew | stock_exchange.py:118-120 | A new order is made and matched against the opposite book, with the outcome Match yields. The own book is untouched. When the order is not filled, it is still positive and not in the own book. |
| Exchange.PlaceOrder | stock_exchange.py:117-129 | The opposite book's values become what Match yields. The own book gains the order, with what is left of it, exactly when the order was not filled. Both books stay valid. |
| Exchange.StockExchange.constructor | stock_exchange.py:103-105 | A new exchange has two separate empty books and is valid. |
| Exchange.StockExchange.Buy | stock_exchange.py:117-122 | A buy for a positive quantity is accepted, and the two books become what Submit yields. Any other buy is turned away and changes nothing. The exchange stays valid: positive orders, each in the book of its side, and no resting buy crosses a resting sell. |
| Exchange.StockExchange.Sell | stock_exchange.py:124-129 | As Buy, for a sell order matched against the buy book. |
| AsWritten.AddOrder | stock_exchange.py:28-34 | The source's append: the new record becomes the book's last record, and becomes its first record too when the book had no last record. No order changes. |
| AsWritten.AddOrderAtTrueTail | stock_exchange.py:28-34 | While the book's last pointer names the end of the walk from its first record, appending makes that walk one record longer, ending at the new record. |
| AsWritten.MatchFrom | stock_exchange.py:50-70 | The source's scan with its prev and cur pointers: a filled order has 0 left, the book's last pointer is never changed, and the incoming order keeps its side and price. |
| AsWritten.Place | stock_exchange.py:117-129 | The source's submission: one new record with the order's side and price. The opposite book's last pointer is never updated. |
| AsWritten.StalePrevLeavesFilledOrder | stock_exchange.py:59-68 | Three sells 3@90, then a buy 10@100: an order at 0 stays in the sell book, where the matching rules leave it empty. |
| AsWritten.StaleLastLosesAppendedOrder | stock_exchange.py:59-63 | Sell 3@90, buy 3@100, then sell 5@95: the sell 5@95 is in neither book, where the matching rules rest it. |
| AsWritten.ZeroQuantityRests | stock_exchange.py:117-121 | A buy 0@50 on an empty exchange rests an order for 0, so the books no longer hold only positive orders. |
| AsWritten.ReferenceSessionAsWritten | stock_exchange.py:131-137 | The demonstration session, run with the source's pointer updates, ends with the same books as the matching rules give. |

## Left out

- Logging, `print`, `displayOrderBook` and both `__str__` methods are output only and are not modelled.
- The singleton `__new__`/`_instance` is process-global state. The model holds an explicit `StockExchange` object instead.
- The demonstration driver at the end of the file is not executable code here. It is stated as the lemmas `Matching.ReferenceSession` and `AsWritten.ReferenceSessionAsWritten`.
- In module `Exchange` a book is a `seq<Order>` in arrival order, not a linked list. The `next` field of an order and the book's `start` and `last` pointers appear only in module `AsWritten`. That module keeps the records in an arena of values, so it does not model object identity or aliasing of records.
- AsWritten.MatchFrom: a walk takes at most as many steps as there are records (a fuel bound). A pointer outside the arena is read as the end of the list. Neither case arises from the source's own updates.
- Exchange.OrderBook.MatchOrder: requires a positive incoming quantity and an incoming order that is not already resting in the book. `StockExchange` only ever passes such orders. The source's handling of an order for 0 is modelled by AsWritten.Place.
- Exchange.OrderBook.AddOrder: requires a positive order not already in the book, so that the book stays valid. The source appends anything; that behaviour is AsWritten.AddOrder.
- Exchange.PlaceOrder: requires the two books to share no order. `StockExchange` derives this from its invariant, since every order rests in the book of its side.
- Prices are not validated. The specification of the system asks for positive prices and quantities, but the code checks neither. The model follows the code for prices. For quantities, see the third finding.
- The crossing test for two orders of one side prints a message and returns nothing, which its caller reads as false. The model returns false. The specification treats this case as an internal error, but the code only reaches it for orders of opposite sides.

## Findings

| source | as written | input that shows it | evidently intended | confidence | as-written member | corrected member |
|---|---|---|---|---|---|---|
| stock_exchange.py:59-68 | `prev` becomes the order just unlinked. When the next order is emptied too, it is unlinked from that detached record rather than from the book. | Sell 3@90 three times, then buy 10@100: the sell book keeps one sell order at quantity 0. | Every order that reaches 0 leaves the book, and the sell book ends empty. | not executed | AsWritten.StalePrevLeavesFilledOrder | Exchange.OrderBook.MatchOrder |
| stock_exchange.py:28-34 | Unlinking never moves `last`. After the book is emptied, `addOrder` links the new order after a removed record. | Sell 3@90, buy 3@100, then sell 5@95: the sell 5@95 is in neither book. | A new order rests at the end of its book. | not executed | AsWritten.StaleLastLosesAppendedOrder | Exchange.OrderBook.AddOrder |
| stock_exchange.py:117-121 | `buy` and `sell` accept any quantity. | Buy 0@50 on an empty exchange: an order for 0 rests in the buy book. | Every resting order has a positive quantity, and an order for no positive quantity changes nothing. | not executed | AsWritten.ZeroQuantityRests | Exchange.StockExchange.Buy |
