/** The order books as the source keeps them: singly linked lists of order
    records, each book holding a pointer to its first and to its last record,
    with the pointer updates exactly as the source makes them. Records live
    in an arena and a pointer is an index into it or nothing. This module
    exists to state where the pointer bookkeeping departs from the matching
    rules of module Matching; the rest of the project uses those rules. */
module AsWritten {
  import opened Matching

  datatype Ptr = Nil | Ref(index: nat)

  /** An order record: the order as it is now and the link to the next record. */
  datatype Node = Node(order: OrderState, next: Ptr)

  /** One book: its first record and its last record. */
  datatype Book = Book(start: Ptr, last: Ptr)

  /** Every record created so far, and the two books. */
  datatype Exchange = Exchange(heap: seq<Node>, buys: Book, sells: Book)

  /** The exchange before any order arrives. */
  const Empty := Exchange([], Book(Nil, Nil), Book(Nil, Nil))

  /** The orders met by following links from p, at most fuel of them. */
  function Chain(heap: seq<Node>, p: Ptr, fuel: nat): (r: seq<OrderState>)
    ensures |r| <= fuel
    ensures p == Nil ==> r == []
    decreases fuel
  {
    if fuel == 0 || p == Nil || p.index >= |heap| then []
    else [heap[p.index].order] + Chain(heap, heap[p.index].next, fuel - 1)
  }

  /** What a book holds, as a walk from its first record shows it. */
  function Contents(heap: seq<Node>, book: Book): seq<OrderState>
  {
    Chain(heap, book.start, |heap|)
  }

  /** Appending a record to a book: linked after the record the book takes
      for its last one, which becomes the new record. */
  function AddOrder(heap: seq<Node>, book: Book, node: nat): (r: (seq<Node>, Book))
    ensures |r.0| == |heap| && r.1.last == Ref(node)
    ensures r.1.start == if book.last == Nil then Ref(node) else book.start
    ensures forall k :: 0 <= k < |heap| ==> r.0[k].order == heap[k].order
  {
    if book.last == Nil then (heap, Book(Ref(node), Ref(node)))
    else if book.last.index < |heap| then
      (heap[book.last.index := heap[book.last.index].(next := Ref(node))], Book(book.start, Ref(node)))
    else (heap, Book(book.start, Ref(node)))
  }

  /** The state of a scan of a book: the arena, the book's two pointers, the
      incoming order and whether it was filled. */
  datatype Scan = Scan(heap: seq<Node>, book: Book, order: OrderState, filled: bool)

  /** The scan of a book as written: cur walks the records, prev is the record
      visited just before cur whether or not that record was unlinked, an
      emptied record is unlinked through prev (or by moving the book's first
      pointer when there is no prev), and the book's last pointer is never
      touched. The scan takes at most fuel steps. */
  function MatchFrom(heap: seq<Node>, book: Book, order: OrderState, prev: Ptr, cur: Ptr, fuel: nat): (r: Scan)
    ensures |r.heap| == |heap| && r.book.last == book.last
    ensures r.filled ==> r.order.quantity == 0
    ensures r.order.side == order.side && r.order.price == order.price
    decreases fuel
  {
    if fuel == 0 || cur == Nil || cur.index >= |heap| then Scan(heap, book, order, false)
    else
      var node := heap[cur.index];
      if IsMatching(order, node.order) then
        var q := TradeQuantity(Buyer(node.order, order).quantity, Seller(node.order, order).quantity);
        var resting := node.order.(quantity := node.order.quantity - q);
        var order' := order.(quantity := order.quantity - q);
        var traded := heap[cur.index := node.(order := resting)];
        var heap' :=
          if resting.quantity == 0 && prev != Nil && prev.index < |traded| then
            traded[prev.index := traded[prev.index].(next := node.next)]
          else traded;
        var book' := if resting.quantity == 0 && prev == Nil then book.(start := node.next) else book;
        if order'.quantity == 0 then Scan(heap', book', order', true)
        else MatchFrom(heap', book', order', cur, heap'[cur.index].next, fuel - 1)
      else
        MatchFrom(heap, book, order, cur, node.next, fuel - 1)
  }

  /** Submitting an order as written: a new record is created, the book of
      the other side is scanned from its first record, and unless the order
      was filled its record is appended to its own book. No quantity is
      checked, and the other side's last pointer is left as it was. */
  function Place(ex: Exchange, side: Side, price: int, quantity: int): (r: Exchange)
    ensures |r.heap| == |ex.heap| + 1
    ensures r.heap[|ex.heap|].order.side == side && r.heap[|ex.heap|].order.price == price
    ensures (if side == Buy then r.sells.last else r.buys.last) == (if side == Buy then ex.sells.last else ex.buys.last)
  {
    var n := |ex.heap|;
    var incoming := OrderState(side, price, quantity);
    var heap := ex.heap + [Node(incoming, Nil)];
    var opposite := if side == Buy then ex.sells else ex.buys;
    var own := if side == Buy then ex.buys else ex.sells;
    var s := MatchFrom(heap, opposite, incoming, Nil, opposite.start, |heap|);
    var matched := s.heap[n := s.heap[n].(order := s.order)];
    var (heap', own') := if s.filled then (matched, own) else AddOrder(matched, own, n);
    if side == Buy then Exchange(heap', own', s.book) else Exchange(heap', s.book, own')
  }

  /** The records a walk from p visits, in order, ending where a link is Nil. */
  ghost predicate Path(heap: seq<Node>, p: Ptr, path: seq<nat>)
    decreases |path|
  {
    if path == [] then p == Nil
    else p == Ref(path[0]) && path[0] < |heap| && Path(heap, heap[path[0]].next, path[1..])
  }

  /** Walking a path of at most fuel records shows the orders of its records. */
  lemma {:induction false} ChainFollowsPath(heap: seq<Node>, p: Ptr, path: seq<nat>, fuel: nat)
    requires Path(heap, p, path) && |path| <= fuel
    ensures forall k :: 0 <= k < |path| ==> path[k] < |heap|
    ensures var r := Chain(heap, p, fuel);
      |r| == |path| && forall k :: 0 <= k < |path| ==> r[k] == heap[path[k]].order
    decreases |path|
  {
    if path != [] {
      ChainFollowsPath(heap, heap[path[0]].next, path[1..], fuel - 1);
      var r := Chain(heap, p, fuel);
      assert r == [heap[path[0]].order] + Chain(heap, heap[path[0]].next, fuel - 1);
      forall k | 0 <= k < |path|
        ensures path[k] < |heap| && r[k] == heap[path[k]].order
      {
        if k > 0 {
          assert path[k] == path[1..][k - 1];
        }
      }
    }
  }

  /** Linking a new record after the last record of a path, when the record
      was on no path and links nowhere, makes the path one record longer. */
  lemma {:induction false} RelinkExtendsPath(heap: seq<Node>, p: Ptr, path: seq<nat>, node: nat)
    requires Path(heap, p, path) && path != [] && node < |heap| && heap[node].next == Nil && node !in path
    requires path[|path| - 1] !in path[..|path| - 1]
    ensures var last := path[|path| - 1];
      last < |heap| && Path(heap[last := heap[last].(next := Ref(node))], p, path + [node])
    decreases |path|
  {
    var last := path[|path| - 1];
    ChainFollowsPath(heap, p, path, |path|);
    var heap' := heap[last := heap[last].(next := Ref(node))];
    assert (path + [node])[1..] == path[1..] + [node];
    if |path| == 1 {
      assert Path(heap', Nil, []);
      assert Path(heap', Ref(node), [node]);
    } else {
      assert path[1..][|path| - 2] == last && path[1..][..|path| - 2] == path[1..|path| - 1];
      assert path[0] in path[..|path| - 1];
      RelinkExtendsPath(heap, heap[path[0]].next, path[1..], node);
    }
  }

  /** While a book's last pointer names the true end of its walk, adding an
      order extends the walk by the new record, so the book's contents gain
      the new order at the end and keep the others in order. */
  lemma AddOrderAtTrueTail(heap: seq<Node>, book: Book, path: seq<nat>, node: nat)
    requires Path(heap, book.start, path) && node < |heap| && heap[node].next == Nil && node !in path
    requires book.last == if path == [] then Nil else Ref(path[|path| - 1])
    requires path == [] || path[|path| - 1] !in path[..|path| - 1]
    ensures var r := AddOrder(heap, book, node);
      Path(r.0, r.1.start, path + [node]) && r.1.last == Ref(node)
  {
    if path == [] {
      assert Path(heap, Nil, []);
    } else {
      RelinkExtendsPath(heap, book.start, path, node);
    }
  }

  /** A book emptied by matching keeps its last pointer on the removed
      record, so the next order to rest there is linked after that record and
      cannot be reached from the book's start: the sell order is lost, where
      the matching rules rest it. */
  lemma StaleLastLosesAppendedOrder()
    ensures var emptied := Place(Place(Empty, Sell, 90, 3), Buy, 100, 3);
      var after := Place(emptied, Sell, 95, 5);
      Contents(emptied.heap, emptied.sells) == [] && emptied.sells.last == Ref(0) &&
      Contents(after.heap, after.sells) == [] && Contents(after.heap, after.buys) == []
    ensures Submit(Submit(Submit(Books([], []), Sell, 90, 3), Buy, 100, 3), Sell, 95, 5) ==
      Books([], [OrderState(Sell, 95, 5)])
  {
  }

  /** After a record is unlinked, prev still names it; when the next record
      is emptied too, it is unlinked from the detached record instead of
      from the book, and stays in the book with nothing left to fill. A buy
      order for 10 against three sell orders of 3 leaves the second one
      resting at 0, where the matching rules empty the sell book. */
  lemma StalePrevLeavesFilledOrder()
    ensures var sells := Place(Place(Place(Empty, Sell, 90, 3), Sell, 90, 3), Sell, 90, 3);
      var after := Place(sells, Buy, 100, 10);
      Contents(sells.heap, sells.sells) == [OrderState(Sell, 90, 3), OrderState(Sell, 90, 3), OrderState(Sell, 90, 3)] &&
      Contents(after.heap, after.sells) == [OrderState(Sell, 90, 0)] &&
      Contents(after.heap, after.buys) == [OrderState(Buy, 100, 1)]
    ensures var books := Submit(Submit(Submit(Books([], []), Sell, 90, 3), Sell, 90, 3), Sell, 90, 3);
      Submit(books, Buy, 100, 10) == Books([OrderState(Buy, 100, 1)], [])
  {
    var three := OrderState(Sell, 90, 3);
    var spent := OrderState(Sell, 90, 0);
    ThreeSells();
    BuyAfterThreeSells();
    var sells := [Node(three, Ref(1)), Node(three, Ref(2)), Node(three, Nil)];
    assert Chain(sells, Ref(0), 3) == [three, three, three];
    var after := [Node(spent, Ref(2)), Node(spent, Nil), Node(spent, Nil), Node(OrderState(Buy, 100, 1), Nil)];
    assert Chain(after, Ref(1), 4) == [spent];
    assert Chain(after, Ref(3), 4) == [OrderState(Buy, 100, 1)];
    ThreeSellsMatched();
  }

  /** The buy order of StalePrevLeavesFilledOrder meets the three sell orders. */
  lemma BuyAfterThreeSells()
    ensures var three := OrderState(Sell, 90, 3);
      var spent := OrderState(Sell, 90, 0);
      Place(Exchange([Node(three, Ref(1)), Node(three, Ref(2)), Node(three, Nil)], Book(Nil, Nil), Book(Ref(0), Ref(2))),
            Buy, 100, 10) ==
      Exchange([Node(spent, Ref(2)), Node(spent, Nil), Node(spent, Nil), Node(OrderState(Buy, 100, 1), Nil)],
               Book(Ref(3), Ref(3)), Book(Ref(1), Ref(2)))
  {
    var three := OrderState(Sell, 90, 3);
    var incoming := Node(OrderState(Buy, 100, 10), Nil);
    var sells := [Node(three, Ref(1)), Node(three, Ref(2)), Node(three, Nil)];
    assert sells + [incoming] == [Node(three, Ref(1)), Node(three, Ref(2)), Node(three, Nil), incoming];
    ThreeSellsScanned();
  }

  /** The three sell orders of StalePrevLeavesFilledOrder, linked in arrival order. */
  lemma ThreeSells()
    ensures var three := OrderState(Sell, 90, 3);
      Place(Place(Place(Empty, Sell, 90, 3), Sell, 90, 3), Sell, 90, 3) ==
      Exchange([Node(three, Ref(1)), Node(three, Ref(2)), Node(three, Nil)], Book(Nil, Nil), Book(Ref(0), Ref(2)))
  {
  }

  /** The scan of StalePrevLeavesFilledOrder, one visited record at a time. */
  lemma ThreeSellsScanned()
    ensures var three := OrderState(Sell, 90, 3);
      var spent := OrderState(Sell, 90, 0);
      var incoming := Node(OrderState(Buy, 100, 10), Nil);
      MatchFrom([Node(three, Ref(1)), Node(three, Ref(2)), Node(three, Nil), incoming],
                Book(Ref(0), Ref(2)), OrderState(Buy, 100, 10), Nil, Ref(0), 4) ==
      Scan([Node(spent, Ref(2)), Node(spent, Nil), Node(spent, Nil), incoming],
           Book(Ref(1), Ref(2)), OrderState(Buy, 100, 1), false)
  {
    FirstSellFilled();
    SecondSellFilled();
    ThirdSellFilled();
  }

  lemma FirstSellFilled()
    ensures var three := OrderState(Sell, 90, 3);
      var spent := OrderState(Sell, 90, 0);
      var incoming := Node(OrderState(Buy, 100, 10), Nil);
      MatchFrom([Node(three, Ref(1)), Node(three, Ref(2)), Node(three, Nil), incoming],
                Book(Ref(0), Ref(2)), OrderState(Buy, 100, 10), Nil, Ref(0), 4) ==
      MatchFrom([Node(spent, Ref(1)), Node(three, Ref(2)), Node(three, Nil), incoming],
                Book(Ref(1), Ref(2)), OrderState(Buy, 100, 7), Ref(0), Ref(1), 3)
  {
  }

  lemma SecondSellFilled()
    ensures var three := OrderState(Sell, 90, 3);
      var spent := OrderState(Sell, 90, 0);
      var incoming := Node(OrderState(Buy, 100, 10), Nil);
      MatchFrom([Node(spent, Ref(1)), Node(three, Ref(2)), Node(three, Nil), incoming],
                Book(Ref(1), Ref(2)), OrderState(Buy, 100, 7), Ref(0), Ref(1), 3) ==
      MatchFrom([Node(spent, Ref(2)), Node(spent, Ref(2)), Node(three, Nil), incoming],
                Book(Ref(1), Ref(2)), OrderState(Buy, 100, 4), Ref(1), Ref(2), 2)
  {
  }

  lemma ThirdSellFilled()
    ensures var three := OrderState(Sell, 90, 3);
      var spent := OrderState(Sell, 90, 0);
      var incoming := Node(OrderState(Buy, 100, 10), Nil);
      MatchFrom([Node(spent, Ref(2)), Node(spent, Ref(2)), Node(three, Nil), incoming],
                Book(Ref(1), Ref(2)), OrderState(Buy, 100, 4), Ref(1), Ref(2), 2) ==
      Scan([Node(spent, Ref(2)), Node(spent, Nil), Node(spent, Nil), incoming],
           Book(Ref(1), Ref(2)), OrderState(Buy, 100, 1), false)
  {
  }

  /** The matching rules on the orders of StalePrevLeavesFilledOrder. */
  lemma ThreeSellsMatched()
    ensures var books := Submit(Submit(Submit(Books([], []), Sell, 90, 3), Sell, 90, 3), Sell, 90, 3);
      Submit(books, Buy, 100, 10) == Books([OrderState(Buy, 100, 1)], [])
  {
    var three := OrderState(Sell, 90, 3);
    assert Submit(Submit(Submit(Books([], []), Sell, 90, 3), Sell, 90, 3), Sell, 90, 3) == Books([], [three, three, three]);
    assert [three, three, three][1..] == [three, three] && [three, three][1..] == [three];
    assert Match(OrderState(Buy, 100, 4), [three]) == MatchResult(false, 1, []);
    assert Match(OrderState(Buy, 100, 7), [three, three]) == MatchResult(false, 1, []);
    assert Match(OrderState(Buy, 100, 10), [three, three, three]) == MatchResult(false, 1, []);
  }

  /** No quantity is checked: an order for nothing rests in its book. */
  lemma ZeroQuantityRests()
    ensures var after := Place(Empty, Buy, 50, 0);
      Contents(after.heap, after.buys) == [OrderState(Buy, 50, 0)] &&
      !WellFormed(Books(Contents(after.heap, after.buys), Contents(after.heap, after.sells)))
  {
    var after := Place(Empty, Buy, 50, 0);
    assert after == Exchange([Node(OrderState(Buy, 50, 0), Nil)], Book(Ref(0), Ref(0)), Book(Nil, Nil));
    assert Contents(after.heap, after.buys)[0].quantity == 0;
  }

  /** The session the source runs as its demonstration meets neither stale
      pointer in a way that shows: the books end as the matching rules say. */
  lemma ReferenceSessionAsWritten()
    ensures var bought := Place(Place(Place(Empty, Buy, 80, 10), Buy, 100, 4), Buy, 95, 25);
      var after := Place(Place(bought, Sell, 90, 5), Sell, 92, 15);
      Contents(after.heap, after.buys) == [OrderState(Buy, 80, 10), OrderState(Buy, 95, 9)] &&
      Contents(after.heap, after.sells) == []
  {
    DemoBuys();
    DemoFirstSell();
    DemoSecondSell();
    var heap := [Node(OrderState(Buy, 80, 10), Ref(2)), Node(OrderState(Buy, 100, 0), Ref(2)),
                 Node(OrderState(Buy, 95, 9), Nil), Node(OrderState(Sell, 90, 0), Nil),
                 Node(OrderState(Sell, 92, 0), Nil)];
    assert Chain(heap, Ref(2), 4) == [OrderState(Buy, 95, 9)];
  }

  /** The three buy orders of the demonstration rest in arrival order. */
  lemma DemoBuys()
    ensures Place(Place(Place(Empty, Buy, 80, 10), Buy, 100, 4), Buy, 95, 25) ==
      Exchange([Node(OrderState(Buy, 80, 10), Ref(1)), Node(OrderState(Buy, 100, 4), Ref(2)),
                Node(OrderState(Buy, 95, 25), Nil)], Book(Ref(0), Ref(2)), Book(Nil, Nil))
  {
  }

  /** The first sell order of the demonstration empties the buy order at 100
      and takes 1 from the one at 95. */
  lemma DemoFirstSell()
    ensures Place(Exchange([Node(OrderState(Buy, 80, 10), Ref(1)), Node(OrderState(Buy, 100, 4), Ref(2)),
                            Node(OrderState(Buy, 95, 25), Nil)], Book(Ref(0), Ref(2)), Book(Nil, Nil)),
                  Sell, 90, 5) ==
      Exchange([Node(OrderState(Buy, 80, 10), Ref(2)), Node(OrderState(Buy, 100, 0), Ref(2)),
                Node(OrderState(Buy, 95, 24), Nil), Node(OrderState(Sell, 90, 0), Nil)],
               Book(Ref(0), Ref(2)), Book(Nil, Nil))
  {
  }

  /** The second sell order of the demonstration is filled by the buy order at 95. */
  lemma DemoSecondSell()
    ensures Place(Exchange([Node(OrderState(Buy, 80, 10), Ref(2)), Node(OrderState(Buy, 100, 0), Ref(2)),
                            Node(OrderState(Buy, 95, 24), Nil), Node(OrderState(Sell, 90, 0), Nil)],
                           Book(Ref(0), Ref(2)), Book(Nil, Nil)),
                  Sell, 92, 15) ==
      Exchange([Node(OrderState(Buy, 80, 10), Ref(2)), Node(OrderState(Buy, 100, 0), Ref(2)),
                Node(OrderState(Buy, 95, 9), Nil), Node(OrderState(Sell, 90, 0), Nil),
                Node(OrderState(Sell, 92, 0), Nil)],
               Book(Ref(0), Ref(2)), Book(Nil, Nil))
  {
    var heap := [Node(OrderState(Buy, 80, 10), Ref(2)), Node(OrderState(Buy, 100, 0), Ref(2)),
                 Node(OrderState(Buy, 95, 24), Nil), Node(OrderState(Sell, 90, 0), Nil),
                 Node(OrderState(Sell, 92, 15), Nil)];
    var order := OrderState(Sell, 92, 15);
    assert MatchFrom(heap, Book(Ref(0), Ref(2)), order, Nil, Ref(0), 5) ==
      MatchFrom(heap, Book(Ref(0), Ref(2)), order, Ref(0), Ref(2), 4);
  }
}
