/** The exchange as the source builds it: orders are objects whose quantity
    changes in place, each book is an object holding its resting orders in
    arrival order, and the exchange owns one buy book and one sell book.
    Every operation is proved against the functions of module Matching. */
module Exchange {
  import opened Matching

  class Order {
    const price: int
    const side: Side
    var quantity: int

    constructor (price: int, quantity: int, side: Side)
      ensures this.price == price && this.quantity == quantity && this.side == side
    {
      this.price := price;
      this.quantity := quantity;
      this.side := side;
    }

    function View(): OrderState
      reads this
    {
      OrderState(side, price, quantity)
    }
  }

  /** The values of a sequence of orders, in the same order: the observable
      state of a book. */
  function Snapshot(orders: seq<Order>): (s: seq<OrderState>)
    reads orders
    ensures |s| == |orders|
    ensures forall k :: 0 <= k < |orders| ==> s[k] == orders[k].View()
  {
    seq(|orders|, k requires 0 <= k < |orders| reads orders => orders[k].View())
  }

  /** No order appears twice: each one differs from all that come before it. */
  ghost predicate Distinct(orders: seq<Order>)
  {
    orders == [] ||
    var n := |orders| - 1;
    Distinct(orders[..n]) && orders[n] !in orders[..n]
  }

  /** Orders at different positions of a sequence without repeats are different objects. */
  lemma {:induction false} DistinctAt(orders: seq<Order>)
    requires Distinct(orders)
    ensures forall i, j :: 0 <= i < j < |orders| ==> orders[i] != orders[j]
  {
    if orders != [] {
      var n := |orders| - 1;
      DistinctAt(orders[..n]);
      forall i, j | 0 <= i < j < |orders|
        ensures orders[i] != orders[j]
      {
        if j == n {
          assert orders[i] == orders[..n][i];
        } else {
          assert orders[i] == orders[..n][i] && orders[j] == orders[..n][j];
        }
      }
    }
  }

  /** The orders of a sequence whose quantity is not 0, in the same order. */
  ghost function Live(orders: seq<Order>): seq<Order>
    reads orders
  {
    if orders == [] then []
    else
      var last := orders[|orders| - 1];
      Live(orders[..|orders| - 1]) + (if last.quantity != 0 then [last] else [])
  }

  /** The orders whose recorded state has a quantity other than 0, in the same order. */
  ghost function Kept(orders: seq<Order>, states: seq<OrderState>): (r: seq<Order>)
    requires |orders| == |states|
  {
    if orders == [] then []
    else
      var n := |orders| - 1;
      Kept(orders[..n], states[..n]) + (if states[n].quantity != 0 then [orders[n]] else [])
  }

  /** The states whose quantity is not 0, in the same order. */
  ghost function NonZero(states: seq<OrderState>): seq<OrderState>
  {
    if states == [] then []
    else
      var n := |states| - 1;
      NonZero(states[..n]) + (if states[n].quantity != 0 then [states[n]] else [])
  }

  /** While the recorded states are those of the orders, filtering one is filtering the other. */
  lemma {:induction false} KeptIsLive(orders: seq<Order>, states: seq<OrderState>)
    requires |orders| == |states|
    requires forall k :: 0 <= k < |orders| ==> orders[k].View() == states[k]
    ensures Live(orders) == Kept(orders, states)
    ensures Snapshot(Kept(orders, states)) == NonZero(states)
  {
    if orders != [] {
      var n := |orders| - 1;
      KeptIsLive(orders[..n], states[..n]);
      var k := Kept(orders[..n], states[..n]);
      var tail := if states[n].quantity != 0 then [orders[n]] else [];
      assert Snapshot(k + tail) == Snapshot(k) + Snapshot(tail);
    }
  }

  /** Filtering keeps only orders that were there. */
  lemma {:induction false} KeptWithin(orders: seq<Order>, states: seq<OrderState>)
    requires |orders| == |states|
    ensures forall o :: o in Kept(orders, states) ==> o in orders
  {
    if orders != [] {
      var n := |orders| - 1;
      KeptWithin(orders[..n], states[..n]);
    }
  }

  lemma {:induction false} KeptDistinct(orders: seq<Order>, states: seq<OrderState>)
    requires |orders| == |states| && Distinct(orders)
    ensures Distinct(Kept(orders, states))
  {
    if orders != [] {
      var n := |orders| - 1;
      KeptDistinct(orders[..n], states[..n]);
      KeptWithin(orders[..n], states[..n]);
      var k := Kept(orders[..n], states[..n]);
      if states[n].quantity != 0 {
        assert orders[n] !in k;
        assert (k + [orders[n]])[..|k|] == k;
      } else {
        assert k + [] == k;
      }
    }
  }

  /** Orders from position i on whose quantity is not 0 are all kept. */
  lemma {:induction false} KeptOfNonZeroTail(orders: seq<Order>, states: seq<OrderState>, i: int)
    requires |orders| == |states| && 0 <= i <= |orders|
    requires forall k :: i <= k < |states| ==> states[k].quantity != 0
    ensures Kept(orders, states) == Kept(orders[..i], states[..i]) + orders[i..]
    decreases |orders|
  {
    if |orders| == i {
      assert orders[..i] == orders && states[..i] == states;
    } else {
      var n := |orders| - 1;
      KeptOfNonZeroTail(orders[..n], states[..n], i);
      assert orders[..n][..i] == orders[..i] && states[..n][..i] == states[..i];
      assert orders[..n][i..] + [orders[n]] == orders[i..];
    }
  }

  /** States from position i on whose quantity is not 0 all survive the filter. */
  lemma {:induction false} NonZeroOfTail(states: seq<OrderState>, i: int)
    requires 0 <= i <= |states|
    requires forall k :: i <= k < |states| ==> states[k].quantity != 0
    ensures NonZero(states) == NonZero(states[..i]) + states[i..]
    decreases |states|
  {
    if |states| == i {
      assert states[..i] == states;
    } else {
      var n := |states| - 1;
      NonZeroOfTail(states[..n], i);
      assert states[..n][..i] == states[..i];
      assert states[..n][i..] + [states[n]] == states[i..];
    }
  }

  /** The scan of a book is over with the given outcome: the recorded states
      are those of the orders, the orders from position i on were not
      reached, the kept orders are the first i with something left, and
      matching the incoming order against the book yields that outcome over
      the nonzero states. */
  ghost predicate Finished(all: seq<Order>, states: seq<OrderState>, kept: seq<Order>, i: int,
                           incoming: OrderState, before: seq<OrderState>, filled: bool, remaining: int)
    reads all
  {
    Distinct(all) && |all| == |states| &&
    (forall k :: 0 <= k < |all| ==> all[k].View() == states[k]) &&
    Outcome(all, states, kept, i, incoming, before, filled, remaining)
  }

  /** The part of a finished scan that is about values only. */
  ghost predicate Outcome(all: seq<Order>, states: seq<OrderState>, kept: seq<Order>, i: int,
                          incoming: OrderState, before: seq<OrderState>, filled: bool, remaining: int)
  {
    Resting(before) && 0 <= i <= |all| == |states| == |before| &&
    states[i..] == before[i..] && kept == Kept(all[..i], states[..i]) &&
    Match(incoming, before) == MatchResult(filled, remaining, NonZero(states))
  }

  /** Unlinking the emptied orders among those the scan reached leaves the
      live orders, each once, with the values matching yields. */
  lemma Unlinked(all: seq<Order>, states: seq<OrderState>, kept: seq<Order>, i: int,
                 incoming: OrderState, before: seq<OrderState>, filled: bool, remaining: int)
    requires Finished(all, states, kept, i, incoming, before, filled, remaining)
    ensures Live(all) == kept + all[i..]
    ensures Match(incoming, before) == MatchResult(filled, remaining, Snapshot(kept + all[i..]))
    ensures Distinct(kept + all[i..]) && Resting(Snapshot(kept + all[i..]))
  {
    assert forall k :: i <= k < |states| ==> states[k] == before[k];
    KeptOfNonZeroTail(all, states, i);
    KeptIsLive(all, states);
    KeptDistinct(all, states);
    MatchKeepsResting(incoming, before);
  }

  /** The scan of a book has passed its first i orders: what matching the
      incoming order against the whole book yields is what is left of those
      i orders (their states recorded in states) followed by what matching
      the current incoming order against the rest of the book yields. */
  ghost predicate Scanned(incoming: OrderState, before: seq<OrderState>, states: seq<OrderState>,
                          i: int, current: OrderState)
  {
    0 <= i <= |before| == |states| &&
    Match(incoming, before) ==
      var r := Match(current, before[i..]);
      MatchResult(r.filled, r.remaining, NonZero(states[..i]) + r.book)
  }

  /** The scan passes an order that does not cross and is not empty: it is kept. */
  lemma {:induction false} ScannedSkip(incoming: OrderState, before: seq<OrderState>, states: seq<OrderState>,
                                       i: int, current: OrderState)
    requires Scanned(incoming, before, states, i, current) && i < |before|
    requires states[i] == before[i] && before[i].quantity != 0 && !IsMatching(current, before[i])
    ensures Scanned(incoming, before, states, i + 1, current)
  {
    assert before[i..][0] == before[i] && before[i..][1..] == before[i + 1..];
    assert states[..i + 1][..i] == states[..i];
    var r := Match(current, before[i + 1..]);
    assert NonZero(states[..i]) + ([before[i]] + r.book) == NonZero(states[..i + 1]) + r.book;
  }

  /** Recording a new state at position i and filtering the first i + 1
      states filters the first i and then the new state. */
  lemma NonZeroRecord(states: seq<OrderState>, i: int, state: OrderState)
    requires 0 <= i < |states|
    ensures NonZero(states[i := state][..i + 1]) == NonZero(states[..i]) + (if state.quantity == 0 then [] else [state])
  {
    assert states[i := state][..i + 1][..i] == states[..i];
  }

  /** Recording a new state at position i, when the states from there on
      were those of a book of positive orders, filters to the first i
      states filtered, the new state unless empty, and the rest of the book. */
  lemma NonZeroFilled(states: seq<OrderState>, i: int, before: seq<OrderState>, state: OrderState)
    requires 0 <= i < |states| == |before| && states[i..] == before[i..] && Resting(before)
    ensures NonZero(states[i := state]) ==
      NonZero(states[..i]) + (if state.quantity == 0 then [] else [state]) + before[i + 1..]
  {
    var states' := states[i := state];
    assert forall k :: i + 1 <= k < |states'| ==> states'[k] == before[k] by {
      assert forall k :: i <= k < |states| ==> states[k] == states[i..][k - i];
    }
    NonZeroOfTail(states', i + 1);
    NonZeroRecord(states, i, state);
    assert states'[i + 1..] == before[i + 1..];
  }

  /** Concatenation regroups. */
  lemma Regroup(a: seq<OrderState>, b: seq<OrderState>, c: seq<OrderState>)
    ensures a + (b + c) == (a + b) + c
  {
  }

  /** Matching an incoming order against the book from position i on, when
      the order there crosses it: they trade by q, and matching stops or goes
      on with what is left. */
  lemma MatchCrossStep(current: OrderState, before: seq<OrderState>, i: int, q: int)
    requires 0 <= i < |before| && IsMatching(current, before[i])
    requires q == TradeQuantity(Buyer(before[i], current).quantity, Seller(before[i], current).quantity)
    ensures var resting := before[i].(quantity := before[i].quantity - q);
      var kept := if resting.quantity == 0 then [] else [resting];
      Match(current, before[i..]) ==
        if current.quantity == q then MatchResult(true, 0, kept + before[i + 1..])
        else var r := Match(current.(quantity := current.quantity - q), before[i + 1..]);
          MatchResult(r.filled, r.remaining, kept + r.book)
  {
    var tail := before[i..];
    assert tail[0] == before[i] && tail[1..] == before[i + 1..];
  }

  /** The scan trades with a crossing order; the order is recorded with what is
      left of it, and either the incoming order is filled and the scan ends,
      or the scan goes on with what is left of the incoming order. */
  lemma ScannedTrade(incoming: OrderState, before: seq<OrderState>, states: seq<OrderState>,
                     i: int, current: OrderState, q: int)
    requires Scanned(incoming, before, states, i, current) && i < |before|
    requires states[i..] == before[i..] && Resting(before) && IsMatching(current, before[i])
    requires q == TradeQuantity(Buyer(before[i], current).quantity, Seller(before[i], current).quantity)
    ensures var states' := states[i := before[i].(quantity := before[i].quantity - q)];
      if current.quantity == q then
        Match(incoming, before) == MatchResult(true, 0, NonZero(states'))
      else
        Scanned(incoming, before, states', i + 1, current.(quantity := current.quantity - q))
  {
    MatchCrossStep(current, before, i, q);
    if current.quantity == q {
      ScannedFill(incoming, before, states, i, current, q);
    } else {
      ScannedPartial(incoming, before, states, i, current, q);
    }
  }

  /** The trade fills the incoming order: the book left is what the recorded
      states filter to. */
  lemma ScannedFill(incoming: OrderState, before: seq<OrderState>, states: seq<OrderState>,
                    i: int, current: OrderState, q: int)
    requires 0 <= i < |before| == |states| && states[i..] == before[i..] && Resting(before)
    requires var resting := before[i].(quantity := before[i].quantity - q);
      Match(incoming, before) ==
        MatchResult(true, 0, NonZero(states[..i]) + ((if resting.quantity == 0 then [] else [resting]) + before[i + 1..]))
    ensures Match(incoming, before) == MatchResult(true, 0, NonZero(states[i := before[i].(quantity := before[i].quantity - q)]))
  {
    var resting := before[i].(quantity := before[i].quantity - q);
    NonZeroFilled(states, i, before, resting);
    Regroup(NonZero(states[..i]), if resting.quantity == 0 then [] else [resting], before[i + 1..]);
  }

  /** The trade leaves part of the incoming order: the scan goes on with it
      past the order just traded. */
  lemma ScannedPartial(incoming: OrderState, before: seq<OrderState>, states: seq<OrderState>,
                       i: int, current: OrderState, q: int)
    requires 0 <= i < |before| == |states|
    requires var resting := before[i].(quantity := before[i].quantity - q);
      var r := Match(current.(quantity := current.quantity - q), before[i + 1..]);
      Match(incoming, before) ==
        MatchResult(r.filled, r.remaining, NonZero(states[..i]) + ((if resting.quantity == 0 then [] else [resting]) + r.book))
    ensures Scanned(incoming, before, states[i := before[i].(quantity := before[i].quantity - q)], i + 1,
                    current.(quantity := current.quantity - q))
  {
    var resting := before[i].(quantity := before[i].quantity - q);
    NonZeroRecord(states, i, resting);
    var r := Match(current.(quantity := current.quantity - q), before[i + 1..]);
    Regroup(NonZero(states[..i]), if resting.quantity == 0 then [] else [resting], r.book);
  }

  /** The scan of a book is under way and has passed its first i orders:
      the orders are distinct, the incoming order is not one of them, the
      recorded states are those of the orders, and the scan has made the
      progress Progress describes with the incoming order as it is now. */
  ghost predicate Scanning(all: seq<Order>, states: seq<OrderState>, kept: seq<Order>, i: int,
                           order: Order, incoming: OrderState, before: seq<OrderState>)
    reads all, order
  {
    Distinct(all) && order !in all && |all| == |states| &&
    (forall k :: 0 <= k < |all| ==> all[k].View() == states[k]) &&
    Progress(all, states, kept, i, incoming, before, order.View())
  }

  /** The part of a scan under way that is about values only: the book was
      made of positive orders, the orders from position i on are untouched,
      the kept orders are the first i with something left, and the incoming
      order, now current and still unfilled, is where matching would be
      after i orders. */
  ghost predicate Progress(all: seq<Order>, states: seq<OrderState>, kept: seq<Order>, i: int,
                           incoming: OrderState, before: seq<OrderState>, current: OrderState)
  {
    Resting(before) && 0 <= i <= |all| == |states| == |before| &&
    states[i..] == before[i..] && current.quantity > 0 && kept == Kept(all[..i], states[..i]) &&
    Scanned(incoming, before, states, i, current)
  }

  /** Before the scan, nothing has been passed. */
  lemma ScanStart(all: seq<Order>, order: Order, incoming: OrderState, before: seq<OrderState>)
    requires Distinct(all) && order !in all && Resting(before) && before == Snapshot(all)
    requires incoming == order.View() && order.quantity > 0
    ensures Scanning(all, before, [], 0, order, incoming, before)
  {
    assert before[0..] == before && all[..0] == [] && before[..0] == [];
  }

  /** The scan has passed every order without filling the incoming one. */
  lemma ScanExhausted(all: seq<Order>, states: seq<OrderState>, kept: seq<Order>,
                      order: Order, incoming: OrderState, before: seq<OrderState>)
    requires Scanning(all, states, kept, |all|, order, incoming, before)
    ensures Finished(all, states, kept, |all|, incoming, before, false, order.quantity)
  {
    assert before[|before|..] == [] && states[..|states|] == states;
  }

  /** The scan passes a resting order that does not cross the incoming one. */
  lemma SkipStep(all: seq<Order>, states: seq<OrderState>, kept: seq<Order>, i: int,
                 order: Order, incoming: OrderState, before: seq<OrderState>)
    requires 0 <= i < |all| && Scanning(all, states, kept, i, order, incoming, before)
    requires !IsMatching(order.View(), all[i].View())
    ensures Scanning(all, states, kept + [all[i]], i + 1, order, incoming, before)
  {
    assert states[i] == before[i];
    assert all[..i + 1][..i] == all[..i] && states[..i + 1][..i] == states[..i];
    ScannedSkip(incoming, before, states, i, order.View());
  }

  /** Recording a new state for the order at position i extends the kept
      orders by that order exactly when the new state is not empty. */
  lemma PassedRecord(all: seq<Order>, states: seq<OrderState>, kept: seq<Order>, i: int,
                     before: seq<OrderState>, state: OrderState)
    requires 0 <= i < |all| == |states| == |before| && states[i..] == before[i..]
    requires kept == Kept(all[..i], states[..i])
    ensures var states' := states[i := state];
      states'[i + 1..] == before[i + 1..] &&
      (if state.quantity != 0 then kept + [all[i]] else kept) == Kept(all[..i + 1], states'[..i + 1])
  {
    var states' := states[i := state];
    assert all[..i + 1][..i] == all[..i];
    assert states'[..i + 1][..i] == states[..i] && states'[..i + 1][i] == state;
    assert forall k :: i + 1 <= k < |states| ==> states'[k] == states[k] == before[k] by {
      assert forall k :: i <= k < |states| ==> states[k] == states[i..][k - i];
    }
  }

  /** The values of a trade step: the crossing order at position i is
      recorded with what is left of it and kept unless emptied, and the scan
      has either filled the incoming order or goes on with what is left of it. */
  lemma ProgressTrade(all: seq<Order>, states: seq<OrderState>, kept: seq<Order>, i: int,
                      incoming: OrderState, before: seq<OrderState>, current: OrderState, q: int)
    requires Progress(all, states, kept, i, incoming, before, current) && i < |all|
    requires IsMatching(current, before[i])
    requires q == TradeQuantity(Buyer(before[i], current).quantity, Seller(before[i], current).quantity)
    ensures var traded := before[i].(quantity := before[i].quantity - q);
      var states' := states[i := traded];
      var kept' := if traded.quantity != 0 then kept + [all[i]] else kept;
      var current' := current.(quantity := current.quantity - q);
      (current'.quantity == 0 ==> Outcome(all, states', kept', i + 1, incoming, before, true, 0)) &&
      (current'.quantity != 0 ==> Progress(all, states', kept', i + 1, incoming, before, current'))
  {
    var traded := before[i].(quantity := before[i].quantity - q);
    ScannedTrade(incoming, before, states, i, current, q);
    PassedRecord(all, states, kept, i, before, traded);
  }

  /** After one order of the book changes, the recorded states follow it. */
  lemma Recouple(all: seq<Order>, states: seq<OrderState>, i: int, state: OrderState)
    requires 0 <= i < |all| == |states| && all[i].View() == state
    requires forall k :: 0 <= k < |all| && k != i ==> all[k].View() == states[k]
    ensures forall k :: 0 <= k < |all| ==> all[k].View() == states[i := state][k]
  {
  }

  /** One side's book: the resting orders, oldest first. */
  class OrderBook {
    var orders: seq<Order>

    /** No order rests twice, and every resting order still has something to fill. */
    ghost predicate Valid()
      reads this, orders
    {
      Distinct(orders) && Resting(Snapshot(orders))
    }

    constructor ()
      ensures Valid() && orders == []
    {
      orders := [];
    }

    /** Appends an order after the most recent resting order. */
    method AddOrder(order: Order)
      requires Valid() && order !in orders && order.quantity > 0
      modifies this
      ensures Valid()
      ensures orders == old(orders) + [order]
      ensures Snapshot(orders) == old(Snapshot(orders)) + [order.View()]
    {
      orders := orders + [order];
    }

    /** Fills a buy order and a sell order against each other by the smaller
        of their two quantities. Given two orders of one side, the step takes
        the same order as buyer and as seller and empties it: the first of
        two buy orders, the second of two sell orders. */
    static method ExecuteTrade(orderA: Order, orderB: Order)
      modifies orderA, orderB
      ensures orderA != orderB && orderA.side != orderB.side ==>
        var q := TradeQuantity(Buyer(old(orderA.View()), old(orderB.View())).quantity,
                               Seller(old(orderA.View()), old(orderB.View())).quantity);
        orderA.quantity == old(orderA.quantity) - q && orderB.quantity == old(orderB.quantity) - q
      ensures orderA != orderB && orderA.side != orderB.side &&
              old(orderA.quantity) >= 0 && old(orderB.quantity) >= 0 ==>
        orderA.quantity >= 0 && orderB.quantity >= 0 && (orderA.quantity == 0 || orderB.quantity == 0)
      ensures orderA.side == orderB.side ==>
        var emptied := if orderA.side == Buy then orderA else orderB;
        var other := if orderA.side == Buy then orderB else orderA;
        emptied.quantity == 0 && (other != emptied ==> other.quantity == old(other.quantity))
    {
      var buyOrder := if orderA.side == Buy then orderA else orderB;
      var sellOrder := if orderB.side == Sell then orderB else orderA;
      if sellOrder.quantity >= buyOrder.quantity {
        sellOrder.quantity := sellOrder.quantity - buyOrder.quantity;
        buyOrder.quantity := 0;
      } else {
        buyOrder.quantity := buyOrder.quantity - sellOrder.quantity;
        sellOrder.quantity := 0;
      }
    }

    /** One step of the scan: the incoming order meets the resting order at
        position i; if they cross they trade, and the resting order is kept
        only if something of it is left. */
    static method Visit(order: Order, all: seq<Order>, i: int, kept: seq<Order>, ghost incoming: OrderState,
                        ghost before: seq<OrderState>, ghost states: seq<OrderState>)
      returns (kept': seq<Order>, ghost states': seq<OrderState>)
      requires 0 <= i < |all| && Scanning(all, states, kept, i, order, incoming, before)
      modifies all[i], order
      ensures order.quantity == 0 ==> Finished(all, states', kept', i + 1, incoming, before, true, 0)
      ensures order.quantity != 0 ==> Scanning(all, states', kept', i + 1, order, incoming, before)
    {
      var resting := all[i];
      if IsMatching(order.View(), resting.View()) {
        ghost var current := order.View();
        assert resting.View() == states[i] == before[i];
        ghost var q := TradeQuantity(Buyer(before[i], current).quantity, Seller(before[i], current).quantity);
        ProgressTrade(all, states, kept, i, incoming, before, current, q);
        assert forall k :: 0 <= k < |all| && k != i ==> all[k] != resting by {
          DistinctAt(all);
        }
        ExecuteTrade(resting, order);
        assert resting.View() == before[i].(quantity := before[i].quantity - q);
        assert order.View() == current.(quantity := current.quantity - q);
        Recouple(all, states, i, resting.View());
        states' := states[i := resting.View()];
        kept' := if resting.quantity != 0 then kept + [resting] else kept;
      } else {
        SkipStep(all, states, kept, i, order, incoming, before);
        states' := states;
        kept' := kept + [resting];
      }
    }

    /** The loop of matching: visits the resting orders oldest first and
        stops as soon as the incoming order is filled or the book is passed. */
    static method Scan(order: Order, all: seq<Order>, ghost incoming: OrderState, ghost before: seq<OrderState>)
      returns (kept: seq<Order>, i: int, ghost states: seq<OrderState>)
      requires Scanning(all, before, [], 0, order, incoming, before)
      modifies all, order
      ensures Finished(all, states, kept, i, incoming, before, order.quantity == 0, order.quantity)
    {
      kept, i, states := [], 0, before;
      while i < |all| && order.quantity != 0
        invariant order.quantity != 0 ==> Scanning(all, states, kept, i, order, incoming, before)
        invariant order.quantity == 0 ==> Finished(all, states, kept, i, incoming, before, true, 0)
        decreases |all| - i
      {
        kept, states := Visit(order, all, i, kept, incoming, before, states);
        i := i + 1;
      }
      if order.quantity != 0 {
        ScanExhausted(all, states, kept, order, incoming, before);
      }
    }

    /** Matches an incoming order against this book, oldest resting order
        first, and reports whether it was fully filled. The resting orders
        that reach 0 are unlinked; the others stay in place. */
    method MatchOrder(order: Order) returns (filled: bool)
      requires Valid() && order !in orders && order.quantity > 0
      modifies this, order, orders
      ensures Valid()
      ensures var r := Match(old(order.View()), old(Snapshot(orders)));
        filled == r.filled && order.quantity == r.remaining && Snapshot(orders) == r.book
      ensures orders == Live(old(orders))
    {
      ghost var incoming := order.View();
      ghost var before := Snapshot(orders);
      var all := orders;
      ScanStart(all, order, incoming, before);
      var kept, i, states := Scan(order, all, incoming, before);
      filled := order.quantity == 0;
      orders := kept + all[i..];
      Unlinked(all, states, kept, i, incoming, before, filled, order.quantity);
    }
  }

  /** A sequence of orders none of which changed has the same values. */
  twostate lemma SnapshotUnchanged(orders: seq<Order>)
    requires forall o :: o in orders ==> unchanged(o)
    ensures Snapshot(orders) == old(Snapshot(orders))
  {
    assert forall k :: 0 <= k < |orders| ==> orders[k] in orders;
  }

  /** Books whose values are well formed share no order: every buy order is
      on the buy side and every sell order on the sell side. */
  lemma SidesApart(buys: seq<Order>, sells: seq<Order>)
    requires WellFormed(Books(Snapshot(buys), Snapshot(sells)))
    ensures forall o :: o in buys ==> o !in sells
  {
    forall o | o in buys
      ensures o.side == Side.Buy
    {
      var k :| 0 <= k < |buys| && buys[k] == o;
      assert Snapshot(buys)[k].side == Side.Buy;
    }
    forall o | o in sells
      ensures o.side == Side.Sell
    {
      var k :| 0 <= k < |sells| && sells[k] == o;
      assert Snapshot(sells)[k].side == Side.Sell;
    }
  }

  /** The exchange: one book of resting buy orders and one of resting sell orders. */
  class StockExchange {
    const buyBook: OrderBook
    const sellBook: OrderBook

    /** What the two books hold, oldest order first. */
    ghost function State(): Books
      reads this, buyBook, sellBook, buyBook.orders, sellBook.orders
    {
      Books(Snapshot(buyBook.orders), Snapshot(sellBook.orders))
    }

    /** Two separate books, each holding distinct positive orders of its own
        side, and no resting buy order crosses a resting sell order. */
    ghost predicate Valid()
      reads this, buyBook, sellBook, buyBook.orders, sellBook.orders
    {
      buyBook != sellBook && buyBook.Valid() && sellBook.Valid() &&
      WellFormed(State()) && Uncrossed(State())
    }

    constructor ()
      ensures Valid() && State() == Books([], [])
      ensures fresh(buyBook) && fresh(sellBook)
    {
      buyBook := new OrderBook();
      sellBook := new OrderBook();
    }

    /** Submits a buy order: it is matched against the sell book, and what
        is left of it rests in the buy book. An order for no positive
        quantity is turned away and changes nothing. */
    method Buy(price: int, quantity: int) returns (accepted: bool)
      requires Valid()
      modifies buyBook, sellBook, sellBook.orders
      ensures Valid()
      ensures accepted <==> quantity > 0
      ensures State() == if accepted then Submit(old(State()), Side.Buy, price, quantity) else old(State())
    {
      if quantity <= 0 {
        return false;
      }
      ghost var books := State();
      SidesApart(buyBook.orders, sellBook.orders);
      SubmitKeepsWellFormed(books, Side.Buy, price, quantity);
      SubmitKeepsUncrossed(books, Side.Buy, price, quantity);
      PlaceOrder(Side.Buy, price, quantity, sellBook, buyBook);
      assert State() == Submit(books, Side.Buy, price, quantity);
      return true;
    }

    /** Submits a sell order: it is matched against the buy book, and what
        is left of it rests in the sell book. An order for no positive
        quantity is turned away and changes nothing. */
    method Sell(price: int, quantity: int) returns (accepted: bool)
      requires Valid()
      modifies buyBook, sellBook, buyBook.orders
      ensures Valid()
      ensures accepted <==> quantity > 0
      ensures State() == if accepted then Submit(old(State()), Side.Sell, price, quantity) else old(State())
    {
      if quantity <= 0 {
        return false;
      }
      ghost var books := State();
      SidesApart(buyBook.orders, sellBook.orders);
      SubmitKeepsWellFormed(books, Side.Sell, price, quantity);
      SubmitKeepsUncrossed(books, Side.Sell, price, quantity);
      PlaceOrder(Side.Sell, price, quantity, buyBook, sellBook);
      assert State() == Submit(books, Side.Sell, price, quantity);
      return true;
    }
  }

  /** The step buy and sell share: a new order is matched against the book
      of the other side and, unless filled, what is left of it is added to
      the book of its own side. */
  method PlaceOrder(side: Side, price: int, quantity: int, opposite: OrderBook, own: OrderBook)
    requires own != opposite && own.Valid() && opposite.Valid() && quantity > 0
    requires forall o :: o in own.orders ==> o !in opposite.orders
    modifies own, opposite, opposite.orders
    ensures own.Valid() && opposite.Valid()
    ensures var incoming := OrderState(side, price, quantity);
      var r := Match(incoming, old(Snapshot(opposite.orders)));
      Snapshot(opposite.orders) == r.book &&
      Snapshot(own.orders) ==
        if r.filled then old(Snapshot(own.orders))
        else old(Snapshot(own.orders)) + [incoming.(quantity := r.remaining)]
  {
    var order, filled := MatchNew(side, price, quantity, opposite, own);
    if !filled {
      own.AddOrder(order);
    }
  }

  /** The first half of placing an order: a new order is made and matched
      against the opposite book, and the own book is left as it was. */
  method MatchNew(side: Side, price: int, quantity: int, opposite: OrderBook, own: OrderBook)
    returns (order: Order, filled: bool)
    requires own != opposite && own.Valid() && opposite.Valid() && quantity > 0
    requires forall o :: o in own.orders ==> o !in opposite.orders
    modifies opposite, opposite.orders
    ensures fresh(order) && own.Valid() && opposite.Valid() && order !in own.orders
    ensures own.orders == old(own.orders) && Snapshot(own.orders) == old(Snapshot(own.orders))
    ensures var r := Match(OrderState(side, price, quantity), old(Snapshot(opposite.orders)));
      Snapshot(opposite.orders) == r.book && filled == r.filled &&
      order.View() == OrderState(side, price, r.remaining) && (!filled ==> order.quantity > 0)
  {
    ghost var resting := own.orders;
    MatchUnfilled(OrderState(side, price, quantity), Snapshot(opposite.orders));
    order := new Order(price, quantity, side);
    assert order !in resting && order !in opposite.orders;
    filled := opposite.MatchOrder(order);
    SnapshotUnchanged(resting);
  }
}
