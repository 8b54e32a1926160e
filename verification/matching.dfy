/** The matching rules of the single-instrument exchange, stated on values.
    The classes in module Exchange are proved against these functions. */
module Matching {

  datatype Side = Buy | Sell

  /** What an order is at one moment: its side, its limit price and the
      quantity that is still unfilled. */
  datatype OrderState = OrderState(side: Side, price: int, quantity: int)

  /** The buying order of a pair, chosen by side as the trade step chooses it. */
  function Buyer(a: OrderState, b: OrderState): OrderState
  {
    if a.side == Buy then a else b
  }

  /** The selling order of a pair, chosen by side as the trade step chooses it. */
  function Seller(a: OrderState, b: OrderState): OrderState
  {
    if b.side == Sell then b else a
  }

  /** The crossing test. Two orders of the same side never match: the source
      only prints a message and yields None, which its caller reads as false. */
  function IsMatching(a: OrderState, b: OrderState): (r: bool)
    ensures r ==> a.side != b.side
    ensures a.side != b.side ==> (r <==> Buyer(a, b).price >= Seller(a, b).price)
  {
    if a.side == Buy && b.side == Sell then a.price >= b.price
    else if a.side == Sell && b.side == Buy then a.price <= b.price
    else false
  }

  /** The quantity one trade transfers: the smaller of the two remaining quantities. */
  function TradeQuantity(buyQuantity: int, sellQuantity: int): (q: int)
    ensures q <= buyQuantity && q <= sellQuantity
    ensures q == buyQuantity || q == sellQuantity
  {
    if sellQuantity >= buyQuantity then buyQuantity else sellQuantity
  }

  /** What matching an incoming order against a book yields: whether the
      incoming order was fully filled, its remaining quantity, and the book. */
  datatype MatchResult = MatchResult(filled: bool, remaining: int, book: seq<OrderState>)

  /** Every resting order has a positive quantity. */
  ghost predicate Resting(book: seq<OrderState>)
  {
    forall k :: 0 <= k < |book| ==> book[k].quantity > 0
  }

  /** Matching an incoming order against a book, oldest resting order first.
      An order that does not cross is kept and the scan goes on; one that
      crosses trades, and leaves the book when it reaches 0; the scan stops
      as soon as the incoming order is filled. */
  function Match(incoming: OrderState, book: seq<OrderState>): (r: MatchResult)
    ensures |r.book| <= |book|
    ensures r.filled ==> r.remaining == 0
    ensures incoming.quantity >= 0 && Resting(book) ==> 0 <= r.remaining <= incoming.quantity
    decreases |book|
  {
    if book == [] then MatchResult(false, incoming.quantity, [])
    else if !IsMatching(incoming, book[0]) then
      var r := Match(incoming, book[1..]);
      r.(book := [book[0]] + r.book)
    else
      var q := TradeQuantity(Buyer(book[0], incoming).quantity, Seller(book[0], incoming).quantity);
      var resting := book[0].(quantity := book[0].quantity - q);
      var rest := incoming.(quantity := incoming.quantity - q);
      var kept := if resting.quantity == 0 then [] else [resting];
      if rest.quantity == 0 then MatchResult(true, 0, kept + book[1..])
      else
        var r := Match(rest, book[1..]);
        r.(book := kept + r.book)
  }

  /** The sum of the quantities of a sequence of orders. */
  function Total(book: seq<OrderState>): int
  {
    if book == [] then 0 else book[0].quantity + Total(book[1..])
  }

  /** The orders of a book that do not cross the given order, in book order. */
  function NonCrossing(incoming: OrderState, book: seq<OrderState>): (r: seq<OrderState>)
    ensures |r| <= |book|
    ensures forall k :: 0 <= k < |r| ==> !IsMatching(incoming, r[k])
  {
    if book == [] then []
    else if IsMatching(incoming, book[0]) then NonCrossing(incoming, book[1..])
    else [book[0]] + NonCrossing(incoming, book[1..])
  }

  /** The total quantity of the orders of a book that cross the given order. */
  function CrossVolume(incoming: OrderState, book: seq<OrderState>): int
  {
    if book == [] then 0
    else (if IsMatching(incoming, book[0]) then book[0].quantity else 0) + CrossVolume(incoming, book[1..])
  }

  /** A crossed order, left with the given quantity; nothing when that is 0. */
  function Residual(order: OrderState, quantity: int): seq<OrderState>
  {
    if quantity == 0 then [] else [order.(quantity := quantity)]
  }

  lemma {:induction false} TotalAppend(a: seq<OrderState>, b: seq<OrderState>)
    ensures Total(a + b) == Total(a) + Total(b)
  {
    if a == [] {
      assert a + b == b;
    } else {
      assert (a + b)[1..] == a[1..] + b;
      TotalAppend(a[1..], b);
    }
  }

  lemma {:induction false} NonCrossingAppend(incoming: OrderState, a: seq<OrderState>, b: seq<OrderState>)
    ensures NonCrossing(incoming, a + b) == NonCrossing(incoming, a) + NonCrossing(incoming, b)
  {
    if a == [] {
      assert a + b == b;
    } else {
      assert (a + b)[1..] == a[1..] + b;
      NonCrossingAppend(incoming, a[1..], b);
    }
  }

  /** Crossing looks at side and price only, so the incoming quantity does not
      change which orders are filtered out. */
  lemma {:induction false} NonCrossingIgnoresQuantity(a: OrderState, b: OrderState, book: seq<OrderState>)
    requires a.side == b.side && a.price == b.price
    ensures NonCrossing(a, book) == NonCrossing(b, book)
    ensures CrossVolume(a, book) == CrossVolume(b, book)
  {
    if book != [] {
      NonCrossingIgnoresQuantity(a, b, book[1..]);
    }
  }

  /** Quantity conservation: what the incoming order lost is exactly what the
      resting orders lost. */
  lemma {:induction false} MatchConservesQuantity(incoming: OrderState, book: seq<OrderState>)
    ensures incoming.quantity - Match(incoming, book).remaining == Total(book) - Total(Match(incoming, book).book)
    decreases |book|
  {
    if book != [] {
      var r := Match(incoming, book);
      if !IsMatching(incoming, book[0]) {
        MatchConservesQuantity(incoming, book[1..]);
        TotalAppend([book[0]], Match(incoming, book[1..]).book);
      } else {
        var q := TradeQuantity(Buyer(book[0], incoming).quantity, Seller(book[0], incoming).quantity);
        var resting := book[0].(quantity := book[0].quantity - q);
        var rest := incoming.(quantity := incoming.quantity - q);
        var kept := if resting.quantity == 0 then [] else [resting];
        assert Total(kept) == book[0].quantity - q;
        if rest.quantity == 0 {
          TotalAppend(kept, book[1..]);
        } else {
          MatchConservesQuantity(rest, book[1..]);
          TotalAppend(kept, Match(rest, book[1..]).book);
        }
      }
    }
  }

  /** Orders that do not cross the incoming order keep their quantity and
      their relative order. */
  lemma {:induction false} MatchKeepsNonCrossing(incoming: OrderState, book: seq<OrderState>)
    ensures NonCrossing(incoming, Match(incoming, book).book) == NonCrossing(incoming, book)
    decreases |book|
  {
    if book != [] {
      if !IsMatching(incoming, book[0]) {
        MatchKeepsNonCrossing(incoming, book[1..]);
        NonCrossingAppend(incoming, [book[0]], Match(incoming, book[1..]).book);
      } else {
        var q := TradeQuantity(Buyer(book[0], incoming).quantity, Seller(book[0], incoming).quantity);
        var rest := incoming.(quantity := incoming.quantity - q);
        if rest.quantity != 0 {
          MatchKeepsNonCrossing(rest, book[1..]);
        }
        CrossingHeadKeepsNonCrossing(incoming, book, q);
      }
    }
  }

  /** The step of MatchKeepsNonCrossing where the first resting order crosses:
      the traded order drops out of the non-crossing orders whatever is left
      of it, and the rest of the book keeps them by the induction hypothesis. */
  lemma CrossingHeadKeepsNonCrossing(incoming: OrderState, book: seq<OrderState>, q: int)
    requires book != [] && IsMatching(incoming, book[0])
    requires q == TradeQuantity(Buyer(book[0], incoming).quantity, Seller(book[0], incoming).quantity)
    requires var rest := incoming.(quantity := incoming.quantity - q);
      rest.quantity != 0 ==> NonCrossing(rest, Match(rest, book[1..]).book) == NonCrossing(rest, book[1..])
    ensures NonCrossing(incoming, Match(incoming, book).book) == NonCrossing(incoming, book)
  {
    var resting := book[0].(quantity := book[0].quantity - q);
    var rest := incoming.(quantity := incoming.quantity - q);
    var kept := if resting.quantity == 0 then [] else [resting];
    assert NonCrossing(incoming, book) == NonCrossing(incoming, book[1..]);
    assert NonCrossing(incoming, kept) == [];
    if rest.quantity == 0 {
      assert Match(incoming, book).book == kept + book[1..];
      NonCrossingAppend(incoming, kept, book[1..]);
    } else {
      var r := Match(rest, book[1..]);
      assert Match(incoming, book).book == kept + r.book;
      NonCrossingIgnoresQuantity(incoming, rest, book[1..]);
      NonCrossingIgnoresQuantity(incoming, rest, r.book);
      NonCrossingAppend(incoming, kept, r.book);
    }
  }

  /** The removal invariant: a book of positive orders stays one. */
  lemma {:induction false} MatchKeepsResting(incoming: OrderState, book: seq<OrderState>)
    requires Resting(book)
    ensures Resting(Match(incoming, book).book)
    decreases |book|
  {
    if book != [] {
      if !IsMatching(incoming, book[0]) {
        MatchKeepsResting(incoming, book[1..]);
      } else {
        var q := TradeQuantity(Buyer(book[0], incoming).quantity, Seller(book[0], incoming).quantity);
        var rest := incoming.(quantity := incoming.quantity - q);
        if rest.quantity != 0 {
          MatchKeepsResting(rest, book[1..]);
        }
      }
    }
  }

  /** Every order left in the book has the side and the price of an order
      that was in it: any property of side and price that held of every
      resting order still holds. */
  lemma {:induction false} MatchKeepsLimits(incoming: OrderState, book: seq<OrderState>, p: (Side, int) -> bool)
    requires forall k :: 0 <= k < |book| ==> p(book[k].side, book[k].price)
    ensures forall k :: 0 <= k < |Match(incoming, book).book| ==>
      p(Match(incoming, book).book[k].side, Match(incoming, book).book[k].price)
    decreases |book|
  {
    if book != [] {
      if !IsMatching(incoming, book[0]) {
        MatchKeepsLimits(incoming, book[1..], p);
      } else {
        var q := TradeQuantity(Buyer(book[0], incoming).quantity, Seller(book[0], incoming).quantity);
        var rest := incoming.(quantity := incoming.quantity - q);
        if rest.quantity != 0 {
          MatchKeepsLimits(rest, book[1..], p);
        }
      }
    }
  }

  /** An exhaustive scan: when the incoming order is not filled, every order
      that crossed it was consumed and left the book, the book is exactly
      its non-crossing orders, and the incoming order keeps what the
      crossing orders could not supply. */
  lemma {:induction false} MatchUnfilled(incoming: OrderState, book: seq<OrderState>)
    requires incoming.quantity > 0
    ensures var r := Match(incoming, book);
      !r.filled ==>
        r.book == NonCrossing(incoming, book) &&
        r.remaining == incoming.quantity - CrossVolume(incoming, book) > 0
    decreases |book|
  {
    if book != [] {
      if !IsMatching(incoming, book[0]) {
        MatchUnfilled(incoming, book[1..]);
      } else {
        var q := TradeQuantity(Buyer(book[0], incoming).quantity, Seller(book[0], incoming).quantity);
        var rest := incoming.(quantity := incoming.quantity - q);
        if rest.quantity != 0 {
          assert q == book[0].quantity;
          MatchUnfilled(rest, book[1..]);
          NonCrossingIgnoresQuantity(incoming, rest, book[1..]);
        }
      }
    }
  }

  /** The incoming order was filled at position m of the book: the crossing
      orders before m could not fill it and those up to m could; every
      crossing order before m left the book, the order at m keeps what was
      not taken from it, and every order after m is untouched. */
  ghost predicate FilledAt(incoming: OrderState, book: seq<OrderState>, m: int, after: seq<OrderState>)
  {
    0 <= m < |book| && IsMatching(incoming, book[m]) &&
    CrossVolume(incoming, book[..m]) < incoming.quantity <= CrossVolume(incoming, book[..m + 1]) &&
    after == NonCrossing(incoming, book[..m])
             + Residual(book[m], CrossVolume(incoming, book[..m + 1]) - incoming.quantity)
             + book[m + 1..]
  }

  /** Time priority and the early stop: when the incoming order is filled,
      it was filled by the crossing orders in arrival order, and the scan
      stopped at the order that completed it. */
  lemma {:induction false} MatchFilled(incoming: OrderState, book: seq<OrderState>)
    requires incoming.quantity > 0
    ensures Match(incoming, book).filled ==> exists m :: FilledAt(incoming, book, m, Match(incoming, book).book)
    decreases |book|
  {
    if book != [] && Match(incoming, book).filled {
      var t := book[1..];
      if !IsMatching(incoming, book[0]) {
        MatchFilled(incoming, t);
        var m :| FilledAt(incoming, t, m, Match(incoming, t).book);
        FilledAtSkip(incoming, book, m, Match(incoming, t).book);
      } else {
        var q := TradeQuantity(Buyer(book[0], incoming).quantity, Seller(book[0], incoming).quantity);
        var rest := incoming.(quantity := incoming.quantity - q);
        if rest.quantity == 0 {
          FilledAtHead(incoming, book);
        } else {
          MatchFilled(rest, t);
          var m :| FilledAt(rest, t, m, Match(rest, t).book);
          MatchConsumesHead(incoming, book);
          FilledAtConsume(incoming, book, m, Match(rest, t).book);
        }
      }
    }
  }

  /** One step of the scan: a crossing head smaller than the incoming order
      is consumed entirely and the scan continues with what is left. */
  lemma {:induction false} MatchConsumesHead(incoming: OrderState, book: seq<OrderState>)
    requires book != [] && IsMatching(incoming, book[0])
    requires book[0].quantity < incoming.quantity
    ensures Match(incoming, book) ==
      Match(incoming.(quantity := incoming.quantity - book[0].quantity), book[1..])
  {
    var q := TradeQuantity(Buyer(book[0], incoming).quantity, Seller(book[0], incoming).quantity);
    assert q == book[0].quantity;
  }

  /** Unfolding the crossing volume and the non-crossing filter of a prefix
      of the book by its first order. */
  lemma {:induction false} PrefixUnfold(incoming: OrderState, book: seq<OrderState>, k: int)
    requires 0 <= k < |book|
    ensures CrossVolume(incoming, book[..k + 1]) ==
      (if IsMatching(incoming, book[0]) then book[0].quantity else 0) + CrossVolume(incoming, book[1..][..k])
    ensures NonCrossing(incoming, book[..k + 1]) ==
      (if IsMatching(incoming, book[0]) then [] else [book[0]]) + NonCrossing(incoming, book[1..][..k])
  {
    assert book[..k + 1][0] == book[0];
    assert book[..k + 1][1..] == book[1..][..k];
  }

  /** A head that does not cross shifts the fill position by one. */
  lemma {:induction false} FilledAtSkip(incoming: OrderState, book: seq<OrderState>, m: int, after: seq<OrderState>)
    requires book != [] && !IsMatching(incoming, book[0])
    requires FilledAt(incoming, book[1..], m, after)
    ensures FilledAt(incoming, book, m + 1, [book[0]] + after)
  {
    var t := book[1..];
    PrefixUnfold(incoming, book, m);
    PrefixUnfold(incoming, book, m + 1);
    assert book[m + 1] == t[m] && book[m + 2..] == t[m + 1..];
    var res := Residual(t[m], CrossVolume(incoming, t[..m + 1]) - incoming.quantity);
    assert [book[0]] + (NonCrossing(incoming, t[..m]) + res + t[m + 1..])
        == ([book[0]] + NonCrossing(incoming, t[..m])) + res + t[m + 1..];
  }

  /** A crossing head that covers the incoming quantity completes the fill at position 0. */
  lemma {:induction false} FilledAtHead(incoming: OrderState, book: seq<OrderState>)
    requires incoming.quantity > 0 && book != [] && IsMatching(incoming, book[0])
    requires book[0].quantity >= incoming.quantity
    ensures FilledAt(incoming, book, 0, Match(incoming, book).book)
  {
    assert book[..0] == [];
    assert book[..1][1..] == [];
    assert CrossVolume(incoming, book[..1]) == book[0].quantity;
  }

  /** A crossing head smaller than the incoming quantity is consumed, and the
      fill position of the rest shifts by one. */
  lemma {:induction false} FilledAtConsume(incoming: OrderState, book: seq<OrderState>, m: int, after: seq<OrderState>)
    requires incoming.quantity > 0 && book != [] && IsMatching(incoming, book[0])
    requires book[0].quantity < incoming.quantity
    requires FilledAt(incoming.(quantity := incoming.quantity - book[0].quantity), book[1..], m, after)
    ensures FilledAt(incoming, book, m + 1, after)
  {
    var t := book[1..];
    var rest := incoming.(quantity := incoming.quantity - book[0].quantity);
    NonCrossingIgnoresQuantity(incoming, rest, t[..m]);
    NonCrossingIgnoresQuantity(incoming, rest, t[..m + 1]);
    PrefixUnfold(incoming, book, m);
    PrefixUnfold(incoming, book, m + 1);
    assert [] + NonCrossing(rest, t[..m]) == NonCrossing(rest, t[..m]);
    assert book[m + 1] == t[m] && book[m + 2..] == t[m + 1..];
  }

  lemma {:induction false} CrossVolumeAppend(incoming: OrderState, a: seq<OrderState>, b: seq<OrderState>)
    ensures CrossVolume(incoming, a + b) == CrossVolume(incoming, a) + CrossVolume(incoming, b)
  {
    if a == [] {
      assert a + b == b;
    } else {
      assert (a + b)[1..] == a[1..] + b;
      CrossVolumeAppend(incoming, a[1..], b);
    }
  }

  lemma {:induction false} CrossVolumeOfResting(incoming: OrderState, book: seq<OrderState>)
    requires Resting(book)
    ensures CrossVolume(incoming, book) >= 0
  {
    if book != [] {
      CrossVolumeOfResting(incoming, book[1..]);
    }
  }

  /** Against a book of positive orders, the incoming order is filled exactly
      when the crossing orders hold at least its quantity. */
  lemma {:induction false} MatchFilledIffCovered(incoming: OrderState, book: seq<OrderState>)
    requires incoming.quantity > 0 && Resting(book)
    ensures Match(incoming, book).filled <==> incoming.quantity <= CrossVolume(incoming, book)
  {
    MatchUnfilled(incoming, book);
    MatchFilled(incoming, book);
    if Match(incoming, book).filled {
      var m :| FilledAt(incoming, book, m, Match(incoming, book).book);
      assert book == book[..m + 1] + book[m + 1..];
      CrossVolumeAppend(incoming, book[..m + 1], book[m + 1..]);
      CrossVolumeOfResting(incoming, book[m + 1..]);
    }
  }

  /** The two books of the exchange, each in arrival order. */
  datatype Books = Books(buys: seq<OrderState>, sells: seq<OrderState>)

  /** Submitting an order: it is matched against the opposite book and, if it
      is not fully filled, rests at the end of its own book with what is left. */
  function Submit(books: Books, side: Side, price: int, quantity: int): (after: Books)
    ensures side == Buy ==>
      |after.sells| <= |books.sells| && |books.buys| <= |after.buys| <= |books.buys| + 1 &&
      after.buys[..|books.buys|] == books.buys
    ensures side == Sell ==>
      |after.buys| <= |books.buys| && |books.sells| <= |after.sells| <= |books.sells| + 1 &&
      after.sells[..|books.sells|] == books.sells
  {
    var incoming := OrderState(side, price, quantity);
    if side == Buy then
      var r := Match(incoming, books.sells);
      Books(if r.filled then books.buys else books.buys + [incoming.(quantity := r.remaining)], r.book)
    else
      var r := Match(incoming, books.buys);
      Books(r.book, if r.filled then books.sells else books.sells + [incoming.(quantity := r.remaining)])
  }

  /** Each book holds positive orders of its own side. */
  ghost predicate WellFormed(books: Books)
  {
    Resting(books.buys) && Resting(books.sells) &&
    (forall k :: 0 <= k < |books.buys| ==> books.buys[k].side == Buy) &&
    (forall k :: 0 <= k < |books.sells| ==> books.sells[k].side == Sell)
  }

  /** No resting buy order crosses a resting sell order. */
  ghost predicate Uncrossed(books: Books)
  {
    forall i, j :: 0 <= i < |books.buys| && 0 <= j < |books.sells| ==> !IsMatching(books.buys[i], books.sells[j])
  }

  /** The opposite book of a submission, and its own book. */
  function Opposite(books: Books, side: Side): seq<OrderState>
  {
    if side == Buy then books.sells else books.buys
  }

  function Own(books: Books, side: Side): seq<OrderState>
  {
    if side == Buy then books.buys else books.sells
  }

  /** A submission rests exactly when the crossing orders of the opposite book
      cannot fill it, and it rests with the quantity they could not supply;
      the orders of the opposite book that do not cross it are kept as they were. */
  lemma {:induction false} SubmitRestsUnlessCovered(books: Books, side: Side, price: int, quantity: int)
    requires WellFormed(books) && quantity > 0
    ensures var incoming := OrderState(side, price, quantity);
      var after := Submit(books, side, price, quantity);
      var volume := CrossVolume(incoming, Opposite(books, side));
      (|Own(after, side)| == |Own(books, side)| + 1 <==> volume < quantity) &&
      (volume < quantity ==>
        Own(after, side) == Own(books, side) + [OrderState(side, price, quantity - volume)] &&
        Opposite(after, side) == NonCrossing(incoming, Opposite(books, side))) &&
      NonCrossing(incoming, Opposite(after, side)) == NonCrossing(incoming, Opposite(books, side))
  {
    var incoming := OrderState(side, price, quantity);
    var r := Match(incoming, Opposite(books, side));
    var after := Submit(books, side, price, quantity);
    assert Opposite(after, side) == r.book;
    assert Own(after, side) == if r.filled then Own(books, side) else Own(books, side) + [incoming.(quantity := r.remaining)];
    MatchFilledIffCovered(incoming, Opposite(books, side));
    MatchUnfilled(incoming, Opposite(books, side));
    MatchKeepsNonCrossing(incoming, Opposite(books, side));
  }

  /** Submitting a positive order keeps every book made of positive orders of its own side. */
  lemma {:induction false} SubmitKeepsWellFormed(books: Books, side: Side, price: int, quantity: int)
    requires WellFormed(books) && quantity > 0
    ensures WellFormed(Submit(books, side, price, quantity))
  {
    var incoming := OrderState(side, price, quantity);
    var opposite := Opposite(books, side);
    var other := if side == Buy then Sell else Buy;
    MatchKeepsResting(incoming, opposite);
    MatchUnfilled(incoming, opposite);
    MatchKeepsLimits(incoming, opposite, (s, p) => s == other);
  }

  /** Submitting a positive order never leaves a buy order and a sell order
      resting that cross each other. */
  lemma {:induction false} SubmitKeepsUncrossed(books: Books, side: Side, price: int, quantity: int)
    requires WellFormed(books) && Uncrossed(books) && quantity > 0
    ensures Uncrossed(Submit(books, side, price, quantity))
  {
    var incoming := OrderState(side, price, quantity);
    var after := Submit(books, side, price, quantity);
    var r := Match(incoming, Opposite(books, side));
    MatchUnfilled(incoming, Opposite(books, side));
    if side == Buy {
      var buys := books.buys;
      var p := (s: Side, q: int) => s == Sell && forall i :: 0 <= i < |buys| ==> buys[i].price < q;
      MatchKeepsLimits(incoming, books.sells, p);
      assert forall j :: 0 <= j < |r.book| ==> p(r.book[j].side, r.book[j].price);
    } else {
      var sells := books.sells;
      var p := (s: Side, q: int) => s == Buy && forall j :: 0 <= j < |sells| ==> q < sells[j].price;
      assert forall k :: 0 <= k < |books.buys| ==> p(books.buys[k].side, books.buys[k].price) by {
        forall k | 0 <= k < |books.buys|
          ensures p(books.buys[k].side, books.buys[k].price)
        {
          assert forall j :: 0 <= j < |sells| ==> !IsMatching(books.buys[k], sells[j]);
        }
      }
      MatchKeepsLimits(incoming, books.buys, p);
      assert forall i :: 0 <= i < |r.book| ==> p(r.book[i].side, r.book[i].price);
    }
  }

  /** The reference session: three buys rest in arrival order, then two sells
      are filled against them. */
  lemma ReferenceSession()
    ensures var b0 := Books([], []);
      var b1 := Submit(Submit(Submit(b0, Buy, 80, 10), Buy, 100, 4), Buy, 95, 25);
      var b2 := Submit(b1, Sell, 90, 5);
      var b3 := Submit(b2, Sell, 92, 15);
      b1 == Books([OrderState(Buy, 80, 10), OrderState(Buy, 100, 4), OrderState(Buy, 95, 25)], []) &&
      b2 == Books([OrderState(Buy, 80, 10), OrderState(Buy, 95, 24)], []) &&
      b3 == Books([OrderState(Buy, 80, 10), OrderState(Buy, 95, 9)], [])
  {
  }
}
