/**
 * Concrete situations, stated as facts about the model: the two situations
 * of `backend/tests/test_order_matching.py`; two orders resting at the same
 * price, where the source's second push raises `TypeError`; and cancelling
 * an unknown id.
 *
 * Each situation is split into the run of the matching loop and the
 * submission around it, so that the verifier only unfolds one of them at a
 * time.
 */
module Scenarios {
  import opened Orders
  import opened Queues
  import opened Matching
  import opened OrderBook

  /** The book once a sell of `quantity` at 100 with id 1 rests alone. */
  function OneAsk(quantity: int): (r: Book)
  {
    var o := Order(1, Sell, 100, quantity, 0, Open, 0);
    Book([], [o], map[1 := o], 1)
  }

  lemma OneAskValid(quantity: int)
    requires quantity > 0
    ensures Valid(OneAsk(quantity))
  {
  }

  /** A sell of 10 at 100 on an empty book rests without trading. */
  lemma FirstSellRests()
    ensures Valid(EmptyBook())
    ensures AddOrder(EmptyBook(), 1, Sell, 100, 10) == Submission(OneAsk(10), [], Order(1, Sell, 100, 10, 0, Open, 0))
  {
    EmptyBookValid();
    var o := Incoming(EmptyBook(), 1, Sell, 100, 10);
    assert Match(o, [], map[]) == Fill(o, [], map[], []);
    assert Insert(Sell, [], o) == [o];
  }

  /** The loop for a buy of 10 at 100 against a lone sell of 10 at 100. */
  lemma BasicLoop()
    ensures Match(Order(2, Buy, 100, 10, 0, Open, 1), [Order(1, Sell, 100, 10, 0, Open, 0)], map[1 := Order(1, Sell, 100, 10, 0, Open, 0)])
         == Fill(Order(2, Buy, 100, 10, 10, Open, 1), [], map[1 := Order(1, Sell, 100, 10, 10, Filled, 0)], [Trade(2, 1, 100, 10)])
  {
    var t := Order(2, Buy, 100, 10, 0, Open, 1);
    var a := Order(1, Sell, 100, 10, 0, Open, 0);
    var m := map[1 := Order(1, Sell, 100, 10, 10, Filled, 0)];
    assert [a][1..] == [];
    assert map[1 := a][1 := Order(1, Sell, 100, 10, 10, Filled, 0)] == m;
    assert Match(t.(filled := 10), [], m) == Fill(t.(filled := 10), [], m, []);
    var q := Min(Remaining(t), Remaining(a));
    assert q == 10;
    assert Execute(a, q) == Order(1, Sell, 100, 10, 10, Filled, 0);
    assert t.(filled := t.filled + q) == t.(filled := 10);
    assert Crosses(t, a);
    assert TradeBetween(t, a, q) == Trade(2, 1, 100, 10);
  }

  /**
   * A sell of 10 at 100 then a buy of 10 at 100: one trade of 10 at 100,
   * both orders end Filled, stay in the registry, and leave both sides empty.
   */
  lemma BasicMatching()
    ensures Valid(OneAsk(10))
    ensures AddOrder(OneAsk(10), 2, Buy, 100, 10) ==
      Submission(
        Book([], [], map[1 := Order(1, Sell, 100, 10, 10, Filled, 0), 2 := Order(2, Buy, 100, 10, 10, Filled, 1)], 2),
        [Trade(2, 1, 100, 10)],
        Order(2, Buy, 100, 10, 10, Filled, 1))
  {
    OneAskValid(10);
    BasicLoop();
    assert Incoming(OneAsk(10), 2, Buy, 100, 10) == Order(2, Buy, 100, 10, 0, Open, 1);
  }

  /** The loop for a buy of 10 at 100 against a lone sell of 20 at 100. */
  lemma PartialLoop()
    ensures Match(Order(2, Buy, 100, 10, 0, Open, 1), [Order(1, Sell, 100, 20, 0, Open, 0)], map[1 := Order(1, Sell, 100, 20, 0, Open, 0)])
         == Fill(Order(2, Buy, 100, 10, 10, Open, 1), [Order(1, Sell, 100, 20, 10, PartiallyFilled, 0)],
                 map[1 := Order(1, Sell, 100, 20, 10, PartiallyFilled, 0)], [Trade(2, 1, 100, 10)])
  {
    var t := Order(2, Buy, 100, 10, 0, Open, 1);
    var a := Order(1, Sell, 100, 20, 0, Open, 0);
    var a' := Order(1, Sell, 100, 20, 10, PartiallyFilled, 0);
    var m := map[1 := a'];
    assert [a'] + [a][1..] == [a'];
    assert map[1 := a][1 := a'] == m;
    assert Match(t.(filled := 10), [a'], m) == Fill(t.(filled := 10), [a'], m, []);
    var q := Min(Remaining(t), Remaining(a));
    assert q == 10;
    assert Execute(a, q) == a';
    assert t.(filled := t.filled + q) == t.(filled := 10);
    assert Crosses(t, a);
    assert TradeBetween(t, a, q) == Trade(2, 1, 100, 10);
  }

  /**
   * A sell of 20 at 100 then a buy of 10 at 100: one trade of 10; the sell
   * keeps resting PartiallyFilled with 10 filled, the buy is Filled.
   */
  lemma PartialMatching()
    ensures Valid(OneAsk(20))
    ensures AddOrder(OneAsk(20), 2, Buy, 100, 10) ==
      Submission(
        Book([], [Order(1, Sell, 100, 20, 10, PartiallyFilled, 0)],
             map[1 := Order(1, Sell, 100, 20, 10, PartiallyFilled, 0), 2 := Order(2, Buy, 100, 10, 10, Filled, 1)], 2),
        [Trade(2, 1, 100, 10)],
        Order(2, Buy, 100, 10, 10, Filled, 1))
  {
    OneAskValid(20);
    PartialLoop();
    assert Incoming(OneAsk(20), 2, Buy, 100, 10) == Order(2, Buy, 100, 10, 0, Open, 1);
  }

  /** Two sells of 5 at 100, ids 1 then 2, queued in arrival order. */
  function TwoAsks(): (r: Book)
  {
    var a := Order(1, Sell, 100, 5, 0, Open, 0);
    var c := Order(2, Sell, 100, 5, 0, Open, 1);
    Book([], [a, c], map[1 := a, 2 := c], 2)
  }

  /** A second sell at the same price queues behind the first. */
  lemma SecondSellQueuesBehind()
    ensures Valid(OneAsk(5))
    ensures AddOrder(OneAsk(5), 2, Sell, 100, 5).book == TwoAsks()
  {
    OneAskValid(5);
    var b := OneAsk(5);
    var o := Order(2, Sell, 100, 5, 0, Open, 1);
    assert Incoming(b, 2, Sell, 100, 5) == o;
    assert Match(o, [], b.orders) == Fill(o, [], b.orders, []);
    assert InsertionPoint(Sell, [], o) == 0;
    assert InsertionPoint(Sell, b.asks, o) == 1;
    assert b.asks[..1] + [o] + b.asks[1..] == TwoAsks().asks;
  }

  /** The loop for a buy of 5 at 100 against the two sells. */
  lemma FifoLoop()
    ensures Match(Order(3, Buy, 100, 5, 0, Open, 2),
                  [Order(1, Sell, 100, 5, 0, Open, 0), Order(2, Sell, 100, 5, 0, Open, 1)],
                  map[1 := Order(1, Sell, 100, 5, 0, Open, 0), 2 := Order(2, Sell, 100, 5, 0, Open, 1)])
         == Fill(Order(3, Buy, 100, 5, 5, Open, 2), [Order(2, Sell, 100, 5, 0, Open, 1)],
                 map[1 := Order(1, Sell, 100, 5, 5, Filled, 0), 2 := Order(2, Sell, 100, 5, 0, Open, 1)],
                 [Trade(3, 1, 100, 5)])
  {
    var t := Order(3, Buy, 100, 5, 0, Open, 2);
    var a := Order(1, Sell, 100, 5, 0, Open, 0);
    var c := Order(2, Sell, 100, 5, 0, Open, 1);
    var a' := Order(1, Sell, 100, 5, 5, Filled, 0);
    var m := map[1 := a', 2 := c];
    assert [a, c][1..] == [c];
    assert map[1 := a, 2 := c][1 := a'] == m;
    assert Match(t.(filled := 5), [c], m) == Fill(t.(filled := 5), [c], m, []);
    var q := Min(Remaining(t), Remaining(a));
    assert q == 5;
    assert Execute(a, q) == a';
    assert t.(filled := t.filled + q) == t.(filled := 5);
    assert Crosses(t, a);
    assert TradeBetween(t, a, q) == Trade(3, 1, 100, 5);
  }

  /**
   * At equal price matching is first in, first out: of two sells at 100, a
   * buy of 5 takes the one that came first and the other keeps resting.
   */
  lemma EqualPriceArrivalOrder()
    ensures Valid(TwoAsks())
    ensures var s := AddOrder(TwoAsks(), 3, Buy, 100, 5);
      s.trades == [Trade(3, 1, 100, 5)] && s.book.asks == [Order(2, Sell, 100, 5, 0, Open, 1)]
  {
    var a := Order(1, Sell, 100, 5, 0, Open, 0);
    var c := Order(2, Sell, 100, 5, 0, Open, 1);
    var b := TwoAsks();
    assert b == Book([], [a, c], map[1 := a, 2 := c], 2);
    assert Valid(b);
    FifoLoop();
    assert Incoming(b, 3, Buy, 100, 5) == Order(3, Buy, 100, 5, 0, Open, 2);
    assert QueueOf(b, Sell) == [a, c];
  }

  /** Cancelling an id the book never saw fails and leaves the book alone. */
  lemma CancelUnknownOnEmptyBook(id: int)
    ensures var r := CancelOrder(EmptyBook(), id);
      !r.Succeeded() && r.book == EmptyBook()
  {
  }
}
