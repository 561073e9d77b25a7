/**
 * The engine's state and its three operations: submitting an order
 * (`add_order`), cancelling one (`cancel_order`) and reading the book
 * (`get_order_book`). The source mutates one shared `OrderBook` object whose
 * heaps and registry hold the same order objects; here the book is a value,
 * every operation returns the new book, and the invariant `Valid` keeps each
 * queued order equal to its registry entry.
 */
module OrderBook {
  import opened Orders
  import opened Queues
  import opened Matching

  /**
   * Bids and asks in matching order, the id registry (`self.orders`), and the
   * arrival number the next submitted order will get.
   */
  datatype Book = Book(bids: seq<Order>, asks: seq<Order>, orders: map<int, Order>, nextSequence: nat)

  function EmptyBook(): (r: Book)
  {
    Book([], [], map[], 0)
  }

  function QueueOf(b: Book, side: Side): (r: seq<Order>)
  {
    if side == Buy then b.bids else b.asks
  }

  function Arrange(side: Side, own: seq<Order>, opposite: seq<Order>, orders: map<int, Order>, next: nat): (b: Book)
    ensures QueueOf(b, side) == own && QueueOf(b, Opposite(side)) == opposite
    ensures b.orders == orders && b.nextSequence == next
  {
    if side == Buy then Book(own, opposite, orders, next) else Book(opposite, own, orders, next)
  }

  /**
   * An order properly queued on `side`: it belongs there, still rests,
   * arrived before the next arrival number, and is registered as it is.
   */
  predicate WellQueued(b: Book, side: Side, o: Order)
  {
    && o.side == side
    && Resting(o)
    && o.sequence < b.nextSequence
    && o.id in b.orders
    && b.orders[o.id] == o
  }

  predicate QueueValid(b: Book, side: Side)
  {
    && Sorted(side, QueueOf(b, side))
    && forall i :: 0 <= i < |QueueOf(b, side)| ==> WellQueued(b, side, QueueOf(b, side)[i])
  }

  /**
   * The book invariant: both sides well queued, and every registry entry
   * filed under its own id, settled, and either Filled or queued on its side.
   * Filled orders stay in the registry, as in the source.
   */
  predicate Valid(b: Book)
  {
    QueuesValid(b) && RegistryValid(b)
  }

  predicate QueuesValid(b: Book)
  {
    QueueValid(b, Buy) && QueueValid(b, Sell)
  }

  predicate RegistryValid(b: Book)
  {
    forall k :: k in b.orders ==>
      && b.orders[k].id == k
      && Settled(b.orders[k])
      && (b.orders[k].status == Filled || b.orders[k] in QueueOf(b, b.orders[k].side))
  }

  /** No bid is priced at or above any ask. */
  predicate Uncrossed(b: Book)
  {
    forall i, j :: 0 <= i < |b.bids| && 0 <= j < |b.asks| ==> b.bids[i].price < b.asks[j].price
  }

  lemma EmptyBookValid()
    ensures Valid(EmptyBook()) && Uncrossed(EmptyBook())
  {
  }

  /** Queued orders have distinct ids, within a side and across the two sides. */
  lemma ValidIdsDistinct(b: Book, side: Side)
    requires QueuesValid(b)
    ensures DistinctIds(QueueOf(b, side))
    ensures forall i, j :: 0 <= i < |QueueOf(b, side)| && 0 <= j < |QueueOf(b, Opposite(side))| ==>
              QueueOf(b, side)[i].id != QueueOf(b, Opposite(side))[j].id
  {
    var q := QueueOf(b, side);
    var p := QueueOf(b, Opposite(side));
    assert QueueValid(b, side) && QueueValid(b, Opposite(side));
    forall i, j | 0 <= i < j < |q|
      ensures q[i].id != q[j].id
    {
      assert WellQueued(b, side, q[i]) && WellQueued(b, side, q[j]);
      assert Before(side, q[i], q[j]);
      assert q[i] != q[j];
    }
    forall i, j | 0 <= i < |q| && 0 <= j < |p|
      ensures q[i].id != p[j].id
    {
      assert WellQueued(b, side, q[i]) && WellQueued(b, Opposite(side), p[j]);
      assert q[i] != p[j];
    }
  }

  /** With sorted sides, the book is uncrossed exactly when the best bid is below the best ask. */
  lemma BestPricesUncrossed(b: Book)
    requires Valid(b)
    ensures Uncrossed(b) <==> (b.bids == [] || b.asks == [] || b.bids[0].price < b.asks[0].price)
  {
    assert QueueValid(b, Buy) && QueueValid(b, Sell);
    if b.bids != [] && b.asks != [] && b.bids[0].price < b.asks[0].price {
      forall i, j | 0 <= i < |b.bids| && 0 <= j < |b.asks|
        ensures b.bids[i].price < b.asks[j].price
      {
        if i > 0 {
          assert Before(Buy, b.bids[0], b.bids[i]);
        }
        if j > 0 {
          assert Before(Sell, b.asks[0], b.asks[j]);
        }
      }
    }
  }

  // ---------------------------------------------------------------------
  // add_order
  // ---------------------------------------------------------------------

  /** What a submission returns: the new book, the trades, and the submitted order as it ends up. */
  datatype Submission = Submission(book: Book, trades: seq<Trade>, order: Order)

  /** A newly submitted order: nothing filled, Open, and the book's next arrival number. */
  function Incoming(b: Book, id: int, side: Side, price: int, quantity: int): (r: Order)
  {
    Order(id, side, price, quantity, 0, Open, b.nextSequence)
  }

  /**
   * After the loop: the incoming order gets its final status, rests on its
   * own side if it is still open, and is written to the registry in any case.
   */
  function Conclude(b: Book, f: Fill): (r: Submission)
  {
    var order := f.taker.(status := StatusAfterFill(f.taker.filled, f.taker.quantity));
    var own := QueueOf(b, order.side);
    var own' := if order.filled < order.quantity then Insert(order.side, own, order) else own;
    Submission(Arrange(order.side, own', f.resting, f.registry[order.id := order], b.nextSequence + 1), f.trades, order)
  }

  /** `add_order`: match against the opposite side, then rest any remainder. */
  function AddOrder(b: Book, id: int, side: Side, price: int, quantity: int): (r: Submission)
    requires Valid(b)
  {
    assert QueueValid(b, Opposite(side));
    Conclude(b, Match(Incoming(b, id, side, price, quantity), QueueOf(b, Opposite(side)), b.orders))
  }

  /** The loop's outcome `f` for the incoming order `o` on book `b`. */
  predicate Matched(b: Book, o: Order, f: Fill)
  {
    && o.filled == 0
    && o.status == Open
    && o.sequence == b.nextSequence
    && MatchSpec(o, QueueOf(b, Opposite(o.side)), b.orders, f)
  }

  lemma AddOrderMatches(b: Book, id: int, side: Side, price: int, quantity: int)
    requires Valid(b)
    ensures var o := Incoming(b, id, side, price, quantity);
      var f := Match(o, QueueOf(b, Opposite(side)), b.orders);
      Matched(b, o, f) && AddOrder(b, id, side, price, quantity) == Conclude(b, f)
  {
    assert QueueValid(b, Opposite(side));
    MatchMeetsSpec(Incoming(b, id, side, price, quantity), QueueOf(b, Opposite(side)), b.orders);
  }

  /**
   * Fill accounting of a submission: the trades add up to the order's fill,
   * which never exceeds its quantity; an order with no positive quantity
   * trades nothing and is marked Filled. The order keeps its fields, gets the
   * next arrival number, and is written to the registry even when filled.
   */
  lemma AddOrderAccounting(b: Book, id: int, side: Side, price: int, quantity: int)
    requires Valid(b)
    ensures var r := AddOrder(b, id, side, price, quantity);
      && TotalQuantity(r.trades) == r.order.filled
      && 0 <= r.order.filled
      && (quantity > 0 ==> r.order.filled <= quantity)
      && (quantity <= 0 ==> r.trades == [] && r.order.filled == 0 && r.order.status == Filled)
      && r.order.id == id && r.order.side == side && r.order.price == price && r.order.quantity == quantity
      && r.order.sequence == b.nextSequence
      && id in r.book.orders && r.book.orders[id] == r.order
      && r.book.nextSequence == b.nextSequence + 1
  {
    AddOrderMatches(b, id, side, price, quantity);
  }

  /**
   * The submitted order's status says how much of it traded, and it rests on
   * its own side exactly when it is not completely filled.
   */
  lemma AddOrderStatus(b: Book, id: int, side: Side, price: int, quantity: int)
    requires Valid(b) && quantity > 0
    ensures var r := AddOrder(b, id, side, price, quantity);
      && (r.order.status == Filled <==> r.order.filled == quantity)
      && (r.order.status == PartiallyFilled <==> 0 < r.order.filled < quantity)
      && (r.order.status == Open <==> r.order.filled == 0)
      && (r.order in QueueOf(r.book, side) <==> r.order.filled < quantity)
  {
    var o := Incoming(b, id, side, price, quantity);
    var f := Match(o, QueueOf(b, Opposite(side)), b.orders);
    AddOrderMatches(b, id, side, price, quantity);
    assert QueueValid(b, side);
    ConcludeStatus(b, f);
  }

  /** The status part of concluding a submission, for any loop outcome whose fill is in range. */
  lemma ConcludeStatus(b: Book, f: Fill)
    requires QueueValid(b, f.taker.side)
    requires f.taker.sequence == b.nextSequence
    requires 0 < f.taker.quantity && 0 <= f.taker.filled <= f.taker.quantity
    ensures var r := Conclude(b, f);
      && (r.order.status == Filled <==> r.order.filled == f.taker.quantity)
      && (r.order.status == PartiallyFilled <==> 0 < r.order.filled < f.taker.quantity)
      && (r.order.status == Open <==> r.order.filled == 0)
      && (r.order in QueueOf(r.book, f.taker.side) <==> r.order.filled < f.taker.quantity)
  {
    var r := Conclude(b, f);
    StatusMeaning(r.order.filled, f.taker.quantity);
    if r.order.filled >= f.taker.quantity {
      assert QueueOf(r.book, f.taker.side) == QueueOf(b, f.taker.side);
      forall i | 0 <= i < |QueueOf(b, f.taker.side)|
        ensures QueueOf(b, f.taker.side)[i] != r.order
      {
        assert WellQueued(b, f.taker.side, QueueOf(b, f.taker.side)[i]);
      }
    }
  }

  /**
   * The trades of a submission, in order: the i-th is made with the i-th best
   * order of the opposite side (price-time priority), inside the submitted
   * limit, at the resting order's price, buyer first and seller second, for
   * the smaller of the two remaining quantities.
   */
  lemma AddOrderTrades(b: Book, id: int, side: Side, price: int, quantity: int)
    requires Valid(b)
    ensures var r := AddOrder(b, id, side, price, quantity);
      var makers := QueueOf(b, Opposite(side));
      && |r.trades| <= |makers|
      && (forall i, j :: 0 <= i < j < |r.trades| ==> Before(Opposite(side), makers[i], makers[j]))
      && forall i :: 0 <= i < |r.trades| ==>
           && r.trades[i].price == makers[i].price
           && (side == Buy ==> r.trades[i].buyerId == id && r.trades[i].sellerId == makers[i].id)
           && (side == Sell ==> r.trades[i].buyerId == makers[i].id && r.trades[i].sellerId == id)
           && (side == Buy ==> makers[i].price <= price)
           && (side == Sell ==> makers[i].price >= price)
           && 0 < r.trades[i].quantity
  {
    AddOrderMatches(b, id, side, price, quantity);
    assert QueueValid(b, Opposite(side));
  }

  /**
   * Each trade is for the smaller of what the submitted order still wanted
   * when it was made and what its resting order still offered.
   */
  lemma AddOrderTradeSizes(b: Book, id: int, side: Side, price: int, quantity: int)
    requires Valid(b)
    ensures var r := AddOrder(b, id, side, price, quantity);
      var makers := QueueOf(b, Opposite(side));
      |r.trades| <= |makers| && SizedAsMin(quantity, makers, r.trades)
  {
    var o := Incoming(b, id, side, price, quantity);
    var makers := QueueOf(b, Opposite(side));
    var f := Match(o, makers, b.orders);
    AddOrderMatches(b, id, side, price, quantity);
    TradeSizes(o, makers, b.orders, f);
    assert Remaining(o) == quantity;
    assert AddOrder(b, id, side, price, quantity).trades == f.trades;
  }

  /**
   * Resting orders the submission traded with: each is registered with its
   * new fill; one used up is marked Filled and stays in the registry, though
   * it has left its side.
   */
  lemma AddOrderMakers(b: Book, id: int, side: Side, price: int, quantity: int)
    requires Valid(b) && id !in b.orders
    ensures var r := AddOrder(b, id, side, price, quantity);
      var makers := QueueOf(b, Opposite(side));
      && |r.trades| <= |makers|
      && forall i :: 0 <= i < |r.trades| ==>
           && makers[i].id in r.book.orders
           && r.book.orders[makers[i].id] == Execute(makers[i], r.trades[i].quantity)
           && (r.book.orders[makers[i].id].status == Filled <==> r.trades[i].quantity == Remaining(makers[i]))
           && (r.trades[i].quantity == Remaining(makers[i]) ==> makers[i].id !in Ids(QueueOf(r.book, Opposite(side))))
  {
    var o := Incoming(b, id, side, price, quantity);
    var makers := QueueOf(b, Opposite(side));
    var f := Match(o, makers, b.orders);
    AddOrderMatches(b, id, side, price, quantity);
    assert QueueValid(b, Opposite(side));
    ValidIdsDistinct(b, Opposite(side));
    MatchRecordsMakers(Opposite(side), o, makers, b.orders, f);
    forall i | 0 <= i < |f.trades|
      ensures makers[i].id != id
    {
      assert WellQueued(b, Opposite(side), makers[i]);
    }
    ConcludeMakers(b, f, makers);
  }

  /** Concluding a submission keeps what the loop recorded about the makers. */
  lemma ConcludeMakers(b: Book, f: Fill, makers: seq<Order>)
    requires makers == QueueOf(b, Opposite(f.taker.side)) && |f.trades| <= |makers|
    requires MakersRecorded(makers, f.trades, f.registry, f.resting)
    requires forall i :: 0 <= i < |f.trades| ==> makers[i].id != f.taker.id
    ensures var r := Conclude(b, f);
      MakersRecorded(makers, r.trades, r.book.orders, QueueOf(r.book, Opposite(f.taker.side)))
  {
  }

  /**
   * Where matching stopped: if the submitted order is still open, the
   * opposite side is exactly the resting orders it did not trade with, left
   * untouched, and the first of them (if any) is outside its limit.
   */
  lemma AddOrderStops(b: Book, id: int, side: Side, price: int, quantity: int)
    requires Valid(b)
    ensures var r := AddOrder(b, id, side, price, quantity);
      var makers := QueueOf(b, Opposite(side));
      && |r.trades| <= |makers|
      && (r.order.filled < quantity ==>
            && QueueOf(r.book, Opposite(side)) == makers[|r.trades|..]
            && (|r.trades| < |makers| ==>
                  (side == Buy ==> makers[|r.trades|].price > price) &&
                  (side == Sell ==> makers[|r.trades|].price < price)))
  {
    AddOrderMatches(b, id, side, price, quantity);
  }

  /**
   * What else a submission changes: the opposite side is what the loop left
   * of it, the own side gains exactly the incoming order when that order
   * rests, no registry entry is removed, and every registry entry the
   * submission did not trade with, other than the incoming id, is kept as it
   * was.
   */
  lemma AddOrderFrame(b: Book, id: int, side: Side, price: int, quantity: int)
    requires Valid(b)
    ensures var r := AddOrder(b, id, side, price, quantity);
      var makers := QueueOf(b, Opposite(side));
      && |r.trades| <= |makers|
      && QueueOf(r.book, Opposite(side)) == Leftover(makers, r.trades)
      && multiset(QueueOf(r.book, side)) ==
           multiset(QueueOf(b, side)) + (if r.order.filled < quantity then multiset{r.order} else multiset{})
      && b.orders.Keys + {id} <= r.book.orders.Keys
      && forall k :: k in b.orders && k != id && (forall i :: 0 <= i < |r.trades| ==> makers[i].id != k) ==>
           k in r.book.orders && r.book.orders[k] == b.orders[k]
  {
    var o := Incoming(b, id, side, price, quantity);
    var makers := QueueOf(b, Opposite(side));
    AddOrderMatches(b, id, side, price, quantity);
    ConcludeFrame(b, Match(o, makers, b.orders), makers);
  }

  /** The frame of concluding a submission, for any loop outcome described by `Leftover` and `Record`. */
  lemma ConcludeFrame(b: Book, f: Fill, makers: seq<Order>)
    requires makers == QueueOf(b, Opposite(f.taker.side)) && |f.trades| <= |makers|
    requires f.resting == Leftover(makers, f.trades)
    requires f.registry == Record(b.orders, makers, f.trades)
    ensures var r := Conclude(b, f);
      var side := f.taker.side;
      && QueueOf(r.book, Opposite(side)) == Leftover(makers, r.trades)
      && multiset(QueueOf(r.book, side)) ==
           multiset(QueueOf(b, side)) + (if r.order.filled < f.taker.quantity then multiset{r.order} else multiset{})
      && b.orders.Keys + {f.taker.id} <= r.book.orders.Keys
      && forall k :: k in b.orders && k != f.taker.id && (forall i :: 0 <= i < |r.trades| ==> makers[i].id != k) ==>
           k in r.book.orders && r.book.orders[k] == b.orders[k]
  {
    var r := Conclude(b, f);
    InsertPermutes(f.taker.side, QueueOf(b, f.taker.side), r.order);
    RecordKeepsKeys(b.orders, makers, f.trades);
    forall k | k in b.orders && k != f.taker.id && (forall i :: 0 <= i < |r.trades| ==> makers[i].id != k)
      ensures k in r.book.orders && r.book.orders[k] == b.orders[k]
    {
      RecordUntouched(b.orders, makers, f.trades, k);
    }
  }

  // ----- invariant preservation for add_order -----

  /** `x` is registered in `m`, as it is. */
  predicate KeptIn(m: map<int, Order>, x: Order)
  {
    x.id in m && m[x.id] == x
  }

  /** An order queued on the opposite side after the loop, described without the loop. */
  predicate ReadyOpposite(b: Book, o: Order, f: Fill, x: Order)
  {
    && KeptIn(f.registry, x)
    && x.side == Opposite(o.side)
    && Resting(x)
    && x.sequence < b.nextSequence
    && x.id != o.id
  }

  /** A resting order the submission traded with but did not use up. */
  lemma PartialHeadReady(b: Book, o: Order, f: Fill)
    requires QueuesValid(b) && Matched(b, o, f) && o.id !in b.orders
    requires var q := QueueOf(b, Opposite(o.side)); var n := |f.trades|;
      n > 0 && f.trades[n - 1].quantity < Remaining(q[n - 1])
    ensures f.resting != [] && ReadyOpposite(b, o, f, f.resting[0])
  {
    var opp := Opposite(o.side);
    var q := QueueOf(b, opp);
    var n := |f.trades|;
    assert QueueValid(b, opp);
    assert WellQueued(b, opp, q[n - 1]);
    ValidIdsDistinct(b, opp);
    RecordTouched(b.orders, q, f.trades, n - 1);
    ExecuteSettles(q[n - 1], f.trades[n - 1].quantity);
  }

  /** A resting order the submission did not trade with. */
  lemma UntouchedReady(b: Book, o: Order, f: Fill, j: nat)
    requires QueuesValid(b) && Matched(b, o, f) && o.id !in b.orders
    requires |f.trades| <= j < |QueueOf(b, Opposite(o.side))|
    ensures ReadyOpposite(b, o, f, QueueOf(b, Opposite(o.side))[j])
  {
    var opp := Opposite(o.side);
    var q := QueueOf(b, opp);
    assert QueueValid(b, opp);
    assert WellQueued(b, opp, q[j]);
    ValidIdsDistinct(b, opp);
    RecordUntouched(b.orders, q, f.trades, q[j].id);
  }

  /** Each order the loop leaves on the opposite side is ready to be queued. */
  lemma LeftoverElementReady(b: Book, o: Order, f: Fill, i: nat)
    requires QueuesValid(b) && Matched(b, o, f) && o.id !in b.orders
    requires i < |f.resting|
    ensures ReadyOpposite(b, o, f, f.resting[i])
  {
    var q := QueueOf(b, Opposite(o.side));
    var n := |f.trades|;
    var l := f.resting;
    if n > 0 && f.trades[n - 1].quantity < Remaining(q[n - 1]) {
      if i == 0 {
        PartialHeadReady(b, o, f);
      } else {
        assert l[i] == q[n - 1 + i];
        UntouchedReady(b, o, f, n - 1 + i);
      }
    } else {
      assert l[i] == q[n + i];
      UntouchedReady(b, o, f, n + i);
    }
  }

  /** What the loop leaves on the opposite side is sorted and ready to be queued. */
  lemma LeftoverReady(b: Book, o: Order, f: Fill)
    requires QueuesValid(b) && Matched(b, o, f) && o.id !in b.orders
    ensures Sorted(Opposite(o.side), f.resting)
    ensures forall i :: 0 <= i < |f.resting| ==> ReadyOpposite(b, o, f, f.resting[i])
  {
    var opp := Opposite(o.side);
    assert QueueValid(b, opp);
    LeftoverSortedResting(opp, o, QueueOf(b, opp), f.trades);
    forall i | 0 <= i < |f.resting|
      ensures ReadyOpposite(b, o, f, f.resting[i])
    {
      LeftoverElementReady(b, o, f, i);
    }
  }

  /** The opposite side after a submission is still well queued. */
  lemma ConcludeOpposite(b: Book, o: Order, f: Fill)
    requires Sorted(Opposite(o.side), f.resting)
    requires forall i :: 0 <= i < |f.resting| ==> ReadyOpposite(b, o, f, f.resting[i])
    requires f.taker.id == o.id && f.taker.side == o.side
    ensures QueueValid(Conclude(b, f).book, Opposite(o.side))
  {
    var r := Conclude(b, f);
    assert QueueOf(r.book, Opposite(o.side)) == f.resting;
    assert r.book.orders == f.registry[o.id := r.order];
    forall i | 0 <= i < |f.resting|
      ensures WellQueued(r.book, Opposite(o.side), f.resting[i])
    {
      assert ReadyOpposite(b, o, f, f.resting[i]);
    }
  }

  /** Orders queued on the submitting side keep their registry entries through the loop. */
  lemma OwnSideKept(b: Book, o: Order, f: Fill)
    requires QueuesValid(b) && Matched(b, o, f)
    ensures forall j :: 0 <= j < |QueueOf(b, o.side)| ==> KeptIn(f.registry, QueueOf(b, o.side)[j])
  {
    var side := o.side;
    var p := QueueOf(b, side);
    var q := QueueOf(b, Opposite(side));
    assert QueueValid(b, side);
    ValidIdsDistinct(b, side);
    forall j | 0 <= j < |p|
      ensures KeptIn(f.registry, p[j])
    {
      assert WellQueued(b, side, p[j]);
      RecordUntouched(b.orders, q, f.trades, p[j].id);
    }
  }

  /** One order on the submitting side after a submission is well queued. */
  lemma OwnElementQueued(b: Book, o: Order, f: Fill, x: Order)
    requires QueueValid(b, o.side) && o.id !in b.orders
    requires o.sequence == b.nextSequence && f.taker == o.(filled := f.taker.filled) && 0 <= f.taker.filled
    requires forall j :: 0 <= j < |QueueOf(b, o.side)| ==> KeptIn(f.registry, QueueOf(b, o.side)[j])
    requires x in QueueOf(Conclude(b, f).book, o.side)
    ensures WellQueued(Conclude(b, f).book, o.side, x)
  {
    var p := QueueOf(b, o.side);
    var r := Conclude(b, f);
    if r.order.filled < r.order.quantity && x == r.order {
    } else {
      assert x in p;
      var j :| 0 <= j < |p| && p[j] == x;
      assert WellQueued(b, o.side, p[j]) && KeptIn(f.registry, p[j]);
      assert r.book.orders[x.id] == x;
    }
  }

  /** The submitting side after a submission is still well queued. */
  lemma ConcludeOwn(b: Book, o: Order, f: Fill)
    requires QueueValid(b, o.side) && o.id !in b.orders
    requires o.sequence == b.nextSequence && f.taker == o.(filled := f.taker.filled) && 0 <= f.taker.filled
    requires forall j :: 0 <= j < |QueueOf(b, o.side)| ==> KeptIn(f.registry, QueueOf(b, o.side)[j])
    ensures QueueValid(Conclude(b, f).book, o.side)
  {
    var p := QueueOf(b, o.side);
    var r := Conclude(b, f);
    var own := QueueOf(r.book, o.side);
    assert ArrivedLast(p, r.order);
    if r.order.filled < r.order.quantity {
      InsertKeepsOrder(o.side, p, r.order);
    }
    assert Sorted(o.side, own);
    forall i | 0 <= i < |own|
      ensures WellQueued(r.book, o.side, own[i])
    {
      assert own[i] in own;
      OwnElementQueued(b, o, f, own[i]);
    }
  }

  /** Registry entries after a submission stay filed under their ids and settled. */
  lemma ConcludeRegistry(b: Book, o: Order, f: Fill)
    requires Valid(b) && Matched(b, o, f) && o.id !in b.orders
    ensures var nb := Conclude(b, f).book;
      forall k :: k in nb.orders ==> nb.orders[k].id == k && Settled(nb.orders[k])
  {
    var opp := Opposite(o.side);
    var q := QueueOf(b, opp);
    var r := Conclude(b, f);
    var nb := r.book;
    assert QueueValid(b, opp);
    ValidIdsDistinct(b, opp);
    assert nb.orders == f.registry[o.id := r.order];
    forall k | k in nb.orders
      ensures nb.orders[k].id == k && Settled(nb.orders[k])
    {
      if k != o.id {
        if i :| 0 <= i < |f.trades| && q[i].id == k {
          RecordTouched(b.orders, q, f.trades, i);
          assert WellQueued(b, opp, q[i]);
          ExecuteSettles(q[i], f.trades[i].quantity);
        } else {
          RecordUntouched(b.orders, q, f.trades, k);
        }
      }
    }
  }

  /** A resting order the submission traded with is afterwards Filled or still queued. */
  lemma TouchedFilledOrQueued(b: Book, o: Order, f: Fill, i: nat)
    requires QueuesValid(b) && Matched(b, o, f) && o.id !in b.orders
    requires i < |f.trades|
    ensures var nb := Conclude(b, f).book;
      var k := QueueOf(b, Opposite(o.side))[i].id;
      k in nb.orders && (nb.orders[k].status == Filled || nb.orders[k] in QueueOf(nb, nb.orders[k].side))
  {
    var opp := Opposite(o.side);
    var q := QueueOf(b, opp);
    var n := |f.trades|;
    assert QueueValid(b, opp);
    assert WellQueued(b, opp, q[i]);
    ValidIdsDistinct(b, opp);
    RecordTouched(b.orders, q, f.trades, i);
    ExecuteSettles(q[i], f.trades[i].quantity);
    if Execute(q[i], f.trades[i].quantity).status != Filled {
      assert i == n - 1;
      assert f.resting[0] == Execute(q[i], f.trades[i].quantity);
    }
  }

  /** A registry entry the submission did not touch is afterwards Filled or still queued. */
  lemma UntouchedFilledOrQueued(b: Book, o: Order, f: Fill, k: int)
    requires f.taker.id == o.id && f.taker.side == o.side
    requires k in b.orders && k != o.id
    requires b.orders[k].id == k
    requires b.orders[k].status == Filled || b.orders[k] in QueueOf(b, b.orders[k].side)
    requires k in f.registry && f.registry[k] == b.orders[k]
    requires var q := QueueOf(b, Opposite(o.side));
      && |f.trades| <= |q|
      && (forall i :: 0 <= i < |f.trades| ==> q[i].id != k)
      && (forall j :: |f.trades| <= j < |q| ==> q[j] in f.resting)
    ensures var nb := Conclude(b, f).book;
      k in nb.orders && (nb.orders[k].status == Filled || nb.orders[k] in QueueOf(nb, nb.orders[k].side))
  {
    var side := o.side;
    var q := QueueOf(b, Opposite(side));
    var nb := Conclude(b, f).book;
    var x := b.orders[k];
    assert nb.orders[k] == x;
    if x.status != Filled {
      if x.side == side {
        assert x in QueueOf(nb, side);
      } else {
        var j :| 0 <= j < |q| && q[j] == x;
        assert q[j].id == k;
        assert x in QueueOf(nb, Opposite(side));
      }
    }
  }

  /** Every registry entry after a submission is Filled or queued on its side. */
  lemma ConcludeRegistryQueued(b: Book, o: Order, f: Fill)
    requires Valid(b) && Matched(b, o, f) && o.id !in b.orders
    ensures var nb := Conclude(b, f).book;
      forall k :: k in nb.orders ==> nb.orders[k].status == Filled || nb.orders[k] in QueueOf(nb, nb.orders[k].side)
  {
    var q := QueueOf(b, Opposite(o.side));
    var r := Conclude(b, f);
    var nb := r.book;
    assert QueueValid(b, Opposite(o.side));
    LeftoverHoldsUntouched(q, f.trades);
    forall k | k in nb.orders
      ensures nb.orders[k].status == Filled || nb.orders[k] in QueueOf(nb, nb.orders[k].side)
    {
      if k == o.id {
        if r.order.filled < r.order.quantity {
          assert r.order in QueueOf(nb, o.side);
        }
      } else if i :| 0 <= i < |f.trades| && q[i].id == k {
        TouchedFilledOrQueued(b, o, f, i);
      } else {
        RecordUntouched(b.orders, q, f.trades, k);
        UntouchedFilledOrQueued(b, o, f, k);
      }
    }
  }

  /** Submitting an order with a fresh id keeps the book valid. */
  lemma AddOrderPreservesValid(b: Book, id: int, side: Side, price: int, quantity: int)
    requires Valid(b) && id !in b.orders
    ensures Valid(AddOrder(b, id, side, price, quantity).book)
  {
    var o := Incoming(b, id, side, price, quantity);
    var f := Match(o, QueueOf(b, Opposite(side)), b.orders);
    AddOrderMatches(b, id, side, price, quantity);
    LeftoverReady(b, o, f);
    ConcludeOpposite(b, o, f);
    OwnSideKept(b, o, f);
    ConcludeOwn(b, o, f);
    ConcludeRegistry(b, o, f);
    ConcludeRegistryQueued(b, o, f);
    var nb := Conclude(b, f).book;
    assert QueueValid(nb, Buy) && QueueValid(nb, Sell) by {
      if side == Buy {
      } else {
      }
    }
  }

  /** `x`, on `side`, is priced strictly better for its counterparty than `y` on the other side. */
  predicate Outside(side: Side, x: Order, y: Order)
  {
    if side == Buy then x.price < y.price else x.price > y.price
  }

  /** No order of `own` (on `side`) crosses any order of `other` (on the opposite side). */
  predicate Apart(side: Side, own: seq<Order>, other: seq<Order>)
  {
    forall i, j :: 0 <= i < |own| && 0 <= j < |other| ==> Outside(side, own[i], other[j])
  }

  lemma UncrossedIsApart(b: Book, side: Side)
    ensures Uncrossed(b) <==> Apart(side, QueueOf(b, side), QueueOf(b, Opposite(side)))
  {
  }

  /**
   * The step of the uncrossed argument on plain sequences: the submitting
   * side `own` holds old orders of `p` and possibly the incoming order, the
   * opposite side `l` holds the prices of a part of `q`, and the incoming
   * order only rests if it does not cross the best of `l`.
   */
  lemma {:induction false} ApartAfterMatch(side: Side, p: seq<Order>, q: seq<Order>, own: seq<Order>, l: seq<Order>, order: Order)
    requires Apart(side, p, q)
    requires Descends(l, q)
    requires Sorted(Opposite(side), l)
    requires order.side == side
    requires forall x :: x in own ==> x in p || (x == order && (l == [] || !Crosses(order, l[0])))
    ensures Apart(side, own, l)
  {
    forall i, j | 0 <= i < |own| && 0 <= j < |l|
      ensures Outside(side, own[i], l[j])
    {
      var x := own[i];
      assert x in own;
      if x in p {
        var k :| 0 <= k < |p| && p[k] == x;
        assert SameOrder(l[j], q[j + |q| - |l|]);
        assert Outside(side, p[k], q[j + |q| - |l|]);
      } else if j > 0 {
        assert Before(Opposite(side), l[0], l[j]);
      }
    }
  }

  /** A submission leaves an uncrossed book uncrossed. */
  lemma ConcludeUncrossed(b: Book, o: Order, f: Fill)
    requires Uncrossed(b)
    requires f.taker == o.(filled := f.taker.filled)
    requires f.taker.filled < o.quantity ==> f.resting == [] || !Crosses(o, f.resting[0])
    requires Sorted(Opposite(o.side), f.resting)
    requires Descends(f.resting, QueueOf(b, Opposite(o.side)))
    ensures Uncrossed(Conclude(b, f).book)
  {
    var side := o.side;
    var p := QueueOf(b, side);
    var q := QueueOf(b, Opposite(side));
    var r := Conclude(b, f);
    var l := f.resting;
    var own := QueueOf(r.book, side);
    assert QueueOf(r.book, Opposite(side)) == l;
    if r.order.filled < r.order.quantity {
      assert l == [] || !Crosses(r.order, l[0]);
    } else {
      assert own == p;
    }
    UncrossedIsApart(b, side);
    ApartAfterMatch(side, p, q, own, l, r.order);
    UncrossedIsApart(r.book, side);
  }

  lemma MatchedUncrossed(b: Book, o: Order, f: Fill)
    requires Sorted(Opposite(o.side), QueueOf(b, Opposite(o.side))) && AllResting(QueueOf(b, Opposite(o.side)))
    requires Uncrossed(b) && Matched(b, o, f)
    ensures Uncrossed(Conclude(b, f).book)
  {
    var q := QueueOf(b, Opposite(o.side));
    LeftoverSortedResting(Opposite(o.side), o, q, f.trades);
    LeftoverFromMakers(q, f.trades);
    ConcludeUncrossed(b, o, f);
  }

  /**
   * The book is never left crossed: if no bid was at or above any ask before
   * a submission, none is after it.
   */
  lemma AddOrderKeepsBookUncrossed(b: Book, id: int, side: Side, price: int, quantity: int)
    requires Valid(b) && Uncrossed(b)
    ensures Uncrossed(AddOrder(b, id, side, price, quantity).book)
  {
    var o := Incoming(b, id, side, price, quantity);
    AddOrderMatches(b, id, side, price, quantity);
    assert QueueValid(b, Opposite(side));
    MatchedUncrossed(b, o, Match(o, QueueOf(b, Opposite(side)), b.orders));
  }

  // ---------------------------------------------------------------------
  // cancel_order
  // ---------------------------------------------------------------------

  /**
   * What a cancellation leaves: the new book and, when the id was known, the
   * registry's order marked Cancelled.
   */
  datatype Cancellation = Cancellation(book: Book, cancelled: Option<Order>)
  {
    /** The boolean the source returns. */
    predicate Succeeded()
    {
      cancelled.Some?
    }
  }

  /**
   * `cancel_order`: an unknown id changes nothing and fails; a known one is
   * marked Cancelled, filtered out of the queue of its own side and dropped
   * from the registry, whatever its status was.
   */
  function CancelOrder(b: Book, id: int): (r: Cancellation)
    ensures r.Succeeded() <==> id in b.orders
    ensures !r.Succeeded() ==> r.book == b
    ensures r.Succeeded() ==> id !in r.book.orders && r.cancelled.value.status == Cancelled
  {
    if id !in b.orders then Cancellation(b, None)
    else
      var o := b.orders[id];
      var own := RemoveId(QueueOf(b, o.side), id);
      Cancellation(Arrange(o.side, own, QueueOf(b, Opposite(o.side)), b.orders - {id}, b.nextSequence),
                   Some(o.(status := Cancelled)))
  }

  /**
   * A cancellation takes away exactly the cancelled order: every other queued
   * order and every other registry entry stays as it was, on both sides.
   */
  lemma CancelRemovesOnlyTarget(b: Book, id: int, side: Side)
    requires Valid(b)
    ensures var r := CancelOrder(b, id);
      && (forall x :: x in QueueOf(r.book, side) <==> x in QueueOf(b, side) && x.id != id)
      && (forall k :: k in r.book.orders <==> k in b.orders && k != id)
      && (forall k :: k in r.book.orders ==> r.book.orders[k] == b.orders[k])
      && (r.Succeeded() ==> r.cancelled == Some(b.orders[id].(status := Cancelled)))
      && (id in b.orders ==> QueueOf(r.book, Opposite(b.orders[id].side)) == QueueOf(b, Opposite(b.orders[id].side)))
  {
    if id in b.orders {
      var o := b.orders[id];
      if side != o.side {
        var q := QueueOf(b, side);
        assert QueueValid(b, side);
        forall x | x in q
          ensures x.id != id
        {
          var j :| 0 <= j < |q| && q[j] == x;
          assert WellQueued(b, side, q[j]);
        }
      }
    }
  }

  /** After a successful cancellation the id is nowhere in the book. */
  lemma CancelledIsGone(b: Book, id: int)
    requires Valid(b)
    ensures var r := CancelOrder(b, id);
      id !in r.book.orders && id !in Ids(r.book.bids) && id !in Ids(r.book.asks)
  {
    var r := CancelOrder(b, id);
    CancelRemovesOnlyTarget(b, id, Buy);
    CancelRemovesOnlyTarget(b, id, Sell);
    forall side: Side
      ensures id !in Ids(QueueOf(r.book, side))
    {
      var q := QueueOf(r.book, side);
      forall j | 0 <= j < |q|
        ensures q[j].id != id
      {
        assert q[j] in q;
      }
    }
    assert QueueOf(r.book, Buy) == r.book.bids;
    assert QueueOf(r.book, Sell) == r.book.asks;
  }

  /** Cancelling the same id twice: the second attempt fails and changes nothing. */
  lemma CancelTwiceFails(b: Book, id: int)
    ensures var r := CancelOrder(CancelOrder(b, id).book, id);
      !r.Succeeded() && r.book == CancelOrder(b, id).book
  {
  }

  /**
   * Cancelling an order that was already Filled still succeeds: the registry
   * forgets it and both sides stay as they were, since it was no longer queued.
   */
  lemma CancelFilledOrder(b: Book, id: int)
    requires Valid(b) && id in b.orders && b.orders[id].status == Filled
    ensures var r := CancelOrder(b, id);
      r.Succeeded() && r.book.bids == b.bids && r.book.asks == b.asks
  {
    var o := b.orders[id];
    var q := QueueOf(b, o.side);
    assert QueueValid(b, o.side);
    forall j | 0 <= j < |q|
      ensures q[j].id != id
    {
      assert WellQueued(b, o.side, q[j]);
    }
    assert id !in Ids(q);
  }

  /** A queued order's cancellation takes exactly one order off its side. */
  lemma CancelQueuedShrinksSide(b: Book, id: int)
    requires Valid(b) && id in b.orders && id in Ids(QueueOf(b, b.orders[id].side))
    ensures var side := b.orders[id].side;
      |QueueOf(CancelOrder(b, id).book, side)| == |QueueOf(b, side)| - 1
  {
    ValidIdsDistinct(b, b.orders[id].side);
    RemoveIdRemovesOne(QueueOf(b, b.orders[id].side), id);
  }

  /** Each side stays well queued through a cancellation. */
  lemma CancelKeepsQueueValid(b: Book, id: int, side: Side)
    requires Valid(b)
    ensures QueueValid(CancelOrder(b, id).book, side)
  {
    if id in b.orders {
      var nb := CancelOrder(b, id).book;
      var o := b.orders[id];
      var old_q := QueueOf(b, side);
      var q := QueueOf(nb, side);
      assert QueueValid(b, side);
      CancelRemovesOnlyTarget(b, id, side);
      if side == o.side {
        RemoveIdKeepsOrder(side, old_q, id);
      }
      QueuedAfterRemoval(b, nb, side, id);
    }
  }

  /** Orders left in a queue after removing `id` stay well queued in a registry without `id`. */
  lemma QueuedAfterRemoval(b: Book, nb: Book, side: Side, id: int)
    requires QueueValid(b, side) && Sorted(side, QueueOf(nb, side))
    requires nb.nextSequence == b.nextSequence
    requires forall x :: x in QueueOf(nb, side) ==> x in QueueOf(b, side) && x.id != id
    requires forall k :: k in b.orders && k != id ==> k in nb.orders && nb.orders[k] == b.orders[k]
    ensures QueueValid(nb, side)
  {
    var old_q := QueueOf(b, side);
    var q := QueueOf(nb, side);
    forall i | 0 <= i < |q|
      ensures WellQueued(nb, side, q[i])
    {
      assert q[i] in q;
      var j :| 0 <= j < |old_q| && old_q[j] == q[i];
      assert WellQueued(b, side, old_q[j]);
    }
  }

  /** Cancellation keeps the book valid. */
  lemma CancelPreservesValid(b: Book, id: int)
    requires Valid(b)
    ensures Valid(CancelOrder(b, id).book)
  {
    CancelKeepsQueueValid(b, id, Buy);
    CancelKeepsQueueValid(b, id, Sell);
    if id in b.orders {
      var nb := CancelOrder(b, id).book;
      CancelRemovesOnlyTarget(b, id, Buy);
      CancelRemovesOnlyTarget(b, id, Sell);
      forall k | k in nb.orders
        ensures nb.orders[k].status == Filled || nb.orders[k] in QueueOf(nb, nb.orders[k].side)
      {
        assert nb.orders[k] == b.orders[k];
      }
    }
  }

  /** Cancellation never makes the book crossed. */
  lemma CancelKeepsBookUncrossed(b: Book, id: int)
    requires Valid(b) && Uncrossed(b)
    ensures Uncrossed(CancelOrder(b, id).book)
  {
    var nb := CancelOrder(b, id).book;
    CancelRemovesOnlyTarget(b, id, Buy);
    CancelRemovesOnlyTarget(b, id, Sell);
    forall i, j | 0 <= i < |nb.bids| && 0 <= j < |nb.asks|
      ensures nb.bids[i].price < nb.asks[j].price
    {
      assert nb.bids[i] in QueueOf(nb, Buy) && nb.asks[j] in QueueOf(nb, Sell);
      var i' :| 0 <= i' < |b.bids| && b.bids[i'] == nb.bids[i];
      var j' :| 0 <= j' < |b.asks| && b.asks[j'] == nb.asks[j];
    }
  }

  // ---------------------------------------------------------------------
  // get_order_book
  // ---------------------------------------------------------------------

  /** One line of the published book: a price and the quantity still open there. */
  datatype Level = Level(price: int, quantity: int)

  datatype BookView = BookView(bids: seq<Level>, asks: seq<Level>)

  /** One line per queued order, in queue order. */
  function Levels(q: seq<Order>): (r: seq<Level>)
    ensures |r| == |q|
    ensures forall i :: 0 <= i < |q| ==> r[i] == Level(q[i].price, Remaining(q[i]))
  {
    if q == [] then [] else [Level(q[0].price, Remaining(q[0]))] + Levels(q[1..])
  }

  /** `get_order_book`: bids from the highest price down, asks from the lowest up. */
  function Snapshot(b: Book): (r: BookView)
  {
    BookView(Levels(b.bids), Levels(b.asks))
  }

  /**
   * The published book of a valid book lists every resting order once, bids
   * by non-increasing and asks by non-decreasing price, each with a positive
   * open quantity.
   */
  lemma SnapshotOrdered(b: Book)
    requires Valid(b)
    ensures var v := Snapshot(b);
      && |v.bids| == |b.bids| && |v.asks| == |b.asks|
      && (forall i, j :: 0 <= i < j < |v.bids| ==> v.bids[i].price >= v.bids[j].price)
      && (forall i, j :: 0 <= i < j < |v.asks| ==> v.asks[i].price <= v.asks[j].price)
      && (forall i :: 0 <= i < |v.bids| ==> v.bids[i].quantity > 0)
      && (forall i :: 0 <= i < |v.asks| ==> v.asks[i].quantity > 0)
  {
    assert QueueValid(b, Buy) && QueueValid(b, Sell);
    var v := Snapshot(b);
    forall i, j | 0 <= i < j < |v.bids|
      ensures v.bids[i].price >= v.bids[j].price
    {
      assert Before(Buy, b.bids[i], b.bids[j]);
    }
    forall i, j | 0 <= i < j < |v.asks|
      ensures v.asks[i].price <= v.asks[j].price
    {
      assert Before(Sell, b.asks[i], b.asks[j]);
    }
    forall i | 0 <= i < |v.bids|
      ensures v.bids[i].quantity > 0
    {
      assert WellQueued(b, Buy, b.bids[i]);
    }
    forall i | 0 <= i < |v.asks|
      ensures v.asks[i].quantity > 0
    {
      assert WellQueued(b, Sell, b.asks[i]);
    }
  }

  /**
   * The published best bid is below the published best ask exactly when the
   * book is uncrossed.
   */
  lemma SnapshotShowsUncrossed(b: Book)
    requires Valid(b)
    ensures var v := Snapshot(b);
      Uncrossed(b) <==> (v.bids == [] || v.asks == [] || v.bids[0].price < v.asks[0].price)
  {
    BestPricesUncrossed(b);
  }
}
