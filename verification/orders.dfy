/**
 * Orders, trades and order status as the matching engine sees them.
 *
 * Prices are integers (fixed-point minor units) rather than the floats of the
 * persistence layer; quantities are unbounded integers, like Python's `int`.
 */
module Orders {

  /** The side of an order (`OrderType` in the source). */
  datatype Side = Buy | Sell

  function Opposite(s: Side): (r: Side)
    ensures r != s
  {
    if s == Buy then Sell else Buy
  }

  /** Lifecycle status of an order (`OrderStatus` in the source). */
  datatype Status = Open | PartiallyFilled | Filled | Cancelled

  /**
   * An order. `filled` is the source's `filled_quantity`; `sequence` is the
   * arrival number that breaks ties between orders of equal price.
   */
  datatype Order = Order(
    id: int,
    side: Side,
    price: int,
    quantity: int,
    filled: int,
    status: Status,
    sequence: nat)

  /** An execution: the buying order, the selling order, the price and the quantity. */
  datatype Trade = Trade(buyerId: int, sellerId: int, price: int, quantity: int)

  datatype Option<+T> = None | Some(value: T)

  function Min(a: int, b: int): (r: int)
  {
    if a <= b then a else b
  }

  /** Quantity still open on an order. */
  function Remaining(o: Order): (r: int)
  {
    o.quantity - o.filled
  }

  /**
   * The status the engine gives an order once its fill is known; the same
   * rule is applied to a resting order after a trade and to the incoming
   * order after matching.
   */
  function StatusAfterFill(filled: int, quantity: int): (r: Status)
  {
    if filled < quantity then
      if filled > 0 then PartiallyFilled else Open
    else
      Filled
  }

  /** An order that may sit in a queue: partly open, status consistent with its fill. */
  predicate Resting(o: Order)
  {
    0 <= o.filled < o.quantity && o.status == StatusAfterFill(o.filled, o.quantity)
  }

  /**
   * An order as the registry may hold it: never overfilled, and its status
   * agrees with its fill. An order submitted with a non-positive quantity is
   * marked Filled without any fill, hence the second disjunct.
   */
  predicate Settled(o: Order)
  {
    && 0 <= o.filled
    && (o.filled <= o.quantity || o.filled == 0)
    && o.status == StatusAfterFill(o.filled, o.quantity)
  }

  /** The resting order `maker` after `q` more units of it have traded. */
  function Execute(maker: Order, q: int): (r: Order)
  {
    var filled := maker.filled + q;
    maker.(filled := filled, status := StatusAfterFill(filled, maker.quantity))
  }

  /**
   * Does an incoming order accept the resting order's price? A buy takes an
   * ask priced at or below its limit, a sell takes a bid at or above it.
   */
  predicate Crosses(taker: Order, maker: Order)
  {
    if taker.side == Buy then maker.price <= taker.price else maker.price >= taker.price
  }

  /**
   * The trade an incoming order makes against a resting one: priced at the
   * resting order's price, with buyer and seller taken from the two sides.
   */
  function TradeBetween(taker: Order, maker: Order, q: int): (r: Trade)
  {
    if taker.side == Buy then Trade(taker.id, maker.id, maker.price, q)
    else Trade(maker.id, taker.id, maker.price, q)
  }

  /** Total quantity of the first `n` trades. */
  function SumTo(ts: seq<Trade>, n: nat): (r: int)
    requires n <= |ts|
  {
    if n == 0 then 0 else SumTo(ts, n - 1) + ts[n - 1].quantity
  }

  /** Total quantity of a list of trades. */
  function TotalQuantity(ts: seq<Trade>): (r: int)
  {
    SumTo(ts, |ts|)
  }

  lemma {:induction false} SumToCons(t: Trade, ts: seq<Trade>, n: nat)
    requires n <= |ts|
    ensures SumTo([t] + ts, n + 1) == t.quantity + SumTo(ts, n)
  {
    if n > 0 {
      SumToCons(t, ts, n - 1);
      assert ([t] + ts)[n] == ts[n - 1];
    }
  }

  /** A fill keeps a resting order settled and, unless it completes it, resting. */
  lemma ExecuteSettles(maker: Order, q: int)
    requires Resting(maker)
    requires 0 < q <= Remaining(maker)
    ensures Settled(Execute(maker, q))
    ensures Execute(maker, q).filled < maker.quantity ==> Resting(Execute(maker, q))
    ensures Execute(maker, q).status == Filled <==> q == Remaining(maker)
  {
  }

  /**
   * The meaning of a status: for an order with a positive quantity that is not
   * overfilled, Filled, PartiallyFilled and Open each say exactly how much of
   * it has traded.
   */
  lemma StatusMeaning(filled: int, quantity: int)
    requires 0 < quantity && 0 <= filled <= quantity
    ensures StatusAfterFill(filled, quantity) == Filled <==> filled == quantity
    ensures StatusAfterFill(filled, quantity) == PartiallyFilled <==> 0 < filled < quantity
    ensures StatusAfterFill(filled, quantity) == Open <==> filled == 0
    ensures StatusAfterFill(filled, quantity) != Cancelled
  {
  }
}
