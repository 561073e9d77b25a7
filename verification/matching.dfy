/**
 * The matching loop of `OrderBook.add_order`: the incoming order (the taker)
 * is crossed against the best resting order of the opposite side (the maker)
 * again and again, until it is filled, the side is empty, or the best maker's
 * price is outside the taker's limit.
 */
module Matching {
  import opened Orders
  import opened Queues

  /**
   * What the loop hands back: the taker with its fill, what is left of the
   * opposite side, the registry with the makers' fills, and the trades in the
   * order they were executed.
   */
  datatype Fill = Fill(taker: Order, resting: seq<Order>, registry: map<int, Order>, trades: seq<Trade>)

  predicate AllResting(q: seq<Order>)
  {
    forall i :: 0 <= i < |q| ==> Resting(q[i])
  }

  /**
   * One run of the loop. Each trade takes the smaller of the two remaining
   * quantities at the maker's price; a maker left partly open goes back to
   * the front of its side, a completed maker leaves the side but its
   * registry entry is only updated, never removed.
   */
  function Match(taker: Order, resting: seq<Order>, registry: map<int, Order>): (r: Fill)
    requires AllResting(resting)
    decreases taker.quantity - taker.filled
  {
    if taker.filled >= taker.quantity || resting == [] then
      Fill(taker, resting, registry, [])
    else
      var maker := resting[0];
      if !Crosses(taker, maker) then
        Fill(taker, resting, registry, [])
      else
        var q := Min(Remaining(taker), Remaining(maker));
        var maker' := Execute(maker, q);
        var rest := if maker'.filled < maker'.quantity then [maker'] + resting[1..] else resting[1..];
        var f := Match(taker.(filled := taker.filled + q), rest, registry[maker.id := maker']);
        f.(trades := [TradeBetween(taker, maker, q)] + f.trades)
  }

  /**
   * The taker's side of one run of the loop: only its fill changes, it never
   * grows past the quantity asked for, and it is exactly the total quantity
   * of the trades made.
   */
  lemma {:induction false} MatchFill(taker: Order, resting: seq<Order>, registry: map<int, Order>)
    requires AllResting(resting)
    ensures var f := Match(taker, resting, registry);
      && f.taker == taker.(filled := f.taker.filled)
      && taker.filled <= f.taker.filled
      && (taker.filled < taker.quantity ==> f.taker.filled <= taker.quantity)
      && TotalQuantity(f.trades) == f.taker.filled - taker.filled
      && (taker.filled >= taker.quantity ==> f.trades == [] && f.taker == taker)
    decreases taker.quantity - taker.filled
  {
    var f := Match(taker, resting, registry);
    if taker.filled >= taker.quantity || resting == [] || !Crosses(taker, resting[0]) {
      assert f.trades == [] && f.taker == taker;
    } else {
      var maker := resting[0];
      var q := Min(Remaining(taker), Remaining(maker));
      var taker' := taker.(filled := taker.filled + q);
      var maker' := Execute(maker, q);
      var rest := if maker'.filled < maker'.quantity then [maker'] + resting[1..] else resting[1..];
      var registry' := registry[maker.id := maker'];
      var g := Match(taker', rest, registry');
      var t := TradeBetween(taker, maker, q);
      MatchFill(taker', rest, registry');
      assert f.trades == [t] + g.trades && f.taker == g.taker;
      SumToCons(t, g.trades, |g.trades|);
    }
  }

  /**
   * Why the loop stopped: if the taker is still open, the opposite side is
   * empty or its best maker is priced outside the taker's limit.
   */
  lemma {:induction false} MatchStops(taker: Order, resting: seq<Order>, registry: map<int, Order>)
    requires AllResting(resting)
    ensures var f := Match(taker, resting, registry);
      f.taker.filled < taker.quantity ==> f.resting == [] || !Crosses(taker, f.resting[0])
    decreases taker.quantity - taker.filled
  {
    var f := Match(taker, resting, registry);
    if taker.filled >= taker.quantity || resting == [] || !Crosses(taker, resting[0]) {
      assert f.taker == taker && f.resting == resting;
    } else {
      var maker := resting[0];
      var q := Min(Remaining(taker), Remaining(maker));
      var taker' := taker.(filled := taker.filled + q);
      var maker' := Execute(maker, q);
      var rest := if maker'.filled < maker'.quantity then [maker'] + resting[1..] else resting[1..];
      var registry' := registry[maker.id := maker'];
      var g := Match(taker', rest, registry');
      MatchStops(taker', rest, registry');
      assert f.taker == g.taker && f.resting == g.resting;
      assert forall m :: Crosses(taker', m) == Crosses(taker, m);
    }
  }

  /**
   * The trades follow the queue: the i-th trade is made with the i-th best
   * maker, inside the taker's limit, at the maker's price, with the taker and
   * maker as buyer and seller according to their sides, for a positive
   * quantity the maker still offered.
   */
  predicate TradesFollowQueue(taker: Order, resting: seq<Order>, trades: seq<Trade>)
  {
    && |trades| <= |resting|
    && forall i :: 0 <= i < |trades| ==>
         && trades[i] == TradeBetween(taker, resting[i], trades[i].quantity)
         && Crosses(taker, resting[i])
         && 0 < trades[i].quantity <= Remaining(resting[i])
  }

  lemma TradesFollowQueueCons(taker: Order, taker': Order, resting: seq<Order>, t: Trade, trades: seq<Trade>)
    requires |resting| > 0
    requires taker'.id == taker.id && taker'.side == taker.side && taker'.price == taker.price
    requires t == TradeBetween(taker, resting[0], t.quantity) && Crosses(taker, resting[0])
    requires 0 < t.quantity <= Remaining(resting[0])
    requires TradesFollowQueue(taker', resting[1..], trades)
    ensures TradesFollowQueue(taker, resting, [t] + trades)
  {
    var r := [t] + trades;
    forall i | 0 < i < |r|
      ensures r[i] == TradeBetween(taker, resting[i], r[i].quantity)
      ensures Crosses(taker, resting[i])
      ensures 0 < r[i].quantity <= Remaining(resting[i])
    {
      assert r[i] == trades[i - 1];
      assert resting[1..][i - 1] == resting[i];
    }
  }

  /** Price-time priority of the trades one run of the loop makes. */
  lemma {:induction false} MatchTrades(taker: Order, resting: seq<Order>, registry: map<int, Order>)
    requires AllResting(resting)
    ensures TradesFollowQueue(taker, resting, Match(taker, resting, registry).trades)
    decreases taker.quantity - taker.filled
  {
    var f := Match(taker, resting, registry);
    if taker.filled >= taker.quantity || resting == [] || !Crosses(taker, resting[0]) {
      assert f.trades == [];
    } else {
      var maker := resting[0];
      var q := Min(Remaining(taker), Remaining(maker));
      var taker' := taker.(filled := taker.filled + q);
      var maker' := Execute(maker, q);
      var rest := if maker'.filled < maker'.quantity then [maker'] + resting[1..] else resting[1..];
      var registry' := registry[maker.id := maker'];
      var g := Match(taker', rest, registry');
      var t := TradeBetween(taker, maker, q);
      assert f.trades == [t] + g.trades;
      if maker'.filled < maker'.quantity {
        assert g.trades == [];
        assert TradesFollowQueue(taker', resting[1..], []);
      } else {
        MatchTrades(taker', rest, registry');
      }
      TradesFollowQueueCons(taker, taker', resting, t, g.trades);
    }
  }

  /**
   * What is left of a side once `trades` were made, in order, against the
   * makers at its front: those makers are gone, except the last one when it
   * was only partly filled, which stays first with its new fill.
   */
  function Leftover(makers: seq<Order>, trades: seq<Trade>): (r: seq<Order>)
    requires |trades| <= |makers|
  {
    var n := |trades|;
    if n > 0 && trades[n - 1].quantity < Remaining(makers[n - 1]) then
      [Execute(makers[n - 1], trades[n - 1].quantity)] + makers[n..]
    else
      makers[n..]
  }

  /** Every maker that traded, except perhaps the last, was used up. */
  predicate UsedUp(makers: seq<Order>, trades: seq<Trade>)
    requires |trades| <= |makers|
  {
    forall i :: 0 <= i < |trades| - 1 ==> trades[i].quantity == Remaining(makers[i])
  }

  lemma UsedUpCons(makers: seq<Order>, t: Trade, trades: seq<Trade>)
    requires 0 < |makers| && |trades| < |makers|
    requires t.quantity == Remaining(makers[0])
    requires UsedUp(makers[1..], trades)
    ensures UsedUp(makers, [t] + trades)
  {
    var r := [t] + trades;
    forall i | 0 < i < |r| - 1
      ensures r[i].quantity == Remaining(makers[i])
    {
      assert r[i] == trades[i - 1];
      assert makers[1..][i - 1] == makers[i];
    }
  }

  lemma LeftoverCons(makers: seq<Order>, t: Trade, trades: seq<Trade>)
    requires 0 < |makers| && |trades| < |makers|
    requires t.quantity == Remaining(makers[0])
    ensures Leftover(makers, [t] + trades) == Leftover(makers[1..], trades)
  {
    var n := |trades| + 1;
    assert makers[1..][n - 1..] == makers[n..];
    if n > 1 {
      assert ([t] + trades)[n - 1] == trades[n - 2];
      assert makers[1..][n - 2] == makers[n - 1];
    }
  }

  /**
   * The opposite side after one run of the loop: the makers that traded are
   * gone from its front, except a last, partly filled one, and every maker
   * before the last was used up.
   */
  lemma {:induction false} MatchLeftover(taker: Order, resting: seq<Order>, registry: map<int, Order>)
    requires AllResting(resting)
    ensures var f := Match(taker, resting, registry);
      && |f.trades| <= |resting|
      && f.resting == Leftover(resting, f.trades)
      && UsedUp(resting, f.trades)
    decreases taker.quantity - taker.filled
  {
    var f := Match(taker, resting, registry);
    if taker.filled >= taker.quantity || resting == [] || !Crosses(taker, resting[0]) {
      assert f.trades == [] && f.resting == resting;
    } else {
      var maker := resting[0];
      var q := Min(Remaining(taker), Remaining(maker));
      var taker' := taker.(filled := taker.filled + q);
      var maker' := Execute(maker, q);
      var registry' := registry[maker.id := maker'];
      var t := TradeBetween(taker, maker, q);
      if maker'.filled < maker'.quantity {
        var rest := [maker'] + resting[1..];
        assert Match(taker', rest, registry') == Fill(taker', rest, registry', []);
        assert f.trades == [t] && f.resting == rest;
      } else {
        var rest := resting[1..];
        var g := Match(taker', rest, registry');
        MatchLeftover(taker', rest, registry');
        assert f.trades == [t] + g.trades && f.resting == g.resting;
        LeftoverCons(resting, t, g.trades);
        UsedUpCons(resting, t, g.trades);
      }
    }
  }

  /**
   * If the taker is still open, the loop stopped at a maker it did not
   * touch: the side is exactly the makers that did not trade.
   */
  lemma {:induction false} MatchStopsUntouched(taker: Order, resting: seq<Order>, registry: map<int, Order>)
    requires AllResting(resting)
    ensures var f := Match(taker, resting, registry);
      |f.trades| <= |resting| && (f.taker.filled < taker.quantity ==> f.resting == resting[|f.trades|..])
    decreases taker.quantity - taker.filled
  {
    var f := Match(taker, resting, registry);
    if taker.filled >= taker.quantity || resting == [] || !Crosses(taker, resting[0]) {
      assert f.trades == [] && f.resting == resting;
    } else {
      var maker := resting[0];
      var q := Min(Remaining(taker), Remaining(maker));
      var taker' := taker.(filled := taker.filled + q);
      var maker' := Execute(maker, q);
      var registry' := registry[maker.id := maker'];
      var t := TradeBetween(taker, maker, q);
      if maker'.filled < maker'.quantity {
        assert f.taker.filled == taker.quantity;
      } else {
        var rest := resting[1..];
        var g := Match(taker', rest, registry');
        MatchStopsUntouched(taker', rest, registry');
        assert f.trades == [t] + g.trades && f.resting == g.resting && f.taker == g.taker;
        assert rest[|g.trades|..] == resting[|f.trades|..];
      }
    }
  }

  /**
   * The registry once `trades` were made, in order, against the makers at the
   * front of `makers`: each maker that traded is recorded with its new fill.
   * A used-up maker stays registered, as Filled.
   */
  function Record(registry: map<int, Order>, makers: seq<Order>, trades: seq<Trade>): (r: map<int, Order>)
    requires |trades| <= |makers|
    decreases |trades|
  {
    if trades == [] then registry
    else Record(registry[makers[0].id := Execute(makers[0], trades[0].quantity)], makers[1..], trades[1..])
  }

  /** An entry no trade touched is as it was. */
  lemma {:induction false} RecordUntouched(registry: map<int, Order>, makers: seq<Order>, trades: seq<Trade>, k: int)
    requires |trades| <= |makers|
    decreases |trades|
    requires forall i :: 0 <= i < |trades| ==> makers[i].id != k
    ensures k in Record(registry, makers, trades) <==> k in registry
    ensures k in registry ==> Record(registry, makers, trades)[k] == registry[k]
  {
    if trades != [] {
      assert makers[0].id != k;
      forall i | 0 <= i < |trades[1..]|
        ensures makers[1..][i].id != k
      {
        assert makers[1..][i] == makers[i + 1];
      }
      RecordUntouched(registry[makers[0].id := Execute(makers[0], trades[0].quantity)], makers[1..], trades[1..], k);
    }
  }

  /** A maker that traded is recorded with its fill from that trade. */
  lemma {:induction false} RecordTouched(registry: map<int, Order>, makers: seq<Order>, trades: seq<Trade>, i: nat)
    requires |trades| <= |makers| && DistinctIds(makers)
    decreases |trades|
    requires i < |trades|
    ensures makers[i].id in Record(registry, makers, trades)
    ensures Record(registry, makers, trades)[makers[i].id] == Execute(makers[i], trades[i].quantity)
  {
    var registry' := registry[makers[0].id := Execute(makers[0], trades[0].quantity)];
    if i == 0 {
      forall j | 0 <= j < |trades[1..]|
        ensures makers[1..][j].id != makers[0].id
      {
        assert makers[1..][j] == makers[j + 1];
      }
      RecordUntouched(registry', makers[1..], trades[1..], makers[0].id);
    } else {
      assert makers[1..][i - 1] == makers[i];
      assert trades[1..][i - 1] == trades[i];
      RecordTouched(registry', makers[1..], trades[1..], i - 1);
    }
  }

  /** Every key stays registered. */
  lemma {:induction false} RecordKeepsKeys(registry: map<int, Order>, makers: seq<Order>, trades: seq<Trade>)
    requires |trades| <= |makers|
    decreases |trades|
    ensures registry.Keys <= Record(registry, makers, trades).Keys
  {
    if trades != [] {
      RecordKeepsKeys(registry[makers[0].id := Execute(makers[0], trades[0].quantity)], makers[1..], trades[1..]);
    }
  }

  /** The registry after one run of the loop. */
  lemma {:induction false} MatchRegistry(taker: Order, resting: seq<Order>, registry: map<int, Order>)
    requires AllResting(resting)
    ensures var f := Match(taker, resting, registry);
      |f.trades| <= |resting| && f.registry == Record(registry, resting, f.trades)
    decreases taker.quantity - taker.filled
  {
    var f := Match(taker, resting, registry);
    if taker.filled >= taker.quantity || resting == [] || !Crosses(taker, resting[0]) {
      assert f.trades == [] && f.registry == registry;
    } else {
      var maker := resting[0];
      var q := Min(Remaining(taker), Remaining(maker));
      var taker' := taker.(filled := taker.filled + q);
      var maker' := Execute(maker, q);
      var registry' := registry[maker.id := maker'];
      var t := TradeBetween(taker, maker, q);
      if maker'.filled < maker'.quantity {
        var rest := [maker'] + resting[1..];
        assert Match(taker', rest, registry') == Fill(taker', rest, registry', []);
        assert f.trades == [t] && f.registry == registry';
        RecordCons(registry, resting, t, []);
      } else {
        var rest := resting[1..];
        var g := Match(taker', rest, registry');
        MatchRegistry(taker', rest, registry');
        assert f.trades == [t] + g.trades && f.registry == g.registry;
        RecordCons(registry, resting, t, g.trades);
      }
    }
  }

  /** `Record` after one more trade at the front. */
  lemma RecordCons(registry: map<int, Order>, makers: seq<Order>, t: Trade, trades: seq<Trade>)
    requires |trades| < |makers|
    ensures Record(registry, makers, [t] + trades) ==
              Record(registry[makers[0].id := Execute(makers[0], t.quantity)], makers[1..], trades)
  {
    assert ([t] + trades)[1..] == trades;
  }

  /**
   * What one run of the loop achieves, stated without running it: the fill
   * accounting of the taker, why it stopped, which trades it made, what is
   * left of the opposite side and what the registry records.
   */
  predicate MatchSpec(taker: Order, resting: seq<Order>, registry: map<int, Order>, f: Fill)
  {
    && |f.trades| <= |resting|
    && f.taker == taker.(filled := f.taker.filled)
    && taker.filled <= f.taker.filled
    && (taker.filled < taker.quantity ==> f.taker.filled <= taker.quantity)
    && (taker.filled >= taker.quantity ==> f.trades == [] && f.taker == taker)
    && TotalQuantity(f.trades) == f.taker.filled - taker.filled
    && (f.taker.filled < taker.quantity ==> f.resting == [] || !Crosses(taker, f.resting[0]))
    && (f.taker.filled < taker.quantity ==> f.resting == resting[|f.trades|..])
    && TradesFollowQueue(taker, resting, f.trades)
    && UsedUp(resting, f.trades)
    && f.resting == Leftover(resting, f.trades)
    && f.registry == Record(registry, resting, f.trades)
  }

  /** The loop meets its specification. */
  lemma MatchMeetsSpec(taker: Order, resting: seq<Order>, registry: map<int, Order>)
    requires AllResting(resting)
    ensures MatchSpec(taker, resting, registry, Match(taker, resting, registry))
  {
    MatchFill(taker, resting, registry);
    MatchStops(taker, resting, registry);
    MatchStopsUntouched(taker, resting, registry);
    MatchTrades(taker, resting, registry);
    MatchLeftover(taker, resting, registry);
    MatchRegistry(taker, resting, registry);
  }

  /** `a` is `b` with a different fill. */
  predicate SameOrder(a: Order, b: Order)
  {
    a.id == b.id && a.side == b.side && a.price == b.price && a.quantity == b.quantity && a.sequence == b.sequence
  }

  /**
   * `l` is a tail of `makers`, element for element, up to fills: each order
   * left on the side is one of the makers it held, in the same relative
   * position, with at most its fill changed.
   */
  predicate Descends(l: seq<Order>, makers: seq<Order>)
  {
    && |l| <= |makers|
    && forall i :: 0 <= i < |l| ==> SameOrder(l[i], makers[i + |makers| - |l|])
  }

  lemma LeftoverFromMakers(makers: seq<Order>, trades: seq<Trade>)
    requires |trades| <= |makers|
    ensures Descends(Leftover(makers, trades), makers)
  {
    var n := |trades|;
    var l := Leftover(makers, trades);
    if n > 0 && trades[n - 1].quantity < Remaining(makers[n - 1]) {
      assert |l| == |makers| - n + 1;
      forall i | 0 <= i < |l|
        ensures SameOrder(l[i], makers[i + n - 1])
      {
        if i > 0 {
          assert l[i] == makers[n - 1 + i];
        }
      }
    } else {
      assert |l| == |makers| - n;
      forall i | 0 <= i < |l|
        ensures SameOrder(l[i], makers[i + n])
      {
        assert l[i] == makers[n + i];
      }
    }
  }

  /**
   * The makers traded with, as `registry` records them: each with its fill
   * from its trade, Filled exactly when the trade used it up, and then no
   * order with its id is left in `rest`.
   */
  predicate MakersRecorded(makers: seq<Order>, trades: seq<Trade>, registry: map<int, Order>, rest: seq<Order>)
    requires |trades| <= |makers|
  {
    forall i :: 0 <= i < |trades| ==>
      && makers[i].id in registry
      && registry[makers[i].id] == Execute(makers[i], trades[i].quantity)
      && (registry[makers[i].id].status == Filled <==> trades[i].quantity == Remaining(makers[i]))
      && (trades[i].quantity == Remaining(makers[i]) ==> makers[i].id !in Ids(rest))
  }

  lemma MatchRecordsMakers(side: Side, taker: Order, resting: seq<Order>, registry: map<int, Order>, f: Fill)
    requires Sorted(side, resting) && AllResting(resting) && DistinctIds(resting)
    requires MatchSpec(taker, resting, registry, f)
    ensures MakersRecorded(resting, f.trades, f.registry, f.resting)
  {
    LeftoverSortedResting(side, taker, resting, f.trades);
    forall i | 0 <= i < |f.trades|
      ensures resting[i].id in f.registry && f.registry[resting[i].id] == Execute(resting[i], f.trades[i].quantity)
      ensures Execute(resting[i], f.trades[i].quantity).status == Filled <==> f.trades[i].quantity == Remaining(resting[i])
    {
      RecordTouched(registry, resting, f.trades, i);
      ExecuteSettles(resting[i], f.trades[i].quantity);
    }
    forall i | 0 <= i < |f.trades| && f.trades[i].quantity == Remaining(resting[i])
      ensures resting[i].id !in Ids(f.resting)
    {
      UsedUpLeaves(resting, f.trades, i);
    }
  }

  /** A maker used up by its trade leaves the side: no order with its id is left over. */
  lemma UsedUpLeaves(makers: seq<Order>, trades: seq<Trade>, i: nat)
    requires |trades| <= |makers| && DistinctIds(makers)
    requires i < |trades| && trades[i].quantity == Remaining(makers[i])
    ensures makers[i].id !in Ids(Leftover(makers, trades))
  {
    var n := |trades|;
    var l := Leftover(makers, trades);
    if n > 0 && trades[n - 1].quantity < Remaining(makers[n - 1]) {
      assert i < n - 1;
      forall j | 0 <= j < |l|
        ensures l[j].id != makers[i].id
      {
        if j == 0 {
          assert l[0].id == makers[n - 1].id;
        } else {
          assert l[j] == makers[n - 1 + j];
        }
      }
    } else {
      forall j | 0 <= j < |l|
        ensures l[j].id != makers[i].id
      {
        assert l[j] == makers[n + j];
      }
    }
  }

  /** Every maker beyond those traded with is still on the side. */
  lemma LeftoverHoldsUntouched(makers: seq<Order>, trades: seq<Trade>)
    requires |trades| <= |makers|
    ensures forall j :: |trades| <= j < |makers| ==> makers[j] in Leftover(makers, trades)
  {
    var n := |trades|;
    var l := Leftover(makers, trades);
    if n > 0 && trades[n - 1].quantity < Remaining(makers[n - 1]) {
      forall j | n <= j < |makers|
        ensures makers[j] in l
      {
        assert l[j - n + 1] == makers[j];
      }
    } else {
      forall j | n <= j < |makers|
        ensures makers[j] in l
      {
        assert l[j - n] == makers[j];
      }
    }
  }

  /** The side left over is still in matching order and every order on it still rests. */
  lemma LeftoverSortedResting(side: Side, taker: Order, makers: seq<Order>, trades: seq<Trade>)
    requires |trades| <= |makers|
    requires Sorted(side, makers) && AllResting(makers)
    requires TradesFollowQueue(taker, makers, trades)
    ensures Sorted(side, Leftover(makers, trades))
    ensures AllResting(Leftover(makers, trades))
  {
    var n := |trades|;
    var l := Leftover(makers, trades);
    if n > 0 && trades[n - 1].quantity < Remaining(makers[n - 1]) {
      var head := Execute(makers[n - 1], trades[n - 1].quantity);
      ExecuteSettles(makers[n - 1], trades[n - 1].quantity);
      forall i, j | 0 <= i < j < |l|
        ensures Before(side, l[i], l[j])
      {
        assert l[j] == makers[n - 1 + j];
        if i > 0 {
          assert l[i] == makers[n - 1 + i];
        }
      }
      forall i | 0 <= i < |l|
        ensures Resting(l[i])
      {
        if i > 0 {
          assert l[i] == makers[n - 1 + i];
        }
      }
    } else {
      forall i, j | 0 <= i < j < |l|
        ensures Before(side, l[i], l[j])
      {
        assert l[i] == makers[n + i] && l[j] == makers[n + j];
      }
    }
  }

  lemma SumToPositive(ts: seq<Trade>, i: nat, j: nat)
    requires i <= j <= |ts|
    requires forall k :: 0 <= k < |ts| ==> 0 < ts[k].quantity
    ensures SumTo(ts, i) <= SumTo(ts, j)
    ensures i < j ==> SumTo(ts, i) < SumTo(ts, j)
    decreases j - i
  {
    if i < j {
      SumToPositive(ts, i, j - 1);
    }
  }

  /**
   * The size of every trade is the smaller of what the taker still wanted
   * when it was made and what its maker still offered.
   */
  lemma TradeQuantityIsMin(taker: Order, resting: seq<Order>, registry: map<int, Order>, f: Fill, i: nat)
    requires MatchSpec(taker, resting, registry, f)
    requires i < |f.trades|
    ensures f.trades[i].quantity == Min(Remaining(taker) - SumTo(f.trades, i), Remaining(resting[i]))
  {
    var n := |f.trades|;
    SumToPositive(f.trades, i + 1, n);
    assert SumTo(f.trades, i + 1) == SumTo(f.trades, i) + f.trades[i].quantity;
    if i == n - 1 && f.trades[i].quantity < Remaining(resting[i]) {
      assert f.resting == [Execute(resting[n - 1], f.trades[n - 1].quantity)] + resting[n..];
      assert f.taker.filled == taker.quantity;
    }
  }

  /**
   * Every trade is for the smaller of what the taker, wanting `wanted`,
   * still wanted when it was made and what its maker still offered.
   */
  predicate SizedAsMin(wanted: int, makers: seq<Order>, trades: seq<Trade>)
    requires |trades| <= |makers|
  {
    forall i :: 0 <= i < |trades| ==> trades[i].quantity == Min(wanted - SumTo(trades, i), Remaining(makers[i]))
  }

  lemma TradeSizes(taker: Order, resting: seq<Order>, registry: map<int, Order>, f: Fill)
    requires MatchSpec(taker, resting, registry, f)
    ensures |f.trades| <= |resting| && SizedAsMin(Remaining(taker), resting, f.trades)
  {
    forall i | 0 <= i < |f.trades|
      ensures f.trades[i].quantity == Min(Remaining(taker) - SumTo(f.trades, i), Remaining(resting[i]))
    {
      TradeQuantityIsMin(taker, resting, registry, f, i);
    }
  }
}
