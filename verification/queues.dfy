/**
 * The two resting-order queues. The source keeps each side in a binary heap
 * keyed by price alone; here each side is a sequence kept in matching order:
 * best price first and, at equal price, earliest arrival first.
 */
module Queues {
  import opened Orders

  /** Price-time priority on `side`: `a` is matched before `b`. */
  predicate Before(side: Side, a: Order, b: Order)
  {
    if a.price == b.price then a.sequence < b.sequence
    else if side == Buy then a.price > b.price
    else a.price < b.price
  }

  /** A queue in strict matching order. */
  predicate Sorted(side: Side, q: seq<Order>)
  {
    forall i, j :: 0 <= i < j < |q| ==> Before(side, q[i], q[j])
  }

  /** `o` arrived after every order in `q`. */
  predicate ArrivedLast(q: seq<Order>, o: Order)
  {
    forall i :: 0 <= i < |q| ==> q[i].sequence < o.sequence
  }

  function Ids(q: seq<Order>): (r: set<int>)
  {
    set i | 0 <= i < |q| :: q[i].id
  }

  predicate DistinctIds(q: seq<Order>)
  {
    forall i, j :: 0 <= i < j < |q| ==> q[i].id != q[j].id
  }

  lemma SortedTail(side: Side, q: seq<Order>)
    requires Sorted(side, q) && |q| > 0
    ensures Sorted(side, q[1..])
  {
  }

  lemma {:induction false} SortedCons(side: Side, x: Order, q: seq<Order>)
    requires Sorted(side, q)
    requires forall y :: y in q ==> Before(side, x, y)
    ensures Sorted(side, [x] + q)
  {
    var r := [x] + q;
    forall i, j | 0 <= i < j < |r|
      ensures Before(side, r[i], r[j])
    {
      if i == 0 {
        assert r[j] == q[j - 1];
        assert r[j] in q;
      } else {
        assert r[i] == q[i - 1] && r[j] == q[j - 1];
      }
    }
  }

  /**
   * Where `o` goes: in front of the first queued order that `o` has priority
   * over.
   */
  function InsertionPoint(side: Side, q: seq<Order>, o: Order): (k: nat)
    ensures k <= |q|
    ensures forall i :: 0 <= i < k ==> !Before(side, o, q[i])
    ensures k < |q| ==> Before(side, o, q[k])
  {
    if q == [] || Before(side, o, q[0]) then 0
    else 1 + InsertionPoint(side, q[1..], o)
  }

  /**
   * Push an order onto a side: in front of the first queued order it has
   * priority over.
   */
  function Insert(side: Side, q: seq<Order>, o: Order): (r: seq<Order>)
    ensures |r| == |q| + 1
    ensures forall x :: x in r <==> x in q || x == o
  {
    var k := InsertionPoint(side, q, o);
    SpliceContents(q, o, k);
    q[..k] + [o] + q[k..]
  }

  /**
   * An order arriving after everything queued keeps the side in matching
   * order and is placed behind every order of equal price, so at equal price
   * the queue is first-in first-out.
   */
  lemma InsertKeepsOrder(side: Side, q: seq<Order>, o: Order)
    requires Sorted(side, q) && ArrivedLast(q, o)
    ensures Sorted(side, Insert(side, q, o))
    ensures var r := Insert(side, q, o);
      forall i :: 0 <= i < |r| && r[i] != o && r[i].price == o.price ==> Before(side, r[i], o)
  {
    InsertSorted(side, q, o, InsertionPoint(side, q, o));
  }

  /** Insertion adds exactly the one order: the new queue is a permutation of the old one plus `o`. */
  lemma InsertPermutes(side: Side, q: seq<Order>, o: Order)
    ensures multiset(Insert(side, q, o)) == multiset(q) + multiset{o}
  {
    SpliceContents(q, o, InsertionPoint(side, q, o));
  }

  lemma SpliceContents(q: seq<Order>, o: Order, k: nat)
    requires k <= |q|
    ensures multiset(q[..k] + [o] + q[k..]) == multiset(q) + multiset{o}
    ensures forall x :: x in q[..k] + [o] + q[k..] <==> x in q || x == o
  {
    assert q == q[..k] + q[k..];
    assert multiset(q) == multiset(q[..k]) + multiset(q[k..]);
    forall x
      ensures x in q[..k] + [o] + q[k..] <==> x in q || x == o
    {
      assert x in multiset(q[..k] + [o] + q[k..]) <==> x in multiset(q) + multiset{o};
    }
  }

  lemma {:induction false} InsertSorted(side: Side, q: seq<Order>, o: Order, k: nat)
    requires Sorted(side, q) && ArrivedLast(q, o)
    requires k == InsertionPoint(side, q, o)
    ensures Sorted(side, q[..k] + [o] + q[k..])
    ensures forall i :: 0 <= i < k ==> Before(side, q[i], o)
    ensures forall i :: k <= i < |q| ==> Before(side, o, q[i])
    ensures var r := q[..k] + [o] + q[k..];
              forall i :: 0 <= i < |r| && r[i] != o && r[i].price == o.price ==> Before(side, r[i], o)
  {
    var r := q[..k] + [o] + q[k..];
    forall i | 0 <= i < k
      ensures Before(side, q[i], o)
    {
      assert !Before(side, o, q[i]);
    }
    forall i | k <= i < |q|
      ensures Before(side, o, q[i])
    {
      if i > k {
        assert Before(side, q[k], q[i]);
      }
    }
    forall i, j | 0 <= i < j < |r|
      ensures Before(side, r[i], r[j])
    {
      if j < k {
        assert r[i] == q[i] && r[j] == q[j];
      } else if j == k {
        assert r[i] == q[i];
      } else if i < k {
        assert r[i] == q[i] && r[j] == q[j - 1];
        assert Before(side, q[i], q[j - 1]);
      } else if i == k {
        assert r[j] == q[j - 1];
      } else {
        assert r[i] == q[i - 1] && r[j] == q[j - 1];
      }
    }
  }

  /**
   * Cancellation's filter: the queue without any order carrying `id`, the
   * others kept in their order.
   */
  function RemoveId(q: seq<Order>, id: int): (r: seq<Order>)
    ensures |r| <= |q|
    ensures forall x :: x in r <==> x in q && x.id != id
    ensures id !in Ids(q) ==> r == q
  {
    if q == [] then []
    else if q[0].id == id then RemoveId(q[1..], id)
    else [q[0]] + RemoveId(q[1..], id)
  }

  /** Removing orders keeps the rest in matching order. */
  lemma {:induction false} RemoveIdKeepsOrder(side: Side, q: seq<Order>, id: int)
    requires Sorted(side, q)
    ensures Sorted(side, RemoveId(q, id))
  {
    if q != [] {
      SortedTail(side, q);
      RemoveIdKeepsOrder(side, q[1..], id);
      if q[0].id != id {
        forall y | y in RemoveId(q[1..], id)
          ensures Before(side, q[0], y)
        {
          var j :| 0 <= j < |q[1..]| && q[1..][j] == y;
          assert q[j + 1] == y;
        }
        SortedCons(side, q[0], RemoveId(q[1..], id));
      }
    }
  }

  /** With distinct ids, cancelling a queued id removes exactly one order. */
  lemma {:induction false} RemoveIdRemovesOne(q: seq<Order>, id: int)
    requires DistinctIds(q)
    requires id in Ids(q)
    ensures |RemoveId(q, id)| == |q| - 1
  {
    if q[0].id == id {
      forall j | 0 <= j < |q[1..]|
        ensures q[1..][j].id != id
      {
        assert q[1..][j] == q[j + 1];
      }
      assert id !in Ids(q[1..]);
    } else {
      var j :| 0 <= j < |q| && q[j].id == id;
      assert q[1..][j - 1].id == id;
      assert id in Ids(q[1..]);
      RemoveIdRemovesOne(q[1..], id);
    }
  }
}
