/**
 * The source's heap entries as written: each side is a `heapq` list of
 * `(key, order)` pairs, the key being the price (asks) or the negated price
 * (bids). `heapq` orders entries with Python's `<` on tuples, which compares
 * the keys and, when they are equal, the order objects themselves. Order
 * objects define no ordering, so that second comparison raises `TypeError`
 * unless both entries hold the very same object.
 *
 * This module models `heappush` on such entries. A push raises when the path
 * from the new entry towards the root meets a different order with the same
 * key; an equal key elsewhere in the heap is never compared with. The same
 * comparison is made by `heappop` and `heapify`, which are not modelled here.
 * The rest of the model uses the explicit price-then-arrival order of
 * `Queues.Before` instead.
 */
module HeapEntries {
  import opened Orders

  /** A heap entry; `order.sequence` stands for the identity of the order object. */
  datatype Entry = Entry(key: int, order: Order)

  /** The outcome of Python's `a < b`: a truth value, or a raised `TypeError`. */
  datatype Comparison = Less(holds: bool) | TypeError

  /**
   * The outcome of a heap operation: it finished, or it raised an exception.
   * Either way `heap` is the list as the operation leaves it, since `heapq`
   * works in place and an exception does not undo what was already done.
   */
  datatype Outcome = Done(heap: seq<Entry>) | Raised(heap: seq<Entry>)

  function SameObject(a: Order, b: Order): (r: bool)
  {
    a.sequence == b.sequence
  }

  /**
   * Python's `<` on two-element tuples: the first differing position decides;
   * equal keys move on to the order objects, which can only be found equal
   * (the same object) and are otherwise incomparable.
   */
  function TupleLess(a: Entry, b: Entry): (c: Comparison)
    ensures c == TypeError <==> a.key == b.key && !SameObject(a.order, b.order)
    ensures c.Less? ==> (c.holds <==> a.key < b.key)
  {
    if a.key != b.key then Less(a.key < b.key)
    else if SameObject(a.order, b.order) then Less(false)
    else TypeError
  }

  /**
   * `heapq._siftdown` with start position 0: move `item`, which sits in the
   * hole at `pos`, towards the root past every parent it is less than. Each
   * step swaps `item` with its parent, as CPython's C implementation of
   * `heapq` does, so when a comparison raises the list holds `item` at `pos`
   * and every parent already passed one level lower.
   */
  function SiftDown(heap: seq<Entry>, pos: nat, item: Entry): (r: Outcome)
    requires pos < |heap|
    ensures |r.heap| == |heap|
    decreases pos
  {
    if pos == 0 then Done(heap[0 := item])
    else
      var parentPos := (pos - 1) / 2;
      var parent := heap[parentPos];
      match TupleLess(item, parent)
      case TypeError => Raised(heap[pos := item])
      case Less(true) => SiftDown(heap[pos := parent], parentPos, item)
      case Less(false) => Done(heap[pos := item])
  }

  /**
   * `heapq.heappush`: append, then sift the new entry towards the root. The
   * append comes first, so a push that raises still leaves the entry in the
   * list (`HeapPushKeepsEntries`).
   */
  function HeapPush(heap: seq<Entry>, item: Entry): (r: Outcome)
    ensures |r.heap| == |heap| + 1
  {
    SiftDown(heap + [item], |heap|, item)
  }

  /**
   * A push only raises when the new entry meets an entry with the same key
   * holding a different order object.
   */
  lemma {:induction false} SiftDownRaisesOnlyOnTies(heap: seq<Entry>, pos: nat, item: Entry)
    requires pos < |heap|
    decreases pos
    ensures SiftDown(heap, pos, item).Raised? ==>
              exists i :: 0 <= i < |heap| && i != pos && heap[i].key == item.key && !SameObject(heap[i].order, item.order)
  {
    if pos > 0 {
      var parentPos := (pos - 1) / 2;
      var parent := heap[parentPos];
      if TupleLess(item, parent) == Less(true) {
        var heap' := heap[pos := parent];
        SiftDownRaisesOnlyOnTies(heap', parentPos, item);
        if SiftDown(heap, pos, item).Raised? {
          var i :| 0 <= i < |heap'| && i != parentPos && heap'[i].key == item.key && !SameObject(heap'[i].order, item.order);
          assert heap'[pos].key == parent.key != item.key;
          assert heap[i] == heap'[i];
        }
      }
    }
  }

  /**
   * Sifting only moves entries around: whether it finishes or raises, the
   * list holds the entries it started with, `item` filling the hole at `pos`.
   */
  lemma {:induction false} SiftDownPermutes(heap: seq<Entry>, pos: nat, item: Entry)
    requires pos < |heap|
    decreases pos
    ensures multiset(SiftDown(heap, pos, item).heap) == multiset(heap[pos := item])
  {
    if pos > 0 {
      var parentPos := (pos - 1) / 2;
      var parent := heap[parentPos];
      if TupleLess(item, parent) == Less(true) {
        var heap' := heap[pos := parent];
        SiftDownPermutes(heap', parentPos, item);
        assert heap'[parentPos := item] == heap[pos := item][parentPos := parent][pos := parent][parentPos := item];
        SwapPermutes(heap[pos := item], parentPos, pos);
      }
    }
  }

  /** Exchanging two positions of a list keeps its multiset of entries. */
  lemma SwapPermutes(s: seq<Entry>, i: nat, j: nat)
    requires i < j < |s|
    ensures multiset(s[i := s[j]][j := s[i]]) == multiset(s)
  {
  }

  /**
   * A push, whether it finishes or raises, leaves the old entries and the new
   * one in the list, each exactly once.
   */
  lemma HeapPushKeepsEntries(heap: seq<Entry>, item: Entry)
    ensures multiset(HeapPush(heap, item).heap) == multiset(heap) + multiset{item}
  {
    var h := heap + [item];
    SiftDownPermutes(h, |heap|, item);
    assert h[|heap| := item] == h;
  }

  /** So pushing onto a side whose prices all differ from the new one never raises. */
  lemma PushWithoutTiesSucceeds(heap: seq<Entry>, item: Entry)
    requires forall i :: 0 <= i < |heap| ==> heap[i].key != item.key
    ensures HeapPush(heap, item).Done?
  {
    var h := heap + [item];
    SiftDownRaisesOnlyOnTies(h, |heap|, item);
    assert forall i :: 0 <= i < |heap| ==> h[i] == heap[i];
  }

  /**
   * The new entry is first compared with its parent: if that parent holds a
   * different order with the same key, the push raises.
   */
  lemma PushUnderTiedParentRaises(heap: seq<Entry>, item: Entry)
    requires |heap| > 0
    requires heap[(|heap| - 1) / 2].key == item.key
    requires !SameObject(heap[(|heap| - 1) / 2].order, item.order)
    ensures HeapPush(heap, item).Raised?
  {
    var h := heap + [item];
    assert h[(|heap| - 1) / 2] == heap[(|heap| - 1) / 2];
  }

  /** An equal key off the new entry's path to the root is never compared with. */
  lemma PushPastTieOffPath(a: Order, b: Order, c: Order)
    requires !SameObject(b, c)
    ensures HeapPush([Entry(99, a), Entry(100, b)], Entry(100, c)).Done?
  {
    assert [Entry(99, a), Entry(100, b)] + [Entry(100, c)] == [Entry(99, a), Entry(100, b), Entry(100, c)];
  }

  /**
   * The discrepancy: with one order resting on a side, pushing a second,
   * different order at the same price raises `TypeError`, after the new entry
   * was appended. In `add_order` this is the push of an incoming order that
   * rests: the order is left on its side, while the status and registry
   * writes after the push never happen.
   */
  lemma PushTiedPriceRaises(resting: Order, incoming: Order, key: int)
    requires !SameObject(resting, incoming)
    ensures HeapPush([Entry(key, resting)], Entry(key, incoming)) == Raised([Entry(key, resting), Entry(key, incoming)])
  {
    assert [Entry(key, resting)] + [Entry(key, incoming)] == [Entry(key, resting), Entry(key, incoming)];
  }
}
