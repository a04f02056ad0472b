/** The aggregate levels of a book against its order table.

    Nothing in the Python book ties `bids`/`asks` to `msgs`: each mutation
    adjusts both independently, using the sizes and prices the report
    carries. This module states when the two agree -- every level holds the
    total resting size of the orders at its price and side, and no level or
    order is empty -- and proves that snapshot construction establishes
    that agreement and that every mutation keeps it, provided the report is
    coherent with the order it names. On such a book a level can never go
    negative and cancel-and-replace never misses its level: the only
    failures left are an unknown mid and an overfill. */
module Depth {
  import opened Wrappers
  import opened Messages
  import opened OrderBook
  import opened Extremes
  import Feed
  import ActionLog

  /** What one order adds to the level `price` of side `isAsk`. */
  function Contribution(o: Order, isAsk: bool, price: int): int {
    if o.isAsk == isAsk && o.price == price then o.size else 0
  }

  /** A non-empty order table has a key. */
  lemma OrdersInhabited(orders: map<Mid, Order>)
    requires |orders| > 0
    ensures exists k :: k in orders
  {
    if forall k :: k !in orders {
      assert false;
    }
  }

  /** Some key of a non-empty order table. */
  ghost function Pick(orders: map<Mid, Order>): (k: Mid)
    requires |orders| > 0
    ensures k in orders
  {
    OrdersInhabited(orders);
    var k :| k in orders;
    k
  }

  lemma RemoveSize(orders: map<Mid, Order>, k: Mid)
    requires k in orders
    ensures |orders - {k}| == |orders| - 1
  {
    assert (orders - {k}).Keys == orders.Keys - {k};
  }

  /** Total resting size of the orders on side `isAsk` at `price`. */
  ghost function Resting(orders: map<Mid, Order>, isAsk: bool, price: int): int
    decreases |orders|
  {
    if |orders| == 0 then 0
    else
      var k := Pick(orders);
      RemoveSize(orders, k);
      Contribution(orders[k], isAsk, price) + Resting(orders - {k}, isAsk, price)
  }

  /** The sum does not depend on which order is taken out first. */
  lemma {:induction false} RestingRemove(orders: map<Mid, Order>, k: Mid, isAsk: bool, price: int)
    requires k in orders
    ensures Resting(orders, isAsk, price) == Contribution(orders[k], isAsk, price) + Resting(orders - {k}, isAsk, price)
    decreases |orders|
  {
    var j := Pick(orders);
    if j != k {
      RemoveSize(orders, j);
      RemoveSize(orders, k);
      RestingRemove(orders - {j}, k, isAsk, price);
      RestingRemove(orders - {k}, j, isAsk, price);
      assert orders - {j} - {k} == orders - {k} - {j};
    }
  }

  /** Replacing one order moves the sum by the difference of contributions. */
  lemma RestingReplace(orders: map<Mid, Order>, k: Mid, o: Order, isAsk: bool, price: int)
    requires k in orders
    ensures Resting(orders[k := o], isAsk, price) ==
      Resting(orders, isAsk, price) - Contribution(orders[k], isAsk, price) + Contribution(o, isAsk, price)
  {
    RestingRemove(orders[k := o], k, isAsk, price);
    RestingRemove(orders, k, isAsk, price);
    assert orders[k := o] - {k} == orders - {k};
  }

  /** Inserting a new order adds its contribution. */
  lemma RestingInsert(orders: map<Mid, Order>, k: Mid, o: Order, isAsk: bool, price: int)
    requires k !in orders
    ensures Resting(orders[k := o], isAsk, price) == Resting(orders, isAsk, price) + Contribution(o, isAsk, price)
  {
    RestingRemove(orders[k := o], k, isAsk, price);
    assert orders[k := o] - {k} == orders;
  }

  predicate PositiveOrders(orders: map<Mid, Order>) {
    forall k :: k in orders ==> orders[k].size > 0
  }

  /** With positive sizes, the sum is at least the size of any order it counts. */
  lemma {:induction false} RestingBounds(orders: map<Mid, Order>, isAsk: bool, price: int)
    requires PositiveOrders(orders)
    ensures Resting(orders, isAsk, price) >= 0
    ensures forall k :: k in orders ==> Resting(orders, isAsk, price) >= Contribution(orders[k], isAsk, price)
    decreases |orders|
  {
    if |orders| > 0 {
      var j := Pick(orders);
      RemoveSize(orders, j);
      RestingBounds(orders - {j}, isAsk, price);
      forall k | k in orders
        ensures Resting(orders, isAsk, price) >= Contribution(orders[k], isAsk, price)
      {
        if k != j {
          assert k in orders - {j};
        }
      }
    }
  }

  /** The book's levels agree with its orders: every level is the total
      resting size at its price and side, and nothing empty is stored. */
  ghost predicate Consistent(b: Book) {
    && PositiveOrders(b.orders)
    && (forall isAsk: bool, p: int :: p in Side(b, isAsk) ==> Side(b, isAsk)[p] > 0)
    && (forall isAsk: bool, p: int :: LevelOf(Side(b, isAsk), p) == Resting(b.orders, isAsk, p))
  }

  /** A report is coherent with the book when the fields the mutation reads
      describe the order it names: an insert adds a positive size at the
      order's own price and side (and a new order's record states that same
      size), a fill of a known order is at its price and side, a replace is
      to a positive size on the order's side. */
  ghost predicate Matches(b: Book, m: ActionReport) {
    if m.statusType == StatusInsert then
      && m.insertedSize > 0
      && (m.mid in b.orders ==> b.orders[m.mid].price == m.insertedPrice && b.orders[m.mid].isAsk == m.isAsk)
      && (m.mid !in b.orders ==> m.price == m.insertedPrice && m.size == m.insertedSize)
    else if m.statusType == StatusFill then
      m.mid in b.orders ==> b.orders[m.mid].price == m.filledPrice && b.orders[m.mid].isAsk == m.isAsk
    else if m.statusType == StatusCancelReplace then
      m.insertedSize > 0 && (m.mid in b.orders ==> b.orders[m.mid].isAsk == m.isAsk)
    else true
  }

  /** `orders'` holds `delta` more at `price` on side `isAsk` than `orders`,
      and the same everywhere else. */
  ghost predicate Shifted(orders: map<Mid, Order>, orders': map<Mid, Order>, isAsk: bool, price: int, delta: int) {
    forall s: bool, q: int ::
      Resting(orders', s, q) == Resting(orders, s, q) + (if s == isAsk && q == price then delta else 0)
  }

  lemma ResizeShifts(orders: map<Mid, Order>, k: Mid, size: int)
    requires k in orders
    ensures Shifted(orders, orders[k := orders[k].(size := size)], orders[k].isAsk, orders[k].price, size - orders[k].size)
  {
    forall s: bool, q: int {
      RestingReplace(orders, k, orders[k].(size := size), s, q);
    }
  }

  lemma InsertShifts(orders: map<Mid, Order>, k: Mid, o: Order)
    requires k !in orders
    ensures Shifted(orders, orders[k := o], o.isAsk, o.price, o.size)
  {
    forall s: bool, q: int {
      RestingInsert(orders, k, o, s, q);
    }
  }

  lemma RemoveShifts(orders: map<Mid, Order>, k: Mid)
    requires k in orders
    ensures Shifted(orders, orders - {k}, orders[k].isAsk, orders[k].price, -orders[k].size)
  {
    forall s: bool, q: int {
      RestingRemove(orders, k, s, q);
    }
  }

  /** Two tables that agree away from `k` and at `k` are equal. */
  lemma AgreeAt(a: map<Mid, Order>, c: map<Mid, Order>, k: Mid)
    requires a - {k} == c - {k}
    requires k in a <==> k in c
    requires k in a ==> a[k] == c[k]
    ensures a == c
  {
    forall j | j in a || j in c
      ensures j in a && j in c && a[j] == c[j]
    {
      if j != k {
        assert j in a - {k} <==> j in c - {k};
        if j in a {
          assert (a - {k})[j] == (c - {k})[j];
        }
      }
    }
  }

  /** The step every mutation shares: `b'` moves one level of `b` by `delta`,
      the orders' sums move by the same amount at that level and nowhere
      else, and the level is dropped if and only if it reaches zero. */
  lemma Settle(b: Book, b': Book, isAsk: bool, price: int, delta: int)
    requires Consistent(b)
    requires PositiveOrders(b'.orders)
    requires OnlyLevelChanged(b, b', isAsk, price)
    requires Shifted(b.orders, b'.orders, isAsk, price, delta)
    requires LevelOf(Side(b', isAsk), price) == LevelOf(Side(b, isAsk), price) + delta
    requires price in Side(b', isAsk) ==> Side(b', isAsk)[price] != 0
    ensures Consistent(b')
  {
    RestingBounds(b'.orders, isAsk, price);
    forall s: bool, q: int
      ensures LevelOf(Side(b', s), q) == Resting(b'.orders, s, q)
      ensures q in Side(b', s) ==> Side(b', s)[q] > 0
    {
      if s == isAsk && q != price {
        assert q in Side(b', s) <==> q in Side(b', s) - {price};
        assert q in Side(b, s) <==> q in Side(b, s) - {price};
        if q in Side(b', s) {
          assert Side(b', s)[q] == (Side(b', s) - {price})[q];
          assert Side(b, s)[q] == (Side(b, s) - {price})[q];
        }
      }
    }
  }

  /** Changing only the clock keeps a book consistent. */
  lemma Reclocked(b: Book, clock: int)
    requires Consistent(b)
    ensures Consistent(b.(clock := clock))
  {
    assert forall s: bool :: Side(b.(clock := clock), s) == Side(b, s);
  }

  // ---------------------------------------------------------------------
  // Each mutation keeps the book consistent
  // ---------------------------------------------------------------------

  lemma AddOrderConsistent(b: Book, m: ActionReport)
    requires Consistent(b) && m.statusType == StatusInsert && Matches(b, m)
    ensures AddOrder(b, m).Success?
    ensures Consistent(AddOrder(b, m).value)
  {
    var levels := Side(b, m.isAsk);
    if m.insertedPrice in levels {
      assert levels[m.insertedPrice] > 0;
    }
    var r := AddOrder(b, m).value;
    if m.mid in b.orders {
      var size := b.orders[m.mid].size + m.insertedSize;
      AgreeAt(r.orders, b.orders[m.mid := b.orders[m.mid].(size := size)], m.mid);
      ResizeShifts(b.orders, m.mid, size);
    } else {
      AgreeAt(r.orders, b.orders[m.mid := Order(m.price, m.size, m.isAsk)], m.mid);
      InsertShifts(b.orders, m.mid, Order(m.price, m.size, m.isAsk));
    }
    RestingBounds(b.orders, m.isAsk, m.insertedPrice);
    Settle(b, r, m.isAsk, m.insertedPrice, m.insertedSize);
  }

  lemma FillOrderConsistent(b: Book, m: ActionReport)
    requires Consistent(b) && m.statusType == StatusFill && Matches(b, m)
    ensures FillOrder(b, m).Success? || FillOrder(b, m) == Failure(Overfill)
    ensures FillOrder(b, m).Success? ==> Consistent(FillOrder(b, m).value)
  {
    if m.mid in b.orders && b.orders[m.mid].size >= m.filledSize {
      var o := b.orders[m.mid];
      var rest := o.size - m.filledSize;
      RestingBounds(b.orders, m.isAsk, m.filledPrice);
      assert FillOrder(b, m).Success?;
      var r := FillOrder(b, m).value;
      if rest == 0 {
        AgreeAt(r.orders, b.orders - {m.mid}, m.mid);
        RemoveShifts(b.orders, m.mid);
      } else {
        AgreeAt(r.orders, b.orders[m.mid := o.(size := rest)], m.mid);
        ResizeShifts(b.orders, m.mid, rest);
      }
      Settle(b, r, m.isAsk, m.filledPrice, -m.filledSize);
    }
  }

  lemma CancelOrderConsistent(b: Book, m: ActionReport)
    requires Consistent(b)
    ensures CancelOrder(b, m).Success? <==> m.mid in b.orders
    ensures CancelOrder(b, m).Success? ==> Consistent(CancelOrder(b, m).value)
  {
    if m.mid in b.orders {
      var o := b.orders[m.mid];
      RestingBounds(b.orders, o.isAsk, o.price);
      RemoveShifts(b.orders, m.mid);
      assert CancelOrder(b, m).Success?;
      Settle(b, CancelOrder(b, m).value, o.isAsk, o.price, -o.size);
    }
  }

  lemma CancelAndReplaceConsistent(b: Book, m: ActionReport)
    requires Consistent(b) && m.statusType == StatusCancelReplace && Matches(b, m)
    ensures CancelAndReplace(b, m).Success? <==> m.mid in b.orders
    ensures CancelAndReplace(b, m).Success? ==> Consistent(CancelAndReplace(b, m).value)
  {
    if m.mid in b.orders {
      var o := b.orders[m.mid];
      RestingBounds(b.orders, o.isAsk, o.price);
      assert o.price in Side(b, m.isAsk);
      ResizeShifts(b.orders, m.mid, m.insertedSize);
      var r := CancelAndReplace(b, m).value;
      RestingBounds(r.orders, o.isAsk, o.price);
      Settle(b, r, m.isAsk, o.price, m.insertedSize - o.size);
    }
  }

  // ---------------------------------------------------------------------
  // The snapshot establishes consistency
  // ---------------------------------------------------------------------

  /** No two snapshot entries name the same order. */
  predicate DistinctMids(es: seq<Entry>) {
    forall i, j :: 0 <= i < j < |es| ==> es[i].mid != es[j].mid
  }

  lemma LoadEntryConsistent(b: Book, e: Entry)
    requires Consistent(b) && e.size > 0 && e.mid !in b.orders
    ensures Consistent(LoadEntry(b, e))
  {
    InsertShifts(b.orders, e.mid, OrderOf(e));
    RestingBounds(b.orders, e.isAsk, e.price);
    Settle(b, LoadEntry(b, e), e.isAsk, e.price, e.size);
  }

  lemma {:induction false} LoadConsistent(b: Book, es: seq<Entry>)
    requires Consistent(b)
    requires DistinctMids(es)
    requires forall i :: 0 <= i < |es| ==> es[i].size > 0 && es[i].mid !in b.orders
    ensures Consistent(Load(b, es))
  {
    if es != [] {
      var front := es[..|es| - 1];
      var e := es[|es| - 1];
      assert DistinctMids(front);
      assert forall i :: 0 <= i < |front| ==> front[i] == es[i];
      LoadConsistent(b, front);
      var prev := Load(b, front);
      assert e.mid !in prev.orders;
      assert Load(b, es) == LoadEntry(prev, e);
      LoadEntryConsistent(prev, e);
    }
  }

  /** A snapshot in which every order appears once with a positive size
      builds a consistent book. */
  lemma InitConsistent(clock: int, es: seq<Entry>)
    requires DistinctMids(es)
    requires forall i :: 0 <= i < |es| ==> es[i].size > 0
    ensures Consistent(Init(clock, es))
  {
    var empty := Book(clock, map[], map[], map[]);
    assert forall s: bool, q: int :: Resting(empty.orders, s, q) == 0;
    LoadConsistent(empty, es);
  }

  /** On a consistent book the best bid and ask are the extreme prices at
      which orders rest, with their total resting size, and an empty side
      has no resting orders at all. */
  lemma QuotesRest(b: Book)
    requires Consistent(b)
    ensures b.bids == map[] ==> forall p :: Resting(b.orders, false, p) == 0
    ensures b.bids != map[] ==>
      && Bid(b).1 == Resting(b.orders, false, Bid(b).0) > 0
      && forall p :: p > Bid(b).0 ==> Resting(b.orders, false, p) == 0
    ensures b.asks == map[] ==> forall p :: Resting(b.orders, true, p) == 0
    ensures b.asks != map[] ==>
      && Ask(b).1 == Resting(b.orders, true, Ask(b).0) > 0
      && forall p :: p < Ask(b).0 ==> Resting(b.orders, true, p) == 0
  {
    assert forall p :: LevelOf(Side(b, false), p) == Resting(b.orders, false, p);
    assert forall p :: LevelOf(Side(b, true), p) == Resting(b.orders, true, p);
  }

  /** On a consistent book the level count is zero exactly when no order
      rests: every order holds up its own level, and every level is the sum
      of the orders at it. */
  lemma LenCountsOrders(b: Book)
    requires Consistent(b)
    ensures Len(b) == 0 <==> b.orders == map[]
  {
    if b.orders == map[] {
      assert Side(b, false) == b.bids && Side(b, true) == b.asks;
      forall p
        ensures p !in b.bids && p !in b.asks
      {
        assert LevelOf(b.bids, p) == Resting(b.orders, false, p) == 0;
        assert LevelOf(b.asks, p) == Resting(b.orders, true, p) == 0;
      }
      assert b.bids.Keys == {} && b.asks.Keys == {};
    } else {
      var k := Pick(b.orders);
      var o := b.orders[k];
      RestingBounds(b.orders, o.isAsk, o.price);
      assert LevelOf(Side(b, o.isAsk), o.price) > 0;
    }
  }

  /** Filling the whole resting size of the only order at a level removes
      the order and the level. */
  lemma FillClearsLevel(b: Book, m: ActionReport)
    requires Consistent(b) && m.statusType == StatusFill && Matches(b, m)
    requires m.mid in b.orders && m.filledSize == b.orders[m.mid].size
    requires Resting(b.orders, m.isAsk, m.filledPrice) == m.filledSize
    ensures FillOrder(b, m).Success?
    ensures m.mid !in FillOrder(b, m).value.orders
    ensures m.filledPrice !in Side(FillOrder(b, m).value, m.isAsk)
  {
    assert LevelOf(Side(b, m.isAsk), m.filledPrice) == m.filledSize;
  }

  /** `apply_action_report` on a consistent book and a coherent report keeps
      the book consistent, and can fail only on an unknown mid or an overfill. */
  lemma ApplyConsistent(b: Book, m: ActionReport)
    requires Consistent(b) && Matches(b, m)
    ensures Feed.Apply(b, m).Failure? ==> Feed.Apply(b, m).error in {UnknownOrder, Overfill}
    ensures Feed.Apply(b, m).Success? ==> Consistent(Feed.Apply(b, m).value)
  {
    if m.statusType == StatusInsert {
      AddOrderConsistent(b, m);
    } else if m.statusType == StatusFill {
      FillOrderConsistent(b, m);
    } else if m.statusType == StatusCancel {
      CancelOrderConsistent(b, m);
    } else if m.statusType == StatusCancelReplace {
      CancelAndReplaceConsistent(b, m);
    }
    if Feed.Apply(b, m).Success? {
      var r := Feed.Apply(b, m).value;
      assert r == r.(clock := b.clock).(clock := m.clock);
      Reclocked(r.(clock := b.clock), m.clock);
    }
  }

  // ---------------------------------------------------------------------
  // Runs of reports and the feed
  // ---------------------------------------------------------------------

  /** Each report of `run` is coherent with the book the previous ones leave. */
  ghost predicate MatchingRun(b: Book, run: seq<ActionReport>)
    decreases |run|
  {
    run == [] ||
    (Matches(b, run[0]) &&
     (Feed.Apply(b, run[0]).Success? ==> MatchingRun(Feed.Apply(b, run[0]).value, run[1..])))
  }

  lemma {:induction false} ApplyInOrderConsistent(b: Book, run: seq<ActionReport>)
    requires Consistent(b) && MatchingRun(b, run)
    ensures Feed.ApplyInOrder(b, run).Failure? ==> Feed.ApplyInOrder(b, run).error in {UnknownOrder, Overfill}
    ensures Feed.ApplyInOrder(b, run).Success? ==> Consistent(Feed.ApplyInOrder(b, run).value)
    decreases |run|
  {
    if run != [] {
      ApplyConsistent(b, run[0]);
      if Feed.Apply(b, run[0]).Success? {
        ApplyInOrderConsistent(Feed.Apply(b, run[0]).value, run[1..]);
      }
    }
  }

  ghost predicate BooksConsistent(f: Feed.Feed) {
    forall c :: c in f.books ==> Consistent(f.books[c])
  }

  /** `handle_action_report` without a gap keeps every book consistent when
      a report it applies is coherent with its book; it can then fail only
      on an unknown mid or an overfill. */
  lemma HandleConsistent(f: Feed.Feed, m: ActionReport)
    requires BooksConsistent(f)
    requires m.contractId in f.subscribed && m.contractId in f.books ==>
      && m.clock <= f.books[m.contractId].clock + 1
      && (m.clock == f.books[m.contractId].clock + 1 ==> Matches(f.books[m.contractId], m))
    ensures Feed.Handle(f, m).Failure? ==> Feed.Handle(f, m).error in {UnknownOrder, Overfill}
    ensures Feed.Handle(f, m).Success? ==> BooksConsistent(Feed.Handle(f, m).value)
  {
    var cid := m.contractId;
    if cid in f.subscribed && cid in f.books && m.clock == f.books[cid].clock + 1 {
      Feed.HandleNext(f, m);
      ApplyConsistent(f.books[cid], m);
    }
    if Feed.Handle(f, m).Success? {
      Feed.HandleMonotone(f, m);
    }
  }

  /** Gap repair keeps every book consistent when the missing run is
      coherent, report by report, with the book it reaches. */
  lemma HandleGapConsistent(f: Feed.Feed, m: ActionReport, stale: multiset<ActionReport>, run: seq<ActionReport>)
    requires BooksConsistent(f)
    requires m.contractId in f.subscribed && m.contractId in f.books
    requires m.clock > f.books[m.contractId].clock + 1
    requires multiset(ActionLog.Push(Feed.LogOf(f, m.contractId), m)) == stale + multiset(run)
    requires forall x :: x in stale ==> x.clock <= f.books[m.contractId].clock
    requires forall i :: 0 <= i < |run| ==> run[i].clock == f.books[m.contractId].clock + 1 + i
    requires m.clock == f.books[m.contractId].clock + |run|
    requires MatchingRun(f.books[m.contractId], run)
    ensures Feed.Handle(f, m).Success? ==> BooksConsistent(Feed.Handle(f, m).value)
  {
    Feed.HandleRepairsGap(f, m, stale, run);
    ApplyInOrderConsistent(f.books[m.contractId], run);
    if Feed.Handle(f, m).Success? {
      Feed.HandleMonotone(f, m);
    }
  }
}
