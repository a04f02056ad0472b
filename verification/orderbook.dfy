/** The per-contract limit order book: two price -> aggregate-size maps, the
    table of resting orders and the sequence clock, with snapshot
    construction, best bid/ask and the four mutations of an action report.

    The Python book keys bids by negated price so that its first key is the
    best bid; here both sides are keyed by price and the best bid is the
    greatest bid key, which selects the same level. */
module OrderBook {
  import opened Wrappers
  import opened Messages
  import opened Extremes

  /** The fields of a stored order record that later mutations read. */
  datatype Order = Order(price: int, size: int, isAsk: bool)

  datatype Book = Book(
    clock: int,
    bids: map<int, int>,
    asks: map<int, int>,
    orders: map<Mid, Order>)

  /** What went wrong, one tag per exception the Python code can raise. */
  datatype Error =
    | UnknownOrder      // KeyError: the mid is not in the order table
    | MissingLevel      // KeyError: cancel-and-replace found no level
    | NegativeLevel     // ValueError: a level would go below zero
    | Overfill          // a fill exceeds the resting size
    | GapUnrecoverable  // replay did not reach the target clock
    | UnorderableLog    // TypeError: `sorted` compared two report dicts

  /** How `update_depth` combines the current level with the new size. */
  datatype Op = Plus | Minus

  function Combine(op: Op, current: int, size: int): int {
    match op
    case Plus => current + size
    case Minus => current - size
  }

  function Side(b: Book, isAsk: bool): map<int, int> {
    if isAsk then b.asks else b.bids
  }

  function WithSide(b: Book, isAsk: bool, levels: map<int, int>): (r: Book)
    ensures Side(r, isAsk) == levels && Side(r, !isAsk) == Side(b, !isAsk)
    ensures r.orders == b.orders && r.clock == b.clock
  {
    if isAsk then b.(asks := levels) else b.(bids := levels)
  }

  /** Aggregate size at a price, 0 where there is no level. */
  function LevelOf(levels: map<int, int>, price: int): int {
    if price in levels then levels[price] else 0
  }

  /** `after` differs from `before` at most in the level `price` of side `isAsk`. */
  predicate OnlyLevelChanged(before: Book, after: Book, isAsk: bool, price: int) {
    && Side(after, !isAsk) == Side(before, !isAsk)
    && Side(after, isAsk) - {price} == Side(before, isAsk) - {price}
  }

  // ---------------------------------------------------------------------
  // Snapshot construction
  // ---------------------------------------------------------------------

  function OrderOf(e: Entry): Order {
    Order(e.price, e.size, e.isAsk)
  }

  /** Sum of the sizes of the snapshot entries on side `isAsk` at `price`. */
  function EntryDepth(es: seq<Entry>, isAsk: bool, price: int): int {
    if es == [] then 0
    else
      var e := es[|es| - 1];
      EntryDepth(es[..|es| - 1], isAsk, price) + (if e.isAsk == isAsk && e.price == price then e.size else 0)
  }

  /** Some snapshot entry rests on side `isAsk` at `price`. */
  predicate Quotes(es: seq<Entry>, isAsk: bool, price: int) {
    exists i :: 0 <= i < |es| && es[i].isAsk == isAsk && es[i].price == price
  }

  function Mids(es: seq<Entry>): set<Mid> {
    set i | 0 <= i < |es| :: es[i].mid
  }

  /** No later entry carries the same mid as entry `i`. */
  predicate LastFor(es: seq<Entry>, i: int)
    requires 0 <= i < |es|
  {
    forall j :: i < j < |es| ==> es[j].mid != es[i].mid
  }

  /** One step of `init_book`: record the order (overwriting an earlier
      record with the same mid) and add its size to its level, creating the
      level if absent. Unlike `update_depth`, no zero level is deleted. */
  function LoadEntry(b: Book, e: Entry): (r: Book)
    ensures r.clock == b.clock
    ensures r.orders == b.orders[e.mid := OrderOf(e)]
    ensures OnlyLevelChanged(b, r, e.isAsk, e.price)
    ensures forall isAsk: bool, p: int ::
      p in Side(r, isAsk) <==> p in Side(b, isAsk) || (e.isAsk == isAsk && e.price == p)
    ensures forall isAsk: bool, p: int ::
      LevelOf(Side(r, isAsk), p) == LevelOf(Side(b, isAsk), p) + (if e.isAsk == isAsk && e.price == p then e.size else 0)
  {
    var levels := Side(b, e.isAsk);
    var levels' := if e.price in levels then levels[e.price := levels[e.price] + e.size]
                   else levels[e.price := e.size];
    WithSide(b, e.isAsk, levels').(orders := b.orders[e.mid := OrderOf(e)])
  }

  lemma QuotesSnoc(es: seq<Entry>, isAsk: bool, p: int)
    requires es != []
    ensures Quotes(es, isAsk, p) <==>
      Quotes(es[..|es| - 1], isAsk, p) || (es[|es| - 1].isAsk == isAsk && es[|es| - 1].price == p)
  {
    var front := es[..|es| - 1];
    if Quotes(front, isAsk, p) {
      var i :| 0 <= i < |front| && front[i].isAsk == isAsk && front[i].price == p;
      assert es[i] == front[i];
    }
    if Quotes(es, isAsk, p) && !(es[|es| - 1].isAsk == isAsk && es[|es| - 1].price == p) {
      var i :| 0 <= i < |es| && es[i].isAsk == isAsk && es[i].price == p;
      assert front[i] == es[i];
    }
  }

  lemma MidsSnoc(es: seq<Entry>)
    requires es != []
    ensures Mids(es) == Mids(es[..|es| - 1]) + {es[|es| - 1].mid}
  {
    var front := es[..|es| - 1];
    assert forall i :: 0 <= i < |front| ==> es[i] == front[i];
    forall mid | mid in Mids(es)
      ensures mid in Mids(front) + {es[|es| - 1].mid}
    {
      var i :| 0 <= i < |es| && es[i].mid == mid;
      if i < |front| {
        assert front[i].mid == mid;
      }
    }
  }

  /** `init_book`: loads the entries in order into `b`. */
  function Load(b: Book, es: seq<Entry>): (r: Book)
    ensures r.clock == b.clock
    ensures forall isAsk: bool, p: int ::
      p in Side(r, isAsk) <==> p in Side(b, isAsk) || Quotes(es, isAsk, p)
    ensures forall isAsk: bool, p: int ::
      LevelOf(Side(r, isAsk), p) == LevelOf(Side(b, isAsk), p) + EntryDepth(es, isAsk, p)
    ensures r.orders.Keys == b.orders.Keys + Mids(es)
  {
    if es == [] then b
    else
      var front := es[..|es| - 1];
      var r := LoadEntry(Load(b, front), es[|es| - 1]);
      assert forall isAsk: bool, p: int :: p in Side(r, isAsk) <==> p in Side(b, isAsk) || Quotes(es, isAsk, p) by {
        forall isAsk: bool, p: int {
          QuotesSnoc(es, isAsk, p);
        }
      }
      MidsSnoc(es);
      r
  }

  lemma LastForFront(es: seq<Entry>, i: int)
    requires 0 <= i < |es| - 1 && LastFor(es, i)
    ensures LastFor(es[..|es| - 1], i) && es[..|es| - 1][i] == es[i] && es[|es| - 1].mid != es[i].mid
  {
  }

  /** In the book `init_book` builds, each mid holds the record of its last
      snapshot entry. */
  lemma {:induction false} LoadOrder(b: Book, es: seq<Entry>, i: int)
    requires 0 <= i < |es| && LastFor(es, i)
    ensures es[i].mid in Load(b, es).orders && Load(b, es).orders[es[i].mid] == OrderOf(es[i])
  {
    var front := es[..|es| - 1];
    var e := es[|es| - 1];
    assert Load(b, es).orders == Load(b, front).orders[e.mid := OrderOf(e)];
    if i < |front| {
      LastForFront(es, i);
      LoadOrder(b, front, i);
    }
  }

  /** `OrderBook.__init__`: a book at `clock` built from the snapshot entries. */
  function Init(clock: int, es: seq<Entry>): (r: Book)
    ensures r.clock == clock
    ensures forall isAsk: bool, p: int :: p in Side(r, isAsk) <==> Quotes(es, isAsk, p)
    ensures forall isAsk: bool, p: int :: LevelOf(Side(r, isAsk), p) == EntryDepth(es, isAsk, p)
    ensures r.orders.Keys == Mids(es)
    ensures forall i :: 0 <= i < |es| && LastFor(es, i) ==> r.orders[es[i].mid] == OrderOf(es[i])
  {
    forall i | 0 <= i < |es| && LastFor(es, i)
      ensures Load(Book(clock, map[], map[], map[]), es).orders[es[i].mid] == OrderOf(es[i])
    {
      LoadOrder(Book(clock, map[], map[], map[]), es, i);
    }
    Load(Book(clock, map[], map[], map[]), es)
  }

  // ---------------------------------------------------------------------
  // Queries
  // ---------------------------------------------------------------------

  /** Best bid `(price, size)`: the highest bid level, or `(0, 0)` when there are no bids. */
  function Bid(b: Book): (r: (int, int))
    ensures b.bids == map[] ==> r == (0, 0)
    ensures b.bids != map[] ==>
      && r.0 in b.bids && r.1 == b.bids[r.0]
      && forall p :: p in b.bids ==> p <= r.0
  {
    if |b.bids| == 0 then (0, 0)
    else
      var p := MaxKey(b.bids.Keys);
      (p, b.bids[p])
  }

  /** Best ask `(price, size)`: the lowest ask level, or `(0, 0)` when there are no asks. */
  function Ask(b: Book): (r: (int, int))
    ensures b.asks == map[] ==> r == (0, 0)
    ensures b.asks != map[] ==>
      && r.0 in b.asks && r.1 == b.asks[r.0]
      && forall p :: p in b.asks ==> r.0 <= p
  {
    if |b.asks| == 0 then (0, 0)
    else
      var p := MinKey(b.asks.Keys);
      (p, b.asks[p])
  }

  /** `__len__`: the number of price levels on both sides. */
  function Len(b: Book): (n: nat)
    ensures n == 0 <==> b.bids == map[] && b.asks == map[]
  {
    |b.bids| + |b.asks|
  }

  // ---------------------------------------------------------------------
  // Mutations
  // ---------------------------------------------------------------------

  /** The level rule of `update_depth` on one side's map: an existing level is
      combined with `size`, deleted at exactly 0 and an error below 0; an
      absent level is set to `size` whatever `op` is. */
  function AdjustLevel(levels: map<int, int>, op: Op, price: int, size: int): (r: Result<map<int, int>, Error>)
    ensures r.Success? <==> price !in levels || Combine(op, levels[price], size) >= 0
    ensures r.Failure? ==> r.error == NegativeLevel
    ensures r.Success? ==> r.value - {price} == levels - {price}
    ensures r.Success? ==>
      LevelOf(r.value, price) == (if price in levels then Combine(op, levels[price], size) else size)
    ensures r.Success? ==> (price in r.value <==> price !in levels || Combine(op, levels[price], size) != 0)
  {
    if price in levels then
      var n := Combine(op, levels[price], size);
      if n < 0 then Failure(NegativeLevel)
      else if n == 0 then Success(levels - {price})
      else Success(levels[price := n])
    else
      Success(levels[price := size])
  }

  /** `update_depth`: applies the level rule on the side `isAsk`; orders, the
      clock and the other side are untouched. */
  function UpdateDepth(b: Book, op: Op, isAsk: bool, price: int, size: int): (r: Result<Book, Error>)
    ensures r.Success? <==> price !in Side(b, isAsk) || Combine(op, Side(b, isAsk)[price], size) >= 0
    ensures r.Failure? ==> r.error == NegativeLevel
    ensures r.Success? ==> r.value.orders == b.orders && r.value.clock == b.clock
    ensures r.Success? ==> OnlyLevelChanged(b, r.value, isAsk, price)
    ensures r.Success? ==>
      var old_ := Side(b, isAsk);
      LevelOf(Side(r.value, isAsk), price) == (if price in old_ then Combine(op, old_[price], size) else size)
    ensures r.Success? ==>
      var old_ := Side(b, isAsk);
      (price in Side(r.value, isAsk) <==> price !in old_ || Combine(op, old_[price], size) != 0)
  {
    var levels :- AdjustLevel(Side(b, isAsk), op, price, size);
    Success(WithSide(b, isAsk, levels))
  }

  /** `add_order` (status 200): a new mid is stored from the report's own
      `price`/`size`/`isAsk`; a known mid gains `insertedSize`. The level at
      `insertedPrice` on the report's side grows by `insertedSize`. */
  function AddOrder(b: Book, m: ActionReport): (r: Result<Book, Error>)
    ensures r.Success? <==>
      var levels := Side(b, m.isAsk);
      m.insertedPrice !in levels || levels[m.insertedPrice] + m.insertedSize >= 0
    ensures r.Success? ==> r.value.clock == b.clock
    ensures r.Success? ==> r.value.orders - {m.mid} == b.orders - {m.mid}
    ensures r.Success? ==> m.mid in r.value.orders
    ensures r.Success? && m.mid in b.orders ==>
      r.value.orders[m.mid] == b.orders[m.mid].(size := b.orders[m.mid].size + m.insertedSize)
    ensures r.Success? && m.mid !in b.orders ==>
      r.value.orders[m.mid] == Order(m.price, m.size, m.isAsk)
    ensures r.Success? ==> OnlyLevelChanged(b, r.value, m.isAsk, m.insertedPrice)
    ensures r.Success? ==>
      LevelOf(Side(r.value, m.isAsk), m.insertedPrice) == LevelOf(Side(b, m.isAsk), m.insertedPrice) + m.insertedSize
  {
    var orders := if m.mid in b.orders then
                    b.orders[m.mid := b.orders[m.mid].(size := b.orders[m.mid].size + m.insertedSize)]
                  else b.orders[m.mid := Order(m.price, m.size, m.isAsk)];
    UpdateDepth(b.(orders := orders), Plus, m.isAsk, m.insertedPrice, m.insertedSize)
  }

  /** `fill_order` (status 201). A mid the book does not hold is the other
      side of a trade and changes nothing. Otherwise the resting size drops by
      `filledSize`, the order goes at exactly 0, a fill larger than the
      resting size fails, and the level at `filledPrice` on the report's side
      drops by `filledSize`. */
  function FillOrder(b: Book, m: ActionReport): (r: Result<Book, Error>)
    ensures m.mid !in b.orders ==> r == Success(b)
    ensures m.mid in b.orders && b.orders[m.mid].size < m.filledSize ==> r == Failure(Overfill)
    ensures m.mid in b.orders && b.orders[m.mid].size >= m.filledSize ==>
      (r.Success? <==>
        var levels := Side(b, m.isAsk);
        m.filledPrice !in levels || levels[m.filledPrice] - m.filledSize >= 0)
    ensures r.Success? ==> r.value.clock == b.clock
    ensures r.Success? ==> r.value.orders - {m.mid} == b.orders - {m.mid}
    ensures r.Success? && m.mid in b.orders ==>
      var rest := b.orders[m.mid].size - m.filledSize;
      && (rest == 0 ==> m.mid !in r.value.orders)
      && (rest != 0 ==> m.mid in r.value.orders && r.value.orders[m.mid] == b.orders[m.mid].(size := rest))
    ensures r.Success? && m.mid in b.orders ==>
      var levels := Side(b, m.isAsk);
      && OnlyLevelChanged(b, r.value, m.isAsk, m.filledPrice)
      && LevelOf(Side(r.value, m.isAsk), m.filledPrice) ==
           (if m.filledPrice in levels then levels[m.filledPrice] - m.filledSize else m.filledSize)
      && (m.filledPrice in Side(r.value, m.isAsk) <==>
           m.filledPrice !in levels || levels[m.filledPrice] != m.filledSize)
  {
    if m.mid !in b.orders then Success(b)
    else
      var resting := b.orders[m.mid];
      var rest := resting.size - m.filledSize;
      if rest < 0 then Failure(Overfill)
      else
        var orders := if rest == 0 then b.orders - {m.mid} else b.orders[m.mid := resting.(size := rest)];
        UpdateDepth(b.(orders := orders), Minus, m.isAsk, m.filledPrice, m.filledSize)
  }

  /** `cancel_order` (status 203): fails on an unknown mid; otherwise removes
      the order and takes its resting size off the level at its resting
      price on its resting side. */
  function CancelOrder(b: Book, m: ActionReport): (r: Result<Book, Error>)
    ensures m.mid !in b.orders ==> r == Failure(UnknownOrder)
    ensures m.mid in b.orders ==>
      var o := b.orders[m.mid];
      var levels := Side(b, o.isAsk);
      r.Success? <==> o.price !in levels || levels[o.price] - o.size >= 0
    ensures r.Success? ==>
      var o := b.orders[m.mid];
      var levels := Side(b, o.isAsk);
      && r.value.orders == b.orders - {m.mid}
      && r.value.clock == b.clock
      && OnlyLevelChanged(b, r.value, o.isAsk, o.price)
      && LevelOf(Side(r.value, o.isAsk), o.price) ==
           (if o.price in levels then levels[o.price] - o.size else o.size)
      && (o.price in Side(r.value, o.isAsk) <==> o.price !in levels || levels[o.price] != o.size)
  {
    if m.mid !in b.orders then Failure(UnknownOrder)
    else
      var o := b.orders[m.mid];
      UpdateDepth(b.(orders := b.orders - {m.mid}), Minus, o.isAsk, o.price, o.size)
  }

  /** `cancel_and_replace` (status 204): fails on an unknown mid or when the
      resting price has no level on the report's side. Otherwise the order's
      size becomes `insertedSize` at its unchanged price, and that level moves
      by `insertedSize - old size`; a level that reaches 0 is kept. */
  function CancelAndReplace(b: Book, m: ActionReport): (r: Result<Book, Error>)
    ensures m.mid !in b.orders ==> r == Failure(UnknownOrder)
    ensures m.mid in b.orders && b.orders[m.mid].price !in Side(b, m.isAsk) ==> r == Failure(MissingLevel)
    ensures m.mid in b.orders && b.orders[m.mid].price in Side(b, m.isAsk) ==> r.Success?
    ensures r.Success? ==>
      var o := b.orders[m.mid];
      && r.value.orders == b.orders[m.mid := o.(size := m.insertedSize)]
      && r.value.clock == b.clock
      && OnlyLevelChanged(b, r.value, m.isAsk, o.price)
      && o.price in Side(r.value, m.isAsk)
      && Side(r.value, m.isAsk)[o.price] - Side(b, m.isAsk)[o.price] == m.insertedSize - o.size
  {
    if m.mid !in b.orders then Failure(UnknownOrder)
    else
      var o := b.orders[m.mid];
      var levels := Side(b, m.isAsk);
      if o.price !in levels then Failure(MissingLevel)
      else
        var levels' := levels[o.price := levels[o.price] + m.insertedSize - o.size];
        Success(WithSide(b, m.isAsk, levels').(orders := b.orders[m.mid := o.(size := m.insertedSize)]))
  }

  /** Cancelling a freshly added order restores the book exactly: the order
      is forgotten and its level returns to its old size, or disappears if
      the order created it. */
  lemma AddThenCancel(b: Book, m: ActionReport, c: ActionReport)
    requires m.mid !in b.orders && c.mid == m.mid
    requires m.price == m.insertedPrice && m.size == m.insertedSize && m.insertedSize > 0
    requires m.insertedPrice in Side(b, m.isAsk) ==> Side(b, m.isAsk)[m.insertedPrice] > 0
    ensures AddOrder(b, m).Success?
    ensures CancelOrder(AddOrder(b, m).value, c) == Success(b)
  {
    var o := Order(m.price, m.size, m.isAsk);
    var levels := Side(b, m.isAsk);
    var p := m.insertedPrice;
    var added := WithSide(b, m.isAsk, levels[p := LevelOf(levels, p) + m.size]).(orders := b.orders[m.mid := o]);
    assert AddOrder(b, m) == Success(added);
    var grown := levels[p := LevelOf(levels, p) + m.size];
    assert Side(added, m.isAsk) == grown && added.orders[m.mid] == o;
    var levels' := if p in levels then grown[p := levels[p]] else grown - {p};
    assert levels' == levels;
    assert added.orders - {m.mid} == b.orders;
    assert AdjustLevel(grown, Minus, p, m.size) == Success(levels');
    assert CancelOrder(added, c) == Success(WithSide(b, m.isAsk, levels'));
  }
}
