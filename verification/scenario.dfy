/** A worked example on one book: a snapshot with a single bid, a second
    order joining its level, the first order filled away, the second
    cancelled. */
module Scenario {
  import opened Wrappers
  import opened Messages
  import opened OrderBook

  const Snapshot: seq<Entry> := [Entry("a", 100, 10, false)]
  const AddB := ActionReport(1, "b", false, 100, 5, 100, 5, 0, 0, 1, StatusInsert)
  const FillA := ActionReport(1, "a", false, 100, 10, 0, 0, 100, 10, 2, StatusFill)
  const CancelB := ActionReport(1, "b", false, 100, 5, 0, 0, 0, 0, 3, StatusCancel)

  /** The book after each step. */
  const Book0 := Book(0, map[100 := 10], map[], map["a" := Order(100, 10, false)])
  const Book1 := Book(0, map[100 := 15], map[], map["a" := Order(100, 10, false), "b" := Order(100, 5, false)])
  const Book2 := Book(0, map[100 := 5], map[], map["b" := Order(100, 5, false)])
  const Book3 := Book(0, map[], map[], map[])

  /** The snapshot puts 10 on the bid at 100 for order "a". */
  lemma SnapshotStep()
    ensures Init(0, Snapshot) == Book0
    ensures Bid(Book0) == (100, 10) && Len(Book0) == 1
  {
    assert Snapshot[..0] == [];
  }

  /** Adding "b" at 100 for 5 brings the level to 15, with two orders tracked. */
  lemma AddStep()
    ensures AddOrder(Book0, AddB) == Success(Book1)
    ensures Bid(Book1) == (100, 15) && |Book1.orders| == 2
  {
    assert Book0.orders["b" := Order(100, 5, false)] == Book1.orders;
    assert Book0.bids[100 := 10 + 5] == Book1.bids;
  }

  /** Filling all of "a" removes it and leaves 5 at 100. */
  lemma FillStep()
    ensures FillOrder(Book1, FillA) == Success(Book2)
    ensures Bid(Book2) == (100, 5) && "a" !in Book2.orders
  {
    assert Book1.orders - {"a"} == Book2.orders;
    assert Book1.bids[100 := 15 - 10] == Book2.bids;
  }

  /** Cancelling "b" removes the level: the best bid is `(0, 0)` again. */
  lemma CancelStep()
    ensures CancelOrder(Book2, CancelB) == Success(Book3)
    ensures Bid(Book3) == (0, 0) && Len(Book3) == 0
  {
    assert Book2.orders - {"b"} == map[];
  }
}
