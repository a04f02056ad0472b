# Order-book feed model

A Dafny model of the core of `ftx_us_derivatives`, a Python client that
keeps limit order books for derivatives contracts current from an exchange
websocket feed.

- **The order book** (`ftx/orderbook.py`, module `OrderBook`). A book holds:
  - two maps from price to aggregate resting size (`bids`, `asks`);
  - the table of resting orders by message id (`msgs`, here `orders`);
  - the contract's sequence number `clock`.

  The model covers snapshot construction, best bid and best ask, the
  number of levels, the shared level rule `update_depth`, and the four
  mutations an action report can cause: insert (200), fill (201), cancel
  (203) and cancel-and-replace (204).
- **The feed's state machine** (`ftx/orderbook_feed.py`, modules
  `ActionLog` and `Feed`). Covered:
  - `handle_action_report`: drops, logs, discards as stale, applies, or
    attempts to repair a clock gap by replaying the bounded 100-entry
    history (which, as the model proves, can only succeed after a book has
    been re-installed from an older snapshot);
  - `apply_action_report`;
  - `apply_historical_action_reports`;
  - the `on_message` dispatch;
  - the heartbeat update;
  - installing a book built from a snapshot.

  The feed state is an immutable value:
  - the subscribed ids;
  - books and logs by contract id;
  - the sequence of book values handed to the `on_book` sink;
  - the last heartbeat.
- **The depth invariant** (module `Depth`). A book is *consistent* when
  every level holds the total resting size of the orders at its price and
  side, and no level or order is empty. The Python code never checks
  this. The model proves that:
  - a snapshot with distinct order ids and positive sizes builds a
    consistent book;
  - each mutation keeps a book consistent when the report agrees with the
    order it names;
  - on a consistent book the only failures left are an unknown order id
    and an overfill.
- **A worked example** (module `Scenario`): one bid order, a second order
  joining its level, the first filled away, the second cancelled.

Every Python exception on a path becomes a `Failure` carrying an `Error`
tag. The model keeps both sides keyed by price. The Python book keys bids
by negated price so that the first `SortedDict` key is the best bid; here
the best bid is the greatest bid key, which is the same level.

Where the code differs from the feed's documented design, the model
follows the code:
- The clock is set inside `apply_action_report` (`ftx/orderbook_feed.py:132`),
  before the book is handed to the sink, not after.
- A failed mutation leaves a partially changed book in the source, not the
  last good one. The model returns no book at all (see Left out).

One place does not follow the code: the replay. The code sorts the report
dicts themselves, which Python 3 refuses for two or more reports. That
replay is `Feed.ReplayAsWritten`, with its consequences proved. `Feed.Handle`
replays with `Feed.Replay` instead, which sorts by clock as the comment
beside the call intends (see Findings).

The log only ever holds reports at or below its book's clock, unless a
book is re-installed from a snapshot older than the book it replaces
(`Feed.Install` keeps the log, as `init_book_from_cid` does). A report for a
contract without a book is dropped before it is logged. After that, every
logged report is stale, is applied at once, or opens a gap that cannot be
repaired. `Feed.GapFailsWhenLogIsBehind` and `Feed.HandleKeepsLogBehind`
prove this, so the logged run that `Feed.GapRepair` and
`Feed.HandleRepairsGap` assume exists only after such a re-install.

## Model

| member | source | states |
|---|---|---|
| OrderBook.LoadEntry | ftx/orderbook.py:15-28 | one snapshot entry overwrites its mid's record and adds its size to its level on its side, creating the level if absent; no other level changes |
| OrderBook.Load | ftx/orderbook.py:14-28 | after loading, a level exists exactly where some entry quotes, each level is the sum of the entry sizes at that price and side, and the order ids are those of the entries |
| OrderBook.LoadOrder | ftx/orderbook.py:18 | when two snapshot entries share a mid, the later one's record is the one kept |
| OrderBook.Init | ftx/orderbook.py:4-28 | a snapshot-built book has the snapshot clock, levels equal to the per-price entry sums, one order per distinct mid holding its last entry |
| Extremes.MaxKey | ftx/orderbook.py:34 | the first key of the negated-bid map is the greatest bid price: a key that bounds every other from above |
| Extremes.MinKey | ftx/orderbook.py:41 | the first key of the ask map is a key that bounds every other from below |
| OrderBook.Bid | ftx/orderbook.py:30-35 | `(0, 0)` on an empty bid side, otherwise the highest bid price with its aggregate size |
| OrderBook.Ask | ftx/orderbook.py:37-42 | `(0, 0)` on an empty ask side, otherwise the lowest ask price with its aggregate size |
| OrderBook.Len | ftx/orderbook.py:130-131 | the level count is zero exactly when both sides are empty |
| Depth.LenCountsOrders | ftx/orderbook.py:130-131 | on a consistent book the level count is zero exactly when no order rests |
| OrderBook.AdjustLevel | ftx/orderbook.py:54-64 | an existing level takes the combined value, is deleted at exactly zero, and fails below zero; an absent level is set to the size whatever the operation; no other price changes |
| OrderBook.UpdateDepth | ftx/orderbook.py:47-64 | the level rule applied on the chosen side only; orders, clock and the other side are untouched |
| OrderBook.AddOrder | ftx/orderbook.py:66-73 | a new mid is stored from the report's own price, size and side; a known mid's size grows by the inserted size; the level at the inserted price grows by the inserted size; no other order or level changes |
| OrderBook.FillOrder | ftx/orderbook.py:75-91 | an unknown mid leaves the book unchanged; a fill larger than the resting size fails; otherwise the resting size drops by the fill, the order goes at exactly zero, and the level at the fill price drops by the fill |
| OrderBook.CancelOrder | ftx/orderbook.py:93-101 | an unknown mid fails; otherwise the order is removed and its resting size comes off the level at its resting price and side |
| OrderBook.CancelAndReplace | ftx/orderbook.py:103-114 | an unknown mid, or no level at the resting price on the report's side, fails; otherwise the order keeps its price, takes the inserted size, and that level moves by the size difference without being deleted at zero |
| OrderBook.AddThenCancel | ftx/orderbook.py:66-101 | cancelling a freshly inserted order restores the book exactly |
| Depth.InitConsistent | ftx/orderbook.py:14-28 | a snapshot with distinct mids and positive sizes builds a consistent book |
| Depth.LoadConsistent | ftx/orderbook.py:14-28 | loading fresh, distinct, positive entries into a consistent book keeps it consistent |
| Depth.AddOrderConsistent | ftx/orderbook.py:66-73 | an insert at the order's own price and side with a positive size always succeeds on a consistent book and keeps it consistent |
| Depth.FillOrderConsistent | ftx/orderbook.py:75-91 | a fill at the order's price and side keeps a consistent book consistent, and can fail only as an overfill |
| Depth.CancelOrderConsistent | ftx/orderbook.py:93-101 | on a consistent book a cancel succeeds exactly for a known mid and keeps the book consistent |
| Depth.CancelAndReplaceConsistent | ftx/orderbook.py:103-114 | on a consistent book a replace on the order's side succeeds exactly for a known mid, never misses its level, and keeps the book consistent |
| Depth.FillClearsLevel | ftx/orderbook.py:81-91 | filling the whole size of the only order at a level removes the order and the level |
| Depth.QuotesRest | ftx/orderbook.py:30-42 | on a consistent book the best bid and ask are the extreme prices with resting orders, with their total resting size |
| ActionLog.Push | ftx/orderbook_feed.py:23 | appending keeps the last 100 reports: the new report is last and the older ones are the tail of the previous log |
| ActionLog.Insert | ftx/orderbook_feed.py:154 | inserting into a clock-sorted log keeps it sorted and is a permutation |
| ActionLog.SortByClock | ftx/orderbook_feed.py:154 | the result is sorted by clock and is a permutation of the input |
| ActionLog.VisitOrder | ftx/orderbook_feed.py:152-157 | the replay visits every logged report once, in ascending clock order |
| Feed.Apply | ftx/orderbook_feed.py:117-132 | 200, 201, 203 and 204 route to insert, fill, cancel and replace, succeeding exactly when they do; 202 and unknown codes change nothing; the clock always becomes the report's clock |
| Feed.ApplyInOrder | ftx/orderbook_feed.py:117-132 | applying a run in order ends at the clock of its last report |
| Feed.Visit | ftx/orderbook_feed.py:156-160 | the replay loop's clock rises by at most the number of reports, and a loop that meets no report with the book's next clock leaves the book unchanged; which reports are applied for a log of stale reports and one consecutive run is `Feed.VisitRun` |
| Feed.Replay | ftx/orderbook_feed.py:148-171 | replay succeeds only at the target clock, and fails when the target is behind the book or beyond the log's reach |
| Feed.ReplayAsWritten | ftx/orderbook_feed.py:154 | as written, any log of two or more reports fails to sort |
| Feed.Logged | ftx/orderbook_feed.py:93 | logging appends to the report's own contract log only and keeps every log within 100 entries |
| Feed.Advance | ftx/orderbook_feed.py:100-110 | a book behind the report is brought exactly to the report's clock, or fails |
| Feed.Handle | ftx/orderbook_feed.py:86-115 | unsubscribed or unloaded contracts are dropped untouched; stale reports are only logged; otherwise the book reaches the report's clock, is stored, and is published |
| Feed.HandleNext | ftx/orderbook_feed.py:109-115 | the next report in sequence is applied directly to its book |
| Feed.HandleGap | ftx/orderbook_feed.py:100-103 | a report beyond the next one replays the log, which already contains it |
| Feed.PublishMonotone | ftx/orderbook_feed.py:93-115 | logging then storing a book no older than the old one keeps every other book, keeps logs bounded, and appends exactly that book to the sink |
| Feed.HandleMonotone | ftx/orderbook_feed.py:86-115 | handling never moves a clock backwards, never touches another contract's book, keeps logs bounded, and adds at most one book to the sink, after those it already has |
| Feed.HandleTwice | ftx/orderbook_feed.py:105-108 | delivering a report twice gives the same books and the same published sequence as delivering it once |
| Feed.VisitRun | ftx/orderbook_feed.py:156-160 | visiting a clock-sorted mix of stale reports and the run `N+1 .. N+k` applies exactly that run, in order |
| Feed.GapRepair | ftx/orderbook_feed.py:148-171 | with the run `N+1 .. N+k` logged in any order among stale reports, replaying to `N+k` gives the book of applying the run in order |
| Feed.HandleRepairsGap | ftx/orderbook_feed.py:93-103 | a gap report whose missing run is in the log leaves the book that applying the run in order would |
| Feed.Install | ftx/orderbook_feed.py:186-192 | installing a snapshot book sets that contract's book to the snapshot's clock, orders and level sums, leaving other contracts alone |
| Feed.OnMessage | ftx/orderbook_feed.py:73-84 | only an action report can change the books, the logs or the sink, or fail; a heartbeat records its timestamp and run id, and nothing else changes the heartbeat |
| Feed.OnMessageMonotone | ftx/orderbook_feed.py:73-115 | no message moves a book clock backwards, adds or removes a book, or touches a book other than the reported contract's; logs stay bounded and behind their books, and the sink only grows |
| Feed.ReplayFails | ftx/orderbook_feed.py:148-171 | a replay to any other clock fails when no logged report carries the book's next clock |
| Feed.GapFailsWhenLogIsBehind | ftx/orderbook_feed.py:90-103 | when every logged report is at or below its book's clock, a gap report is never repaired, even with the replay sorted by clock |
| Feed.LoggedBehind | ftx/orderbook_feed.py:93 | logging a report whose book then reaches at least its clock keeps every log at or below its book's clock |
| Feed.HandleKeepsLogBehind | ftx/orderbook_feed.py:86-115 | handling a report keeps every log at or below its book's clock |
| Feed.InstallKeepsLogBehind | ftx/orderbook_feed.py:186-192 | installing a snapshot no older than the book it replaces keeps every log at or below its book's clock |
| Feed.AsWrittenGapNeverRepairs | ftx/orderbook_feed.py:154 | as written, a gap of two or more clocks is never repaired |
| Feed.OutOfOrderPair | ftx/orderbook_feed.py:152-160 | two consecutive reports logged in reverse order: the replay by clock applies both in order, the replay as written fails |
| Feed.AsWrittenCounterexample | ftx/orderbook_feed.py:154 | a concrete book and two reversed reports that the replay by clock repairs and the replay as written does not |
| Feed.AcceptedAsWritten | ftx/orderbook_feed.py:90 | as written, the `['all']` sentinel accepts no contract id, and a list accepts exactly its members |
| Feed.AllDropsEverything | ftx/orderbook_feed.py:86-91 | as written, with the sentinel every report is dropped: nothing logged, applied or published |
| Feed.AllAcceptsActive | ftx/orderbook_feed.py:86-93 | with the sentinel read as the directory, a report for a loaded active contract is logged, and a newer one advances its book |
| Depth.ApplyConsistent | ftx/orderbook_feed.py:117-132 | applying a report that agrees with its order keeps a consistent book consistent, and fails only on an unknown mid or an overfill |
| Depth.ApplyInOrderConsistent | ftx/orderbook_feed.py:156-160 | a run whose reports each agree with the book they reach keeps a consistent book consistent |
| Depth.HandleConsistent | ftx/orderbook_feed.py:86-115 | handling a report without a gap keeps every book consistent when the report agrees with its order |
| Depth.HandleGapConsistent | ftx/orderbook_feed.py:100-103 | a repaired gap keeps every book consistent when the missing run agrees with the books it reaches |
| Scenario.SnapshotStep | ftx/orderbook.py:14-35 | a snapshot with order "a" bidding 10 at 100 gives best bid (100, 10) |
| Scenario.AddStep | ftx/orderbook.py:66-73 | adding order "b" for 5 at 100 makes the level 15 with two orders tracked |
| Scenario.FillStep | ftx/orderbook.py:75-91 | filling "a" for 10 removes it and leaves 5 at 100 |
| Scenario.CancelStep | ftx/orderbook.py:93-101 | cancelling "b" removes the level and the best bid is (0, 0) |

## Left out

- Transport and I/O are not modelled: HTTP requests, threads, the lock, the warm-up sleep, `json.loads`, and all printing.
- `start`, `load_contracts`, `subscribe` and `init_book_from_cid` are not modelled. Book installation is `Feed.Install`, a pure function of the snapshot's clock and entries.
- `on_open`, `on_close` and `on_error` are not modelled, and neither are `ftx/websocket.py`, `ftx/client.py` or `example.py`.
- `contract_info` and `__str__` are presentation only.
- `deepcopy` before `on_book` is not modelled: books are values, so the copy is the book itself.
- `update_clock` is not a separate member. It is the clock update inside `Feed.Apply`.
- Stored order records keep only the price, size and side that later mutations read. The source stores the whole report dict.
- Aliasing is not modelled. In the source, the stored record of a new order is the same dict as its entry in the log, so a later size change shows through the log as well.
- Feed.GapRepair: it holds for the model, not for the source with only the sort fixed. Its hypothesis is reachable only after a re-install from an older snapshot. The log then holds reports the replaced book already applied. `add_order` (`ftx/orderbook.py:71`) stored each new order's logged dict itself, and fills and replaces (`ftx/orderbook.py:83`, `ftx/orderbook.py:109`) have since changed its `size`. A replay then re-adds the order with the changed size, while the level grows by the full `inserted_size`.
  - Example: a book at clock 10 applies report 11 (insert of a new bid `x`, 5 at 100) and report 12 (fill of `x`, 2 at 100), so the logged report 11 now says size 3.
  - A snapshot at clock 10 without `x` is then installed, and report 13 (202) arrives.
  - The sorted replay leaves `x` resting 1 with 3 at the level. `Feed.ApplyInOrder` leaves 3 and 3. A later cancel of `x` would leave a phantom 2 at 100.
- Feed.Visit: the contract bounds the clock and covers a loop with no next-clock report. Which reports are applied is proved only for a log of stale reports plus one consecutive run (`Feed.VisitRun`), not for arbitrary logs.
- `Feed.Handle`: a failure returns only an error. The source has by then logged the report and may have partly changed the book in place. Examples of such partial changes:
  - a negative level written before the `ValueError`;
  - a negative resting size;
  - the reports a failed replay had already applied.

  The session ends on such an exception, so the model keeps no state after it.
- Feed.Handle: the gap branch replays with the clock-keyed `Feed.Replay`, not with the code as written. The code as written is `Feed.ReplayAsWritten`, which fails on any log of two or more reports (see Findings).
- Python's exception types are not distinguished beyond the `Error` tags. Example: the overfill path raises a `KeyError` while formatting `msg['cid']`, not the `ValueError` it builds. Both are `Failure`.
- `Depth.Consistent` is not a property the source establishes. It holds only for reports whose price, side and sizes agree with the order they name (`Depth.Matches`). The source never checks this, so a disagreeing report can put a level and its orders out of step.
- OrderBook.Len: the contract states only when the count is zero, not the count itself. The count is the plain sum of the two map sizes, and a contract saying so would only repeat the body. `Depth.LenCountsOrders` relates it to the resting orders.
- `best_bid < best_ask` for non-crossed books is not modelled. The code neither ensures nor relies on it.

## Findings

| source | as written | input that shows it | evidently intended | confidence | as-written member | corrected member |
|---|---|---|---|---|---|---|
| ftx/orderbook_feed.py:154 | `sorted(self.action_reports[cid], reverse=True)` compares the report dicts themselves, which Python 3 cannot order | a replay over a log of two reports, e.g. a book at clock 0 whose log holds the reports for clocks 2 and 1 (as after `subscribe` re-installs an older snapshot while the log is kept): `sorted` raises `TypeError` before any report is applied, so no gap is ever repaired. Even sorted by clock, the replay repairs a gap only after such a re-install (`Feed.GapFailsWhenLogIsBehind`) | sort the log by `clock`, as the comment on lines 152-153 says, and replay it in ascending order; for the replay to equal the in-order run, `add_order` must also store a copy of the report rather than the logged dict (see Left out, Feed.GapRepair) | high, not executed | Feed.ReplayAsWritten, Feed.AsWrittenGapNeverRepairs, Feed.AsWrittenCounterexample | Feed.Replay, Feed.GapRepair |
| ftx/orderbook_feed.py:90 | `cid in self.contracts` tests the constructor argument, which is `['all']` when every contract is wanted | `contracts=['all']`: `subscribe` (lines 58-59) loads a book for every active contract, but every action report is then dropped and no book is ever updated | accept the active contracts that `subscribe` loaded | high, not executed | Feed.AcceptedAsWritten, Feed.AllDropsEverything | Feed.Accepted, Feed.AllAcceptsActive |
