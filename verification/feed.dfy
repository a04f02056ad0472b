/** The clock-sequenced logic of the order-book feed: routing an action
    report to a book mutation, replaying the logged history across a gap,
    and the per-report state machine that drops, logs, discards, applies or
    repairs, publishing the updated book to the consumer. */
module Feed {
  import opened Wrappers
  import opened Messages
  import opened OrderBook
  import opened ActionLog

  datatype Heartbeat = Heartbeat(timestamp: int, runId: string)

  /** The feed's state. `published` is the sequence of book values handed to
      the `on_book` sink, oldest first. */
  datatype Feed = Feed(
    subscribed: set<ContractId>,
    books: map<ContractId, Book>,
    logs: map<ContractId, seq<ActionReport>>,
    published: seq<Book>,
    heartbeat: Option<Heartbeat>)

  /** The `contracts` argument of the feed: a list of ids, or the sentinel
      `['all']` for every active contract. */
  datatype Contracts = AllContracts | Listed(ids: seq<ContractId>)

  /** The ids `handle_action_report` lets through, as written: it tests
      `cid in self.contracts` against the argument itself, and no integer id
      is a member of `['all']`, although `subscribe` loads a book for every
      active contract in that case. */
  function AcceptedAsWritten(c: Contracts): (r: set<ContractId>)
    ensures c.AllContracts? ==> r == {}
    ensures c.Listed? ==> forall id :: id in r <==> id in c.ids
  {
    match c
    case AllContracts => {}
    case Listed(ids) => set i | 0 <= i < |ids| :: ids[i]
  }

  /** The ids the feed subscribes to: the sentinel stands for the directory
      `active` of actively traded contracts, as in `subscribe`. */
  function Accepted(c: Contracts, active: set<ContractId>): (r: set<ContractId>)
    ensures c.AllContracts? ==> r == active
    ensures c.Listed? ==> r == AcceptedAsWritten(c)
  {
    match c
    case AllContracts => active
    case Listed(_) => AcceptedAsWritten(c)
  }

  /** The log of a contract; a contract never logged has an empty one. */
  function LogOf(f: Feed, cid: ContractId): seq<ActionReport> {
    if cid in f.logs then f.logs[cid] else []
  }

  predicate LogsBounded(f: Feed) {
    forall cid :: cid in f.logs ==> |f.logs[cid]| <= LogCapacity
  }

  // ---------------------------------------------------------------------
  // Applying reports
  // ---------------------------------------------------------------------

  /** The book mutation a status code selects; 202 and unknown codes change nothing. */
  function Mutate(b: Book, m: ActionReport): Result<Book, Error> {
    if m.statusType == StatusInsert then AddOrder(b, m)
    else if m.statusType == StatusFill then FillOrder(b, m)
    else if m.statusType == StatusCancel then CancelOrder(b, m)
    else if m.statusType == StatusCancelReplace then CancelAndReplace(b, m)
    else Success(b)
  }

  /** `apply_action_report`: route on the status code, then set the book's
      clock to the report's clock whatever the route was. */
  function Apply(b: Book, m: ActionReport): (r: Result<Book, Error>)
    ensures r.Success? ==> r.value.clock == m.clock
    ensures m.statusType == StatusInsert ==>
      (r.Success? <==> AddOrder(b, m).Success?) &&
      (r.Success? ==> r.value == AddOrder(b, m).value.(clock := m.clock))
    ensures m.statusType == StatusFill ==>
      (r.Success? <==> FillOrder(b, m).Success?) &&
      (r.Success? ==> r.value == FillOrder(b, m).value.(clock := m.clock))
    ensures m.statusType == StatusCancel ==>
      (r.Success? <==> CancelOrder(b, m).Success?) &&
      (r.Success? ==> r.value == CancelOrder(b, m).value.(clock := m.clock))
    ensures m.statusType == StatusCancelReplace ==>
      (r.Success? <==> CancelAndReplace(b, m).Success?) &&
      (r.Success? ==> r.value == CancelAndReplace(b, m).value.(clock := m.clock))
    ensures m.statusType !in {StatusInsert, StatusFill, StatusCancel, StatusCancelReplace} ==>
      r == Success(b.(clock := m.clock))
  {
    var b' :- Mutate(b, m);
    Success(b'.(clock := m.clock))
  }

  /** The book after applying `run` one report after another, stopping at the first failure. */
  function ApplyInOrder(b: Book, run: seq<ActionReport>): (r: Result<Book, Error>)
    ensures r.Success? ==> r.value.clock == if run == [] then b.clock else run[|run| - 1].clock
    decreases |run|
  {
    if run == [] then Success(b)
    else
      var b' :- Apply(b, run[0]);
      ApplyInOrder(b', run[1..])
  }

  /** The replay loop over entries `s` already in visiting order: an entry is
      applied exactly when its clock is the book's clock plus one at that
      moment, and skipped otherwise. A loop that meets no entry with the
      next clock leaves the book as it was. */
  function Visit(s: seq<ActionReport>, b: Book): (r: Result<Book, Error>)
    ensures r.Success? ==> b.clock <= r.value.clock <= b.clock + |s|
    ensures (forall i :: 0 <= i < |s| ==> s[i].clock != b.clock + 1) ==> r == Success(b)
    decreases |s|
  {
    if s == [] then Success(b)
    else if s[0].clock == b.clock + 1 then
      var b' :- Apply(b, s[0]);
      Visit(s[1..], b')
    else
      assert forall i :: 0 <= i < |s[1..]| ==> s[1..][i] == s[i + 1];
      Visit(s[1..], b)
  }

  /** `apply_historical_action_reports`: visit the log in ascending clock
      order, then fail unless the book reached `toclock`. */
  function Replay(b: Book, log: seq<ActionReport>, toclock: int): (r: Result<Book, Error>)
    ensures r.Success? ==> r.value.clock == toclock
    ensures toclock < b.clock || toclock > b.clock + |log| ==> r.Failure?
  {
    var b' :- Visit(VisitOrder(log), b);
    if b'.clock == toclock then Success(b') else Failure(GapUnrecoverable)
  }

  /** The same replay with `sorted` applied to the report dicts themselves,
      as the code is written: Python 3 cannot order two dicts, so any log of
      two or more entries raises. */
  function ReplayAsWritten(b: Book, log: seq<ActionReport>, toclock: int): (r: Result<Book, Error>)
    ensures |log| >= 2 ==> r == Failure(UnorderableLog)
    ensures |log| < 2 ==> r == Replay(b, log, toclock)
  {
    if |log| >= 2 then Failure(UnorderableLog)
    else Replay(b, log, toclock)
  }

  // ---------------------------------------------------------------------
  // The per-report state machine
  // ---------------------------------------------------------------------

  /** Appends the report to its contract's log. */
  function Logged(f: Feed, m: ActionReport): (r: Feed)
    ensures r.logs == f.logs[m.contractId := Push(LogOf(f, m.contractId), m)]
    ensures r.books == f.books && r.published == f.published
    ensures r.subscribed == f.subscribed && r.heartbeat == f.heartbeat
    ensures LogsBounded(f) ==> LogsBounded(r)
  {
    f.(logs := f.logs[m.contractId := Push(LogOf(f, m.contractId), m)])
  }

  /** Stores the updated book and hands a copy of it to the sink. */
  function Publish(f: Feed, cid: ContractId, b: Book): (r: Feed)
    ensures r.books == f.books[cid := b] && r.published == f.published + [b]
    ensures r.subscribed == f.subscribed && r.logs == f.logs && r.heartbeat == f.heartbeat
  {
    f.(books := f.books[cid := b], published := f.published + [b])
  }

  /** Brings a book behind the report up to the report's clock: directly
      when the report is the next one, by replay from the log otherwise. */
  function Advance(book: Book, log: seq<ActionReport>, m: ActionReport): (r: Result<Book, Error>)
    requires m.clock > book.clock
    ensures r.Success? ==> r.value.clock == m.clock
  {
    if m.clock == book.clock + 1 then Apply(book, m) else Replay(book, log, m.clock)
  }

  /** `handle_action_report`. A report for a contract that is not subscribed
      or has no book yet is dropped; any other is logged. A stale report
      changes nothing else; a newer one brings the book up to its clock
      and the updated book is published. */
  function Handle(f: Feed, m: ActionReport): (r: Result<Feed, Error>)
    ensures m.contractId !in f.subscribed || m.contractId !in f.books ==> r == Success(f)
    ensures m.contractId in f.subscribed && m.contractId in f.books && m.clock <= f.books[m.contractId].clock ==>
      r == Success(Logged(f, m))
    ensures r.Success? && m.contractId in f.subscribed && m.contractId in f.books && m.clock > f.books[m.contractId].clock ==>
      var cid := m.contractId;
      var g := Logged(f, m);
      && cid in r.value.books
      && r.value.books[cid].clock == m.clock
      && r.value == Publish(g, cid, r.value.books[cid])
  {
    var cid := m.contractId;
    if cid !in f.subscribed || cid !in f.books then Success(f)
    else if m.clock <= f.books[cid].clock then Success(Logged(f, m))
    else
      var b :- Advance(f.books[cid], Push(LogOf(f, cid), m), m);
      Success(Publish(Logged(f, m), cid, b))
  }

  /** A report next in sequence is applied to its book directly. */
  lemma HandleNext(f: Feed, m: ActionReport)
    requires m.contractId in f.subscribed && m.contractId in f.books
    requires m.clock == f.books[m.contractId].clock + 1
    ensures Handle(f, m).Success? <==> Apply(f.books[m.contractId], m).Success?
    ensures Handle(f, m).Success? ==> Handle(f, m).value.books[m.contractId] == Apply(f.books[m.contractId], m).value
  {
  }

  /** A report beyond the next one is reached by replaying the log, which
      already holds the report itself. */
  lemma HandleGap(f: Feed, m: ActionReport)
    requires m.contractId in f.subscribed && m.contractId in f.books
    requires m.clock > f.books[m.contractId].clock + 1
    ensures var repaired := Replay(f.books[m.contractId], Push(LogOf(f, m.contractId), m), m.clock);
      && (Handle(f, m).Success? <==> repaired.Success?)
      && (Handle(f, m).Success? ==> Handle(f, m).value.books[m.contractId] == repaired.value)
  {
  }

  /** Publishing a book no older than the one it replaces, after logging,
      keeps the other books, keeps logs bounded and extends the sink. */
  lemma PublishMonotone(f: Feed, m: ActionReport, b: Book)
    requires m.contractId in f.books && f.books[m.contractId].clock <= b.clock
    ensures var r := Publish(Logged(f, m), m.contractId, b);
      && r.books.Keys == f.books.Keys
      && (forall c :: c in f.books ==> f.books[c].clock <= r.books[c].clock)
      && (forall c :: c in f.books && c != m.contractId ==> r.books[c] == f.books[c])
      && (LogsBounded(f) ==> LogsBounded(r))
      && r.published == f.published + [b]
  {
  }

  /** Handling a report keeps every book clock where it was or moves it
      forward, touches no other contract's book, and keeps logs bounded. */
  lemma HandleMonotone(f: Feed, m: ActionReport)
    requires Handle(f, m).Success?
    ensures Handle(f, m).value.books.Keys == f.books.Keys
    ensures forall c :: c in f.books ==> f.books[c].clock <= Handle(f, m).value.books[c].clock
    ensures forall c :: c in f.books && c != m.contractId ==> Handle(f, m).value.books[c] == f.books[c]
    ensures LogsBounded(f) ==> LogsBounded(Handle(f, m).value)
    ensures f.published <= Handle(f, m).value.published
    ensures |Handle(f, m).value.published| <= |f.published| + 1
    ensures Handle(f, m).value.subscribed == f.subscribed && Handle(f, m).value.heartbeat == f.heartbeat
  {
    var cid := m.contractId;
    var r := Handle(f, m).value;
    if cid !in f.subscribed || cid !in f.books {
      assert r == f;
    } else if m.clock <= f.books[cid].clock {
      assert r == Logged(f, m);
    } else {
      assert r == Publish(Logged(f, m), cid, r.books[cid]);
      PublishMonotone(f, m, r.books[cid]);
    }
  }

  /** Installs a book built from a snapshot taken at `clock`; the HTTP fetch
      that produces the entries is outside the model. */
  function Install(f: Feed, cid: ContractId, clock: int, entries: seq<Entry>): (r: Feed)
    ensures cid in r.books && r.books[cid].clock == clock
    ensures r.books[cid].orders.Keys == Mids(entries)
    ensures forall isAsk: bool, p: int :: LevelOf(Side(r.books[cid], isAsk), p) == EntryDepth(entries, isAsk, p)
    ensures r.books - {cid} == f.books - {cid}
    ensures r.logs == f.logs && r.subscribed == f.subscribed && r.published == f.published
  {
    f.(books := f.books[cid := Init(clock, entries)])
  }

  /** `on_message`: dispatch a decoded message on its type. Only an action
      report reaches the books, the logs and the sink; only a heartbeat
      changes the recorded heartbeat, and nothing else can fail. */
  function OnMessage(f: Feed, msg: Message): (r: Result<Feed, Error>)
    ensures msg.ActionReportMsg? ==> r == Handle(f, msg.report)
    ensures !msg.ActionReportMsg? ==>
      && r.Success?
      && r.value.books == f.books && r.value.logs == f.logs
      && r.value.published == f.published && r.value.subscribed == f.subscribed
    ensures msg.HeartbeatMsg? ==> r.value.heartbeat == Some(Heartbeat(msg.timestamp, msg.runId))
    ensures msg.BookTop? || msg.OtherMsg? ==> r.value.heartbeat == f.heartbeat
  {
    match msg
    case ActionReportMsg(report) => Handle(f, report)
    case BookTop => Success(f)
    case HeartbeatMsg(timestamp, runId) => Success(f.(heartbeat := Some(Heartbeat(timestamp, runId))))
    case OtherMsg(_) => Success(f)
  }

  /** Whatever message arrives, no book clock moves backwards, no book
      appears or disappears, at most the reported contract's book changes,
      logs stay bounded, and the sink only ever receives more books. */
  lemma OnMessageMonotone(f: Feed, msg: Message)
    requires OnMessage(f, msg).Success?
    ensures OnMessage(f, msg).value.books.Keys == f.books.Keys
    ensures forall c :: c in f.books ==> f.books[c].clock <= OnMessage(f, msg).value.books[c].clock
    ensures forall c :: c in f.books && (!msg.ActionReportMsg? || c != msg.report.contractId) ==>
      OnMessage(f, msg).value.books[c] == f.books[c]
    ensures LogsBounded(f) ==> LogsBounded(OnMessage(f, msg).value)
    ensures f.published <= OnMessage(f, msg).value.published
    ensures LogBehind(f) ==> LogBehind(OnMessage(f, msg).value)
  {
    if msg.ActionReportMsg? {
      HandleMonotone(f, msg.report);
      if LogBehind(f) {
        HandleKeepsLogBehind(f, msg.report);
      }
    }
  }

  // ---------------------------------------------------------------------
  // Properties
  // ---------------------------------------------------------------------

  /** Every report of a run starting at `clock + 1` is newer than `clock`. */
  lemma RunIsNewer(run: seq<ActionReport>, clock: int)
    requires forall i :: 0 <= i < |run| ==> run[i].clock == clock + 1 + i
    ensures forall y :: y in multiset(run) ==> y.clock > clock
  {
    forall y | y in multiset(run)
      ensures y.clock > clock
    {
      var i :| 0 <= i < |run| && run[i] == y;
    }
  }

  /** The first visited entry with the next clock is the head of the run. */
  lemma NextIsRunHead(s: seq<ActionReport>, b: Book, stale: multiset<ActionReport>, run: seq<ActionReport>)
    requires s != [] && s[0].clock == b.clock + 1
    requires multiset(s) == stale + multiset(run)
    requires forall x :: x in stale ==> x.clock <= b.clock
    requires forall i :: 0 <= i < |run| ==> run[i].clock == b.clock + 1 + i
    ensures run != [] && run[0] == s[0]
    ensures multiset(s[1..]) == stale + multiset(run[1..])
  {
    var x := s[0];
    assert s == [x] + s[1..];
    assert x in multiset(s);
    assert x !in stale;
    var i :| 0 <= i < |run| && run[i] == x;
    assert i == 0;
    assert run == [x] + run[1..];
    assert multiset(run) == multiset{x} + multiset(run[1..]);
    assert multiset(s) == multiset{x} + multiset(s[1..]);
    forall y
      ensures multiset(s[1..])[y] == (stale + multiset(run[1..]))[y]
    {
      assert multiset(s)[y] == (stale + multiset(run))[y];
    }
  }

  /** A first visited entry without the next clock is stale: the sort puts
      it at or below the run's head, whose clock is the next one. */
  lemma NotNextIsStale(s: seq<ActionReport>, b: Book, stale: multiset<ActionReport>, run: seq<ActionReport>)
    requires Sorted(s)
    requires s != [] && s[0].clock != b.clock + 1
    requires multiset(s) == stale + multiset(run)
    requires forall i :: 0 <= i < |run| ==> run[i].clock == b.clock + 1 + i
    ensures s[0] in stale
    ensures multiset(s[1..]) == (stale - multiset{s[0]}) + multiset(run)
  {
    var x := s[0];
    assert s == [x] + s[1..];
    assert x in multiset(s);
    RunIsNewer(run, b.clock);
    if run != [] {
      assert run[0] in multiset(s);
      var j :| 0 <= j < |s| && s[j] == run[0];
      assert x.clock <= s[j].clock;
    }
    assert x !in multiset(run);
    assert multiset(s) == multiset{x} + multiset(s[1..]);
    forall y
      ensures multiset(s[1..])[y] == ((stale - multiset{x}) + multiset(run))[y]
    {
      assert multiset(s)[y] == (stale + multiset(run))[y];
    }
  }

  /** Visiting a clock-sorted sequence that holds stale entries (clock at most
      the book's) and the consecutive run `book.clock + 1, ...`, in any
      interleaving, applies exactly the run, in order. */
  lemma {:induction false} VisitRun(s: seq<ActionReport>, b: Book, stale: multiset<ActionReport>, run: seq<ActionReport>)
    requires Sorted(s)
    requires multiset(s) == stale + multiset(run)
    requires forall x :: x in stale ==> x.clock <= b.clock
    requires forall i :: 0 <= i < |run| ==> run[i].clock == b.clock + 1 + i
    ensures Visit(s, b) == ApplyInOrder(b, run)
    decreases |s|
  {
    if s == [] {
      assert |multiset(run)| == |run|;
    } else {
      SortedTail(s);
      if s[0].clock == b.clock + 1 {
        NextIsRunHead(s, b, stale, run);
        match Apply(b, s[0])
        case Failure(_) =>
        case Success(b') =>
          VisitRun(s[1..], b', stale, run[1..]);
      } else {
        NotNextIsStale(s, b, stale, run);
        VisitRun(s[1..], b, stale - multiset{s[0]}, run);
      }
    }
  }

  /** Gap repair: when the log holds stale reports and the consecutive
      reports `N + 1 .. N + k` in any arrival order, replaying up to `N + k`
      gives exactly the book of applying `N + 1 .. N + k` in order. */
  lemma GapRepair(b: Book, log: seq<ActionReport>, stale: multiset<ActionReport>, run: seq<ActionReport>, toclock: int)
    requires multiset(log) == stale + multiset(run)
    requires forall x :: x in stale ==> x.clock <= b.clock
    requires forall i :: 0 <= i < |run| ==> run[i].clock == b.clock + 1 + i
    requires toclock == b.clock + |run|
    ensures Replay(b, log, toclock) == ApplyInOrder(b, run)
  {
    VisitRun(VisitOrder(log), b, stale, run);
  }

  /** Gap repair seen from `handle_action_report`: a report that jumps the
      book from `N` to `N + k` leaves the book the run `N + 1 .. N + k` would. */
  lemma HandleRepairsGap(f: Feed, m: ActionReport, stale: multiset<ActionReport>, run: seq<ActionReport>)
    requires m.contractId in f.subscribed && m.contractId in f.books
    requires m.clock > f.books[m.contractId].clock + 1
    requires multiset(Push(LogOf(f, m.contractId), m)) == stale + multiset(run)
    requires forall x :: x in stale ==> x.clock <= f.books[m.contractId].clock
    requires forall i :: 0 <= i < |run| ==> run[i].clock == f.books[m.contractId].clock + 1 + i
    requires m.clock == f.books[m.contractId].clock + |run|
    ensures Handle(f, m).Success? <==> ApplyInOrder(f.books[m.contractId], run).Success?
    ensures Handle(f, m).Success? ==>
      Handle(f, m).value.books[m.contractId] == ApplyInOrder(f.books[m.contractId], run).value
  {
    var b := f.books[m.contractId];
    var log := Push(LogOf(f, m.contractId), m);
    GapRepair(b, log, stale, run, m.clock);
    HandleGap(f, m);
  }

  /** Delivering the same report twice leaves the books and the sink as
      delivering it once. */
  lemma HandleTwice(f: Feed, m: ActionReport)
    requires Handle(f, m).Success?
    ensures Handle(Handle(f, m).value, m).Success?
    ensures Handle(Handle(f, m).value, m).value.books == Handle(f, m).value.books
    ensures Handle(Handle(f, m).value, m).value.published == Handle(f, m).value.published
  {
    var g := Handle(f, m).value;
    if m.contractId in f.subscribed && m.contractId in f.books {
      assert g.books[m.contractId].clock >= m.clock;
    }
  }

  /** Every logged report is at or below its book's clock, and only
      contracts with a book have a log. A feed that starts with empty logs
      has this, since a report for a contract without a book is dropped
      before it is logged. */
  predicate LogBehind(f: Feed) {
    forall cid :: cid in f.logs ==>
      cid in f.books && forall i :: 0 <= i < |f.logs[cid]| ==> f.logs[cid][i].clock <= f.books[cid].clock
  }

  /** A replay to a clock other than the book's fails when no logged report
      carries the next clock. */
  lemma ReplayFails(b: Book, log: seq<ActionReport>, toclock: int)
    requires toclock != b.clock
    requires forall i :: 0 <= i < |log| ==> log[i].clock != b.clock + 1
    ensures Replay(b, log, toclock).Failure?
  {
    var s := VisitOrder(log);
    forall i | 0 <= i < |s|
      ensures s[i].clock != b.clock + 1
    {
      assert s[i] in multiset(log);
      var j :| 0 <= j < |log| && log[j] == s[i];
    }
  }

  /** With every logged report at or below the book's clock, a gap report
      cannot be repaired, even by the replay ordered by clock: the log then
      holds only stale reports and the gap report itself. */
  lemma GapFailsWhenLogIsBehind(f: Feed, m: ActionReport)
    requires LogBehind(f)
    requires m.contractId in f.subscribed && m.contractId in f.books
    requires m.clock > f.books[m.contractId].clock + 1
    ensures Handle(f, m).Failure?
  {
    var cid := m.contractId;
    var b := f.books[cid];
    var prior := LogOf(f, cid);
    var log := Push(prior, m);
    forall i | 0 <= i < |log|
      ensures log[i].clock != b.clock + 1
    {
      if i < |log| - 1 {
        assert log[i] == log[..|log| - 1][i] == prior[|prior| + 1 - |log| + i];
      }
    }
    ReplayFails(b, log, m.clock);
    HandleGap(f, m);
  }

  /** Logging a report and then moving its book no further back than both
      the old book and the report keeps every log behind its book. */
  lemma LoggedBehind(f: Feed, m: ActionReport, g: Feed)
    requires LogBehind(f)
    requires m.contractId in f.books && m.contractId in g.books
    requires g.logs == Logged(f, m).logs
    requires forall c :: c in f.books && c != m.contractId ==> c in g.books && g.books[c] == f.books[c]
    requires f.books[m.contractId].clock <= g.books[m.contractId].clock
    requires m.clock <= g.books[m.contractId].clock
    ensures LogBehind(g)
  {
    var cid := m.contractId;
    var prior := LogOf(f, cid);
    var log := Push(prior, m);
    forall i | 0 <= i < |log|
      ensures log[i].clock <= g.books[cid].clock
    {
      if i < |log| - 1 {
        assert log[i] == log[..|log| - 1][i] == prior[|prior| + 1 - |log| + i];
      }
    }
  }

  /** Handling a report keeps every log behind its book: a stale report is
      behind already, a next report becomes the book's clock, and a gap
      fails. */
  lemma HandleKeepsLogBehind(f: Feed, m: ActionReport)
    requires LogBehind(f)
    requires Handle(f, m).Success?
    ensures LogBehind(Handle(f, m).value)
  {
    var cid := m.contractId;
    if cid in f.subscribed && cid in f.books {
      var b := f.books[cid];
      if m.clock > b.clock + 1 {
        GapFailsWhenLogIsBehind(f, m);
      } else if m.clock <= b.clock {
        LoggedBehind(f, m, Logged(f, m));
      } else {
        var r := Handle(f, m).value;
        assert r == Publish(Logged(f, m), cid, r.books[cid]);
        LoggedBehind(f, m, r);
      }
    }
  }

  /** Installing a book at or beyond the clock of the one it replaces keeps
      every log behind. Only a snapshot older than the book it replaces, with
      the log kept, can leave reports ahead of the book: the one way a gap
      replay can have a run to repair. */
  lemma InstallKeepsLogBehind(f: Feed, cid: ContractId, clock: int, entries: seq<Entry>)
    requires LogBehind(f)
    requires cid in f.books ==> f.books[cid].clock <= clock
    ensures LogBehind(Install(f, cid, clock, entries))
  {
  }

  /** As written, no gap is ever repaired: the log then holds the gap report
      and at least one more, and sorting it raises; a shorter log cannot
      lift the clock by two or more. */
  lemma AsWrittenGapNeverRepairs(b: Book, log: seq<ActionReport>, toclock: int)
    requires toclock > b.clock + 1
    ensures ReplayAsWritten(b, log, toclock).Failure?
  {
  }

  /** An empty book at clock 0, and two reports for it that arrive in the
      wrong order: the one for clock 2 is logged before the one for clock 1. */
  const GapBook := Book(0, map[], map[], map[])
  const EarlyReport := ActionReport(1, "x", false, 100, 5, 100, 5, 0, 0, 1, StatusMarketNotFilled)
  const LateReport := ActionReport(1, "y", true, 0, 0, 0, 0, 0, 0, 2, StatusMarketNotFilled)

  lemma GapRunApplies()
    ensures ApplyInOrder(GapBook, [EarlyReport, LateReport]).Success?
  {
    var b1 := GapBook.(clock := 1);
    var b2 := b1.(clock := 2);
    assert Apply(GapBook, EarlyReport) == Success(b1);
    assert Apply(b1, LateReport) == Success(b2);
    assert ApplyInOrder(b2, []) == Success(b2);
    assert [LateReport][1..] == [];
    assert ApplyInOrder(b1, [LateReport]) == Success(b2);
    assert [EarlyReport, LateReport][1..] == [LateReport];
  }

  /** Two consecutive reports logged in reverse order: the replay as
      written gives up on them, the replay by clock applies both. */
  lemma OutOfOrderPair(b: Book, early: ActionReport, late: ActionReport)
    requires early.clock == b.clock + 1 && late.clock == b.clock + 2
    ensures ReplayAsWritten(b, [late, early], b.clock + 2) == Failure(UnorderableLog)
    ensures Replay(b, [late, early], b.clock + 2) == ApplyInOrder(b, [early, late])
  {
    assert multiset([late, early]) == multiset{} + multiset([early, late]);
    GapRepair(b, [late, early], multiset{}, [early, late], b.clock + 2);
  }

  /** The two out-of-order reports above repair the gap when the log is
      ordered by clock, but the replay as written gives up on them. */
  lemma AsWrittenCounterexample()
    ensures ReplayAsWritten(GapBook, [LateReport, EarlyReport], 2) == Failure(UnorderableLog)
    ensures Replay(GapBook, [LateReport, EarlyReport], 2).Success?
  {
    OutOfOrderPair(GapBook, EarlyReport, LateReport);
    GapRunApplies();
  }

  /** With the `'all'` sentinel as written, every report is dropped: no log
      entry, no book change, nothing published, whatever books are loaded. */
  lemma AllDropsEverything(f: Feed, m: ActionReport)
    requires f.subscribed == AcceptedAsWritten(AllContracts)
    ensures Handle(f, m) == Success(f)
  {
  }

  /** With the sentinel read as the active directory, a report for an active
      contract whose book is loaded is logged, and a newer one is applied. */
  lemma AllAcceptsActive(f: Feed, active: set<ContractId>, m: ActionReport)
    requires f.subscribed == Accepted(AllContracts, active)
    requires m.contractId in active && m.contractId in f.books
    ensures Handle(f, m).Success? ==> Handle(f, m).value.logs[m.contractId] == ActionLog.Push(LogOf(f, m.contractId), m)
    ensures Handle(f, m).Success? && m.clock > f.books[m.contractId].clock ==>
      Handle(f, m).value.books[m.contractId].clock == m.clock
  {
  }
}
