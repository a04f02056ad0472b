/** The per-contract history of action reports (a `deque(maxlen=100)` in
    the Python feed) and the order in which a replay visits it. */
module ActionLog {
  import opened Messages

  /** Only the most recent `LogCapacity` reports of a contract are kept. */
  const LogCapacity: nat := 100

  /** `deque.append` on a bounded deque: the report goes to the end and the
      oldest entry falls off the front once there are more than 100. */
  function Push(log: seq<ActionReport>, m: ActionReport): (r: seq<ActionReport>)
    ensures |r| == if |log| + 1 <= LogCapacity then |log| + 1 else LogCapacity
    ensures r[|r| - 1] == m
    ensures r[..|r| - 1] == log[|log| + 1 - |r|..]
  {
    var l := log + [m];
    if |l| <= LogCapacity then l else l[|l| - LogCapacity..]
  }

  /** Reports in non-decreasing clock order. */
  predicate Sorted(s: seq<ActionReport>) {
    forall i, j :: 0 <= i < j < |s| ==> s[i].clock <= s[j].clock
  }

  function Reverse(s: seq<ActionReport>): (r: seq<ActionReport>)
    ensures |r| == |s|
    ensures forall i :: 0 <= i < |s| ==> r[i] == s[|s| - 1 - i]
    ensures multiset(r) == multiset(s)
  {
    if s == [] then []
    else
      assert s == [s[0]] + s[1..];
      Reverse(s[1..]) + [s[0]]
  }

  lemma SortedTail(t: seq<ActionReport>)
    requires Sorted(t) && t != []
    ensures Sorted(t[1..])
    ensures forall k :: 0 <= k < |t[1..]| ==> t[0].clock <= t[1..][k].clock
  {
    forall i, j | 0 <= i < j < |t| - 1
      ensures t[1..][i].clock <= t[1..][j].clock
    {
      assert t[1..][i] == t[i + 1] && t[1..][j] == t[j + 1];
    }
  }

  /** A report below every entry of a sorted sequence can go in front of it. */
  lemma SortedCons(y: ActionReport, rest: seq<ActionReport>)
    requires Sorted(rest)
    requires forall k :: 0 <= k < |rest| ==> y.clock <= rest[k].clock
    ensures Sorted([y] + rest)
  {
    var r := [y] + rest;
    forall i, j | 0 <= i < j < |r|
      ensures r[i].clock <= r[j].clock
    {
      assert r[j] == rest[j - 1];
      if i > 0 {
        assert r[i] == rest[i - 1];
      }
    }
  }

  /** Every element of `rest`, a permutation of `tail + [x]`, has a clock no
      smaller than `y`'s when `y` bounds `tail` and `x` from below. */
  lemma LowerBound(y: ActionReport, x: ActionReport, tail: seq<ActionReport>, rest: seq<ActionReport>)
    requires multiset(rest) == multiset(tail) + multiset{x}
    requires y.clock <= x.clock
    requires forall k :: 0 <= k < |tail| ==> y.clock <= tail[k].clock
    ensures forall k :: 0 <= k < |rest| ==> y.clock <= rest[k].clock
  {
    forall k | 0 <= k < |rest|
      ensures y.clock <= rest[k].clock
    {
      assert rest[k] in multiset(rest);
      if rest[k] != x {
        assert rest[k] in multiset(tail);
        var j :| 0 <= j < |tail| && tail[j] == rest[k];
      }
    }
  }

  /** Puts `x` into the sorted `t`, ahead of the entries with the same clock
      (that placement is not part of the contract). */
  function Insert(x: ActionReport, t: seq<ActionReport>): (r: seq<ActionReport>)
    requires Sorted(t)
    ensures Sorted(r)
    ensures multiset(r) == multiset(t) + multiset{x}
    ensures |r| == |t| + 1
  {
    if t == [] || x.clock <= t[0].clock then
      SortedCons(x, t);
      [x] + t
    else
      SortedTail(t);
      var rest := Insert(x, t[1..]);
      assert t == [t[0]] + t[1..];
      LowerBound(t[0], x, t[1..], rest);
      SortedCons(t[0], rest);
      [t[0]] + rest
  }

  /** An insertion sort by clock. It keeps entries with equal clocks in
      their original order; the contract states only order and permutation. */
  function SortByClock(s: seq<ActionReport>): (r: seq<ActionReport>)
    ensures Sorted(r)
    ensures multiset(r) == multiset(s)
    ensures |r| == |s|
  {
    if s == [] then []
    else
      assert s == [s[0]] + s[1..];
      Insert(s[0], SortByClock(s[1..]))
  }

  /** The order in which a replay visits the log. The Python code sorts the
      log with `reverse=True` and pops entries off the end: ascending clock,
      and among equal clocks the most recently logged first, which is a
      stable ascending sort of the reversed log. The contract below states
      the ascending order and the permutation; the order among equal clocks
      is not part of it.

      As written, `sorted` compares the report dicts themselves, which
      Python 3 refuses as soon as there are two of them (see
      `Feed.ReplayAsWritten`); the sort key here is the clock, as the
      comment beside that call intends. */
  function VisitOrder(log: seq<ActionReport>): (r: seq<ActionReport>)
    ensures Sorted(r)
    ensures multiset(r) == multiset(log)
    ensures |r| == |log|
  {
    SortByClock(Reverse(log))
  }
}
