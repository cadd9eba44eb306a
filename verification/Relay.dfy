/** Paged relay: chaining pages from each returned cursor is exact. */
module Relay {
  import opened Ops
  import opened SyncState

  ghost predicate Ascending(log: seq<Entry>) {
    forall i, j :: 0 <= i < j < |log| ==> log[i].at < log[j].at
  }

  lemma {:induction false} PendingNone(log: seq<Entry>, cursor: int, exclude: string)
    requires forall e :: e in log ==> e.at <= cursor || e.op.site == exclude
    ensures Pending(log, cursor, exclude) == []
  {
    if log != [] {
      assert forall e :: e in log[..|log| - 1] ==> e in log;
      PendingNone(log[..|log| - 1], cursor, exclude);
      assert log[|log| - 1] in log;
    }
  }

  lemma {:induction false} PendingEvery(log: seq<Entry>, cursor: int, exclude: string)
    requires forall e :: e in log ==> e.at > cursor && e.op.site != exclude
    ensures Pending(log, cursor, exclude) == log
  {
    if log != [] {
      assert forall e :: e in log[..|log| - 1] ==> e in log;
      PendingEvery(log[..|log| - 1], cursor, exclude);
      assert log[|log| - 1] in log;
    }
  }

  /** Raising the cursor filters what was pending at the lower one. */
  lemma {:induction false} PendingRaise(log: seq<Entry>, lo: int, hi: int, exclude: string)
    requires lo <= hi
    ensures Pending(log, hi, exclude) == Pending(Pending(log, lo, exclude), hi, exclude)
  {
    if log != [] {
      var p, e := log[..|log| - 1], log[|log| - 1];
      PendingRaise(p, lo, hi, exclude);
      if e.at > lo && e.op.site != exclude {
        PendingConcat(Pending(p, lo, exclude), [e], hi, exclude);
        assert [e][..0] == [];
      }
    }
  }

  /** Cutting an ascending run of other-site entries after k of them. */
  lemma CutAscending(p: seq<Entry>, k: int, exclude: string)
    requires Ascending(p) && 0 < k <= |p| && forall e :: e in p ==> e.op.site != exclude
    ensures Pending(p, p[k - 1].at, exclude) == p[k..]
  {
    var head, tail, at := p[..k], p[k..], p[k - 1].at;
    assert p == head + tail;
    PendingConcat(head, tail, at, exclude);
    PendingNone(head, at, exclude);
    PendingEvery(tail, at, exclude);
  }

  lemma CutPending(log: seq<Entry>, cursor: int, exclude: string, k: int)
    requires Ascending(log) && 0 < k <= |Pending(log, cursor, exclude)|
    ensures var p := Pending(log, cursor, exclude);
            && p[k - 1] in log && cursor < p[k - 1].at
            && Pending(log, p[k - 1].at, exclude) == p[k..]
  {
    var p := Pending(log, cursor, exclude);
    PendingSorted(log, cursor, exclude);
    forall e | e in p
      ensures e in log && e.at > cursor && e.op.site != exclude
    {
      PendingMember(log, cursor, exclude, e);
    }
    assert p[k - 1] in p;
    PendingRaise(log, cursor, p[k - 1].at, exclude);
    CutAscending(p, k, exclude);
  }

  /** The cursor a chain has reached is its start or the place of an entry. */
  ghost predicate Anchored(log: seq<Entry>, lo: int, hi: int) {
    lo <= hi && (hi == lo || exists e :: e in log && e.at == hi)
  }

  /** Delivered so far, followed by what is still pending, is what was pending at the start. */
  ghost predicate Splits(log: seq<Entry>, lo: int, hi: int, exclude: string, delivered: seq<Entry>) {
    Anchored(log, lo, hi) && delivered + Pending(log, hi, exclude) == Pending(log, lo, exclude)
  }

  /** A page followed by what is pending at the returned cursor is what was pending at the old one. */
  lemma PageSplits(log: seq<Entry>, cursor: int, exclude: string, limit: int)
    requires Ascending(log)
    ensures var page := PageOf(log, cursor, exclude, limit);
            && Splits(log, cursor, page.cursor, exclude, page.entries)
            && (page.hasMore <==> Pending(log, page.cursor, exclude) != [])
            && (page.entries == [] <==> Pending(log, cursor, exclude) == [])
  {
    var page := PageOf(log, cursor, exclude, limit);
    var p := Pending(log, cursor, exclude);
    var k := |page.entries|;
    if k > 0 {
      CutPending(log, cursor, exclude, k);
      assert page.entries == p[..k] && p == p[..k] + p[k..];
      assert page.cursor == p[k - 1].at;
    }
  }

  /** Appends between two rounds: the newer changelog extends the older one. */
  ghost predicate Grows(logs: seq<seq<Entry>>) {
    && (forall i :: 0 <= i < |logs| ==> Ascending(logs[i]))
    && (forall i :: 0 < i < |logs| ==> logs[i - 1] <= logs[i])
  }

  datatype Drained = Drained(delivered: seq<Entry>, cursor: int, hasMore: bool)

  /** One pull per changelog snapshot, each from the cursor the previous one returned. */
  function Chain(logs: seq<seq<Entry>>, limits: seq<int>, cursor: int, exclude: string): Drained
    requires |limits| == |logs|
  {
    if logs == [] then Drained([], cursor, true)
    else
      var n := |logs| - 1;
      var before := Chain(logs[..n], limits[..n], cursor, exclude);
      var page := PageOf(logs[n], before.cursor, exclude, limits[n]);
      Drained(before.delivered + page.entries, page.cursor, page.hasMore)
  }

  /** Appending to the changelog keeps a split a split. */
  lemma SplitExtends(log: seq<Entry>, log': seq<Entry>, lo: int, hi: int, exclude: string, delivered: seq<Entry>)
    requires Ascending(log') && log <= log' && Splits(log, lo, hi, exclude, delivered)
    ensures Splits(log', lo, hi, exclude, delivered)
  {
    var more := log'[|log|..];
    assert log' == log + more;
    PendingConcat(log, more, lo, exclude);
    PendingConcat(log, more, hi, exclude);
    if hi != lo {
      SamePending(more, lo, hi, exclude);
    }
    var rest := Pending(more, hi, exclude);
    assert delivered + (Pending(log, hi, exclude) + rest) == (delivered + Pending(log, hi, exclude)) + rest;
  }

  lemma SplitCompose(log: seq<Entry>, a: int, b: int, c: int, exclude: string, d1: seq<Entry>, d2: seq<Entry>)
    requires Splits(log, a, b, exclude, d1) && Splits(log, b, c, exclude, d2)
    ensures Splits(log, a, c, exclude, d1 + d2)
  {
    var rest := Pending(log, c, exclude);
    assert (d1 + d2) + rest == d1 + (d2 + rest);
  }

  lemma {:induction false} SamePending(log: seq<Entry>, lo: int, hi: int, exclude: string)
    requires lo <= hi && forall f :: f in log ==> f.at > hi
    ensures Pending(log, lo, exclude) == Pending(log, hi, exclude)
  {
    if log != [] {
      assert forall e :: e in log[..|log| - 1] ==> e in log;
      SamePending(log[..|log| - 1], lo, hi, exclude);
      assert log[|log| - 1] in log;
    }
  }

  /**
   Exact relay: over any rounds, limits and interleaved appends, what has been delivered followed by
   what is still pending is, in order, every other-site entry past the starting cursor. So nothing is
   skipped or repeated, and an answer without has_more means nothing remained at that moment.
   */
  lemma {:induction false} ChainExact(logs: seq<seq<Entry>>, limits: seq<int>, cursor: int, exclude: string)
    requires |limits| == |logs| && |logs| > 0 && Grows(logs)
    ensures var c := Chain(logs, limits, cursor, exclude);
            var log := logs[|logs| - 1];
            && Splits(log, cursor, c.cursor, exclude, c.delivered)
            && (!c.hasMore <==> c.delivered == Pending(log, cursor, exclude))
  {
    var n := |logs| - 1;
    var log := logs[n];
    var before := Chain(logs[..n], limits[..n], cursor, exclude);
    if n > 0 {
      GrowsInit(logs);
      ChainExact(logs[..n], limits[..n], cursor, exclude);
      SplitExtends(logs[n - 1], log, cursor, before.cursor, exclude, before.delivered);
    }
    ChainStep(log, cursor, before.cursor, exclude, before.delivered, limits[n]);
  }

  lemma GrowsInit(logs: seq<seq<Entry>>)
    requires Grows(logs) && |logs| > 1
    ensures Grows(logs[..|logs| - 1]) && logs[|logs| - 2] <= logs[|logs| - 1] && logs[..|logs| - 1][|logs| - 2] == logs[|logs| - 2]
  {
  }

  /** One more page on top of what was delivered. */
  lemma ChainStep(log: seq<Entry>, start: int, cursor: int, exclude: string, delivered: seq<Entry>, limit: int)
    requires Ascending(log) && Splits(log, start, cursor, exclude, delivered)
    ensures var page := PageOf(log, cursor, exclude, limit);
            var all := delivered + page.entries;
            && Splits(log, start, page.cursor, exclude, all)
            && (!page.hasMore <==> all == Pending(log, start, exclude))
  {
    var page := PageOf(log, cursor, exclude, limit);
    PageSplits(log, cursor, exclude, limit);
    SplitCompose(log, start, cursor, page.cursor, exclude, delivered, page.entries);
  }

  /** The client's loop against an idle server: it terminates, with everything. */
  method DrainIdle(log: seq<Entry>, cursor: int, exclude: string, limit: int) returns (delivered: seq<Entry>, last: int)
    requires Ascending(log)
    ensures delivered == Pending(log, cursor, exclude)
    ensures Pending(log, last, exclude) == []
  {
    delivered, last := [], cursor;
    var more := true;
    while more
      invariant Splits(log, cursor, last, exclude, delivered)
      invariant !more ==> Pending(log, last, exclude) == []
      decreases more, |Pending(log, last, exclude)|
    {
      var page := PageOf(log, last, exclude, limit);
      PageSplits(log, last, exclude, limit);
      SplitCompose(log, cursor, last, page.cursor, exclude, delivered, page.entries);
      delivered, last, more := delivered + page.entries, page.cursor, page.hasMore;
    }
  }
}
