/** The DAV:sync-collection report (RFC 6578): tokens, truncation, and what a client ends up with. */
module SyncCollection {
  import opened Basics

  const PREFIX := "urn:ultrabridge:sync:"

  // ---- the token ----

  datatype Token = Initial | Since(ms: int) | Invalid

  predicate IsDigit(c: char) {
    '0' <= c <= '9'
  }

  function DigitValue(c: char): int {
    c as int - '0' as int
  }

  function Value(s: string): int {
    if s == [] then 0 else Value(s[..|s| - 1]) * 10 + DigitValue(s[|s| - 1])
  }

  predicate AllDigits(s: string) {
    forall i :: 0 <= i < |s| ==> IsDigit(s[i])
  }

  /** A signed decimal in the 64-bit range. */
  function ParseInt(s: string): Option<int> {
    var sign := if s != [] && s[0] == '-' then -1 else 1;
    var body := if s != [] && (s[0] == '-' || s[0] == '+') then s[1..] else s;
    if body == [] || !AllDigits(body) then None
    else if sign * Value(body) < -MAX_INT64 - 1 || sign * Value(body) > MAX_INT64 then None
    else Some(sign * Value(body))
  }

  function ParseSyncToken(tok: string): Token {
    if tok == "" then Initial
    else if !(PREFIX <= tok) then Invalid
    else match ParseInt(tok[|PREFIX|..])
      case None => Invalid
      case Some(ms) => if ms < 0 then Invalid else Since(ms)
  }

  function Pow10(n: nat): int {
    if n == 0 then 1 else 10 * Pow10(n - 1)
  }

  /** Decimal places: what stands before counts ten times more for each digit after it. */
  lemma {:induction false} ValueConcat(a: string, b: string)
    ensures Value(a + b) == Value(a) * Pow10(|b|) + Value(b)
    ensures b != [] && |b| == 1 ==> Value(b) == b[0] as int - '0' as int
  {
    if b == [] {
      assert a + b == a;
    } else {
      var p := b[..|b| - 1];
      ValueConcat(a, p);
      assert (a + b)[..|a + b| - 1] == a + p;
      Shift(Value(a), Pow10(|p|));
    }
  }

  lemma Shift(x: int, p: int)
    ensures x * p * 10 == x * (10 * p)
  {
  }

  /** A token for a bound: the prefix, at most a plus sign, and its decimal digits; a minus sign only before zero. */
  ghost predicate TokenFor(tok: string, digits: string, ms: int) {
    && digits != "" && (forall i :: 0 <= i < |digits| ==> '0' <= digits[i] <= '9')
    && Value(digits) == ms && ms <= 0x7fff_ffff_ffff_ffff
    && (tok == "urn:ultrabridge:sync:" + digits || tok == "urn:ultrabridge:sync:" + "+" + digits
        || (tok == "urn:ultrabridge:sync:" + "-" + digits && ms == 0))
  }

  lemma {:induction false} ValueNat(s: string)
    requires forall i :: 0 <= i < |s| ==> IsDigit(s[i])
    ensures Value(s) >= 0
  {
    if s != [] {
      ValueNat(s[..|s| - 1]);
    }
  }

  /** Exactly these tokens are accepted, besides the empty one. */
  lemma TokenIff(tok: string, ms: int)
    ensures ParseSyncToken(tok) == Since(ms) <==> exists digits :: TokenFor(tok, digits, ms)
    ensures ParseSyncToken(tok).Initial? <==> tok == ""
  {
    if ParseSyncToken(tok) == Since(ms) {
      var digits := AcceptedDigits(tok, ms);
    } else if digits :| TokenFor(tok, digits, ms) {
      DigitsAccepted(tok, digits, ms);
      assert false;
    }
  }

  lemma SignedDigits(s: string) returns (digits: string)
    requires ParseInt(s).Some?
    ensures s != "" && digits == (if s[0] == '-' || s[0] == '+' then s[1..] else s)
    ensures digits != "" && (forall i :: 0 <= i < |digits| ==> IsDigit(digits[i]))
    ensures ParseInt(s).value == (if s[0] == '-' then -1 else 1) * Value(digits) && -MAX_INT64 - 1 <= ParseInt(s).value <= MAX_INT64
  {
    digits := if s != [] && (s[0] == '-' || s[0] == '+') then s[1..] else s;
    assert AllDigits(digits);
  }

  lemma AcceptedDigits(tok: string, ms: int) returns (digits: string)
    requires ParseSyncToken(tok) == Since(ms)
    ensures TokenFor(tok, digits, ms)
  {
    var s := tok[|PREFIX|..];
    assert tok == PREFIX + s;
    assert ParseInt(s).Some? && ParseInt(s).value == ms;
    digits := SignedDigits(s);
    ValueNat(digits);
    if s[0] == '-' || s[0] == '+' {
      assert s == [s[0]] + digits;
      assert tok == PREFIX + [s[0]] + digits;
    }
  }

  lemma DigitsAccepted(tok: string, digits: string, ms: int)
    requires TokenFor(tok, digits, ms)
    ensures ParseSyncToken(tok) == Since(ms)
  {
    ValueNat(digits);
    assert IsDigit(digits[0]);
    var s := tok[|PREFIX|..];
    if tok == PREFIX + digits {
      assert s == digits;
    } else if tok == PREFIX + "+" + digits {
      assert s == "+" + digits && s[1..] == digits;
    } else {
      assert s == "-" + digits && s[1..] == digits;
    }
  }

  function FormatNat(n: nat): (s: string)
    ensures s != [] && forall i :: 0 <= i < |s| ==> IsDigit(s[i])
    ensures Value(s) == n
  {
    var c := (n % 10 + '0' as int) as char;
    if n < 10 then [c]
    else
      var p := FormatNat(n / 10);
      assert (p + [c])[..|p|] == p;
      p + [c]
  }

  function FormatSyncToken(ms: nat): string {
    PREFIX + FormatNat(ms)
  }

  /** The token a report returns is one the server accepts, for the same bound. */
  lemma TokenRoundTrip(ms: nat)
    requires ms <= MAX_INT64
    ensures ParseSyncToken(FormatSyncToken(ms)) == Since(ms)
  {
    var d := FormatNat(ms);
    assert (PREFIX + d)[|PREFIX|..] == d;
    assert IsDigit(d[0]);
  }

  // ---- the store ----

  datatype Task = Task(id: string, updatedAt: int, deleted: bool, body: int)

  type Tasks = map<string, Task>

  ghost predicate TasksOk(t: Tasks) {
    forall id :: id in t ==> t[id].id == id && t[id].updatedAt > 0
  }

  /** The rows written at or after a bound, each once, by ascending updated_at. */
  ghost predicate ChangedSince(t: Tasks, since: int, rows: seq<Task>) {
    && (forall i, j :: 0 <= i < j < |rows| ==> rows[i].updatedAt <= rows[j].updatedAt)
    && (forall i, j :: 0 <= i < j < |rows| ==> rows[i].id != rows[j].id)
    && (forall i :: 0 <= i < |rows| ==> rows[i].id in t && t[rows[i].id] == rows[i] && rows[i].updatedAt >= since)
    && (forall id :: id in t && t[id].updatedAt >= since ==> Listed(rows, t[id]))
  }

  ghost predicate Listed(rows: seq<Task>, r: Task) {
    exists i :: 0 <= i < |rows| && rows[i] == r
  }

  /** The live rows, each once, in no particular order. */
  ghost predicate LiveRows(t: Tasks, rows: seq<Task>) {
    && (forall i, j :: 0 <= i < j < |rows| ==> rows[i].id != rows[j].id)
    && (forall i :: 0 <= i < |rows| ==> rows[i].id in t && t[rows[i].id] == rows[i] && !rows[i].deleted)
    && (forall id :: id in t && !t[id].deleted ==> Listed(rows, t[id]))
  }

  /** The collection token: the newest write, tombstones included, or 0. */
  ghost predicate IsMax(t: Tasks, m: int) {
    && (forall id :: id in t ==> t[id].updatedAt <= m)
    && (if t == map[] then m == 0 else exists id :: id in t && t[id].updatedAt == m)
  }

  datatype Report = Refused | Report(rows: seq<Task>, token: int, truncated: bool)

  /** Answer one report from what the store listed, the collection token and the floor. */
  method ServeSyncCollection(tok: string, nresults: int, floor: int, changed: seq<Task>, live: seq<Task>, newest: int) returns (r: Report)
    ensures r.Refused? <==> ParseSyncToken(tok).Invalid?
                            || (ParseSyncToken(tok).Since? && floor > 0 && ParseSyncToken(tok).ms < floor)
    ensures r.Report? ==> r == Answer(if ParseSyncToken(tok).Initial? then live else changed, nresults, newest)
    ensures r.Report? ==>
              var rows := if tok == "" then live else changed;
              && |r.rows| == (if 0 < nresults < |rows| then nresults else |rows|) && r.rows == rows[..|r.rows|]
              && (r.truncated <==> 0 < nresults < |rows|)
              && r.token == if r.truncated && rows[nresults - 1].updatedAt > 0 then rows[nresults - 1].updatedAt else newest
  {
    var t := ParseSyncToken(tok);
    if t.Invalid? {
      return Refused;
    }
    if t.Since? && floor > 0 && t.ms < floor {
      return Refused;
    }
    var rows := if t.Initial? then live else changed;
    var token := newest;
    var truncated := false;
    if nresults > 0 && |rows| > nresults {
      rows := rows[..nresults];
      truncated := true;
      if rows[|rows| - 1].updatedAt > 0 {
        token := rows[|rows| - 1].updatedAt;
      }
    }
    return Report(rows, token, truncated);
  }

  function Answer(rows: seq<Task>, nresults: int, newest: int): Report {
    if nresults > 0 && |rows| > nresults then
      var last := rows[nresults - 1].updatedAt;
      Report(rows[..nresults], if last > 0 then last else newest, true)
    else Report(rows, newest, false)
  }

  // ---- the client ----

  datatype Client = Client(have: map<string, int>, token: int)

  function ApplyRow(have: map<string, int>, r: Task): map<string, int> {
    if r.deleted then have - {r.id} else have[r.id := r.body]
  }

  function ApplyRows(have: map<string, int>, rows: seq<Task>): map<string, int> {
    if rows == [] then have else ApplyRow(ApplyRows(have, rows[..|rows| - 1]), rows[|rows| - 1])
  }

  /** The client shows this row as the server has it: absent if deleted, with its body if live. */
  predicate Shows(have: map<string, int>, r: Task) {
    if r.deleted then r.id !in have else r.id in have && have[r.id] == r.body
  }

  /** Every row is shown as it is, or was written at or after the client's token; nothing else is shown. */
  ghost predicate InStep(t: Tasks, c: Client) {
    && (forall id :: id in t ==> Shows(c.have, t[id]) || t[id].updatedAt >= c.token)
    && (forall id :: id in c.have ==> id in t)
    && (forall id :: id in t ==> t[id].id == id && t[id].updatedAt > 0)
    && (c.token <= 0 || exists id :: id in t && t[id].updatedAt >= c.token)
  }

  /** Exactly the live set. */
  ghost predicate Exact(t: Tasks, c: Client) {
    && (forall id :: id in t ==> Shows(c.have, t[id]))
    && (forall id :: id in c.have ==> id in t)
  }

  lemma {:induction false} ApplyRowsShows(have: map<string, int>, rows: seq<Task>)
    requires forall i, j :: 0 <= i < j < |rows| ==> rows[i].id != rows[j].id
    ensures forall i :: 0 <= i < |rows| ==> Shows(ApplyRows(have, rows), rows[i])
    ensures forall id :: (forall i :: 0 <= i < |rows| ==> rows[i].id != id) ==>
              (id in ApplyRows(have, rows) <==> id in have) && (id in have ==> ApplyRows(have, rows)[id] == have[id])
    ensures forall id :: id in ApplyRows(have, rows) ==> id in have || exists i :: 0 <= i < |rows| && rows[i].id == id
  {
    if rows != [] {
      var p := rows[..|rows| - 1];
      ApplyRowsShows(have, p);
    }
  }

  function Applied(c: Client, r: Report): Client
    requires r.Report?
  {
    Client(ApplyRows(c.have, r.rows), r.token)
  }

  /**
   One incremental report never skips a change: a row written at or after the old token is in the
   report, or was written at or after the returned token.
   */
  lemma NoChangeSkipped(t: Tasks, since: int, rows: seq<Task>, n: int, newest: int, id: string)
    requires TasksOk(t) && ChangedSince(t, since, rows) && IsMax(t, newest)
    requires id in t && t[id].updatedAt >= since
    ensures var r := Answer(rows, n, newest); Listed(r.rows, t[id]) || t[id].updatedAt >= r.token
  {
    assert Listed(rows, t[id]);
    var i :| 0 <= i < |rows| && rows[i] == t[id];
    var r := Answer(rows, n, newest);
    if r.truncated && i < n {
      assert r.rows[i] == t[id];
    }
  }

  lemma ReportRow(t: Tasks, c: Client, rows: seq<Task>, n: int, newest: int, id: string)
    requires InStep(t, c) && ChangedSince(t, c.token, rows) && IsMax(t, newest) && id in t
    ensures var c' := Applied(c, Answer(rows, n, newest)); Shows(c'.have, t[id]) || t[id].updatedAt >= c'.token
    ensures !Answer(rows, n, newest).truncated ==> Shows(Applied(c, Answer(rows, n, newest)).have, t[id])
  {
    var r := Answer(rows, n, newest);
    ApplyRowsShows(c.have, r.rows);
    if t[id].updatedAt >= c.token {
      NoChangeSkipped(t, c.token, rows, n, newest, id);
      assert Listed(rows, t[id]);
    } else {
      forall i | 0 <= i < |r.rows|
        ensures r.rows[i].id != id
      {
        assert r.rows[i] == rows[i];
      }
    }
  }

  /** An incremental report, truncated or not, keeps the client in step; an untruncated one makes it exact. */
  lemma ReportKeepsInStep(t: Tasks, c: Client, rows: seq<Task>, n: int, newest: int)
    requires InStep(t, c) && ChangedSince(t, c.token, rows) && IsMax(t, newest)
    ensures InStep(t, Applied(c, Answer(rows, n, newest)))
    ensures !Answer(rows, n, newest).truncated ==> Exact(t, Applied(c, Answer(rows, n, newest)))
  {
    var r := Answer(rows, n, newest);
    var c' := Applied(c, r);
    forall id | id in t
      ensures Shows(c'.have, t[id]) || t[id].updatedAt >= c'.token
      ensures !r.truncated ==> Shows(c'.have, t[id])
    {
      ReportRow(t, c, rows, n, newest, id);
    }
    ApplyRowsShows(c.have, r.rows);
    forall id | id in c'.have
      ensures id in t
    {
      if id !in c.have {
        var i :| 0 <= i < |r.rows| && r.rows[i].id == id;
        assert r.rows[i] == rows[i];
      }
    }
    if r.truncated {
      assert rows[n - 1].id in t;
    }
  }

  /** A write under a clock that does not run backwards keeps every client in step. */
  lemma WriteKeepsInStep(t: Tasks, c: Client, r: Task)
    requires InStep(t, c) && r.updatedAt > 0
    requires forall id :: id in t ==> t[id].updatedAt <= r.updatedAt
    ensures InStep(t[r.id := r], c)
  {
    var t' := t[r.id := r];
    assert r.id in t';
  }

  /** An untruncated initial report starts a client exact. */
  lemma InitialIsExact(t: Tasks, rows: seq<Task>, newest: int)
    requires TasksOk(t) && LiveRows(t, rows) && IsMax(t, newest)
    ensures var c := Applied(Client(map[], 0), Answer(rows, 0, newest)); Exact(t, c) && InStep(t, c)
  {
    ApplyRowsShows(map[], rows);
    var c := Applied(Client(map[], 0), Answer(rows, 0, newest));
    forall id | id in t
      ensures Shows(c.have, t[id])
    {
      if t[id].deleted {
        forall i | 0 <= i < |rows|
          ensures rows[i].id != id
        {
        }
      } else {
        assert Listed(rows, t[id]);
      }
    }
  }

  // ---- whole sessions ----

  datatype Event = Write(row: Task) | Pull(rows: seq<Task>, limit: int, newest: int)

  datatype Session = Session(tasks: Tasks, client: Client)

  ghost predicate Possible(s: Session, e: Event) {
    match e
    case Write(r) => r.updatedAt > 0 && forall id :: id in s.tasks ==> s.tasks[id].updatedAt <= r.updatedAt
    case Pull(rows, _, newest) => ChangedSince(s.tasks, s.client.token, rows) && IsMax(s.tasks, newest)
  }

  ghost function After(s: Session, e: Event): Session {
    match e
    case Write(r) => s.(tasks := s.tasks[r.id := r])
    case Pull(rows, limit, newest) => s.(client := Applied(s.client, Answer(rows, limit, newest)))
  }

  ghost predicate IsSession(ss: seq<Session>, es: seq<Event>) {
    && |ss| == |es| + 1
    && forall i :: 0 <= i < |es| ==> Possible(ss[i], es[i]) && ss[i + 1] == After(ss[i], es[i])
  }

  lemma {:induction false} SessionInStep(ss: seq<Session>, es: seq<Event>, n: int)
    requires IsSession(ss, es) && InStep(ss[0].tasks, ss[0].client) && 0 <= n <= |es|
    ensures InStep(ss[n].tasks, ss[n].client)
  {
    if n > 0 {
      SessionInStep(ss, es, n - 1);
      match es[n - 1]
      case Write(r) => WriteKeepsInStep(ss[n - 1].tasks, ss[n - 1].client, r);
      case Pull(rows, limit, newest) => ReportKeepsInStep(ss[n - 1].tasks, ss[n - 1].client, rows, limit, newest);
    }
  }

  /**
   Any session of writes and incremental pulls under any limits that ends in an untruncated report
   leaves the client with exactly the live set.
   */
  lemma UntruncatedIsExact(ss: seq<Session>, es: seq<Event>)
    requires IsSession(ss, es) && InStep(ss[0].tasks, ss[0].client) && es != []
    requires es[|es| - 1].Pull? && !Answer(es[|es| - 1].rows, es[|es| - 1].limit, es[|es| - 1].newest).truncated
    ensures Exact(ss[|es|].tasks, ss[|es|].client)
  {
    var n := |es| - 1;
    SessionInStep(ss, es, n);
    ReportKeepsInStep(ss[n].tasks, ss[n].client, es[n].rows, es[n].limit, es[n].newest);
  }

  // ---- does a truncated chain get anywhere? ----

  /**
   The next report is strictly shorter exactly when the first n rows do not all carry one
   timestamp; otherwise as many rows come back.
   */
  lemma TruncatedProgressIff(t: Tasks, since: int, rows: seq<Task>, n: int, newest: int, next: seq<Task>)
    requires TasksOk(t) && ChangedSince(t, since, rows) && 0 < n < |rows|
    requires ChangedSince(t, Answer(rows, n, newest).token, next)
    ensures |next| < |rows| <==> rows[0].updatedAt < rows[n - 1].updatedAt
  {
    var token := rows[n - 1].updatedAt;
    assert t[rows[n - 1].id].updatedAt > 0;
    if rows[0].updatedAt < token {
      assert rows[0].id in t;
      forall i | 0 <= i < |next|
        ensures Listed(rows, next[i]) && next[i] != rows[0]
      {
      }
      ShorterList(next, rows);
    } else {
      forall i | 0 <= i < |rows|
        ensures Listed(next, rows[i])
      {
      }
      LongerList(rows, next);
    }
  }

  ghost predicate Distinct(rows: seq<Task>) {
    forall i, j :: 0 <= i < j < |rows| ==> rows[i].id != rows[j].id
  }

  lemma {:induction false} LongerList(a: seq<Task>, b: seq<Task>)
    requires Distinct(a) && forall i :: 0 <= i < |a| ==> Listed(b, a[i])
    ensures |a| <= |b|
  {
    if a != [] {
      var x := a[|a| - 1];
      assert Listed(b, x);
      var j :| 0 <= j < |b| && b[j] == x;
      var b' := b[..j] + b[j + 1..];
      var p := a[..|a| - 1];
      forall i | 0 <= i < |p|
        ensures Listed(b', p[i])
      {
        assert Listed(b, a[i]);
        var k :| 0 <= k < |b| && b[k] == a[i];
        assert k != j;
        assert b'[if k < j then k else k - 1] == a[i];
      }
      LongerList(p, b');
    }
  }

  lemma ShorterList(a: seq<Task>, b: seq<Task>)
    requires Distinct(a) && b != [] && forall i :: 0 <= i < |a| ==> Listed(b, a[i]) && a[i] != b[0]
    ensures |a| < |b|
  {
    forall i | 0 <= i < |a|
      ensures Listed(b[1..], a[i])
    {
      assert Listed(b, a[i]);
      var k :| 0 <= k < |b| && b[k] == a[i];
      assert b[1..][k - 1] == a[i];
    }
    LongerList(a, b[1..]);
  }

  // ---- when a whole chain of truncated reports ends ----

  ghost function AtStamp(t: Tasks, v: int): set<string> {
    set id | id in t && t[id].updatedAt == v
  }

  ghost function FromStamp(t: Tasks, v: int): set<string> {
    set id | id in t && t[id].updatedAt >= v
  }

  /** From the bound on, some n rows or more share a timestamp, and they are not the last n. */
  ghost predicate Clump(t: Tasks, since: int, n: int) {
    exists v :: v >= since && |AtStamp(t, v)| >= n && |FromStamp(t, v)| > n
  }

  function IdsOf(rows: seq<Task>): set<string> {
    set r | r in rows :: r.id
  }

  lemma {:induction false} IdsCount(rows: seq<Task>)
    requires Distinct(rows)
    ensures |IdsOf(rows)| == |rows|
  {
    if rows != [] {
      var p, last := rows[..|rows| - 1], rows[|rows| - 1];
      IdsCount(p);
      assert rows == p + [last];
      assert IdsOf(rows) == IdsOf(p) + {last.id};
      assert last.id !in IdsOf(p);
    }
  }

  lemma ListSize(t: Tasks, since: int, rows: seq<Task>)
    requires TasksOk(t) && ChangedSince(t, since, rows)
    ensures |rows| == |FromStamp(t, since)|
  {
    IdsCount(rows);
    forall id | id in FromStamp(t, since)
      ensures id in IdsOf(rows)
    {
      assert Listed(rows, t[id]);
    }
    assert IdsOf(rows) == FromStamp(t, since);
  }

  /** Reports under one limit on a table that does not change, each from the token of the one before, which was truncated. */
  ghost predicate IsChain(t: Tasks, n: int, newest: int, tokens: seq<int>, lists: seq<seq<Task>>) {
    && |tokens| == |lists| > 0
    && (forall k :: 0 <= k < |lists| ==> ChangedSince(t, tokens[k], lists[k]))
    && (forall k :: 0 <= k < |lists| - 1 ==> Follows(lists[k], n, newest, tokens[k + 1]))
  }

  predicate Follows(rows: seq<Task>, n: int, newest: int, token: int) {
    Answer(rows, n, newest).truncated && Answer(rows, n, newest).token == token
  }

  /** A truncated report from before a clump does not get past it. */
  lemma ClumpHolds(t: Tasks, since: int, rows: seq<Task>, n: int, v: int)
    requires TasksOk(t) && ChangedSince(t, since, rows) && since <= v && n > 0
    requires |AtStamp(t, v)| >= n && |FromStamp(t, v)| > n
    ensures |rows| > n && rows[n - 1].updatedAt <= v
  {
    ListSize(t, since, rows);
    SubsetSize(FromStamp(t, v), FromStamp(t, since));
    if rows[n - 1].updatedAt > v {
      var head := rows[..n - 1];
      forall id | id in AtStamp(t, v)
        ensures id in IdsOf(head)
      {
        assert Listed(rows, t[id]);
        var i :| 0 <= i < |rows| && rows[i] == t[id];
        assert i < n - 1;
        assert head[i] == t[id];
      }
      IdsCount(head);
      SubsetSize(AtStamp(t, v), IdsOf(head));
    }
  }

  lemma {:induction false} ClumpStalls(t: Tasks, n: int, newest: int, tokens: seq<int>, lists: seq<seq<Task>>, v: int, k: int)
    requires TasksOk(t) && IsChain(t, n, newest, tokens, lists) && n > 0 && 0 <= k < |lists|
    requires tokens[0] <= v && |AtStamp(t, v)| >= n && |FromStamp(t, v)| > n
    ensures tokens[k] <= v && Answer(lists[k], n, newest).truncated
  {
    if k > 0 {
      ClumpStalls(t, n, newest, tokens, lists, v, k - 1);
      ClumpHolds(t, tokens[k - 1], lists[k - 1], n, v);
      assert Follows(lists[k - 1], n, newest, tokens[k]);
      assert lists[k - 1][n - 1].id in t;
    }
    ClumpHolds(t, tokens[k], lists[k], n, v);
  }

  /** Without a clump a truncated report starts and ends at different timestamps. */
  lemma NoClumpMoves(t: Tasks, since: int, rows: seq<Task>, n: int)
    requires TasksOk(t) && ChangedSince(t, since, rows) && 0 < n < |rows| && !Clump(t, since, n)
    ensures rows[0].updatedAt < rows[n - 1].updatedAt
  {
    var v := rows[0].updatedAt;
    if rows[n - 1].updatedAt == v {
      var head := rows[..n];
      IdsCount(head);
      forall r | r in head
        ensures r.id in AtStamp(t, v)
      {
        var i :| 0 <= i < n && rows[i] == r;
      }
      SubsetSize(IdsOf(head), AtStamp(t, v));
      ListSize(t, since, rows);
      forall id | id in FromStamp(t, since)
        ensures id in FromStamp(t, v)
      {
        assert Listed(rows, t[id]);
      }
      SubsetSize(FromStamp(t, since), FromStamp(t, v));
    }
  }

  lemma {:induction false} ChainShrinks(t: Tasks, n: int, newest: int, tokens: seq<int>, lists: seq<seq<Task>>, k: int)
    requires TasksOk(t) && IsChain(t, n, newest, tokens, lists) && n > 0 && 0 <= k < |lists| && !Clump(t, tokens[0], n)
    ensures tokens[0] <= tokens[k] && |lists[k]| + k <= |lists[0]|
  {
    if k > 0 {
      ChainShrinks(t, n, newest, tokens, lists, k - 1);
      var since, rows := tokens[k - 1], lists[k - 1];
      assert Follows(rows, n, newest, tokens[k]);
      assert !Clump(t, since, n);
      NoClumpMoves(t, since, rows, n);
      assert rows[n - 1].id in t;
      TruncatedProgressIff(t, since, rows, n, newest, lists[k]);
    }
  }

  /** The rows from a later bound on are the end of the list. */
  lemma LaterList(t: Tasks, since: int, rows: seq<Task>, u: int) returns (next: seq<Task>)
    requires ChangedSince(t, since, rows) && since <= u
    ensures ChangedSince(t, u, next)
  {
    var i := FirstFrom(rows, u);
    next := rows[i..];
    forall id | id in t && t[id].updatedAt >= u
      ensures Listed(next, t[id])
    {
      assert Listed(rows, t[id]);
      var j :| 0 <= j < |rows| && rows[j] == t[id];
      assert next[j - i] == t[id];
    }
  }

  lemma {:induction false} FirstFrom(rows: seq<Task>, u: int) returns (i: nat)
    requires forall i, j :: 0 <= i < j < |rows| ==> rows[i].updatedAt <= rows[j].updatedAt
    ensures i <= |rows| && (forall j :: 0 <= j < i ==> rows[j].updatedAt < u) && forall j :: i <= j < |rows| ==> rows[j].updatedAt >= u
  {
    if rows == [] || rows[0].updatedAt >= u {
      i := 0;
    } else {
      var k := FirstFrom(rows[1..], u);
      i := k + 1;
      forall j | 0 <= j < i
        ensures rows[j].updatedAt < u
      {
        assert j > 0 ==> rows[j] == rows[1..][j - 1];
      }
      forall j | i <= j < |rows|
        ensures rows[j].updatedAt >= u
      {
        assert rows[j] == rows[1..][j - 1];
      }
    }
  }

  /** Into a clump the chain can be made as long as one likes. */
  lemma {:induction false} LongChain(t: Tasks, since: int, rows: seq<Task>, n: int, newest: int, v: int, m: nat)
    returns (tokens: seq<int>, lists: seq<seq<Task>>)
    requires TasksOk(t) && ChangedSince(t, since, rows) && n > 0
    requires since <= v && |AtStamp(t, v)| >= n && |FromStamp(t, v)| > n
    ensures IsChain(t, n, newest, tokens, lists) && |lists| == m + 1 && tokens[0] == since && lists[0] == rows
  {
    if m == 0 {
      tokens, lists := [since], [rows];
    } else {
      var ts, ls := LongChain(t, since, rows, n, newest, v, m - 1);
      ClumpStalls(t, n, newest, ts, ls, v, m - 1);
      var token := Answer(ls[m - 1], n, newest).token;
      assert ls[m - 1][n - 1].id in t;
      var next := LaterList(t, ts[m - 1], ls[m - 1], token);
      ChainSnoc(t, n, newest, ts, ls, token, next);
      tokens, lists := ts + [token], ls + [next];
    }
  }

  lemma ChainSnoc(t: Tasks, n: int, newest: int, ts: seq<int>, ls: seq<seq<Task>>, token: int, next: seq<Task>)
    requires IsChain(t, n, newest, ts, ls) && Follows(ls[|ls| - 1], n, newest, token) && ChangedSince(t, token, next)
    ensures IsChain(t, n, newest, ts + [token], ls + [next])
  {
    var tokens, lists := ts + [token], ls + [next];
    forall k | 0 <= k < |lists| - 1
      ensures Follows(lists[k], n, newest, tokens[k + 1])
    {
      if k < |ls| - 1 {
        assert Follows(ls[k], n, newest, ts[k + 1]);
      }
    }
  }

  ghost predicate ChainsEnd(t: Tasks, since: int, rows: seq<Task>, n: int, newest: int, bound: int) {
    forall tokens, lists :: IsChain(t, n, newest, tokens, lists) && tokens[0] == since && lists[0] == rows ==> |lists| <= bound
  }

  /**
   While nothing is written, a client that follows truncated reports reaches an untruncated one, in
   at most one report for each row, if and only if no clump lies ahead.
   */
  lemma TruncationEndsIff(t: Tasks, since: int, rows: seq<Task>, n: int, newest: int)
    requires TasksOk(t) && ChangedSince(t, since, rows) && n > 0
    ensures (exists bound :: ChainsEnd(t, since, rows, n, newest, bound)) <==> !Clump(t, since, n)
    ensures !Clump(t, since, n) ==> ChainsEnd(t, since, rows, n, newest, |rows| + 1)
  {
    if v :| v >= since && |AtStamp(t, v)| >= n && |FromStamp(t, v)| > n {
      forall bound | ChainsEnd(t, since, rows, n, newest, bound)
        ensures false
      {
        var m := if bound < 0 then 0 else bound;
        var tokens, lists := LongChain(t, since, rows, n, newest, v, m);
      }
    } else {
      forall tokens, lists | IsChain(t, n, newest, tokens, lists) && tokens[0] == since && lists[0] == rows
        ensures |lists| <= |rows| + 1
      {
        ChainShrinks(t, n, newest, tokens, lists, |lists| - 1);
      }
      assert ChainsEnd(t, since, rows, n, newest, |rows| + 1);
    }
  }

  /** For instance more than n rows, all written at one time. */
  lemma OneStampStalls(t: Tasks, v: int, n: int)
    requires (forall id :: id in t ==> t[id].updatedAt == v) && |t| > n > 0
    ensures Clump(t, v, n)
  {
    assert AtStamp(t, v) == t.Keys && FromStamp(t, v) == t.Keys;
  }

  // ---- writes between listing the rows and reading the token ----

  /** A later table: rows are written, none is removed, and each write is at or after all that was there. */
  ghost predicate Later(t: Tasks, t': Tasks) {
    && TasksOk(t') && t.Keys <= t'.Keys
    && forall id, x :: id in t' && Written(t, t'[id]) && x in t ==> t[x].updatedAt <= t'[id].updatedAt
  }

  predicate Written(t: Tasks, r: Task) {
    r.id !in t || t[r.id] != r
  }

  /** The write left what the row showed before. */
  predicate ShownBefore(t: Tasks, r: Task) {
    if r.deleted then r.id !in t || t[r.id].deleted else r.id in t && !t[r.id].deleted && t[r.id].body == r.body
  }

  lemma ExactShows(t: Tasks, c: Client, r: Task)
    requires Exact(t, c) && TasksOk(t)
    ensures Shows(c.have, r) <==> ShownBefore(t, r)
  {
    if r.id in t {
      assert Shows(c.have, t[r.id]);
    }
  }

  /**
   The rows come from one read and the token from a later one. The client stays in step if and only
   if the report is truncated, or every row written in between carries the newest timestamp of all
   or shows nothing new: any other write is older than the token and will never be reported.
   */
  lemma WritesBetweenReadsIff(t: Tasks, t': Tasks, c: Client, rows: seq<Task>, n: int, newest: int)
    requires InStep(t, c) && ChangedSince(t, c.token, rows) && Later(t, t') && IsMax(t', newest)
    ensures var a := Answer(rows, n, newest);
            InStep(t', Applied(c, a))
            <==> a.truncated || forall id :: id in t' && Written(t, t'[id]) ==> t'[id].updatedAt == newest || ShownBefore(t, t'[id])
  {
    var a := Answer(rows, n, newest);
    if a.truncated {
      TruncatedSafe(t, t', c, rows, n, newest);
    } else {
      UntruncatedIff(t, t', c, rows, n, newest);
    }
  }

  lemma TruncatedSafe(t: Tasks, t': Tasks, c: Client, rows: seq<Task>, n: int, newest: int)
    requires InStep(t, c) && ChangedSince(t, c.token, rows) && Later(t, t') && IsMax(t', newest) && Answer(rows, n, newest).truncated
    ensures InStep(t', Applied(c, Answer(rows, n, newest)))
  {
    var m := NewestOf(t);
    ReportKeepsInStep(t, c, rows, n, m);
    var last := rows[n - 1];
    assert Applied(c, Answer(rows, n, m)) == Applied(c, Answer(rows, n, newest));
    forall id | id in t' && Written(t, t'[id])
      ensures t'[id].updatedAt >= last.updatedAt
    {
      assert last.id in t;
    }
    assert last.id in t' && t'[last.id].updatedAt >= last.updatedAt;
  }

  /** Some newest write. */
  lemma NewestOf(t: Tasks) returns (m: int)
    ensures IsMax(t, m)
  {
    m := 0;
    if t != map[] {
      var id := MaxId(t, t.Keys);
      m := t[id].updatedAt;
    }
  }

  lemma {:induction false} MaxId(t: Tasks, ids: set<string>) returns (best: string)
    requires ids != {} && ids <= t.Keys
    ensures best in ids && forall x :: x in ids ==> t[x].updatedAt <= t[best].updatedAt
    decreases |ids|
  {
    var id :| id in ids;
    best := id;
    if ids != {id} {
      var rest := ids - {id};
      assert rest != {} by {
        assert ids == rest + {id};
      }
      var b := MaxId(t, rest);
      best := if t[id].updatedAt <= t[b].updatedAt then b else id;
    }
  }

  lemma UntruncatedIff(t: Tasks, t': Tasks, c: Client, rows: seq<Task>, n: int, newest: int)
    requires InStep(t, c) && ChangedSince(t, c.token, rows) && Later(t, t') && IsMax(t', newest) && !Answer(rows, n, newest).truncated
    ensures InStep(t', Applied(c, Answer(rows, n, newest)))
            <==> forall id :: id in t' && Written(t, t'[id]) ==> t'[id].updatedAt == newest || ShownBefore(t, t'[id])
  {
    var m := NewestOf(t);
    ReportKeepsInStep(t, c, rows, n, m);
    var c' := Applied(c, Answer(rows, n, newest));
    assert Applied(c, Answer(rows, n, m)).have == c'.have;
    ExactInStepIff(t, t', c');
  }

  /** A client that shows one table exactly, under the newest token of a later one. */
  lemma ExactInStepIff(t: Tasks, t': Tasks, c: Client)
    requires Exact(t, c) && TasksOk(t) && Later(t, t') && IsMax(t', c.token)
    ensures InStep(t', c)
            <==> forall id :: id in t' && Written(t, t'[id]) ==> t'[id].updatedAt == c.token || ShownBefore(t, t'[id])
  {
    forall id | id in t'
      ensures Shows(c.have, t'[id]) <==> ShownBefore(t, t'[id])
    {
      ExactShows(t, c, t'[id]);
    }
  }

  /** For instance two writes of new rows at different times: the earlier one is lost to the client. */
  lemma WriteBetweenReadsIsLost(t: Tasks, c: Client, rows: seq<Task>, n: int, a: Task, b: Task, newest: int, next: seq<Task>)
    requires InStep(t, c) && ChangedSince(t, c.token, rows) && |rows| <= n
    requires a.id != b.id && !a.deleted && a.updatedAt < b.updatedAt && a.id !in t && b.id !in t
    requires IsMax(t[a.id := a][b.id := b], newest)
    requires ChangedSince(t[a.id := a][b.id := b], Applied(c, Answer(rows, n, newest)).token, next)
    ensures var t' := t[a.id := a][b.id := b];
            var c' := Applied(c, Answer(rows, n, newest));
            !Shows(c'.have, t'[a.id]) && !Listed(next, a)
  {
    var t' := t[a.id := a][b.id := b];
    assert b.id in t' && t'[b.id].updatedAt <= newest;
    ApplyRowsShows(c.have, rows);
  }
}
