/** The Boox job queue: claims, completions, retries, reclaims and operator actions on job rows. */
module BooxQueue {
  import opened Basics

  datatype Status = Pending | InProgress | Done | Failed | Skipped

  datatype Job = Job(path: string, status: Status, attempts: int, queuedAt: int, startedAt: int, requeueAfter: Option<int>)

  type Jobs = map<int, Job>

  const MAX_JOB_ATTEMPTS := 5
  const MINUTE := 60_000_000_000
  const RETRY_BACKOFF_MAX := 30 * MINUTE

  // ---- backoff, in nanoseconds ----

  function Pow2(n: nat): nat {
    if n == 0 then 1 else 2 * Pow2(n - 1)
  }

  function RetryDelay(attempts: int): int {
    var a := if attempts < 1 then 1 else attempts;
    if a > 16 then RETRY_BACKOFF_MAX
    else
      var d := MINUTE * Pow2(a - 1);
      if d > RETRY_BACKOFF_MAX then RETRY_BACKOFF_MAX else d
  }

  lemma {:induction false} Pow2Monotone(m: nat, n: nat)
    requires m <= n
    ensures 1 <= Pow2(m) <= Pow2(n)
  {
    if m < n {
      Pow2Monotone(m, n - 1);
    } else if m > 0 {
      Pow2Monotone(m - 1, m - 1);
    }
  }

  lemma Pow2Values()
    ensures Pow2(4) == 16 && Pow2(5) == 32 && Pow2(15) == 32768
  {
    assert Pow2(2) == 4;
    assert Pow2(6) == 64;
    assert Pow2(8) == 256;
    assert Pow2(10) == 1024;
    assert Pow2(12) == 4096;
    assert Pow2(14) == 16384;
  }

  /** The delay after the n-th attempt is min(2^(n-1), 30) minutes, for every n, although the shift is cut off at 16. */
  lemma RetryDelayClosedForm(n: nat)
    requires n >= 1
    ensures RetryDelay(n) == if Pow2(n - 1) < 30 then 60_000_000_000 * Pow2(n - 1) else 1_800_000_000_000
  {
    Pow2Values();
    if n >= 6 {
      Pow2Monotone(5, n - 1);
    } else {
      Pow2Monotone(n - 1, 4);
    }
  }

  lemma RetryDelayMonotone(m: int, n: int)
    requires m <= n
    ensures RetryDelay(m) <= RetryDelay(n) <= RETRY_BACKOFF_MAX
    ensures MINUTE <= RetryDelay(m)
  {
    var a, b := if m < 1 then 1 else m, if n < 1 then 1 else n;
    RetryDelayClosedForm(a);
    RetryDelayClosedForm(b);
    Pow2Monotone(a - 1, b - 1);
    Pow2Monotone(0, a - 1);
  }

  /** The shifted value the code forms stays inside a 64-bit integer. */
  lemma RetryDelayNoOverflow(n: int)
    requires 1 <= n <= 16
    ensures 0 < MINUTE * Pow2(n - 1) <= MAX_INT64
  {
    Pow2Values();
    Pow2Monotone(n - 1, 15);
  }

  // ---- row updates ----

  predicate Eligible(j: Job, now: int) {
    j.status.Pending? && (j.requeueAfter.None? || j.requeueAfter.value <= now)
  }

  /** The job a claim may take: eligible, and no eligible job was queued earlier. */
  ghost predicate NextUp(jobs: Jobs, id: int, now: int) {
    && id in jobs && Eligible(jobs[id], now)
    && forall x :: x in jobs && Eligible(jobs[x], now) ==> jobs[id].queuedAt <= jobs[x].queuedAt
  }

  function Enqueued(jobs: Jobs, id: int, path: string, now: int): Jobs {
    jobs[id := Job(path, Pending, 0, now, 0, None)]
  }

  function Claimed(jobs: Jobs, id: int, now: int): Jobs
    requires id in jobs
  {
    jobs[id := jobs[id].(status := InProgress, startedAt := now, attempts := jobs[id].attempts + 1)]
  }

  function SetStatus(jobs: Jobs, id: int, status: Status): Jobs {
    if id in jobs then jobs[id := jobs[id].(status := status)] else jobs
  }

  function Requeued(jobs: Jobs, id: int, notBefore: int): Jobs {
    if id in jobs then jobs[id := jobs[id].(status := Pending, requeueAfter := Some(notBefore))] else jobs
  }

  /** A note's latest job is the one with the greatest id. */
  predicate IsLatest(jobs: Jobs, path: string, id: int)
    requires id in jobs
  {
    jobs[id].path == path && forall x :: x in jobs && jobs[x].path == path ==> x <= id
  }

  function SkippedNote(jobs: Jobs, path: string): Jobs {
    map id | id in jobs :: if IsLatest(jobs, path, id) then jobs[id].(status := Skipped) else jobs[id]
  }

  function UnskippedNote(jobs: Jobs, path: string, now: int): Jobs {
    map id | id in jobs ::
      if IsLatest(jobs, path, id) && jobs[id].status.Skipped? then jobs[id].(status := Pending, queuedAt := now) else jobs[id]
  }

  function RetriedFailed(jobs: Jobs, now: int): Jobs {
    map id | id in jobs :: if jobs[id].status.Failed? then jobs[id].(status := Pending, queuedAt := now) else jobs[id]
  }

  /** Reclaim in-progress jobs, all of them or those started before a cutoff. */
  function Reclaimed(jobs: Jobs, cutoff: Option<int>): Jobs {
    map id | id in jobs ::
      if jobs[id].status.InProgress? && (cutoff.None? || jobs[id].startedAt < cutoff.value)
      then jobs[id].(status := Pending, attempts := jobs[id].attempts + 1) else jobs[id]
  }

  function WithoutNote(jobs: Jobs, path: string): Jobs {
    map id | id in jobs && jobs[id].path != path :: jobs[id]
  }

  /** A note gets another path; the tickets workers hold keep the old one. */
  function MovedNote(jobs: Jobs, from: string, to: string): Jobs {
    map id | id in jobs :: if jobs[id].path == from then jobs[id].(path := to) else jobs[id]
  }

  // ---- the worker ----

  /** What a worker holds while it processes a claim: the row as the claim returned it. */
  datatype Ticket = Ticket(id: int, path: string, attempts: int)

  datatype Outcome = Success | Interrupted | EmptyNotebook | TransientFailure | PermanentFailure

  predicate Requeues(t: Ticket, o: Outcome) {
    o.TransientFailure? && t.attempts < MAX_JOB_ATTEMPTS
  }

  /** When a transiently failed job may be claimed again, in seconds. */
  function DueAt(t: Ticket, now: int): int {
    now + RetryDelay(t.attempts) / 1_000_000_000
  }

  /** The delays before the second to the fifth attempt, in seconds. */
  ghost function Backoff(attempts: int): int {
    if attempts <= 1 then 60 else if attempts == 2 then 120 else if attempts == 3 then 240 else 480
  }

  lemma DueIsBackoff(t: Ticket, now: int)
    requires t.attempts < 5
    ensures DueAt(t, now) == now + Backoff(t.attempts)
  {
    assert Pow2(2) == 4 && Pow2(3) == 8;
  }

  /** What the end of a job does to the rows. */
  function Finished(jobs: Jobs, t: Ticket, o: Outcome, now: int): Jobs {
    match o
    case Success => SetStatus(jobs, t.id, Done)
    case Interrupted => jobs
    case EmptyNotebook => SkippedNote(jobs, t.path)
    case TransientFailure =>
      if t.attempts < MAX_JOB_ATTEMPTS then Requeued(jobs, t.id, DueAt(t, now))
      else SetStatus(jobs, t.id, Failed)
    case PermanentFailure => SetStatus(jobs, t.id, Failed)
  }

  /** Some row of a scan whose order is not fixed. */
  method AnyOf<T>(s: set<T>) returns (x: T)
    requires s != {}
    ensures x in s
  {
    x :| x in s;
  }

  class JobStore {
    var jobs: Jobs
    var nextId: int

    constructor ()
      ensures Valid() && jobs == map[] && nextId == 1
    {
      jobs, nextId := map[], 1;
    }

    /** Ids are given out in order and none is used twice. */
    ghost predicate Valid()
      reads this
    {
      forall id :: id in jobs ==> id < nextId
    }

    /** A job under an id no row has, claimable at once; every other row stays. */
    method EnqueueJob(path: string, now: int)
      requires Valid()
      modifies this
      ensures Valid() && nextId == old(nextId) + 1 && jobs == Enqueued(old(jobs), old(nextId), path, now)
      ensures jobs.Keys == old(jobs).Keys + {old(nextId)} && old(nextId) !in old(jobs)
      ensures forall id :: id in old(jobs) ==> jobs[id] == old(jobs)[id]
      ensures jobs[old(nextId)] == Job(path, Pending, 0, now, 0, None)
      ensures IsLatest(jobs, path, old(nextId)) && forall at :: Eligible(jobs[old(nextId)], at)
    {
      jobs := jobs[nextId := Job(path, Pending, 0, now, 0, None)];
      nextId := nextId + 1;
    }

    /** Claim the oldest eligible job, if there is one. */
    method ClaimNextJob(now: int) returns (t: Option<Ticket>)
      modifies this`jobs
      ensures t.None? <==> forall x :: x in old(jobs) ==> !Eligible(old(jobs)[x], now)
      ensures t.None? <==> forall x :: x in old(jobs) && old(jobs)[x].status == Pending ==> old(jobs)[x].requeueAfter.Some? && old(jobs)[x].requeueAfter.value > now
      ensures t.Some? ==>
                var id := t.value.id;
                && id in old(jobs) && jobs.Keys == old(jobs).Keys && (forall x :: x in jobs && x != id ==> jobs[x] == old(jobs)[x])
                && jobs[id] == old(jobs)[id].(status := InProgress, startedAt := now, attempts := old(jobs)[id].attempts + 1)
                && forall x :: x in old(jobs) && old(jobs)[x].status == Pending && old(jobs)[x].queuedAt < old(jobs)[id].queuedAt ==>
                     old(jobs)[x].requeueAfter.Some? && old(jobs)[x].requeueAfter.value > now
      ensures t.None? ==> jobs == old(jobs)
      ensures t.Some? ==> NextUp(old(jobs), t.value.id, now) && jobs == Claimed(old(jobs), t.value.id, now)
      ensures t.Some? ==> t.value == Ticket(t.value.id, jobs[t.value.id].path, jobs[t.value.id].attempts)
    {
      var best: Option<int> := None;
      var todo := jobs.Keys;
      while todo != {}
        invariant todo <= jobs.Keys && jobs == old(jobs)
        invariant best.Some? ==> best.value in jobs && Eligible(jobs[best.value], now)
        invariant forall x :: x in jobs.Keys - todo && Eligible(jobs[x], now) ==>
                    best.Some? && jobs[best.value].queuedAt <= jobs[x].queuedAt
        decreases |todo|
      {
        var id := AnyOf(todo);
        todo := todo - {id};
        if Eligible(jobs[id], now) && (best.None? || jobs[id].queuedAt < jobs[best.value].queuedAt) {
          best := Some(id);
        }
      }
      if best.None? {
        return None;
      }
      var id := best.value;
      assert NextUp(jobs, id, now);
      jobs := jobs[id := jobs[id].(status := InProgress, startedAt := now, attempts := jobs[id].attempts + 1)];
      t := Some(Ticket(id, jobs[id].path, jobs[id].attempts));
    }

    /** The job can be claimed exactly from its due time on; its attempts and every other row stay. */
    method RequeueJob(id: int, notBefore: int)
      modifies this`jobs
      ensures jobs == Requeued(old(jobs), id, notBefore) && jobs.Keys == old(jobs).Keys
      ensures id in jobs ==> forall at :: Eligible(jobs[id], at) <==> notBefore <= at
      ensures id in jobs ==> jobs[id].attempts == old(jobs)[id].attempts && jobs[id].queuedAt == old(jobs)[id].queuedAt
      ensures forall x :: x in jobs && x != id ==> jobs[x] == old(jobs)[x]
    {
      if id in jobs {
        jobs := jobs[id := jobs[id].(status := Pending, requeueAfter := Some(notBefore))];
      }
    }

    method SetJobStatus(id: int, status: Status)
      modifies this`jobs
      ensures jobs == SetStatus(old(jobs), id, status) && jobs.Keys == old(jobs).Keys
      ensures id in jobs ==> jobs[id] == old(jobs)[id].(status := status)
      ensures forall x :: x in jobs && x != id ==> jobs[x] == old(jobs)[x]
    {
      if id in jobs {
        jobs := jobs[id := jobs[id].(status := status)];
      }
    }

    /** Exactly the note's job with the greatest id, if it has one, is no longer claimable. */
    method SkipNote(path: string)
      modifies this`jobs
      ensures jobs == SkippedNote(old(jobs), path) && jobs.Keys == old(jobs).Keys
      ensures forall id :: id in jobs ==> jobs[id] == if IsLatest(old(jobs), path, id) then old(jobs)[id].(status := Skipped) else old(jobs)[id]
    {
      var latest: Option<int> := None;
      var todo := jobs.Keys;
      while todo != {}
        invariant todo <= jobs.Keys && jobs == old(jobs)
        invariant latest.Some? ==> latest.value in jobs && jobs[latest.value].path == path
        invariant forall x :: x in jobs.Keys - todo && jobs[x].path == path ==> latest.Some? && x <= latest.value
        decreases |todo|
      {
        var id := AnyOf(todo);
        todo := todo - {id};
        if jobs[id].path == path && (latest.None? || latest.value < id) {
          latest := Some(id);
        }
      }
      if latest.Some? {
        assert IsLatest(jobs, path, latest.value);
        jobs := jobs[latest.value := jobs[latest.value].(status := Skipped)];
      }
    }

    /** Decide what a finished job's row becomes: no attempt is given back, and a retry waits out its delay. */
    method HandleResult(t: Ticket, o: Outcome, now: int)
      modifies this`jobs
      ensures jobs == Finished(old(jobs), t, o, now) && jobs.Keys == old(jobs).Keys
      ensures forall x :: x in jobs ==> jobs[x].attempts == old(jobs)[x].attempts && jobs[x].queuedAt == old(jobs)[x].queuedAt
      ensures forall x :: x in jobs && x != t.id && !(o.EmptyNotebook? && IsLatest(old(jobs), t.path, x)) ==> jobs[x] == old(jobs)[x]
      ensures t.id in jobs && o.Success? ==> jobs[t.id] == old(jobs)[t.id].(status := Done)
      ensures t.id in jobs && (o.PermanentFailure? || (o.TransientFailure? && t.attempts >= 5)) ==> jobs[t.id] == old(jobs)[t.id].(status := Failed)
      ensures t.id in jobs && o.TransientFailure? && t.attempts < 5 ==>
                jobs[t.id] == old(jobs)[t.id].(status := Pending, requeueAfter := Some(now + Backoff(t.attempts)))
      ensures o.EmptyNotebook? ==> forall x :: x in jobs ==>
                jobs[x] == if IsLatest(old(jobs), t.path, x) then old(jobs)[x].(status := Skipped) else old(jobs)[x]
      ensures o.Interrupted? ==> jobs == old(jobs)
      ensures Requeues(t, o) && t.id in jobs ==> forall at :: Eligible(jobs[t.id], at) <==> DueAt(t, now) <= at
      ensures !Requeues(t, o) && !o.Interrupted? && !o.EmptyNotebook? && t.id in jobs ==> forall at :: !Eligible(jobs[t.id], at)
    {
      if o.Success? {
        SetJobStatus(t.id, Done);
        return;
      }
      if o.Interrupted? {
        return;
      }
      if o.EmptyNotebook? {
        SkipNote(t.path);
        return;
      }
      if o.TransientFailure? && t.attempts < MAX_JOB_ATTEMPTS {
        DueIsBackoff(t, now);
        RequeueJob(t.id, DueAt(t, now));
        return;
      }
      SetJobStatus(t.id, Failed);
    }
  }

  // ---- every interleaving ----

  /** `running` are the tickets out with workers; `requeues` every transient requeue so far, in order. */
  datatype Sys = Sys(jobs: Jobs, nextId: int, running: set<Ticket>, requeues: seq<Ticket>)

  datatype Step =
    | Enqueue(path: string, now: int)
    | Claim(id: int, at: int)
    | Finish(t: Ticket, outcome: Outcome, done: int)
    | Skip(path: string)
    | Unskip(path: string, now: int)
    | RetryFailed(now: int)
    | Restart
    | Watchdog(cutoff: int)
    | DeleteNote(path: string)
    | MoveNote(from: string, to: string)

  ghost predicate Enabled(s: Sys, st: Step) {
    match st
    case Claim(id, at) => NextUp(s.jobs, id, at)
    case Finish(t, _, _) => t in s.running
    case _ => true
  }

  function TicketFor(jobs: Jobs, id: int): Ticket
    requires id in jobs
  {
    Ticket(id, jobs[id].path, jobs[id].attempts + 1)
  }

  ghost function Next(s: Sys, st: Step): Sys
    requires Enabled(s, st)
  {
    match st
    case Enqueue(path, now) => s.(jobs := Enqueued(s.jobs, s.nextId, path, now), nextId := s.nextId + 1)
    case Claim(id, at) => s.(jobs := Claimed(s.jobs, id, at), running := s.running + {TicketFor(s.jobs, id)})
    case Finish(t, o, now) =>
      s.(jobs := Finished(s.jobs, t, o, now), running := s.running - {t},
         requeues := if Requeues(t, o) then s.requeues + [t] else s.requeues)
    case Skip(path) => s.(jobs := SkippedNote(s.jobs, path))
    case Unskip(path, now) => s.(jobs := UnskippedNote(s.jobs, path, now))
    case RetryFailed(now) => s.(jobs := RetriedFailed(s.jobs, now))
    case Restart => s.(jobs := Reclaimed(s.jobs, None))
    case Watchdog(cutoff) => s.(jobs := Reclaimed(s.jobs, Some(cutoff)))
    case DeleteNote(path) => s.(jobs := WithoutNote(s.jobs, path))
    case MoveNote(from, to) => s.(jobs := MovedNote(s.jobs, from, to))
  }

  /** No step lowers a surviving job's attempts, and a claim raises its job's by one. */
  lemma AttemptsNeverDecrease(s: Sys, st: Step, id: int)
    requires Enabled(s, st) && id in s.jobs && id in Next(s, st).jobs && id < s.nextId
    ensures s.jobs[id].attempts <= Next(s, st).jobs[id].attempts
    ensures st.Claim? && st.id == id ==> Next(s, st).jobs[id].attempts == s.jobs[id].attempts + 1
  {
  }

  predicate Becomes(jobs: Jobs, id: int, j: Job) {
    id in jobs && jobs[id] == j
  }

  /** What the steps that no worker takes leave of each row. */
  lemma OperatorSteps(s: Sys, st: Step, id: int)
    requires Enabled(s, st) && id in s.jobs
    ensures var j, jobs := s.jobs[id], Next(s, st).jobs;
            var latest := forall x :: x in s.jobs && s.jobs[x].path == j.path ==> x <= id;
            match st
            case Restart => Becomes(jobs, id, if j.status == InProgress then j.(status := Pending, attempts := j.attempts + 1) else j)
            case Watchdog(cutoff) =>
              Becomes(jobs, id, if j.status == InProgress && j.startedAt < cutoff then j.(status := Pending, attempts := j.attempts + 1) else j)
            case RetryFailed(now) => Becomes(jobs, id, if j.status == Failed then j.(status := Pending, queuedAt := now) else j)
            case Skip(path) => Becomes(jobs, id, if j.path == path && latest then j.(status := Skipped) else j)
            case Unskip(path, now) =>
              Becomes(jobs, id, if j.path == path && latest && j.status == Skipped then j.(status := Pending, queuedAt := now) else j)
            case DeleteNote(path) => (id in jobs <==> j.path != path) && (id in jobs ==> jobs[id] == j)
            case MoveNote(from, to) => Becomes(jobs, id, if j.path == from then j.(path := to) else j)
            case _ => true
  {
  }

  /** A ticket is spent: its attempt number is one the row has reached. */
  ghost predicate Spent(s: Sys, t: Ticket) {
    t.id < s.nextId && 1 <= t.attempts && (t.id in s.jobs ==> t.attempts <= s.jobs[t.id].attempts)
  }

  predicate SameClaim(a: Ticket, b: Ticket) {
    a.id == b.id && a.attempts == b.attempts
  }

  /** No two tickets are of one claim, and no requeue repeats a claim. */
  ghost predicate ClaimsDistinct(running: set<Ticket>, requeues: seq<Ticket>) {
    && (forall a, b :: a in running && b in running && SameClaim(a, b) ==> a == b)
    && (forall a, b :: a in running && b in requeues ==> !SameClaim(a, b))
    && (forall i, j :: 0 <= i < j < |requeues| ==> !SameClaim(requeues[i], requeues[j]))
  }

  ghost predicate TicketsSpent(s: Sys, running: set<Ticket>, requeues: seq<Ticket>) {
    && (forall t :: t in running ==> Spent(s, t))
    && (forall t :: t in requeues ==> Spent(s, t) && t.attempts < MAX_JOB_ATTEMPTS)
  }

  ghost predicate Inv(s: Sys) {
    && (forall id :: id in s.jobs ==> id < s.nextId && 0 <= s.jobs[id].attempts)
    && TicketsSpent(s, s.running, s.requeues) && ClaimsDistinct(s.running, s.requeues)
  }

  lemma NextInv(s: Sys, st: Step)
    requires Inv(s) && Enabled(s, st)
    ensures Inv(Next(s, st))
  {
    match st
    case Claim(id, at) => ClaimInv(s, id, at);
    case Finish(t, o, now) => FinishInv(s, t, o);
    case _ =>
  }

  /** A fresh claim has an attempt number no earlier ticket of that job has. */
  lemma ClaimInv(s: Sys, id: int, at: int)
    requires Inv(s) && NextUp(s.jobs, id, at)
    ensures ClaimsDistinct(s.running + {TicketFor(s.jobs, id)}, s.requeues)
    ensures Spent(Next(s, Claim(id, at)), TicketFor(s.jobs, id))
  {
    forall t | t in s.running || t in s.requeues
      ensures !SameClaim(t, TicketFor(s.jobs, id))
    {
      assert Spent(s, t);
    }
  }

  lemma FinishInv(s: Sys, t: Ticket, o: Outcome)
    requires Inv(s) && t in s.running
    ensures ClaimsDistinct(s.running - {t}, if Requeues(t, o) then s.requeues + [t] else s.requeues)
  {
    var rq := if Requeues(t, o) then s.requeues + [t] else s.requeues;
    forall i, j | 0 <= i < j < |rq|
      ensures !SameClaim(rq[i], rq[j])
    {
      if j == |s.requeues| {
        assert rq[i] in s.requeues && rq[j] == t;
      }
    }
    forall a, b | a in s.running - {t} && b in rq
      ensures !SameClaim(a, b)
    {
      if b !in s.requeues {
        assert b == t;
      }
    }
  }

  ghost predicate IsRun(ss: seq<Sys>, sts: seq<Step>) {
    && |ss| == |sts| + 1 && ss[0] == Sys(map[], 1, {}, [])
    && forall i :: 0 <= i < |sts| ==> Enabled(ss[i], sts[i]) && ss[i + 1] == Next(ss[i], sts[i])
  }

  lemma {:induction false} RunInv(ss: seq<Sys>, sts: seq<Step>, n: int)
    requires IsRun(ss, sts) && 0 <= n <= |sts|
    ensures Inv(ss[n])
  {
    if n > 0 {
      RunInv(ss, sts, n - 1);
      NextInv(ss[n - 1], sts[n - 1]);
    }
  }

  // ---- how often one job can be requeued ----

  function RequeueCount(ts: seq<Ticket>, id: int): nat {
    if ts == [] then 0 else RequeueCount(ts[..|ts| - 1], id) + if ts[|ts| - 1].id == id then 1 else 0
  }

  function AttemptsOf(ts: seq<Ticket>, id: int): set<int> {
    set t | t in ts && t.id == id :: t.attempts
  }

  lemma {:induction false} CountIsDistinct(ts: seq<Ticket>, id: int)
    requires forall i, j :: 0 <= i < j < |ts| ==> !SameClaim(ts[i], ts[j])
    ensures RequeueCount(ts, id) == |AttemptsOf(ts, id)|
  {
    if ts != [] {
      var p, t := ts[..|ts| - 1], ts[|ts| - 1];
      CountIsDistinct(p, id);
      assert ts == p + [t];
      AttemptsSnoc(p, t, id);
      if t.id == id {
        assert forall i :: 0 <= i < |p| ==> !SameClaim(p[i], t);
      }
    }
  }

  lemma AttemptsSnoc(p: seq<Ticket>, t: Ticket, id: int)
    ensures AttemptsOf(p + [t], id) == AttemptsOf(p, id) + if t.id == id then {t.attempts} else {}
  {
  }

  lemma SmallSet(s: set<int>)
    requires forall x :: x in s ==> 1 <= x <= 4
    ensures |s| <= 4
  {
    var all := {1, 2, 3, 4};
    forall x | x in s
      ensures x in all
    {
    }
    SubsetSize(s, all);
  }

  /**
   Over every interleaving of workers, watchdog, operator and restarts, a job is requeued as
   transient at most four times in its life, however stale the tickets its workers hold.
   */
  lemma AtMostFourRequeues(ss: seq<Sys>, sts: seq<Step>, n: int, id: int)
    requires IsRun(ss, sts) && 0 <= n <= |sts|
    ensures RequeueCount(ss[n].requeues, id) <= 4
  {
    RunInv(ss, sts, n);
    CountIsDistinct(ss[n].requeues, id);
    SmallSet(AttemptsOf(ss[n].requeues, id));
  }

  // ---- no claim before the due time ----

  predicate RequeuesJob(st: Step, id: int) {
    st.Finish? && Requeues(st.t, st.outcome) && st.t.id == id
  }

  /** Only a requeue of the job itself moves its due time. */
  lemma StepKeepsDue(s: Sys, st: Step, id: int)
    requires Enabled(s, st) && !RequeuesJob(st, id) && id < s.nextId
    ensures id < Next(s, st).nextId
    ensures id in Next(s, st).jobs ==> id in s.jobs && Next(s, st).jobs[id].requeueAfter == s.jobs[id].requeueAfter
  {
  }

  lemma {:induction false} DueKept(ss: seq<Sys>, sts: seq<Step>, i: int, k: int)
    requires IsRun(ss, sts) && 0 <= i < k <= |sts| && sts[i].Finish? && Requeues(sts[i].t, sts[i].outcome)
    requires forall m :: i < m < k ==> !RequeuesJob(sts[m], sts[i].t.id)
    ensures sts[i].t.id < ss[k].nextId
    ensures sts[i].t.id in ss[k].jobs ==> ss[k].jobs[sts[i].t.id].requeueAfter == Some(DueAt(sts[i].t, sts[i].done))
  {
    if k == i + 1 {
      RunInv(ss, sts, i);
      assert Spent(ss[i], sts[i].t);
    } else {
      DueKept(ss, sts, i, k - 1);
      StepKeepsDue(ss[k - 1], sts[k - 1], sts[i].t.id);
    }
  }

  /**
   In every run, whatever skips, retries, reclaims, restarts and other workers do in between, a job
   requeued after a transient failure is not claimed before its delay is over.
   */
  lemma NoEarlyClaim(ss: seq<Sys>, sts: seq<Step>, i: int, j: int)
    requires IsRun(ss, sts) && 0 <= i < j < |sts| && sts[i].Finish? && Requeues(sts[i].t, sts[i].outcome)
    requires sts[j].Claim? && sts[j].id == sts[i].t.id
    requires forall m :: i < m < j ==> !RequeuesJob(sts[m], sts[i].t.id)
    ensures sts[j].at >= sts[i].done + RetryDelay(sts[i].t.attempts) / 1_000_000_000
  {
    DueKept(ss, sts, i, j);
    assert NextUp(ss[j].jobs, sts[j].id, sts[j].at);
  }

  // ---- jobs that stay in progress ----

  /**
   A finished job leaves the in-progress state if and only if its worker was not interrupted and, if
   it found the notebook empty, the job is still the latest of the path the worker knows.
   */
  lemma FinishSettlesIff(jobs: Jobs, t: Ticket, o: Outcome, now: int)
    requires t.id in jobs && jobs[t.id].status.InProgress?
    ensures !Finished(jobs, t, o, now)[t.id].status.InProgress?
            <==> !o.Interrupted? && (o.EmptyNotebook? ==> IsLatest(jobs, t.path, t.id))
  {
  }

  /** The runs below: a job is queued and claimed, something happens, and its worker finds the notebook empty. */
  ghost function ClaimedFirst(path: string, now: int): Sys {
    Sys(map[1 := Job(path, InProgress, 1, now, now, None)], 2, {Ticket(1, path, 1)}, [])
  }

  lemma FirstClaim(path: string, now: int) returns (ss: seq<Sys>)
    ensures IsRun(ss, [Enqueue(path, now), Claim(1, now)]) && ss[2] == ClaimedFirst(path, now)
  {
    var s0 := Sys(map[], 1, {}, []);
    var s1 := Next(s0, Enqueue(path, now));
    var s2 := Next(s1, Claim(1, now));
    ss := [s0, s1, s2];
    assert s2.jobs == ClaimedFirst(path, now).jobs;
    assert s2.running == {Ticket(1, path, 1)};
  }

  lemma ThenEmpty(ss: seq<Sys>, sts: seq<Step>, path: string, now: int, st: Step) returns (all: seq<Sys>)
    requires IsRun(ss, sts) && |sts| == 2 && ss[2] == ClaimedFirst(path, now) && (st.Enqueue? || st.MoveNote?)
    ensures IsRun(all, sts + [st, Finish(Ticket(1, path, 1), EmptyNotebook, now)])
    ensures all[4].running == {} && all[4].jobs == SkippedNote(Next(ClaimedFirst(path, now), st).jobs, path)
  {
    var s3 := Next(ss[2], st);
    var s4 := Next(s3, Finish(Ticket(1, path, 1), EmptyNotebook, now));
    all := ss + [s3, s4];
    assert s4.running == {};
  }

  /** A newer job of the note is waiting: it is skipped, and the finished one stays in progress with no worker. */
  lemma NewerJobSkipped(path: string, now: int) returns (ss: seq<Sys>)
    ensures IsRun(ss, [Enqueue(path, now), Claim(1, now)] + [Enqueue(path, now), Finish(Ticket(1, path, 1), EmptyNotebook, now)])
    ensures ss[4].jobs.Keys == {1, 2} && ss[4].jobs[1].status.InProgress? && ss[4].jobs[2].status.Skipped? && ss[4].running == {}
  {
    ss := FirstClaim(path, now);
    ss := ThenEmpty(ss, [Enqueue(path, now), Claim(1, now)], path, now, Enqueue(path, now));
    var jobs := Next(ClaimedFirst(path, now), Enqueue(path, now)).jobs;
    assert jobs.Keys == {1, 2};
    assert IsLatest(jobs, path, 2) && !IsLatest(jobs, path, 1);
  }

  /** The note was moved meanwhile: the skip hits nothing, and the job stays in progress with no worker. */
  lemma MovedJobStays(path: string, to: string, now: int) returns (ss: seq<Sys>)
    requires path != to
    ensures IsRun(ss, [Enqueue(path, now), Claim(1, now)] + [MoveNote(path, to), Finish(Ticket(1, path, 1), EmptyNotebook, now)])
    ensures ss[4].jobs.Keys == {1} && ss[4].jobs[1].status.InProgress? && ss[4].running == {}
  {
    ss := FirstClaim(path, now);
    ss := ThenEmpty(ss, [Enqueue(path, now), Claim(1, now)], path, now, MoveNote(path, to));
    var jobs := Next(ClaimedFirst(path, now), MoveNote(path, to)).jobs;
    assert jobs.Keys == {1} && !IsLatest(jobs, path, 1);
  }
}
