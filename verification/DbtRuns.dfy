/**
  The life of a dbt-rest run: the row inserted by the request, and the only other writer of it, the
  worker thread, whose database writes may fail, or take effect and still raise.
 */
module DbtRuns {
  import opened Prelude

  datatype Status = Queued | Running | Success | Failed | Errored | TimedOut {
    function Rank(): nat {
      match this
      case Queued => 0
      case Running => 1
      case _ => 2
    }

    predicate Terminal() {
      Rank() == 2
    }
  }

  datatype Row = Row(
    status: Status, startedAt: Option<int>, finishedAt: Option<int>, durationMs: Option<int>,
    logs: string, artifacts: seq<string>)

  /** What the worker wants the row to end with; `note` is the text of the fallback. */
  datatype Final = Final(status: Status, finishedAt: int, durationMs: Option<int>, logs: string,
                         artifacts: seq<string>, note: string)

  /** A write returns, raises without effect, or takes effect and raises. */
  datatype Outcome = Returned | Lost | RaisedAfter

  /** The settings of the service; FINISH_RETRIES is at least 1. */
  datatype Settings = Settings(retries: nat, baseDelay: real, logMax: nat) {
    predicate Valid() {
      retries >= 1 && baseDelay >= 0.0
    }
  }

  function QueuedRow(): Row {
    Row(Queued, None, None, None, "", [])
  }

  function MarkedRunning(r: Row, now: int): Row {
    r.(status := Running, startedAt := Some(now))
  }

  const TRUNCATED := "\n... [truncated]\n"

  /** logs, or its start and a mark; a limit under 128 makes the Python slice end before the end. */
  function Clipped(logs: string, max: nat): (r: string)
    ensures |r| <= max <==> |logs| <= max || max >= 128 || (17 <= max && |logs| <= 111)
  {
    if |logs| <= max then logs
    else
      var n: int := if max >= 128 then max - 128 else |logs| + max - 128;
      logs[..if n < 0 then 0 else n] + TRUNCATED
  }

  function Left(s: string, n: nat): string {
    if |s| <= n then s else s[..n]
  }

  /** mark_finished */
  function Finished(r: Row, f: Final, max: nat): Row {
    r.(status := f.status, finishedAt := Some(f.finishedAt), durationMs := f.durationMs,
       logs := Clipped(f.logs, max), artifacts := f.artifacts)
  }

  /** force_terminal_persist */
  function Forced(r: Row, f: Final, max: nat): Row {
    r.(status := f.status, finishedAt := Some(f.finishedAt),
       durationMs := if f.durationMs.Some? then f.durationMs else r.durationMs,
       logs := Left(r.logs + "\n\n" + Clipped(f.note, max), max), artifacts := f.artifacts)
  }

  /** The final write number n: mark_finished, and after the retries the forced write. */
  function FinalWrite(r: Row, f: Final, n: nat, c: Settings): Row {
    if n < c.retries then Finished(r, f, c.logMax) else Forced(r, f, c.logMax)
  }

  function Pow2(n: nat): nat {
    if n == 0 then 1 else 2 * Pow2(n - 1)
  }

  /** The row after the final writes from number n on, with the outcome of each. */
  function Persisted(r: Row, f: Final, os: seq<Outcome>, n: nat, c: Settings): Row
    requires |os| == c.retries + 1 && n <= c.retries
    decreases c.retries - n
  {
    var r' := if os[n] == Lost then r else FinalWrite(r, f, n, c);
    if os[n] == Returned || n == c.retries then r' else Persisted(r', f, os, n + 1, c)
  }

  /** Write number n is made: all before it raised. */
  predicate Attempted(os: seq<Outcome>, n: nat)
    requires n < |os|
  {
    forall i :: 0 <= i < n ==> os[i] != Returned
  }

  /** The columns of a final write, and those it leaves alone; a missing duration may stay as it was. */
  predicate Holds(r: Row, r': Row, f: Final) {
    && r'.status == f.status && r'.finishedAt == Some(f.finishedAt) && r'.artifacts == f.artifacts
    && (f.durationMs.Some? ==> r'.durationMs == f.durationMs) && r'.startedAt == r.startedAt
  }

  /** The row ends with the columns of the final write exactly when one of the writes made took effect; if
      none did, it is as before. */
  lemma {:induction false} PersistedExactly(r: Row, f: Final, os: seq<Outcome>, n: nat, c: Settings)
    requires |os| == c.retries + 1 && n <= c.retries && Attempted(os, n)
    ensures var r' := Persisted(r, f, os, n, c);
            if exists i :: n <= i < |os| && os[i] != Lost && Attempted(os, i) then Holds(r, r', f)
            else r' == r
    ensures var r' := Persisted(r, f, os, n, c);
            r'.startedAt == r.startedAt && (r.status == f.status ==> r'.status == f.status)
    decreases c.retries - n
  {
    if os[n] != Returned && n < c.retries {
      var r1 := if os[n] == Lost then r else FinalWrite(r, f, n, c);
      PersistedExactly(r1, f, os, n + 1, c);
      if os[n] == Lost {
        assert forall i :: n <= i < |os| && os[i] != Lost && Attempted(os, i) ==> n + 1 <= i;
      }
    } else {
      assert forall i :: n < i < |os| ==> os[n] == Returned && !Attempted(os, i);
    }
  }

  /** If any of the retries + 1 final writes would take effect, the row ends terminal. */
  lemma TerminalIfAnyWriteLands(r: Row, f: Final, os: seq<Outcome>, c: Settings)
    requires |os| == c.retries + 1 && f.status.Terminal() && !r.status.Terminal()
    ensures Persisted(r, f, os, 0, c).status.Terminal() <==> exists i :: 0 <= i < |os| && os[i] != Lost
  {
    PersistedExactly(r, f, os, 0, c);
    if exists i :: 0 <= i < |os| && os[i] != Lost {
      var i := FirstLanding(os);
    }
  }

  lemma FirstLanding(os: seq<Outcome>) returns (i: nat)
    requires exists i :: 0 <= i < |os| && os[i] != Lost
    ensures i < |os| && os[i] != Lost && Attempted(os, i)
  {
    i := 0;
    while os[i] == Lost
      invariant i < |os| && forall j :: 0 <= j < i ==> os[j] == Lost
      decreases |os| - i
    {
      i := i + 1;
    }
  }

  /** How many attempts at mark_finished fail, counting from number n on. */
  function FailedAttempts(os: seq<Outcome>, n: nat, c: Settings): nat
    requires |os| == c.retries + 1 && n <= c.retries
    decreases c.retries - n
  {
    if n == c.retries || os[n] == Returned then n else FailedAttempts(os, n + 1, c)
  }

  /** With r as the row before attempt n, the run is to end with `want` after `failed` failures. */
  predicate OnCourse(want: Row, failed: nat, r: Row, f: Final, os: seq<Outcome>, n: nat, c: Settings)
    requires |os| == c.retries + 1 && n <= c.retries
  {
    want == Persisted(r, f, os, n, c) && failed == FailedAttempts(os, n, c)
  }

  lemma OneAttempt(want: Row, failed: nat, r: Row, f: Final, os: seq<Outcome>, n: nat, c: Settings)
    requires |os| == c.retries + 1 && n < c.retries && OnCourse(want, failed, r, f, os, n, c)
    ensures match os[n]
            case Returned => want == Finished(r, f, c.logMax) && failed == n
            case Lost => OnCourse(want, failed, r, f, os, n + 1, c)
            case RaisedAfter => OnCourse(want, failed, Finished(r, f, c.logMax), f, os, n + 1, c)
  {
  }

  lemma LastAttempt(want: Row, failed: nat, r: Row, f: Final, os: seq<Outcome>, c: Settings)
    requires |os| == c.retries + 1 && OnCourse(want, failed, r, f, os, c.retries, c)
    ensures want == if os[c.retries] == Lost then r else Forced(r, f, c.logMax)
    ensures failed == c.retries
  {
  }

  /** The delay after a failed attempt. */
  function Delay(base: real, attempt: nat): real {
    base * (Pow2(attempt) as real)
  }

  /** The delays before attempts 1 to n, added up. */
  function Backoff(base: real, n: nat): real {
    if n == 0 then 0.0 else Backoff(base, n - 1) + Delay(base, n - 1)
  }

  lemma {:induction false} BackoffClosed(base: real, n: nat)
    ensures Pow2(n) >= 1 && Backoff(base, n) == base * ((Pow2(n) - 1) as real)
  {
    if n > 0 {
      BackoffClosed(base, n - 1);
      var p := Pow2(n - 1);
      assert (Pow2(n) - 1) as real == ((p - 1) as real) + (p as real);
    }
  }

  lemma DelayPositive(base: real, n: nat)
    requires base >= 0.0
    ensures Delay(base, n) >= 0.0
  {
    var p := Pow2(n) as real;
    assert base * p >= 0.0;
  }

  lemma {:induction false} BackoffGrows(base: real, m: nat, n: nat)
    requires base >= 0.0 && m <= n
    ensures 0.0 <= Backoff(base, m) <= Backoff(base, n)
  {
    if n > 0 {
      DelayPositive(base, n - 1);
    }
    if m < n {
      BackoffGrows(base, m, n - 1);
    } else if n > 0 {
      BackoffGrows(base, m - 1, n - 1);
    }
  }

  /** How subprocess.run ends: with a return code, by TimeoutExpired with the output captured so far, or
      by another exception. */
  datatype Ending = Exited(code: int) | Expired(stdout: seq<bv8>, stderr: seq<bv8>) | CouldNotRun

  /** The status the worker makes of it.  TimeoutExpired holds bytes even for a subprocess in text mode,
      so adding the text of stderr to a stdout that is not empty raises in the handler itself. */
  function StatusOf(e: Ending): Option<Status> {
    match e
    case Exited(code) => Some(if code == 0 then Success else Failed)
    case Expired(stdout, _) => if stdout != [] then None else Some(TimedOut)
    case CouldNotRun => Some(Errored)
  }

  /** What the worker writes at the end: nothing when it has died. */
  function FinalOf(o: Outcome, e: Ending, report: Final): Option<Final> {
    if o != Returned then Some(report.(status := Errored))
    else if StatusOf(e).None? then None
    else Some(report.(status := StatusOf(e).value))
  }

  lemma FinalIsTerminal(o: Outcome, e: Ending, report: Final)
    ensures FinalOf(o, e, report).Some? ==> FinalOf(o, e, report).value.status.Terminal()
    ensures FinalOf(o, e, report).None? <==> o == Returned && e.Expired? && e.stdout != []
  {
  }

  /** The row after the worker: mark_running, then the final writes, for what the subprocess came to
      or, when mark_running raises, for an error. */
  function Worked(r: Row, now: int, o: Outcome, e: Ending, report: Final, os: seq<Outcome>, c: Settings): Row
    requires |os| == c.retries + 1
  {
    var r1 := if o == Lost then r else MarkedRunning(r, now);
    var f := FinalOf(o, e, report);
    if f.None? then r1 else Persisted(r1, f.value, os, 0, c)
  }

  /** A run ends terminal exactly when a final write would take effect and the worker gets to it: it does
      not when the subprocess times out after it printed something. */
  lemma EndsTerminalExactly(r: Row, now: int, o: Outcome, e: Ending, report: Final, os: seq<Outcome>, c: Settings)
    requires |os| == c.retries + 1 && r.status == Queued
    ensures Worked(r, now, o, e, report, os, c).status.Terminal() <==>
            && !(o == Returned && e.Expired? && e.stdout != [])
            && exists i :: 0 <= i < |os| && os[i] != Lost
  {
    FinalIsTerminal(o, e, report);
    var f := FinalOf(o, e, report);
    if f.Some? {
      TerminalIfAnyWriteLands(if o == Lost then r else MarkedRunning(r, now), f.value, os, c);
    }
  }

  /** The status of the worker's row in the end: the one it wanted, or that which mark_running left. */
  lemma EndsAs(r: Row, now: int, o: Outcome, e: Ending, report: Final, os: seq<Outcome>, c: Settings)
    requires |os| == c.retries + 1 && r.status == Queued
    ensures var s := Worked(r, now, o, e, report, os, c).status;
            if s.Terminal() then FinalOf(o, e, report).Some? && s == FinalOf(o, e, report).value.status
            else s == if o == Lost then Queued else Running
  {
    var f := FinalOf(o, e, report);
    if f.Some? {
      PersistedExactly(if o == Lost then r else MarkedRunning(r, now), f.value, os, 0, c);
    }
  }

  /** With a timeout after one byte of output the row stays running, although every write would work. */
  lemma TimeoutAfterOutputStaysRunning(now: int, report: Final, c: Settings)
    ensures var os := seq(c.retries + 1, _ => Returned);
            var r := Worked(QueuedRow(), now, Returned, Expired([65], []), report, os, c);
            r == MarkedRunning(QueuedRow(), now) && !r.status.Terminal()
  {
  }

  /** The rows after a call of mark_finished with this outcome. */
  function WithFinished(runs: map<string, Row>, id: string, f: Final, o: Outcome, max: nat): map<string, Row> {
    if o != Lost && id in runs then runs[id := Finished(runs[id], f, max)] else runs
  }

  /** And after force_terminal_persist. */
  function WithForced(runs: map<string, Row>, id: string, f: Final, o: Outcome, max: nat): map<string, Row> {
    if o != Lost && id in runs then runs[id := Forced(runs[id], f, max)] else runs
  }

  /** Before attempt n: the other rows are as they were, the row is on course, and the delays add up. */
  ghost predicate Trying(c: Settings, before: map<string, Row>, runs: map<string, Row>, id: string, want: Row,
                         f: Final, os: seq<Outcome>, n: nat, slept: real) {
    && |os| == c.retries + 1 && n <= c.retries && id in runs && runs == before[id := runs[id]]
    && OnCourse(want, FailedAttempts(os, 0, c), runs[id], f, os, n, c) && Waited(c, n, slept)
  }

  lemma TryOnce(c: Settings, before: map<string, Row>, runs: map<string, Row>, id: string, want: Row,
                f: Final, os: seq<Outcome>, n: nat, slept: real)
    requires c.Valid() && Trying(c, before, runs, id, want, f, os, n, slept) && n < c.retries
    ensures var slept' := if n + 1 < c.retries then slept + Delay(c.baseDelay, n) else slept;
            var runs' := WithFinished(runs, id, f, os[n], c.logMax);
            if os[n] == Returned then runs' == before[id := want] && SleptFor(c, os, slept)
            else Trying(c, before, runs', id, want, f, os, n + 1, slept')
  {
    OneAttempt(want, FailedAttempts(os, 0, c), runs[id], f, os, n, c);
    WaitOne(c, n, slept);
    WaitedIsBounded(c, n, slept);
  }

  lemma TryLast(c: Settings, before: map<string, Row>, runs: map<string, Row>, id: string, want: Row,
                f: Final, os: seq<Outcome>, slept: real)
    requires c.Valid() && Trying(c, before, runs, id, want, f, os, c.retries, slept)
    ensures SleptFor(c, os, slept)
    ensures WithForced(runs, id, f, os[c.retries], c.logMax) == before[id := want]
  {
    LastAttempt(want, FailedAttempts(os, 0, c), runs[id], f, os, c);
    WaitedIsBounded(c, c.retries, slept);
  }

  class RunStore {
    const settings: Settings
    var runs: map<string, Row>

    constructor (settings: Settings)
      requires settings.Valid()
      ensures this.settings == settings && runs == map[]
    {
      this.settings := settings;
      runs := map[];
    }

    method InsertQueued(id: string, o: Outcome) returns (ok: bool)
      requires id !in runs
      modifies this
      ensures ok <==> o == Returned
      ensures runs == if o != Lost then old(runs)[id := Row(Queued, None, None, None, "", [])] else old(runs)
    {
      if o != Lost {
        runs := runs[id := QueuedRow()];
      }
      ok := o == Returned;
    }

    method MarkRunning(id: string, now: int, o: Outcome) returns (ok: bool)
      modifies this
      ensures ok <==> o == Returned
      ensures runs == if o != Lost && id in old(runs)
                      then old(runs)[id := old(runs)[id].(status := Running, startedAt := Some(now))] else old(runs)
    {
      if o != Lost && id in runs {
        runs := runs[id := MarkedRunning(runs[id], now)];
      }
      ok := o == Returned;
    }

    /** mark_finished, with its outcome; false when it raises. */
    method MarkFinished(id: string, f: Final, o: Outcome) returns (ok: bool)
      modifies this
      ensures ok <==> o == Returned
      ensures runs == WithFinished(old(runs), id, f, o, settings.logMax)
      ensures o != Lost && id in old(runs) ==>
        && Holds(old(runs)[id], runs[id], f) && runs[id].durationMs == f.durationMs
        && (|f.logs| <= settings.logMax ==> runs[id].logs == f.logs)
        && (|f.logs| > settings.logMax >= 128 ==>
              runs[id].logs == f.logs[..settings.logMax - 128] + "\n... [truncated]\n")
    {
      if o != Lost && id in runs {
        runs := runs[id := Finished(runs[id], f, settings.logMax)];
      }
      ok := o == Returned;
    }

    method ForceTerminalPersist(id: string, f: Final, o: Outcome) returns (ok: bool)
      modifies this
      ensures ok <==> o == Returned
      ensures runs == WithForced(old(runs), id, f, o, settings.logMax)
      ensures o != Lost && id in old(runs) ==>
        && Holds(old(runs)[id], runs[id], f) && (f.durationMs.None? ==> runs[id].durationMs == old(runs)[id].durationMs)
        && |runs[id].logs| <= settings.logMax
        && (|old(runs)[id].logs| + 2 + |f.note| <= settings.logMax ==>
              runs[id].logs == old(runs)[id].logs + "\n\n" + f.note)
    {
      if o != Lost && id in runs {
        runs := runs[id := Forced(runs[id], f, settings.logMax)];
      }
      ok := o == Returned;
    }

    /** Retries with a doubling delay, then the forced write. */
    method MarkFinishedBestEffort(id: string, f: Final, os: seq<Outcome>) returns (slept: real)
      requires settings.Valid() && |os| == settings.retries + 1 && id in runs
      modifies this
      ensures runs == old(runs)[id := Persisted(old(runs[id]), f, os, 0, settings)]
      ensures SleptFor(settings, os, slept)
    {
      slept := 0.0;
      ghost var before, want := runs, Persisted(runs[id], f, os, 0, settings);
      for attempt := 0 to settings.retries
        invariant Trying(settings, before, runs, id, want, f, os, attempt, slept)
      {
        TryOnce(settings, before, runs, id, want, f, os, attempt, slept);
        var ok := MarkFinished(id, f, os[attempt]);
        if ok {
          return;
        }
        if attempt + 1 < settings.retries {
          slept := slept + Delay(settings.baseDelay, attempt);
        }
      }
      TryLast(settings, before, runs, id, want, f, os, slept);
      var _ := ForceTerminalPersist(id, f, os[settings.retries]);
    }

    /** The worker thread of one run. */
    method Work(id: string, now: int, o: Outcome, e: Ending, report: Final, os: seq<Outcome>)
      requires settings.Valid() && |os| == settings.retries + 1
      requires id in runs && runs[id].status == Queued
      modifies this
      ensures runs == old(runs)[id := Worked(old(runs[id]), now, o, e, report, os, settings)]
      ensures runs[id].status.Terminal() <==>
              && !(o == Returned && e.Expired? && e.stdout != [])
              && exists i :: 0 <= i < |os| && os[i] != Lost
      ensures runs[id].status.Terminal() ==>
                runs[id].status == if o != Returned then Errored
                                   else match e
                                        case Exited(code) => if code == 0 then Success else Failed
                                        case Expired(_, _) => TimedOut
                                        case CouldNotRun => Errored
      ensures !runs[id].status.Terminal() ==> runs[id].status == if o == Lost then Queued else Running
    {
      EndsAs(runs[id], now, o, e, report, os, settings);
      EndsTerminalExactly(runs[id], now, o, e, report, os, settings);
      var started := MarkRunning(id, now, o);
      if !started {
        var _ := MarkFinishedBestEffort(id, report.(status := Errored), os);
        return;
      }
      var status := StatusOf(e);
      if status.None? {
        return;
      }
      var _ := MarkFinishedBestEffort(id, report.(status := status.value), os);
    }
  }

  /** The time slept after `attempt` failed attempts; after the last one there is no sleep. */
  predicate Waited(c: Settings, attempt: nat, slept: real) {
    slept == Backoff(c.baseDelay, if attempt < c.retries then attempt else if c.retries == 0 then 0 else c.retries - 1)
  }

  /** The time slept is that of the failed attempts, and at most base times (2^(retries - 1) - 1). */
  predicate SleptFor(c: Settings, os: seq<Outcome>, slept: real)
    requires c.Valid() && |os| == c.retries + 1
  {
    && Waited(c, FailedAttempts(os, 0, c), slept)
    && 0.0 <= slept <= c.baseDelay * ((Pow2(c.retries - 1) - 1) as real)
  }

  lemma WaitOne(c: Settings, attempt: nat, slept: real)
    requires Waited(c, attempt, slept) && attempt < c.retries
    ensures Waited(c, attempt + 1, if attempt + 1 < c.retries then slept + Delay(c.baseDelay, attempt) else slept)
  {
  }

  lemma WaitedIsBounded(c: Settings, attempt: nat, slept: real)
    requires c.Valid() && Waited(c, attempt, slept)
    ensures 0.0 <= slept <= c.baseDelay * ((Pow2(c.retries - 1) - 1) as real)
  {
    var last := c.retries - 1;
    BackoffClosed(c.baseDelay, last);
    BackoffGrows(c.baseDelay, if attempt < last then attempt else last, last);
  }

  // ----- Many runs at once -----

  /** Where a worker is: before mark_running, in the subprocess, or before final write n. */
  datatype Worker = Starting | Executing | Finishing(final: Final, n: nat)

  datatype State = State(runs: map<string, Row>, workers: map<string, Worker>)

  datatype Action =
    | Request(id: string, o: Outcome)                    // insert_queued, and the thread if it returns
    | MarkRunning(id: string, now: int, o: Outcome, report: Final)
    | End(id: string, e: Ending, report: Final)          // the subprocess ends, or fails to
    | Finish(id: string, o: Outcome)                     // one final write
    | Die(id: string)                                    // the thread is gone

  ghost predicate Step(c: Settings, s: State, a: Action, s': State) {
    match a
    case Request(id, o) =>
      && id !in s.runs && id !in s.workers
      && s' == State(
           if o == Lost then s.runs else s.runs[id := QueuedRow()],
           if o == Returned then s.workers[id := Starting] else s.workers)
    case MarkRunning(id, now, o, report) =>
      && id in s.workers && s.workers[id] == Starting && id in s.runs
      && s' == State(
           if o == Lost then s.runs else s.runs[id := MarkedRunning(s.runs[id], now)],
           s.workers[id := if o == Returned then Executing else Finishing(report.(status := Errored), 0)])
    case End(id, e, report) =>
      && id in s.workers && s.workers[id] == Executing
      && var f := FinalOf(Returned, e, report);
         s' == s.(workers := if f.None? then s.workers - {id} else s.workers[id := Finishing(f.value, 0)])
    case Finish(id, o) =>
      && id in s.workers && s.workers[id].Finishing? && id in s.runs
      && var w := s.workers[id];
         s' == State(
           if o == Lost then s.runs else s.runs[id := FinalWrite(s.runs[id], w.final, w.n, c)],
           if o == Returned || w.n == c.retries then s.workers - {id} else s.workers[id := w.(n := w.n + 1)])
    case Die(id) =>
      id in s.workers && s' == s.(workers := s.workers - {id})
  }

  ghost predicate Run(c: Settings, ss: seq<State>, actions: seq<Action>) {
    |ss| == |actions| + 1 && forall k :: 0 <= k < |actions| ==> Step(c, ss[k], actions[k], ss[k + 1])
  }

  /** The row a worker still works on fits the place the worker is at. */
  predicate Fits(r: Row, w: Worker) {
    match w
    case Starting => r.status == Queued
    case Executing => r.status == Running
    case Finishing(f, _) => f.status.Terminal() && (!r.status.Terminal() || r.status == f.status)
  }

  predicate OkAt(s: State, id: string) {
    id in s.workers ==> id in s.runs && Fits(s.runs[id], s.workers[id])
  }

  ghost predicate Inv(s: State) {
    forall id :: OkAt(s, id)
  }

  predicate LaterAt(s: State, s': State, id: string) {
    id in s.runs ==>
      && id in s'.runs
      && s.runs[id].status.Rank() <= s'.runs[id].status.Rank()
      && (s.runs[id].status.Terminal() ==> s'.runs[id].status == s.runs[id].status)
  }

  /** No row is lost, no status goes back, and a terminal one never changes. */
  ghost predicate Later(s: State, s': State) {
    forall id :: LaterAt(s, s', id)
  }

  lemma StepAt(c: Settings, s: State, a: Action, s': State, id: string)
    requires OkAt(s, id) && Step(c, s, a, s')
    ensures OkAt(s', id) && LaterAt(s, s', id)
  {
    if a.id != id {
      assert id in s.runs <==> id in s'.runs;
      assert id in s.runs ==> s'.runs[id] == s.runs[id];
      assert id in s'.workers ==> id in s.workers && s'.workers[id] == s.workers[id];
    }
  }

  lemma StepKeepsInv(c: Settings, s: State, a: Action, s': State)
    requires Inv(s) && Step(c, s, a, s')
    ensures Inv(s') && Later(s, s')
  {
    forall id ensures OkAt(s', id) && LaterAt(s, s', id) {
      assert OkAt(s, id);
      StepAt(c, s, a, s', id);
    }
  }

  lemma LaterChains(s: State, s1: State, s2: State)
    requires Later(s, s1) && Later(s1, s2)
    ensures Later(s, s2)
  {
    forall id ensures LaterAt(s, s2, id) {
      assert LaterAt(s, s1, id) && LaterAt(s1, s2, id);
    }
  }

  /** However the workers interleave, and whatever writes fail, no status ever moves back along
      queued, running, terminal, and a terminal status is for good. */
  lemma {:induction false} StatusNeverGoesBack(c: Settings, ss: seq<State>, actions: seq<Action>, m: nat, n: nat)
    requires Run(c, ss, actions) && ss[0].workers == map[] && m <= n < |ss|
    ensures Inv(ss[n]) && Later(ss[m], ss[n])
    decreases n
  {
    if n > 0 {
      var m' := if m < n then m else n - 1;
      StatusNeverGoesBack(c, ss, actions, m', n - 1);
      StepKeepsInv(c, ss[n - 1], actions[n - 1], ss[n]);
      LaterChains(ss[m'], ss[n - 1], ss[n]);
    }
    if m == n {
      forall id ensures LaterAt(ss[n], ss[n], id) {}
    }
  }

  /** The retry loop is a path of the transition system: the worker's final writes, one by one. */
  lemma {:induction false} RetryLoopIsAPath(c: Settings, s: State, id: string, os: seq<Outcome>)
    returns (ss: seq<State>, actions: seq<Action>)
    requires id in s.runs && id in s.workers && s.workers[id].Finishing? && s.workers[id].n <= c.retries
    requires |os| == c.retries + 1
    ensures Run(c, ss, actions) && ss[0] == s
    ensures forall k :: 0 <= k < |actions| ==> actions[k].Finish? && actions[k].id == id
    ensures ss[|actions|] == State(
              s.runs[id := Persisted(s.runs[id], s.workers[id].final, os, s.workers[id].n, c)],
              s.workers - {id})
    decreases c.retries - s.workers[id].n
  {
    var w := s.workers[id];
    var o := os[w.n];
    var last := o == Returned || w.n == c.retries;
    var runs := if o == Lost then s.runs else s.runs[id := FinalWrite(s.runs[id], w.final, w.n, c)];
    var s1 := State(runs, if last then s.workers - {id} else s.workers[id := w.(n := w.n + 1)]);
    assert Step(c, s, Finish(id, o), s1);
    if last {
      ss, actions := [s, s1], [Finish(id, o)];
      assert s.runs == s.runs[id := s.runs[id]];
    } else {
      ss, actions := RetryLoopIsAPath(c, s1, id, os);
      assert s1.workers - {id} == s.workers - {id};
      ss, actions := [s] + ss, [Finish(id, o)] + actions;
    }
  }

  lemma RunFront(c: Settings, s: State, a: Action, ss: seq<State>, actions: seq<Action>)
    requires Run(c, ss, actions) && Step(c, s, a, ss[0])
    ensures Run(c, [s] + ss, [a] + actions)
  {
  }

  /** And so is all the worker does. */
  lemma WorkerIsAPath(c: Settings, s: State, id: string, now: int, o: Outcome, e: Ending, report: Final,
                      os: seq<Outcome>) returns (ss: seq<State>, actions: seq<Action>)
    requires id in s.runs && id in s.workers && s.workers[id] == Starting && |os| == c.retries + 1
    ensures Run(c, ss, actions) && ss[0] == s
    ensures ss[|actions|] == State(s.runs[id := Worked(s.runs[id], now, o, e, report, os, c)], s.workers - {id})
  {
    var runs := if o == Lost then s.runs else s.runs[id := MarkedRunning(s.runs[id], now)];
    var s1 := State(
      runs, s.workers[id := if o == Returned then Executing else Finishing(report.(status := Errored), 0)]);
    if o == Returned {
      ss, actions := EndIsAPath(c, s1, id, e, report, os);
    } else {
      ss, actions := RetryLoopIsAPath(c, s1, id, os);
    }
    RunFront(c, s, MarkRunning(id, now, o, report), ss, actions);
    ss, actions := [s] + ss, [MarkRunning(id, now, o, report)] + actions;
    assert s1.workers - {id} == s.workers - {id};
  }

  lemma EndIsAPath(c: Settings, s: State, id: string, e: Ending, report: Final, os: seq<Outcome>)
    returns (ss: seq<State>, actions: seq<Action>)
    requires id in s.runs && id in s.workers && s.workers[id] == Executing && |os| == c.retries + 1
    ensures Run(c, ss, actions) && ss[0] == s
    ensures var f := FinalOf(Returned, e, report);
            ss[|actions|] == State(
              if f.None? then s.runs else s.runs[id := Persisted(s.runs[id], f.value, os, 0, c)], s.workers - {id})
  {
    var f := FinalOf(Returned, e, report);
    if f.None? {
      ss, actions := [s, s.(workers := s.workers - {id})], [End(id, e, report)];
    } else {
      var s1 := s.(workers := s.workers[id := Finishing(f.value, 0)]);
      ss, actions := RetryLoopIsAPath(c, s1, id, os);
      RunFront(c, s, End(id, e, report), ss, actions);
      ss, actions := [s] + ss, [End(id, e, report)] + actions;
      assert s1.workers - {id} == s.workers - {id};
    }
  }
}
