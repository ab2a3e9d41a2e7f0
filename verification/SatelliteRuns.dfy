/** Runs of the satellite task, with crashes and repetitions. */
module SatelliteRuns {
  import opened Satellites
  import opened SatelliteLoads

  // ----- Runs of the satellite task -----

  /** Where a run of the task stops: before the load commits, between the two transactions, or not. */
  datatype Crash = BeforeLoad | BeforeReconcile | NoCrash

  datatype Task = Task(inbox: seq<Incoming>, stamp: Stamp, crash: Crash)

  ghost predicate TaskStep(t: Table, task: Task, t': Table) {
    match task.crash
    case BeforeLoad => t' == t
    case BeforeReconcile => Loaded(t, task.inbox, task.stamp, t')
    case NoCrash => exists t1 :: Loaded(t, task.inbox, task.stamp, t1) && Reconciled(t1, t')
  }

  ghost predicate Run(ts: seq<Table>, tasks: seq<Task>) {
    |ts| == |tasks| + 1 && forall k :: 0 <= k < |tasks| ==> TaskStep(ts[k], tasks[k], ts[k + 1])
  }

  ghost predicate Admissible(t: Table, task: Task) {
    match task.crash
    case BeforeLoad => true
    case BeforeReconcile =>
      OneRowPerKey(task.inbox) && forall b :: b in task.inbox ==> InOrder(t, b, task.stamp.now)
    case NoCrash =>
      OneRowPerKey(task.inbox) && forall b :: b in task.inbox ==> Sound(t, b, task.stamp.now)
  }

  /** Over every run of admissible tasks, crashing or not, the table stays a gap-free chain. */
  lemma {:induction false} ChainOverRuns(ts: seq<Table>, tasks: seq<Task>, n: nat)
    requires Run(ts, tasks) && Chain(ts[0]) && n < |ts|
    requires forall k :: 0 <= k < |tasks| ==> Admissible(ts[k], tasks[k])
    ensures Chain(ts[n])
  {
    if n > 0 {
      ChainOverRuns(ts, tasks, n - 1);
      var t, task, t' := ts[n - 1], tasks[n - 1], ts[n];
      assert TaskStep(t, task, t') && Admissible(t, task);
      match task.crash
      case BeforeLoad =>
      case BeforeReconcile =>
        LoadAloneKeepsChainExactly(t, task.inbox, task.stamp, t');
      case NoCrash =>
        var t1 :| Loaded(t, task.inbox, task.stamp, t1) && Reconciled(t1, t');
        TaskKeepsChainExactly(t, task.inbox, task.stamp, t1, t');
    }
  }

  /** No version is deleted, moved, altered in its payload or made current again. */
  ghost predicate HistoryKept(t: Table, t': Table) {
    |t| <= |t'| &&
    forall i :: 0 <= i < |t| ==> SameVersion(t[i], t'[i]) && (t'[i].current ==> t[i].current)
  }

  lemma TaskKeepsHistory(t: Table, task: Task, t': Table)
    requires TaskStep(t, task, t')
    ensures HistoryKept(t, t')
    ensures task.crash == NoCrash ==> AtMostOneCurrent(t')
  {
    if task.crash != BeforeLoad {
      var t1: Table :| Loaded(t, task.inbox, task.stamp, t1) && (task.crash == BeforeReconcile ==> t1 == t') &&
                (task.crash == NoCrash ==> Reconciled(t1, t'));
      var mid :| Closed(t, task.inbox, mid) && t1 == Inserted(mid, task.inbox, task.stamp);
      InsertFacts(mid, mid, task.inbox, task.stamp);
      forall i | 0 <= i < |t| ensures SameVersion(t[i], t1[i]) && (t1[i].current ==> t[i].current) {
        CloseRow(t, task.inbox, mid, i);
      }
      if task.crash == NoCrash {
        ReconcileKeepsVersions(t1, t');
        ReconcileAtMostOneCurrent(t1, t');
      }
    }
  }

  /** Over every run, from any table, with any inboxes and crashes, history is kept. */
  lemma {:induction false} HistoryOverRuns(ts: seq<Table>, tasks: seq<Task>, m: nat, n: nat)
    requires Run(ts, tasks) && m <= n < |ts|
    ensures HistoryKept(ts[m], ts[n])
  {
    if m < n {
      HistoryOverRuns(ts, tasks, m, n - 1);
      TaskKeepsHistory(ts[n - 1], tasks[n - 1], ts[n]);
    }
  }

  ghost predicate TaskStores(t: Table, task: Task, t': Table) {
    task.crash != BeforeLoad && AtMostOneCurrent(t) && OneRowPerKey(task.inbox) ==>
      Stores(t, task.inbox, task.stamp, t')
  }

  /** What a task adds that gets past its load; the reconcile may close it at once. */
  lemma TaskStoresExactly(t: Table, task: Task, t': Table)
    requires TaskStep(t, task, t')
    ensures TaskStores(t, task, t')
  {
    var inbox, s := task.inbox, task.stamp;
    if task.crash == BeforeReconcile {
      LoadStoresExactly(t, inbox, s, t');
    } else if task.crash == NoCrash && AtMostOneCurrent(t) && OneRowPerKey(inbox) {
      var t1 :| Loaded(t, inbox, s, t1) && Reconciled(t1, t');
      LoadStoresExactly(t, inbox, s, t1);
      ReconcileKeepsVersions(t1, t');
      SameCopies(t, inbox, s, t1, t');
    }
  }

  lemma SameCopies(t: Table, inbox: seq<Incoming>, s: Stamp, t1: Table, t': Table)
    requires Stores(t, inbox, s, t1) && |t1| == |t'| && forall i :: 0 <= i < |t1| ==> SameVersion(t1[i], t'[i])
    ensures Stores(t, inbox, s, t')
  {
    forall k | |t| <= k < |t'| ensures IsCopy(inbox, s, t'[k]) {
      assert IsCopy(inbox, s, t1[k]) && SameVersion(t1[k], t'[k]);
    }
    forall b | b in inbox ensures HasCopy(t, t1, b, s) <==> HasCopy(t, t', b, s) {
      if k :| |t| <= k < |t1| && CopyOf(t1[k], b, s) {
        assert CopyOf(t'[k], b, s);
      }
      if k :| |t| <= k < |t'| && CopyOf(t'[k], b, s) {
        assert CopyOf(t1[k], b, s);
      }
    }
  }

  lemma NothingWanted(t: Table, inbox: seq<Incoming>, s: Stamp, t1: Table)
    requires LoadShape(t, inbox, s, t1)
    requires forall b :: b in inbox ==> !Wanted(t, b)
    ensures t1 == t
  {
    assert forall i, b :: 0 <= i < |t| && Closes(b, t[i]) ==> Wanted(t, b);
    NewRowsNeedAWant(t, inbox, s, t1);
  }

  lemma NewRowsNeedAWant(t: Table, inbox: seq<Incoming>, s: Stamp, t1: Table)
    requires LoadShape(t, inbox, s, t1)
    ensures |t| < |t1| ==> exists b :: b in inbox && Wanted(t, b)
  {
    if |t| < |t1| {
      assert FromInbox(t, inbox, s, t1[|t|]);
    }
  }

  // ----- Inbox rows that are not in order -----

  /** Some version of the key starts when b does, or later. */
  predicate Overtaken(t: Table, b: Incoming) {
    exists i :: 0 <= i < |t| && t[i].hk == b.hk && b.from <= t[i].from
  }

  ghost predicate NoneCurrent(t: Table, hk: string) {
    forall i :: 0 <= i < |t| && t[i].hk == hk ==> !t[i].current
  }

  /** What an overtaken row leaves current is a version that was current before. */
  lemma OvertakenLeavesCurrent(t: Table, inbox: seq<Incoming>, s: Stamp, t1: Table, t': Table, b: Incoming, j: nat)
    requires LoadShape(t, inbox, s, t1) && OneRowPerKey(inbox) && b in inbox && Overtaken(t, b)
    requires Reconciled(t1, t') && j < |t'| && t'[j].hk == b.hk
    ensures t'[j].current ==> j < |t| && SameVersion(t[j], t'[j]) && t[j].current && Newest(t1, j)
  {
    ReconcileRow(t1, t', j);
    var i :| 0 <= i < |t| && t[i].hk == b.hk && b.from <= t[i].from;
    forall k | |t| <= k < |t1| && t1[k].hk == b.hk ensures !Newest(t1, k) {
      assert FromInbox(t, inbox, s, t1[k]);
      assert SameKey(t1, k, i) && t1[i].from == t[i].from;
    }
  }

  /** A wanted row that is overtaken is still wanted, and still overtaken, after the task has run: from
      any table with at most one current row per key, each run inserts it once more. */
  lemma OvertakenStaysWanted(t: Table, inbox: seq<Incoming>, s: Stamp, t': Table, b: Incoming)
    requires AtMostOneCurrent(t) && OneRowPerKey(inbox) && b in inbox && Wanted(t, b) && Overtaken(t, b)
    requires TaskStep(t, Task(inbox, s, NoCrash), t')
    ensures Wanted(t', b) && Overtaken(t', b) && AtMostOneCurrent(t')
    ensures NoneCurrent(t, b.hk) ==> NoneCurrent(t', b.hk)
    ensures !LoadedAt(t, b.hk, s.now) ==> |t| < |t'|
  {
    var t1 :| Loaded(t, inbox, s, t1) && Reconciled(t1, t');
    LoadHasShape(t, inbox, s, t1);
    ReconcileAtMostOneCurrent(t1, t');
    ReconcileKeepsVersions(t1, t');
    forall j | 0 <= j < |t'| && t'[j].hk == b.hk && t'[j].current
      ensures j < |t| && t'[j].hash != b.hash && t[j].hk == b.hk && t[j].current
    {
      OvertakenLeavesCurrent(t, inbox, s, t1, t', b, j);
      CurrentDecides(t, j, b);
    }
    var i :| 0 <= i < |t| && t[i].hk == b.hk && b.from <= t[i].from;
    assert t'[i].hk == b.hk && t'[i].from == t[i].from;
    assert Wanted(t', b) by {
      if j :| 0 <= j < |t'| && t'[j].hk == b.hk && t'[j].current {
        assert t'[j].hash != b.hash;
      }
    }
    assert !LoadedAt(t, b.hk, s.now) ==> Added(t, t1, b, s);
  }

  /** So the table grows with every run, for ever, as long as the row is in the inbox. */
  lemma {:induction false} ReloadedForEver(ts: seq<Table>, tasks: seq<Task>, b: Incoming, n: nat)
    requires Run(ts, tasks) && n < |ts| && AtMostOneCurrent(ts[0]) && Wanted(ts[0], b) && Overtaken(ts[0], b)
    requires forall k :: 0 <= k < |tasks| ==>
               tasks[k].crash == NoCrash && OneRowPerKey(tasks[k].inbox) && b in tasks[k].inbox &&
               !LoadedAt(ts[k], b.hk, tasks[k].stamp.now)
    ensures |ts[0]| + n <= |ts[n]|
    ensures AtMostOneCurrent(ts[n]) && Wanted(ts[n], b) && Overtaken(ts[n], b)
    ensures NoneCurrent(ts[0], b.hk) ==> NoneCurrent(ts[n], b.hk)
  {
    if n > 0 {
      ReloadedForEver(ts, tasks, b, n - 1);
      assert TaskStep(ts[n - 1], tasks[n - 1], ts[n]);
      assert tasks[n - 1] == Task(tasks[n - 1].inbox, tasks[n - 1].stamp, NoCrash);
      OvertakenStaysWanted(ts[n - 1], tasks[n - 1].inbox, tasks[n - 1].stamp, ts[n], b);
    }
  }

  lemma TiedIsNotNewest(t: Table, inbox: seq<Incoming>, s: Stamp, t1: Table, b: Incoming, i: nat)
    requires LoadShape(t, inbox, s, t1) && b in inbox && Wanted(t, b) && !LoadedAt(t, b.hk, s.now)
    requires i < |t| && t[i].hk == b.hk && t[i].from == b.from
    ensures !Newest(t1, i)
  {
    assert Added(t, t1, b, s);
    var k :| |t| <= k < |t1| && IsNew(t1[k], b, s);
    assert SameKey(t1, i, k);
  }

  /** The current version of b's key starts when b does. */
  predicate StartsLikeCurrent(t: Table, b: Incoming) {
    exists i :: 0 <= i < |t| && t[i].hk == b.hk && t[i].current && t[i].from == b.from
  }

  /** When the attributes of a key change while its start stays, the key ends without a current version. */
  lemma TieLosesCurrent(t: Table, inbox: seq<Incoming>, s: Stamp, t': Table, b: Incoming)
    requires Chain(t) && OneRowPerKey(inbox) && b in inbox && !LoadedAt(t, b.hk, s.now)
    requires Wanted(t, b) && StartsLikeCurrent(t, b)
    requires TaskStep(t, Task(inbox, s, NoCrash), t')
    ensures NoneCurrent(t', b.hk)
  {
    ChainHasOneCurrent(t);
    var t1 :| Loaded(t, inbox, s, t1) && Reconciled(t1, t');
    LoadHasShape(t, inbox, s, t1);
    var i :| 0 <= i < |t| && t[i].hk == b.hk && t[i].current && t[i].from == b.from;
    TiedIsNotNewest(t, inbox, s, t1, b, i);
    forall j | 0 <= j < |t'| && t'[j].hk == b.hk ensures !t'[j].current {
      OvertakenLeavesCurrent(t, inbox, s, t1, t', b, j);
      assert j < |t| && t[j].hk == b.hk && t[j].current ==> SameKey(t, i, j);
    }
  }

  /** A version that is current and the newest of its key after the load is current after the task. */
  lemma NewestStaysCurrent(t1: Table, t': Table, i: nat)
    requires Reconciled(t1, t') && i < |t1| && t1[i].current && Newest(t1, i)
    ensures t'[i].current && t'[i].hk == t1[i].hk
  {
    ReconcileRow(t1, t', i);
  }

  /** b is added, and newer than every other version of its key. */
  lemma AddedNewest(t: Table, inbox: seq<Incoming>, s: Stamp, t1: Table, b: Incoming) returns (k: nat)
    requires LoadShape(t, inbox, s, t1) && b in inbox && Wanted(t, b) && !LoadedAt(t, b.hk, s.now)
    requires forall i :: 0 <= i < |t| && t[i].hk == b.hk ==> t[i].from < b.from
    ensures k < |t1| && IsNew(t1[k], b, s) && Newest(t1, k)
  {
    assert Added(t, t1, b, s);
    k :| |t| <= k < |t1| && IsNew(t1[k], b, s);
    NewIsNewest(t, inbox, s, t1, k, b);
  }

  /** The current version is not closed, and stays the newest, when b starts before it. */
  lemma CurrentOutlives(t: Table, inbox: seq<Incoming>, s: Stamp, t1: Table, b: Incoming, i: nat)
    requires LoadShape(t, inbox, s, t1) && Chain(t) && OneRowPerKey(inbox) && b in inbox
    requires i < |t| && t[i].hk == b.hk && t[i].current && b.from < t[i].from
    ensures t1[i] == t[i] && Newest(t1, i)
  {
    ChainHasOneCurrent(t);
    forall k | |t| <= k < |t1| && t1[k].hk == b.hk ensures t1[k].from < t[i].from {
      assert FromInbox(t, inbox, s, t1[k]);
    }
    forall j | 0 <= j < |t1| && j != i && SameKey(t1, i, j) ensures t1[j].from < t1[i].from {
      assert j < |t| ==> SameKey(t, i, j);
    }
    assert t1[i] != t[i] ==> ClosedBy(inbox, t[i], t1[i]);
  }

  /** A key without a current version has no versions, in a chain. */
  lemma {:induction false} ChainHasCurrent(t: Table, j: nat) returns (i: nat)
    requires Chain(t) && j < |t|
    ensures i < |t| && t[i].hk == t[j].hk && t[i].current && t[j].from <= t[i].from
  {
    ChainHasOneCurrent(t);
    i := j;
    for n := 0 to |t|
      invariant i < |t| && t[i].hk == t[j].hk && t[j].from <= t[i].from
      invariant forall k :: 0 <= k < n && t[k].hk == t[j].hk ==> t[k].from <= t[i].from
    {
      if t[n].hk == t[j].hk && t[i].from < t[n].from {
        i := n;
      }
    }
    forall k | 0 <= k < |t| && k != i && SameKey(t, i, k) ensures t[k].from < t[i].from {
      assert !Tied(t, i, k);
    }
  }

  /** The current version is not closed, and stays the newest, when b is not wanted. */
  lemma CurrentKept(t: Table, inbox: seq<Incoming>, s: Stamp, t1: Table, b: Incoming, i: nat)
    requires LoadShape(t, inbox, s, t1) && Chain(t) && OneRowPerKey(inbox) && b in inbox && !Wanted(t, b)
    requires i < |t| && t[i].hk == b.hk && t[i].current
    ensures t1[i] == t[i] && Newest(t1, i)
  {
    ChainHasOneCurrent(t);
    CurrentDecides(t, i, b);
    StaysNewest(t, inbox, s, t1, i, b);
    assert t1[i] != t[i] ==> ClosedBy(inbox, t[i], t1[i]);
  }

  /** After a load in which b does not tie with the current version, the newest version of the key is
      current. */
  lemma NewestIsCurrent(t: Table, inbox: seq<Incoming>, s: Stamp, t1: Table, b: Incoming) returns (k: nat)
    requires LoadShape(t, inbox, s, t1) && Chain(t) && OneRowPerKey(inbox)
    requires b in inbox && !LoadedAt(t, b.hk, s.now) && !(Wanted(t, b) && StartsLikeCurrent(t, b))
    ensures k < |t1| && t1[k].hk == b.hk && t1[k].current && Newest(t1, k)
  {
    if i :| 0 <= i < |t| && t[i].hk == b.hk && t[i].current {
      if !Wanted(t, b) {
        k := i;
        CurrentKept(t, inbox, s, t1, b, i);
      } else if b.from < t[i].from {
        k := i;
        CurrentOutlives(t, inbox, s, t1, b, i);
      } else {
        OlderThanCurrent(t, i, b);
        k := AddedNewest(t, inbox, s, t1, b);
      }
    } else {
      forall j | 0 <= j < |t| ensures t[j].hk != b.hk {
        var c := ChainHasCurrent(t, j);
      }
      k := AddedNewest(t, inbox, s, t1, b);
    }
  }

  lemma NoTieKeepsCurrent(t: Table, inbox: seq<Incoming>, s: Stamp, t': Table, b: Incoming)
    requires Chain(t) && OneRowPerKey(inbox) && b in inbox && !LoadedAt(t, b.hk, s.now)
    requires !(Wanted(t, b) && StartsLikeCurrent(t, b))
    requires TaskStep(t, Task(inbox, s, NoCrash), t')
    ensures !NoneCurrent(t', b.hk)
  {
    ChainHasOneCurrent(t);
    var t1 :| Loaded(t, inbox, s, t1) && Reconciled(t1, t');
    LoadHasShape(t, inbox, s, t1);
    var k := NewestIsCurrent(t, inbox, s, t1, b);
    NewestStaysCurrent(t1, t', k);
  }

  lemma OlderThanCurrent(t: Table, i: nat, b: Incoming)
    requires Chain(t) && i < |t| && t[i].hk == b.hk && t[i].current && t[i].from < b.from
    ensures forall j :: 0 <= j < |t| && t[j].hk == b.hk ==> t[j].from < b.from
  {
    ChainHasOneCurrent(t);
    forall j | 0 <= j < |t| && t[j].hk == b.hk ensures t[j].from < b.from {
      assert j != i ==> SameKey(t, i, j);
    }
  }

  /** Exactly when a key of the inbox has a current version after the task: unless its row is wanted and
      starts when the current version does. */
  lemma KeepsCurrentExactly(t: Table, inbox: seq<Incoming>, s: Stamp, t': Table, b: Incoming)
    requires Chain(t) && OneRowPerKey(inbox) && b in inbox && !LoadedAt(t, b.hk, s.now)
    requires TaskStep(t, Task(inbox, s, NoCrash), t')
    ensures NoneCurrent(t', b.hk) <==> Wanted(t, b) && StartsLikeCurrent(t, b)
  {
    if Wanted(t, b) && StartsLikeCurrent(t, b) {
      TieLosesCurrent(t, inbox, s, t', b);
    } else {
      NoTieKeepsCurrent(t, inbox, s, t', b);
    }
  }

  /** The current version of the key holds this payload. */
  ghost predicate Shows(t: Table, hk: string, payload: Payload) {
    exists i :: 0 <= i < |t| && t[i].hk == hk && t[i].current && t[i].payload == payload
  }

  /** The hash tells the payload of b from those in the table. */
  ghost predicate HashTells(t: Table, b: Incoming) {
    forall i :: 0 <= i < |t| && t[i].hk == b.hk ==> (t[i].hash == b.hash <==> t[i].payload == b.payload)
  }

  lemma CurrentShows(t: Table, b: Incoming, i: nat)
    requires AtMostOneCurrent(t) && HashTells(t, b) && i < |t| && t[i].hk == b.hk && t[i].current
    ensures Shows(t, b.hk, b.payload) <==> !Wanted(t, b)
  {
    CurrentDecides(t, i, b);
    assert forall j :: 0 <= j < |t| && t[j].hk == b.hk && t[j].current ==> SameKey(t, i, j);
  }

  lemma OvertakenIsNotShown(t: Table, inbox: seq<Incoming>, s: Stamp, t1: Table, t': Table, b: Incoming)
    requires Chain(t) && OneRowPerKey(inbox) && b in inbox && HashTells(t, b) && Wanted(t, b) && Overtaken(t, b)
    requires LoadShape(t, inbox, s, t1) && Reconciled(t1, t')
    ensures !Shows(t', b.hk, b.payload)
  {
    ChainHasOneCurrent(t);
    forall j | 0 <= j < |t'| && t'[j].hk == b.hk && t'[j].current ensures t'[j].payload != b.payload {
      OvertakenLeavesCurrent(t, inbox, s, t1, t', b, j);
      CurrentDecides(t, j, b);
    }
  }

  lemma NewestIsShown(t1: Table, t': Table, i: nat, b: Incoming)
    requires Reconciled(t1, t') && i < |t1| && t1[i].current && Newest(t1, i)
    requires t1[i].hk == b.hk && t1[i].payload == b.payload
    ensures Shows(t', b.hk, b.payload)
  {
    ReconcileRow(t1, t', i);
  }

  /** What the current version of a key shows after the task, late and tied rows included: the payload of
      its inbox row exactly when it did so before or the row is newer than all versions of the key. */
  lemma ShowsExactly(t: Table, inbox: seq<Incoming>, s: Stamp, t': Table, b: Incoming)
    requires Chain(t) && OneRowPerKey(inbox) && b in inbox && !LoadedAt(t, b.hk, s.now) && HashTells(t, b)
    requires TaskStep(t, Task(inbox, s, NoCrash), t')
    ensures Shows(t', b.hk, b.payload) <==>
            Shows(t, b.hk, b.payload) || forall i :: 0 <= i < |t| && t[i].hk == b.hk ==> t[i].from < b.from
  {
    ChainHasOneCurrent(t);
    var t1 :| Loaded(t, inbox, s, t1) && Reconciled(t1, t');
    LoadHasShape(t, inbox, s, t1);
    if !Wanted(t, b) {
      var i :| 0 <= i < |t| && t[i].hk == b.hk && t[i].current;
      CurrentShows(t, b, i);
      CurrentKept(t, inbox, s, t1, b, i);
      CurrentDecides(t, i, b);
      NewestIsShown(t1, t', i, b);
    } else if j :| 0 <= j < |t| && t[j].hk == b.hk && b.from <= t[j].from {
      var i := ChainHasCurrent(t, j);
      CurrentShows(t, b, i);
      OvertakenIsNotShown(t, inbox, s, t1, t', b);
    } else {
      var k := AddedNewest(t, inbox, s, t1, b);
      NewestIsShown(t1, t', k, b);
    }
  }

  /** The attributes of a key change while its start stays: the task leaves the key no current version,
      and still wants the row, which it then inserts again at every run. */
  lemma SameStartLosesCurrent(t: Table, inbox: seq<Incoming>, s: Stamp, t': Table, b: Incoming, i: nat)
    requires Chain(t) && OneRowPerKey(inbox) && b in inbox && !LoadedAt(t, b.hk, s.now)
    requires i < |t| && t[i].hk == b.hk && t[i].current && t[i].from == b.from && t[i].hash != b.hash
    requires TaskStep(t, Task(inbox, s, NoCrash), t')
    ensures NoneCurrent(t', b.hk) && Wanted(t', b) && Overtaken(t', b)
  {
    ChainHasOneCurrent(t);
    CurrentDecides(t, i, b);
    KeepsCurrentExactly(t, inbox, s, t', b);
    OvertakenStaysWanted(t, inbox, s, t', b);
  }

  /** Running a task again with the same inbox changes nothing exactly when each row it inserted was
      newer than every version of its key: a late row, and one that ties, is inserted again. */
  lemma RerunExactly(t: Table, inbox: seq<Incoming>, s: Stamp, t': Table, s': Stamp, t'': Table)
    requires Chain(t) && OneRowPerKey(inbox)
    requires TaskStep(t, Task(inbox, s, NoCrash), t') && TaskStep(t', Task(inbox, s', NoCrash), t'')
    requires forall b :: b in inbox ==> !LoadedAt(t, b.hk, s.now) && !LoadedAt(t', b.hk, s'.now)
    ensures t'' == t' <==> forall b :: b in inbox ==> InOrder(t, b, s.now)
  {
    ChainHasOneCurrent(t);
    if b :| b in inbox && !InOrder(t, b, s.now) {
      OvertakenStaysWanted(t, inbox, s, t', b);
      OvertakenStaysWanted(t', inbox, s', t'', b);
    } else {
      InOrderRerun(t, inbox, s, t', s', t'');
    }
  }

  lemma InOrderRerun(t: Table, inbox: seq<Incoming>, s: Stamp, t': Table, s': Stamp, t'': Table)
    requires Chain(t) && OneRowPerKey(inbox)
    requires TaskStep(t, Task(inbox, s, NoCrash), t') && TaskStep(t', Task(inbox, s', NoCrash), t'')
    requires forall b :: b in inbox ==> !LoadedAt(t, b.hk, s.now) && InOrder(t, b, s.now)
    ensures t'' == t'
  {
    var t1 :| Loaded(t, inbox, s, t1) && Reconciled(t1, t');
    forall b | b in inbox ensures Sound(t, b, s.now) {
      assert InOrder(t, b, s.now);
    }
    TaskKeepsChainExactly(t, inbox, s, t1, t');
    var t2: Table :| Loaded(t', inbox, s', t2) && Reconciled(t2, t'');
    ChainHasOneCurrent(t');
    LoadHasShape(t', inbox, s', t2);
    forall b | b in inbox ensures !Wanted(t', b) {
      NotWantedAgain(t, inbox, s, t1, t', b);
    }
    NothingWanted(t', inbox, s', t2);
    ReconcileChain(t', t'');
  }

  lemma NotWantedAgain(t: Table, inbox: seq<Incoming>, s: Stamp, t1: Table, t': Table, b: Incoming)
    requires Chain(t) && Chain(t') && OneRowPerKey(inbox) && b in inbox
    requires Loaded(t, inbox, s, t1) && Reconciled(t1, t')
    requires InOrder(t, b, s.now) && !LoadedAt(t, b.hk, s.now)
    ensures !Wanted(t', b)
  {
    ChainHasOneCurrent(t);
    LoadHasShape(t, inbox, s, t1);
    var i;
    if !Wanted(t, b) {
      i :| 0 <= i < |t| && t[i].hk == b.hk && t[i].current && t[i].hash == b.hash;
      StaysNewest(t, inbox, s, t1, i, b);
    } else {
      assert Added(t, t1, b, s);
      i :| |t| <= i < |t1| && IsNew(t1[i], b, s);
      NewIsNewest(t, inbox, s, t1, i, b);
    }
    NewestDecides(t1, t', i, b);
  }

  lemma NewestDecides(t1: Table, t': Table, i: nat, b: Incoming)
    requires Reconciled(t1, t') && Chain(t') && i < |t1| && Newest(t1, i) && t1[i].hk == b.hk
    ensures Wanted(t', b) <==> t1[i].hash != b.hash
  {
    ReconcileKeepsVersions(t1, t');
    SameTies(t1, t');
    ChainHasOneCurrent(t');
    CurrentDecides(t', i, b);
  }

  // ----- A crash between load and reconcile, and the retry -----

  /** The row the first load inserted out of order is inserted a second time by the retry, and ties with
      its own copy. */
  lemma RetryTies(t: Table, inbox: seq<Incoming>, s: Stamp, t1: Table, s': Stamp, t2: Table, b: Incoming)
    requires Chain(t) && OneRowPerKey(inbox) && b in inbox && Wanted(t, b) && Overtaken(t, b)
    requires !LoadedAt(t, b.hk, s.now) && !LoadedAt(t1, b.hk, s'.now)
    requires Loaded(t, inbox, s, t1) && TaskStep(t1, Task(inbox, s', NoCrash), t2)
    ensures !DistinctFrom(t2)
  {
    ChainHasOneCurrent(t);
    LoadHasShape(t, inbox, s, t1);
    var j :| 0 <= j < |t| && t[j].hk == b.hk && b.from <= t[j].from;
    var i := ChainHasCurrent(t, j);
    CurrentDecides(t, i, b);
    assert t1[i] != t[i] ==> ClosedBy(inbox, t[i], t1[i]);
    assert Added(t, t1, b, s);
    var k :| |t| <= k < |t1| && IsNew(t1[k], b, s);
    RetryInserts(t1, inbox, s', t2, b, i, k);
  }

  /** With a current version of another hash that b does not close, b is inserted, whatever else is
      current: here beside the copy at k. */
  lemma RetryInserts(t1: Table, inbox: seq<Incoming>, s: Stamp, t2: Table, b: Incoming, i: nat, k: nat)
    requires OneRowPerKey(inbox) && b in inbox && !LoadedAt(t1, b.hk, s.now)
    requires i < |t1| && t1[i].hk == b.hk && t1[i].current && t1[i].hash != b.hash && b.from <= t1[i].from
    requires k < |t1| && t1[k].hk == b.hk && t1[k].from == b.from
    requires TaskStep(t1, Task(inbox, s, NoCrash), t2)
    ensures !DistinctFrom(t2)
  {
    var u :| Loaded(t1, inbox, s, u) && Reconciled(u, t2);
    var mid :| Closed(t1, inbox, mid) && u == Inserted(mid, inbox, s);
    CloseRow(t1, inbox, mid, i);
    CloseRow(t1, inbox, mid, k);
    forall x | 0 <= x < |mid| ensures SameVersion(t1[x], mid[x]) {
      CloseRow(t1, inbox, mid, x);
    }
    InsertFacts(mid, mid, inbox, s);
    var k' := InsertedRow(mid, inbox, s, b);
    ReconcileKeepsVersions(u, t2);
    assert u[k] == mid[k];
    assert Tied(t2, k, k');
  }

  /** A task that crashes after its load and is run again on the same inbox ends in a chain exactly when
      every row is in order. */
  lemma CrashThenRetryExactly(t: Table, inbox: seq<Incoming>, s: Stamp, t1: Table, s': Stamp, t2: Table)
    requires Chain(t) && OneRowPerKey(inbox)
    requires TaskStep(t, Task(inbox, s, BeforeReconcile), t1) && TaskStep(t1, Task(inbox, s', NoCrash), t2)
    requires forall b :: b in inbox ==> !LoadedAt(t, b.hk, s.now) && !LoadedAt(t1, b.hk, s'.now)
    ensures Chain(t2) <==> forall b :: b in inbox ==> InOrder(t, b, s.now)
  {
    ChainHasOneCurrent(t);
    if b :| b in inbox && !InOrder(t, b, s.now) {
      RetryTies(t, inbox, s, t1, s', t2, b);
    } else {
      LoadAloneKeepsChainExactly(t, inbox, s, t1);
      forall b | b in inbox ensures Sound(t1, b, s'.now) {
        NotWantedAfterLoad(t, inbox, s, t1, b);
      }
      var u :| Loaded(t1, inbox, s', u) && Reconciled(u, t2);
      TaskKeepsChainExactly(t1, inbox, s', u, t2);
    }
  }

  lemma NotWantedAfterLoad(t: Table, inbox: seq<Incoming>, s: Stamp, t1: Table, b: Incoming)
    requires Chain(t) && Chain(t1) && OneRowPerKey(inbox) && b in inbox && Loaded(t, inbox, s, t1)
    requires InOrder(t, b, s.now) && !LoadedAt(t, b.hk, s.now)
    ensures !Wanted(t1, b)
  {
    ChainHasOneCurrent(t);
    ChainHasOneCurrent(t1);
    LoadHasShape(t, inbox, s, t1);
    var i;
    if !Wanted(t, b) {
      i :| 0 <= i < |t| && t[i].hk == b.hk && t[i].current && t[i].hash == b.hash;
      StaysNewest(t, inbox, s, t1, i, b);
    } else {
      i := AddedNewest(t, inbox, s, t1, b);
    }
    CurrentDecides(t1, i, b);
  }

  lemma CurrentDecides(t: Table, i: nat, b: Incoming)
    requires AtMostOneCurrent(t) && i < |t| && t[i].hk == b.hk && t[i].current
    ensures Wanted(t, b) <==> t[i].hash != b.hash
  {
    assert forall j :: 0 <= j < |t| && t[j].hk == b.hk && t[j].current ==> SameKey(t, i, j);
  }

  /** The newest row of a key stays it when the load wants no row of the key. */
  lemma StaysNewest(t: Table, inbox: seq<Incoming>, s: Stamp, t1: Table, i: nat, b: Incoming)
    requires LoadShape(t, inbox, s, t1) && Chain(t) && OneRowPerKey(inbox)
    requires i < |t| && t[i].current && b in inbox && b.hk == t[i].hk
    requires !Wanted(t, b)
    ensures Newest(t1, i)
  {
    ChainHasOneCurrent(t);
    forall k | |t| <= k < |t1| ensures t1[k].hk != b.hk {
      assert FromInbox(t, inbox, s, t1[k]);
    }
    forall j | 0 <= j < |t1| && j != i && SameKey(t1, i, j) ensures t1[j].from < t1[i].from {
      assert SameKey(t, i, j);
    }
  }
}
