/**
  The ingest protocol around the consumer: read the stored offsets, seek and fetch, insert the built
  rows with ON CONFLICT DO NOTHING, store the merged offsets, commit to the broker.  A run may stop
  between any two of these steps and several runs may be in flight; only the raw table and the stored
  offsets are durable.
 */
module KafkaIngest {
  import opened Prelude
  import opened KafkaConsumer

  /** A row of a raw Kafka table, with its unique key (topic, partition, offset). */
  datatype Row = Row(topic: string, partition: int, offset: int, columns: seq<string>)

  /** What comes of a message: a row, or none, or an exception, of the record builder or of the table when
      it is given the row. */
  datatype Answer = Keep(row: Row) | Skip | Refused

  type Builder = Message -> Answer

  /** What every record builder does: the key of the row is that of the message. */
  ghost predicate Keyed(build: Builder) {
    forall m: Message :: build(m).Keep? ==> KeyOf(build(m).row) == (m.topic, m.partition, m.record.offset as int)
  }

  function KeyOf(r: Row): (string, int, int) {
    (r.topic, r.partition, r.offset)
  }

  predicate HasKey(table: seq<Row>, key: (string, int, int)) {
    exists i :: 0 <= i < |table| && KeyOf(table[i]) == key
  }

  /** INSERT ... ON CONFLICT (topic, partition_id, kafka_offset) DO NOTHING. */
  function Insert(table: seq<Row>, rows: seq<Row>): seq<Row>
    decreases |rows|
  {
    if rows == [] then table
    else Insert(if HasKey(table, KeyOf(rows[0])) then table else table + [rows[0]], rows[1..])
  }

  datatype Durable = Durable(table: seq<Row>, watermark: map<int, int>)

  /** A topic, its log and its builder. */
  datatype Source = Source(topic: string, log: Log, build: Builder) {
    ghost predicate Valid() {
      ValidLog(log) && Keyed(build)
    }

    /** The record decodes, and neither the builder nor the table refuses it. */
    predicate Accepts(p: int, r: Record) {
      r.utf8 && !build(Message(topic, p, r)).Refused?
    }
  }

  function Built(src: Source, ms: seq<Message>): seq<Row> {
    if ms == [] then []
    else if src.build(ms[0]).Keep? then [src.build(ms[0]).row] + Built(src, ms[1..])
    else Built(src, ms[1..])
  }

  /** No message of the batch is refused, so that the insert commits. */
  ghost predicate AllAccepted(src: Source, b: Batch) {
    forall m :: m in b.messages ==> !src.build(m).Refused?
  }

  // ----- The protocol as a transition system -----

  datatype Stage = Fetched | Stored | Marked

  datatype InFlight = InFlight(offsets: map<int, int>, batch: Batch, stage: Stage)

  datatype State = State(durable: Durable, runs: map<nat, InFlight>)

  datatype Action =
    | Begin(id: nat, batch: Batch)    // read the offsets, seek, fetch
    | InsertRows(id: nat)             // bulk insert
    | StoreOffsets(id: nat)           // write the merged offsets
    | Leave(id: nat)                  // commit to the broker, or crash, or raise
    | Foreign(rows: seq<Row>)         // rows of other topics into the same table

  ghost predicate Step(src: Source, s: State, a: Action, s': State) {
    match a
    case Begin(id, batch) =>
      && id !in s.runs && batch.messages != []
      && FetchedFrom(src.log, src.topic, StartPositions(src.log, s.durable.watermark), batch)
      && s' == s.(runs := s.runs[id := InFlight(s.durable.watermark, batch, Fetched)])
    case InsertRows(id) =>
      && id in s.runs && s.runs[id].stage == Fetched && AllAccepted(src, s.runs[id].batch)
      && s' == State(
           s.durable.(table := Insert(s.durable.table, Built(src, s.runs[id].batch.messages))),
           s.runs[id := s.runs[id].(stage := Stored)])
    case StoreOffsets(id) =>
      && id in s.runs && s.runs[id].stage == Stored
      && s' == State(
           s.durable.(watermark := s.runs[id].offsets + s.runs[id].batch.lastOffsets),
           s.runs[id := s.runs[id].(stage := Marked)])
    case Leave(id) =>
      id in s.runs && s' == s.(runs := s.runs - {id})
    case Foreign(rows) =>
      && (forall r :: r in rows ==> r.topic != src.topic)
      && s' == s.(durable := s.durable.(table := Insert(s.durable.table, rows)))
  }

  ghost predicate Run(src: Source, ss: seq<State>, actions: seq<Action>) {
    |ss| == |actions| + 1 && forall k :: 0 <= k < |actions| ==> Step(src, ss[k], actions[k], ss[k + 1])
  }

  // ----- What always holds -----

  /** Every row of the topic is the image of the record its key names, and no key occurs twice. */
  ghost predicate Images(src: Source, table: seq<Row>) {
    KeysDiffer(src, table) && forall i :: 0 <= i < |table| && table[i].topic == src.topic ==> IsImage(src, table[i])
  }

  ghost predicate KeysDiffer(src: Source, table: seq<Row>) {
    forall i, j :: 0 <= i < j < |table| && table[i].topic == src.topic ==> KeyOf(table[i]) != KeyOf(table[j])
  }

  ghost predicate IsImage(src: Source, row: Row) {
    exists p, r :: p in src.log && r in src.log[p] && src.build(Message(src.topic, p, r)) == Keep(row)
  }

  predicate Stored?(src: Source, table: seq<Row>, p: int, r: Record) {
    var b := src.build(Message(src.topic, p, r));
    b.Keep? ==> b.row in table
  }

  /** Every record at or below the offsets has its row in the table. */
  ghost predicate CompleteTo(src: Source, table: seq<Row>, offsets: map<int, int>) {
    && offsets.Keys <= src.log.Keys
    && forall p, r :: p in offsets && p in src.log && r in src.log[p] && r.offset <= offsets[p] ==>
         Stored?(src, table, p, r)
  }

  ghost predicate RunOk(src: Source, table: seq<Row>, run: InFlight) {
    && CompleteTo(src, table, run.offsets)
    && FetchedFrom(src.log, src.topic, StartPositions(src.log, run.offsets), run.batch)
    && (run.stage != Fetched ==> CompleteTo(src, table, run.offsets + run.batch.lastOffsets))
  }

  ghost predicate Inv(src: Source, s: State) {
    && Images(src, s.durable.table)
    && CompleteTo(src, s.durable.table, s.durable.watermark)
    && forall id :: id in s.runs ==> RunOk(src, s.durable.table, s.runs[id])
  }

  // ----- Inserting -----

  lemma {:induction false} InsertKeeps(table: seq<Row>, rows: seq<Row>)
    ensures var t := Insert(table, rows); |table| <= |t| && t[..|table|] == table
    decreases |rows|
  {
    if rows != [] {
      var t1 := if HasKey(table, KeyOf(rows[0])) then table else table + [rows[0]];
      InsertKeeps(t1, rows[1..]);
      assert Insert(table, rows)[..|table|] == Insert(t1, rows[1..])[..|t1|][..|table|];
    }
  }

  lemma CompleteStays(src: Source, table: seq<Row>, rows: seq<Row>)
    ensures forall offsets :: CompleteTo(src, table, offsets) ==> CompleteTo(src, Insert(table, rows), offsets)
  {
    var t := Insert(table, rows);
    InsertKeeps(table, rows);
    forall r | r in table ensures r in t {
      var i :| 0 <= i < |table| && table[i] == r;
      assert t[..|table|][i] == t[i];
    }
  }

  lemma OffsetDetermines(rs: seq<Record>, r: Record, r': Record)
    requires Ascending(rs) && r in rs && r' in rs && r.offset == r'.offset
    ensures r == r'
  {
    var i :| 0 <= i < |rs| && rs[i] == r;
    var j :| 0 <= j < |rs| && rs[j] == r';
  }

  /** The key of a row determines the row, among the images of the log. */
  lemma ImageOfKey(src: Source, row: Row, row': Row)
    requires src.Valid() && IsImage(src, row) && IsImage(src, row') && KeyOf(row) == KeyOf(row')
    ensures row == row'
  {
    var p, r :| p in src.log && r in src.log[p] && src.build(Message(src.topic, p, r)) == Keep(row);
    var p', r' :| p' in src.log && r' in src.log[p'] && src.build(Message(src.topic, p', r')) == Keep(row');
    assert KeyOf(row) == (src.topic, p, r.offset as int) && KeyOf(row') == (src.topic, p', r'.offset as int);
    OffsetDetermines(src.log[p], r, r');
  }

  /** Inserting images, or rows of other topics, keeps the table a set of images and stores them. */
  lemma {:induction false} InsertImages(src: Source, table: seq<Row>, rows: seq<Row>)
    requires src.Valid() && Images(src, table)
    requires forall r :: r in rows ==> r.topic != src.topic || IsImage(src, r)
    ensures Images(src, Insert(table, rows))
    ensures forall r :: r in rows && IsImage(src, r) ==> r in Insert(table, rows)
    decreases |rows|
  {
    if rows != [] {
      var row := rows[0];
      var t1 := if HasKey(table, KeyOf(row)) then table else table + [row];
      if IsImage(src, row) {
        assert row in t1 by {
          if i :| 0 <= i < |table| && KeyOf(table[i]) == KeyOf(row) {
            ImageOfKey(src, row, table[i]);
          } else {
            assert t1[|table|] == row;
          }
        }
      }
      InsertImages(src, t1, rows[1..]);
      InsertKeeps(t1, rows[1..]);
      var t := Insert(table, rows);
      forall r | r in t1 ensures r in t {
        var i :| 0 <= i < |t1| && t1[i] == r;
        assert t[..|t1|][i] == t[i];
      }
    }
  }

  lemma {:induction false} BuiltMember(src: Source, ms: seq<Message>, row: Row)
    ensures row in Built(src, ms) <==> exists m :: m in ms && src.build(m) == Keep(row)
  {
    if ms != [] {
      BuiltMember(src, ms[1..], row);
    }
  }

  /** Every message of a fetched batch is a record of the log. */
  lemma BatchIsFromLog(src: Source, start: map<int, int>, b: Batch, m: Message)
    requires FetchedFrom(src.log, src.topic, start, b) && m in b.messages
    ensures m.topic == src.topic && m.partition in start && m.partition in src.log
    ensures m.record in src.log[m.partition] && m == Message(src.topic, m.partition, m.record)
  {
    OfMember(b.messages, m.partition, m.record);
    assert SliceFetched(src.log, start, b, m.partition);
    SliceMember(src.log[m.partition], start[m.partition], End(start, b.lastOffsets, m.partition), m.record);
  }

  lemma BuiltAreImages(src: Source, start: map<int, int>, b: Batch)
    requires FetchedFrom(src.log, src.topic, start, b)
    ensures forall r :: r in Built(src, b.messages) ==> IsImage(src, r)
  {
    forall r | r in Built(src, b.messages) ensures IsImage(src, r) {
      BuiltMember(src, b.messages, r);
      var m :| m in b.messages && src.build(m) == Keep(r);
      BatchIsFromLog(src, start, b, m);
    }
  }

  lemma FetchedIsBuilt(src: Source, start: map<int, int>, b: Batch, p: int, r: Record)
    requires FetchedFrom(src.log, src.topic, start, b) && p in b.lastOffsets
    requires p in src.log && r in src.log[p] && start[p] <= r.offset <= b.lastOffsets[p]
    requires src.build(Message(src.topic, p, r)).Keep?
    ensures src.build(Message(src.topic, p, r)).row in Built(src, b.messages)
  {
    assert SliceFetched(src.log, start, b, p);
    SliceMember(src.log[p], start[p], b.lastOffsets[p] + 1, r);
    OfMember(b.messages, p, r);
    var m :| m in b.messages && m.partition == p && m.record == r;
    assert m == Message(src.topic, p, r);
    BuiltMember(src, b.messages, src.build(m).row);
  }

  lemma FetchedPartitions(src: Source, start: map<int, int>, b: Batch)
    requires FetchedFrom(src.log, src.topic, start, b)
    ensures b.lastOffsets.Keys <= src.log.Keys
  {
    forall p | p in b.lastOffsets ensures p in src.log {
      assert SliceFetched(src.log, start, b, p);
    }
  }

  /** Storing the batch completes the table up to the merged offsets. */
  lemma BatchCompletes(src: Source, table: seq<Row>, run: InFlight)
    requires src.Valid() && Images(src, table) && RunOk(src, table, run)
    ensures var t := Insert(table, Built(src, run.batch.messages));
            Images(src, t) && CompleteTo(src, t, run.offsets + run.batch.lastOffsets)
  {
    var start, rows := StartPositions(src.log, run.offsets), Built(src, run.batch.messages);
    var t := Insert(table, rows);
    var merged := run.offsets + run.batch.lastOffsets;
    BuiltAreImages(src, start, run.batch);
    InsertImages(src, table, rows);
    CompleteStays(src, table, rows);
    FetchedPartitions(src, start, run.batch);
    assert CompleteTo(src, t, run.offsets);
    forall p, r | p in merged && p in src.log && r in src.log[p] && r.offset <= merged[p]
      ensures Stored?(src, t, p, r)
    {
      if p in run.batch.lastOffsets && start[p] <= r.offset {
        if src.build(Message(src.topic, p, r)).Keep? {
          FetchedIsBuilt(src, start, run.batch, p, r);
        }
      } else {
        assert p in run.offsets && r.offset <= run.offsets[p];
      }
    }
  }

  lemma StepKeepsInv(src: Source, s: State, a: Action, s': State)
    requires src.Valid() && Inv(src, s) && Step(src, s, a, s')
    ensures Inv(src, s')
  {
    match a
    case Begin(id, batch) =>
    case InsertRows(id) =>
      var rows := Built(src, s.runs[id].batch.messages);
      BatchCompletes(src, s.durable.table, s.runs[id]);
      CompleteStays(src, s.durable.table, rows);
    case StoreOffsets(id) =>
    case Leave(id) =>
    case Foreign(rows) =>
      InsertImages(src, s.durable.table, rows);
      CompleteStays(src, s.durable.table, rows);
  }

  lemma {:induction false} InvOverRuns(src: Source, ss: seq<State>, actions: seq<Action>, n: nat)
    requires src.Valid() && Run(src, ss, actions) && Inv(src, ss[0]) && n < |ss|
    ensures Inv(src, ss[n])
  {
    if n > 0 {
      InvOverRuns(src, ss, actions, n - 1);
      StepKeepsInv(src, ss[n - 1], actions[n - 1], ss[n]);
    }
  }

  /** A start: no stored offsets, no run, no row of the topic. */
  predicate Initial(src: Source, s: State) {
    && s.durable.watermark == map[] && s.runs == map[]
    && forall i :: 0 <= i < |s.durable.table| ==> s.durable.table[i].topic != src.topic
  }

  lemma LastIsNew(src: Source, table: seq<Row>)
    requires KeysDiffer(src, table) && table != [] && table[|table| - 1].topic == src.topic
    ensures table[|table| - 1] !in table[..|table| - 1]
  {
    var n := |table| - 1;
    forall i | 0 <= i < n ensures table[..n][i] != table[n] {
      assert table[i].topic == src.topic ==> KeyOf(table[i]) != KeyOf(table[n]);
    }
  }

  lemma {:induction false} CountsOne(src: Source, table: seq<Row>, row: Row)
    requires KeysDiffer(src, table) && row.topic == src.topic
    ensures multiset(table)[row] == if row in table then 1 else 0
  {
    if table != [] {
      var n := |table| - 1;
      CountsOne(src, table[..n], row);
      assert table == table[..n] + [table[n]];
      if table[n].topic == src.topic {
        LastIsNew(src, table);
      }
    }
  }

  /** However runs interleave, crash and repeat: for every record at or below the stored offset of its
      partition, the row that the builder makes of it is in the table once, and nothing else with its key,
      which nothing has when the builder skips the record. */
  lemma ExactlyOnce(src: Source, ss: seq<State>, actions: seq<Action>, n: nat, p: int, r: Record)
    requires src.Valid() && Run(src, ss, actions) && Initial(src, ss[0]) && n < |ss|
    requires p in ss[n].durable.watermark && p in src.log && r in src.log[p] && r.offset <= ss[n].durable.watermark[p]
    ensures var t, answer := ss[n].durable.table, src.build(Message(src.topic, p, r));
            && (answer.Keep? ==> multiset(t)[answer.row] == 1)
            && forall i :: 0 <= i < |t| && t[i].topic == src.topic && t[i].partition == p && t[i].offset == r.offset ==>
                 answer == Keep(t[i])
  {
    InvOverRuns(src, ss, actions, n);
    var t, answer := ss[n].durable.table, src.build(Message(src.topic, p, r));
    assert Stored?(src, t, p, r);
    if answer.Keep? {
      assert KeyOf(answer.row) == (src.topic, p, r.offset as int);
      CountsOne(src, t, answer.row);
    }
    forall i | 0 <= i < |t| && t[i].topic == src.topic && t[i].partition == p && t[i].offset == r.offset
      ensures answer == Keep(t[i])
    {
      ImageIsBuilt(src, t[i], p, r);
    }
  }

  /** An image of a record is what the builder makes of the record that its key names. */
  lemma ImageIsBuilt(src: Source, row: Row, p: int, r: Record)
    requires src.Valid() && IsImage(src, row) && p in src.log && r in src.log[p]
    requires row.topic == src.topic && row.partition == p && row.offset == r.offset
    ensures src.build(Message(src.topic, p, r)) == Keep(row)
  {
    var p', r' :| p' in src.log && r' in src.log[p'] && src.build(Message(src.topic, p', r')) == Keep(row);
    assert KeyOf(row) == (src.topic, p', r'.offset as int);
    OffsetDetermines(src.log[p], r, r');
  }

  // ----- The table up to the offsets does not depend on how it was filled -----

  /** Up to the offsets, both tables hold each row of the topic equally often. */
  ghost predicate SameTo(src: Source, w: map<int, int>, t: seq<Row>, t': seq<Row>) {
    forall row: Row :: row.topic == src.topic && row.partition in w && row.offset <= w[row.partition] ==>
      multiset(t)[row] == multiset(t')[row]
  }

  /** What the table of a reachable state holds up to the stored offsets: each row that the builder makes of
      a record, once, and no other. */
  lemma TableExactly(src: Source, ss: seq<State>, actions: seq<Action>, n: nat, row: Row)
    requires src.Valid() && Run(src, ss, actions) && Initial(src, ss[0]) && n < |ss|
    requires var w := ss[n].durable.watermark;
             row.topic == src.topic && row.partition in w && row.offset <= w[row.partition]
    ensures row.partition in src.log
    ensures multiset(ss[n].durable.table)[row] ==
            if exists r :: r in src.log[row.partition] && src.build(Message(src.topic, row.partition, r)) == Keep(row)
            then 1 else 0
  {
    InvOverRuns(src, ss, actions, n);
    var t, p := ss[n].durable.table, row.partition;
    CountsOne(src, t, row);
    if r :| r in src.log[p] && src.build(Message(src.topic, p, r)) == Keep(row) {
      assert KeyOf(row) == (src.topic, p, r.offset as int);
      assert Stored?(src, t, p, r);
    }
    if row in t {
      var i :| 0 <= i < |t| && t[i] == row;
      assert IsImage(src, t[i]);
      var p', r :| p' in src.log && r in src.log[p'] && src.build(Message(src.topic, p', r)) == Keep(row);
      assert KeyOf(row) == (src.topic, p', r.offset as int);
    }
  }

  /** Two histories of the same topic that end with the same stored offsets, one crashing and
      interleaving at will and the other not, have the same rows up to those offsets. */
  lemma SameUpToOffsets(src: Source, ss: seq<State>, actions: seq<Action>, n: nat,
                        ss': seq<State>, actions': seq<Action>, n': nat)
    requires src.Valid() && Run(src, ss, actions) && Run(src, ss', actions') && n < |ss| && n' < |ss'|
    requires Initial(src, ss[0]) && Initial(src, ss'[0])
    requires ss[n].durable.watermark == ss'[n'].durable.watermark
    ensures SameTo(src, ss[n].durable.watermark, ss[n].durable.table, ss'[n'].durable.table)
  {
    var w := ss[n].durable.watermark;
    forall row: Row | row.topic == src.topic && row.partition in w && row.offset <= w[row.partition]
      ensures multiset(ss[n].durable.table)[row] == multiset(ss'[n'].durable.table)[row]
    {
      TableExactly(src, ss, actions, n, row);
      TableExactly(src, ss', actions', n', row);
    }
  }

  // ----- One run at a time -----

  /** The scheduler starts a run only when none is in flight. */
  ghost predicate SerialRun(src: Source, ss: seq<State>, actions: seq<Action>) {
    Run(src, ss, actions) && forall k :: 0 <= k < |actions| && actions[k].Begin? ==> ss[k].runs == map[]
  }

  /** The run in flight, until it stores its offsets, has read the stored ones. */
  ghost predicate SerialInv(src: Source, s: State) {
    forall id :: id in s.runs ==>
      && s.runs.Keys == {id}
      && FetchedFrom(src.log, src.topic, StartPositions(src.log, s.runs[id].offsets), s.runs[id].batch)
      && (s.runs[id].stage != Marked ==> s.runs[id].offsets == s.durable.watermark)
      && (s.runs[id].stage != Fetched ==> AllAccepted(src, s.runs[id].batch))
  }

  lemma StepKeepsSerialInv(src: Source, s: State, a: Action, s': State)
    requires SerialInv(src, s) && Step(src, s, a, s') && (a.Begin? ==> s.runs == map[])
    ensures SerialInv(src, s')
  {
  }

  lemma {:induction false} SerialInvHolds(src: Source, ss: seq<State>, actions: seq<Action>, n: nat)
    requires SerialRun(src, ss, actions) && ss[0].runs == map[] && n < |ss|
    ensures SerialInv(src, ss[n])
  {
    if n > 0 {
      SerialInvHolds(src, ss, actions, n - 1);
      StepKeepsSerialInv(src, ss[n - 1], actions[n - 1], ss[n]);
    }
  }

  /** No stored offset is lowered, and no partition joins once there is one. */
  predicate Advances(w: map<int, int>, w': map<int, int>) {
    && (forall p :: p in w ==> p in w' && w[p] <= w'[p])
    && (w != map[] ==> w'.Keys == w.Keys)
  }

  /** Merging the last offsets of a batch into the offsets it was read from lowers none of them. */
  lemma MergeAdvances(src: Source, offsets: map<int, int>, b: Batch)
    requires FetchedFrom(src.log, src.topic, StartPositions(src.log, offsets), b)
    ensures Advances(offsets, offsets + b.lastOffsets)
  {
    if offsets != map[] {
      assert forall p :: p in b.lastOffsets ==> p in offsets;
      assert (offsets + b.lastOffsets).Keys == offsets.Keys;
    }
  }

  lemma SerialStepAdvances(src: Source, s: State, a: Action, s': State)
    requires SerialInv(src, s) && Step(src, s, a, s')
    ensures Advances(s.durable.watermark, s'.durable.watermark)
  {
    if a.StoreOffsets? {
      MergeAdvances(src, s.runs[a.id].offsets, s.runs[a.id].batch);
    }
  }

  /** With one run at a time the stored offsets never go back, whatever crashes. */
  lemma {:induction false} OffsetsAdvance(src: Source, ss: seq<State>, actions: seq<Action>, m: nat, n: nat)
    requires SerialRun(src, ss, actions) && ss[0].runs == map[] && m <= n < |ss|
    ensures Advances(ss[m].durable.watermark, ss[n].durable.watermark)
  {
    if m < n {
      OffsetsAdvance(src, ss, actions, m, n - 1);
      SerialInvHolds(src, ss, actions, n - 1);
      SerialStepAdvances(src, ss[n - 1], actions[n - 1], ss[n]);
    }
  }

  lemma {:induction false} InsertAddsOnly(table: seq<Row>, rows: seq<Row>, r: Row)
    ensures r in Insert(table, rows) ==> r in table || r in rows
    decreases |rows|
  {
    if rows != [] {
      InsertAddsOnly(if HasKey(table, KeyOf(rows[0])) then table else table + [rows[0]], rows[1..], r);
    }
  }

  lemma NotBuilt(src: Source, start: map<int, int>, b: Batch, row: Row)
    requires src.Valid() && FetchedFrom(src.log, src.topic, start, b) && row.partition !in start
    ensures row !in Built(src, b.messages)
  {
    BuiltMember(src, b.messages, row);
    forall m | m in b.messages ensures src.build(m) != Keep(row) {
      BatchIsFromLog(src, start, b, m);
    }
  }

  /** Every row of partition p was there before. */
  ghost predicate NoNewRows(src: Source, table: seq<Row>, table': seq<Row>, p: int) {
    forall row :: row in table' && row.topic == src.topic && row.partition == p ==> row in table
  }

  lemma StarvedStep(src: Source, s: State, a: Action, s': State, p: int)
    requires src.Valid() && SerialInv(src, s) && Step(src, s, a, s')
    requires s.durable.watermark != map[] && p !in s.durable.watermark
    ensures NoNewRows(src, s.durable.table, s'.durable.table, p)
  {
    forall row | row in s'.durable.table && row.topic == src.topic && row.partition == p
      ensures row in s.durable.table
    {
      if a.InsertRows? {
        var run := s.runs[a.id];
        InsertAddsOnly(s.durable.table, Built(src, run.batch.messages), row);
        NotBuilt(src, StartPositions(src.log, run.offsets), run.batch, row);
      } else if a.Foreign? {
        InsertAddsOnly(s.durable.table, a.rows, row);
      }
    }
  }

  /** p has no offset, others have, and no row of p has come since s. */
  ghost predicate Starving(src: Source, s: State, s': State, p: int) {
    && p !in s'.durable.watermark && s'.durable.watermark != map[]
    && NoNewRows(src, s.durable.table, s'.durable.table, p)
  }

  lemma StarvesOn(src: Source, s: State, s1: State, a: Action, s2: State, p: int)
    requires src.Valid() && Starving(src, s, s1, p) && SerialInv(src, s1) && Step(src, s1, a, s2)
    ensures Starving(src, s, s2, p)
  {
    SerialStepAdvances(src, s1, a, s2);
    StarvedStep(src, s1, a, s2, p);
  }

  /** A partition that is missing from the first offsets stored is never read again: assign covers
      only the partitions that have an offset. */
  lemma {:induction false} MissedPartitionStarves(src: Source, ss: seq<State>, actions: seq<Action>,
                                                  m: nat, n: nat, p: int)
    requires src.Valid() && SerialRun(src, ss, actions) && ss[0].runs == map[] && m <= n < |ss|
    requires ss[m].durable.watermark != map[] && p !in ss[m].durable.watermark
    ensures Starving(src, ss[m], ss[n], p)
  {
    if m < n {
      MissedPartitionStarves(src, ss, actions, m, n - 1, p);
      SerialInvHolds(src, ss, actions, n - 1);
      StarvesOn(src, ss[m], ss[n - 1], actions[n - 1], ss[n], p);
    }
  }

  // ----- consume_topic -----

  /** How far a run gets. */
  datatype Outcome = Raised(error: Error) | NothingNew | NotAccepted | Stopped(after: Stage)

  /** The durable state once the step `last` of a run is done. */
  function After(src: Source, d: Durable, b: Batch, last: Stage): Durable {
    Durable(
      if last == Fetched then d.table else Insert(d.table, Built(src, b.messages)),
      if last == Marked then d.watermark + b.lastOffsets else d.watermark)
  }

  lemma AfterKeepsInv(src: Source, d: Durable, b: Batch, last: Stage)
    requires src.Valid() && Inv(src, State(d, map[]))
    requires FetchedFrom(src.log, src.topic, StartPositions(src.log, d.watermark), b)
    ensures Inv(src, State(After(src, d, b, last), map[]))
  {
    BatchCompletes(src, d.table, InFlight(d.watermark, b, Fetched));
    CompleteStays(src, d.table, Built(src, b.messages));
  }

  /** The insert stores what the builder makes of each message of the batch. */
  lemma BatchIsStored(src: Source, d: Durable, b: Batch)
    requires src.Valid() && Inv(src, State(d, map[]))
    requires FetchedFrom(src.log, src.topic, StartPositions(src.log, d.watermark), b)
    ensures HasBuilt(src, b, Insert(d.table, Built(src, b.messages)))
  {
    BuiltAreImages(src, StartPositions(src.log, d.watermark), b);
    InsertImages(src, d.table, Built(src, b.messages));
    forall m | m in b.messages && src.build(m).Keep? ensures src.build(m).row in Built(src, b.messages) {
      BuiltMember(src, b.messages, src.build(m).row);
    }
  }

  ghost predicate HasBuilt(src: Source, b: Batch, table: seq<Row>) {
    forall m :: m in b.messages && src.build(m).Keep? ==> src.build(m).row in table
  }

  /** What holds after the steps of a run, from a state in which the invariant may hold. */
  ghost predicate AfterRun(src: Source, d: Durable, b: Batch, last: Stage, d': Durable) {
    && d.table <= d'.table
    && d'.watermark == d.watermark + (if last == Marked then b.lastOffsets else map[])
    && (Inv(src, State(d, map[])) ==> Inv(src, State(d', map[])) && (last != Fetched ==> HasBuilt(src, b, d'.table)))
  }

  lemma RunIsAfter(src: Source, d: Durable, b: Batch, last: Stage)
    requires src.Valid() && FetchedFrom(src.log, src.topic, StartPositions(src.log, d.watermark), b)
    ensures AfterRun(src, d, b, last, After(src, d, b, last))
  {
    InsertKeeps(d.table, Built(src, b.messages));
    if Inv(src, State(d, map[])) {
      AfterKeepsInv(src, d, b, last);
      BatchIsStored(src, d, b);
    }
  }

  lemma Extend(src: Source, ss: seq<State>, actions: seq<Action>, a: Action, s': State)
    requires SerialRun(src, ss, actions) && Step(src, ss[|actions|], a, s')
    requires a.Begin? ==> ss[|actions|].runs == map[]
    ensures SerialRun(src, ss + [s'], actions + [a])
  {
    var ss', actions' := ss + [s'], actions + [a];
    forall k | 0 <= k < |actions'|
      ensures Step(src, ss'[k], actions'[k], ss'[k + 1]) && (actions'[k].Begin? ==> ss'[k].runs == map[])
    {
      assert k < |actions| ==> Step(src, ss[k], actions[k], ss[k + 1]);
    }
  }

  lemma ConsumeSteps(src: Source, d: Durable, b: Batch, last: Stage, id: nat)
    returns (ss: seq<State>, actions: seq<Action>)
    requires b.messages != [] && FetchedFrom(src.log, src.topic, StartPositions(src.log, d.watermark), b)
    requires last != Fetched ==> AllAccepted(src, b)
    ensures SerialRun(src, ss, actions) && ss[0] == State(d, map[])
    ensures ss[|actions|] == State(After(src, d, b, last), map[id := InFlight(d.watermark, b, last)])
    ensures |actions| == if last == Fetched then 1 else if last == Stored then 2 else 3
    decreases if last == Fetched then 0 else if last == Stored then 1 else 2
  {
    var a;
    match last {
      case Fetched =>
        ss, actions, a := [State(d, map[])], [], Begin(id, b);
      case Stored =>
        ss, actions := ConsumeSteps(src, d, b, Fetched, id);
        a := InsertRows(id);
      case Marked =>
        ss, actions := ConsumeSteps(src, d, b, Stored, id);
        a := StoreOffsets(id);
    }
    var s := State(After(src, d, b, last), map[id := InFlight(d.watermark, b, last)]);
    Extend(src, ss, actions, a, s);
    ss, actions := ss + [s], actions + [a];
  }

  /** A run that stops anywhere is a path of the transition system. */
  lemma ConsumeIsARun(src: Source, d: Durable, b: Batch, last: Stage, id: nat)
    returns (ss: seq<State>, actions: seq<Action>)
    requires b.messages != [] && FetchedFrom(src.log, src.topic, StartPositions(src.log, d.watermark), b)
    requires last != Fetched ==> AllAccepted(src, b)
    ensures SerialRun(src, ss, actions)
    ensures ss[0] == State(d, map[]) && ss[|actions|] == State(After(src, d, b, last), map[])
    ensures |actions| <= 4
  {
    ss, actions := ConsumeSteps(src, d, b, last, id);
    var s := State(After(src, d, b, last), map[]);
    Extend(src, ss, actions, Leave(id), s);
    ss, actions := ss + [s], actions + [Leave(id)];
  }

  // ----- Which partitions are read on -----

  /** The batch of one record, the next of its partition. */
  function One(src: Source, p: int, r: Record): Batch {
    Append(Batch([], map[]), Message(src.topic, p, r))
  }

  lemma OneIsFetched(src: Source, start: map<int, int>, p: int, r: Record)
    requires src.Valid() && start.Keys <= src.log.Keys && p in start && src.Accepts(p, r)
    requires Next(src.log[p], start[p]) == Some(r)
    ensures AllAccepted(src, One(src, p, r))
    ensures FetchedFrom(src.log, src.topic, start, One(src, p, r))
    ensures One(src, p, r).messages == [Message(src.topic, p, r)] && One(src, p, r).lastOffsets == map[p := r.offset]
  {
    FetchNothing(src.log, src.topic, start);
    AppendFetched(src.log, src.topic, start, Batch([], map[]), Message(src.topic, p, r));
  }

  /** A partition that is assigned and has a next record that is accepted is read on: there is a run that
      stores the offset of this record, and of no other partition. */
  lemma PartitionReadOn(src: Source, d: Durable, p: int, r: Record) returns (ss: seq<State>, actions: seq<Action>)
    requires src.Valid() && d.watermark.Keys <= src.log.Keys && p in StartPositions(src.log, d.watermark)
    requires Next(src.log[p], StartPositions(src.log, d.watermark)[p]) == Some(r)
    requires src.Accepts(p, r)
    ensures SerialRun(src, ss, actions) && ss[0] == State(d, map[])
    ensures ss[|actions|].durable.watermark == d.watermark[p := r.offset]
  {
    OneIsFetched(src, StartPositions(src.log, d.watermark), p, r);
    ss, actions := ConsumeIsARun(src, d, One(src, p, r), Marked, 0);
    assert d.watermark + map[p := r.offset as int] == d.watermark[p := r.offset];
  }

  /** From no stored offsets, a first batch with a record of p alone leaves q without an offset, and so
      unread for good. */
  lemma PartitionGetsMissed(src: Source, table: seq<Row>, p: int, q: int, r: Record)
    returns (ss: seq<State>, actions: seq<Action>)
    requires src.Valid() && p in src.log && q in src.log && p != q && Next(src.log[p], 0) == Some(r)
    requires src.Accepts(p, r)
    ensures SerialRun(src, ss, actions) && ss[0] == State(Durable(table, map[]), map[])
    ensures ss[|actions|].durable.watermark == map[p := r.offset] && q !in ss[|actions|].durable.watermark
  {
    ss, actions := PartitionReadOn(src, Durable(table, map[]), p, r);
  }

  /** The run moves the stored offset of p. */
  ghost predicate Moves(src: Source, d: Durable, p: int, ss: seq<State>, actions: seq<Action>) {
    && SerialRun(src, ss, actions) && ss[0] == State(d, map[])
    && !SameOffset(d.watermark, ss[|actions|].durable.watermark, p)
  }

  predicate SameOffset(w: map<int, int>, w': map<int, int>, p: int) {
    (p in w <==> p in w') && (p in w ==> w[p] == w'[p])
  }

  lemma {:induction false} NextNoneExactly(rs: seq<Record>, pos: int)
    ensures Next(rs, pos).None? <==> forall i :: 0 <= i < |rs| ==> rs[i].offset < pos
  {
    if rs != [] && rs[0].offset < pos {
      NextNoneExactly(rs[1..], pos);
      assert forall i :: 0 < i < |rs| ==> rs[i] == rs[1..][i - 1];
    }
  }

  lemma FoundNext(rs: seq<Record>, pos: int, r: Record)
    requires Ascending(rs) && r in rs && pos <= r.offset
    ensures Next(rs, pos).Some?
    ensures var n := Next(rs, pos).value; n in rs && pos <= n.offset <= r.offset
  {
    NextNoneExactly(rs, pos);
    var k :| 0 <= k < |rs| && rs[k] == r;
    NextIsLeast(rs, pos);
  }

  /** The records of a partition up to its last offset have been fetched, and so decode. */
  lemma FetchedDecodes(src: Source, start: map<int, int>, b: Batch, p: int, r: Record)
    requires FetchedFrom(src.log, src.topic, start, b) && p in b.lastOffsets
    requires p in src.log && r in src.log[p] && start[p] <= r.offset <= b.lastOffsets[p]
    ensures r.utf8 && (AllAccepted(src, b) ==> src.Accepts(p, r))
  {
    assert SliceFetched(src.log, start, b, p);
    SliceMember(src.log[p], start[p], b.lastOffsets[p] + 1, r);
    OfMember(b.messages, p, r);
    var m :| m in b.messages && m.partition == p && m.record == r;
    assert m == Message(src.topic, p, r);
  }

  lemma LastIsFromLog(src: Source, start: map<int, int>, b: Batch, p: int) returns (r: Record)
    requires FetchedFrom(src.log, src.topic, start, b) && p in b.lastOffsets
    ensures p in start && p in src.log && r in src.log[p] && r.offset == b.lastOffsets[p]
  {
    assert HasOffset(b.messages, p, b.lastOffsets[p]);
    var i :| 0 <= i < |b.messages| && b.messages[i].partition == p &&
             b.messages[i].record.offset == b.lastOffsets[p];
    BatchIsFromLog(src, start, b, b.messages[i]);
    r := b.messages[i].record;
  }

  /** A batch that is accepted gives a partition an offset only if its next record is there and accepted. */
  lemma BatchHasNext(src: Source, start: map<int, int>, b: Batch, p: int)
    requires src.Valid() && FetchedFrom(src.log, src.topic, start, b) && p in b.lastOffsets
    ensures p in start && p in src.log
    ensures Next(src.log[p], start[p]).Some?
    ensures AllAccepted(src, b) ==> src.Accepts(p, Next(src.log[p], start[p]).value)
  {
    var last := LastIsFromLog(src, start, b, p);
    FoundNext(src.log[p], start[p], last);
    FetchedDecodes(src, start, b, p, Next(src.log[p], start[p]).value);
  }

  /** p can be read on from these offsets. */
  predicate Readable(src: Source, w: map<int, int>, p: int) {
    var start := StartPositions(src.log, w);
    && p in start && p in src.log
    && Next(src.log[p], start[p]).Some? && src.Accepts(p, Next(src.log[p], start[p]).value)
  }

  lemma StepKeepsUnreadable(src: Source, s: State, a: Action, s': State, p: int)
    requires src.Valid() && SerialInv(src, s) && Step(src, s, a, s') && !Readable(src, s.durable.watermark, p)
    ensures !Readable(src, s'.durable.watermark, p) && SameOffset(s.durable.watermark, s'.durable.watermark, p)
  {
    if a.StoreOffsets? {
      var run := s.runs[a.id];
      var start := StartPositions(src.log, run.offsets);
      if p in run.batch.lastOffsets {
        BatchHasNext(src, start, run.batch, p);
      }
      MergeAdvances(src, run.offsets, run.batch);
      assert s'.durable.watermark == s.durable.watermark + run.batch.lastOffsets;
    }
  }

  lemma {:induction false} UnreadableStays(src: Source, ss: seq<State>, actions: seq<Action>, n: nat, p: int)
    requires src.Valid() && SerialRun(src, ss, actions) && ss[0].runs == map[] && n < |ss|
    requires !Readable(src, ss[0].durable.watermark, p)
    ensures !Readable(src, ss[n].durable.watermark, p)
    ensures SameOffset(ss[0].durable.watermark, ss[n].durable.watermark, p)
  {
    if n > 0 {
      UnreadableStays(src, ss, actions, n - 1, p);
      SerialInvHolds(src, ss, actions, n - 1);
      StepKeepsUnreadable(src, ss[n - 1], actions[n - 1], ss[n], p);
    }
  }

  /** Exactly when a partition is ever read on: it has a stored offset, or no partition has one, and the
      next record behind this offset decodes and is refused neither by the builder nor by the table. */
  lemma ReadOnExactly(src: Source, d: Durable, p: int)
    requires src.Valid() && d.watermark.Keys <= src.log.Keys && p in src.log
    ensures (exists ss, actions :: Moves(src, d, p, ss, actions)) <==>
            && (p in d.watermark || d.watermark == map[])
            && var next := Next(src.log[p], if p in d.watermark then d.watermark[p] + 1 else 0);
               next.Some? && src.Accepts(p, next.value)
  {
    if Readable(src, d.watermark, p) {
      var start := StartPositions(src.log, d.watermark);
      var r := Next(src.log[p], start[p]).value;
      var ss, actions := PartitionReadOn(src, d, p, r);
      NextIsLeast(src.log[p], start[p]);
      assert Moves(src, d, p, ss, actions);
    } else {
      forall ss, actions | SerialRun(src, ss, actions) && ss[0] == State(d, map[])
        ensures !Moves(src, d, p, ss, actions)
      {
        UnreadableStays(src, ss, actions, |actions|, p);
      }
    }
  }

  // ----- A record that is not accepted -----

  /** No stored offset has passed the record, and no run that has inserted its rows. */
  ghost predicate NotPassed(s: State, p: int, r: Record) {
    && (p in s.durable.watermark ==> s.durable.watermark[p] < r.offset)
    && forall id :: id in s.runs ==> RunNotPassed(s.runs[id], p, r)
  }

  predicate RunNotPassed(run: InFlight, p: int, r: Record) {
    && (p in run.offsets ==> run.offsets[p] < r.offset)
    && (run.stage != Fetched && p in run.batch.lastOffsets ==> run.batch.lastOffsets[p] < r.offset)
  }

  /** A batch that is accepted and starts at or before a record that is not, ends before it. */
  lemma BatchStopsBefore(src: Source, offsets: map<int, int>, b: Batch, p: int, r: Record)
    requires FetchedFrom(src.log, src.topic, StartPositions(src.log, offsets), b) && AllAccepted(src, b)
    requires p in src.log && r in src.log[p] && !src.Accepts(p, r) && (p in offsets ==> offsets[p] < r.offset)
    ensures p in b.lastOffsets ==> b.lastOffsets[p] < r.offset
  {
    var start := StartPositions(src.log, offsets);
    if p in b.lastOffsets && r.offset <= b.lastOffsets[p] {
      FetchedDecodes(src, start, b, p, r);
    }
  }

  /** What a run has fetched, it has fetched from the offsets it read. */
  ghost predicate FromOffsets(src: Source, s: State) {
    forall id :: id in s.runs ==>
      FetchedFrom(src.log, src.topic, StartPositions(src.log, s.runs[id].offsets), s.runs[id].batch)
  }

  lemma StepDoesNotPass(src: Source, s: State, a: Action, s': State, p: int, r: Record)
    requires FromOffsets(src, s) && Step(src, s, a, s') && NotPassed(s, p, r)
    requires p in src.log && r in src.log[p] && !src.Accepts(p, r)
    ensures FromOffsets(src, s') && NotPassed(s', p, r)
  {
    if a.InsertRows? {
      BatchStopsBefore(src, s.runs[a.id].offsets, s.runs[a.id].batch, p, r);
    }
  }

  /** A record that does not decode, or that the builder or the table refuses, stops its partition for
      good: however runs interleave and crash, no stored offset reaches it, since every run that does
      raises before it stores anything. */
  lemma {:induction false} RefusedRecordStopsPartition(src: Source, ss: seq<State>, actions: seq<Action>, n: nat,
                                                      p: int, r: Record)
    requires Run(src, ss, actions) && n < |ss| && ss[0].runs == map[]
    requires p in src.log && r in src.log[p] && !src.Accepts(p, r)
    requires p in ss[0].durable.watermark ==> ss[0].durable.watermark[p] < r.offset
    ensures FromOffsets(src, ss[n]) && NotPassed(ss[n], p, r)
  {
    if n > 0 {
      RefusedRecordStopsPartition(src, ss, actions, n - 1, p, r);
      StepDoesNotPass(src, ss[n - 1], actions[n - 1], ss[n], p, r);
    }
  }

  // ----- Two runs at once -----

  /** The states of two runs that take turns, the one with `more` storing its offsets first. */
  function Turns(src: Source, d: Durable, less: Batch, more: Batch): seq<State> {
    var w := d.watermark;
    var t1 := Insert(d.table, Built(src, more.messages));
    var t2 := Insert(t1, Built(src, less.messages));
    [ State(d, map[]),
      State(d, map[1 := InFlight(w, more, Fetched)]),
      State(d, map[1 := InFlight(w, more, Fetched), 2 := InFlight(w, less, Fetched)]),
      State(Durable(t1, w), map[1 := InFlight(w, more, Stored), 2 := InFlight(w, less, Fetched)]),
      State(Durable(t2, w), map[1 := InFlight(w, more, Stored), 2 := InFlight(w, less, Stored)]),
      State(Durable(t2, w + more.lastOffsets), map[1 := InFlight(w, more, Marked), 2 := InFlight(w, less, Stored)]),
      State(Durable(t2, w + less.lastOffsets), map[1 := InFlight(w, more, Marked), 2 := InFlight(w, less, Marked)])]
  }

  function TurnActions(less: Batch, more: Batch): seq<Action> {
    [Begin(1, more), Begin(2, less), InsertRows(1), InsertRows(2), StoreOffsets(1), StoreOffsets(2)]
  }

  lemma BeginTurns(src: Source, d: Durable, less: Batch, more: Batch, k: nat)
    requires FetchedFrom(src.log, src.topic, StartPositions(src.log, d.watermark), less) && less.messages != []
    requires FetchedFrom(src.log, src.topic, StartPositions(src.log, d.watermark), more) && more.messages != []
    requires k < 2
    ensures Step(src, Turns(src, d, less, more)[k], TurnActions(less, more)[k], Turns(src, d, less, more)[k + 1])
  {
    if k == 0 {
    } else {
    }
  }

  lemma InsertTurns(src: Source, d: Durable, less: Batch, more: Batch, k: nat)
    requires AllAccepted(src, less) && AllAccepted(src, more) && 2 <= k < 4
    ensures Step(src, Turns(src, d, less, more)[k], TurnActions(less, more)[k], Turns(src, d, less, more)[k + 1])
  {
    if k == 2 {
    } else {
    }
  }

  lemma StoreTurns(src: Source, d: Durable, less: Batch, more: Batch, k: nat)
    requires 4 <= k < 6
    ensures Step(src, Turns(src, d, less, more)[k], TurnActions(less, more)[k], Turns(src, d, less, more)[k + 1])
  {
    if k == 4 {
    } else {
    }
  }

  /** Without the limit of one run at a time, a stored offset can go back: of two runs that read the same
      offsets, the one that fetched less stores last. */
  lemma TwoRunsGoBack(src: Source, d: Durable, less: Batch, more: Batch, p: int)
    requires FetchedFrom(src.log, src.topic, StartPositions(src.log, d.watermark), less) && less.messages != []
    requires FetchedFrom(src.log, src.topic, StartPositions(src.log, d.watermark), more) && more.messages != []
    requires AllAccepted(src, less) && AllAccepted(src, more)
    requires p in less.lastOffsets && p in more.lastOffsets && less.lastOffsets[p] < more.lastOffsets[p]
    ensures var ss := Turns(src, d, less, more);
            && Run(src, ss, TurnActions(less, more)) && ss[0] == State(d, map[])
            && !Advances(ss[5].durable.watermark, ss[6].durable.watermark)
  {
    forall k | 0 <= k < 6
      ensures Step(src, Turns(src, d, less, more)[k], TurnActions(less, more)[k], Turns(src, d, less, more)[k + 1])
    {
      if k < 2 {
        BeginTurns(src, d, less, more, k);
      } else if k < 4 {
        InsertTurns(src, d, less, more, k);
      } else {
        StoreTurns(src, d, less, more, k);
      }
    }
    assert (d.watermark + more.lastOffsets)[p] == more.lastOffsets[p];
    assert (d.watermark + less.lastOffsets)[p] == less.lastOffsets[p];
  }

  predicate NoneLowered(w: map<int, int>, w': map<int, int>) {
    forall p :: p in w ==> p in w' && w[p] <= w'[p]
  }

  /** Since the run read its offsets, another one has moved that of p. */
  predicate MovedOn(w: map<int, int>, read: map<int, int>, p: int) {
    p in w && (p !in read || read[p] < w[p])
  }

  /** A run that stores its offsets lowers none exactly when, on each partition that has moved on since it
      read them, it has itself fetched as far as what is stored now. */
  lemma StoreLowersExactly(src: Source, s: State, id: nat, s': State)
    requires FromOffsets(src, s) && Step(src, s, StoreOffsets(id), s')
    ensures var w, run := s.durable.watermark, s.runs[id];
            NoneLowered(w, s'.durable.watermark) <==>
            forall p :: MovedOn(w, run.offsets, p) ==>
              p in run.batch.lastOffsets && w[p] <= run.batch.lastOffsets[p]
  {
    var w, o, l, w' := s.durable.watermark, s.runs[id].offsets, s.runs[id].batch.lastOffsets, s'.durable.watermark;
    assert w' == o + l;
    forall p | p in w
      ensures (p in w' && w[p] <= w'[p]) <==> (MovedOn(w, o, p) ==> p in l && w[p] <= l[p])
    {
      assert p in o && p in l ==> o[p] < l[p];
    }
    if NoneLowered(w, w') {
      forall p | MovedOn(w, o, p) ensures p in l && w[p] <= l[p] {
        assert p in w;
      }
    }
  }

  // ----- The uninterrupted consumer -----

  /** Every record up to the offsets is accepted, and the offsets are those of records. */
  ghost predicate AcceptedTo(src: Source, offsets: map<int, int>) {
    forall p :: p in offsets ==> AcceptedUpTo(src, p, offsets[p])
  }

  ghost predicate AcceptedUpTo(src: Source, p: int, o: int) {
    && p in src.log && (exists r :: r in src.log[p] && r.offset == o)
    && forall r :: r in src.log[p] && r.offset <= o ==> src.Accepts(p, r)
  }

  ghost predicate RunAccepted(src: Source, run: InFlight) {
    && AcceptedTo(src, run.offsets)
    && (run.stage != Fetched ==> AcceptedTo(src, run.offsets + run.batch.lastOffsets))
  }

  ghost predicate AcceptedInv(src: Source, s: State) {
    FromOffsets(src, s) && AcceptedTo(src, s.durable.watermark) &&
    forall id :: id in s.runs ==> RunAccepted(src, s.runs[id])
  }

  lemma BatchAcceptedTo(src: Source, offsets: map<int, int>, b: Batch)
    requires AcceptedTo(src, offsets) && AllAccepted(src, b)
    requires FetchedFrom(src.log, src.topic, StartPositions(src.log, offsets), b)
    ensures AcceptedTo(src, offsets + b.lastOffsets)
  {
    var start := StartPositions(src.log, offsets);
    forall p | p in offsets + b.lastOffsets ensures AcceptedUpTo(src, p, (offsets + b.lastOffsets)[p]) {
      if p in b.lastOffsets {
        var last := LastIsFromLog(src, start, b, p);
        forall r | r in src.log[p] && r.offset <= b.lastOffsets[p] ensures src.Accepts(p, r) {
          if start[p] <= r.offset {
            FetchedDecodes(src, start, b, p, r);
          } else {
            assert AcceptedUpTo(src, p, offsets[p]);
          }
        }
      } else {
        assert AcceptedUpTo(src, p, offsets[p]);
      }
    }
  }

  lemma StepKeepsAccepted(src: Source, s: State, a: Action, s': State)
    requires AcceptedInv(src, s) && Step(src, s, a, s')
    ensures AcceptedInv(src, s')
  {
    if a.InsertRows? {
      assert RunAccepted(src, s.runs[a.id]);
      BatchAcceptedTo(src, s.runs[a.id].offsets, s.runs[a.id].batch);
    } else if a.StoreOffsets? {
      assert RunAccepted(src, s.runs[a.id]);
    }
  }

  lemma {:induction false} AcceptedOverRuns(src: Source, ss: seq<State>, actions: seq<Action>, n: nat)
    requires Run(src, ss, actions) && Initial(src, ss[0]) && n < |ss|
    ensures AcceptedInv(src, ss[n])
  {
    if n > 0 {
      AcceptedOverRuns(src, ss, actions, n - 1);
      StepKeepsAccepted(src, ss[n - 1], actions[n - 1], ss[n]);
    }
  }

  function Messages(src: Source, p: int, rs: seq<Record>): seq<Message> {
    seq(|rs|, i requires 0 <= i < |rs| => Message(src.topic, p, rs[i]))
  }

  lemma {:induction false} OfConcat(a: seq<Message>, b: seq<Message>, p: int)
    ensures Of(a + b, p) == Of(a, p) + Of(b, p)
  {
    if b == [] {
      assert a + b == a;
    } else {
      var n := |b| - 1;
      OfConcat(a, b[..n], p);
      assert (a + b)[..|a| + n] == a + b[..n];
      assert (a + b)[|a| + n] == b[n];
    }
  }

  lemma {:induction false} OfMessages(src: Source, p: int, rs: seq<Record>, q: int)
    ensures Of(Messages(src, p, rs), q) == if q == p then rs else []
  {
    if rs != [] {
      var n := |rs| - 1;
      OfMessages(src, p, rs[..n], q);
      assert Messages(src, p, rs)[..n] == Messages(src, p, rs[..n]);
      assert rs == rs[..n] + [rs[n]];
    }
  }

  /** The messages of these partitions, each up to its offset. */
  ghost predicate Collected(src: Source, w: map<int, int>, keys: set<int>, ms: seq<Message>) {
    && (forall p :: p in keys ==> p in w && p in src.log && Of(ms, p) == Slice(src.log[p], 0, w[p] + 1))
    && (forall p :: p !in keys ==> Of(ms, p) == [])
    && (forall m :: m in ms ==> m == Message(src.topic, m.partition, m.record))
  }

  lemma CollectOne(src: Source, w: map<int, int>, keys: set<int>, ms: seq<Message>, p: int)
    requires Collected(src, w, keys, ms) && p in w && p in src.log && p !in keys
    ensures Collected(src, w, keys + {p}, ms + Messages(src, p, Slice(src.log[p], 0, w[p] + 1)))
  {
    var add := Messages(src, p, Slice(src.log[p], 0, w[p] + 1));
    forall q ensures Of(ms + add, q) == Of(ms, q) + if q == p then Slice(src.log[p], 0, w[p] + 1) else [] {
      OfConcat(ms, add, q);
      OfMessages(src, p, Slice(src.log[p], 0, w[p] + 1), q);
    }
  }

  lemma Collect(src: Source, w: map<int, int>) returns (ms: seq<Message>)
    requires w.Keys <= src.log.Keys
    ensures Collected(src, w, w.Keys, ms)
  {
    ms := [];
    var keys: set<int> := {};
    while exists p :: p in w && p !in keys
      invariant keys <= w.Keys && Collected(src, w, keys, ms)
      decreases w.Keys - keys
    {
      var p :| p in w && p !in keys;
      CollectOne(src, w, keys, ms, p);
      ms := ms + Messages(src, p, Slice(src.log[p], 0, w[p] + 1));
      keys := keys + {p};
    }
    assert keys == w.Keys;
  }

  lemma CollectedIsAccepted(src: Source, w: map<int, int>, ms: seq<Message>, m: Message)
    requires AcceptedTo(src, w) && Collected(src, w, w.Keys, ms) && m in ms
    ensures m.topic == src.topic && m.partition in w && src.Accepts(m.partition, m.record)
    ensures m == Message(src.topic, m.partition, m.record)
  {
    OfMember(ms, m.partition, m.record);
    assert m.partition in w.Keys && AcceptedUpTo(src, m.partition, w[m.partition]);
    SliceMember(src.log[m.partition], 0, w[m.partition] + 1, m.record);
  }

  lemma CollectedToTheEnd(src: Source, w: map<int, int>, ms: seq<Message>, p: int)
    requires AcceptedTo(src, w) && Collected(src, w, w.Keys, ms) && p in w
    ensures HasOffset(ms, p, w[p]) && 0 <= w[p]
  {
    assert AcceptedUpTo(src, p, w[p]);
    var r :| r in src.log[p] && r.offset == w[p];
    SliceMember(src.log[p], 0, w[p] + 1, r);
    OfMember(ms, p, r);
    var m :| m in ms && m.partition == p && m.record == r;
    var i :| 0 <= i < |ms| && ms[i] == m;
  }

  lemma CollectedIsFetched(src: Source, w: map<int, int>, ms: seq<Message>)
    requires AcceptedTo(src, w) && Collected(src, w, w.Keys, ms)
    ensures FetchedFrom(src.log, src.topic, StartPositions(src.log, map[]), Batch(ms, w))
    ensures AllAccepted(src, Batch(ms, w)) && (w != map[] ==> ms != [])
  {
    var start := StartPositions(src.log, map[]);
    forall m | m in ms ensures m.topic == src.topic && m.partition in w && src.Accepts(m.partition, m.record) {
      CollectedIsAccepted(src, w, ms, m);
    }
    forall p | p in w ensures HasOffset(ms, p, w[p]) && 0 <= w[p] {
      CollectedToTheEnd(src, w, ms, p);
    }
    forall p | p in start ensures SliceFetched(src.log, start, Batch(ms, w), p) {
      if p !in w {
        SliceEmpty(src.log[p], 0);
      }
    }
    if p :| p in w {
      assert HasOffset(ms, p, w[p]);
    }
  }

  /** Whatever history led to the stored offsets, an uninterrupted consumer could have: there is a history
      of at most one run, with one batch, that starts from the same table, ends with the same offsets, and
      has the same rows up to them. */
  lemma UninterruptedEqual(src: Source, ss: seq<State>, actions: seq<Action>, n: nat)
    returns (ss': seq<State>, actions': seq<Action>)
    requires src.Valid() && Run(src, ss, actions) && Initial(src, ss[0]) && n < |ss|
    ensures SerialRun(src, ss', actions') && ss'[0] == ss[0] && |actions'| <= 4
    ensures ss'[|actions'|].runs == map[]
    ensures ss'[|actions'|].durable.watermark == ss[n].durable.watermark
    ensures SameTo(src, ss[n].durable.watermark, ss'[|actions'|].durable.table, ss[n].durable.table)
  {
    var w := ss[n].durable.watermark;
    AcceptedOverRuns(src, ss, actions, n);
    if w == map[] {
      ss', actions' := [ss[0]], [];
    } else {
      forall p | p in w ensures p in src.log {
        assert AcceptedUpTo(src, p, w[p]);
      }
      var ms := Collect(src, w);
      CollectedIsFetched(src, w, ms);
      ss', actions' := ConsumeIsARun(src, ss[0].durable, Batch(ms, w), Marked, 0);
      assert map[] + w == w;
    }
    SameUpToOffsets(src, ss', actions', |actions'|, ss, actions, n);
  }

  /** Building the rows of a batch, and giving them to the table: whether one of them raises. */
  method Refuses(src: Source, messages: seq<Message>) returns (refused: bool)
    ensures refused <==> exists m :: m in messages && src.build(m).Refused?
  {
    refused := false;
    for n := 0 to |messages|
      invariant refused <==> exists i :: 0 <= i < n && src.build(messages[i]).Refused?
    {
      if src.build(messages[n]).Refused? {
        refused := true;
      }
    }
  }

  class Ingest {
    var table: seq<Row>
    var watermark: map<int, int>

    constructor ()
      ensures table == [] && watermark == map[]
    {
      table, watermark := [], map[];
    }

    ghost function Durables(): Durable
      reads this
    {
      Durable(table, watermark)
    }

    /** One run; `stop` is the last step it completes before a crash. */
    method ConsumeTopic(src: Source, maxMessages: int, maxEmptyPolls: int, stop: Stage)
      returns (outcome: Outcome, batch: Batch, ghost seen: seq<Polled>)
      requires src.Valid() && watermark.Keys <= src.log.Keys
      modifies this
      ensures PolledFor(src.topic, maxMessages, maxEmptyPolls, seen)
      ensures !GoesOn(src.topic, maxMessages, maxEmptyPolls, seen)
      ensures outcome == if KafkaConsumer.Raised(seen) then Outcome.Raised(Failure(seen))
                         else if MessagesOf(src.topic, seen) == [] then NothingNew
                         else if stop != Fetched && !AllAccepted(src, batch) then NotAccepted
                         else Stopped(stop)
      ensures !outcome.Stopped? ==> table == old(table) && watermark == old(watermark)
      ensures outcome.Stopped? || outcome.NotAccepted? ==>
        && batch.messages == MessagesOf(src.topic, seen)
        && FetchedFrom(src.log, src.topic, StartPositions(src.log, old(watermark)), batch)
      ensures outcome.Stopped? ==> Durables() == After(src, old(Durables()), batch, stop)
      ensures outcome.Stopped? ==> AfterRun(src, old(Durables()), batch, stop, Durables())
      ensures old(Inv(src, State(Durables(), map[]))) ==> Inv(src, State(Durables(), map[]))
      ensures Advances(old(watermark), watermark)
    {
      batch := Batch([], map[]);
      var offsets := watermark;
      var consumer := new MicroBatchConsumer(src.topic, src.log, maxMessages, maxEmptyPolls);
      consumer.Enter();
      consumer.SeekToOffsets(offsets);
      var fetched;
      fetched, seen := consumer.Fetch();
      if fetched.Err? {
        outcome := Outcome.Raised(fetched.error);
        return;
      }
      batch := fetched.value;
      if batch.messages == [] {
        outcome := NothingNew;
        return;
      }
      MergeAdvances(src, offsets, batch);
      if stop != Fetched {
        var refused := Refuses(src, batch.messages);
        if refused {
          outcome := NotAccepted;
          return;
        }
        table := Insert(table, Built(src, batch.messages));
      }
      if stop == Marked {
        watermark := offsets + batch.lastOffsets;
      }
      outcome := Stopped(stop);
      RunIsAfter(src, old(Durables()), batch, stop);
    }
  }
}
