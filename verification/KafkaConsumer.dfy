/**
  The micro-batch consumer: seeking, and the fetch loop against a broker that may answer a poll with
  nothing, an end of partition, an error, or the next record of any assigned partition.
 */
module KafkaConsumer {
  import opened Prelude

  /** A record of a partition; `utf8` says whether its key and value decode. */
  datatype Record = Record(offset: nat, data: seq<bv8>, utf8: bool)

  /** The records of each partition, in the order of their offsets; there may be gaps. */
  type Log = map<int, seq<Record>>

  datatype Message = Message(topic: string, partition: int, record: Record)

  datatype Batch = Batch(messages: seq<Message>, lastOffsets: map<int, int>)

  datatype Error = NotStarted | BrokerError | UndecodableMessage

  predicate Ascending(rs: seq<Record>) {
    forall i, j :: 0 <= i < j < |rs| ==> rs[i].offset < rs[j].offset
  }

  predicate ValidLog(log: Log) {
    forall p :: p in log ==> Ascending(log[p])
  }

  /** The slice of a partition from offset lo up to, not including, hi. */
  function Slice(rs: seq<Record>, lo: int, hi: int): seq<Record> {
    if rs == [] then []
    else
      var r := rs[|rs| - 1];
      Slice(rs[..|rs| - 1], lo, hi) + if lo <= r.offset < hi then [r] else []
  }

  /** The messages of one partition. */
  function Of(ms: seq<Message>, p: int): seq<Record> {
    if ms == [] then []
    else
      var m := ms[|ms| - 1];
      Of(ms[..|ms| - 1], p) + if m.partition == p then [m.record] else []
  }

  /** The first record at or after a position. */
  function Next(rs: seq<Record>, pos: int): Option<Record> {
    if rs == [] then None
    else if pos <= rs[0].offset then Some(rs[0])
    else Next(rs[1..], pos)
  }

  function End(start: map<int, int>, last: map<int, int>, p: int): int
    requires p in start
  {
    if p in last then last[p] + 1 else start[p]
  }

  /** The batch holds, for each assigned partition, the slice of the log from its start position to
      the last offset reported for it, which is that of one of its messages, and nothing else; all of
      them decode. */
  ghost predicate FetchedFrom(log: Log, topic: string, start: map<int, int>, b: Batch) {
    && (forall m :: m in b.messages ==> m.topic == topic && m.partition in b.lastOffsets && m.record.utf8)
    && (forall p :: p in b.lastOffsets ==> HasOffset(b.messages, p, b.lastOffsets[p]))
    && (forall p :: p in b.lastOffsets ==> p in start && start[p] <= b.lastOffsets[p])
    && (forall p :: p in start ==> SliceFetched(log, start, b, p))
  }

  predicate HasOffset(ms: seq<Message>, p: int, o: int) {
    exists i :: 0 <= i < |ms| && ms[i].partition == p && ms[i].record.offset == o
  }

  predicate SliceFetched(log: Log, start: map<int, int>, b: Batch, p: int)
    requires p in start
  {
    p in log && Of(b.messages, p) == Slice(log[p], start[p], End(start, b.lastOffsets, p))
  }

  lemma {:induction false} SliceMember(rs: seq<Record>, lo: int, hi: int, r: Record)
    ensures r in Slice(rs, lo, hi) <==> r in rs && lo <= r.offset < hi
  {
    if rs != [] {
      SliceMember(rs[..|rs| - 1], lo, hi, r);
      assert rs == rs[..|rs| - 1] + [rs[|rs| - 1]];
    }
  }

  lemma {:induction false} SliceEmpty(rs: seq<Record>, lo: int)
    ensures Slice(rs, lo, lo) == []
  {
    if rs != [] {
      SliceEmpty(rs[..|rs| - 1], lo);
    }
  }

  lemma {:induction false} NextIsLeast(rs: seq<Record>, pos: int)
    requires Ascending(rs) && Next(rs, pos).Some?
    ensures var r := Next(rs, pos).value; r in rs && pos <= r.offset
    ensures forall i :: 0 <= i < |rs| && pos <= rs[i].offset ==> Next(rs, pos).value.offset <= rs[i].offset
  {
    if rs[0].offset < pos {
      NextIsLeast(rs[1..], pos);
      forall i | 0 <= i < |rs| && pos <= rs[i].offset ensures Next(rs, pos).value.offset <= rs[i].offset {
        assert rs[i] == rs[1..][i - 1];
      }
    }
  }

  /** Cutting a slice just after r appends r, when r is the only record in between. */
  lemma {:induction false} SliceGrows(rs: seq<Record>, lo: int, pos: int, r: Record)
    requires Ascending(rs) && r in rs && lo <= pos <= r.offset
    requires forall i :: 0 <= i < |rs| && pos <= rs[i].offset ==> r.offset <= rs[i].offset
    ensures Slice(rs, lo, r.offset + 1) == Slice(rs, lo, pos) + [r]
  {
    var n := |rs| - 1;
    if rs[n] == r {
      SliceSame(rs[..n], lo, pos, r.offset + 1);
    } else {
      assert rs == rs[..n] + [rs[n]];
      SliceGrows(rs[..n], lo, pos, r);
      var i :| 0 <= i < |rs| && rs[i] == r;
      assert r.offset < rs[n].offset;
    }
  }

  lemma {:induction false} SliceSame(rs: seq<Record>, lo: int, hi: int, hi': int)
    requires hi <= hi' && forall i :: 0 <= i < |rs| ==> rs[i].offset < hi
    ensures Slice(rs, lo, hi) == Slice(rs, lo, hi')
  {
    if rs != [] {
      SliceSame(rs[..|rs| - 1], lo, hi, hi');
    }
  }

  lemma {:induction false} OfMember(ms: seq<Message>, p: int, r: Record)
    ensures r in Of(ms, p) <==> exists m :: m in ms && m.partition == p && m.record == r
  {
    if ms != [] {
      OfMember(ms[..|ms| - 1], p, r);
      assert ms == ms[..|ms| - 1] + [ms[|ms| - 1]];
    }
  }

  /** An answer of the broker to a poll. */
  datatype Polled = Nothing | PartitionEof | PollError | Got(partition: int, record: Record)

  // ----- The fetch loop, as a function of the answers to its polls -----

  function MessagesOf(topic: string, answers: seq<Polled>): seq<Message> {
    if answers == [] then []
    else
      var e := answers[|answers| - 1];
      MessagesOf(topic, answers[..|answers| - 1]) + if e.Got? then [Message(topic, e.partition, e.record)] else []
  }

  /** The number of empty answers since the last message. */
  function EmptyPolls(answers: seq<Polled>): nat {
    if answers == [] || answers[|answers| - 1].Got? then 0
    else EmptyPolls(answers[..|answers| - 1]) + 1
  }

  predicate Raises(e: Polled) {
    e.PollError? || (e.Got? && !e.record.utf8)
  }

  predicate Raised(answers: seq<Polled>) {
    answers != [] && Raises(answers[|answers| - 1])
  }

  function Failure(answers: seq<Polled>): Error
    requires Raised(answers)
  {
    if answers[|answers| - 1].PollError? then BrokerError else UndecodableMessage
  }

  /** The loop polls again after these answers. */
  predicate GoesOn(topic: string, maxMessages: int, maxEmptyPolls: int, answers: seq<Polled>) {
    && !Raised(answers)
    && |MessagesOf(topic, answers)| < maxMessages && EmptyPolls(answers) < maxEmptyPolls
  }

  /** The loop has polled for every one of these answers. */
  predicate PolledFor(topic: string, maxMessages: int, maxEmptyPolls: int, answers: seq<Polled>) {
    answers == [] ||
    var before := answers[..|answers| - 1];
    GoesOn(topic, maxMessages, maxEmptyPolls, before) && PolledFor(topic, maxMessages, maxEmptyPolls, before)
  }

  class MicroBatchConsumer {
    const topic: string
    const log: Log
    const maxMessages: int
    const maxEmptyPolls: int
    /** The assigned partitions with the position of each; NULL before the consumer is started. */
    var position: Option<map<int, int>>
    /** The answers of the broker so far. */
    ghost var answers: seq<Polled>

    constructor (topic: string, log: Log, maxMessages: int, maxEmptyPolls: int)
      ensures this.topic == topic && this.log == log
      ensures this.maxMessages == maxMessages && this.maxEmptyPolls == maxEmptyPolls
      ensures position == None && answers == []
    {
      this.topic, this.log := topic, log;
      this.maxMessages, this.maxEmptyPolls := maxMessages, maxEmptyPolls;
      position, answers := None, [];
    }

    /** Subscribing under a group id never used before starts every partition at its earliest record. */
    method Enter()
      modifies this
      ensures position == Some(StartPositions(log, map[])) && answers == old(answers)
    {
      position := Some(map p | p in log :: 0);
    }

    /** Assigns exactly the partitions that have a stored offset, each just after it; without offsets,
        or before the consumer is started, does nothing. */
    method SeekToOffsets(offsets: map<int, int>)
      modifies this
      ensures answers == old(answers)
      ensures offsets == map[] || old(position).None? ==> position == old(position)
      ensures offsets != map[] && old(position).Some? ==> position == Some(StartPositions(log, offsets))
    {
      if offsets == map[] || position.None? {
        return;
      }
      position := Some(map p | p in offsets :: offsets[p] + 1);
    }

    /** Whatever the broker answers. */
    method Poll() returns (e: Polled)
      requires position.Some?
      modifies this
      ensures position.Some? && answers == old(answers) + [e]
      ensures !e.Got? ==> position == old(position)
      ensures e.Got? ==>
        var q := old(position.value);
        e.partition in q && e.partition in log && Next(log[e.partition], q[e.partition]) == Some(e.record) &&
        position.value == q[e.partition := e.record.offset + 1]
    {
      var q := position.value;
      if * {
        e := Nothing;
      } else if * {
        e := PartitionEof;
      } else if * {
        e := PollError;
      } else {
        if p :| p in q && p in log && Next(log[p], q[p]).Some? {
          var r := Next(log[p], q[p]).value;
          e := Got(p, r);
          position := Some(q[p := r.offset + 1]);
        } else {
          e := Nothing;
        }
      }
      answers := answers + [e];
    }

    /** What the loop keeps: the batch is fetched up to where the consumer stands, and is what the answers
        gave; none of them raised. */
    ghost predicate Fetching(start: map<int, int>, position: map<int, int>, b: Batch, seen: seq<Polled>,
                             emptyPolls: nat) {
      && AtEnds(position, start, b.lastOffsets) && FetchedFrom(log, topic, start, b)
      && |b.messages| <= (if maxMessages < 0 then 0 else maxMessages)
      && SoFar(topic, maxMessages, maxEmptyPolls, seen, b.messages, emptyPolls)
    }

    /** How a fetch from `start` ends. */
    ghost predicate Ends(start: map<int, int>, seen: seq<Polled>, r: Result<Batch, Error>) {
      && PolledFor(topic, maxMessages, maxEmptyPolls, seen) && !GoesOn(topic, maxMessages, maxEmptyPolls, seen)
      && (r.Err? <==> Raised(seen)) && (r.Err? ==> r.error == Failure(seen))
      && (r.Ok? ==>
            && FetchedFrom(log, topic, start, r.value)
            && r.value.messages == MessagesOf(topic, seen)
            && |r.value.messages| <= if maxMessages < 0 then 0 else maxMessages)
    }

    lemma StartFetching(start: map<int, int>)
      requires start.Keys <= log.Keys
      ensures Fetching(start, start, Batch([], map[]), [], 0)
    {
      FetchNothing(log, topic, start);
    }

    lemma AfterEmpty(start: map<int, int>, position: map<int, int>, b: Batch, seen: seq<Polled>, emptyPolls: nat,
                     e: Polled)
      requires Fetching(start, position, b, seen, emptyPolls)
      requires |b.messages| < maxMessages && emptyPolls < maxEmptyPolls && (e.Nothing? || e.PartitionEof?)
      ensures Fetching(start, position, b, seen + [e], emptyPolls + 1)
    {
      PollAgain(topic, maxMessages, maxEmptyPolls, seen, b.messages, emptyPolls, e);
    }

    lemma AfterMessage(start: map<int, int>, position: map<int, int>, b: Batch, seen: seq<Polled>, emptyPolls: nat,
                       p: int, r: Record)
      requires ValidLog(log) && Fetching(start, position, b, seen, emptyPolls)
      requires |b.messages| < maxMessages && emptyPolls < maxEmptyPolls
      requires p in position && p in log && Next(log[p], position[p]) == Some(r) && r.utf8
      ensures p in b.lastOffsets ==> b.lastOffsets[p] < r.offset
      ensures Fetching(start, position[p := r.offset + 1], Append(b, Message(topic, p, r)), seen + [Got(p, r)], 0)
    {
      PollAgain(topic, maxMessages, maxEmptyPolls, seen, b.messages, emptyPolls, Got(p, r));
      TakeMessage(log, topic, start, position, b, Message(topic, p, r));
    }

    lemma AfterRaise(start: map<int, int>, position: map<int, int>, b: Batch, seen: seq<Polled>, emptyPolls: nat,
                     e: Polled)
      requires Fetching(start, position, b, seen, emptyPolls)
      requires |b.messages| < maxMessages && emptyPolls < maxEmptyPolls && Raises(e)
      ensures Ends(start, seen + [e], Err(if e.PollError? then BrokerError else UndecodableMessage))
    {
      PollAgain(topic, maxMessages, maxEmptyPolls, seen, b.messages, emptyPolls, e);
    }

    lemma AfterLoop(start: map<int, int>, position: map<int, int>, b: Batch, seen: seq<Polled>, emptyPolls: nat)
      requires Fetching(start, position, b, seen, emptyPolls)
      requires maxMessages <= |b.messages| || maxEmptyPolls <= emptyPolls
      ensures Ends(start, seen, Ok(b))
    {
    }

    /** The fetch loop.  An empty poll counts, a message resets the count, and still the loop ends: it
        polls until it has its messages, or enough empty polls in a row, or an error. */
    method Fetch() returns (r: Result<Batch, Error>, ghost seen: seq<Polled>)
      requires ValidLog(log)
      requires position.Some? ==> position.value.Keys <= log.Keys
      modifies this
      ensures answers == old(answers) + seen
      ensures old(position).None? <==> r == Err(NotStarted)
      ensures old(position).Some? ==> Ends(old(position).value, seen, r)
      ensures r == Err(BrokerError) <==> old(position).Some? && seen != [] && seen[|seen| - 1].PollError?
      ensures r == Err(UndecodableMessage) <==>
              old(position).Some? && seen != [] && seen[|seen| - 1].Got? && !seen[|seen| - 1].record.utf8
    {
      seen := [];
      if position.None? {
        return Err(NotStarted), seen;
      }
      ghost var start := position.value;
      var messages: seq<Message> := [];
      var lastOffsets: map<int, int> := map[];
      var emptyPolls := 0;
      StartFetching(start);
      while |messages| < maxMessages && emptyPolls < maxEmptyPolls
        invariant position.Some? && answers == old(answers) + seen
        invariant Fetching(start, position.value, Batch(messages, lastOffsets), seen, emptyPolls)
        decreases maxMessages - |messages|, maxEmptyPolls - emptyPolls
      {
        ghost var at, b, polled := position.value, Batch(messages, lastOffsets), seen;
        var e := Poll();
        seen := seen + [e];
        if e == Nothing || e == PartitionEof {
          AfterEmpty(start, at, b, polled, emptyPolls, e);
          emptyPolls := emptyPolls + 1;
          continue;
        }
        if e == PollError {
          AfterRaise(start, at, b, polled, emptyPolls, e);
          return Err(BrokerError), seen;
        }
        if !e.record.utf8 {
          AfterRaise(start, at, b, polled, emptyPolls, e);
          return Err(UndecodableMessage), seen;
        }
        var p, o := e.partition, e.record.offset;
        AfterMessage(start, at, b, polled, emptyPolls, p, e.record);
        emptyPolls := 0;
        messages := messages + [Message(topic, p, e.record)];
        lastOffsets := lastOffsets[p := if p in lastOffsets && o < lastOffsets[p] then lastOffsets[p] else o];
      }
      AfterLoop(start, position.value, Batch(messages, lastOffsets), seen, emptyPolls);
      r := Ok(Batch(messages, lastOffsets));
    }
  }

  lemma MessageAdded(topic: string, seen: seq<Polled>, e: Polled)
    ensures MessagesOf(topic, seen + [e]) ==
            MessagesOf(topic, seen) + if e.Got? then [Message(topic, e.partition, e.record)] else []
  {
    assert (seen + [e])[..|seen|] == seen;
  }

  lemma EmptyAdded(seen: seq<Polled>, e: Polled)
    ensures EmptyPolls(seen + [e]) == if e.Got? then 0 else EmptyPolls(seen) + 1
  {
    assert (seen + [e])[..|seen|] == seen;
  }

  /** What the loop knows after some answers that raised nothing. */
  ghost predicate SoFar(topic: string, maxMessages: int, maxEmptyPolls: int, seen: seq<Polled>,
                        messages: seq<Message>, emptyPolls: nat) {
    && PolledFor(topic, maxMessages, maxEmptyPolls, seen)
    && !Raised(seen)
    && messages == MessagesOf(topic, seen) && emptyPolls == EmptyPolls(seen)
  }

  lemma PollAgain(topic: string, maxMessages: int, maxEmptyPolls: int, seen: seq<Polled>,
                  messages: seq<Message>, emptyPolls: nat, e: Polled)
    requires SoFar(topic, maxMessages, maxEmptyPolls, seen, messages, emptyPolls)
    requires |messages| < maxMessages && emptyPolls < maxEmptyPolls
    ensures PolledFor(topic, maxMessages, maxEmptyPolls, seen + [e])
    ensures Raises(e) ==> !GoesOn(topic, maxMessages, maxEmptyPolls, seen + [e])
    ensures !Raises(e) && !e.Got? ==> SoFar(topic, maxMessages, maxEmptyPolls, seen + [e], messages, emptyPolls + 1)
    ensures !Raises(e) && e.Got? ==>
              SoFar(topic, maxMessages, maxEmptyPolls, seen + [e],
                    messages + [Message(topic, e.partition, e.record)], 0)
  {
    assert (seen + [e])[..|seen|] == seen;
    MessageAdded(topic, seen, e);
    EmptyAdded(seen, e);
  }

  /** Where reading starts: after the stored offsets, or at the beginning of every partition. */
  function StartPositions(log: Log, offsets: map<int, int>): map<int, int> {
    if offsets == map[] then map p | p in log :: 0
    else map p | p in offsets :: offsets[p] + 1
  }

  lemma OfAppend(ms: seq<Message>, m: Message, p: int)
    ensures Of(ms + [m], p) == Of(ms, p) + if m.partition == p then [m.record] else []
  {
    assert (ms + [m])[..|ms|] == ms;
  }

  lemma HasOffsetGrows(ms: seq<Message>, m: Message, p: int, o: int)
    ensures HasOffset(ms, p, o) ==> HasOffset(ms + [m], p, o)
    ensures m.partition == p && m.record.offset == o ==> HasOffset(ms + [m], p, o)
  {
    if i :| 0 <= i < |ms| && ms[i].partition == p && ms[i].record.offset == o {
      assert (ms + [m])[i] == ms[i];
    }
    assert (ms + [m])[|ms|] == m;
  }

  /** The batch after one more message. */
  function Append(b: Batch, m: Message): Batch {
    Batch(b.messages + [m], b.lastOffsets[m.partition := m.record.offset])
  }

  /** m is what the broker has next for a consumer that has fetched b. */
  predicate IsNextMessage(log: Log, start: map<int, int>, b: Batch, m: Message) {
    var p := m.partition;
    p in start && p in log && Next(log[p], End(start, b.lastOffsets, p)) == Some(m.record)
  }

  lemma AppendSlice(log: Log, start: map<int, int>, b: Batch, m: Message, q: int)
    requires ValidLog(log) && q in start && SliceFetched(log, start, b, q) && IsNextMessage(log, start, b, m)
    requires start[m.partition] <= End(start, b.lastOffsets, m.partition)
    ensures SliceFetched(log, start, Append(b, m), q)
  {
    OfAppend(b.messages, m, q);
    if q == m.partition {
      var pos := End(start, b.lastOffsets, q);
      NextIsLeast(log[q], pos);
      SliceGrows(log[q], start[q], pos, m.record);
    }
  }

  lemma AppendFetched(log: Log, topic: string, start: map<int, int>, b: Batch, m: Message)
    requires ValidLog(log) && FetchedFrom(log, topic, start, b) && m.topic == topic
    requires IsNextMessage(log, start, b, m) && m.record.utf8
    ensures End(start, b.lastOffsets, m.partition) <= m.record.offset
    ensures FetchedFrom(log, topic, start, Append(b, m))
  {
    NextIsLeast(log[m.partition], End(start, b.lastOffsets, m.partition));
    forall q | q in start ensures SliceFetched(log, start, Append(b, m), q) {
      AppendSlice(log, start, b, m, q);
    }
    forall q | q in Append(b, m).lastOffsets
      ensures HasOffset(Append(b, m).messages, q, Append(b, m).lastOffsets[q])
    {
      HasOffsetGrows(b.messages, m, q, Append(b, m).lastOffsets[q]);
    }
  }

  /** The consumer stands behind what it has fetched, on every partition. */
  ghost predicate AtEnds(position: map<int, int>, start: map<int, int>, last: map<int, int>) {
    position.Keys == start.Keys && forall p :: p in start ==> position[p] == End(start, last, p)
  }

  lemma TakeMessage(log: Log, topic: string, start: map<int, int>, position: map<int, int>, b: Batch, m: Message)
    requires ValidLog(log) && AtEnds(position, start, b.lastOffsets) && FetchedFrom(log, topic, start, b)
    requires m.topic == topic && m.record.utf8 && m.partition in position && m.partition in log
    requires Next(log[m.partition], position[m.partition]) == Some(m.record)
    ensures m.partition in b.lastOffsets ==> b.lastOffsets[m.partition] < m.record.offset
    ensures AtEnds(position[m.partition := m.record.offset + 1], start, Append(b, m).lastOffsets)
    ensures FetchedFrom(log, topic, start, Append(b, m))
  {
    AppendFetched(log, topic, start, b, m);
    EndsAdvance(position, start, b.lastOffsets, m.partition, m.record.offset);
  }

  lemma EndsAdvance(position: map<int, int>, start: map<int, int>, last: map<int, int>, p: int, o: int)
    requires AtEnds(position, start, last) && p in start
    ensures AtEnds(position[p := o + 1], start, last[p := o])
  {
  }

  lemma FetchNothing(log: Log, topic: string, start: map<int, int>)
    requires start.Keys <= log.Keys
    ensures FetchedFrom(log, topic, start, Batch([], map[]))
  {
    forall p | p in start ensures SliceFetched(log, start, Batch([], map[]), p) {
      SliceEmpty(log[p], start[p]);
    }
  }
}
