/**
  Keyset extraction of an OLTP table: select the rows after the stored (timestamp, pk) cursor in
  order, at most a batch of them, insert them, and store the cursor of the last one in a second
  transaction.
 */
module OltpExtract {
  import opened Prelude

  /** A source row: its watermark column, which may be NULL, the first column of its key, the rest. */
  datatype Row = Row(ts: Option<int>, pk: int, data: seq<string>)

  /** The stored watermark: none, a legacy plain timestamp, or the composite form. */
  datatype Watermark = Missing | Plain(ts: int) | Composite(ts: int, pk: Option<int>)

  datatype Cursor = Cursor(ts: int, pk: Option<int>)

  function ParseCursor(w: Watermark, fallback: int): Cursor {
    match w
    case Missing => Cursor(fallback, None)
    case Plain(ts) => Cursor(ts, None)
    case Composite(ts, pk) => Cursor(ts, pk)
  }

  function SerializeCursor(r: Row): Watermark
    requires r.ts.Some?
  {
    Composite(r.ts.value, Some(r.pk))
  }

  /** WHERE ts > c.ts, or WHERE (ts, pk) > (c.ts, c.pk); a NULL timestamp is never selected. */
  predicate Beyond(c: Cursor, r: Row) {
    && r.ts.Some?
    && match c.pk
       case None => c.ts < r.ts.value
       case Some(k) => c.ts < r.ts.value || (c.ts == r.ts.value && k < r.pk)
  }

  /** ORDER BY ts ASC, pk ASC. */
  predicate Before(a: Row, b: Row) {
    a.ts.Some? && Beyond(Cursor(a.ts.value, Some(a.pk)), b)
  }

  ghost predicate Ascending(rs: seq<Row>) {
    forall i, j :: 0 <= i < j < |rs| ==> Before(rs[i], rs[j])
  }

  /** No two dated rows share timestamp and key. */
  ghost predicate DistinctKeys(source: seq<Row>) {
    forall i, j :: 0 <= i < j < |source| ==>
      source[i].ts.None? || (source[i].ts, source[i].pk) != (source[j].ts, source[j].pk)
  }

  function Place(rs: seq<Row>, r: Row): seq<Row> {
    if rs == [] || Before(r, rs[0]) then [r] + rs else [rs[0]] + Place(rs[1..], r)
  }

  /** The query without its LIMIT. */
  function Selected(source: seq<Row>, c: Cursor): seq<Row> {
    if source == [] then []
    else
      var rest := Selected(source[1..], c);
      if Beyond(c, source[0]) then Place(rest, source[0]) else rest
  }

  function Query(source: seq<Row>, c: Cursor, limit: nat): seq<Row> {
    var all := Selected(source, c);
    if limit < |all| then all[..limit] else all
  }

  function NextWatermark(w: Watermark, rows: seq<Row>): Watermark {
    if rows != [] && rows[|rows| - 1].ts.Some? then SerializeCursor(rows[|rows| - 1]) else w
  }

  // ----- The query -----

  lemma {:induction false} PlaceMember(rs: seq<Row>, r: Row, x: Row)
    ensures x in Place(rs, r) <==> x in rs || x == r
  {
    if rs != [] && !Before(r, rs[0]) {
      PlaceMember(rs[1..], r, x);
    }
  }

  lemma {:induction false} PlaceAscending(rs: seq<Row>, r: Row)
    requires Ascending(rs) && r.ts.Some?
    requires forall x :: x in rs ==> x.ts.Some? && (x.ts, x.pk) != (r.ts, r.pk)
    ensures Ascending(Place(rs, r))
  {
    if rs != [] && !Before(r, rs[0]) {
      PlaceAscending(rs[1..], r);
      var t := Place(rs[1..], r);
      forall i | 0 <= i < |t| ensures Before(rs[0], t[i]) {
        PlaceMember(rs[1..], r, t[i]);
      }
    }
  }

  lemma {:induction false} SelectedMember(source: seq<Row>, c: Cursor, x: Row)
    ensures x in Selected(source, c) <==> x in source && Beyond(c, x)
  {
    if source != [] {
      SelectedMember(source[1..], c, x);
      PlaceMember(Selected(source[1..], c), source[0], x);
    }
  }

  /** What the query selects after each form of the stored watermark. */
  lemma SelectedExactly(source: seq<Row>, w: Watermark, fallback: int, r: Row)
    ensures r in Selected(source, ParseCursor(w, fallback)) <==>
            && r in source && r.ts.Some?
            && match w
               case Missing => fallback < r.ts.value
               case Plain(ts) => ts < r.ts.value
               case Composite(ts, None) => ts < r.ts.value
               case Composite(ts, Some(k)) => ts < r.ts.value || (ts == r.ts.value && k < r.pk)
  {
    SelectedMember(source, ParseCursor(w, fallback), r);
  }

  lemma {:induction false} SelectedAscending(source: seq<Row>, c: Cursor)
    requires DistinctKeys(source)
    ensures Ascending(Selected(source, c))
  {
    if source != [] {
      SelectedAscending(source[1..], c);
      if Beyond(c, source[0]) {
        var rest := Selected(source[1..], c);
        forall x | x in rest ensures x.ts.Some? && (x.ts, x.pk) != (source[0].ts, source[0].pk) {
          SelectedMember(source[1..], c, x);
          var i :| 0 <= i < |source[1..]| && source[1..][i] == x;
          assert source[i + 1] == x;
        }
        PlaceAscending(rest, source[0]);
      }
    }
  }

  /** Two ascending lists of the same rows are the same list. */
  lemma {:induction false} AscendingUnique(a: seq<Row>, b: seq<Row>)
    requires Ascending(a) && Ascending(b) && forall x :: x in a <==> x in b
    ensures a == b
  {
    EmptyTogether(a, b);
    EmptyTogether(b, a);
    if a != [] {
      assert a[0] in b;
      assert b[0] in b;
      var j :| 0 <= j < |b| && b[j] == a[0];
      var i :| 0 <= i < |a| && a[i] == b[0];
      assert a[0] == b[0];
      forall x ensures x in a[1..] <==> x in b[1..] {
        SameTail(a, b, x);
        SameTail(b, a, x);
      }
      AscendingUnique(a[1..], b[1..]);
    }
  }

  lemma EmptyTogether(a: seq<Row>, b: seq<Row>)
    requires forall x :: x in b ==> x in a
    ensures a == [] ==> b == []
  {
    if b != [] {
      assert b[0] in b;
    }
  }

  lemma SameTail(a: seq<Row>, b: seq<Row>, x: Row)
    requires a != [] && b != [] && a[0] == b[0] && Ascending(a) && forall y :: y in a ==> y in b
    ensures x in a[1..] ==> x in b[1..]
  {
    if x in a[1..] {
      var i :| 0 <= i < |a[1..]| && a[1..][i] == x;
      assert a[i + 1] == x && Before(a[0], a[i + 1]);
      assert x in a;
      var j :| 0 <= j < |b| && b[j] == x;
      assert j > 0 && b[1..][j - 1] == x;
    }
  }

  /** After the first k rows, the query from the cursor of the last of them gives the others. */
  lemma SelectedContinues(source: seq<Row>, c: Cursor, k: nat)
    requires DistinctKeys(source) && 0 < k <= |Selected(source, c)|
    ensures var all := Selected(source, c);
            all[k - 1].ts.Some? &&
            Selected(source, Cursor(all[k - 1].ts.value, Some(all[k - 1].pk))) == all[k..]
  {
    var all := Selected(source, c);
    var last := all[k - 1];
    SelectedAscending(source, c);
    SelectedMember(source, c, last);
    var d := Cursor(last.ts.value, Some(last.pk));
    SelectedAscending(source, d);
    forall x ensures x in Selected(source, d) <==> x in all[k..] {
      SelectedMember(source, c, x);
      SelectedMember(source, d, x);
      if x in all {
        var i :| 0 <= i < |all| && all[i] == x;
        assert k <= i ==> all[k..][i - k] == x;
      }
    }
    AscendingUnique(Selected(source, d), all[k..]);
  }

  // ----- Repeating the extraction on a source that does not change -----

  /** What repeated runs deliver until one returns nothing. */
  function Repeated(source: seq<Row>, w: Watermark, fallback: int, limit: nat, runs: nat): seq<Row>
    decreases runs
  {
    var rows := Query(source, ParseCursor(w, fallback), limit);
    if rows == [] || runs == 0 then []
    else rows + Repeated(source, NextWatermark(w, rows), fallback, limit, runs - 1)
  }

  /** A run takes the front of what is to be selected and leaves the rest. */
  lemma QuerySplits(source: seq<Row>, w: Watermark, fallback: int, limit: nat)
    requires DistinctKeys(source)
    ensures var all := Selected(source, ParseCursor(w, fallback));
            var rows := Query(source, ParseCursor(w, fallback), limit);
            all == rows + Selected(source, ParseCursor(NextWatermark(w, rows), fallback))
  {
    var all := Selected(source, ParseCursor(w, fallback));
    var rows := Query(source, ParseCursor(w, fallback), limit);
    if rows != [] {
      SelectedContinues(source, ParseCursor(w, fallback), |rows|);
      assert rows[|rows| - 1] == all[|rows| - 1];
      assert all == all[..|rows|] + all[|rows|..];
    }
  }

  lemma {:induction false} RepeatedDelivers(source: seq<Row>, w: Watermark, fallback: int, limit: nat, runs: nat)
    requires DistinctKeys(source) && limit >= 1 && runs >= |Selected(source, ParseCursor(w, fallback))|
    ensures Repeated(source, w, fallback, limit, runs) == Selected(source, ParseCursor(w, fallback))
    decreases runs
  {
    var rows := Query(source, ParseCursor(w, fallback), limit);
    QuerySplits(source, w, fallback, limit);
    if rows != [] {
      RepeatedDelivers(source, NextWatermark(w, rows), fallback, limit, runs - 1);
    }
  }

  /** From the fallback, for every batch size, repeated runs deliver exactly the rows newer than the
      fallback, each once, in the order of (timestamp, key). */
  lemma DeliversExactly(source: seq<Row>, fallback: int, limit: nat, runs: nat)
    requires DistinctKeys(source) && limit >= 1 && runs >= |Selected(source, Cursor(fallback, None))|
    ensures var out := Repeated(source, Missing, fallback, limit, runs);
            && Ascending(out)
            && forall r :: r in out <==> r in source && r.ts.Some? && fallback < r.ts.value
  {
    RepeatedDelivers(source, Missing, fallback, limit, runs);
    SelectedAscending(source, Cursor(fallback, None));
    var c := Cursor(fallback, None);
    forall r ensures r in Selected(source, c) <==> r in source && r.ts.Some? && fallback < r.ts.value {
      SelectedMember(source, c, r);
    }
  }

  // ----- Without unique keys -----

  /** In the order of the query, where rows may share timestamp and key. */
  ghost predicate InOrder(rs: seq<Row>) {
    && (forall i :: 0 <= i < |rs| ==> rs[i].ts.Some?)
    && (forall i, j :: 0 <= i < j < |rs| ==> !Before(rs[j], rs[i]))
  }

  lemma {:induction false} PlaceInOrder(rs: seq<Row>, r: Row)
    requires InOrder(rs) && r.ts.Some?
    ensures InOrder(Place(rs, r))
  {
    if rs != [] && !Before(r, rs[0]) {
      PlaceInOrder(rs[1..], r);
      var t := Place(rs[1..], r);
      forall i | 0 <= i < |t| ensures !Before(t[i], rs[0]) && t[i].ts.Some? {
        PlaceMember(rs[1..], r, t[i]);
      }
    }
  }

  lemma {:induction false} SelectedInOrder(source: seq<Row>, c: Cursor)
    ensures InOrder(Selected(source, c))
  {
    if source != [] {
      SelectedInOrder(source[1..], c);
      if Beyond(c, source[0]) {
        PlaceInOrder(Selected(source[1..], c), source[0]);
      }
    }
  }

  /** A result the query may give without its LIMIT: the rows beyond the cursor, in some order that
      ORDER BY allows. */
  ghost predicate Allowed(source: seq<Row>, c: Cursor, all: seq<Row>) {
    InOrder(all) && multiset(all) == multiset(Selected(source, c))
  }

  function Limited(all: seq<Row>, limit: nat): seq<Row> {
    if limit < |all| then all[..limit] else all
  }

  lemma AllowedMember(source: seq<Row>, c: Cursor, all: seq<Row>, r: Row)
    requires Allowed(source, c, all)
    ensures r in all <==> r in source && Beyond(c, r)
  {
    assert r in all <==> r in multiset(all);
    assert r in Selected(source, c) <==> r in multiset(Selected(source, c));
    SelectedMember(source, c, r);
  }

  /** With unique keys ORDER BY allows one order. */
  lemma OneOrder(source: seq<Row>, c: Cursor, all: seq<Row>)
    requires DistinctKeys(source) && Allowed(source, c, all)
    ensures all == Selected(source, c)
  {
    SelectedAscending(source, c);
    forall r ensures r in all <==> r in Selected(source, c) {
      AllowedMember(source, c, all, r);
      SelectedMember(source, c, r);
    }
    forall i, j | 0 <= i < j < |all| ensures Before(all[i], all[j]) {
      NoneTwice(source, c, all, i, j);
      SameKeySameRow(source, c, all[i], all[j]);
    }
    AscendingUnique(all, Selected(source, c));
  }

  lemma NoneTwice(source: seq<Row>, c: Cursor, all: seq<Row>, i: nat, j: nat)
    requires DistinctKeys(source) && Allowed(source, c, all) && i < j < |all|
    ensures all[i] != all[j] && all[i] in Selected(source, c) && all[j] in Selected(source, c)
  {
    SelectedAscending(source, c);
    AscendingCounts(Selected(source, c), all[i]);
    assert all == all[..j] + all[j..] && all[i] in all[..j] && all[j] in all[j..];
    assert multiset(all) == multiset(all[..j]) + multiset(all[j..]);
    assert all[j] in multiset(all) && all[i] in multiset(all);
  }

  lemma SameKeySameRow(source: seq<Row>, c: Cursor, a: Row, b: Row)
    requires DistinctKeys(source) && a in Selected(source, c) && b in Selected(source, c)
    ensures (a.ts, a.pk) == (b.ts, b.pk) ==> a == b
  {
    SelectedMember(source, c, a);
    SelectedMember(source, c, b);
    var i :| 0 <= i < |source| && source[i] == a;
    var j :| 0 <= j < |source| && source[j] == b;
  }

  /** On any source, and in whatever order tied rows come, a run loses a row it should have read, neither
      delivering it nor leaving it to be selected, exactly when LIMIT cuts the row off although it ties
      with the last row delivered. */
  lemma LostExactlyAtBoundaryTie(source: seq<Row>, w: Watermark, fallback: int, limit: nat, all: seq<Row>, r: Row)
    requires Allowed(source, ParseCursor(w, fallback), all) && Limited(all, limit) != []
    requires r in source && Beyond(ParseCursor(w, fallback), r)
    ensures var rows := Limited(all, limit);
            var last := rows[|rows| - 1];
            r !in rows && !Beyond(ParseCursor(NextWatermark(w, rows), fallback), r) <==>
            r !in rows && (r.ts, r.pk) == (last.ts, last.pk)
  {
    var rows := Limited(all, limit);
    var k := |rows|;
    AllowedMember(source, ParseCursor(w, fallback), all, r);
    assert rows[k - 1] == all[k - 1];
    var j :| 0 <= j < |all| && all[j] == r;
    if j < k {
      assert rows[j] == r;
    }
  }

  // ----- Runs that crash, on a source that changes -----

  /** Where a run stops: before the insert commits, before the cursor is stored, or not. */
  datatype Stop = BeforeInsert | BeforeCursor | Complete

  datatype State = State(source: seq<Row>, target: seq<Row>, watermark: Watermark)

  /** Between the runs the source inserts, updates and deletes rows as it likes. */
  datatype Action = Change(source: seq<Row>) | Extract(limit: nat, stop: Stop)

  /** One run of extract_table. */
  function Extracted(s: State, fallback: int, limit: nat, stop: Stop): State {
    var rows := Query(s.source, ParseCursor(s.watermark, fallback), limit);
    State(
      s.source,
      if stop == BeforeInsert then s.target else s.target + rows,
      if stop == Complete then NextWatermark(s.watermark, rows) else s.watermark)
  }

  ghost predicate Step(s: State, fallback: int, a: Action, s': State) {
    match a
    case Change(source) => DistinctKeys(source) && s' == s.(source := source)
    case Extract(limit, stop) => s' == Extracted(s, fallback, limit, stop)
  }

  ghost predicate Run(fallback: int, ss: seq<State>, actions: seq<Action>) {
    |ss| == |actions| + 1 && forall k :: 0 <= k < |actions| ==> Step(ss[k], fallback, actions[k], ss[k + 1])
  }

  /** Newer than the fallback and not beyond the cursor. */
  predicate Reached(w: Watermark, fallback: int, r: Row) {
    r.ts.Some? && fallback < r.ts.value && !Beyond(ParseCursor(w, fallback), r)
  }

  function Crashes(actions: seq<Action>): nat {
    if actions == [] then 0
    else
      Crashes(actions[..|actions| - 1]) + CrashOf(actions[|actions| - 1])
  }

  /** The cursor w' is not before w: it leaves no more to select. */
  ghost predicate NotBefore(w: Watermark, w': Watermark, fallback: int) {
    forall r :: Beyond(ParseCursor(w', fallback), r) ==> Beyond(ParseCursor(w, fallback), r)
  }

  lemma AscendingSplit(rs: seq<Row>, k: nat)
    requires Ascending(rs) && k <= |rs|
    ensures forall r :: r in rs[..k] ==> r !in rs[k..]
  {
    forall i, j | 0 <= i < k && 0 <= j < |rs[k..]| ensures rs[..k][i] != rs[k..][j] {
      assert Before(rs[i], rs[k + j]);
    }
  }

  lemma {:induction false} AscendingCounts(rs: seq<Row>, r: Row)
    requires Ascending(rs)
    ensures multiset(rs)[r] == if r in rs then 1 else 0
  {
    if rs != [] {
      AscendingSplit(rs, 1);
      assert rs == [rs[0]] + rs[1..] && rs[0] in rs[..1];
      AscendingCounts(rs[1..], r);
    }
  }

  /** The rows of a batch are those that its cursor passes. */
  lemma BatchPasses(source: seq<Row>, w: Watermark, fallback: int, limit: nat, r: Row)
    requires DistinctKeys(source)
    ensures var rows := Query(source, ParseCursor(w, fallback), limit);
            r in rows <==>
            && r in source && Beyond(ParseCursor(w, fallback), r)
            && !Beyond(ParseCursor(NextWatermark(w, rows), fallback), r)
  {
    var c := ParseCursor(w, fallback);
    var all, rows := Selected(source, c), Query(source, c, limit);
    var rest := Selected(source, ParseCursor(NextWatermark(w, rows), fallback));
    QuerySplits(source, w, fallback, limit);
    SelectedAscending(source, c);
    AscendingSplit(all, |rows|);
    assert all[..|rows|] == rows && all[|rows|..] == rest;
    SelectedMember(source, c, r);
    SelectedMember(source, ParseCursor(NextWatermark(w, rows), fallback), r);
  }

  lemma CursorAdvances(source: seq<Row>, w: Watermark, fallback: int, limit: nat)
    ensures NotBefore(w, NextWatermark(w, Query(source, ParseCursor(w, fallback), limit)), fallback)
  {
    var c := ParseCursor(w, fallback);
    var rows := Query(source, c, limit);
    if rows != [] {
      assert rows[|rows| - 1] in Selected(source, c);
      SelectedMember(source, c, rows[|rows| - 1]);
    }
  }

  /** A batch holds each row it passes exactly once, and nothing it does not pass. */
  lemma BatchCounts(s: State, fallback: int, limit: nat, r: Row)
    requires DistinctKeys(s.source)
    ensures var c := ParseCursor(s.watermark, fallback);
            var rows := Query(s.source, c, limit);
            var w' := NextWatermark(s.watermark, rows);
            && multiset(rows)[r] <= 1
            && (r in rows ==> r in s.source && Beyond(c, r))
            && (r in rows <==> r in s.source && Beyond(c, r) && !Beyond(ParseCursor(w', fallback), r))
            && NotBefore(s.watermark, w', fallback)
  {
    var c := ParseCursor(s.watermark, fallback);
    var rows := Query(s.source, c, limit);
    SelectedAscending(s.source, c);
    AscendingCounts(rows, r);
    BatchPasses(s.source, s.watermark, fallback, limit, r);
    CursorAdvances(s.source, s.watermark, fallback, limit);
  }

  /** A row of the source that is reached is in the target; a row that is reached may be in it once more
      than the crashes, any other only by the crashes. */
  predicate Bounds(s: State, fallback: int, crashes: nat, r: Row) {
    var n := multiset(s.target)[r];
    && (r in s.source && Reached(s.watermark, fallback, r) ==> 1 <= n)
    && n <= crashes + if Reached(s.watermark, fallback, r) then 1 else 0
  }

  ghost predicate Inv(s: State, fallback: int, crashes: nat, r: Row) {
    DistinctKeys(s.source) && NotBefore(Missing, s.watermark, fallback) && Bounds(s, fallback, crashes, r)
  }

  lemma ExtractKeepsInv(s: State, fallback: int, limit: nat, stop: Stop, crashes: nat, r: Row)
    requires Inv(s, fallback, crashes, r)
    ensures Inv(Extracted(s, fallback, limit, stop), fallback, crashes + if stop == BeforeCursor then 1 else 0, r)
  {
    var rows := Query(s.source, ParseCursor(s.watermark, fallback), limit);
    BatchCounts(s, fallback, limit, r);
    assert multiset(s.target + rows)[r] == multiset(s.target)[r] + multiset(rows)[r];
  }

  function CrashOf(a: Action): nat {
    if a.Extract? && a.stop == BeforeCursor then 1 else 0
  }

  /** The step puts r into the source, by an insert or by an update. */
  predicate Comes(s: State, a: Action, r: Row) {
    a.Change? && r in a.source && r !in s.source
  }

  /** If the step puts r into the source, r is beyond the cursor. */
  predicate NotLate(s: State, fallback: int, a: Action, r: Row) {
    Comes(s, a, r) && r.ts.Some? ==> Beyond(ParseCursor(s.watermark, fallback), r)
  }

  lemma StepKeepsInv(s: State, fallback: int, a: Action, s': State, crashes: nat, r: Row)
    requires Inv(s, fallback, crashes, r) && Step(s, fallback, a, s') && NotLate(s, fallback, a, r)
    ensures Inv(s', fallback, crashes + CrashOf(a), r)
  {
    if a.Extract? {
      ExtractKeepsInv(s, fallback, a.limit, a.stop, crashes, r);
    }
  }

  predicate Initial(s: State) {
    s.target == [] && s.watermark == Missing
  }

  /** The row does not come late, whatever other rows do. */
  ghost predicate NeverLate(fallback: int, ss: seq<State>, actions: seq<Action>, r: Row)
    requires |ss| == |actions| + 1
  {
    forall k :: 0 <= k < |actions| ==> NotLate(ss[k], fallback, actions[k], r)
  }

  lemma {:induction false} InvOverRuns(fallback: int, ss: seq<State>, actions: seq<Action>, n: nat, r: Row)
    requires Run(fallback, ss, actions) && Initial(ss[0]) && DistinctKeys(ss[0].source) && n < |ss|
    requires NeverLate(fallback, ss, actions, r)
    ensures Inv(ss[n], fallback, Crashes(actions[..n]), r)
  {
    if n > 0 {
      InvOverRuns(fallback, ss, actions, n - 1, r);
      assert actions[..n][..n - 1] == actions[..n - 1];
      StepKeepsInv(ss[n - 1], fallback, actions[n - 1], ss[n], Crashes(actions[..n - 1]), r);
    }
  }

  /** Whatever crashes, and whatever other rows do, a row newer than the fallback that does not come late
      is in the target if the source has it and the cursor has reached it. No row is in the target more
      often than the crashes between insert and cursor explain: without them, once. */
  lemma AtLeastOnce(fallback: int, ss: seq<State>, actions: seq<Action>, n: nat, r: Row)
    requires Run(fallback, ss, actions) && Initial(ss[0]) && DistinctKeys(ss[0].source) && n < |ss|
    requires NeverLate(fallback, ss, actions, r)
    ensures var count := multiset(ss[n].target)[r];
            var reached := Reached(ss[n].watermark, fallback, r);
            && (r in ss[n].source && reached ==> 1 <= count)
            && count <= Crashes(actions[..n]) + (if reached then 1 else 0)
            && ((forall k :: 0 <= k <= n ==> r !in ss[k].source) ==> count == 0)
  {
    InvOverRuns(fallback, ss, actions, n, r);
    if forall k :: 0 <= k <= n ==> r !in ss[k].source {
      TargetIsFromSource(fallback, ss, actions, n, r);
    }
  }

  lemma StepNotBefore(s: State, fallback: int, a: Action, s': State)
    requires DistinctKeys(s.source) && Step(s, fallback, a, s')
    ensures DistinctKeys(s'.source) && NotBefore(s.watermark, s'.watermark, fallback)
    ensures s.target <= s'.target
    ensures forall r :: r in s'.target ==>
              r in s.target || (r in s.source && Beyond(ParseCursor(s.watermark, fallback), r))
  {
    if a.Extract? {
      BatchCounts(s, fallback, a.limit, Row(None, 0, []));
      forall r | r in s'.target && r !in s.target
        ensures r in s.source && Beyond(ParseCursor(s.watermark, fallback), r)
      {
        BatchCounts(s, fallback, a.limit, r);
      }
    }
  }

  /** The stored cursor never moves backwards, and a row that is at or below it without being in the
      target, because it was inserted late or a row became it by an update, is never delivered. */
  lemma {:induction false} LateRowIsLost(fallback: int, ss: seq<State>, actions: seq<Action>, m: nat, n: nat, r: Row)
    requires Run(fallback, ss, actions) && DistinctKeys(ss[0].source) && m <= n < |ss|
    ensures DistinctKeys(ss[n].source) && NotBefore(ss[m].watermark, ss[n].watermark, fallback)
    ensures !Beyond(ParseCursor(ss[m].watermark, fallback), r) && r !in ss[m].target ==> r !in ss[n].target
  {
    if n > 0 {
      var m' := if m < n then m else n - 1;
      LateRowIsLost(fallback, ss, actions, m', n - 1, r);
      assert Step(ss[n - 1], fallback, actions[n - 1], ss[n]);
      StepNotBefore(ss[n - 1], fallback, actions[n - 1], ss[n]);
    }
  }

  /** The target holds nothing that the source never held. */
  lemma {:induction false} TargetIsFromSource(fallback: int, ss: seq<State>, actions: seq<Action>, n: nat, r: Row)
    requires Run(fallback, ss, actions) && Initial(ss[0]) && DistinctKeys(ss[0].source) && n < |ss|
    requires forall k :: 0 <= k < n ==> r !in ss[k].source
    ensures DistinctKeys(ss[n].source) && r !in ss[n].target
  {
    if n > 0 {
      TargetIsFromSource(fallback, ss, actions, n - 1, r);
      StepNotBefore(ss[n - 1], fallback, actions[n - 1], ss[n]);
    }
  }

  ghost predicate StaysFrom(ss: seq<State>, c: nat, r: Row) {
    forall k :: c <= k < |ss| ==> r in ss[k].source
  }

  /** One step for a row that stays: it gets into the target as soon as the cursor passes it. */
  lemma StepDelivers(s: State, fallback: int, a: Action, s': State, r: Row)
    requires DistinctKeys(s.source) && Step(s, fallback, a, s') && r in s.source
    requires Beyond(ParseCursor(s.watermark, fallback), r) && !Beyond(ParseCursor(s'.watermark, fallback), r)
    ensures r in s'.target
  {
    BatchCounts(s, fallback, a.limit, r);
  }

  lemma {:induction false} PassedIsDelivered(fallback: int, ss: seq<State>, actions: seq<Action>, c: nat, n: nat,
                                             r: Row)
    requires Run(fallback, ss, actions) && DistinctKeys(ss[0].source) && c <= n < |ss| && StaysFrom(ss, c, r)
    requires r in ss[c].target || Beyond(ParseCursor(ss[c].watermark, fallback), r)
    ensures r in ss[n].target || Beyond(ParseCursor(ss[n].watermark, fallback), r)
  {
    if c < n {
      PassedIsDelivered(fallback, ss, actions, c, n - 1, r);
      LateRowIsLost(fallback, ss, actions, 0, n - 1, r);
      assert Step(ss[n - 1], fallback, actions[n - 1], ss[n]);
      StepNotBefore(ss[n - 1], fallback, actions[n - 1], ss[n]);
      if r !in ss[n - 1].target && !Beyond(ParseCursor(ss[n].watermark, fallback), r) {
        StepDelivers(ss[n - 1], fallback, actions[n - 1], ss[n], r);
      }
    }
  }

  /** When a row version is delivered: of the versions that have been in the source since some state c and
      that the cursor has passed, exactly those are in the target that were in it at c or beyond the
      cursor then. */
  lemma DeliveredExactly(fallback: int, ss: seq<State>, actions: seq<Action>, c: nat, r: Row)
    requires Run(fallback, ss, actions) && DistinctKeys(ss[0].source) && c <= |actions| && StaysFrom(ss, c, r)
    requires !Beyond(ParseCursor(ss[|actions|].watermark, fallback), r)
    ensures r in ss[|actions|].target <==>
            r in ss[c].target || Beyond(ParseCursor(ss[c].watermark, fallback), r)
  {
    if r in ss[c].target || Beyond(ParseCursor(ss[c].watermark, fallback), r) {
      PassedIsDelivered(fallback, ss, actions, c, |actions|, r);
    } else {
      LateRowIsLost(fallback, ss, actions, c, |actions|, r);
    }
  }

  /** A version that the source never held before c is delivered if and only if it comes beyond the
      cursor: an insert or an update that leaves the watermark column at or below it is lost. */
  lemma NewVersionDeliveredExactly(fallback: int, ss: seq<State>, actions: seq<Action>, c: nat, r: Row)
    requires Run(fallback, ss, actions) && Initial(ss[0]) && DistinctKeys(ss[0].source)
    requires c <= |actions| && StaysFrom(ss, c, r) && forall k :: 0 <= k < c ==> r !in ss[k].source
    requires !Beyond(ParseCursor(ss[|actions|].watermark, fallback), r)
    ensures r in ss[|actions|].target <==> Beyond(ParseCursor(ss[c].watermark, fallback), r)
  {
    TargetIsFromSource(fallback, ss, actions, c, r);
    DeliveredExactly(fallback, ss, actions, c, r);
  }

  // ----- Two versions of a row with one timestamp -----

  /** Nothing in the target is beyond the cursor, and the target is ordered by timestamp and key. */
  ghost predicate Orderly(s: State, fallback: int) {
    && Ascending(s.target)
    && forall r :: r in s.target ==> r.ts.Some? && !Beyond(ParseCursor(s.watermark, fallback), r)
  }

  lemma StepKeepsOrder(s: State, fallback: int, a: Action, s': State)
    requires DistinctKeys(s.source) && Orderly(s, fallback) && Step(s, fallback, a, s') && CrashOf(a) == 0
    ensures Orderly(s', fallback)
  {
    if a.Extract? && a.stop == Complete {
      var c := ParseCursor(s.watermark, fallback);
      var rows := Query(s.source, c, a.limit);
      SelectedAscending(s.source, c);
      StepNotBefore(s, fallback, a, s');
      forall r | r in rows ensures r.ts.Some? && Beyond(c, r) && !Beyond(ParseCursor(s'.watermark, fallback), r) {
        BatchCounts(s, fallback, a.limit, r);
      }
      forall i, j | 0 <= i < j < |s'.target| ensures Before(s'.target[i], s'.target[j]) {
        if i < |s.target| <= j {
          assert s'.target[i] in s.target && s'.target[j] in rows;
        } else if |s.target| <= i {
          assert rows[i - |s.target|] == s'.target[i] && rows[j - |s.target|] == s'.target[j];
        }
      }
    }
  }

  /** Without a crash between insert and cursor the target never holds two versions of a row with one
      timestamp, whatever the source does, for it is ordered by timestamp and key. */
  lemma {:induction false} OrderedWithoutCrash(fallback: int, ss: seq<State>, actions: seq<Action>, n: nat)
    requires Run(fallback, ss, actions) && Initial(ss[0]) && DistinctKeys(ss[0].source) && n < |ss|
    requires Crashes(actions[..n]) == 0
    ensures DistinctKeys(ss[n].source) && Orderly(ss[n], fallback)
  {
    if n > 0 {
      assert actions[..n][..n - 1] == actions[..n - 1];
      OrderedWithoutCrash(fallback, ss, actions, n - 1);
      assert Step(ss[n - 1], fallback, actions[n - 1], ss[n]);
      StepKeepsOrder(ss[n - 1], fallback, actions[n - 1], ss[n]);
    }
  }

  /** With one such crash it may: a row that is updated, without a new timestamp, after the crash and
      before the next run is read in both versions. */
  lemma CrashThenUpdateTies(before: Row, after: Row, fallback: int, first: nat, second: nat)
    returns (ss: seq<State>, actions: seq<Action>)
    requires before.ts.Some? && fallback < before.ts.value && first >= 1 && second >= 1
    requires (after.ts, after.pk) == (before.ts, before.pk)
    ensures actions == [Extract(first, BeforeCursor), Change([after]), Extract(second, Complete)]
    ensures Run(fallback, ss, actions) && Initial(ss[0]) && ss[0].source == [before]
    ensures ss[3].source == [after] && ss[3].target == [before, after]
  {
    var s0 := State([before], [], Missing);
    OneRowQuery(before, Cursor(fallback, None), first);
    OneRowQuery(after, Cursor(fallback, None), second);
    var s1 := State([before], [before], Missing);
    var s2 := State([after], [before], Missing);
    var s3 := State([after], [before, after], SerializeCursor(after));
    ss := [s0, s1, s2, s3];
    actions := [Extract(first, BeforeCursor), Change([after]), Extract(second, Complete)];
    assert Step(s0, fallback, actions[0], s1) && Step(s1, fallback, actions[1], s2);
    assert Step(s2, fallback, actions[2], s3);
  }

  lemma OneRowQuery(r: Row, c: Cursor, limit: nat)
    requires Beyond(c, r) && limit >= 1
    ensures Query([r], c, limit) == [r]
  {
    assert [r][1..] == [];
    assert Selected([], c) == [];
  }

  // ----- extract_table -----

  class TableExtract {
    var target: seq<Row>
    var watermark: Watermark

    constructor ()
      ensures target == [] && watermark == Missing
    {
      target, watermark := [], Missing;
    }

    /** One run against the source as it is now; `stop` says where it crashes. */
    method ExtractTable(source: seq<Row>, fallback: int, batchSize: nat, stop: Stop) returns (rows: seq<Row>)
      requires DistinctKeys(source)
      modifies this
      ensures State(source, target, watermark) ==
              Extracted(State(source, old(target), old(watermark)), fallback, batchSize, stop)
      ensures rows == Query(source, ParseCursor(old(watermark), fallback), batchSize)
      ensures Ascending(rows) && |rows| <= batchSize
      ensures forall r :: r in rows ==> r in source && Beyond(ParseCursor(old(watermark), fallback), r)
      ensures |rows| < batchSize ==>
                forall r :: r in source && Beyond(ParseCursor(old(watermark), fallback), r) ==> r in rows
      ensures stop == Complete && rows != [] ==>
                rows[|rows| - 1].ts.Some? &&
                watermark == Composite(rows[|rows| - 1].ts.value, Some(rows[|rows| - 1].pk))
      ensures stop != Complete || rows == [] ==> watermark == old(watermark)
      ensures target == old(target) + if stop == BeforeInsert then [] else rows
    {
      var c := ParseCursor(watermark, fallback);
      SelectedAscending(source, c);
      forall r ensures r in Selected(source, c) <==> r in source && Beyond(c, r) {
        SelectedMember(source, c, r);
      }
      rows := Query(source, c, batchSize);
      if stop != BeforeInsert {
        target := target + rows;
      }
      assert rows != [] ==> rows[|rows| - 1] in Selected(source, c);
      if stop == Complete && rows != [] {
        watermark := SerializeCursor(rows[|rows| - 1]);
      }
    }
  }
}
