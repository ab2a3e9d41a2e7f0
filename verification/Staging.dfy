/**
  The windowed preprocessing of raw rows into staging: slice by ingested_at, keep the latest row per
  key, drop invalid rows before or after that, and upsert the images.
 */
module Staging {
  import opened Decimals
  import opened Prelude

  /** Rows of raw.oltp_users, raw.oltp_orders and the raw Kafka event tables. */
  datatype Raw =
    | User(userId: int, email: Option<string>, fullName: Option<string>, createdAt: Option<int>, ingestedAt: int)
    | Order(orderId: int, buyerId: Option<int>, orderTs: Option<int>, status: Option<string>,
            currency: Option<string>, totalCents: Option<int>, ingestedAt: int)
    | Event(topic: string, partition: int, offset: int, eventId: Option<string>, columns: seq<Option<string>>,
            ingestedAt: int)
  {
    /** The PARTITION BY columns. */
    function Key(): Key {
      match this
      case User(id, _, _, _, _) => Id(id)
      case Order(id, _, _, _, _, _, _) => Id(id)
      case Event(t, p, o, _, _, _) => Slot(t, p, o)
    }

    /** The primary key of the staging table. */
    function TargetKey(): TargetKey {
      match this
      case User(id, _, _, _, _) => Number(id)
      case Order(id, _, _, _, _, _, _) => Number(id)
      case Event(t, p, o, _, _, _) => Uuid(t + ":" + Decimal(p) + ":" + Decimal(o))
    }

    /** The IS NOT NULL and range checks of the builder. */
    predicate Valid() {
      match this
      case User(_, email, _, _, _) => email.Some?
      case Order(_, buyer, ts, _, _, total, _) => buyer.Some? && ts.Some? && total.Some? && total.value >= 0
      case Event(_, _, _, eventId, _, _) => eventId.Some?
    }
  }

  datatype Key = Id(id: int) | Slot(topic: string, partition: int, offset: int)

  datatype TargetKey = Number(id: int) | Uuid(text: string)

  datatype Table = Users | Orders | Events

  function TableOf(r: Raw): Table {
    match r
    case User(_, _, _, _, _) => Users
    case Order(_, _, _, _, _, _, _) => Orders
    case Event(_, _, _, _, _, _) => Events
  }

  /** Users are filtered and then deduplicated; orders and events the other way round. */
  predicate FiltersFirst(t: Table) {
    t == Users
  }

  type Staged = seq<Option<string>>

  // ----- The join of topic, partition and offset into one text -----

  lemma ColonIsLast(a: string, b: string, x: string, y: string)
    requires a + ":" + x == b + ":" + y && ':' !in y
    ensures |a| <= |b|
  {
    var t := b + ":" + y;
    assert forall i :: |b| < i < |t| ==> t[i] == y[i - |b| - 1];
    assert (a + ":" + x)[|a|] == ':';
  }

  lemma LastColon(a: string, b: string, x: string, y: string)
    requires a + ":" + x == b + ":" + y && ':' !in x && ':' !in y
    ensures a == b && x == y
  {
    var s, t := a + ":" + x, b + ":" + y;
    ColonIsLast(a, b, x, y);
    ColonIsLast(b, a, y, x);
    assert a == s[..|a|] && b == t[..|b|] && x == s[|a| + 1..] && y == t[|b| + 1..];
  }

  /** Whatever the topic, colons included, the text names one topic, partition and offset. */
  lemma JoinInjective(t: string, p: int, o: int, t': string, p': int, o': int)
    requires t + ":" + Decimal(p) + ":" + Decimal(o) == t' + ":" + Decimal(p') + ":" + Decimal(o')
    ensures t == t' && p == p' && o == o'
  {
    DecimalHasNoColon(p);
    DecimalHasNoColon(p');
    DecimalHasNoColon(o);
    DecimalHasNoColon(o');
    LastColon(t + ":" + Decimal(p), t' + ":" + Decimal(p'), Decimal(o), Decimal(o'));
    LastColon(t, t', Decimal(p), Decimal(p'));
    DecimalInjective(p, p');
    DecimalInjective(o, o');
  }

  lemma TargetKeyExactly(a: Raw, b: Raw)
    requires TableOf(a) == TableOf(b)
    ensures a.TargetKey() == b.TargetKey() <==> a.Key() == b.Key()
  {
    if a.Event? && a.TargetKey() == b.TargetKey() {
      JoinInjective(a.topic, a.partition, a.offset, b.topic, b.partition, b.offset);
    }
  }

  // ----- The builders -----

  function Sliced(rows: seq<Raw>, lo: int, hi: int): seq<Raw> {
    if rows == [] then []
    else (if lo <= rows[0].ingestedAt <= hi then [rows[0]] else []) + Sliced(rows[1..], lo, hi)
  }

  function OnlyValid(rows: seq<Raw>): seq<Raw> {
    if rows == [] then [] else (if rows[0].Valid() then [rows[0]] else []) + OnlyValid(rows[1..])
  }

  /** The row of the key with row_number 1: the latest, and among ties the first. */
  function Best(rows: seq<Raw>, k: Key): Option<Raw> {
    if rows == [] then None
    else
      var rest := Best(rows[1..], k);
      if rows[0].Key() == k && (rest.None? || rest.value.ingestedAt <= rows[0].ingestedAt) then Some(rows[0]) else rest
  }

  function Without(rows: seq<Raw>, k: Key): seq<Raw> {
    if rows == [] then [] else (if rows[0].Key() != k then [rows[0]] else []) + Without(rows[1..], k)
  }

  /** The rows with row_number 1. */
  function Deduplicated(rows: seq<Raw>): seq<Raw> {
    if rows == [] then []
    else
      var rest := Deduplicated(rows[1..]);
      var k := rows[0].Key();
      if Best(rows, k) == Some(rows[0]) then [rows[0]] + Without(rest, k) else rest
  }

  function Build(t: Table, raw: seq<Raw>, lo: int, hi: int): seq<Raw> {
    var rows := Sliced(raw, lo, hi);
    if FiltersFirst(t) then Deduplicated(OnlyValid(rows)) else OnlyValid(Deduplicated(rows))
  }

  // ----- The upsert -----

  predicate NoKeyTwice(rows: seq<Raw>) {
    forall i, j :: 0 <= i < j < |rows| ==> rows[i].TargetKey() != rows[j].TargetKey()
  }

  function KeysOf(rows: seq<Raw>): set<TargetKey> {
    set r | r in rows :: r.TargetKey()
  }

  function RowOf(rows: seq<Raw>, k: TargetKey): (r: Raw)
    requires k in KeysOf(rows)
    ensures r in rows && r.TargetKey() == k
  {
    if rows[0].TargetKey() == k then rows[0] else RowOf(rows[1..], k)
  }

  /** Each key of the slice gets the image of its row. */
  function Written(staging: map<TargetKey, Staged>, rows: seq<Raw>, image: Raw -> Staged): map<TargetKey, Staged> {
    staging + map k | k in KeysOf(rows) :: image(RowOf(rows, k))
  }

  /** INSERT ... ON CONFLICT DO UPDATE, which fails when it would touch a row a second time. */
  function Upserted(staging: map<TargetKey, Staged>, rows: seq<Raw>, image: Raw -> Staged)
    : Result<map<TargetKey, Staged>, string>
  {
    if NoKeyTwice(rows) then Ok(Written(staging, rows, image))
    else Err("ON CONFLICT DO UPDATE command cannot affect row a second time")
  }

  // ----- What a build holds -----

  predicate OneTable(t: Table, rows: seq<Raw>) {
    forall r :: r in rows ==> TableOf(r) == t
  }

  /** The primary key (key, ingested_at) of the raw table. */
  predicate UniqueIngest(rows: seq<Raw>) {
    forall r, r' :: r in rows && r' in rows && r.Key() == r'.Key() && r.ingestedAt == r'.ingestedAt ==> r == r'
  }

  lemma {:induction false} SlicedMember(rows: seq<Raw>, lo: int, hi: int, r: Raw)
    ensures r in Sliced(rows, lo, hi) <==> r in rows && lo <= r.ingestedAt <= hi
  {
    if rows != [] {
      SlicedMember(rows[1..], lo, hi, r);
    }
  }

  lemma {:induction false} OnlyValidMember(rows: seq<Raw>, r: Raw)
    ensures r in OnlyValid(rows) <==> r in rows && r.Valid()
  {
    if rows != [] {
      OnlyValidMember(rows[1..], r);
    }
  }

  lemma {:induction false} WithoutMember(rows: seq<Raw>, k: Key, r: Raw)
    ensures r in Without(rows, k) <==> r in rows && r.Key() != k
  {
    if rows != [] {
      WithoutMember(rows[1..], k, r);
    }
  }

  lemma {:induction false} BestIsLatest(rows: seq<Raw>, k: Key)
    ensures var b := Best(rows, k);
            && (b.None? <==> forall r :: r in rows ==> r.Key() != k)
            && (b.Some? ==> b.value in rows && b.value.Key() == k &&
                            forall r :: r in rows && r.Key() == k ==> r.ingestedAt <= b.value.ingestedAt)
  {
    if rows != [] {
      BestIsLatest(rows[1..], k);
    }
  }

  lemma {:induction false} DeduplicatedMember(rows: seq<Raw>, r: Raw)
    ensures r in Deduplicated(rows) <==> Best(rows, r.Key()) == Some(r)
  {
    if rows != [] {
      DeduplicatedMember(rows[1..], r);
      WithoutMember(Deduplicated(rows[1..]), rows[0].Key(), r);
      BestIsLatest(rows[1..], r.Key());
    }
  }

  ghost predicate KeysDiffer(rows: seq<Raw>) {
    forall i, j :: 0 <= i < j < |rows| ==> rows[i].Key() != rows[j].Key()
  }

  lemma {:induction false} WithoutKeysDiffer(rows: seq<Raw>, k: Key)
    requires KeysDiffer(rows)
    ensures KeysDiffer(Without(rows, k))
  {
    if rows != [] {
      WithoutKeysDiffer(rows[1..], k);
      forall i | 0 <= i < |Without(rows[1..], k)| ensures Without(rows[1..], k)[i].Key() != rows[0].Key() {
        WithoutMember(rows[1..], k, Without(rows[1..], k)[i]);
      }
    }
  }

  lemma {:induction false} DeduplicatedKeysDiffer(rows: seq<Raw>)
    ensures KeysDiffer(Deduplicated(rows))
  {
    if rows != [] {
      var rest, k := Deduplicated(rows[1..]), rows[0].Key();
      DeduplicatedKeysDiffer(rows[1..]);
      WithoutKeysDiffer(rest, k);
      forall i | 0 <= i < |Without(rest, k)| ensures Without(rest, k)[i].Key() != k {
        WithoutMember(rest, k, Without(rest, k)[i]);
      }
    }
  }

  lemma {:induction false} OnlyValidKeysDiffer(rows: seq<Raw>)
    requires KeysDiffer(rows)
    ensures KeysDiffer(OnlyValid(rows))
  {
    if rows != [] {
      OnlyValidKeysDiffer(rows[1..]);
      forall i | 0 <= i < |OnlyValid(rows[1..])| ensures OnlyValid(rows[1..])[i].Key() != rows[0].Key() {
        OnlyValidMember(rows[1..], OnlyValid(rows[1..])[i]);
      }
    }
  }

  /** The rows a build chooses the latest from. */
  predicate Eligible(t: Table, r: Raw, lo: int, hi: int) {
    lo <= r.ingestedAt <= hi && (FiltersFirst(t) ==> r.Valid())
  }

  /** A valid row is in the build exactly when it is the latest eligible row of its key. */
  lemma BuildExactly(t: Table, raw: seq<Raw>, lo: int, hi: int, r: Raw)
    requires UniqueIngest(raw)
    ensures r in Build(t, raw, lo, hi) <==>
            && r in raw && r.Valid() && Eligible(t, r, lo, hi)
            && forall r' :: r' in raw && r'.Key() == r.Key() && Eligible(t, r', lo, hi) ==>
                 r'.ingestedAt <= r.ingestedAt
  {
    var rows := if FiltersFirst(t) then OnlyValid(Sliced(raw, lo, hi)) else Sliced(raw, lo, hi);
    forall x ensures x in rows <==> x in raw && Eligible(t, x, lo, hi) {
      SlicedMember(raw, lo, hi, x);
      OnlyValidMember(Sliced(raw, lo, hi), x);
    }
    DeduplicatedMember(rows, r);
    BestIsLatest(rows, r.Key());
    OnlyValidMember(Deduplicated(rows), r);
  }

  // ----- The builds and the upsert in columns -----

  /** The latest user row of its user_id that has an e-mail, among those in the window that have one. */
  predicate BuildsUser(raw: seq<Raw>, lo: int, hi: int, r: Raw) {
    && r in raw && r.User? && r.email.Some? && lo <= r.ingestedAt <= hi
    && forall x :: x in raw && x.User? && x.userId == r.userId && x.email.Some? && lo <= x.ingestedAt <= hi ==>
         x.ingestedAt <= r.ingestedAt
  }

  /** The latest order row of its order_id in the window; it has a buyer, an order_ts and a total that is
      not negative, while the older ones may lack them. */
  predicate BuildsOrder(raw: seq<Raw>, lo: int, hi: int, r: Raw) {
    && r in raw && r.Order? && lo <= r.ingestedAt <= hi
    && r.buyerId.Some? && r.orderTs.Some? && r.totalCents.Some? && r.totalCents.value >= 0
    && forall x :: x in raw && x.Order? && x.orderId == r.orderId && lo <= x.ingestedAt <= hi ==>
         x.ingestedAt <= r.ingestedAt
  }

  /** The latest event row of its topic, partition and offset in the window; it has an event_id. */
  predicate BuildsEvent(raw: seq<Raw>, lo: int, hi: int, r: Raw) {
    && r in raw && r.Event? && r.eventId.Some? && lo <= r.ingestedAt <= hi
    && forall x :: x in raw && x.Event? && lo <= x.ingestedAt <= hi && x.topic == r.topic &&
                   x.partition == r.partition && x.offset == r.offset ==>
         x.ingestedAt <= r.ingestedAt
  }

  lemma UsersBuiltExactly(raw: seq<Raw>, lo: int, hi: int, r: Raw)
    requires UniqueIngest(raw) && OneTable(Users, raw)
    ensures r in Build(Users, raw, lo, hi) <==> BuildsUser(raw, lo, hi, r)
  {
    BuildExactly(Users, raw, lo, hi, r);
  }

  lemma OrdersBuiltExactly(raw: seq<Raw>, lo: int, hi: int, r: Raw)
    requires UniqueIngest(raw) && OneTable(Orders, raw)
    ensures r in Build(Orders, raw, lo, hi) <==> BuildsOrder(raw, lo, hi, r)
  {
    BuildExactly(Orders, raw, lo, hi, r);
  }

  lemma EventsBuiltExactly(raw: seq<Raw>, lo: int, hi: int, r: Raw)
    requires UniqueIngest(raw) && OneTable(Events, raw)
    ensures r in Build(Events, raw, lo, hi) <==> BuildsEvent(raw, lo, hi, r)
  {
    BuildExactly(Events, raw, lo, hi, r);
  }

  /** The row that a window writes, of the table. */
  predicate Builds(t: Table, raw: seq<Raw>, lo: int, hi: int, r: Raw) {
    match t
    case Users => BuildsUser(raw, lo, hi, r)
    case Orders => BuildsOrder(raw, lo, hi, r)
    case Events => BuildsEvent(raw, lo, hi, r)
  }

  lemma BuiltExactly(t: Table, raw: seq<Raw>, lo: int, hi: int, r: Raw)
    requires UniqueIngest(raw) && OneTable(t, raw)
    ensures r in Build(t, raw, lo, hi) <==> Builds(t, raw, lo, hi, r)
  {
    match t
    case Users => UsersBuiltExactly(raw, lo, hi, r);
    case Orders => OrdersBuiltExactly(raw, lo, hi, r);
    case Events => EventsBuiltExactly(raw, lo, hi, r);
  }

  /** The primary key of staging that the raw row writes: customer_id, order_id, or the text joined of
      topic, partition and offset. */
  predicate Names(r: Raw, k: TargetKey) {
    match r
    case User(id, _, _, _, _) => k == Number(id)
    case Order(id, _, _, _, _, _, _) => k == Number(id)
    case Event(t, p, o, _, _, _) => k == Uuid(t + ":" + Decimal(p) + ":" + Decimal(o))
  }

  /** What a run does to staging: each row that its window builds lands, and a key that none names stays as
      it was. */
  ghost predicate WindowWrites(t: Table, raw: seq<Raw>, lo: int, hi: int, image: Raw -> Staged,
                               before: map<TargetKey, Staged>, after: map<TargetKey, Staged>) {
    && (forall r, k :: r in raw && Builds(t, raw, lo, hi, r) && Names(r, k) ==> Holds(after, k, image(r)))
    && forall k :: (forall r :: r in raw && Builds(t, raw, lo, hi, r) ==> !Names(r, k)) ==>
         (k in after <==> k in before) && (k in before ==> after[k] == before[k])
  }

  lemma RunWritesExactly(t: Table, raw: seq<Raw>, lo: int, hi: int, image: Raw -> Staged,
                         before: map<TargetKey, Staged>)
    requires UniqueIngest(raw) && OneTable(t, raw)
    ensures WindowWrites(t, raw, lo, hi, image, before, Written(before, Build(t, raw, lo, hi), image))
  {
    var built := Build(t, raw, lo, hi);
    var after := Written(before, built, image);
    BuildNamesKeysOnce(t, raw, lo, hi);
    forall r, k | r in raw && Builds(t, raw, lo, hi, r) && Names(r, k) ensures Holds(after, k, image(r)) {
      BuiltExactly(t, raw, lo, hi, r);
      WrittenAt(before, built, image, r.TargetKey());
    }
    forall k | forall r :: r in raw && Builds(t, raw, lo, hi, r) ==> !Names(r, k)
      ensures (k in after <==> k in before) && (k in before ==> after[k] == before[k])
    {
      forall r | r in built ensures r.TargetKey() != k {
        BuiltExactly(t, raw, lo, hi, r);
        assert r in raw;
      }
      WrittenAt(before, built, image, k);
    }
  }

  /** A build names each target row at most once, so its upsert does not fail. */
  lemma BuildNamesKeysOnce(t: Table, raw: seq<Raw>, lo: int, hi: int)
    requires OneTable(t, raw)
    ensures NoKeyTwice(Build(t, raw, lo, hi)) && OneTable(t, Build(t, raw, lo, hi))
  {
    var rows := if FiltersFirst(t) then OnlyValid(Sliced(raw, lo, hi)) else Sliced(raw, lo, hi);
    var built := Build(t, raw, lo, hi);
    DeduplicatedKeysDiffer(rows);
    OnlyValidKeysDiffer(Deduplicated(rows));
    forall r | r in built ensures r in raw {
      OnlyValidMember(Deduplicated(rows), r);
      DeduplicatedMember(rows, r);
      BestIsLatest(rows, r.Key());
      OnlyValidMember(Sliced(raw, lo, hi), r);
      SlicedMember(raw, lo, hi, r);
    }
    forall i, j | 0 <= i < j < |built| ensures built[i].TargetKey() != built[j].TargetKey() {
      TargetKeyExactly(built[i], built[j]);
    }
  }

  lemma WrittenAt(staging: map<TargetKey, Staged>, rows: seq<Raw>, image: Raw -> Staged, k: TargetKey)
    requires NoKeyTwice(rows)
    ensures var w := Written(staging, rows, image);
            && (forall r :: r in rows && r.TargetKey() == k ==> k in w && w[k] == image(r))
            && ((forall r :: r in rows ==> r.TargetKey() != k) ==>
                 (k in w <==> k in staging) && (k in staging ==> w[k] == staging[k]))
  {
    forall r | r in rows && r.TargetKey() == k ensures k in KeysOf(rows) && RowOf(rows, k) == r {
      var r' := RowOf(rows, k);
      var i :| 0 <= i < |rows| && rows[i] == r;
      var j :| 0 <= j < |rows| && rows[j] == r';
    }
  }

  /** Writing the same slice again leaves staging as it is. */
  lemma RepeatChangesNothing(staging: map<TargetKey, Staged>, rows: seq<Raw>, image: Raw -> Staged)
    requires NoKeyTwice(rows)
    ensures Written(Written(staging, rows, image), rows, image) == Written(staging, rows, image)
  {
    var once := Written(staging, rows, image);
    var twice := Written(once, rows, image);
    forall k ensures (k in twice <==> k in once) && (k in once ==> twice[k] == once[k]) {
      WrittenAt(staging, rows, image, k);
      WrittenAt(once, rows, image, k);
      if r :| r in rows && r.TargetKey() == k {
        assert twice[k] == image(r);
      }
    }
  }

  // ----- Sequences of windowed runs -----

  /** One run: the raw table it finds and its window [lo, hi], where hi is the execution time. */
  datatype Job = Job(raw: seq<Raw>, lo: int, hi: int)

  function AfterJob(t: Table, j: Job, image: Raw -> Staged, staging: map<TargetKey, Staged>)
    : map<TargetKey, Staged>
  {
    Written(staging, Build(t, j.raw, j.lo, j.hi), image)
  }

  /** The jobs in the order they ran, and staging before, between and after them. */
  ghost predicate Ran(t: Table, jobs: seq<Job>, image: Raw -> Staged, states: seq<map<TargetKey, Staged>>) {
    && |states| == |jobs| + 1 && OfTable(t, jobs)
    && forall j :: 0 <= j < |jobs| ==> IsAfter(t, jobs[j], image, states[j], states[j + 1])
  }

  predicate IsAfter(t: Table, j: Job, image: Raw -> Staged, before: map<TargetKey, Staged>,
                    after: map<TargetKey, Staged>) {
    after == AfterJob(t, j, image, before)
  }

  /** The raw tables are of the table and hold each row once. */
  ghost predicate OfTable(t: Table, jobs: seq<Job>) {
    forall j :: 0 <= j < |jobs| ==> OneTable(t, jobs[j].raw) && UniqueIngest(jobs[j].raw)
  }

  /** The job has the row in its window, and its builder looks at it. */
  predicate SeenBy(t: Table, j: Job, r: Raw) {
    r in j.raw && Eligible(t, r, j.lo, j.hi)
  }

  /** The row is valid and the latest of its key that the job sees. */
  ghost predicate Writes(t: Table, j: Job, r: Raw) {
    && SeenBy(t, j, r) && r.Valid()
    && forall r': Raw :: r'.Key() == r.Key() && SeenBy(t, j, r') ==> r'.ingestedAt <= r.ingestedAt
  }

  ghost predicate NamesKey(t: Table, j: Job, k: Key) {
    exists r: Raw :: r.Key() == k && Writes(t, j, r)
  }

  /** Job j writes the row, and none of the later ones among the first n names its key. */
  ghost predicate LastWriter(t: Table, jobs: seq<Job>, n: nat, j: nat, r: Raw)
    requires n <= |jobs|
  {
    j < n && Writes(t, jobs[j], r) && forall m :: j < m < n ==> !NamesKey(t, jobs[m], r.Key())
  }

  lemma WritesExactly(t: Table, j: Job, r: Raw)
    requires UniqueIngest(j.raw)
    ensures r in Build(t, j.raw, j.lo, j.hi) <==> Writes(t, j, r)
  {
    BuildExactly(t, j.raw, j.lo, j.hi, r);
    if r in Build(t, j.raw, j.lo, j.hi) {
      forall r': Raw | r'.Key() == r.Key() && SeenBy(t, j, r') ensures r'.ingestedAt <= r.ingestedAt {}
    }
    if Writes(t, j, r) {
      forall r' | r' in j.raw && r'.Key() == r.Key() && Eligible(t, r', j.lo, j.hi)
        ensures r'.ingestedAt <= r.ingestedAt
      {
        assert SeenBy(t, j, r');
      }
    }
  }

  predicate Holds(s: map<TargetKey, Staged>, k: TargetKey, v: Staged) {
    k in s && s[k] == v
  }

  predicate SameAt(s: map<TargetKey, Staged>, s': map<TargetKey, Staged>, k: TargetKey) {
    (k in s <==> k in s') && (k in s ==> s[k] == s'[k])
  }

  lemma JobWrites(t: Table, j: Job, image: Raw -> Staged, staging: map<TargetKey, Staged>, r: Raw)
    requires OneTable(t, j.raw) && UniqueIngest(j.raw) && Writes(t, j, r)
    ensures Holds(AfterJob(t, j, image, staging), r.TargetKey(), image(r))
  {
    BuildNamesKeysOnce(t, j.raw, j.lo, j.hi);
    WritesExactly(t, j, r);
    WrittenAt(staging, Build(t, j.raw, j.lo, j.hi), image, r.TargetKey());
  }

  /** A job that names no row of the key leaves what is stored for it. */
  lemma UnnamedKeyStays(t: Table, j: Job, image: Raw -> Staged, staging: map<TargetKey, Staged>, r: Raw)
    requires OneTable(t, j.raw) && UniqueIngest(j.raw) && TableOf(r) == t && !NamesKey(t, j, r.Key())
    ensures SameAt(AfterJob(t, j, image, staging), staging, r.TargetKey())
  {
    var built := Build(t, j.raw, j.lo, j.hi);
    BuildNamesKeysOnce(t, j.raw, j.lo, j.hi);
    forall r' | r' in built ensures r'.TargetKey() != r.TargetKey() {
      WritesExactly(t, j, r');
      TargetKeyExactly(r', r);
    }
    WrittenAt(staging, built, image, r.TargetKey());
  }

  lemma {:induction false} SameAlong(states: seq<map<TargetKey, Staged>>, m: nat, n: nat, k: TargetKey)
    requires m <= n < |states| && forall j :: m <= j < n ==> SameAt(states[j + 1], states[j], k)
    ensures SameAt(states[n], states[m], k)
  {
    if m < n {
      SameAlong(states, m, n - 1, k);
      assert SameAt(states[n - 1 + 1], states[n - 1], k);
    }
  }

  /** Jobs that do not name the key leave what is stored for it. */
  lemma UnnamedStays(t: Table, jobs: seq<Job>, image: Raw -> Staged,
                     states: seq<map<TargetKey, Staged>>, m: nat, n: nat, r: Raw)
    requires Ran(t, jobs, image, states) && m <= n <= |jobs| && TableOf(r) == t
    requires forall j :: m <= j < n ==> !NamesKey(t, jobs[j], r.Key())
    ensures SameAt(states[n], states[m], r.TargetKey())
  {
    forall j | m <= j < n ensures SameAt(states[j + 1], states[j], r.TargetKey()) {
      UnnamedKeyStays(t, jobs[j], image, states[j], r);
    }
    SameAlong(states, m, n, r.TargetKey());
  }

  /** Whatever the windows and their order, staging holds for a key the image of the row written by the
      last job that names it. */
  lemma LastWriterWins(t: Table, jobs: seq<Job>, image: Raw -> Staged, states: seq<map<TargetKey, Staged>>,
                       n: nat, j: nat, r: Raw)
    requires Ran(t, jobs, image, states) && n <= |jobs| && LastWriter(t, jobs, n, j, r)
    ensures Holds(states[n], r.TargetKey(), image(r))
  {
    JobWrites(t, jobs[j], image, states[j], r);
    UnnamedStays(t, jobs, image, states, j + 1, n, r);
  }

  /** A key that some job names has a last writer, at or after that job. */
  lemma {:induction false} LastWriterExists(t: Table, jobs: seq<Job>, n: nat, i: nat, k: Key) returns (j: nat, w: Raw)
    requires i < n <= |jobs| && NamesKey(t, jobs[i], k)
    ensures LastWriter(t, jobs, n, j, w) && w.Key() == k && i <= j
    decreases n
  {
    if NamesKey(t, jobs[n - 1], k) {
      j := n - 1;
      w := LastWriterNow(t, jobs, n, k);
    } else {
      j, w := LastWriterExists(t, jobs, n - 1, i, k);
      LastWriterStays(t, jobs, n, j, w);
    }
  }

  lemma LastWriterStays(t: Table, jobs: seq<Job>, n: nat, j: nat, w: Raw)
    requires 0 < n <= |jobs| && LastWriter(t, jobs, n - 1, j, w) && !NamesKey(t, jobs[n - 1], w.Key())
    ensures LastWriter(t, jobs, n, j, w)
  {
  }

  lemma LastWriterNow(t: Table, jobs: seq<Job>, n: nat, k: Key) returns (w: Raw)
    requires 0 < n <= |jobs| && NamesKey(t, jobs[n - 1], k)
    ensures LastWriter(t, jobs, n, n - 1, w) && w.Key() == k
  {
    w :| w.Key() == k && Writes(t, jobs[n - 1], w);
  }

  // ----- Which windows keep staging at the latest row -----

  /** The raw table only grows. */
  ghost predicate Growing(t: Table, jobs: seq<Job>) {
    OfTable(t, jobs) && forall i, j, r :: 0 <= i <= j < |jobs| && r in jobs[i].raw ==> r in jobs[j].raw
  }

  predicate Seen(t: Table, jobs: seq<Job>, r: Raw) {
    exists j :: 0 <= j < |jobs| && SeenBy(t, jobs[j], r)
  }

  /** No window saw a later row of the key. */
  ghost predicate LatestSeen(t: Table, jobs: seq<Job>, r: Raw) {
    Seen(t, jobs, r) && forall r': Raw :: r'.Key() == r.Key() && Seen(t, jobs, r') ==> r'.ingestedAt <= r.ingestedAt
  }

  lemma SeerWrites(t: Table, jobs: seq<Job>, r: Raw, m: nat)
    requires LatestSeen(t, jobs, r) && r.Valid() && m < |jobs| && SeenBy(t, jobs[m], r)
    ensures Writes(t, jobs[m], r) && NamesKey(t, jobs[m], r.Key())
  {
    forall r': Raw | r'.Key() == r.Key() && SeenBy(t, jobs[m], r') ensures r'.ingestedAt <= r.ingestedAt {
      assert Seen(t, jobs, r');
    }
  }

  lemma LastWriterIsLatest(t: Table, jobs: seq<Job>, r: Raw, j: nat, w: Raw)
    requires OfTable(t, jobs) && LatestSeen(t, jobs, r) && r.Valid()
    requires LastWriter(t, jobs, |jobs|, j, w) && w.Key() == r.Key()
    ensures w == r <==> SeenBy(t, jobs[j], r)
  {
    if SeenBy(t, jobs[j], r) {
      SeerWrites(t, jobs, r, j);
      assert w in jobs[j].raw && r in jobs[j].raw;
    }
  }

  /** Job j names the key, and no later one does. */
  ghost predicate LastNames(t: Table, jobs: seq<Job>, j: nat, k: Key) {
    j < |jobs| && NamesKey(t, jobs[j], k) && forall m :: j < m < |jobs| ==> !NamesKey(t, jobs[m], k)
  }

  /** Job j writes another row of the key, with the same image. */
  ghost predicate WritesTwin(t: Table, j: Job, image: Raw -> Staged, r: Raw) {
    exists w: Raw :: w.Key() == r.Key() && w != r && Writes(t, j, w) && image(w) == image(r)
  }

  /** On any jobs, staging ends with the latest valid row that was seen exactly when the last job to
      name its key has it in its window, or writes a row that looks the same in staging. */
  lemma HoldsLatestExactly(t: Table, jobs: seq<Job>, image: Raw -> Staged,
                           states: seq<map<TargetKey, Staged>>, r: Raw, j: nat)
    requires Ran(t, jobs, image, states) && LatestSeen(t, jobs, r) && r.Valid()
    requires LastNames(t, jobs, j, r.Key())
    ensures Holds(states[|jobs|], r.TargetKey(), image(r)) <==>
            SeenBy(t, jobs[j], r) || WritesTwin(t, jobs[j], image, r)
  {
    var w: Raw :| w.Key() == r.Key() && Writes(t, jobs[j], w);
    LastWriterIsLatest(t, jobs, r, j, w);
    LastWriterWins(t, jobs, image, states, |jobs|, j, w);
    SameKeySameTarget(t, jobs, r, j, w);
    OneWritten(t, jobs[j], w);
  }

  lemma OneWritten(t: Table, j: Job, w: Raw)
    requires UniqueIngest(j.raw) && Writes(t, j, w)
    ensures forall x: Raw :: x.Key() == w.Key() && Writes(t, j, x) ==> x == w
  {
  }

  lemma SameKeySameTarget(t: Table, jobs: seq<Job>, r: Raw, j: nat, w: Raw)
    requires OfTable(t, jobs) && Seen(t, jobs, r) && j < |jobs| && w in jobs[j].raw && w.Key() == r.Key()
    ensures w.TargetKey() == r.TargetKey()
  {
    var i :| 0 <= i < |jobs| && SeenBy(t, jobs[i], r);
    TargetKeyExactly(w, r);
  }

  predicate InWindow(j: Job, at: int) {
    j.lo <= at <= j.hi
  }

  /** The instant lies in a window of job m or later. */
  predicate SeenFrom(jobs: seq<Job>, m: nat, at: int) {
    exists i :: m <= i < |jobs| && InWindow(jobs[i], at)
  }

  /** A window that reaches back before an instant of an earlier window is itself, or is followed by, one
      that holds this instant too. */
  ghost predicate Covering(jobs: seq<Job>) {
    forall i, j, at :: 0 <= i < j < |jobs| && InWindow(jobs[i], at) && ReachesBefore(jobs[j], at) ==>
      SeenFrom(jobs, j, at)
  }

  predicate ReachesBefore(j: Job, at: int) {
    j.lo < at && j.lo <= j.hi
  }

  /** Execution times that do not decrease make the windows covering, whatever the lookbacks. */
  lemma OrderedIsCovering(jobs: seq<Job>)
    requires forall i, j :: 0 <= i < j < |jobs| ==> jobs[i].hi <= jobs[j].hi
    ensures Covering(jobs)
  {
    forall i, j, at | 0 <= i < j < |jobs| && InWindow(jobs[i], at) && ReachesBefore(jobs[j], at)
      ensures SeenFrom(jobs, j, at)
    {
      assert InWindow(jobs[j], at);
    }
  }

  /** A last run over an older window than one before it is not covering. */
  lemma BackfillIsNotCovering(jobs: seq<Job>, i: nat)
    requires i < |jobs| - 1 && jobs[i].lo <= jobs[i].hi
    requires jobs[|jobs| - 1].lo <= jobs[|jobs| - 1].hi < jobs[i].hi
    ensures !Covering(jobs)
  {
    var j, at := |jobs| - 1, jobs[i].hi;
    assert InWindow(jobs[i], at) && ReachesBefore(jobs[j], at) && !SeenFrom(jobs, j, at);
  }

  /** The last job to name the key comes with the latest row, or with an older one that its window
      reaches back to. */
  lemma LastWriterReachesBack(t: Table, jobs: seq<Job>, r: Raw, i: nat, j: nat, w: Raw)
    requires Growing(t, jobs) && LatestSeen(t, jobs, r)
    requires LastWriter(t, jobs, |jobs|, j, w) && w.Key() == r.Key()
    ensures i <= j && SeenBy(t, jobs[i], r) ==> w == r || ReachesBefore(jobs[j], r.ingestedAt)
  {
    if i <= j && SeenBy(t, jobs[i], r) {
      assert r in jobs[j].raw && w in jobs[j].raw;
      assert Seen(t, jobs, w);
    }
  }

  /** With covering windows, on any growing raw table, staging ends with the image of the latest row of
      the key that any window saw, when that row is valid. */
  lemma CoveringFollowsLatest(t: Table, jobs: seq<Job>, image: Raw -> Staged,
                              states: seq<map<TargetKey, Staged>>, r: Raw)
    requires Ran(t, jobs, image, states) && Growing(t, jobs) && Covering(jobs)
    requires LatestSeen(t, jobs, r) && r.Valid()
    ensures Holds(states[|jobs|], r.TargetKey(), image(r))
  {
    var j, w := CoveringLastWriter(t, jobs, r);
    LastWriterIsLatest(t, jobs, r, j, w);
    LastWriterWins(t, jobs, image, states, |jobs|, j, r);
  }

  lemma CoveringLastWriter(t: Table, jobs: seq<Job>, r: Raw) returns (j: nat, w: Raw)
    requires Growing(t, jobs) && Covering(jobs) && LatestSeen(t, jobs, r) && r.Valid()
    ensures LastWriter(t, jobs, |jobs|, j, w) && w.Key() == r.Key() && SeenBy(t, jobs[j], r)
  {
    var i :| 0 <= i < |jobs| && SeenBy(t, jobs[i], r);
    var m := LastSeer(t, jobs, r, i);
    SeerWrites(t, jobs, r, m);
    j, w := LastWriterExists(t, jobs, |jobs|, m, r.Key());
    LastWriterReachesBack(t, jobs, r, m, j, w);
    assert InWindow(jobs[m], r.ingestedAt);
    assert m < j && ReachesBefore(jobs[j], r.ingestedAt) ==> SeenFrom(jobs, j, r.ingestedAt);
  }

  /** The last job whose window holds the row; the raw table still holds it then. */
  lemma LastSeer(t: Table, jobs: seq<Job>, r: Raw, i: nat) returns (m: nat)
    requires Growing(t, jobs) && i < |jobs| && SeenBy(t, jobs[i], r)
    ensures m < |jobs| && SeenBy(t, jobs[m], r) && !SeenFrom(jobs, m + 1, r.ingestedAt)
    decreases |jobs| - i
  {
    if j :| i + 1 <= j < |jobs| && InWindow(jobs[j], r.ingestedAt) {
      assert r in jobs[j].raw;
      m := LastSeer(t, jobs, r, j);
    } else {
      m := i;
    }
  }

  /** Jobs with the windows of others, on one raw table. */
  function OnTable(raw: seq<Raw>, windows: seq<Job>): seq<Job> {
    seq(|windows|, i requires 0 <= i < |windows| => windows[i].(raw := raw))
  }

  /** With windows that are not covering there is a raw table, of two rows of one customer, on which
      staging ends with the older row although a window saw the newer. */
  lemma NotCoveringLosesLatest(windows: seq<Job>) returns (older: Raw, newer: Raw)
    requires !Covering(windows)
    ensures older.Key() == newer.Key() && older.ingestedAt < newer.ingestedAt && newer.Valid()
    ensures Growing(Users, OnTable([older, newer], windows))
    ensures LatestSeen(Users, OnTable([older, newer], windows), newer)
    ensures forall image, states :: Ran(Users, OnTable([older, newer], windows), image, states) ==>
              Holds(states[|windows|], newer.TargetKey(), image(older))
  {
    var i, j, at :| 0 <= i < j < |windows| && InWindow(windows[i], at) && ReachesBefore(windows[j], at) &&
                    !SeenFrom(windows, j, at);
    older := User(1, Some("a@x"), None, None, windows[j].lo);
    newer := User(1, Some("b@x"), None, None, at);
    var jobs := OnTable([older, newer], windows);
    TwoRowsSeen(windows, older, newer, i, j);
    assert NamesKey(Users, jobs[j], older.Key());
    var m, w := LastWriterExists(Users, jobs, |jobs|, j, older.Key());
    assert !InWindow(windows[m], at);
    OlderWrites(windows, older, newer, m, w);
    forall image, states | Ran(Users, jobs, image, states)
      ensures Holds(states[|windows|], newer.TargetKey(), image(older))
    {
      LastWriterWins(Users, jobs, image, states, |jobs|, m, older);
    }
  }

  lemma OlderWrites(windows: seq<Job>, older: Raw, newer: Raw, m: nat, w: Raw)
    requires newer.User? && m < |windows| && !InWindow(windows[m], newer.ingestedAt)
    requires Writes(Users, OnTable([older, newer], windows)[m], w)
    ensures w == older
  {
  }

  lemma TwoRowsSeen(windows: seq<Job>, older: Raw, newer: Raw, i: nat, j: nat)
    requires older.User? && newer.User? && older.Key() == newer.Key() && older.Valid() && newer.Valid()
    requires older.ingestedAt < newer.ingestedAt && i < |windows| && j < |windows|
    requires InWindow(windows[i], newer.ingestedAt)
    requires InWindow(windows[j], older.ingestedAt) && !InWindow(windows[j], newer.ingestedAt)
    ensures var jobs := OnTable([older, newer], windows);
            Growing(Users, jobs) && LatestSeen(Users, jobs, newer) && Writes(Users, jobs[j], older)
  {
    var jobs := OnTable([older, newer], windows);
    assert SeenBy(Users, jobs[i], newer);
    assert SeenBy(Users, jobs[j], older);
  }

  /** Under non-decreasing execution times, staging follows the latest row. */
  lemma StagingFollowsLatest(t: Table, jobs: seq<Job>, image: Raw -> Staged,
                             states: seq<map<TargetKey, Staged>>, r: Raw)
    requires Ran(t, jobs, image, states) && Growing(t, jobs)
    requires forall i, j :: 0 <= i < j < |jobs| ==> jobs[i].hi <= jobs[j].hi
    requires LatestSeen(t, jobs, r) && r.Valid()
    ensures Holds(states[|jobs|], r.TargetKey(), image(r))
  {
    OrderedIsCovering(jobs);
    CoveringFollowsLatest(t, jobs, image, states, r);
  }

  // ----- The incremental runs and a full recomputation -----

  /** The window holds the whole raw table. */
  predicate Whole(raw: seq<Raw>, lo: int, hi: int) {
    forall r :: r in raw ==> lo <= r.ingestedAt <= hi
  }

  /** What a build over the whole raw table writes into an empty table. */
  function Recomputed(t: Table, raw: seq<Raw>, lo: int, hi: int, image: Raw -> Staged): map<TargetKey, Staged> {
    Written(map[], Build(t, raw, lo, hi), image)
  }

  ghost predicate InRecompute(t: Table, raw: seq<Raw>, lo: int, hi: int, k: TargetKey) {
    exists r :: r in Build(t, raw, lo, hi) && r.TargetKey() == k
  }

  lemma RecomputedAt(t: Table, raw: seq<Raw>, lo: int, hi: int, image: Raw -> Staged, k: TargetKey)
    requires OneTable(t, raw)
    ensures k in Recomputed(t, raw, lo, hi, image) <==> InRecompute(t, raw, lo, hi, k)
    ensures forall r :: r in Build(t, raw, lo, hi) && r.TargetKey() == k ==>
              Holds(Recomputed(t, raw, lo, hi, image), k, image(r))
  {
    BuildNamesKeysOnce(t, raw, lo, hi);
    WrittenAt(map[], Build(t, raw, lo, hi), image, k);
  }

  lemma BuiltIsLatestSeen(t: Table, jobs: seq<Job>, lo: int, hi: int, r: Raw)
    requires Growing(t, jobs) && jobs != [] && Whole(jobs[|jobs| - 1].raw, lo, hi)
    requires r in Build(t, jobs[|jobs| - 1].raw, lo, hi) && Seen(t, jobs, r)
    ensures LatestSeen(t, jobs, r) && r.Valid()
  {
    var raw := jobs[|jobs| - 1].raw;
    BuildExactly(t, raw, lo, hi, r);
    forall r': Raw | r'.Key() == r.Key() && Seen(t, jobs, r') ensures r'.ingestedAt <= r.ingestedAt {
      var j :| 0 <= j < |jobs| && SeenBy(t, jobs[j], r');
      assert r' in raw && Eligible(t, r', lo, hi);
    }
  }

  /** For customers, orders and events alike: for a row that a recomputation over the whole raw table
      writes, and that some window saw, the incremental runs hold the same. */
  lemma RefinesFullRecompute(t: Table, jobs: seq<Job>, image: Raw -> Staged, states: seq<map<TargetKey, Staged>>,
                             lo: int, hi: int, r: Raw)
    requires Ran(t, jobs, image, states) && Growing(t, jobs) && Covering(jobs) && jobs != []
    requires Whole(jobs[|jobs| - 1].raw, lo, hi)
    requires r in Build(t, jobs[|jobs| - 1].raw, lo, hi) && Seen(t, jobs, r)
    ensures Holds(states[|jobs|], r.TargetKey(), image(r))
    ensures Holds(Recomputed(t, jobs[|jobs| - 1].raw, lo, hi, image), r.TargetKey(), image(r))
  {
    BuiltIsLatestSeen(t, jobs, lo, hi, r);
    CoveringFollowsLatest(t, jobs, image, states, r);
    RecomputedAt(t, jobs[|jobs| - 1].raw, lo, hi, image, r.TargetKey());
  }

  /** Job j writes a row for the key. */
  ghost predicate WritesKey(t: Table, j: Job, k: TargetKey) {
    exists r: Raw :: r.TargetKey() == k && Writes(t, j, r)
  }

  lemma JobKeys(t: Table, j: Job, image: Raw -> Staged, staging: map<TargetKey, Staged>, k: TargetKey)
    requires OneTable(t, j.raw) && UniqueIngest(j.raw)
    ensures k in AfterJob(t, j, image, staging) <==> k in staging || WritesKey(t, j, k)
  {
    var built := Build(t, j.raw, j.lo, j.hi);
    if k in KeysOf(built) {
      var r := RowOf(built, k);
      WritesExactly(t, j, r);
    }
    if r: Raw :| r.TargetKey() == k && Writes(t, j, r) {
      WritesExactly(t, j, r);
    }
  }

  /** One of the first n jobs writes a row for the key. */
  ghost predicate SomeWrites(t: Table, jobs: seq<Job>, n: nat, k: TargetKey)
    requires n <= |jobs|
  {
    exists j :: 0 <= j < n && WritesKey(t, jobs[j], k)
  }

  lemma SomeWritesNext(t: Table, jobs: seq<Job>, n: nat, k: TargetKey)
    requires 0 < n <= |jobs|
    ensures SomeWrites(t, jobs, n, k) <==> SomeWrites(t, jobs, n - 1, k) || WritesKey(t, jobs[n - 1], k)
  {
  }

  lemma StateKeys(t: Table, jobs: seq<Job>, image: Raw -> Staged, states: seq<map<TargetKey, Staged>>,
                  n: nat, k: TargetKey)
    requires Ran(t, jobs, image, states) && 0 < n <= |jobs|
    ensures k in states[n] <==> k in states[n - 1] || WritesKey(t, jobs[n - 1], k)
  {
    assert IsAfter(t, jobs[n - 1], image, states[n - 1], states[n - 1 + 1]);
    JobKeys(t, jobs[n - 1], image, states[n - 1], k);
  }

  /** Staging holds the keys it held before and those that some job writes a row for; none is removed. */
  lemma {:induction false} KeysExactly(t: Table, jobs: seq<Job>, image: Raw -> Staged,
                                       states: seq<map<TargetKey, Staged>>, n: nat, k: TargetKey)
    requires Ran(t, jobs, image, states) && n <= |jobs|
    ensures k in states[n] <==> k in states[0] || SomeWrites(t, jobs, n, k)
  {
    if n > 0 {
      KeysExactly(t, jobs, image, states, n - 1, k);
      StateKeys(t, jobs, image, states, n, k);
      SomeWritesNext(t, jobs, n, k);
    }
  }

  /** The key of a valid customer is in the build of a window over the whole table. */
  lemma ValidCustomerIsBuilt(raw: seq<Raw>, lo: int, hi: int, r: Raw)
    requires UniqueIngest(raw) && OneTable(Users, raw) && Whole(raw, lo, hi) && r in raw && r.Valid()
    ensures InRecompute(Users, raw, lo, hi, r.TargetKey())
  {
    var rows := OnlyValid(Sliced(raw, lo, hi));
    SlicedMember(raw, lo, hi, r);
    OnlyValidMember(Sliced(raw, lo, hi), r);
    BestIsLatest(rows, r.Key());
    var best := Best(rows, r.Key()).value;
    DeduplicatedMember(rows, best);
    OnlyValidMember(Sliced(raw, lo, hi), best);
    SlicedMember(raw, lo, hi, best);
    TargetKeyExactly(best, r);
    assert best in Build(Users, raw, lo, hi);
  }

  /** For customers the incremental runs, from an empty table, are the recomputation: the same keys with
      the same images, when some window saw each row it writes. */
  lemma CustomersEqualRecompute(jobs: seq<Job>, image: Raw -> Staged, states: seq<map<TargetKey, Staged>>,
                                lo: int, hi: int)
    requires Ran(Users, jobs, image, states) && states[0] == map[]
    requires Growing(Users, jobs) && Covering(jobs) && jobs != [] && Whole(jobs[|jobs| - 1].raw, lo, hi)
    requires forall r :: r in Build(Users, jobs[|jobs| - 1].raw, lo, hi) ==> Seen(Users, jobs, r)
    ensures states[|jobs|] == Recomputed(Users, jobs[|jobs| - 1].raw, lo, hi, image)
  {
    var raw := jobs[|jobs| - 1].raw;
    var full := Recomputed(Users, raw, lo, hi, image);
    forall k ensures SameAt(states[|jobs|], full, k) {
      RecomputedAt(Users, raw, lo, hi, image, k);
      if r :| r in Build(Users, raw, lo, hi) && r.TargetKey() == k {
        RefinesFullRecompute(Users, jobs, image, states, lo, hi, r);
      } else {
        KeysExactly(Users, jobs, image, states, |jobs|, k);
        forall j | 0 <= j < |jobs| ensures !WritesKey(Users, jobs[j], k) {
          forall r: Raw | Writes(Users, jobs[j], r) ensures r.TargetKey() != k {
            assert r in raw;
            ValidCustomerIsBuilt(raw, lo, hi, r);
          }
        }
      }
    }
    MapsEqual(states[|jobs|], full);
  }

  lemma MapsEqual(s: map<TargetKey, Staged>, s': map<TargetKey, Staged>)
    requires forall k :: SameAt(s, s', k)
    ensures s == s'
  {
    forall k ensures (k in s <==> k in s') && (k in s ==> s[k] == s'[k]) {
      assert SameAt(s, s', k);
    }
  }

  /** For orders and events they differ: the recomputation drops a key exactly when its latest row is
      invalid, and of those keys the incremental runs keep the ones some job wrote an older row for. */
  lemma StaleKeyExactly(t: Table, jobs: seq<Job>, image: Raw -> Staged, states: seq<map<TargetKey, Staged>>,
                        lo: int, hi: int, latest: Raw)
    requires !FiltersFirst(t) && Ran(t, jobs, image, states) && states[0] == map[]
    requires jobs != [] && Whole(jobs[|jobs| - 1].raw, lo, hi) && latest in jobs[|jobs| - 1].raw
    requires forall r :: r in jobs[|jobs| - 1].raw && r.Key() == latest.Key() ==> r.ingestedAt <= latest.ingestedAt
    ensures latest.TargetKey() in Recomputed(t, jobs[|jobs| - 1].raw, lo, hi, image) <==> latest.Valid()
    ensures latest.TargetKey() in states[|jobs|].Keys - Recomputed(t, jobs[|jobs| - 1].raw, lo, hi, image).Keys <==>
            !latest.Valid() && SomeWrites(t, jobs, |jobs|, latest.TargetKey())
  {
    var raw, k := jobs[|jobs| - 1].raw, latest.TargetKey();
    KeysExactly(t, jobs, image, states, |jobs|, k);
    RecomputedAt(t, raw, lo, hi, image, k);
    BuildExactly(t, raw, lo, hi, latest);
    if r :| r in Build(t, raw, lo, hi) && r.TargetKey() == k {
      BuildExactly(t, raw, lo, hi, r);
      TargetKeyExactly(r, latest);
      assert Eligible(t, latest, lo, hi);
    }
  }

  /** For orders the latest row hides valid older ones: deduplication comes before the checks. */
  lemma InvalidLatestHidesOrder(raw: seq<Raw>, lo: int, hi: int, bad: Raw, r: Raw)
    requires UniqueIngest(raw) && OneTable(Orders, raw)
    requires bad in raw && !bad.Valid() && lo <= bad.ingestedAt <= hi
    requires forall r' :: r' in raw && r'.Key() == bad.Key() && lo <= r'.ingestedAt <= hi ==>
               r'.ingestedAt <= bad.ingestedAt
    requires r.Key() == bad.Key()
    ensures r !in Build(Orders, raw, lo, hi)
  {
    BuildExactly(Orders, raw, lo, hi, r);
    assert Eligible(Orders, bad, lo, hi);
  }

  // ----- The job -----

  /** A builder: the slice of a window, deduplicated and checked, names no key twice. */
  method BuildSlice(t: Table, j: Job) returns (built: seq<Raw>)
    requires OneTable(t, j.raw)
    ensures built == Build(t, j.raw, j.lo, j.hi) && NoKeyTwice(built)
    ensures IsBuildOf(t, j, built)
  {
    built := Build(t, j.raw, j.lo, j.hi);
    BuildIsBuildOf(t, j);
    BuildNamesKeysOnce(t, j.raw, j.lo, j.hi);
  }

  /** Given the primary key of the raw table, the slice holds exactly the rows that the window builds. */
  ghost predicate IsBuildOf(t: Table, j: Job, built: seq<Raw>) {
    UniqueIngest(j.raw) ==> forall r :: r in built <==> Builds(t, j.raw, j.lo, j.hi, r)
  }

  lemma BuildIsBuildOf(t: Table, j: Job)
    requires OneTable(t, j.raw)
    ensures IsBuildOf(t, j, Build(t, j.raw, j.lo, j.hi))
  {
    if UniqueIngest(j.raw) {
      forall r ensures r in Build(t, j.raw, j.lo, j.hi) <==> Builds(t, j.raw, j.lo, j.hi, r) {
        BuiltExactly(t, j.raw, j.lo, j.hi, r);
      }
    }
  }

  /** Given the primary key of the raw table, the job has written what its window builds, and nothing else. */
  ghost predicate IsWrittenBy(t: Table, j: Job, image: Raw -> Staged, before: map<TargetKey, Staged>,
                              after: map<TargetKey, Staged>) {
    UniqueIngest(j.raw) ==> WindowWrites(t, j.raw, j.lo, j.hi, image, before, after)
  }

  lemma JobWritesExactly(t: Table, j: Job, image: Raw -> Staged, before: map<TargetKey, Staged>)
    requires OneTable(t, j.raw)
    ensures IsWrittenBy(t, j, image, before, AfterJob(t, j, image, before))
  {
    if UniqueIngest(j.raw) {
      RunWritesExactly(t, j.raw, j.lo, j.hi, image, before);
    }
  }

  class StagingTable {
    var rows: map<TargetKey, Staged>

    constructor ()
      ensures rows == map[]
    {
      rows := map[];
    }

    /** Through the temporary table and one upsert statement; an empty slice writes nothing. */
    method WriteIncrementalUpsert(built: seq<Raw>, image: Raw -> Staged) returns (r: Result<nat, string>)
      modifies this
      ensures r.Ok? <==> built == [] || NoKeyTwice(built)
      ensures r.Ok? ==> r.value == |built| && rows == Written(old(rows), built, image)
      ensures r.Err? ==> rows == old(rows)
    {
      if built == [] {
        return Ok(0);
      }
      var u := Upserted(rows, built, image);
      if u.Err? {
        return Err(u.error);
      }
      rows := u.value;
      r := Ok(|built|);
    }

    /** One windowed run over one raw table, with a lookback of any length. */
    method RunWindow(t: Table, raw: seq<Raw>, executionTs: int, lookback: int, image: Raw -> Staged) returns (n: nat)
      requires OneTable(t, raw)
      modifies this
      ensures rows == AfterJob(t, Job(raw, executionTs - lookback, executionTs), image, old(rows))
      ensures n == |Build(t, raw, executionTs - lookback, executionTs)|
      ensures IsWrittenBy(t, Job(raw, executionTs - lookback, executionTs), image, old(rows), rows)
    {
      var j := Job(raw, executionTs - lookback, executionTs);
      JobWritesExactly(t, j, image, rows);
      var built := BuildSlice(t, j);
      var r := WriteIncrementalUpsert(built, image);
      n := r.value;
    }
  }
}
