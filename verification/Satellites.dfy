/**
  The SCD2 satellites of the vault.

  A satellite table is a sequence of versions, changed by three SQL statements: the close UPDATE and
  the INSERT of one load transaction, and the reconcile UPDATE of a second transaction.  An
  UPDATE ... FROM that finds several partners for a row may take any of them, so both updates are
  relations between the table before and the table after.
 */
module Satellites {
  import opened Prelude

  datatype Payload =
    | CustomerDetails(customerHash: string, maskedEmail: Option<string>, maskedName: Option<string>)
    | OrderStatus(status: string, totalCents: int, currency: string)

  /** A row of a satellite; `to` is NULL on an open version. */
  datatype Version = Version(
    hk: string, loadDts: int, from: int, to: Option<int>, current: bool,
    hash: string, payload: Payload, source: string)

  /** A row of the temporary inbox table. */
  datatype Incoming = Incoming(hk: string, from: int, hash: string, payload: Payload)

  /** NOW() of the load transaction and the record source it writes. */
  datatype Stamp = Stamp(now: int, source: string)

  type Table = seq<Version>

  // ----- Facts about one table -----

  predicate SameKey(t: Table, i: nat, j: nat)
    requires i < |t| && j < |t|
  {
    t[i].hk == t[j].hk
  }

  predicate Tied(t: Table, i: nat, j: nat)
    requires i < |t| && j < |t|
  {
    i != j && t[i].hk == t[j].hk && t[i].from == t[j].from
  }

  ghost predicate IsTied(t: Table, i: nat)
    requires i < |t|
  {
    exists j :: 0 <= j < |t| && Tied(t, i, j)
  }

  ghost predicate DistinctFrom(t: Table) {
    forall i, j :: 0 <= i < |t| && 0 <= j < |t| ==> !Tied(t, i, j)
  }

  /** Row i is newer than every other row of its key. */
  ghost predicate Newest(t: Table, i: nat)
    requires i < |t|
  {
    forall j :: 0 <= j < |t| && j != i && SameKey(t, i, j) ==> t[j].from < t[i].from
  }

  predicate IsNext(t: Table, hk: string, f: int, n: int) {
    && f < n
    && (exists i :: 0 <= i < |t| && t[i].hk == hk && t[i].from == n)
    && (forall j :: 0 <= j < |t| && t[j].hk == hk ==> t[j].from <= f || n <= t[j].from)
  }

  /** The smallest effective_from of the key that is greater than f. */
  function NextFrom(t: Table, hk: string, f: int): (n: Option<int>)
    ensures n.Some? ==> IsNext(t, hk, f, n.value)
    ensures n.None? ==> forall j :: 0 <= j < |t| && t[j].hk == hk ==> t[j].from <= f
  {
    if t == [] then None
    else
      var r := NextFrom(t[..|t| - 1], hk, f);
      var x := t[|t| - 1];
      assert forall j :: 0 <= j < |t| - 1 ==> t[..|t| - 1][j] == t[j];
      if x.hk == hk && f < x.from && (r.None? || x.from < r.value) then
        Some(x.from)
      else r
  }

  /** The gap-free chain: each version ends where the next one of its key starts, and exactly the
      last version of a key is open and current. */
  ghost predicate Chain(t: Table) {
    DistinctFrom(t) && forall i :: 0 <= i < |t| ==> Linked(t, i)
  }

  /** Row i ends where the next version of its key starts, and is current if there is none. */
  predicate Linked(t: Table, i: nat)
    requires i < |t|
  {
    t[i].to == NextFrom(t, t[i].hk, t[i].from) && (t[i].current <==> t[i].to.None?)
  }

  /** The newest version of every key is open and current; nothing is said of the others. */
  ghost predicate NewestOpen(t: Table) {
    forall i :: 0 <= i < |t| ==> OpenIfNewest(t, i)
  }

  ghost predicate OpenIfNewest(t: Table, i: nat)
    requires i < |t|
  {
    Newest(t, i) ==> t[i].current && t[i].to.None?
  }

  ghost predicate AtMostOneCurrent(t: Table) {
    forall i, j :: 0 <= i < |t| && 0 <= j < |t| && SameKey(t, i, j) && t[i].current && t[j].current ==> i == j
  }

  // ----- UPDATE ... SET effective_to, is_current = FALSE FROM ... -----

  /** Row r becomes r' when m holds the values its join partners offer for effective_to. */
  ghost predicate SetFrom(r: Version, r': Version, m: set<int>) {
    if m == {} then r' == r
    else r'.to.Some? && r'.to.value in m && r' == r.(to := r'.to, current := false)
  }

  function Assign(r: Version, m: set<int>, n: int): Version {
    if m == {} then r else r.(to := Some(n), current := false)
  }

  // ----- The load transaction -----

  function CloseMatches(r: Version, inbox: seq<Incoming>): set<int> {
    set b | b in inbox && r.hk == b.hk && r.current && r.hash != b.hash && r.from < b.from :: b.from
  }

  ghost predicate Closed(t: Table, inbox: seq<Incoming>, t': Table) {
    |t'| == |t| && forall i :: 0 <= i < |t| ==> SetFrom(t[i], t'[i], CloseMatches(t[i], inbox))
  }

  /** The LEFT JOIN on is_current and its WHERE clause: no current row, or one with another hash. */
  predicate Wanted(t: Table, b: Incoming) {
    || (forall i :: 0 <= i < |t| && t[i].hk == b.hk ==> !t[i].current)
    || (exists i :: 0 <= i < |t| && t[i].hk == b.hk && t[i].current && t[i].hash != b.hash)
  }

  predicate LoadedAt(t: Table, hk: string, now: int) {
    exists i :: 0 <= i < |t| && t[i].hk == hk && t[i].loadDts == now
  }

  /** v holds the columns of inbox row b, and was written by the load with stamp s. */
  predicate CopyOf(v: Version, b: Incoming, s: Stamp) {
    && v.hk == b.hk && v.loadDts == s.now && v.from == b.from && v.hash == b.hash && v.source == s.source
    && v.payload == b.payload
  }

  /** And is open and current, as when inserted. */
  predicate IsNew(v: Version, b: Incoming, s: Stamp) {
    CopyOf(v, b, s) && v.to.None? && v.current
  }

  /** INSERT ... SELECT with the join read from `snapshot`, the table as the statement found it, and
      ON CONFLICT (hk, load_dts) DO NOTHING read from the table as it grows. */
  function InsertInto(snapshot: Table, t: Table, inbox: seq<Incoming>, s: Stamp): Table
    decreases |inbox|
  {
    if inbox == [] then t
    else
      var b := inbox[0];
      var v := Version(b.hk, s.now, b.from, None, true, b.hash, b.payload, s.source);
      var t' := if Wanted(snapshot, b) && !LoadedAt(t, b.hk, s.now) then t + [v] else t;
      InsertInto(snapshot, t', inbox[1..], s)
  }

  function Inserted(t: Table, inbox: seq<Incoming>, s: Stamp): Table {
    InsertInto(t, t, inbox, s)
  }

  ghost predicate Loaded(t: Table, inbox: seq<Incoming>, s: Stamp, t': Table) {
    exists mid :: Closed(t, inbox, mid) && t' == Inserted(mid, inbox, s)
  }

  // ----- The reconcile transaction -----

  predicate Rows(t: Table, ord: seq<nat>) {
    forall p :: 0 <= p < |ord| ==> ord[p] < |t|
  }

  /** Distinct rows, in an order ORDER BY effective_from allows. */
  ghost predicate Sorted(t: Table, ord: seq<nat>) {
    && Rows(t, ord)
    && (forall p, q :: 0 <= p < q < |ord| ==> ord[p] != ord[q] && t[ord[p]].from <= t[ord[q]].from)
  }

  /** `ord` is one of the orders in which the window function may see the rows of the key. */
  ghost predicate Ordering(t: Table, hk: string, ord: seq<nat>) {
    && Sorted(t, ord)
    && (forall p :: 0 <= p < |ord| ==> t[ord[p]].hk == hk)
    && (forall i :: 0 <= i < |t| && t[i].hk == hk ==> i in ord)
  }

  /** Inserts row x into an ordering of other rows. */
  function Place(t: Table, ord: seq<nat>, x: nat): (r: seq<nat>)
    requires x < |t| && Rows(t, ord)
    ensures Rows(t, r)
  {
    if ord == [] || t[x].from < t[ord[0]].from then [x] + ord
    else [ord[0]] + Place(t, ord[1..], x)
  }

  function Order(t: Table, hk: string, n: nat): (ord: seq<nat>)
    requires n <= |t|
    ensures Rows(t, ord)
  {
    if n == 0 then []
    else
      var r := Order(t, hk, n - 1);
      if t[n - 1].hk == hk then Place(t, r, n - 1) else r
  }

  predicate LeadAt(t: Table, ord: seq<nat>, p: int, f: int, n: int)
    requires Rows(t, ord)
  {
    0 <= p < |ord| - 1 && t[ord[p]].from == f && t[ord[p + 1]].from == n
  }

  /** The values of next_from, other than NULL, in the rows (hk, f) of the `late` CTE. */
  function LateNexts(t: Table, ord: seq<nat>, f: int): (s: set<int>)
    requires Rows(t, ord)
    ensures forall n :: n in s <==> exists p :: LeadAt(t, ord, p, f, n)
  {
    if |ord| < 2 then {}
    else
      var r := LateNexts(t, ord[1..], f);
      assert forall p, n :: LeadAt(t, ord[1..], p, f, n) ==> LeadAt(t, ord, p + 1, f, n);
      assert forall p, n :: LeadAt(t, ord, p, f, n) && p > 0 ==> LeadAt(t, ord[1..], p - 1, f, n);
      if t[ord[0]].from == f then
        assert LeadAt(t, ord, 0, f, t[ord[1]].from);
        {t[ord[1]].from} + r
      else r
  }

  function ReconcileMatches(t: Table, r: Version): set<int> {
    set n | n in LateNexts(t, Order(t, r.hk, |t|), r.from) && (r.to != Some(n) || r.current)
  }

  ghost predicate Reconciled(t: Table, t': Table) {
    |t'| == |t| && forall i :: 0 <= i < |t| ==> SetFrom(t[i], t'[i], ReconcileMatches(t, t[i]))
  }

  // ----- LEAD -----

  lemma {:induction false} PlaceMembers(t: Table, ord: seq<nat>, x: nat, i: nat)
    requires x < |t| && Rows(t, ord)
    ensures i in Place(t, ord, x) <==> i == x || i in ord
  {
    if ord != [] && t[ord[0]].from <= t[x].from {
      PlaceMembers(t, ord[1..], x, i);
    }
  }

  lemma {:induction false} OrderMembers(t: Table, hk: string, n: nat, i: nat)
    requires n <= |t|
    ensures i in Order(t, hk, n) <==> i < n && t[i].hk == hk
  {
    if n > 0 {
      OrderMembers(t, hk, n - 1, i);
      PlaceMembers(t, Order(t, hk, n - 1), n - 1, i);
    }
  }

  lemma {:induction false} PlaceSorted(t: Table, ord: seq<nat>, x: nat)
    requires x < |t| && x !in ord && Sorted(t, ord)
    ensures Sorted(t, Place(t, ord, x))
  {
    if ord != [] && t[ord[0]].from <= t[x].from {
      PlaceSorted(t, ord[1..], x);
      var r := Place(t, ord[1..], x);
      forall p | 0 <= p < |r| ensures ord[0] != r[p] && r[p] < |t| && t[ord[0]].from <= t[r[p]].from {
        PlaceMembers(t, ord[1..], x, r[p]);
      }
    }
  }

  lemma {:induction false} OrderIsSorted(t: Table, hk: string, n: nat)
    requires n <= |t|
    ensures Sorted(t, Order(t, hk, n))
  {
    if n > 0 {
      OrderIsSorted(t, hk, n - 1);
      if t[n - 1].hk == hk {
        OrderMembers(t, hk, n - 1, n - 1);
        PlaceSorted(t, Order(t, hk, n - 1), n - 1);
      }
    }
  }

  lemma OrderIsOrdering(t: Table, hk: string)
    ensures Ordering(t, hk, Order(t, hk, |t|))
  {
    OrderIsSorted(t, hk, |t|);
    forall i | 0 <= i < |t| ensures t[i].hk == hk <==> i in Order(t, hk, |t|) {
      OrderMembers(t, hk, |t|, i);
    }
    forall p | 0 <= p < |Order(t, hk, |t|)| ensures t[Order(t, hk, |t|)[p]].hk == hk {
      OrderMembers(t, hk, |t|, Order(t, hk, |t|)[p]);
    }
  }

  /** The last position in the ordering of the effective_from of row i. */
  lemma LastPosition(t: Table, i: nat, ord: seq<nat>) returns (q: nat)
    requires i < |t| && Ordering(t, t[i].hk, ord)
    ensures q < |ord| && t[ord[q]].from == t[i].from
    ensures q + 1 == |ord| || t[i].from < t[ord[q + 1]].from
  {
    q :| 0 <= q < |ord| && ord[q] == i;
    while q + 1 < |ord| && t[ord[q + 1]].from == t[i].from
      invariant q < |ord| && t[ord[q]].from == t[i].from
    {
      q := q + 1;
    }
  }

  lemma NextUnique(t: Table, hk: string, f: int, n: int)
    requires IsNext(t, hk, f, n)
    ensures NextFrom(t, hk, f) == Some(n)
  {
    var i :| 0 <= i < |t| && t[i].hk == hk && t[i].from == n;
    var r := NextFrom(t, hk, f);
    if r.Some? {
      var j :| 0 <= j < |t| && t[j].hk == hk && t[j].from == r.value;
    }
  }

  lemma NothingBetween(t: Table, hk: string, ord: seq<nat>, p: nat, k: nat)
    requires Ordering(t, hk, ord) && p + 1 < |ord| && k < |t| && t[k].hk == hk
    ensures t[k].from <= t[ord[p]].from || t[ord[p + 1]].from <= t[k].from
  {
    var q :| 0 <= q < |ord| && ord[q] == k;
    if q < p || p + 1 < q {
    }
  }

  lemma LeadOffers(t: Table, i: nat, ord: seq<nat>, p: nat)
    requires i < |t| && Ordering(t, t[i].hk, ord) && p + 1 < |ord| && t[ord[p]].from == t[i].from
    ensures var n := t[ord[p + 1]].from;
            if n == t[i].from then IsTied(t, i)
            else NextFrom(t, t[i].hk, t[i].from) == Some(n)
  {
    var a, b := ord[p], ord[p + 1];
    if t[b].from == t[i].from {
      assert Tied(t, i, if a != i then a else b);
    } else {
      forall k | 0 <= k < |t| && t[k].hk == t[i].hk ensures t[k].from <= t[a].from || t[b].from <= t[k].from {
        NothingBetween(t, t[i].hk, ord, p, k);
      }
      NextUnique(t, t[i].hk, t[i].from, t[b].from);
    }
  }

  lemma LeadOffersTie(t: Table, i: nat, j: nat, ord: seq<nat>)
    requires i < |t| && j < |t| && Tied(t, i, j) && Ordering(t, t[i].hk, ord)
    ensures t[i].from in LateNexts(t, ord, t[i].from)
  {
    var p :| 0 <= p < |ord| && ord[p] == i;
    var q :| 0 <= q < |ord| && ord[q] == j;
    assert LeadAt(t, ord, if p < q then p else q, t[i].from, t[i].from);
  }

  lemma LeadOffersNext(t: Table, i: nat, ord: seq<nat>)
    requires i < |t| && Ordering(t, t[i].hk, ord)
    ensures var n := NextFrom(t, t[i].hk, t[i].from);
            n.Some? ==> n.value in LateNexts(t, ord, t[i].from)
  {
    var n := NextFrom(t, t[i].hk, t[i].from);
    if n.Some? {
      var m := LastPosition(t, i, ord);
      var k :| 0 <= k < |t| && t[k].hk == t[i].hk && t[k].from == n.value;
      var q :| 0 <= q < |ord| && ord[q] == k;
      assert m < q;
      assert LeadAt(t, ord, m, t[i].from, n.value);
    }
  }

  /** What LEAD offers row i: the next effective_from of its key, and its own one when it is tied,
      whatever the order among tied rows. */
  lemma {:induction false} LeadExact(t: Table, i: nat, ord: seq<nat>, n: int)
    requires i < |t| && Ordering(t, t[i].hk, ord)
    ensures n in LateNexts(t, ord, t[i].from) <==>
            (n == t[i].from && IsTied(t, i)) || NextFrom(t, t[i].hk, t[i].from) == Some(n)
  {
    if n in LateNexts(t, ord, t[i].from) {
      var p :| LeadAt(t, ord, p, t[i].from, n);
      LeadOffers(t, i, ord, p);
    }
    if j :| 0 <= j < |t| && Tied(t, i, j) {
      LeadOffersTie(t, i, j, ord);
    }
    LeadOffersNext(t, i, ord);
  }

  // ----- What one reconcile does, from any table -----

  /** Same row, except for effective_to and is_current. */
  predicate SameVersion(a: Version, b: Version) {
    b == a.(to := b.to, current := b.current)
  }

  lemma NotNewest(t: Table, i: nat)
    requires i < |t| && !Newest(t, i)
    ensures IsTied(t, i) || NextFrom(t, t[i].hk, t[i].from).Some?
  {
    var j :| 0 <= j < |t| && j != i && SameKey(t, i, j) && t[i].from <= t[j].from;
    if t[j].from == t[i].from {
      assert Tied(t, i, j);
    }
  }

  /** The partners of row i: what LEAD offers it, unless it is already closed there. */
  lemma MatchesExactly(t: Table, i: nat, n: int)
    requires i < |t|
    ensures n in ReconcileMatches(t, t[i]) <==>
            && ((n == t[i].from && IsTied(t, i)) || NextFrom(t, t[i].hk, t[i].from) == Some(n))
            && (t[i].to != Some(n) || t[i].current)
  {
    OrderIsOrdering(t, t[i].hk);
    LeadExact(t, i, Order(t, t[i].hk, |t|), n);
  }

  lemma NewestHasNoMatch(t: Table, i: nat)
    requires i < |t| && Newest(t, i)
    ensures ReconcileMatches(t, t[i]) == {}
  {
    NewestHasNoNext(t, i);
    forall n ensures n !in ReconcileMatches(t, t[i]) {
      MatchesExactly(t, i, n);
    }
  }

  lemma NewestHasNoNext(t: Table, i: nat)
    requires i < |t| && Newest(t, i)
    ensures NextFrom(t, t[i].hk, t[i].from).None? && !IsTied(t, i)
  {
    var n := NextFrom(t, t[i].hk, t[i].from);
    assert n.Some? ==> IsNext(t, t[i].hk, t[i].from, n.value);
    assert forall j :: 0 <= j < |t| && t[j].hk == t[i].hk && j != i ==> SameKey(t, i, j);
  }

  /** The newest version of a key is left alone; any other is closed, at the next effective_from of
      the key or, when it is tied, possibly at its own. */
  lemma ReconcileRow(t: Table, t': Table, i: nat)
    requires Reconciled(t, t') && i < |t|
    ensures SameVersion(t[i], t'[i])
    ensures Newest(t, i) ==> t'[i] == t[i]
    ensures !Newest(t, i) ==> !t'[i].current && t'[i].to.Some?
    ensures !Newest(t, i) ==>
              || NextFrom(t, t[i].hk, t[i].from) == t'[i].to
              || (t'[i].to.value == t[i].from && IsTied(t, i))
  {
    assert SetFrom(t[i], t'[i], ReconcileMatches(t, t[i]));
    if Newest(t, i) {
      NewestHasNoMatch(t, i);
    } else {
      NotNewest(t, i);
      var next := NextFrom(t, t[i].hk, t[i].from);
      MatchesExactly(t, i, if next.Some? then next.value else t[i].from);
      MatchesExactly(t, i, if t'[i].to.Some? then t'[i].to.value else 0);
    }
  }

  /** A row is current after a reconcile exactly when it was and is the newest of its key. */
  lemma ReconcileCurrentExact(t: Table, t': Table, i: nat)
    requires Reconciled(t, t') && i < |t|
    ensures t'[i].current <==> t[i].current && Newest(t, i)
  {
    ReconcileRow(t, t', i);
  }

  /** Whatever the table, one reconcile leaves at most one current row per key. */
  lemma ReconcileAtMostOneCurrent(t: Table, t': Table)
    requires Reconciled(t, t')
    ensures AtMostOneCurrent(t')
  {
    forall i, j | 0 <= i < |t'| && 0 <= j < |t'| && SameKey(t', i, j) && t'[i].current && t'[j].current
      ensures i == j
    {
      ReconcileRow(t, t', i);
      ReconcileRow(t, t', j);
      assert i != j ==> SameKey(t, i, j) && SameKey(t, j, i);
    }
  }

  lemma {:induction false} NextFromStable(t: Table, t': Table, hk: string, f: int)
    requires |t'| == |t| && forall i :: 0 <= i < |t| ==> SameVersion(t[i], t'[i])
    ensures NextFrom(t', hk, f) == NextFrom(t, hk, f)
  {
    if t != [] {
      NextFromStable(t[..|t| - 1], t'[..|t| - 1], hk, f);
    }
  }

  lemma SameTies(t: Table, t': Table)
    requires |t'| == |t| && forall i :: 0 <= i < |t| ==> SameVersion(t[i], t'[i])
    ensures forall i, j :: 0 <= i < |t| && 0 <= j < |t| ==> (Tied(t', i, j) <==> Tied(t, i, j))
    ensures forall i :: 0 <= i < |t| ==> (Newest(t', i) <==> Newest(t, i))
  {
    forall i | 0 <= i < |t| ensures Newest(t', i) <==> Newest(t, i) {
      assert forall j :: 0 <= j < |t| ==> (SameKey(t', i, j) <==> SameKey(t, i, j));
    }
  }

  lemma ReconcileKeepsVersions(t: Table, t': Table)
    requires Reconciled(t, t')
    ensures forall i :: 0 <= i < |t| ==> SameVersion(t[i], t'[i]) && (t'[i].current ==> t[i].current)
  {
    forall i | 0 <= i < |t| ensures SameVersion(t[i], t'[i]) && (t'[i].current ==> t[i].current) {
      ReconcileRow(t, t', i);
    }
  }

  lemma NewestIffNoNext(t: Table, i: nat)
    requires DistinctFrom(t) && i < |t|
    ensures Newest(t, i) <==> NextFrom(t, t[i].hk, t[i].from).None?
  {
    if !Newest(t, i) {
      NotNewest(t, i);
    } else if NextFrom(t, t[i].hk, t[i].from).Some? {
      var n := NextFrom(t, t[i].hk, t[i].from).value;
      var j :| 0 <= j < |t| && t[j].hk == t[i].hk && t[j].from == n;
      assert SameKey(t, i, j);
    } else {
      forall j | 0 <= j < |t| && j != i && SameKey(t, i, j) ensures t[j].from < t[i].from {
        assert !Tied(t, i, j);
      }
    }
  }

  lemma LinkedAfterReconcile(t: Table, t': Table, i: nat)
    requires Reconciled(t, t') && DistinctFrom(t) && i < |t|
    ensures Linked(t', i) <==> OpenIfNewest(t, i)
  {
    ReconcileKeepsVersions(t, t');
    ReconcileRow(t, t', i);
    NextFromStable(t, t', t[i].hk, t[i].from);
    NewestIffNoNext(t, i);
  }

  lemma DistinctStays(t: Table, t': Table)
    requires |t'| == |t| && forall i :: 0 <= i < |t| ==> SameVersion(t[i], t'[i])
    ensures DistinctFrom(t') <==> DistinctFrom(t)
  {
    assert forall i, j :: 0 <= i < |t| && 0 <= j < |t| ==> (Tied(t', i, j) <==> Tied(t, i, j));
  }

  /** Reconcile turns a table into a chain exactly when no two versions of a key are tied and the
      newest version of each key is open and current: it repairs any damage to the others. */
  lemma ReconcileRepairsExactly(t: Table, t': Table)
    requires Reconciled(t, t')
    ensures Chain(t') <==> DistinctFrom(t) && NewestOpen(t)
  {
    ReconcileKeepsVersions(t, t');
    DistinctStays(t, t');
    if DistinctFrom(t) {
      forall i | 0 <= i < |t| ensures Linked(t', i) <==> OpenIfNewest(t, i) {
        LinkedAfterReconcile(t, t', i);
      }
    }
  }

  lemma LinkedRowStays(t: Table, t': Table, i: nat)
    requires Reconciled(t, t') && DistinctFrom(t) && i < |t| && Linked(t, i)
    ensures t'[i] == t[i]
  {
    ReconcileRow(t, t', i);
    NewestIffNoNext(t, i);
    assert !Newest(t, i) ==> t'[i].to == t[i].to && t'[i].current == t[i].current;
  }

  /** Reconcile does nothing to a chain. */
  lemma ReconcileChain(t: Table, t': Table)
    requires Reconciled(t, t') && Chain(t)
    ensures t' == t
  {
    forall i | 0 <= i < |t| ensures t'[i] == t[i] {
      LinkedRowStays(t, t', i);
    }
  }

  /** Two versions of a key share an effective_from that is not the last of the key. */
  ghost predicate InnerTie(t: Table) {
    exists i :: 0 <= i < |t| && IsTied(t, i) && NextFrom(t, t[i].hk, t[i].from).Some?
  }

  /** A row with one candidate for effective_to is closed there once and for all. */
  lemma SettledRow(t1: Table, t2: Table, i: nat)
    requires Reconciled(t1, t2) && i < |t1| && t1[i].to.Some? && !t1[i].current
    requires forall n :: n in ReconcileMatches(t1, t1[i]) ==> t1[i].to == Some(n)
    ensures t2[i] == t1[i]
  {
    assert SetFrom(t1[i], t2[i], ReconcileMatches(t1, t1[i]));
    forall n ensures n !in ReconcileMatches(t1, t1[i]) {
      MatchesExactly(t1, i, n);
    }
  }

  /** A row with two takes the other one, at every reconcile. */
  lemma UnsettledRow(t1: Table, t2: Table, i: nat)
    requires Reconciled(t1, t2) && i < |t1|
    ensures IsTied(t1, i) && NextFrom(t1, t1[i].hk, t1[i].from).Some? ==> t2[i] != t1[i]
  {
    var next := NextFrom(t1, t1[i].hk, t1[i].from);
    if IsTied(t1, i) && next.Some? {
      assert SetFrom(t1[i], t2[i], ReconcileMatches(t1, t1[i]));
      MatchesExactly(t1, i, if t1[i].to == next then t1[i].from else next.value);
      MatchesExactly(t1, i, if t2[i].to.Some? then t2[i].to.value else 0);
    }
  }

  lemma SameNeighbours(t: Table, t1: Table, i: nat)
    requires Reconciled(t, t1) && i < |t|
    ensures IsTied(t1, i) <==> IsTied(t, i)
    ensures Newest(t1, i) <==> Newest(t, i)
    ensures NextFrom(t1, t1[i].hk, t1[i].from) == NextFrom(t, t[i].hk, t[i].from)
    ensures t1[i].hk == t[i].hk && t1[i].from == t[i].from
  {
    ReconcileKeepsVersions(t, t1);
    SameTies(t, t1);
    NextFromStable(t, t1, t[i].hk, t[i].from);
  }

  lemma SecondReconcileRow(t: Table, t1: Table, t2: Table, i: nat)
    requires Reconciled(t, t1) && Reconciled(t1, t2) && i < |t|
    ensures t2[i] == t1[i] <==> !(IsTied(t, i) && NextFrom(t, t[i].hk, t[i].from).Some?)
  {
    SameNeighbours(t, t1, i);
    if IsTied(t, i) && NextFrom(t, t[i].hk, t[i].from).Some? {
      UnsettledRow(t1, t2, i);
    } else if Newest(t, i) {
      ReconcileRow(t1, t2, i);
    } else {
      NotNewest(t, i);
      ReconcileRow(t, t1, i);
      forall n | n in ReconcileMatches(t1, t1[i]) ensures t1[i].to == Some(n) {
        MatchesExactly(t1, i, n);
      }
      SettledRow(t1, t2, i);
    }
  }

  /** A second reconcile changes nothing exactly when there is no inner tie; with one, PostgreSQL
      moves effective_to of the tied rows back and forth for ever. */
  lemma ReconcileIdempotentExactly(t: Table, t1: Table, t2: Table)
    requires Reconciled(t, t1) && Reconciled(t1, t2)
    ensures t2 == t1 <==> !InnerTie(t)
  {
    forall i | 0 <= i < |t|
      ensures t2[i] == t1[i] <==> !(IsTied(t, i) && NextFrom(t, t[i].hk, t[i].from).Some?)
    {
      SecondReconcileRow(t, t1, t2, i);
    }
    if InnerTie(t) {
      var i :| 0 <= i < |t| && IsTied(t, i) && NextFrom(t, t[i].hk, t[i].from).Some?;
      assert t2[i] != t1[i];
    }
  }

  /** With a tie for the last effective_from of a key, a reconcile leaves the key no current version. */
  lemma TieLeavesNoneCurrent(t: Table, t': Table, i: nat)
    requires Reconciled(t, t') && i < |t| && IsTied(t, i)
    requires NextFrom(t, t[i].hk, t[i].from).None?
    ensures forall j :: 0 <= j < |t'| && t'[j].hk == t[i].hk ==> !t'[j].current
  {
    var k :| 0 <= k < |t| && Tied(t, i, k);
    forall j | 0 <= j < |t'| && t'[j].hk == t[i].hk ensures !t'[j].current {
      ReconcileRow(t, t', j);
      assert SameKey(t, j, i) && SameKey(t, j, k);
    }
  }
}
