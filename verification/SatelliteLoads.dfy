/** When a load, and a load followed by a reconcile, keep the chain of versions. */
module SatelliteLoads {
  import opened Prelude
  import opened Satellites

  // ----- What one load does -----

  /** The inbox holds one row per key, as the primary key of the staging table makes it. */
  ghost predicate OneRowPerKey(inbox: seq<Incoming>) {
    forall a, b :: a in inbox && b in inbox && a.hk == b.hk ==> a == b
  }

  ghost predicate Prefix(t: Table, r: Table) {
    |t| <= |r| && forall i :: 0 <= i < |t| ==> r[i] == t[i]
  }

  ghost predicate FromInbox(snapshot: Table, inbox: seq<Incoming>, s: Stamp, v: Version) {
    exists b :: b in inbox && Wanted(snapshot, b) && IsNew(v, b, s)
  }

  lemma LoadedStays(t: Table, r: Table, hk: string, now: int)
    requires Prefix(t, r) && LoadedAt(t, hk, now)
    ensures LoadedAt(r, hk, now)
  {
    var i :| 0 <= i < |t| && t[i].hk == hk && t[i].loadDts == now;
    assert r[i] == t[i];
  }

  /** The insert only appends; it appends wanted inbox rows, at most one per key and none whose
      (hk, load_dts) is taken; and afterwards every wanted (hk, load_dts) is taken. */
  lemma {:induction false} InsertFacts(snapshot: Table, t: Table, inbox: seq<Incoming>, s: Stamp)
    ensures var r := InsertInto(snapshot, t, inbox, s);
            && Prefix(t, r)
            && (forall k :: |t| <= k < |r| ==> !LoadedAt(t, r[k].hk, s.now))
            && (forall k :: |t| <= k < |r| ==> FromInbox(snapshot, inbox, s, r[k]))
            && (forall k, l :: |t| <= k < l < |r| ==> r[k].hk != r[l].hk)
            && (forall b :: b in inbox && Wanted(snapshot, b) ==> LoadedAt(r, b.hk, s.now))
    decreases |inbox|
  {
    if inbox != [] {
      var b := inbox[0];
      var add := Wanted(snapshot, b) && !LoadedAt(t, b.hk, s.now);
      var v := Version(b.hk, s.now, b.from, None, true, b.hash, b.payload, s.source);
      var t1 := if add then t + [v] else t;
      var r := InsertInto(snapshot, t1, inbox[1..], s);
      InsertFacts(snapshot, t1, inbox[1..], s);
      assert Prefix(t, t1);
      if add {
        assert IsNew(t1[|t|], b, s);
        assert LoadedAt(t1, b.hk, s.now);
      }
      if Wanted(snapshot, b) {
        LoadedStays(t1, r, b.hk, s.now);
      }
      forall k | |t| <= k < |r|
        ensures !LoadedAt(t, r[k].hk, s.now) && FromInbox(snapshot, inbox, s, r[k])
      {
        if k < |t1| {
          assert r[k] == t1[k] && IsNew(t1[k], b, s);
        } else {
          if LoadedAt(t, r[k].hk, s.now) {
            LoadedStays(t, t1, r[k].hk, s.now);
          }
          var b' :| b' in inbox[1..] && Wanted(snapshot, b') && IsNew(r[k], b', s);
        }
      }
    }
  }

  /** A wanted inbox row whose (hk, load_dts) is free is in the table after the insert. */
  lemma InsertedRow(t: Table, inbox: seq<Incoming>, s: Stamp, b: Incoming) returns (k: nat)
    requires OneRowPerKey(inbox) && b in inbox && Wanted(t, b) && !LoadedAt(t, b.hk, s.now)
    ensures |t| <= k < |Inserted(t, inbox, s)| && IsNew(Inserted(t, inbox, s)[k], b, s)
  {
    var r := Inserted(t, inbox, s);
    InsertFacts(t, t, inbox, s);
    k :| 0 <= k < |r| && r[k].hk == b.hk && r[k].loadDts == s.now;
    var b' :| b' in inbox && Wanted(t, b') && IsNew(r[k], b', s);
  }

  lemma CloseRow(t: Table, inbox: seq<Incoming>, mid: Table, i: nat)
    requires Closed(t, inbox, mid) && i < |t|
    ensures SameVersion(t[i], mid[i])
    ensures !t[i].current ==> mid[i] == t[i]
    ensures mid[i] != t[i] ==> !mid[i].current
    ensures mid[i] != t[i] ==> exists b :: b in inbox && b.hk == t[i].hk && b.hash != t[i].hash &&
                                           t[i].from < b.from && mid[i].to == Some(b.from)
    ensures forall b :: b in inbox && b.hk == t[i].hk && t[i].current && b.hash != t[i].hash && t[i].from < b.from
                        ==> !mid[i].current
  {
    var m := CloseMatches(t[i], inbox);
    if b :| b in inbox && b.hk == t[i].hk && t[i].current && b.hash != t[i].hash && t[i].from < b.from {
      assert b.from in m;
    }
  }

  /** The current version of the key, when there is one, is older than the inbox row. */
  predicate Supersedes(t: Table, b: Incoming) {
    exists i :: 0 <= i < |t| && t[i].hk == b.hk && t[i].current && t[i].from < b.from
  }

  /** Closing first does not change which inbox rows the insert wants. */
  lemma WantedAfterClose(t: Table, inbox: seq<Incoming>, mid: Table, b: Incoming)
    requires Closed(t, inbox, mid) && AtMostOneCurrent(t) && OneRowPerKey(inbox) && b in inbox
    ensures Wanted(mid, b) <==> Wanted(t, b)
    ensures forall now :: LoadedAt(mid, b.hk, now) <==> LoadedAt(t, b.hk, now)
  {
    forall i | 0 <= i < |t|
      ensures SameVersion(t[i], mid[i])
      ensures !t[i].current ==> !mid[i].current
      ensures t[i].hk == b.hk && t[i].current && t[i].hash == b.hash ==> mid[i] == t[i]
    {
      CloseRow(t, inbox, mid, i);
    }
    if i :| 0 <= i < |t| && t[i].hk == b.hk && t[i].current {
      assert forall j :: 0 <= j < |t| && t[j].hk == b.hk && t[j].current ==> SameKey(t, i, j);
    }
    forall now ensures LoadedAt(mid, b.hk, now) <==> LoadedAt(t, b.hk, now) {
      if i :| 0 <= i < |t| && t[i].hk == b.hk && t[i].loadDts == now {
        assert mid[i].hk == b.hk && mid[i].loadDts == now;
      }
    }
  }

  lemma ChainIsNewestOpen(t: Table)
    ensures Chain(t) ==> NewestOpen(t)
  {
    if Chain(t) {
      forall i | 0 <= i < |t| ensures OpenIfNewest(t, i) {
        assert Linked(t, i);
        NewestIffNoNext(t, i);
      }
    }
  }

  lemma ChainHasOneCurrent(t: Table)
    ensures Chain(t) ==> AtMostOneCurrent(t)
    ensures Chain(t) ==> forall i :: 0 <= i < |t| ==> (t[i].current <==> Newest(t, i))
  {
    if Chain(t) {
      forall i | 0 <= i < |t| ensures t[i].current <==> Newest(t, i) {
        assert Linked(t, i);
        NewestIffNoNext(t, i);
      }
      NewestIsUnique(t);
    }
  }

  lemma NewestIsUnique(t: Table)
    requires forall i :: 0 <= i < |t| ==> (t[i].current <==> Newest(t, i))
    ensures AtMostOneCurrent(t)
  {
    forall i, j | 0 <= i < |t| && 0 <= j < |t| && SameKey(t, i, j) && t[i].current && t[j].current
      ensures i == j
    {
      assert i != j ==> SameKey(t, j, i);
    }
  }

  // ----- Load and reconcile on a chain -----

  ghost predicate FreeSlot(t: Table, b: Incoming) {
    forall i :: 0 <= i < |t| && t[i].hk == b.hk ==> t[i].from != b.from
  }

  /** When load then reconcile keeps the chain of the key of b: nothing is wanted of b; or b ties with
      no version; or, its (hk, load_dts) being taken, b is dropped after having closed nothing. */
  ghost predicate Sound(t: Table, b: Incoming, now: int) {
    Wanted(t, b) ==> if LoadedAt(t, b.hk, now) then !Supersedes(t, b) else FreeSlot(t, b)
  }

  /** When load alone does: b is also newer than every version of its key. */
  ghost predicate InOrder(t: Table, b: Incoming, now: int) {
    Wanted(t, b) ==>
      if LoadedAt(t, b.hk, now) then !Supersedes(t, b)
      else forall i :: 0 <= i < |t| && t[i].hk == b.hk ==> t[i].from < b.from
  }

  /** The rows of a loaded table: old ones, kept or closed, then new ones. */
  ghost predicate LoadShape(t: Table, inbox: seq<Incoming>, s: Stamp, t1: Table) {
    && |t| <= |t1|
    && OldRows(t, inbox, t1)
    && NewRows(t, inbox, s, t1)
    && forall b :: b in inbox && Wanted(t, b) && !LoadedAt(t, b.hk, s.now) ==> Added(t, t1, b, s)
  }

  ghost predicate OldRows(t: Table, inbox: seq<Incoming>, t1: Table)
    requires |t| <= |t1|
  {
    && (forall i :: 0 <= i < |t| ==> SameVersion(t[i], t1[i]))
    && (forall i :: 0 <= i < |t| && !t[i].current ==> t1[i] == t[i])
    && (forall i :: 0 <= i < |t| && t1[i] != t[i] ==> ClosedBy(inbox, t[i], t1[i]))
    && (forall i, b :: 0 <= i < |t| && b in inbox && Closes(b, t[i]) ==> !t1[i].current)
  }

  ghost predicate NewRows(t: Table, inbox: seq<Incoming>, s: Stamp, t1: Table)
    requires |t| <= |t1|
  {
    && (forall k :: |t| <= k < |t1| ==> FromInbox(t, inbox, s, t1[k]))
    && (forall k :: |t| <= k < |t1| ==> !LoadedAt(t, t1[k].hk, s.now))
    && (forall k, l :: |t| <= k < l < |t1| ==> t1[k].hk != t1[l].hk)
  }

  ghost predicate Added(t: Table, t1: Table, b: Incoming, s: Stamp) {
    exists k :: |t| <= k < |t1| && IsNew(t1[k], b, s)
  }

  predicate Closes(b: Incoming, v: Version) {
    b.hk == v.hk && v.current && b.hash != v.hash && v.from < b.from
  }

  ghost predicate ClosedBy(inbox: seq<Incoming>, v: Version, v': Version) {
    !v'.current && exists b :: b in inbox && Closes(b, v) && v'.to == Some(b.from)
  }

  lemma LoadOldRows(t: Table, inbox: seq<Incoming>, s: Stamp, mid: Table)
    requires Closed(t, inbox, mid)
    ensures |t| <= |Inserted(mid, inbox, s)| && OldRows(t, inbox, Inserted(mid, inbox, s))
  {
    var t1 := Inserted(mid, inbox, s);
    InsertFacts(mid, mid, inbox, s);
    forall i | 0 <= i < |t|
      ensures SameVersion(t[i], t1[i]) && (!t[i].current ==> t1[i] == t[i])
      ensures t1[i] != t[i] ==> ClosedBy(inbox, t[i], t1[i])
      ensures forall b :: b in inbox && Closes(b, t[i]) ==> !t1[i].current
    {
      CloseRow(t, inbox, mid, i);
    }
  }

  lemma LoadNewRows(t: Table, inbox: seq<Incoming>, s: Stamp, mid: Table)
    requires AtMostOneCurrent(t) && OneRowPerKey(inbox) && Closed(t, inbox, mid)
    ensures |t| <= |Inserted(mid, inbox, s)| && NewRows(t, inbox, s, Inserted(mid, inbox, s))
  {
    var t1 := Inserted(mid, inbox, s);
    InsertFacts(mid, mid, inbox, s);
    forall k | |t| <= k < |t1| ensures !LoadedAt(t, t1[k].hk, s.now) && FromInbox(t, inbox, s, t1[k]) {
      assert FromInbox(mid, inbox, s, t1[k]);
      var b :| b in inbox && Wanted(mid, b) && IsNew(t1[k], b, s);
      WantedAfterClose(t, inbox, mid, b);
    }
  }

  lemma LoadHasShape(t: Table, inbox: seq<Incoming>, s: Stamp, t1: Table)
    requires AtMostOneCurrent(t) && OneRowPerKey(inbox) && Loaded(t, inbox, s, t1)
    ensures LoadShape(t, inbox, s, t1)
  {
    var mid :| Closed(t, inbox, mid) && t1 == Inserted(mid, inbox, s);
    LoadOldRows(t, inbox, s, mid);
    LoadNewRows(t, inbox, s, mid);
    forall b | b in inbox && Wanted(t, b) && !LoadedAt(t, b.hk, s.now) ensures Added(t, t1, b, s) {
      WantedAfterClose(t, inbox, mid, b);
      var k := InsertedRow(mid, inbox, s, b);
    }
  }

  /** The current version of the key already has the hash of b. */
  predicate AlreadyCurrent(t: Table, b: Incoming) {
    exists i :: 0 <= i < |t| && t[i].hk == b.hk && t[i].current && t[i].hash == b.hash
  }

  ghost predicate IsCopy(inbox: seq<Incoming>, s: Stamp, v: Version) {
    exists b :: b in inbox && CopyOf(v, b, s)
  }

  ghost predicate HasCopy(t: Table, t1: Table, b: Incoming, s: Stamp) {
    exists k :: |t| <= k < |t1| && CopyOf(t1[k], b, s)
  }

  /** Behind the rows of t come versions of inbox rows, column by column, no two of one key; an inbox row
      has one exactly when its hash is not that of the current version of its key and no version of the key
      was loaded at this instant. */
  ghost predicate Stores(t: Table, inbox: seq<Incoming>, s: Stamp, t1: Table) {
    && |t| <= |t1|
    && (forall k :: |t| <= k < |t1| ==> IsCopy(inbox, s, t1[k]))
    && (forall k, l :: |t| <= k < l < |t1| ==> t1[k].hk != t1[l].hk)
    && (forall b :: b in inbox ==>
          (HasCopy(t, t1, b, s) <==>
           !AlreadyCurrent(t, b) && !exists i :: 0 <= i < |t| && t[i].hk == b.hk && t[i].loadDts == s.now))
  }

  ghost predicate NewAreOpen(t: Table, t1: Table) {
    forall k :: |t| <= k < |t1| ==> t1[k].to.None? && t1[k].current
  }

  /** From a table with at most one current row per key, and an inbox with one row per key, the load stores
      as above, and what it stores is open and current. */
  ghost predicate LoadStores(t: Table, inbox: seq<Incoming>, s: Stamp, t1: Table) {
    AtMostOneCurrent(t) && OneRowPerKey(inbox) ==> Stores(t, inbox, s, t1) && NewAreOpen(t, t1)
  }

  lemma WantedExactly(t: Table, b: Incoming)
    requires AtMostOneCurrent(t)
    ensures Wanted(t, b) <==> !AlreadyCurrent(t, b)
  {
    if i :| 0 <= i < |t| && t[i].hk == b.hk && t[i].current {
      assert forall j :: 0 <= j < |t| && t[j].hk == b.hk && t[j].current ==> SameKey(t, i, j);
    }
  }

  lemma NewRowsAreStored(t: Table, inbox: seq<Incoming>, s: Stamp, t1: Table)
    requires AtMostOneCurrent(t) && OneRowPerKey(inbox) && |t| <= |t1| && NewRows(t, inbox, s, t1)
    requires forall b :: b in inbox && Wanted(t, b) && !LoadedAt(t, b.hk, s.now) ==> Added(t, t1, b, s)
    ensures Stores(t, inbox, s, t1) && NewAreOpen(t, t1)
  {
    forall k | |t| <= k < |t1|
      ensures t1[k].to.None? && t1[k].current && IsCopy(inbox, s, t1[k])
    {
      assert FromInbox(t, inbox, s, t1[k]);
    }
    forall b | b in inbox
      ensures HasCopy(t, t1, b, s) <==> !AlreadyCurrent(t, b) && !LoadedAt(t, b.hk, s.now)
    {
      WantedExactly(t, b);
      if k :| |t| <= k < |t1| && CopyOf(t1[k], b, s) {
        assert FromInbox(t, inbox, s, t1[k]);
      }
    }
  }

  /** What the insert alone adds to a table. */
  lemma InsertStoresExactly(t: Table, inbox: seq<Incoming>, s: Stamp)
    ensures LoadStores(t, inbox, s, Inserted(t, inbox, s))
  {
    var t1 := Inserted(t, inbox, s);
    if AtMostOneCurrent(t) && OneRowPerKey(inbox) {
      InsertFacts(t, t, inbox, s);
      forall b | b in inbox && Wanted(t, b) && !LoadedAt(t, b.hk, s.now) ensures Added(t, t1, b, s) {
        var k := InsertedRow(t, inbox, s, b);
      }
      NewRowsAreStored(t, inbox, s, t1);
    }
  }

  /** What a load adds, although it closes versions first. */
  lemma LoadStoresExactly(t: Table, inbox: seq<Incoming>, s: Stamp, t1: Table)
    requires Loaded(t, inbox, s, t1)
    ensures LoadStores(t, inbox, s, t1)
  {
    if AtMostOneCurrent(t) && OneRowPerKey(inbox) {
      LoadHasShape(t, inbox, s, t1);
      NewRowsAreStored(t, inbox, s, t1);
    }
  }

  lemma LoadTies(t: Table, inbox: seq<Incoming>, s: Stamp, t1: Table)
    requires LoadShape(t, inbox, s, t1) && DistinctFrom(t) && OneRowPerKey(inbox)
    ensures DistinctFrom(t1) <==>
            forall b :: b in inbox && Wanted(t, b) && !LoadedAt(t, b.hk, s.now) ==> FreeSlot(t, b)
  {
    if DistinctFrom(t1) {
      forall b | b in inbox && Wanted(t, b) && !LoadedAt(t, b.hk, s.now) ensures FreeSlot(t, b) {
        var k :| |t| <= k < |t1| && IsNew(t1[k], b, s);
        forall i | 0 <= i < |t| && t[i].hk == b.hk ensures t[i].from != b.from {
          assert !Tied(t1, i, k);
        }
      }
    } else {
      var i, j :| 0 <= i < |t1| && 0 <= j < |t1| && Tied(t1, i, j);
      assert Tied(t1, j, i);
      if i < |t| && j < |t| {
        assert Tied(t, i, j);
      } else {
        var k, l := if i < |t| then j else i, if i < |t| then i else j;
        var b :| b in inbox && Wanted(t, b) && IsNew(t1[k], b, s);
        assert l < |t| ==> t[l].hk == b.hk && t[l].from == b.from;
      }
    }
  }

  lemma LoadNewest(t: Table, inbox: seq<Incoming>, s: Stamp, t1: Table, i: nat)
    requires LoadShape(t, inbox, s, t1) && i < |t| && Newest(t1, i)
    ensures Newest(t, i)
  {
    forall j | 0 <= j < |t| && j != i && SameKey(t, i, j) ensures t[j].from < t[i].from {
      assert SameKey(t1, i, j);
    }
  }

  /** A row that the load closes is no longer the newest, unless the row that closed it is dropped. */
  lemma ClosedIsNotNewest(t: Table, inbox: seq<Incoming>, s: Stamp, t1: Table, i: nat)
    requires |t| <= |t1| && LoadShape(t, inbox, s, t1) && i < |t| && t1[i] != t[i] && AtMostOneCurrent(t)
    requires forall b :: b in inbox ==> Sound(t, b, s.now)
    ensures !Newest(t1, i)
  {
    var b :| b in inbox && Closes(b, t[i]) && t1[i].to == Some(b.from);
    assert Wanted(t, b) && Supersedes(t, b) && Sound(t, b, s.now);
    var k :| |t| <= k < |t1| && IsNew(t1[k], b, s);
    assert SameKey(t1, i, k);
  }

  lemma LoadKeepsNewestOpen(t: Table, inbox: seq<Incoming>, s: Stamp, t1: Table)
    requires LoadShape(t, inbox, s, t1) && Chain(t)
    requires forall b :: b in inbox ==> Sound(t, b, s.now)
    ensures NewestOpen(t1)
  {
    ChainHasOneCurrent(t);
    forall i | 0 <= i < |t| && t1[i] != t[i] ensures !Newest(t1, i) {
      ClosedIsNotNewest(t, inbox, s, t1, i);
    }
    forall i | 0 <= i < |t1| ensures OpenIfNewest(t1, i) {
      if |t| <= i {
        assert FromInbox(t, inbox, s, t1[i]);
      } else if Newest(t1, i) {
        LoadNewest(t, inbox, s, t1, i);
        assert Linked(t, i);
      }
    }
  }

  /** A wanted row that is dropped although it closed the current version loses its key's end. */
  lemma DroppedAfterClosing(t: Table, inbox: seq<Incoming>, s: Stamp, t1: Table, b: Incoming)
    requires LoadShape(t, inbox, s, t1) && Chain(t)
    requires b in inbox && Wanted(t, b) && LoadedAt(t, b.hk, s.now) && Supersedes(t, b)
    ensures !NewestOpen(t1)
  {
    ChainHasOneCurrent(t);
    var i :| 0 <= i < |t| && t[i].hk == b.hk && t[i].current && t[i].from < b.from;
    assert Closes(b, t[i]) by {
      assert forall j :: 0 <= j < |t| && t[j].hk == b.hk && t[j].current ==> SameKey(t, i, j);
    }
    forall j | 0 <= j < |t1| && j != i && SameKey(t1, i, j) ensures t1[j].from < t1[i].from {
      assert j < |t|;
      assert SameKey(t, i, j);
    }
    assert Newest(t1, i) && !OpenIfNewest(t1, i);
  }

  /** Load then reconcile keeps the chain exactly when each inbox row is sound; late rows are. */
  lemma TaskKeepsChainExactly(t: Table, inbox: seq<Incoming>, s: Stamp, t1: Table, t2: Table)
    requires Chain(t) && OneRowPerKey(inbox)
    requires Loaded(t, inbox, s, t1) && Reconciled(t1, t2)
    ensures Chain(t2) <==> forall b :: b in inbox ==> Sound(t, b, s.now)
  {
    ChainHasOneCurrent(t);
    LoadHasShape(t, inbox, s, t1);
    LoadTies(t, inbox, s, t1);
    ReconcileRepairsExactly(t1, t2);
    if forall b :: b in inbox ==> Sound(t, b, s.now) {
      LoadKeepsNewestOpen(t, inbox, s, t1);
    } else {
      var b :| b in inbox && !Sound(t, b, s.now);
      if LoadedAt(t, b.hk, s.now) {
        DroppedAfterClosing(t, inbox, s, t1, b);
      }
    }
  }

  lemma NewRowIsNewer(t: Table, inbox: seq<Incoming>, s: Stamp, t1: Table, k: nat, j: nat)
    requires LoadShape(t, inbox, s, t1) && |t| <= k < |t1| && j < |t| && t[j].hk == t1[k].hk
    requires forall b :: b in inbox ==> InOrder(t, b, s.now)
    ensures t[j].from < t1[k].from
  {
    assert FromInbox(t, inbox, s, t1[k]);
    var b :| b in inbox && Wanted(t, b) && IsNew(t1[k], b, s);
    assert InOrder(t, b, s.now);
  }

  /** A new version of the key has closed the current one at its own start. */
  lemma NewRowCloses(t: Table, inbox: seq<Incoming>, s: Stamp, t1: Table, i: nat, k: nat)
    requires LoadShape(t, inbox, s, t1) && |t| <= k < |t1| && OneRowPerKey(inbox)
    requires i < |t| && AtMostOneCurrent(t) && t[i].current && t[i].hk == t1[k].hk && t[i].from < t1[k].from
    ensures t1[i].to == Some(t1[k].from) && !t1[i].current
  {
    assert FromInbox(t, inbox, s, t1[k]);
    var b :| b in inbox && Wanted(t, b) && IsNew(t1[k], b, s);
    assert forall j :: 0 <= j < |t| && t[j].hk == b.hk && t[j].current ==> SameKey(t, i, j);
    assert Closes(b, t[i]);
    assert ClosedBy(inbox, t[i], t1[i]);
  }

  /** A version is closed only by an inbox row that is then inserted. */
  lemma ClosedHasNewRow(t: Table, inbox: seq<Incoming>, s: Stamp, t1: Table, i: nat) returns (k: nat)
    requires LoadShape(t, inbox, s, t1) && i < |t| && t1[i] != t[i]
    requires forall b :: b in inbox ==> InOrder(t, b, s.now)
    ensures |t| <= k < |t1| && t1[k].hk == t[i].hk
  {
    assert ClosedBy(inbox, t[i], t1[i]);
    var b :| b in inbox && Closes(b, t[i]) && t1[i].to == Some(b.from);
    assert Wanted(t, b) && Supersedes(t, b) && InOrder(t, b, s.now);
    assert Added(t, t1, b, s);
    k :| |t| <= k < |t1| && IsNew(t1[k], b, s);
  }

  ghost predicate Newer(t: Table, t1: Table, hk: string)
    requires |t| <= |t1|
  {
    forall j, k :: 0 <= j < |t| <= k < |t1| && t[j].hk == hk && t1[k].hk == hk ==> t[j].from < t1[k].from
  }

  lemma NextAfterAppend(t: Table, t1: Table, hk: string, f: int)
    requires |t| <= |t1| && forall i :: 0 <= i < |t| ==> SameVersion(t[i], t1[i])
    requires Newer(t, t1, hk)
    ensures NextFrom(t, hk, f).Some? ==> NextFrom(t1, hk, f) == NextFrom(t, hk, f)
  {
    var n := NextFrom(t, hk, f);
    if n.Some? {
      var m :| 0 <= m < |t| && t[m].hk == hk && t[m].from == n.value;
      assert t1[m].hk == hk && t1[m].from == n.value;
      assert IsNext(t1, hk, f, n.value);
      NextUnique(t1, hk, f, n.value);
    }
  }

  /** The one new version of a key follows the version that was newest before. */
  lemma NextIsNew(t: Table, inbox: seq<Incoming>, s: Stamp, t1: Table, i: nat, k: nat)
    requires LoadShape(t, inbox, s, t1) && i < |t| && Newest(t, i)
    requires |t| <= k < |t1| && t1[k].hk == t[i].hk && t[i].from < t1[k].from
    ensures NextFrom(t1, t[i].hk, t[i].from) == Some(t1[k].from)
  {
    forall j | 0 <= j < |t1| && t1[j].hk == t[i].hk ensures t1[j].from <= t[i].from || j == k {
      if j < |t| && j != i {
        assert SameKey(t, i, j);
      }
    }
    assert IsNext(t1, t[i].hk, t[i].from, t1[k].from);
    NextUnique(t1, t[i].hk, t[i].from, t1[k].from);
  }

  lemma NoNextWithoutNew(t: Table, t1: Table, i: nat)
    requires |t| <= |t1| && forall j :: 0 <= j < |t| ==> SameVersion(t[j], t1[j])
    requires i < |t| && Newest(t, i) && forall k :: |t| <= k < |t1| ==> t1[k].hk != t[i].hk
    ensures NextFrom(t1, t[i].hk, t[i].from).None?
  {
    var n := NextFrom(t1, t[i].hk, t[i].from);
    assert n.Some? ==> IsNext(t1, t[i].hk, t[i].from, n.value);
    assert forall j :: 0 <= j < |t| && j != i && t[j].hk == t[i].hk ==> SameKey(t, i, j);
  }

  lemma LoadAloneOldRow(t: Table, inbox: seq<Incoming>, s: Stamp, t1: Table, i: nat)
    requires LoadShape(t, inbox, s, t1) && Chain(t) && OneRowPerKey(inbox) && i < |t|
    requires forall b :: b in inbox ==> InOrder(t, b, s.now)
    ensures Linked(t1, i)
  {
    ChainHasOneCurrent(t);
    assert Linked(t, i);
    if !t[i].current {
      forall j, k | 0 <= j < |t| <= k < |t1| && t[j].hk == t[i].hk && t1[k].hk == t[i].hk
        ensures t[j].from < t1[k].from
      {
        NewRowIsNewer(t, inbox, s, t1, k, j);
      }
      NextAfterAppend(t, t1, t[i].hk, t[i].from);
    } else if k :| |t| <= k < |t1| && t1[k].hk == t[i].hk {
      NewRowIsNewer(t, inbox, s, t1, k, i);
      NewRowCloses(t, inbox, s, t1, i, k);
      NextIsNew(t, inbox, s, t1, i, k);
    } else {
      NoNextWithoutNew(t, t1, i);
      if t1[i] != t[i] {
        var k := ClosedHasNewRow(t, inbox, s, t1, i);
      }
    }
  }

  lemma NewIsNewest(t: Table, inbox: seq<Incoming>, s: Stamp, t1: Table, k: nat, b: Incoming)
    requires LoadShape(t, inbox, s, t1) && |t| <= k < |t1| && IsNew(t1[k], b, s)
    requires forall i :: 0 <= i < |t| && t[i].hk == b.hk ==> t[i].from < b.from
    ensures Newest(t1, k)
  {
    forall j | 0 <= j < |t1| && j != k && SameKey(t1, k, j) ensures t1[j].from < t1[k].from {
      assert j < |t|;
      assert t[j].hk == b.hk;
    }
  }

  lemma LoadAloneNewRow(t: Table, inbox: seq<Incoming>, s: Stamp, t1: Table, k: nat)
    requires LoadShape(t, inbox, s, t1) && |t| <= k < |t1|
    requires forall b :: b in inbox ==> InOrder(t, b, s.now)
    ensures Linked(t1, k)
  {
    assert FromInbox(t, inbox, s, t1[k]);
    var b :| b in inbox && Wanted(t, b) && IsNew(t1[k], b, s);
    assert InOrder(t, b, s.now);
    NewIsNewest(t, inbox, s, t1, k, b);
    NewestHasNoNext(t1, k);
  }

  lemma InOrderLoadKeepsChain(t: Table, inbox: seq<Incoming>, s: Stamp, t1: Table)
    requires LoadShape(t, inbox, s, t1) && Chain(t) && OneRowPerKey(inbox)
    requires forall b :: b in inbox ==> InOrder(t, b, s.now)
    ensures Chain(t1)
  {
    LoadTies(t, inbox, s, t1);
    forall b | b in inbox && Wanted(t, b) && !LoadedAt(t, b.hk, s.now) ensures FreeSlot(t, b) {
      assert InOrder(t, b, s.now);
    }
    forall i | 0 <= i < |t1| ensures Linked(t1, i) {
      if i < |t| {
        LoadAloneOldRow(t, inbox, s, t1, i);
      } else {
        LoadAloneNewRow(t, inbox, s, t1, i);
      }
    }
  }

  /** A late row goes in as current, in front of a newer version of its key. */
  lemma LateRowBreaksChain(t: Table, inbox: seq<Incoming>, s: Stamp, t1: Table, b: Incoming, i: nat)
    requires LoadShape(t, inbox, s, t1)
    requires b in inbox && Wanted(t, b) && !LoadedAt(t, b.hk, s.now)
    requires i < |t| && t[i].hk == b.hk && b.from <= t[i].from
    ensures !Chain(t1)
  {
    assert Added(t, t1, b, s);
    var k :| |t| <= k < |t1| && IsNew(t1[k], b, s);
    assert SameKey(t1, k, i) && !Newest(t1, k);
    ChainHasOneCurrent(t1);
  }

  /** Load without reconcile keeps the chain exactly when each inbox row is in order: this is when a
      crash between the two transactions does no harm. */
  lemma LoadAloneKeepsChainExactly(t: Table, inbox: seq<Incoming>, s: Stamp, t1: Table)
    requires Chain(t) && OneRowPerKey(inbox) && Loaded(t, inbox, s, t1)
    ensures Chain(t1) <==> forall b :: b in inbox ==> InOrder(t, b, s.now)
  {
    ChainHasOneCurrent(t);
    LoadHasShape(t, inbox, s, t1);
    if b :| b in inbox && !InOrder(t, b, s.now) {
      if LoadedAt(t, b.hk, s.now) {
        DroppedAfterClosing(t, inbox, s, t1, b);
        ChainIsNewestOpen(t1);
      } else {
        var i :| 0 <= i < |t| && t[i].hk == b.hk && b.from <= t[i].from;
        LateRowBreaksChain(t, inbox, s, t1, b, i);
      }
    } else {
      InOrderLoadKeepsChain(t, inbox, s, t1);
    }
  }
}
