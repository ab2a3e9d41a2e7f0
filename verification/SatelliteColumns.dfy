/**
  What the satellites hold, in the columns of staging: where each version comes from, and which staged
  rows the current versions show.
 */
module SatelliteColumns {
  import opened Decimals
  import opened Prelude
  import opened Satellites
  import opened SatelliteInboxes
  import opened SatelliteLoads
  import opened SatelliteRuns

  // ----- Orders -----

  /** The version, whatever its end, holds the columns of the staged order. */
  predicate OfOrder(v: Version, o: StagedOrder, digest: Digest, s: Stamp) {
    && v.hk == digest(Decimal(o.orderId))
    && v.from == o.orderTs
    && v.hash == digest(o.status + "||" + Amount(o.totalCents) + "||" + o.currency)
    && v.payload == OrderStatus(o.status, o.totalCents, o.currency)
    && v.loadDts == s.now && v.source == s.source
  }

  /** It comes from an order staged at one of the first n runs. */
  ghost predicate FromStagedOrder(stagings: seq<seq<StagedOrder>>, stamps: seq<Stamp>, digest: Digest, n: nat,
                                  v: Version)
    requires n <= |stagings| == |stamps|
  {
    exists k, o :: 0 <= k < n && o in stagings[k] && OfOrder(v, o, digest, stamps[k])
  }

  lemma OrderInboxColumns(staged: seq<StagedOrder>, digest: Digest, s: Stamp, inbox: seq<Incoming>, v: Version)
    requires inbox == OrderInbox(staged, digest)
    ensures IsCopy(inbox, s, v) <==> exists o :: o in staged && OfOrder(v, o, digest, s)
  {
    forall o | o in staged ensures OrderRow(o, digest) in inbox {
      var i :| 0 <= i < |staged| && staged[i] == o;
      assert inbox[i] == OrderRow(o, digest);
    }
    if b :| b in inbox && CopyOf(v, b, s) {
      var i :| 0 <= i < |inbox| && inbox[i] == b;
      assert OfOrder(v, staged[i], digest, s);
    }
    if o :| o in staged && OfOrder(v, o, digest, s) {
      assert CopyOf(v, OrderRow(o, digest), s);
    }
  }

  /** Over every run, from an empty satellite, each version holds the columns of a staged order, as its
      run found it. */
  lemma {:induction false} OrdersComeFromStaging(ts: seq<Table>, stagings: seq<seq<StagedOrder>>,
                                                 stamps: seq<Stamp>, digest: Digest, n: nat)
    requires OrderRun(ts, stagings, stamps, digest) && Injective(digest) && ts[0] == [] && n < |ts|
    ensures AtMostOneCurrent(ts[n])
    ensures forall v :: v in ts[n] ==> FromStagedOrder(stagings, stamps, digest, n, v)
  {
    if n > 0 {
      OrdersComeFromStaging(ts, stagings, stamps, digest, n - 1);
      var t, t', staged, s := ts[n - 1], ts[n], stagings[n - 1], stamps[n - 1];
      var task := Task(OrderInbox(staged, digest), s, NoCrash);
      assert Later(t, s.now) && OrdersOnce(staged) && TaskStep(t, task, t');
      InboxesHaveOneRowPerKey([], staged, digest, s.now);
      TaskAddsCopies(t, task, t');
      forall i | 0 <= i < |t'| ensures FromStagedOrder(stagings, stamps, digest, n, t'[i]) {
        if i < |t| {
          assert t[i] in t && SameVersion(t[i], t'[i]);
          var k, o :| 0 <= k < n - 1 && o in stagings[k] && OfOrder(t[i], o, digest, stamps[k]);
          assert OfOrder(t'[i], o, digest, stamps[k]);
        } else {
          OrderInboxColumns(staged, digest, s, task.inbox, t'[i]);
        }
      }
    }
  }

  lemma TaskAddsCopies(t: Table, task: Task, t': Table)
    requires AtMostOneCurrent(t) && OneRowPerKey(task.inbox) && TaskStep(t, task, t') && task.crash == NoCrash
    ensures AtMostOneCurrent(t') && Stores(t, task.inbox, task.stamp, t')
    ensures forall i :: 0 <= i < |t| ==> SameVersion(t[i], t'[i])
  {
    TaskStoresExactly(t, task, t');
    TaskKeepsHistory(t, task, t');
    var t1 :| Loaded(t, task.inbox, task.stamp, t1) && Reconciled(t1, t');
    ReconcileAtMostOneCurrent(t1, t');
  }

  /** CHAR(3) */
  predicate Currencies(staged: seq<StagedOrder>) {
    forall o :: o in staged ==> |o.currency| <= 3
  }

  /** The current version of the order shows the columns of this staged row. */
  ghost predicate ShowsOrder(t: Table, digest: Digest, o: StagedOrder) {
    exists i :: 0 <= i < |t| && t[i].hk == digest(Decimal(o.orderId)) && t[i].current &&
                t[i].payload == OrderStatus(o.status, o.totalCents, o.currency)
  }

  lemma OrderHashTells(t: Table, digest: Digest, stagings: seq<seq<StagedOrder>>, stamps: seq<Stamp>, n: nat,
                       o: StagedOrder)
    requires Injective(digest) && n <= |stagings| == |stamps| && |o.currency| <= 3
    requires forall k :: 0 <= k < n ==> Currencies(stagings[k])
    requires forall v :: v in t ==> FromStagedOrder(stagings, stamps, digest, n, v)
    ensures HashTells(t, OrderRow(o, digest))
  {
    var b := OrderRow(o, digest);
    forall i | 0 <= i < |t| && t[i].hk == b.hk ensures t[i].hash == b.hash <==> t[i].payload == b.payload {
      assert t[i] in t;
      var k, p :| 0 <= k < n && p in stagings[k] && OfOrder(t[i], p, digest, stamps[k]);
      assert Currencies(stagings[k]);
      OrderHashExactly(p, o, digest);
    }
  }

  /** Over every run, from an empty satellite and with new starts for changes: after the run on it, the
      current version of an order shows the staged columns exactly when it did so before, or when the
      order_ts is later than the starts of all its versions. */
  lemma OrdersShownExactly(ts: seq<Table>, stagings: seq<seq<StagedOrder>>, stamps: seq<Stamp>, digest: Digest,
                           n: nat, o: StagedOrder)
    requires OrderRun(ts, stagings, stamps, digest) && Injective(digest) && ts[0] == [] && n < |stagings|
    requires forall k :: 0 <= k <= n ==> Currencies(stagings[k])
    requires forall k, p :: 0 <= k < n && p in stagings[k] ==> NewStart(ts[k], OrderRow(p, digest))
    requires o in stagings[n]
    ensures ShowsOrder(ts[n + 1], digest, o) <==>
            || ShowsOrder(ts[n], digest, o)
            || forall i :: 0 <= i < |ts[n]| && ts[n][i].hk == digest(Decimal(o.orderId)) ==> ts[n][i].from < o.orderTs
  {
    var b, inbox, s := OrderRow(o, digest), OrderInbox(stagings[n], digest), stamps[n];
    assert Later(ts[n], s.now) && OrdersOnce(stagings[n]) && Currencies(stagings[n]);
    OrderChainOverRuns(ts, stagings, stamps, digest, n);
    OrdersComeFromStaging(ts, stagings, stamps, digest, n);
    OrderHashTells(ts[n], digest, stagings, stamps, n, o);
    InboxesHaveOneRowPerKey([], stagings[n], digest, s.now);
    var i :| 0 <= i < |stagings[n]| && stagings[n][i] == o;
    assert inbox[i] == b;
    SoundIsNewStart(ts[n], b, s.now);
    ShowsExactly(ts[n], inbox, s, ts[n + 1], b);
  }

  // ----- Customers -----

  predicate OfCustomer(v: Version, c: StagedCustomer, digest: Digest, s: Stamp) {
    && c.customerHash.Some?
    && v.hk == digest(Decimal(c.customerId))
    && v.from == (if c.registeredAt.Some? then c.registeredAt.value else s.now)
    && v.hash == digest(
         c.customerHash.value + "||" + (if c.maskedEmail.Some? then c.maskedEmail.value else "") + "||"
         + if c.maskedName.Some? then c.maskedName.value else "")
    && v.payload == CustomerDetails(c.customerHash.value, c.maskedEmail, c.maskedName)
    && v.loadDts == s.now && v.source == s.source
  }

  ghost predicate FromStagedCustomer(stagings: seq<seq<StagedCustomer>>, stamps: seq<Stamp>, digest: Digest, n: nat,
                                     v: Version)
    requires n <= |stagings| == |stamps|
  {
    exists k, c :: 0 <= k < n && c in stagings[k] && OfCustomer(v, c, digest, stamps[k])
  }

  lemma CustomerInboxColumns(staged: seq<StagedCustomer>, digest: Digest, s: Stamp, inbox: seq<Incoming>, v: Version)
    requires inbox == CustomerInbox(staged, digest, s.now)
    ensures IsCopy(inbox, s, v) <==> exists c :: c in staged && OfCustomer(v, c, digest, s)
  {
    if b :| b in inbox && CopyOf(v, b, s) {
      CustomerInboxRows(staged, digest, s.now, b);
      var c :| c in staged && c.customerHash.Some? && b == CustomerRow(c, digest, s.now);
      assert OfCustomer(v, c, digest, s);
    }
    if c :| c in staged && OfCustomer(v, c, digest, s) {
      CustomerInboxRows(staged, digest, s.now, CustomerRow(c, digest, s.now));
      assert CopyOf(v, CustomerRow(c, digest, s.now), s);
    }
  }

  /** The same for customers: a version starts at registered_at, or where that is missing at the load. */
  lemma {:induction false} CustomersComeFromStaging(ts: seq<Table>, stagings: seq<seq<StagedCustomer>>,
                                                    stamps: seq<Stamp>, digest: Digest, n: nat)
    requires CustomerRun(ts, stagings, stamps, digest) && Injective(digest) && ts[0] == [] && n < |ts|
    ensures AtMostOneCurrent(ts[n])
    ensures forall v :: v in ts[n] ==> FromStagedCustomer(stagings, stamps, digest, n, v)
  {
    if n > 0 {
      CustomersComeFromStaging(ts, stagings, stamps, digest, n - 1);
      var t, t', staged, s := ts[n - 1], ts[n], stagings[n - 1], stamps[n - 1];
      var task := Task(CustomerInbox(staged, digest, s.now), s, NoCrash);
      assert Later(t, s.now) && CustomersOnce(staged) && TaskStep(t, task, t');
      InboxesHaveOneRowPerKey(staged, [], digest, s.now);
      TaskAddsCopies(t, task, t');
      forall i | 0 <= i < |t'| ensures FromStagedCustomer(stagings, stamps, digest, n, t'[i]) {
        if i < |t| {
          assert t[i] in t && SameVersion(t[i], t'[i]);
          var k, c :| 0 <= k < n - 1 && c in stagings[k] && OfCustomer(t[i], c, digest, stamps[k]);
          assert OfCustomer(t'[i], c, digest, stamps[k]);
        } else {
          CustomerInboxColumns(staged, digest, s, task.inbox, t'[i]);
        }
      }
    }
  }

  ghost predicate AllMasked(staged: seq<StagedCustomer>) {
    forall c :: c in staged && c.customerHash.Some? ==> Masked(c)
  }

  ghost predicate ShowsCustomer(t: Table, digest: Digest, c: StagedCustomer)
    requires c.customerHash.Some?
  {
    exists i :: 0 <= i < |t| && t[i].hk == digest(Decimal(c.customerId)) && t[i].current &&
                t[i].payload == CustomerDetails(c.customerHash.value, c.maskedEmail, c.maskedName)
  }

  lemma CustomerHashTells(t: Table, digest: Digest, stagings: seq<seq<StagedCustomer>>, stamps: seq<Stamp>, n: nat,
                          c: StagedCustomer, now: int)
    requires Injective(digest) && n <= |stagings| == |stamps| && Masked(c)
    requires forall k :: 0 <= k < n ==> AllMasked(stagings[k])
    requires forall v :: v in t ==> FromStagedCustomer(stagings, stamps, digest, n, v)
    ensures HashTells(t, CustomerRow(c, digest, now))
  {
    var b := CustomerRow(c, digest, now);
    forall i | 0 <= i < |t| && t[i].hk == b.hk ensures t[i].hash == b.hash <==> t[i].payload == b.payload {
      assert t[i] in t;
      var k, d :| 0 <= k < n && d in stagings[k] && OfCustomer(t[i], d, digest, stamps[k]);
      assert AllMasked(stagings[k]);
      CustomerHashExactly(d, c, digest, now);
    }
  }

  /** And for customers that have a hash. */
  lemma CustomersShownExactly(ts: seq<Table>, stagings: seq<seq<StagedCustomer>>, stamps: seq<Stamp>, digest: Digest,
                              n: nat, c: StagedCustomer)
    requires CustomerRun(ts, stagings, stamps, digest) && Injective(digest) && ts[0] == [] && n < |stagings|
    requires forall k :: 0 <= k <= n ==> AllMasked(stagings[k])
    requires forall k, d :: 0 <= k < n && d in stagings[k] && d.customerHash.Some? ==>
               NewStart(ts[k], CustomerRow(d, digest, stamps[k].now))
    requires c in stagings[n] && c.customerHash.Some?
    ensures ShowsCustomer(ts[n + 1], digest, c) <==>
            || ShowsCustomer(ts[n], digest, c)
            || forall i :: 0 <= i < |ts[n]| && ts[n][i].hk == digest(Decimal(c.customerId)) ==>
                 ts[n][i].from < if c.registeredAt.Some? then c.registeredAt.value else stamps[n].now
  {
    var s := stamps[n];
    var b, inbox := CustomerRow(c, digest, s.now), CustomerInbox(stagings[n], digest, s.now);
    assert Later(ts[n], s.now) && CustomersOnce(stagings[n]) && AllMasked(stagings[n]);
    CustomerChainOverRuns(ts, stagings, stamps, digest, n);
    CustomersComeFromStaging(ts, stagings, stamps, digest, n);
    CustomerHashTells(ts[n], digest, stagings, stamps, n, c, s.now);
    InboxesHaveOneRowPerKey(stagings[n], [], digest, s.now);
    CustomerInboxRows(stagings[n], digest, s.now, b);
    SoundIsNewStart(ts[n], b, s.now);
    ShowsExactly(ts[n], inbox, s, ts[n + 1], b);
  }
}
