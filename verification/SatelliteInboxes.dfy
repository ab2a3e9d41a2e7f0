/**
  From staging rows to satellites: the masks the preprocessing writes, the two inbox queries, what
  hash_diff tells apart, and the runs of the task on the inboxes these queries give.
 */
module SatelliteInboxes {
  import opened Decimals
  import opened Prelude
  import opened Satellites
  import opened SatelliteLoads
  import opened SatelliteRuns

  // ----- The masks -----

  function TrimLeadingBlanks(s: string): string {
    if s != [] && s[0] == ' ' then TrimLeadingBlanks(s[1..]) else s
  }

  function TrimTrailingBlanks(s: string): string {
    if s != [] && s[|s| - 1] == ' ' then TrimTrailingBlanks(s[..|s| - 1]) else s
  }

  function TrimBlanks(s: string): string {
    TrimTrailingBlanks(TrimLeadingBlanks(s))
  }

  /** The part of s before the first c. */
  function Before(s: string, c: char): string {
    if s == [] || s[0] == c then [] else [s[0]] + Before(s[1..], c)
  }

  /** The part after the first c and before the second, if there is a first. */
  function Second(s: string, c: char): Option<string> {
    if s == [] then None else if s[0] == c then Some(Before(s[1..], c)) else Second(s[1..], c)
  }

  function Left(s: string, n: nat): string {
    if n < |s| then s[..n] else s
  }

  /** masked_email_col on an address in lower case. */
  function MaskedEmail(email: Option<string>): Option<string> {
    if email.None? || TrimBlanks(email.value) == [] then None
    else
      var e := TrimBlanks(email.value);
      var masked := Left(Before(e, '@'), 2) + "***";
      Some(if Second(e, '@').None? then masked else masked + "@" + Second(e, '@').value)
  }

  /** masked_name_col */
  function MaskedName(name: Option<string>): Option<string> {
    if name.None? || TrimBlanks(name.value) == [] then None
    else Some(Left(TrimBlanks(Before(name.value, ' ')), 1) + "***")
  }

  lemma {:induction false} TrimLeadingShrinks(s: string)
    ensures |TrimLeadingBlanks(s)| <= |s|
    ensures s != [] && s[0] == ' ' ==> |TrimLeadingBlanks(s)| < |s|
  {
    if s != [] && s[0] == ' ' {
      TrimLeadingShrinks(s[1..]);
    }
  }

  lemma {:induction false} TrimTrailingShrinks(s: string)
    ensures |TrimTrailingBlanks(s)| <= |s|
  {
    if s != [] && s[|s| - 1] == ' ' {
      TrimTrailingShrinks(s[..|s| - 1]);
    }
  }

  lemma {:induction false} BeforeHasNone(s: string, c: char)
    ensures c !in Before(s, c)
  {
    if s != [] && s[0] != c {
      BeforeHasNone(s[1..], c);
    }
  }

  /** A masked name is one character and three stars. */
  lemma MaskedNameShape(name: Option<string>)
    requires name.Some? ==> TrimBlanks(name.value) == name.value
    ensures var m := MaskedName(name); m.Some? ==> |m.value| == 4 && m.value[1..] == "***"
  {
    if name.Some? && name.value != [] {
      var n := name.value;
      TrimLeadingShrinks(n);
      TrimTrailingShrinks(TrimLeadingBlanks(n));
      var first := Before(n, ' ');
      BeforeHasNone(n, ' ');
      assert first[0] in first && first[|first| - 1] in first;
      assert TrimBlanks(first) == first;
    }
  }

  predicate Blank(a: string) {
    forall i :: 0 <= i < |a| ==> a[i] == ' '
  }

  /** No blank at either end, and not empty. */
  predicate Trimmed(e: string) {
    e != [] && e[0] != ' ' && e[|e| - 1] != ' '
  }

  lemma {:induction false} LeadingGone(a: string, e: string)
    requires Blank(a) && (e == [] || e[0] != ' ')
    ensures TrimLeadingBlanks(a + e) == e
  {
    if a == [] {
      assert a + e == e;
    } else {
      assert (a + e)[1..] == a[1..] + e;
      LeadingGone(a[1..], e);
    }
  }

  lemma {:induction false} TrailingGone(e: string, b: string)
    requires Blank(b) && (e == [] || e[|e| - 1] != ' ')
    ensures TrimTrailingBlanks(e + b) == e
  {
    if b == [] {
      assert e + b == e;
    } else {
      assert (e + b)[..|e + b| - 1] == e + b[..|b| - 1];
      TrailingGone(e, b[..|b| - 1]);
    }
  }

  lemma PadsGone(a: string, e: string, b: string)
    requires Blank(a) && Blank(b) && Trimmed(e)
    ensures TrimBlanks(a + e + b) == e && TrimBlanks(a) == []
  {
    assert a + e + b == a + (e + b);
    LeadingGone(a, e + b);
    TrailingGone(e, b);
    assert a + [] == a;
    LeadingGone(a, []);
  }

  lemma {:induction false} BeforeIs(x: string, rest: string, c: char)
    requires c !in x && (rest == [] || rest[0] == c)
    ensures Before(x + rest, c) == x
    ensures Second(x + rest, c) == if rest == [] then None else Some(Before(rest[1..], c))
  {
    if x == [] {
      assert x + rest == rest;
    } else {
      assert (x + rest)[1..] == x[1..] + rest;
      BeforeIs(x[1..], rest, c);
    }
  }

  /** What the mask of an address keeps: two characters of the local part, and the text between the first
      '@' and the second; of a text without '@' the two characters. */
  lemma MaskedEmailKeeps(a: string, local: string, domain: string, more: string, b: string)
    requires Blank(a) && Blank(b) && '@' !in local && '@' !in domain && (more == [] || more[0] == '@')
    ensures Trimmed(local + "@" + domain + more) ==>
              MaskedEmail(Some(a + (local + "@" + domain + more) + b)) ==
              Some((if |local| <= 2 then local else local[..2]) + "***" + "@" + domain)
    ensures Trimmed(local) ==>
              MaskedEmail(Some(a + local + b)) == Some((if |local| <= 2 then local else local[..2]) + "***")
    ensures MaskedEmail(Some(a)) == None && MaskedEmail(None) == None
  {
    PadsGone(a, "x", b);
    if Trimmed(local + "@" + domain + more) {
      var rest := "@" + (domain + more);
      assert local + "@" + domain + more == local + rest && rest[1..] == domain + more;
      PadsGone(a, local + rest, b);
      BeforeIs(local, rest, '@');
      BeforeIs(domain, more, '@');
    }
    if Trimmed(local) {
      PadsGone(a, local, b);
      assert local + [] == local;
      BeforeIs(local, [], '@');
    }
  }

  /** What the mask of a trimmed name keeps: its first character. */
  lemma MaskedNameKeeps(first: string, rest: string)
    requires first != [] && ' ' !in first && (rest == [] || rest[0] == ' ') && Trimmed(first + rest)
    ensures MaskedName(Some(first + rest)) == Some([first[0]] + "***")
    ensures MaskedName(Some("")) == None && MaskedName(None) == None
  {
    PadsGone([], first + rest, []);
    assert [] + (first + rest) + [] == first + rest;
    BeforeIs(first, rest, ' ');
    assert first[0] in first && first[|first| - 1] in first;
    PadsGone([], first, []);
    assert [] + first + [] == first;
    assert Left(first, 1) == [first[0]];
  }

  // ----- The inbox queries -----

  /** A row of staging.stg_customers, whose primary key is customerId. */
  datatype StagedCustomer = StagedCustomer(
    customerId: int, customerHash: Option<string>, maskedEmail: Option<string>, maskedName: Option<string>,
    registeredAt: Option<int>)

  /** A row of staging.stg_orders, whose primary key is orderId; the currency without the blanks that
      pad CHAR(3), which the cast to text drops. */
  datatype StagedOrder = StagedOrder(
    orderId: int, orderTs: int, status: string, totalCents: int, currency: string)

  /** SHA-256 in hexadecimal. */
  type Digest = string -> string

  ghost predicate Injective(digest: Digest) {
    forall s, t :: digest(s) == digest(t) ==> s == t
  }

  function OrEmpty(s: Option<string>): string {
    if s.Some? then s.value else ""
  }

  function CustomerText(c: StagedCustomer): string {
    OrEmpty(c.customerHash) + "||" + OrEmpty(c.maskedEmail) + "||" + OrEmpty(c.maskedName)
  }

  function CustomerRow(c: StagedCustomer, digest: Digest, now: int): Incoming
    requires c.customerHash.Some?
  {
    Incoming(
      digest(Decimal(c.customerId)),
      if c.registeredAt.Some? then c.registeredAt.value else now,
      digest(CustomerText(c)),
      CustomerDetails(c.customerHash.value, c.maskedEmail, c.maskedName))
  }

  function CustomerInbox(staged: seq<StagedCustomer>, digest: Digest, now: int): seq<Incoming> {
    if staged == [] then []
    else
      (if staged[0].customerHash.Some? then [CustomerRow(staged[0], digest, now)] else [])
      + CustomerInbox(staged[1..], digest, now)
  }

  function OrderText(o: StagedOrder): string {
    o.status + "||" + Amount(o.totalCents) + "||" + o.currency
  }

  function OrderRow(o: StagedOrder, digest: Digest): Incoming {
    Incoming(
      digest(Decimal(o.orderId)), o.orderTs, digest(OrderText(o)),
      OrderStatus(o.status, o.totalCents, o.currency))
  }

  function OrderInbox(staged: seq<StagedOrder>, digest: Digest): seq<Incoming> {
    seq(|staged|, i requires 0 <= i < |staged| => OrderRow(staged[i], digest))
  }

  lemma {:induction false} CustomerInboxRows(staged: seq<StagedCustomer>, digest: Digest, now: int, b: Incoming)
    ensures b in CustomerInbox(staged, digest, now) <==>
            exists c :: c in staged && c.customerHash.Some? && b == CustomerRow(c, digest, now)
  {
    if staged != [] {
      CustomerInboxRows(staged[1..], digest, now, b);
    }
  }

  ghost predicate CustomersOnce(staged: seq<StagedCustomer>) {
    forall c, d :: c in staged && d in staged && c.customerId == d.customerId ==> c == d
  }

  ghost predicate OrdersOnce(staged: seq<StagedOrder>) {
    forall o, p :: o in staged && p in staged && o.orderId == p.orderId ==> o == p
  }

  /** The primary keys of staging and the hash of the key give one inbox row per key. */
  lemma InboxesHaveOneRowPerKey(customers: seq<StagedCustomer>, orders: seq<StagedOrder>, digest: Digest, now: int)
    requires Injective(digest)
    ensures CustomersOnce(customers) ==> OneRowPerKey(CustomerInbox(customers, digest, now))
    ensures OrdersOnce(orders) ==> OneRowPerKey(OrderInbox(orders, digest))
  {
    forall a, b | a in CustomerInbox(customers, digest, now) && b in CustomerInbox(customers, digest, now)
      ensures CustomersOnce(customers) && a.hk == b.hk ==> a == b
    {
      CustomerInboxRows(customers, digest, now, a);
      CustomerInboxRows(customers, digest, now, b);
      var c :| c in customers && c.customerHash.Some? && a == CustomerRow(c, digest, now);
      var d :| d in customers && d.customerHash.Some? && b == CustomerRow(d, digest, now);
      if a.hk == b.hk {
        DecimalInjective(c.customerId, d.customerId);
      }
    }
    forall a, b | a in OrderInbox(orders, digest) && b in OrderInbox(orders, digest)
      ensures OrdersOnce(orders) && a.hk == b.hk ==> a == b
    {
      var o :| o in orders && a == OrderRow(o, digest);
      var p :| p in orders && b == OrderRow(p, digest);
      if a.hk == b.hk {
        DecimalInjective(o.orderId, p.orderId);
      }
    }
  }

  // ----- What hash_diff tells apart -----

  lemma SplitAtLastBar(a: string, b: string, x: string, y: string)
    requires a + "||" + x == b + "||" + y && '|' !in x && '|' !in y
    ensures a == b && x == y
  {
    var s, t := a + "||" + x, b + "||" + y;
    assert s[|a| + 1] == '|' && t[|b| + 1] == '|';
    assert forall i :: |a| + 2 <= i < |s| ==> s[i] == x[i - |a| - 2];
    assert forall i :: |b| + 2 <= i < |t| ==> t[i] == y[i - |b| - 2];
    assert |a| == |b|;
    SameEnds(a + "||", b + "||", x, y);
    SameEnds(a, b, "||", "||");
  }

  /** The last two characters are no bars. */
  predicate EndsPlain(a: string) {
    |a| >= 2 && a[|a| - 1] != '|' && a[|a| - 2] != '|'
  }

  /** A text of at most three characters after bars, behind a text that does not end with bars: no other
      bars than the ones in between can be taken for them. */
  lemma NotLonger(a: string, b: string, x: string, y: string)
    requires a + "||" + x == b + "||" + y && |y| <= 3 && EndsPlain(a)
    ensures |a| <= |b|
  {
    var s, t := a + "||" + x, b + "||" + y;
    assert t[|b|] == '|' && t[|b| + 1] == '|';
    assert s[|a| - 1] == a[|a| - 1] && s[|a| - 2] == a[|a| - 2];
  }

  lemma SplitAtShortEnd(a: string, b: string, x: string, y: string)
    requires a + "||" + x == b + "||" + y && |x| <= 3 && |y| <= 3 && EndsPlain(a) && EndsPlain(b)
    ensures a == b && x == y
  {
    NotLonger(a, b, x, y);
    NotLonger(b, a, y, x);
    SameEnds(a + "||", b + "||", x, y);
    SameEnds(a, b, "||", "||");
  }

  lemma AmountEndsPlain(s: string, cents: int)
    ensures EndsPlain(s + "||" + Amount(cents))
  {
    AmountHasNoBar(cents);
    var a, t := Amount(cents), s + "||" + Amount(cents);
    assert t[|t| - 1] == a[|a| - 1] && t[|t| - 2] == a[|a| - 2];
    assert a[|a| - 1] in a && a[|a| - 2] in a;
  }

  /** Two states of an order have the same hash exactly when they have the same payload, whatever the
      status and the currency hold: a currency has at most three characters. */
  lemma OrderHashExactly(o: StagedOrder, p: StagedOrder, digest: Digest)
    requires Injective(digest) && |o.currency| <= 3 && |p.currency| <= 3
    ensures OrderRow(o, digest).hash == OrderRow(p, digest).hash <==>
            OrderRow(o, digest).payload == OrderRow(p, digest).payload
  {
    if OrderRow(o, digest).hash == OrderRow(p, digest).hash {
      assert OrderText(o) == OrderText(p);
      var u, v := o.status + "||" + Amount(o.totalCents), p.status + "||" + Amount(p.totalCents);
      AmountEndsPlain(o.status, o.totalCents);
      AmountEndsPlain(p.status, p.totalCents);
      SplitAtShortEnd(u, v, o.currency, p.currency);
      AmountHasNoBar(o.totalCents);
      AmountHasNoBar(p.totalCents);
      SplitAtLastBar(o.status, p.status, Amount(o.totalCents), Amount(p.totalCents));
      AmountInjective(o.totalCents, p.totalCents);
    }
  }

  /** A staging row as the preprocessing writes it: a digest of 64 characters and masked texts. */
  ghost predicate Masked(c: StagedCustomer) {
    && c.customerHash.Some? && |c.customerHash.value| == 64
    && (exists email :: c.maskedEmail == MaskedEmail(email))
    && (exists name: Option<string> ::
          (name.Some? ==> TrimBlanks(name.value) == name.value) && c.maskedName == MaskedName(name))
  }

  lemma MaskedShapes(c: StagedCustomer)
    requires Masked(c)
    ensures c.maskedEmail.Some? ==> c.maskedEmail.value != []
    ensures c.maskedName.Some? ==> |c.maskedName.value| == 4 && c.maskedName.value[1..] == "***"
  {
    var name: Option<string> :|
      (name.Some? ==> TrimBlanks(name.value) == name.value) && c.maskedName == MaskedName(name);
    MaskedNameShape(name);
  }

  /** A masked name is missing from both texts or from neither: one ends with a star and not a bar. */
  lemma NamesTogether(e: string, f: string, m: string, n: string)
    requires e + "||" + m == f + "||" + n
    requires (m == "" || (|m| == 4 && m[1..] == "***")) && (n == "" || (|n| == 4 && n[1..] == "***"))
    ensures e == f && m == n
  {
    var s, t := e + "||" + m, f + "||" + n;
    assert m == "" ==> s[|s| - 1] == '|';
    assert n == "" ==> t[|t| - 1] == '|';
    assert m != "" ==> s[|s| - 1] == m[3] == m[1..][2];
    assert n != "" ==> t[|t| - 1] == n[3] == n[1..][2];
    SameEnds(e + "||", f + "||", m, n);
    SameEnds(e, f, "||", "||");
  }

  lemma SplitAfterStart(a: string, b: string, x: string, y: string)
    requires a + "||" + x == b + "||" + y && |a| == |b|
    ensures a == b && x == y
  {
    SameEnds(a + "||", b + "||", x, y);
    SameEnds(a, b, "||", "||");
  }

  /** Two states of a customer, as staging holds them, have the same hash exactly when they have the
      same payload: the masks leave no room for bars to be mistaken. */
  lemma CustomerHashExactly(c: StagedCustomer, d: StagedCustomer, digest: Digest, now: int)
    requires Injective(digest) && Masked(c) && Masked(d)
    ensures CustomerRow(c, digest, now).hash == CustomerRow(d, digest, now).hash <==>
            CustomerRow(c, digest, now).payload == CustomerRow(d, digest, now).payload
  {
    if CustomerRow(c, digest, now).hash == CustomerRow(d, digest, now).hash {
      assert CustomerText(c) == CustomerText(d);
      MaskedShapes(c);
      MaskedShapes(d);
      NamesTogether(
        OrEmpty(c.customerHash) + "||" + OrEmpty(c.maskedEmail),
        OrEmpty(d.customerHash) + "||" + OrEmpty(d.maskedEmail),
        OrEmpty(c.maskedName), OrEmpty(d.maskedName));
      SplitAfterStart(
        OrEmpty(c.customerHash), OrEmpty(d.customerHash), OrEmpty(c.maskedEmail), OrEmpty(d.maskedEmail));
    }
  }

  // ----- From staging to the chain -----

  /** NOW() is later than every load so far. */
  predicate Later(t: Table, now: int) {
    forall i :: 0 <= i < |t| ==> t[i].loadDts < now
  }

  /** Nothing is wanted of the row, or it starts where no version of its key does. */
  ghost predicate NewStart(t: Table, b: Incoming) {
    Wanted(t, b) ==> FreeSlot(t, b)
  }

  lemma SoundIsNewStart(t: Table, b: Incoming, now: int)
    requires Later(t, now)
    ensures !LoadedAt(t, b.hk, now) && (Sound(t, b, now) <==> NewStart(t, b))
  {
  }

  /** A run of the customer task keeps the chain exactly when each staged customer that changed starts at
      an instant at which none of its versions does. */
  lemma CustomersKeepChainExactly(t: Table, staged: seq<StagedCustomer>, digest: Digest, s: Stamp, t': Table)
    requires Chain(t) && Later(t, s.now) && Injective(digest) && CustomersOnce(staged)
    requires TaskStep(t, Task(CustomerInbox(staged, digest, s.now), s, NoCrash), t')
    ensures Chain(t') <==>
            forall c :: c in staged && c.customerHash.Some? ==> NewStart(t, CustomerRow(c, digest, s.now))
  {
    var inbox := CustomerInbox(staged, digest, s.now);
    InboxesHaveOneRowPerKey(staged, [], digest, s.now);
    var t1 :| Loaded(t, inbox, s, t1) && Reconciled(t1, t');
    TaskKeepsChainExactly(t, inbox, s, t1, t');
    forall b ensures b in inbox <==>
        exists c :: c in staged && c.customerHash.Some? && b == CustomerRow(c, digest, s.now)
    {
      CustomerInboxRows(staged, digest, s.now, b);
    }
    forall b ensures Sound(t, b, s.now) <==> NewStart(t, b) {
      SoundIsNewStart(t, b, s.now);
    }
  }

  /** And a run of the order task. */
  lemma OrdersKeepChainExactly(t: Table, staged: seq<StagedOrder>, digest: Digest, s: Stamp, t': Table)
    requires Chain(t) && Later(t, s.now) && Injective(digest) && OrdersOnce(staged)
    requires TaskStep(t, Task(OrderInbox(staged, digest), s, NoCrash), t')
    ensures Chain(t') <==> forall o :: o in staged ==> NewStart(t, OrderRow(o, digest))
  {
    var inbox := OrderInbox(staged, digest);
    InboxesHaveOneRowPerKey([], staged, digest, s.now);
    var t1 :| Loaded(t, inbox, s, t1) && Reconciled(t1, t');
    TaskKeepsChainExactly(t, inbox, s, t1, t');
    forall o | o in staged ensures OrderRow(o, digest) in inbox {
      var i :| 0 <= i < |staged| && staged[i] == o;
      assert inbox[i] == OrderRow(o, digest);
    }
    forall b ensures Sound(t, b, s.now) <==> NewStart(t, b) {
      SoundIsNewStart(t, b, s.now);
    }
  }

  /** Runs of the customer task, each on the staging table as it then is. */
  ghost predicate CustomerRun(ts: seq<Table>, stagings: seq<seq<StagedCustomer>>, stamps: seq<Stamp>, digest: Digest) {
    && |ts| == |stagings| + 1 == |stamps| + 1
    && forall k :: 0 <= k < |stamps| ==>
         && Later(ts[k], stamps[k].now) && CustomersOnce(stagings[k])
         && TaskStep(ts[k], Task(CustomerInbox(stagings[k], digest, stamps[k].now), stamps[k], NoCrash), ts[k + 1])
  }

  ghost predicate OrderRun(ts: seq<Table>, stagings: seq<seq<StagedOrder>>, stamps: seq<Stamp>, digest: Digest) {
    && |ts| == |stagings| + 1 == |stamps| + 1
    && forall k :: 0 <= k < |stamps| ==>
         && Later(ts[k], stamps[k].now) && OrdersOnce(stagings[k])
         && TaskStep(ts[k], Task(OrderInbox(stagings[k], digest), stamps[k], NoCrash), ts[k + 1])
  }

  /** Over every run from staging, the satellite of customers is a chain as long as changes come with new
      starts; by CustomersKeepChainExactly, no longer. */
  lemma {:induction false} CustomerChainOverRuns(ts: seq<Table>, stagings: seq<seq<StagedCustomer>>,
                                                 stamps: seq<Stamp>, digest: Digest, n: nat)
    requires CustomerRun(ts, stagings, stamps, digest) && Injective(digest) && Chain(ts[0]) && n < |ts|
    requires forall k, c :: 0 <= k < n && c in stagings[k] && c.customerHash.Some? ==>
               NewStart(ts[k], CustomerRow(c, digest, stamps[k].now))
    ensures Chain(ts[n])
  {
    if n > 0 {
      CustomerChainOverRuns(ts, stagings, stamps, digest, n - 1);
      CustomersKeepChainExactly(ts[n - 1], stagings[n - 1], digest, stamps[n - 1], ts[n]);
    }
  }

  lemma {:induction false} OrderChainOverRuns(ts: seq<Table>, stagings: seq<seq<StagedOrder>>,
                                              stamps: seq<Stamp>, digest: Digest, n: nat)
    requires OrderRun(ts, stagings, stamps, digest) && Injective(digest) && Chain(ts[0]) && n < |ts|
    requires forall k, o :: 0 <= k < n && o in stagings[k] ==> NewStart(ts[k], OrderRow(o, digest))
    ensures Chain(ts[n])
  {
    if n > 0 {
      OrderChainOverRuns(ts, stagings, stamps, digest, n - 1);
      OrdersKeepChainExactly(ts[n - 1], stagings[n - 1], digest, stamps[n - 1], ts[n]);
    }
  }

  /** An order whose status, amount or currency changes keeps its order_ts: after the task it has no
      current version, and the same staging row is inserted again by every later run. */
  lemma ChangedOrderLosesCurrent(t: Table, staged: seq<StagedOrder>, digest: Digest, s: Stamp, t': Table,
                                 i: nat, before: StagedOrder, o: StagedOrder)
    requires Chain(t) && Later(t, s.now) && Injective(digest) && OrdersOnce(staged)
    requires TaskStep(t, Task(OrderInbox(staged, digest), s, NoCrash), t')
    requires o in staged && before.orderId == o.orderId && before.orderTs == o.orderTs && before != o
    requires |before.currency| <= 3 && |o.currency| <= 3
    requires i < |t| && t[i].current
    requires var b := OrderRow(before, digest); t[i].hk == b.hk && t[i].from == b.from && t[i].hash == b.hash
    ensures var b := OrderRow(o, digest);
            NoneCurrent(t', b.hk) && Wanted(t', b) && Overtaken(t', b)
  {
    var b := OrderRow(o, digest);
    InboxesHaveOneRowPerKey([], staged, digest, s.now);
    OrderHashExactly(before, o, digest);
    var k :| 0 <= k < |staged| && staged[k] == o;
    assert OrderInbox(staged, digest)[k] == b;
    SoundIsNewStart(t, b, s.now);
    SameStartLosesCurrent(t, OrderInbox(staged, digest), s, t', b, i);
  }
}
