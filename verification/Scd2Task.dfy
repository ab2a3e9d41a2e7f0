/**
  The SCD2 task itself: the satellite as an object whose statements change its rows in place, and the
  validation step.
 */
module Scd2Task {
  import opened Prelude
  import opened Satellites
  import opened SatelliteLoads
  import opened SatelliteRuns
  import opened SatelliteTime

  // ----- The satellite -----

  /** The join partner the database takes for each row, out of those that match. */
  type Chooser = (nat, set<int>) -> int

  ghost predicate Chooses(pick: Chooser) {
    forall i: nat, m: set<int> :: m != {} ==> pick(i, m) in m
  }

  class Satellite {
    var rows: Table

    constructor ()
      ensures rows == [] && Chain(rows)
    {
      rows := [];
    }

    method Close(inbox: seq<Incoming>, pick: Chooser)
      requires Chooses(pick)
      modifies this
      ensures Closed(old(rows), inbox, rows)
    {
      var t := rows;
      rows := seq(|t|, i requires 0 <= i < |t| =>
        Assign(t[i], CloseMatches(t[i], inbox), pick(i, CloseMatches(t[i], inbox))));
      forall i | 0 <= i < |t| ensures SetFrom(t[i], rows[i], CloseMatches(t[i], inbox)) {
        var m := CloseMatches(t[i], inbox);
        assert m != {} ==> pick(i, m) in m;
        assert rows[i] == Assign(t[i], m, pick(i, m));
      }
    }

    method Insert(inbox: seq<Incoming>, s: Stamp)
      modifies this
      ensures rows == Inserted(old(rows), inbox, s)
      ensures LoadStores(old(rows), inbox, s, rows)
    {
      InsertStoresExactly(rows, inbox, s);
      rows := Inserted(rows, inbox, s);
    }

    /** One transaction: when a statement fails, all of it is rolled back. */
    method Load(inbox: seq<Incoming>, s: Stamp, pick: Chooser, commits: bool)
      requires Chooses(pick)
      modifies this
      ensures commits ==> Loaded(old(rows), inbox, s, rows)
      ensures !commits ==> rows == old(rows)
      ensures commits ==> LoadStores(old(rows), inbox, s, rows)
    {
      var before := rows;
      Close(inbox, pick);
      Insert(inbox, s);
      LoadStoresExactly(before, inbox, s, rows);
      if !commits {
        rows := before;
      }
    }

    method Reconcile(pick: Chooser)
      requires Chooses(pick)
      modifies this
      ensures Reconciled(old(rows), rows)
      ensures AtMostOneCurrent(rows)
    {
      var t := rows;
      rows := seq(|t|, i requires 0 <= i < |t| =>
        Assign(t[i], ReconcileMatches(t, t[i]), pick(i, ReconcileMatches(t, t[i]))));
      forall i | 0 <= i < |t| ensures SetFrom(t[i], rows[i], ReconcileMatches(t, t[i])) {
        var m := ReconcileMatches(t, t[i]);
        assert m != {} ==> pick(i, m) in m;
        assert rows[i] == Assign(t[i], m, pick(i, m));
      }
      ReconcileAtMostOneCurrent(t, rows);
    }

    /** Load then reconcile, stopped where the task says. */
    method RunTask(task: Task, loadPick: Chooser, pick: Chooser)
      requires Chooses(loadPick) && Chooses(pick)
      modifies this
      ensures TaskStep(old(rows), task, rows)
      ensures HistoryKept(old(rows), rows)
      ensures TaskStores(old(rows), task, rows)
      ensures task.crash == NoCrash ==> AtMostOneCurrent(rows)
      ensures old(Chain(rows)) && old(Admissible(rows, task)) ==> Chain(rows)
    {
      Load(task.inbox, task.stamp, loadPick, task.crash != BeforeLoad);
      if task.crash == NoCrash {
        Reconcile(pick);
      }
      TaskKeepsHistory(old(rows), task, rows);
      TaskStoresExactly(old(rows), task, rows);
      if old(Chain(rows)) && old(Admissible(rows, task)) {
        ChainOverRuns([old(rows), rows], [task], 1);
      }
    }
  }

  // ----- validate_scd2 -----

  /** Counts the violations of each table and raises if there is one. */
  method ValidateScd2(tables: seq<(string, Table)>) returns (r: Result<map<string, nat>, map<string, nat>>)
    requires forall i, j :: 0 <= i < j < |tables| ==> tables[i].0 != tables[j].0
    ensures r.Ok? <==> forall i :: 0 <= i < |tables| ==> AtMostOneCurrent(tables[i].1)
    ensures var violations := if r.Ok? then r.value else r.error;
            forall i :: 0 <= i < |tables| ==>
              tables[i].0 in violations && violations[tables[i].0] == |Violations(tables[i].1)|
  {
    var violations: map<string, nat> := map[];
    var bad := false;
    for n := 0 to |tables|
      invariant forall i :: 0 <= i < n ==>
        tables[i].0 in violations && violations[tables[i].0] == |Violations(tables[i].1)|
      invariant bad <==> exists i :: 0 <= i < n && !AtMostOneCurrent(tables[i].1)
    {
      NoViolationsExactly(tables[n].1);
      var count := |Violations(tables[n].1)|;
      violations := violations[tables[n].0 := count];
      bad := bad || count > 0;
    }
    r := if bad then Err(violations) else Ok(violations);
  }

  /** A task that is not stopped leaves at most one current row per key. */
  method RunToEnd(satellite: Satellite, task: Task, pick: Chooser)
    requires Chooses(pick) && task.crash == NoCrash
    modifies satellite
    ensures AtMostOneCurrent(satellite.rows)
  {
    satellite.RunTask(task, pick, pick);
  }

  /** After the task has run on both satellites, from any tables, validation does not fail. */
  method ValidateAfterTasks(customers: Satellite, orders: Satellite, c: Task, o: Task, pick: Chooser)
    returns (r: Result<map<string, nat>, map<string, nat>>)
    requires customers != orders && Chooses(pick)
    requires c.crash == NoCrash && o.crash == NoCrash
    modifies customers, orders
    ensures r.Ok?
  {
    RunToEnd(customers, c, pick);
    RunToEnd(orders, o, pick);
    var tables := [("vault.sat_customer_details", customers.rows), ("vault.sat_order_status", orders.rows)];
    assert tables[0].0 != tables[1].0 by {
      assert |tables[0].0| != |tables[1].0|;
    }
    r := ValidateScd2(tables);
  }
}
