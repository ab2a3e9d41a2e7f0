/** Reading a satellite as of an instant, and the validation query. */
module SatelliteTime {
  import opened Prelude
  import opened Satellites

  // ----- The chain as a function of time -----

  /** The half-open interval from f to the instant n, if any, holds the instant. */
  predicate Within(f: int, n: Option<int>, at: int) {
    f <= at && (n.Some? ==> at < n.value)
  }

  predicate Covers(v: Version, at: int) {
    Within(v.from, v.to, at)
  }

  /** Row i is the newest version of its key that starts no later than the instant. */
  ghost predicate InForce(t: Table, i: nat, at: int)
    requires i < |t|
  {
    && t[i].from <= at
    && forall j :: 0 <= j < |t| && j != i && SameKey(t, i, j) && t[j].from <= at ==> t[j].from < t[i].from
  }

  lemma InForceIffBeforeNext(t: Table, i: nat, at: int)
    requires DistinctFrom(t) && i < |t|
    ensures InForce(t, i, at) <==> Within(t[i].from, NextFrom(t, t[i].hk, t[i].from), at)
  {
    var n := NextFrom(t, t[i].hk, t[i].from);
    if n.Some? && n.value <= at {
      var j :| 0 <= j < |t| && t[j].hk == t[i].hk && t[j].from == n.value;
      assert SameKey(t, i, j);
    } else {
      forall j | 0 <= j < |t| && j != i && SameKey(t, i, j) && t[j].from <= at ensures t[j].from < t[i].from {
        assert !Tied(t, i, j);
      }
    }
  }

  /** The interval of row i holds exactly the instants at which it is in force. */
  ghost predicate FollowsForce(t: Table, i: nat)
    requires i < |t|
  {
    forall at :: Covers(t[i], at) <==> InForce(t, i, at)
  }

  /** Intervals with the same start that are equal as sets have the same end, if one is not empty. */
  lemma SameEnd(f: int, m: Option<int>, n: Option<int>)
    requires n.Some? ==> f < n.value
    requires forall at :: Within(f, m, at) <==> Within(f, n, at)
    ensures m == n
  {
    var at := if n.Some? then n.value else if m.Some? && f < m.value then m.value else f;
    assert Within(f, m, at) <==> Within(f, n, at);
    assert Within(f, m, at - 1) <==> Within(f, n, at - 1);
    if m.Some? {
      assert Within(f, m, m.value) <==> Within(f, n, m.value);
    }
  }

  lemma FollowsForceExactly(t: Table, i: nat)
    requires DistinctFrom(t) && i < |t|
    ensures FollowsForce(t, i) <==> t[i].to == NextFrom(t, t[i].hk, t[i].from)
  {
    var n := NextFrom(t, t[i].hk, t[i].from);
    forall at ensures InForce(t, i, at) <==> Within(t[i].from, n, at) {
      InForceIffBeforeNext(t, i, at);
    }
    if FollowsForce(t, i) {
      forall at ensures Within(t[i].from, t[i].to, at) <==> Within(t[i].from, n, at) {
        assert Covers(t[i], at) <==> InForce(t, i, at);
      }
      SameEnd(t[i].from, t[i].to, n);
    }
  }

  /** In a table with no ties, the intervals name at every instant the version in force exactly when
      every effective_to is the next effective_from of its key. */
  lemma IntervalsExactly(t: Table)
    requires DistinctFrom(t)
    ensures (forall i :: 0 <= i < |t| ==> FollowsForce(t, i)) <==>
            (forall i :: 0 <= i < |t| ==> t[i].to == NextFrom(t, t[i].hk, t[i].from))
  {
    forall i | 0 <= i < |t| ensures FollowsForce(t, i) <==> t[i].to == NextFrom(t, t[i].hk, t[i].from) {
      FollowsForceExactly(t, i);
    }
  }

  lemma {:induction false} InForceExists(t: Table, hk: string, at: int, n: nat) returns (i: nat)
    requires DistinctFrom(t) && n <= |t|
    requires exists j :: 0 <= j < n && t[j].hk == hk && t[j].from <= at
    ensures i < n && t[i].hk == hk && t[i].from <= at
    ensures forall j :: 0 <= j < n && t[j].hk == hk && t[j].from <= at ==> t[j].from <= t[i].from
  {
    var last := t[n - 1];
    if exists j :: 0 <= j < n - 1 && t[j].hk == hk && t[j].from <= at {
      i := InForceExists(t, hk, at, n - 1);
      if last.hk == hk && last.from <= at && t[i].from < last.from {
        i := n - 1;
      }
    } else {
      i := n - 1;
    }
  }

  lemma LatestIsInForce(t: Table, i: nat, at: int, j: nat)
    requires DistinctFrom(t) && i < |t| && t[i].from <= at && j < |t| && t[j].hk == t[i].hk
    requires forall k :: 0 <= k < |t| && t[k].hk == t[i].hk && t[k].from <= at ==> t[k].from <= t[i].from
    ensures InForce(t, j, at) <==> j == i
  {
    if j == i {
      forall k | 0 <= k < |t| && k != i && SameKey(t, i, k) && t[k].from <= at ensures t[k].from < t[i].from {
        assert !Tied(t, i, k);
      }
    } else {
      assert SameKey(t, j, i) && !Tied(t, i, j);
    }
  }

  /** In a chain, every instant not before the first version of a key lies in exactly one interval,
      that of the version with the greatest effective_from not after the instant. */
  lemma AsOf(t: Table, hk: string, at: int) returns (i: nat)
    requires Chain(t) && exists j :: 0 <= j < |t| && t[j].hk == hk && t[j].from <= at
    ensures i < |t| && t[i].hk == hk && t[i].from <= at
    ensures forall j :: 0 <= j < |t| && t[j].hk == hk && t[j].from <= at ==> t[j].from <= t[i].from
    ensures forall j :: 0 <= j < |t| && t[j].hk == hk ==> (Covers(t[j], at) <==> j == i)
  {
    i := InForceExists(t, hk, at, |t|);
    forall j | 0 <= j < |t| && t[j].hk == hk ensures Covers(t[j], at) <==> j == i {
      assert Linked(t, j);
      FollowsForceExactly(t, j);
      LatestIsInForce(t, i, at, j);
    }
  }

  // ----- validate_scd2 -----

  function CurrentCount(t: Table, hk: string): nat {
    if t == [] then 0
    else CurrentCount(t[..|t| - 1], hk) + if t[|t| - 1].hk == hk && t[|t| - 1].current then 1 else 0
  }

  /** The keys the validation query counts: GROUP BY key HAVING COUNT(*) > 1 over the current rows. */
  function Violations(t: Table): set<string> {
    set v | v in t && CurrentCount(t, v.hk) > 1 :: v.hk
  }

  predicate CurrentOf(t: Table, hk: string, i: int) {
    0 <= i < |t| && t[i].hk == hk && t[i].current
  }

  lemma {:induction false} CountIsSmall(t: Table, hk: string)
    ensures CurrentCount(t, hk) == 0 <==> forall i :: !CurrentOf(t, hk, i)
    ensures CurrentCount(t, hk) <= 1 <==>
            forall i, j :: CurrentOf(t, hk, i) && CurrentOf(t, hk, j) ==> i == j
  {
    if t != [] {
      var r, n := t[..|t| - 1], |t| - 1;
      CountIsSmall(r, hk);
      assert forall i :: CurrentOf(r, hk, i) <==> CurrentOf(t, hk, i) && i < n;
      assert forall i :: CurrentOf(t, hk, i) ==> CurrentOf(r, hk, i) || i == n;
      assert CurrentOf(t, hk, n) <==> t[n].hk == hk && t[n].current;
    }
  }

  /** validate_scd2 counts no violation exactly when no key has two current rows. */
  lemma NoViolationsExactly(t: Table)
    ensures |Violations(t)| == 0 <==> AtMostOneCurrent(t)
  {
    forall hk ensures CurrentCount(t, hk) <= 1 <==>
        forall i, j :: CurrentOf(t, hk, i) && CurrentOf(t, hk, j) ==> i == j
    {
      CountIsSmall(t, hk);
    }
    if AtMostOneCurrent(t) {
      forall v | v in t ensures CurrentCount(t, v.hk) <= 1 {
        forall i, j | CurrentOf(t, v.hk, i) && CurrentOf(t, v.hk, j) ensures i == j {
          assert SameKey(t, i, j);
        }
      }
      assert Violations(t) == {};
    } else {
      var i, j :| 0 <= i < |t| && 0 <= j < |t| && SameKey(t, i, j) && t[i].current && t[j].current && i != j;
      assert CurrentOf(t, t[i].hk, i) && CurrentOf(t, t[i].hk, j);
      assert t[i] in t && CurrentCount(t, t[i].hk) > 1;
      assert t[i].hk in Violations(t);
    }
  }
}
