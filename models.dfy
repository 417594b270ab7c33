/** The token lifecycle and the fairness rule of queue_app/models.py, as
    functions on the persisted tables. */
module Models {
  import opened Tables

  /** Token.FAIRNESS_THRESHOLD, a class constant. The FAIRNESS_THRESHOLD
      setting of the project is never read by the model classes. */
  const FAIRNESS_THRESHOLD: int := 3

  /** Token.can_be_served: an unserved token qualifies when no token is
      waiting or when its number is at most the earliest waiting number plus
      the threshold. Whether the token itself has started serving is not
      looked at. */
  function CanBeServed(db: Db, n: int): (r: bool)
    requires n in db.tokens
    ensures r <==> !db.tokens[n].isServed
                   && forall w :: w in WaitingSet(db) ==> n <= w + FAIRNESS_THRESHOLD
  {
    if db.tokens[n].isServed then false
    else
      var pending := WaitingSet(db);
      if pending == {} then true
      else n <= SetMin(pending) + FAIRNESS_THRESHOLD
  }

  /** The scan of Token.get_next_servable over its candidate slice: the first
      candidate that can be served, if any. */
  function FirstServable(db: Db, candidates: seq<int>): (r: Option<int>)
    requires forall c :: c in candidates ==> c in db.tokens
    ensures r.Some? ==> r.value in candidates && CanBeServed(db, r.value)
    ensures r.None? ==> forall i :: 0 <= i < |candidates| ==> !CanBeServed(db, candidates[i])
    ensures r.Some? ==> exists i :: 0 <= i < |candidates| && candidates[i] == r.value
                                     && forall j :: 0 <= j < i ==> !CanBeServed(db, candidates[j])
    decreases |candidates|
  {
    if candidates == [] then None
    else if CanBeServed(db, candidates[0]) then Some(candidates[0])
    else FirstServable(db, candidates[1..])
  }

  /** Token.get_next_servable: the waiting tokens in ascending number, cut to
      the first FAIRNESS_THRESHOLD + 1, scanned for one that can be served. */
  function NextServable(db: Db): (r: Option<int>)
    ensures r.Some? ==> r.value in WaitingSet(db) && CanBeServed(db, r.value)
  {
    var ordered := SortedSeq(WaitingSet(db));
    var window := if |ordered| <= FAIRNESS_THRESHOLD + 1 then ordered
                  else ordered[..FAIRNESS_THRESHOLD + 1];
    assert forall c :: c in window ==> c in ordered;
    FirstServable(db, window)
  }

  /** get_next_servable finds nothing exactly when no token is waiting, and
      otherwise returns the earliest waiting token, which passes the fairness
      test against itself. */
  lemma NextServableIsEarliest(db: Db)
    ensures NextServable(db).None? <==> WaitingSet(db) == {}
    ensures WaitingSet(db) != {} ==> NextServable(db) == Some(SetMin(WaitingSet(db)))
  {
    var pending := WaitingSet(db);
    if pending != {} {
      var m := SetMin(pending);
      SortedHeadIsMin(pending);
      assert CanBeServed(db, m);
    }
  }

  /** Why the scan may stop after FAIRNESS_THRESHOLD + 1 candidates: waiting
      token numbers are distinct, so only the first FAIRNESS_THRESHOLD + 1 in
      ascending order can lie within the threshold of the earliest one. */
  lemma ServableOnlyWithinWindow(db: Db, i: int)
    requires 0 <= i < |SortedSeq(WaitingSet(db))|
    requires CanBeServed(db, SortedSeq(WaitingSet(db))[i])
    ensures i <= FAIRNESS_THRESHOLD
  {
    var ordered := SortedSeq(WaitingSet(db));
    IncreasingGap(ordered, i);
    assert ordered[0] in WaitingSet(db);
  }

  /** The effect of a successful Token.start_serving: the token records the
      counter and the start time; the counter records the token and becomes
      unavailable. */
  function Started(db: Db, n: int, c: int, now: int): (r: Db)
    requires n in db.tokens && 0 <= c < |db.counters|
    ensures r.tokens.Keys == db.tokens.Keys && |r.counters| == |db.counters|
    ensures r.nextNumber == db.nextNumber
    ensures forall m :: m in db.tokens && m != n ==> r.tokens[m] == db.tokens[m]
    ensures forall k :: 0 <= k < |db.counters| && k != c ==> r.counters[k] == db.counters[k]
    ensures !db.tokens[n].isServed ==> IsServing(r.tokens[n])
    ensures r.tokens[n] == db.tokens[n].(counter := Some(c), startedServing := Some(now))
    ensures r.counters[c] == db.counters[c].(currentToken := Some(n), isAvailable := false)
  {
    var t := db.tokens[n];
    var k := db.counters[c];
    db.(tokens := db.tokens[n := t.(counter := Some(c), startedServing := Some(now))],
        counters := db.counters[c := k.(currentToken := Some(n), isAvailable := false)])
  }

  /** Token.complete_serving: the token is marked served with a completion
      time; if it has a counter, that counter becomes available with no
      current token. The token keeps its counter reference, and the counter's
      last_token_completed is not written. */
  function Completed(db: Db, n: int, now: int): (r: Db)
    requires n in db.tokens
    ensures r.tokens.Keys == db.tokens.Keys && |r.counters| == |db.counters|
    ensures r.nextNumber == db.nextNumber
    ensures forall m :: m in db.tokens && m != n ==> r.tokens[m] == db.tokens[m]
    ensures r.tokens[n] == db.tokens[n].(isServed := true, completedServing := Some(now))
    ensures forall k :: 0 <= k < |db.counters| ==>
              r.counters[k] == if db.tokens[n].counter == Some(k)
                               then db.counters[k].(isAvailable := true, currentToken := None)
                               else db.counters[k]
  {
    var t := db.tokens[n];
    var tokens := db.tokens[n := t.(isServed := true, completedServing := Some(now))];
    if t.counter.Some? && 0 <= t.counter.value < |db.counters| then
      var c := t.counter.value;
      db.(tokens := tokens,
          counters := db.counters[c := db.counters[c].(isAvailable := true, currentToken := None)])
    else
      db.(tokens := tokens)
  }

  /** Starting a waiting token removes it from the waiting set and adds it to
      the set of tokens being served. */
  lemma StartedMovesToServing(db: Db, n: int, c: int, now: int)
    requires n in WaitingSet(db) && 0 <= c < |db.counters|
    ensures WaitingSet(Started(db, n, c, now)) == WaitingSet(db) - {n}
    ensures ServingSet(Started(db, n, c, now)) == ServingSet(db) + {n}
  {
    var r := Started(db, n, c, now);
    assert forall m :: m in r.tokens && m != n ==> r.tokens[m] == db.tokens[m];
  }

  /** Completing an unserved token removes it from both the waiting and the
      serving set. */
  lemma CompletedLeavesQueue(db: Db, n: int, now: int)
    requires n in UnservedSet(db)
    ensures WaitingSet(Completed(db, n, now)) == WaitingSet(db) - {n}
    ensures ServingSet(Completed(db, n, now)) == ServingSet(db) - {n}
    ensures UnservedSet(Completed(db, n, now)) == UnservedSet(db) - {n}
  {
    var r := Completed(db, n, now);
    assert forall m :: m in r.tokens && m != n ==> r.tokens[m] == db.tokens[m];
  }

  /** Starting a waiting token at an available counter keeps the pairing
      between tokens and counters. */
  lemma StartedPreservesConsistent(db: Db, n: int, c: int, now: int)
    requires Consistent(db)
    requires n in WaitingSet(db)
    requires 0 <= c < |db.counters| && db.counters[c].isAvailable
    ensures Consistent(Started(db, n, c, now))
  {
    var r := Started(db, n, c, now);
    forall m | m in r.tokens
      ensures TokenConsistent(r, m)
    {
      assert TokenConsistent(db, m);
      if m != n && IsServing(r.tokens[m]) {
        var k := db.tokens[m].counter.value;
        assert CounterConsistent(db, c);
        assert k != c;
      }
    }
    forall k | 0 <= k < |r.counters|
      ensures CounterConsistent(r, k)
    {
      assert CounterConsistent(db, k);
      if k != c && r.counters[k].currentToken.Some? {
        assert db.counters[k].currentToken.value != n by {
          assert TokenConsistent(db, n);
        }
      }
    }
  }

  /** Completing an unserved token keeps the pairing between tokens and
      counters: its counter, if any, is freed and no other counter changes. */
  lemma CompletedPreservesConsistent(db: Db, n: int, now: int)
    requires Consistent(db)
    requires n in UnservedSet(db)
    ensures Consistent(Completed(db, n, now))
  {
    var r := Completed(db, n, now);
    forall m | m in r.tokens
      ensures TokenConsistent(r, m)
    {
      assert TokenConsistent(db, m);
      if m != n && IsServing(r.tokens[m]) {
        var k := db.tokens[m].counter.value;
        assert CounterConsistent(db, k);
        assert db.tokens[n].counter != Some(k) by {
          assert TokenConsistent(db, n);
          if db.tokens[n].counter == Some(k) {
            assert IsServing(db.tokens[n]);
          }
        }
      }
    }
    forall k | 0 <= k < |r.counters|
      ensures CounterConsistent(r, k)
    {
      assert CounterConsistent(db, k);
    }
  }

  /** Starting a token at a free counter and later completing it gives the
      counter back exactly as it was, since completion does not record
      last_token_completed; the token keeps the counter reference. */
  lemma StartThenCompleteRestoresCounters(db: Db, n: int, c: int, started: int, completed: int)
    requires n in db.tokens && 0 <= c < |db.counters|
    requires db.counters[c].isAvailable && db.counters[c].currentToken.None?
    ensures var r := Completed(Started(db, n, c, started), n, completed);
            r.counters == db.counters
            && r.tokens[n] == db.tokens[n].(counter := Some(c), startedServing := Some(started),
                                            isServed := true, completedServing := Some(completed))
  {
    var r := Completed(Started(db, n, c, started), n, completed);
    assert forall k :: 0 <= k < |db.counters| ==> r.counters[k] == db.counters[k];
  }

  /** can_be_served ignores started_serving: right after the earliest waiting
      token has been started, it still qualifies, so a second start_serving on
      it succeeds. */
  lemma StartedEarliestStillQualifies(db: Db, c: int, now: int)
    requires WaitingSet(db) != {}
    requires 0 <= c < |db.counters|
    ensures var n := SetMin(WaitingSet(db));
            CanBeServed(Started(db, n, c, now), n)
  {
    var n := SetMin(WaitingSet(db));
    StartedMovesToServing(db, n, c, now);
  }

  /** Starting the same token at a second counter leaves the first counter
      marked busy with a token that is now recorded at the other counter. */
  lemma SecondStartBreaksPairing(db: Db, n: int, c1: int, c2: int, now: int)
    requires n in db.tokens && !db.tokens[n].isServed
    requires 0 <= c1 < |db.counters| && 0 <= c2 < |db.counters| && c1 != c2
    ensures !Consistent(Started(Started(db, n, c1, now), n, c2, now))
  {
    var r := Started(Started(db, n, c1, now), n, c2, now);
    assert r.counters[c1].currentToken == Some(n);
    assert r.tokens[n].counter == Some(c2);
    assert !CounterConsistent(r, c1);
  }

  /** Completing a token that is already served frees the counter it was
      once served at, even when that counter is now serving another token;
      the pairing is then broken. */
  lemma CompletingServedTokenFreesBusyCounter(db: Db, n: int, now: int)
    requires Consistent(db)
    requires n in db.tokens && db.tokens[n].isServed
    requires db.tokens[n].counter.Some?
    requires !db.counters[db.tokens[n].counter.value].isAvailable
    ensures !Consistent(Completed(db, n, now))
  {
    var c := db.tokens[n].counter.value;
    assert CounterConsistent(db, c);
    var other := db.counters[c].currentToken.value;
    assert other != n;
    var r := Completed(db, n, now);
    assert IsServing(r.tokens[other]);
    assert r.counters[c].currentToken == None;
    assert !TokenConsistent(r, other);
  }

  /** The order of ServiceCounter.get_next_available: by last_token_completed
      ascending, a counter that never completed a token (null) first. */
  predicate CompletedNoLater(a: Option<int>, b: Option<int>)
  {
    a.None? || (b.Some? && a.value <= b.value)
  }

  /** ServiceCounter.get_next_available: the available counter free the
      longest; among equals, the one with the lowest id. */
  function NextAvailable(cs: seq<Counter>): (r: Option<int>)
    ensures r.None? <==> forall k :: 0 <= k < |cs| ==> !cs[k].isAvailable
    ensures r.Some? ==> 0 <= r.value < |cs| && cs[r.value].isAvailable
    ensures r.Some? ==> forall k :: 0 <= k < |cs| && cs[k].isAvailable ==>
                          CompletedNoLater(cs[r.value].lastTokenCompleted, cs[k].lastTokenCompleted)
    ensures r.Some? ==> forall k :: 0 <= k < r.value && cs[k].isAvailable ==>
                          !CompletedNoLater(cs[k].lastTokenCompleted, cs[r.value].lastTokenCompleted)
    decreases |cs|
  {
    if cs == [] then None
    else
      var last := |cs| - 1;
      var best := NextAvailable(cs[..last]);
      if !cs[last].isAvailable then best
      else if best.None? then Some(last)
      else if CompletedNoLater(cs[best.value].lastTokenCompleted, cs[last].lastTokenCompleted) then best
      else Some(last)
  }
}
