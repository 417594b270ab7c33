/** The periodic pass of queue_app/management/commands/auto_assign_tokens.py:
    give every counter that was available at the start of the pass the next
    servable token, then force-complete the tokens served for longer than
    the limit. */
module AutoAssign {
  import opened Tables
  import opened Models

  function Min(a: int, b: int): int { if a < b then a else b }

  predicate Distinct(s: seq<int>)
  {
    forall i, j :: 0 <= i < j < |s| ==> s[i] != s[j]
  }

  predicate CounterIds(db: Db, s: seq<int>)
  {
    forall i :: 0 <= i < |s| ==> 0 <= s[i] < |db.counters|
  }

  /** One iteration of the counter loop: look up the next servable token and
      start it at counter c. */
  function AssignStep(db: Db, c: int, now: int): (r: Db)
    requires 0 <= c < |db.counters|
    ensures r.tokens.Keys == db.tokens.Keys && |r.counters| == |db.counters|
    ensures r.nextNumber == db.nextNumber
  {
    match NextServable(db)
    case None => db
    case Some(n) => if CanBeServed(db, n) then Started(db, n, c, now) else db
  }

  /** The counter loop run over a snapshot of counter ids, in snapshot order. */
  function AssignLoop(db: Db, snapshot: seq<int>, now: int): (r: Db)
    requires CounterIds(db, snapshot)
    ensures r.tokens.Keys == db.tokens.Keys && |r.counters| == |db.counters|
    ensures r.nextNumber == db.nextNumber
    decreases |snapshot|
  {
    if snapshot == [] then db
    else
      var last := |snapshot| - 1;
      AssignStep(AssignLoop(db, snapshot[..last], now), snapshot[last], now)
  }

  /** A token being served whose serving time is strictly over the limit. */
  predicate TimedOut(t: Token, now: int, maxServingTime: int)
  {
    IsServing(t) && now - t.startedServing.value > maxServingTime
  }

  /** One iteration of the timeout loop for token n. */
  function SweepStep(db: Db, n: int, now: int, maxServingTime: int): (r: Db)
    ensures r.tokens.Keys == db.tokens.Keys && |r.counters| == |db.counters|
    ensures r.nextNumber == db.nextNumber
  {
    if n in db.tokens && TimedOut(db.tokens[n], now, maxServingTime) then Completed(db, n, now)
    else db
  }

  /** The timeout loop over the tokens being served, in the given order. */
  function Sweep(db: Db, serving: seq<int>, now: int, maxServingTime: int): (r: Db)
    ensures r.tokens.Keys == db.tokens.Keys && |r.counters| == |db.counters|
    ensures r.nextNumber == db.nextNumber
    decreases |serving|
  {
    if serving == [] then db
    else
      var last := |serving| - 1;
      SweepStep(Sweep(db, serving[..last], now, maxServingTime), serving[last], now, maxServingTime)
  }

  /** Command.assign_tokens: nothing at all happens when no counter is
      available; otherwise the counter loop runs over the available counters
      in ascending id, then the timeout loop over the tokens being served
      after it, in ascending number. */
  function AssignTokens(db: Db, now: int, maxServingTime: int): (r: Db)
    ensures r.tokens.Keys == db.tokens.Keys && |r.counters| == |db.counters|
    ensures r.nextNumber == db.nextNumber
  {
    var snapshot := AvailableIds(db.counters);
    if snapshot == [] then db
    else
      var afterLoop := AssignLoop(db, snapshot, now);
      Sweep(afterLoop, SortedSeq(ServingSet(afterLoop)), now, maxServingTime)
  }

  /** The first m tokens of W were started now, the k-th at the k-th counter
      of the snapshot; every other token is as before. */
  predicate TokensStarted(db: Db, W: seq<int>, snapshot: seq<int>, m: int, now: int, r: Db)
    requires 0 <= m <= |W| && m <= |snapshot|
    requires forall k :: 0 <= k < |W| ==> W[k] in db.tokens
    requires r.tokens.Keys == db.tokens.Keys
  {
    && (forall k :: 0 <= k < m ==>
          r.tokens[W[k]] == db.tokens[W[k]].(counter := Some(snapshot[k]), startedServing := Some(now)))
    && (forall n :: n in db.tokens && n !in W[..m] ==> r.tokens[n] == db.tokens[n])
  }

  /** The first m counters of the snapshot took the first m tokens of W, the
      k-th counter the k-th token; every other counter is as before. */
  predicate CountersTaken(db: Db, W: seq<int>, snapshot: seq<int>, m: int, r: Db)
    requires 0 <= m <= |W| && m <= |snapshot|
    requires CounterIds(db, snapshot)
    requires |r.counters| == |db.counters|
  {
    && (forall k :: 0 <= k < m ==>
          r.counters[snapshot[k]] == db.counters[snapshot[k]].(currentToken := Some(W[k]), isAvailable := false))
    && (forall c :: 0 <= c < |db.counters| && c !in snapshot[..m] ==> r.counters[c] == db.counters[c])
  }

  /** The outcome of the counter loop after m tokens of the list W were
      handed out: the k-th counter of the snapshot (k < m) serves W[k],
      started now; every other token and counter is as before, and exactly
      W[m..] is still waiting. */
  predicate LoopOutcome(db: Db, W: seq<int>, snapshot: seq<int>, m: int, now: int, r: Db)
    requires CounterIds(db, snapshot)
    requires 0 <= m <= |W| && m <= |snapshot|
    requires forall k :: 0 <= k < |W| ==> W[k] in db.tokens
  {
    && r.tokens.Keys == db.tokens.Keys && |r.counters| == |db.counters|
    && r.nextNumber == db.nextNumber
    && WaitingSet(r) == (set k | m <= k < |W| :: W[k])
    && TokensStarted(db, W, snapshot, m, now, r)
    && CountersTaken(db, W, snapshot, m, r)
  }

  /** The outcome of the counter loop: with W the waiting tokens in
      ascending number and m the smaller of the snapshot size and |W|, the
      first m counters of the snapshot serve the first m tokens of W. */
  predicate ServesEarliest(db: Db, snapshot: seq<int>, now: int, r: Db)
    requires CounterIds(db, snapshot)
  {
    var W := SortedSeq(WaitingSet(db));
    WaitingOrderInTable(db);
    LoopOutcome(db, W, snapshot, Min(|snapshot|, |W|), now, r)
  }

  /** The ascending list of waiting tokens names rows of the token table. */
  lemma WaitingOrderInTable(db: Db)
    ensures forall k :: 0 <= k < |SortedSeq(WaitingSet(db))| ==> SortedSeq(WaitingSet(db))[k] in db.tokens
  {
    var W := SortedSeq(WaitingSet(db));
    forall k | 0 <= k < |W| ensures W[k] in db.tokens {
      assert W[k] in WaitingSet(db);
    }
  }

  /** The tokens of W[p..] of a strictly increasing W have W[p] as least
      element. */
  lemma SuffixMin(W: seq<int>, p: int)
    requires StrictlyIncreasing(W)
    requires 0 <= p < |W|
    ensures var rest := (set k | p <= k < |W| :: W[k]);
            rest != {} && SetMin(rest) == W[p]
  {
    var rest := (set k | p <= k < |W| :: W[k]);
    assert W[p] in rest;
    forall x | x in rest ensures W[p] <= x {
      var k :| p <= k < |W| && W[k] == x;
      if k > p {
        assert W[p] < W[k];
      }
    }
  }

  /** Starting W[p] when exactly W[p..] is waiting leaves exactly W[p+1..]
      waiting. */
  lemma WaitingStep(mid: Db, W: seq<int>, p: int, c: int, now: int)
    requires StrictlyIncreasing(W)
    requires 0 <= p < |W|
    requires WaitingSet(mid) == (set k | p <= k < |W| :: W[k])
    requires 0 <= c < |mid.counters|
    ensures W[p] in WaitingSet(mid)
    ensures WaitingSet(Started(mid, W[p], c, now)) == (set k | p + 1 <= k < |W| :: W[k])
  {
    assert W[p] in WaitingSet(mid);
    StartedMovesToServing(mid, W[p], c, now);
    var after := WaitingSet(Started(mid, W[p], c, now));
    forall x | x in after ensures x in (set k | p + 1 <= k < |W| :: W[k]) {
      var j :| p <= j < |W| && W[j] == x;
      assert j != p;
    }
    forall j | p + 1 <= j < |W| ensures W[j] in after {
      assert W[p] < W[j];
    }
  }

  /** Starting W[p] at the last counter of the snapshot extends the tokens
      started by one. */
  lemma TokensStep(db: Db, W: seq<int>, snapshot: seq<int>, p: int, now: int, mid: Db)
    requires 0 <= p < |W| && |snapshot| == p + 1
    requires StrictlyIncreasing(W)
    requires forall k :: 0 <= k < |W| ==> W[k] in db.tokens
    requires 0 <= snapshot[p] < |mid.counters|
    requires mid.tokens.Keys == db.tokens.Keys
    requires TokensStarted(db, W, snapshot[..p], p, now, mid)
    ensures TokensStarted(db, W, snapshot, p + 1, now, Started(mid, W[p], snapshot[p], now))
  {
    var n := W[p];
    var r := Started(mid, n, snapshot[p], now);
    assert W[..p + 1] == W[..p] + [n];
    assert n !in W[..p] by {
      forall k | 0 <= k < p ensures W[k] != n {
        assert W[k] < W[p];
      }
    }
    forall k | 0 <= k < p + 1
      ensures r.tokens[W[k]] == db.tokens[W[k]].(counter := Some(snapshot[k]), startedServing := Some(now))
    {
      if k < p {
        assert W[k] < W[p];
        assert snapshot[..p][k] == snapshot[k];
      }
    }
  }

  /** Giving W[p] to the last counter of the snapshot extends the counters
      taken by one. */
  lemma CountersStep(db: Db, W: seq<int>, snapshot: seq<int>, p: int, now: int, mid: Db)
    requires 0 <= p < |W| && |snapshot| == p + 1
    requires CounterIds(db, snapshot) && Distinct(snapshot)
    requires |mid.counters| == |db.counters| && W[p] in mid.tokens
    requires CountersTaken(db, W, snapshot[..p], p, mid)
    ensures CountersTaken(db, W, snapshot, p + 1, Started(mid, W[p], snapshot[p], now))
  {
    var c := snapshot[p];
    var r := Started(mid, W[p], c, now);
    assert snapshot[..p + 1] == snapshot[..p] + [c];
    assert snapshot == snapshot[..p + 1];
    forall k | 0 <= k < p + 1
      ensures r.counters[snapshot[k]] == db.counters[snapshot[k]].(currentToken := Some(W[k]), isAvailable := false)
    {
      if k < p {
        assert snapshot[k] != c;
        assert snapshot[..p][k] == snapshot[k];
      } else {
        assert c !in snapshot[..p] by {
          forall j | 0 <= j < p ensures snapshot[j] != c { }
        }
      }
    }
  }

  /** The counter loop starts exactly min(#snapshot, #waiting) tokens, the
      smallest waiting numbers taken in ascending order, one per counter in
      snapshot order, and changes nothing else. So each counter of the
      snapshot gets at most one token and no token goes to two counters. */
  lemma AssignLoopServesEarliest(db: Db, snapshot: seq<int>, now: int)
    requires CounterIds(db, snapshot)
    requires Distinct(snapshot)
    ensures ServesEarliest(db, snapshot, now, AssignLoop(db, snapshot, now))
  {
    var W := SortedSeq(WaitingSet(db));
    WaitingOrderInTable(db);
    WaitingListed(db);
    AssignLoopOutcome(db, W, snapshot, now);
  }

  /** The waiting set is the set of elements of its ascending list. */
  lemma WaitingListed(db: Db)
    ensures var W := SortedSeq(WaitingSet(db));
            WaitingSet(db) == (set k | 0 <= k < |W| :: W[k])
  {
    var W := SortedSeq(WaitingSet(db));
    forall x | x in WaitingSet(db) ensures x in (set k | 0 <= k < |W| :: W[k]) {
      assert x in W;
    }
  }

  /** The counter loop, for any strictly increasing list W of exactly the
      waiting tokens: the first min(#snapshot, |W|) counters of the snapshot
      take the first tokens of W, in order. */
  lemma {:induction false} AssignLoopOutcome(db: Db, W: seq<int>, snapshot: seq<int>, now: int)
    requires StrictlyIncreasing(W)
    requires forall k :: 0 <= k < |W| ==> W[k] in db.tokens
    requires WaitingSet(db) == (set k | 0 <= k < |W| :: W[k])
    requires CounterIds(db, snapshot) && Distinct(snapshot)
    ensures LoopOutcome(db, W, snapshot, Min(|snapshot|, |W|), now, AssignLoop(db, snapshot, now))
    decreases |snapshot|
  {
    if snapshot != [] {
      var p := |snapshot| - 1;
      var prefix := snapshot[..p];
      assert Distinct(prefix);
      AssignLoopOutcome(db, W, prefix, now);
      var mid := AssignLoop(db, prefix, now);
      LoopUnfold(db, snapshot, now);
      if p < |W| {
        assert Min(|prefix|, |W|) == p && Min(|snapshot|, |W|) == p + 1;
        StepStartsNext(mid, W, p, snapshot[p], now);
        OutcomeStep(db, W, snapshot, p, now, mid);
      } else {
        assert Min(|prefix|, |W|) == |W| && Min(|snapshot|, |W|) == |W|;
        OutcomeIdle(db, W, snapshot, |W|, now, mid);
        StepIdle(mid, snapshot[p], now);
      }
    }
  }

  /** The counter loop over a non-empty snapshot is the loop over all but
      its last counter followed by one step at that counter. */
  lemma LoopUnfold(db: Db, snapshot: seq<int>, now: int)
    requires CounterIds(db, snapshot) && |snapshot| > 0
    ensures var p := |snapshot| - 1;
            AssignLoop(db, snapshot, now) == AssignStep(AssignLoop(db, snapshot[..p], now), snapshot[p], now)
  {
  }

  /** When exactly W[p..] is waiting, a step of the counter loop starts
      W[p]. */
  lemma StepStartsNext(mid: Db, W: seq<int>, p: int, c: int, now: int)
    requires StrictlyIncreasing(W) && 0 <= p < |W|
    requires WaitingSet(mid) == (set k | p <= k < |W| :: W[k])
    requires 0 <= c < |mid.counters|
    ensures W[p] in mid.tokens
    ensures AssignStep(mid, c, now) == Started(mid, W[p], c, now)
  {
    SuffixMin(W, p);
    NextServableIsEarliest(mid);
    assert NextServable(mid) == Some(W[p]);
  }

  /** When nothing is waiting, a step of the counter loop changes nothing. */
  lemma StepIdle(mid: Db, c: int, now: int)
    requires WaitingSet(mid) == {}
    requires 0 <= c < |mid.counters|
    ensures AssignStep(mid, c, now) == mid
  {
    NextServableIsEarliest(mid);
  }

  /** One more counter serving the next token of W extends the loop outcome
      by one. */
  lemma OutcomeStep(db: Db, W: seq<int>, snapshot: seq<int>, p: int, now: int, mid: Db)
    requires 0 <= p < |W| && |snapshot| == p + 1
    requires StrictlyIncreasing(W)
    requires forall k :: 0 <= k < |W| ==> W[k] in db.tokens
    requires CounterIds(db, snapshot) && Distinct(snapshot)
    requires LoopOutcome(db, W, snapshot[..p], p, now, mid)
    ensures W[p] in mid.tokens && 0 <= snapshot[p] < |mid.counters|
    ensures LoopOutcome(db, W, snapshot, p + 1, now, Started(mid, W[p], snapshot[p], now))
  {
    WaitingStep(mid, W, p, snapshot[p], now);
    TokensStep(db, W, snapshot, p, now, mid);
    CountersStep(db, W, snapshot, p, now, mid);
  }

  /** The two facts about a loop outcome depend on the snapshot only through
      its first m counters. */
  lemma SamePrefixSameOutcome(db: Db, W: seq<int>, s1: seq<int>, s2: seq<int>, m: int, now: int, r: Db)
    requires 0 <= m <= |W| && m <= |s1| && m <= |s2|
    requires s1[..m] == s2[..m]
    requires CounterIds(db, s1) && CounterIds(db, s2)
    requires forall k :: 0 <= k < |W| ==> W[k] in db.tokens
    requires r.tokens.Keys == db.tokens.Keys && |r.counters| == |db.counters|
    requires TokensStarted(db, W, s1, m, now, r) && CountersTaken(db, W, s1, m, r)
    ensures TokensStarted(db, W, s2, m, now, r) && CountersTaken(db, W, s2, m, r)
  {
    assert forall k :: 0 <= k < m ==> s1[k] == s2[k] by {
      forall k | 0 <= k < m ensures s1[k] == s2[k] {
        assert s1[..m][k] == s2[..m][k];
      }
    }
  }

  /** A loop outcome with nothing left waiting carries over to a longer
      snapshot. */
  lemma OutcomeIdle(db: Db, W: seq<int>, snapshot: seq<int>, m: int, now: int, mid: Db)
    requires CounterIds(db, snapshot) && |snapshot| > 0
    requires m == |W| && m <= |snapshot| - 1
    requires forall k :: 0 <= k < |W| ==> W[k] in db.tokens
    requires LoopOutcome(db, W, snapshot[..|snapshot| - 1], m, now, mid)
    ensures WaitingSet(mid) == {} && 0 <= snapshot[|snapshot| - 1] < |mid.counters|
    ensures LoopOutcome(db, W, snapshot, m, now, mid)
  {
    var prefix := snapshot[..|snapshot| - 1];
    assert snapshot[..m] == prefix[..m];
    SamePrefixSameOutcome(db, W, prefix, snapshot, m, now, mid);
  }

  /** The counter loop leaves a counter outside the snapshot as it was. */
  lemma {:induction false} LoopLeavesOtherCounters(db: Db, snapshot: seq<int>, c: int, now: int)
    requires CounterIds(db, snapshot)
    requires 0 <= c < |db.counters| && c !in snapshot
    ensures AssignLoop(db, snapshot, now).counters[c] == db.counters[c]
    decreases |snapshot|
  {
    if snapshot != [] {
      var p := |snapshot| - 1;
      assert c !in snapshot[..p] && c != snapshot[p];
      LoopLeavesOtherCounters(db, snapshot[..p], c, now);
      LoopUnfold(db, snapshot, now);
    }
  }

  /** The counter loop keeps the token/counter pairing when every counter of
      the snapshot is available at the start. */
  lemma {:induction false} AssignLoopPreservesConsistent(db: Db, snapshot: seq<int>, now: int)
    requires Consistent(db)
    requires CounterIds(db, snapshot) && Distinct(snapshot)
    requires forall i :: 0 <= i < |snapshot| ==> db.counters[snapshot[i]].isAvailable
    ensures Consistent(AssignLoop(db, snapshot, now))
    decreases |snapshot|
  {
    if snapshot != [] {
      var last := |snapshot| - 1;
      var prefix := snapshot[..last];
      var c := snapshot[last];
      assert Distinct(prefix);
      AssignLoopPreservesConsistent(db, prefix, now);
      var mid := AssignLoop(db, prefix, now);
      assert c !in prefix by {
        forall k | 0 <= k < last ensures prefix[k] != c { }
      }
      LoopLeavesOtherCounters(db, prefix, c, now);
      LoopUnfold(db, snapshot, now);
      match NextServable(mid)
      case None =>
      case Some(n) =>
        StartedPreservesConsistent(mid, n, c, now);
    }
  }

  /** Some token of the sweep list timed out while served at counter c. */
  predicate FreedBySweep(db: Db, serving: seq<int>, c: int, now: int, maxServingTime: int)
  {
    exists n :: n in serving && n in db.tokens && TimedOut(db.tokens[n], now, maxServingTime)
                && db.tokens[n].counter == Some(c)
  }

  /** The outcome of the timeout loop: exactly the listed tokens that are
      served for strictly longer than the limit are completed now, and a
      counter is freed exactly when one of them was served there. */
  predicate SweptTimeouts(db: Db, serving: seq<int>, now: int, maxServingTime: int, r: Db)
  {
    && r.tokens.Keys == db.tokens.Keys && |r.counters| == |db.counters|
    && r.nextNumber == db.nextNumber
    && (forall n :: n in db.tokens ==>
          r.tokens[n] == if n in serving && TimedOut(db.tokens[n], now, maxServingTime)
                         then db.tokens[n].(isServed := true, completedServing := Some(now))
                         else db.tokens[n])
    && (forall c :: 0 <= c < |db.counters| ==>
          r.counters[c] == if FreedBySweep(db, serving, c, now, maxServingTime)
                           then db.counters[c].(isAvailable := true, currentToken := None)
                           else db.counters[c])
  }

  /** The timeout loop completes a token iff it is being served and
      now - started_serving > MAX_SERVING_TIME (strict: a duration equal to
      the limit is left alone); waiting and completed tokens are untouched. */
  lemma {:induction false} SweepCompletesTimedOut(db: Db, serving: seq<int>, now: int, maxServingTime: int)
    requires Distinct(serving)
    ensures SweptTimeouts(db, serving, now, maxServingTime, Sweep(db, serving, now, maxServingTime))
    decreases |serving|
  {
    if serving != [] {
      var last := |serving| - 1;
      var prefix := serving[..last];
      var n := serving[last];
      assert Distinct(prefix);
      SweepCompletesTimedOut(db, prefix, now, maxServingTime);
      var mid := Sweep(db, prefix, now, maxServingTime);
      var r := SweepStep(mid, n, now, maxServingTime);
      assert n !in prefix by {
        forall k | 0 <= k < last ensures serving[k] != n { }
      }
      assert forall x :: x in serving <==> x in prefix || x == n by {
        assert serving == prefix + [n];
      }
      if n in db.tokens && TimedOut(db.tokens[n], now, maxServingTime) {
        assert mid.tokens[n] == db.tokens[n];
        forall c | 0 <= c < |db.counters|
          ensures r.counters[c] == if FreedBySweep(db, serving, c, now, maxServingTime)
                                   then db.counters[c].(isAvailable := true, currentToken := None)
                                   else db.counters[c]
        {
          if db.tokens[n].counter == Some(c) {
            assert FreedBySweep(db, serving, c, now, maxServingTime);
          } else if FreedBySweep(db, serving, c, now, maxServingTime) {
            var w :| w in serving && w in db.tokens && TimedOut(db.tokens[w], now, maxServingTime)
                     && db.tokens[w].counter == Some(c);
            assert w in prefix;
            assert FreedBySweep(db, prefix, c, now, maxServingTime);
          } else {
            assert !FreedBySweep(db, prefix, c, now, maxServingTime);
          }
        }
      } else {
        forall c | 0 <= c < |db.counters|
          ensures FreedBySweep(db, serving, c, now, maxServingTime) == FreedBySweep(db, prefix, c, now, maxServingTime)
        {
          if FreedBySweep(db, serving, c, now, maxServingTime) {
            var w :| w in serving && w in db.tokens && TimedOut(db.tokens[w], now, maxServingTime)
                     && db.tokens[w].counter == Some(c);
            assert w in prefix;
          }
        }
      }
    }
  }

  /** The timeout loop keeps the token/counter pairing. */
  lemma {:induction false} SweepPreservesConsistent(db: Db, serving: seq<int>, now: int, maxServingTime: int)
    requires Consistent(db)
    ensures Consistent(Sweep(db, serving, now, maxServingTime))
    decreases |serving|
  {
    if serving != [] {
      var last := |serving| - 1;
      SweepPreservesConsistent(db, serving[..last], now, maxServingTime);
      var mid := Sweep(db, serving[..last], now, maxServingTime);
      var n := serving[last];
      if n in mid.tokens && TimedOut(mid.tokens[n], now, maxServingTime) {
        CompletedPreservesConsistent(mid, n, now);
      }
    }
  }

  /** With no available counter the pass returns at once: no assignment and
      no timeout sweep, even when a token is over its serving time. */
  lemma NoAvailableCounterSkipsSweep(db: Db, now: int, maxServingTime: int)
    requires forall c :: 0 <= c < |db.counters| ==> !db.counters[c].isAvailable
    ensures AssignTokens(db, now, maxServingTime) == db
  {
  }

  /** The whole pass keeps the token/counter pairing. */
  lemma AssignTokensPreservesConsistent(db: Db, now: int, maxServingTime: int)
    requires Consistent(db)
    ensures Consistent(AssignTokens(db, now, maxServingTime))
  {
    var snapshot := AvailableIds(db.counters);
    if snapshot != [] {
      assert Distinct(snapshot);
      AssignLoopPreservesConsistent(db, snapshot, now);
      var afterLoop := AssignLoop(db, snapshot, now);
      SweepPreservesConsistent(afterLoop, SortedSeq(ServingSet(afterLoop)), now, maxServingTime);
    }
  }

  /** What the two loops of the pass leave behind: mid is the outcome of the
      counter loop, serving lists the tokens being served in mid, and r is
      the outcome of the timeout loop over that list. */
  ghost predicate PassSteps(db: Db, W: seq<int>, snapshot: seq<int>, m: int, now: int, maxServingTime: int,
                      mid: Db, serving: seq<int>, r: Db)
  {
    && CounterIds(db, snapshot)
    && 0 <= m <= |W| && m <= |snapshot|
    && (forall k :: 0 <= k < |W| ==> W[k] in WaitingSet(db))
    && LoopOutcome(db, W, snapshot, m, now, mid)
    && (forall x :: x in serving <==> x in ServingSet(mid))
    && SweptTimeouts(mid, serving, now, maxServingTime, r)
  }

  /** The outcome of the timeout loop for one token. */
  lemma SweptToken(db: Db, serving: seq<int>, now: int, maxServingTime: int, r: Db, n: int)
    requires SweptTimeouts(db, serving, now, maxServingTime, r)
    requires n in db.tokens
    ensures r.tokens[n] == if n in serving && TimedOut(db.tokens[n], now, maxServingTime)
                           then db.tokens[n].(isServed := true, completedServing := Some(now))
                           else db.tokens[n]
  {
  }

  /** A token started by the counter loop is timed out by the sweep of the
      same pass only when the limit is negative: its serving time at the
      sweep is now - now, which is zero. */
  lemma PassFreshTokens(db: Db, W: seq<int>, snapshot: seq<int>, m: int, now: int, maxServingTime: int,
                        mid: Db, serving: seq<int>, r: Db)
    requires PassSteps(db, W, snapshot, m, now, maxServingTime, mid, serving, r)
    ensures forall k :: 0 <= k < m ==>
              r.tokens[W[k]] == if 0 > maxServingTime
                                then db.tokens[W[k]].(counter := Some(snapshot[k]), startedServing := Some(now),
                                                      isServed := true, completedServing := Some(now))
                                else db.tokens[W[k]].(counter := Some(snapshot[k]), startedServing := Some(now))
  {
    forall k | 0 <= k < m
      ensures r.tokens[W[k]] == if 0 > maxServingTime
                                then db.tokens[W[k]].(counter := Some(snapshot[k]), startedServing := Some(now),
                                                      isServed := true, completedServing := Some(now))
                                else db.tokens[W[k]].(counter := Some(snapshot[k]), startedServing := Some(now))
    {
      assert W[k] in WaitingSet(db) && IsWaiting(db.tokens[W[k]]);
      assert TokensStarted(db, W, snapshot, m, now, mid);
      assert mid.tokens[W[k]] == db.tokens[W[k]].(counter := Some(snapshot[k]), startedServing := Some(now));
      assert IsServing(mid.tokens[W[k]]) && W[k] in ServingSet(mid);
      assert forall x :: x in serving <==> x in ServingSet(mid);
      // started at now, so its serving time is zero
      assert TimedOut(mid.tokens[W[k]], now, maxServingTime) <==> 0 > maxServingTime;
      SweptToken(mid, serving, now, maxServingTime, r, W[k]);
    }
  }

  /** A token already being served before the pass is completed by the
      sweep exactly when its serving time is strictly over the limit. */
  lemma PassOldServing(db: Db, W: seq<int>, snapshot: seq<int>, m: int, now: int, maxServingTime: int,
                       mid: Db, serving: seq<int>, r: Db)
    requires PassSteps(db, W, snapshot, m, now, maxServingTime, mid, serving, r)
    ensures forall n :: n in ServingSet(db) ==>
              r.tokens[n] == if now - db.tokens[n].startedServing.value > maxServingTime
                             then db.tokens[n].(isServed := true, completedServing := Some(now))
                             else db.tokens[n]
  {
    forall n | n in ServingSet(db)
      ensures r.tokens[n] == if now - db.tokens[n].startedServing.value > maxServingTime
                             then db.tokens[n].(isServed := true, completedServing := Some(now))
                             else db.tokens[n]
    {
      assert n !in W[..m] by {
        forall k | 0 <= k < m ensures W[..m][k] != n {
          assert W[k] in WaitingSet(db);
        }
      }
      assert mid.tokens[n] == db.tokens[n];
      assert n in serving;
    }
  }

  /** A token neither started by the counter loop nor being served before
      the pass is left as it was. */
  lemma PassOthers(db: Db, W: seq<int>, snapshot: seq<int>, m: int, now: int, maxServingTime: int,
                   mid: Db, serving: seq<int>, r: Db)
    requires PassSteps(db, W, snapshot, m, now, maxServingTime, mid, serving, r)
    ensures forall n :: n in db.tokens && n !in W[..m] && !IsServing(db.tokens[n]) ==>
              r.tokens[n] == db.tokens[n]
  {
    forall n | n in db.tokens && n !in W[..m] && !IsServing(db.tokens[n])
      ensures r.tokens[n] == db.tokens[n]
    {
      assert mid.tokens[n] == db.tokens[n];
      assert n !in serving;
    }
  }

  /** The outcome of the whole pass, with W the tokens waiting before it in
      ascending number and m the number of tokens it starts: the first m
      tokens of W are started at the snapshot counters in order, and are
      completed at once only when the limit is negative (their serving time
      is zero); a token that was
      already being served is completed iff its serving time is strictly
      over the limit; every other token is unchanged. */
  predicate PassOutcome(db: Db, W: seq<int>, snapshot: seq<int>, m: int, now: int, maxServingTime: int, r: Db)
  {
    && r.tokens.Keys == db.tokens.Keys
    && 0 <= m <= |W| && m <= |snapshot|
    && (forall k :: 0 <= k < m ==> W[k] in db.tokens)
    && (forall k :: 0 <= k < m ==>
          r.tokens[W[k]] == if 0 > maxServingTime
                            then db.tokens[W[k]].(counter := Some(snapshot[k]), startedServing := Some(now),
                                                  isServed := true, completedServing := Some(now))
                            else db.tokens[W[k]].(counter := Some(snapshot[k]), startedServing := Some(now)))
    && (forall n :: n in ServingSet(db) ==>
          r.tokens[n] == if now - db.tokens[n].startedServing.value > maxServingTime
                         then db.tokens[n].(isServed := true, completedServing := Some(now))
                         else db.tokens[n])
    && (forall n :: n in db.tokens && n !in W[..m] && !IsServing(db.tokens[n]) ==>
          r.tokens[n] == db.tokens[n])
  }

  /** A strictly increasing list has no repeated element. */
  lemma IncreasingIsDistinct(s: seq<int>)
    requires StrictlyIncreasing(s)
    ensures Distinct(s)
  {
  }

  /** The facts the two loops establish, for the snapshot, the waiting list
      and the serving list the pass computes. */
  lemma PassStepsHold(db: Db, snapshot: seq<int>, W: seq<int>, now: int, maxServingTime: int,
                      mid: Db, serving: seq<int>)
    requires snapshot == AvailableIds(db.counters)
    requires W == SortedSeq(WaitingSet(db))
    requires mid == AssignLoop(db, snapshot, now)
    requires serving == SortedSeq(ServingSet(mid))
    ensures PassSteps(db, W, snapshot, Min(|snapshot|, |W|), now, maxServingTime,
                      mid, serving, Sweep(mid, serving, now, maxServingTime))
  {
    LoopPartHolds(db, snapshot, W, now, mid);
    SweepPartHolds(mid, serving, now, maxServingTime);
  }

  /** The counter loop's part of PassSteps. */
  lemma LoopPartHolds(db: Db, snapshot: seq<int>, W: seq<int>, now: int, mid: Db)
    requires snapshot == AvailableIds(db.counters)
    requires W == SortedSeq(WaitingSet(db))
    requires mid == AssignLoop(db, snapshot, now)
    ensures CounterIds(db, snapshot)
    ensures forall k :: 0 <= k < |W| ==> W[k] in WaitingSet(db)
    ensures forall k :: 0 <= k < |W| ==> W[k] in db.tokens
    ensures LoopOutcome(db, W, snapshot, Min(|snapshot|, |W|), now, mid)
  {
    IncreasingIsDistinct(snapshot);
    WaitingOrderInTable(db);
    WaitingListed(db);
    AssignLoopOutcome(db, W, snapshot, now);
  }

  /** The timeout loop's part of PassSteps. */
  lemma SweepPartHolds(mid: Db, serving: seq<int>, now: int, maxServingTime: int)
    requires serving == SortedSeq(ServingSet(mid))
    ensures forall x :: x in serving <==> x in ServingSet(mid)
    ensures SweptTimeouts(mid, serving, now, maxServingTime, Sweep(mid, serving, now, maxServingTime))
  {
    IncreasingIsDistinct(serving);
    SweepCompletesTimedOut(mid, serving, now, maxServingTime);
  }

  /** The facts the two loops establish give the outcome of the pass. */
  lemma PassStepsOutcome(db: Db, W: seq<int>, snapshot: seq<int>, m: int, now: int, maxServingTime: int,
                         mid: Db, serving: seq<int>, r: Db)
    requires PassSteps(db, W, snapshot, m, now, maxServingTime, mid, serving, r)
    ensures PassOutcome(db, W, snapshot, m, now, maxServingTime, r)
  {
    PassFreshTokens(db, W, snapshot, m, now, maxServingTime, mid, serving, r);
    PassOldServing(db, W, snapshot, m, now, maxServingTime, mid, serving, r);
    PassOthers(db, W, snapshot, m, now, maxServingTime, mid, serving, r);
    assert forall k :: 0 <= k < |W| ==> W[k] in db.tokens by {
      forall k | 0 <= k < |W| ensures W[k] in db.tokens {
        assert W[k] in WaitingSet(db);
      }
    }
  }

  /** The whole pass, when some counter is available, starts the
      min(#snapshot, #waiting) earliest waiting tokens at the snapshot
      counters in order and times out exactly the tokens served for strictly
      longer than the limit. */
  lemma AssignTokensOutcome(db: Db, now: int, maxServingTime: int)
    requires AvailableIds(db.counters) != []
    ensures var snapshot := AvailableIds(db.counters);
            var W := SortedSeq(WaitingSet(db));
            PassOutcome(db, W, snapshot, Min(|snapshot|, |W|), now, maxServingTime,
                        AssignTokens(db, now, maxServingTime))
  {
    var snapshot := AvailableIds(db.counters);
    var W := SortedSeq(WaitingSet(db));
    var mid := AssignLoop(db, snapshot, now);
    var serving := SortedSeq(ServingSet(mid));
    assert AssignTokens(db, now, maxServingTime) == Sweep(mid, serving, now, maxServingTime);
    PassStepsHold(db, snapshot, W, now, maxServingTime, mid, serving);
    PassStepsOutcome(db, W, snapshot, Min(|snapshot|, |W|), now, maxServingTime,
                     mid, serving, Sweep(mid, serving, now, maxServingTime));
  }
}
