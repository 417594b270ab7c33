/** The database the application updates row by row: the token table, the
    counter table and the token number sequence, changed in place by the
    model methods, the assignment command and the views. Each method is
    proved to leave the state that the corresponding function of Models,
    AutoAssign or Views describes. */
module QueueDb {
  import opened Tables
  import opened Models
  import opened AutoAssign
  import opened Views

  class Database {
    var tokens: map<int, Token>
    var counters: seq<Counter>
    var nextNumber: int

    /** The three tables as one value. */
    function State(): Db
      reads this
    {
      Db(tokens, counters, nextNumber)
    }

    /** A fresh database: no tokens, no counters, numbering from 1. */
    constructor ()
      ensures State() == Db(map[], [], 1)
      ensures Consistent(State())
    {
      tokens := map[];
      counters := [];
      nextNumber := 1;
    }

    /** create_counter with a valid form: a new counter, available, with no
        current token and no completion yet; returns its id. */
    method CreateCounter(name: string) returns (id: int)
      modifies this
      ensures id == |old(counters)|
      ensures State() == old(State()).(counters := old(counters) + [Counter(name, true, None, None)])
      ensures Consistent(old(State())) ==> Consistent(State())
    {
      id := |counters|;
      counters := counters + [Counter(name, true, None, None)];
      assert forall n :: n in tokens ==> TokenConsistent(old(State()), n) ==> TokenConsistent(State(), n);
      assert forall c :: 0 <= c < id ==> CounterConsistent(old(State()), c) ==> CounterConsistent(State(), c);
    }

    /** Token.start_serving: refused, with nothing changed, when the token
        cannot be served; otherwise the token and the counter are updated
        and saved. */
    method StartServing(n: int, c: int, now: int) returns (ok: bool)
      requires n in tokens && 0 <= c < |counters|
      modifies this
      ensures ok == CanBeServed(old(State()), n)
      ensures State() == if ok then Started(old(State()), n, c, now) else old(State())
    {
      if !CanBeServed(State(), n) {
        return false;
      }
      tokens := tokens[n := tokens[n].(counter := Some(c), startedServing := Some(now))];
      counters := counters[c := counters[c].(currentToken := Some(n), isAvailable := false)];
      ok := true;
    }

    /** Token.complete_serving: the token is marked served now, and its
        counter, if it has one, is freed. */
    method CompleteServing(n: int, now: int)
      requires n in tokens
      modifies this
      ensures State() == Completed(old(State()), n, now)
    {
      var t := tokens[n];
      if t.counter.Some? && 0 <= t.counter.value < |counters| {
        var c := t.counter.value;
        counters := counters[c := counters[c].(isAvailable := true, currentToken := None)];
      }
      tokens := tokens[n := t.(isServed := true, completedServing := Some(now))];
    }

    /** Command.assign_tokens: nothing when no counter is available;
        otherwise the loop over the counters available at the start, then
        the loop over the tokens being served. */
    method AssignTokens(now: int, maxServingTime: int)
      modifies this
      ensures State() == AutoAssign.AssignTokens(old(State()), now, maxServingTime)
      ensures Consistent(old(State())) ==> Consistent(State())
    {
      ghost var start := State();
      if Consistent(start) {
        AssignTokensPreservesConsistent(start, now, maxServingTime);
      }
      var snapshot := AvailableIds(counters);
      if snapshot == [] {
        return;
      }
      AssignCounters(snapshot, now);
      var serving := SortedSeq(ServingSet(State()));
      CompleteTimedOut(serving, now, maxServingTime);
    }

    /** The first loop of assign_tokens: each counter of the snapshot, in
        order, is offered the next servable token. */
    method AssignCounters(snapshot: seq<int>, now: int)
      requires CounterIds(State(), snapshot)
      modifies this
      ensures State() == AssignLoop(old(State()), snapshot, now)
    {
      ghost var start := State();
      var i := 0;
      while i < |snapshot|
        invariant 0 <= i <= |snapshot|
        invariant State() == AssignLoop(start, snapshot[..i], now)
      {
        var c := snapshot[i];
        ghost var mid := State();
        assert snapshot[..i + 1][..i] == snapshot[..i];
        LoopUnfold(start, snapshot[..i + 1], now);
        var next := NextServable(State());
        if next.Some? {
          var _ := StartServing(next.value, c, now);
        }
        assert State() == AssignStep(mid, c, now);
        i := i + 1;
      }
      assert snapshot[..i] == snapshot;
    }

    /** The second loop of assign_tokens: each listed token that is being
        served for longer than the limit is completed. */
    method CompleteTimedOut(serving: seq<int>, now: int, maxServingTime: int)
      modifies this
      ensures State() == Sweep(old(State()), serving, now, maxServingTime)
    {
      ghost var start := State();
      var j := 0;
      while j < |serving|
        invariant 0 <= j <= |serving|
        invariant State() == Sweep(start, serving[..j], now, maxServingTime)
      {
        var n := serving[j];
        ghost var mid := State();
        assert serving[..j + 1][..j] == serving[..j];
        assert Sweep(start, serving[..j + 1], now, maxServingTime) == SweepStep(mid, n, now, maxServingTime);
        if n in tokens && TimedOut(tokens[n], now, maxServingTime) {
          CompleteServing(n, now);
        }
        assert State() == SweepStep(mid, n, now, maxServingTime);
        j := j + 1;
      }
      assert serving[..j] == serving;
    }

    /** serve_next: the guard chain and at most one start_serving. */
    method ServeNext(field: CounterField, now: int) returns (outcome: ServeOutcome)
      modifies this
      ensures State() == Views.ServeNext(old(State()), field, now).db
      ensures outcome == Views.ServeNext(old(State()), field, now).outcome
      ensures Consistent(old(State())) ==> Consistent(State())
    {
      ghost var start := State();
      if Consistent(start) {
        ServeNextPreservesConsistent(start, field, now);
      }
      if field == NoField {
        return MissingCounterId;
      }
      if AvailableIds(counters) == [] {
        return AllCountersBusy;
      }
      if field == NotAnInteger {
        return InvalidCounterId;
      }
      var c := field.id;
      if !(0 <= c < |counters|) {
        return UnknownCounter;
      }
      if !counters[c].isAvailable {
        return CounterBusy;
      }
      var next := NextServable(State());
      if next.None? {
        return NothingServable;
      }
      var ok := StartServing(next.value, c, now);
      outcome := if ok then Assigned(next.value) else NothingServable;
    }

    /** mark_served: a 404 for an unknown token number, otherwise
        complete_serving. */
    method MarkServed(n: int, now: int) returns (found: bool)
      modifies this
      ensures found <==> Views.MarkServed(old(State()), n, now).Some?
      ensures State() == if found then Views.MarkServed(old(State()), n, now).value else old(State())
    {
      if n !in tokens {
        return false;
      }
      CompleteServing(n, now);
      found := true;
    }

    /** reset_queue: delete every token, make every counter available, and
        on SQLite restart the token numbers at 1. */
    method ResetQueue(sqlite: bool)
      modifies this
      ensures State() == Views.ResetQueue(old(State()), sqlite)
      ensures old(nextNumber) >= 1 ==> Consistent(State())
    {
      ghost var start := State();
      tokens := map[];
      var before := counters;
      counters := seq(|before|, c requires 0 <= c < |before| =>
                        before[c].(isAvailable := true, currentToken := None));
      if sqlite {
        nextNumber := 1;
      }
      if start.nextNumber >= 1 {
        ResetQueueConsistent(start, sqlite);
      }
    }

    /** generate_token with a valid form: insert the token with the next
        number, then count the tokens ahead and estimate the wait. */
    method GenerateToken(name: string, phone: Option<string>, now: int, perToken: int)
      returns (number: int, ahead: nat, estWait: int)
      modifies this
      ensures var r := Views.GenerateToken(old(State()), name, phone, now, perToken);
              State() == r.db && number == r.number && ahead == r.tokensAhead && estWait == r.estWait
      ensures Consistent(old(State())) ==> Consistent(State())
    {
      ghost var start := State();
      number := nextNumber;
      tokens := tokens[number := Token(name, phone, now, false, None, None, None)];
      nextNumber := number + 1;
      ahead := TokensAhead(State(), number);
      estWait := EstWait(ahead, perToken);
      if Consistent(start) {
        GenerateTokenQueuesLast(start, name, phone, now, perToken);
      }
    }
  }
}
