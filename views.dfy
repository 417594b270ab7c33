/** The state logic of the staff and customer views of queue_app/views.py:
    the wait estimate, the status query, the SMS destination, manual
    assignment (serve_next), completion (mark_served), the queue reset and
    token issue. */
module Views {
  import opened Tables
  import opened Models

  /** A subset has at most as many elements, a proper subset strictly fewer. */
  lemma {:induction false} SubsetCard(a: set<int>, b: set<int>)
    requires a <= b
    ensures |a| <= |b|
    ensures a < b ==> |a| < |b|
    decreases |b|
  {
    EmptyOrMember(b);
    if b != {} {
      var y :| y in b;
      if y in a {
        assert a < b ==> a - {y} < b - {y} by {
          if a < b {
            assert b - a != {};
            EmptyOrMember(b - a);
            var z :| z in b - a;
            assert z in b - {y} && z !in a - {y};
          }
        }
        SubsetCard(a - {y}, b - {y});
      } else {
        SubsetCard(a, b - {y});
      }
    }
  }

  /** The unserved tokens numbered below n. */
  function AheadSet(db: Db, n: int): (r: set<int>)
    ensures r <= UnservedSet(db)
  {
    set k | k in UnservedSet(db) && k < n
  }

  /** tokens_ahead: how many unserved tokens have a smaller number, whether
      they are still waiting or already being served. */
  function TokensAhead(db: Db, n: int): (r: nat)
    ensures r <= |UnservedSet(db)|
    ensures r == 0 <==> forall k :: k in UnservedSet(db) ==> n <= k
  {
    var ahead := AheadSet(db, n);
    SubsetCard(ahead, UnservedSet(db));
    assert ahead == {} <==> forall k :: k in UnservedSet(db) ==> n <= k by {
      assert forall k :: k in UnservedSet(db) && k < n ==> k in ahead;
      if ahead != {} {
        EmptyOrMember(ahead);
        var z :| z in ahead;
        assert z in UnservedSet(db) && z < n;
      }
    }
    |ahead|
  }

  /** The tokens ahead split into those still waiting and those being
      served. */
  lemma TokensAheadSplit(db: Db, n: int)
    ensures TokensAhead(db, n)
            == |set k | k in WaitingSet(db) && k < n| + |set k | k in ServingSet(db) && k < n|
  {
    var w := set k | k in WaitingSet(db) && k < n;
    var s := set k | k in ServingSet(db) && k < n;
    assert AheadSet(db, n) == w + s;
    assert w * s == {};
  }

  /** Among unserved tokens, a later number has strictly more tokens ahead. */
  lemma LaterTokenHasMoreAhead(db: Db, n1: int, n2: int)
    requires n1 in UnservedSet(db) && n1 < n2
    ensures TokensAhead(db, n1) < TokensAhead(db, n2)
  {
    assert AheadSet(db, n1) < AheadSet(db, n2) by {
      assert n1 in AheadSet(db, n2) && n1 !in AheadSet(db, n1);
    }
    SubsetCard(AheadSet(db, n1), AheadSet(db, n2));
  }

  /** est_wait: one slot per token ahead plus one for the token itself. For
      a non-negative rate it is never below one slot. */
  function EstWait(ahead: nat, perToken: int): (r: int)
    ensures perToken >= 0 ==> r >= perToken
    ensures ahead == 0 ==> r == perToken
  {
    (ahead + 1) * perToken
  }

  /** More tokens ahead never shortens the estimate, at a non-negative rate,
      and strictly lengthens it at a positive one. */
  lemma EstWaitMonotone(a: nat, b: nat, perToken: int)
    requires a <= b && perToken >= 0
    ensures EstWait(a, perToken) <= EstWait(b, perToken)
    ensures a < b && perToken > 0 ==> EstWait(a, perToken) < EstWait(b, perToken)
  {
    assert EstWait(b, perToken) - EstWait(a, perToken) == (b - a) * perToken;
  }

  /** current_serving of queue_status: the smallest unserved token number,
      waiting or being served, or none when every token is served. */
  function CurrentServing(db: Db): (r: Option<int>)
    ensures r.None? <==> UnservedSet(db) == {}
    ensures r.Some? ==> r.value in UnservedSet(db) && forall k :: k in UnservedSet(db) ==> r.value <= k
  {
    var unserved := UnservedSet(db);
    if unserved == {} then None else Some(SetMin(unserved))
  }

  /** An unserved token has no token ahead exactly when it is the one shown
      as currently serving. */
  lemma NoneAheadIffCurrent(db: Db, n: int)
    requires n in UnservedSet(db)
    ensures TokensAhead(db, n) == 0 <==> CurrentServing(db) == Some(n)
  {
  }

  /** The figures queue_status reports for a token. */
  datatype Status = Status(currentServing: Option<int>, tokensAhead: nat, estWait: int)

  /** queue_status: a 404 for an unknown token number; otherwise the current
      serving number, the tokens ahead and the wait estimate. */
  function QueueStatus(db: Db, n: int, perToken: int): (r: Option<Status>)
    ensures r.None? <==> n !in db.tokens
    ensures r.Some? ==> r.value.currentServing == CurrentServing(db)
                        && r.value.tokensAhead == TokensAhead(db, n)
                        && r.value.estWait == EstWait(TokensAhead(db, n), perToken)
  {
    if n !in db.tokens then None
    else
      var ahead := TokensAhead(db, n);
      Some(Status(CurrentServing(db), ahead, EstWait(ahead, perToken)))
  }

  /** The token shown as currently serving is told it has nobody ahead and
      one slot to wait. */
  lemma CurrentTokenStatus(db: Db, perToken: int)
    requires CurrentServing(db).Some?
    ensures var n := CurrentServing(db).value;
            QueueStatus(db, n, perToken) == Some(Status(Some(n), 0, perToken))
  {
  }

  /** str.isdigit, for the ASCII digits: non-empty and every character a
      digit. */
  predicate IsAllDigits(s: string)
  {
    |s| > 0 && forall i :: 0 <= i < |s| ==> '0' <= s[i] <= '9'
  }

  /** The number send_sms hands to the gateway: an all-digit number of
      exactly ten characters gets the "+91" country prefix, anything else is
      passed as given. */
  function NormalizePhone(p: string): (r: string)
    ensures |r| >= |p| && r[|r| - |p|..] == p
    ensures IsAllDigits(p) && |p| == 10 <==> r != p
    ensures r != p ==> r[..|r| - |p|] == "+91"
    ensures !(IsAllDigits(r) && |r| == 10)
  {
    if IsAllDigits(p) && |p| == 10 then "+91" + p else p
  }

  /** Normalising twice is normalising once. */
  lemma NormalizePhoneIdempotent(p: string)
    ensures NormalizePhone(NormalizePhone(p)) == NormalizePhone(p)
  {
  }

  /** The guard of send_sms: no number (None or empty) or SMS switched off
      means nothing is sent and the result is false; otherwise the message
      goes to the normalised number. */
  function SmsDestination(phone: Option<string>, smsEnabled: bool): (r: Option<string>)
    ensures r.None? <==> phone.None? || phone.value == "" || !smsEnabled
    ensures r.Some? ==> r.value == NormalizePhone(phone.value)
  {
    if phone.None? || phone.value == "" || !smsEnabled then None
    else Some(NormalizePhone(phone.value))
  }

  /** send_sms: true exactly when there is a destination and the gateway
      accepted the message; the gateway's answer is a parameter. */
  function SendSms(phone: Option<string>, smsEnabled: bool, gatewayAccepts: bool): (r: bool)
    ensures r ==> phone.Some? && phone.value != "" && smsEnabled
    ensures phone.Some? && phone.value != "" && smsEnabled ==> r == gatewayAccepts
  {
    match SmsDestination(phone, smsEnabled)
    case None => false
    case Some(_) => gatewayAccepts
  }

  /** The counter_id field of the serve_next form: absent or empty, not an
      integer, or an integer id. */
  datatype CounterField = NoField | NotAnInteger | CounterId(id: int)

  /** How a serve_next request ends. */
  datatype ServeOutcome =
    | MissingCounterId      // no counter_id in the form
    | AllCountersBusy       // no counter at all is available
    | InvalidCounterId      // int(counter_id) raised ValueError
    | UnknownCounter        // ServiceCounter.DoesNotExist
    | CounterBusy           // the chosen counter is not available
    | NothingServable       // get_next_servable found nothing, or start_serving refused
    | Assigned(token: int)  // the token was started at the chosen counter

  datatype ServeResult = ServeResult(db: Db, outcome: ServeOutcome)

  /** serve_next: the guard chain, then the next servable token is started at
      the chosen counter. The "all counters busy" messages change no state. */
  function ServeNext(db: Db, field: CounterField, now: int): (r: ServeResult)
    ensures !r.outcome.Assigned? ==> r.db == db
    ensures r.outcome == MissingCounterId <==> field == NoField
    ensures r.outcome == AllCountersBusy <==>
              field != NoField && forall c :: 0 <= c < |db.counters| ==> !db.counters[c].isAvailable
    ensures r.outcome.Assigned? <==>
              field.CounterId? && 0 <= field.id < |db.counters| && db.counters[field.id].isAvailable
              && WaitingSet(db) != {}
    ensures r.outcome.Assigned? ==>
              r.outcome.token == SetMin(WaitingSet(db))
              && r.db == Started(db, r.outcome.token, field.id, now)
  {
    NextServableIsEarliest(db);
    var free := AvailableIds(db.counters);
    assert free != [] ==> db.counters[free[0]].isAvailable;
    if field == NoField then ServeResult(db, MissingCounterId)
    else if free == [] then ServeResult(db, AllCountersBusy)
    else if field == NotAnInteger then ServeResult(db, InvalidCounterId)
    else if !(0 <= field.id < |db.counters|) then ServeResult(db, UnknownCounter)
    else if !db.counters[field.id].isAvailable then ServeResult(db, CounterBusy)
    else
      match NextServable(db)
      case None => ServeResult(db, NothingServable)
      case Some(n) =>
        if CanBeServed(db, n) then ServeResult(Started(db, n, field.id, now), Assigned(n))
        else ServeResult(db, NothingServable)
  }

  /** serve_next starts at most one token: the waiting set loses exactly the
      assigned token and the serving set gains it. */
  lemma ServeNextStartsOne(db: Db, field: CounterField, now: int)
    ensures var r := ServeNext(db, field, now);
            && (r.outcome.Assigned? ==> WaitingSet(r.db) == WaitingSet(db) - {r.outcome.token}
                                        && ServingSet(r.db) == ServingSet(db) + {r.outcome.token})
            && (!r.outcome.Assigned? ==> WaitingSet(r.db) == WaitingSet(db))
  {
    var r := ServeNext(db, field, now);
    if r.outcome.Assigned? {
      StartedMovesToServing(db, r.outcome.token, field.id, now);
    }
  }

  /** serve_next keeps the token/counter pairing. */
  lemma ServeNextPreservesConsistent(db: Db, field: CounterField, now: int)
    requires Consistent(db)
    ensures Consistent(ServeNext(db, field, now).db)
  {
    var r := ServeNext(db, field, now);
    if r.outcome.Assigned? {
      StartedPreservesConsistent(db, r.outcome.token, field.id, now);
    }
  }

  /** mark_served: a 404 for an unknown token number; otherwise
      complete_serving, whatever state the token is in. The messages to the
      next token and to the owner change no state. */
  function MarkServed(db: Db, n: int, now: int): (r: Option<Db>)
    ensures r.None? <==> n !in db.tokens
    ensures r.Some? ==> r.value == Completed(db, n, now)
    ensures r.Some? ==> UnservedSet(r.value) == UnservedSet(db) - {n}
                        && WaitingSet(r.value) == WaitingSet(db) - {n}
  {
    if n !in db.tokens then None
    else
      var after := Completed(db, n, now);
      assert forall m :: m in after.tokens && m != n ==> after.tokens[m] == db.tokens[m];
      Some(after)
  }

  /** mark_served on a token that is not yet served keeps the token/counter
      pairing. */
  lemma MarkServedPreservesConsistent(db: Db, n: int, now: int)
    requires Consistent(db) && n in UnservedSet(db)
    ensures MarkServed(db, n, now).Some? && Consistent(MarkServed(db, n, now).value)
  {
    CompletedPreservesConsistent(db, n, now);
  }

  /** reset_queue: every token is deleted (the counters' current_token is set
      to null by the foreign key's SET_NULL), every counter is made
      available, and on SQLite the token number sequence restarts, so the
      next token is number 1; on another backend the sequence is left as is.
      Names and last_token_completed are kept. */
  function ResetQueue(db: Db, sqlite: bool): (r: Db)
    ensures r.tokens == map[]
    ensures |r.counters| == |db.counters|
    ensures forall c :: 0 <= c < |db.counters| ==>
              r.counters[c] == db.counters[c].(isAvailable := true, currentToken := None)
    ensures r.nextNumber == if sqlite then 1 else db.nextNumber
  {
    var counters := seq(|db.counters|, c requires 0 <= c < |db.counters| =>
                          db.counters[c].(isAvailable := true, currentToken := None));
    Db(map[], counters, if sqlite then 1 else db.nextNumber)
  }

  /** After a reset every counter is available and nothing is queued, and the
      state satisfies the pairing whatever it was before (given a sane
      allocator). */
  lemma ResetQueueConsistent(db: Db, sqlite: bool)
    requires db.nextNumber >= 1
    ensures var r := ResetQueue(db, sqlite);
            Consistent(r) && UnservedSet(r) == {} && AvailableIds(r.counters) == seq(|r.counters|, i => i)
  {
    var r := ResetQueue(db, sqlite);
    AvailableAll(r.counters);
  }

  /** When every counter is available, the snapshot lists every id in order. */
  lemma {:induction false} AvailableAll(cs: seq<Counter>)
    requires forall c :: 0 <= c < |cs| ==> cs[c].isAvailable
    ensures AvailableIds(cs) == seq(|cs|, i => i)
    decreases |cs|
  {
    if cs != [] {
      var last := |cs| - 1;
      AvailableAll(cs[..last]);
      assert seq(|cs|, i => i) == seq(last, i => i) + [last];
    }
  }

  /** What generate_token shows: the new token's number, the tokens ahead of
      it and the wait estimate. */
  datatype Issued = Issued(db: Db, number: int, tokensAhead: nat, estWait: int)

  /** generate_token with a valid form: a new waiting token with the next
      number, issued now; then tokens_ahead and est_wait for it. The
      confirmation message changes no state. */
  function GenerateToken(db: Db, name: string, phone: Option<string>, now: int, perToken: int): (r: Issued)
    ensures r.number == db.nextNumber && r.db.nextNumber == db.nextNumber + 1
    ensures r.db.counters == db.counters
    ensures r.db.tokens == db.tokens[r.number := Token(name, phone, now, false, None, None, None)]
    ensures r.tokensAhead == TokensAhead(r.db, r.number)
    ensures r.estWait == EstWait(r.tokensAhead, perToken)
  {
    var n := db.nextNumber;
    var after := db.(tokens := db.tokens[n := Token(name, phone, now, false, None, None, None)],
                     nextNumber := n + 1);
    var ahead := TokensAhead(after, n);
    Issued(after, n, ahead, EstWait(ahead, perToken))
  }

  /** A token issued in a consistent state is new, waits behind every token
      not yet served, and the state stays consistent. */
  lemma GenerateTokenQueuesLast(db: Db, name: string, phone: Option<string>, now: int, perToken: int)
    requires Consistent(db)
    ensures var r := GenerateToken(db, name, phone, now, perToken);
            && r.number !in db.tokens
            && WaitingSet(r.db) == WaitingSet(db) + {r.number}
            && r.tokensAhead == |UnservedSet(db)|
            && Consistent(r.db)
  {
    var r := GenerateToken(db, name, phone, now, perToken);
    var n := r.number;
    assert forall m :: m in db.tokens ==> r.db.tokens[m] == db.tokens[m];
    assert AheadSet(r.db, n) == UnservedSet(db);
    forall m | m in r.db.tokens ensures TokenConsistent(r.db, m) {
      if m != n {
        assert TokenConsistent(db, m);
      }
    }
    forall c | 0 <= c < |r.db.counters| ensures CounterConsistent(r.db, c) {
      assert CounterConsistent(db, c);
    }
  }

  /** The first token after a reset on SQLite is number 1, has nobody ahead
      and is told one slot of waiting. */
  lemma ResetThenIssue(db: Db, sqlite: bool, name: string, phone: Option<string>, now: int, perToken: int)
    requires sqlite
    ensures var r := GenerateToken(ResetQueue(db, sqlite), name, phone, now, perToken);
            r.number == 1 && r.tokensAhead == 0 && r.estWait == perToken
  {
  }
}
