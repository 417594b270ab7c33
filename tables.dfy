/** The persisted state of the queue application: the token table, the
    counter table and the allocator that hands out token numbers.

    A token row is keyed by its token_number (an auto-increment primary key);
    a counter row is identified by its position in the counter table, since
    counters are created one after another and never deleted by the core.
    Timestamps are whole seconds; a nullable timestamp is an Option. */
module Tables {

  datatype Option<T> = None | Some(value: T)

  /** One row of the token table (queue_app/models.py, class Token). */
  datatype Token = Token(
    customerName: string,
    phoneNumber: Option<string>,
    issuedAt: int,
    isServed: bool,
    counter: Option<int>,
    startedServing: Option<int>,
    completedServing: Option<int>)

  /** One row of the counter table (queue_app/models.py, class ServiceCounter). */
  datatype Counter = Counter(
    name: string,
    isAvailable: bool,
    currentToken: Option<int>,
    lastTokenCompleted: Option<int>)

  /** Both tables and the next token number the allocator will issue. */
  datatype Db = Db(tokens: map<int, Token>, counters: seq<Counter>, nextNumber: int)

  /** Unserved and not yet started: the rows `is_served=False, started_serving__isnull=True`. */
  predicate IsWaiting(t: Token) { !t.isServed && t.startedServing.None? }

  /** Unserved and started: the rows `is_served=False, started_serving__isnull=False`. */
  predicate IsServing(t: Token) { !t.isServed && t.startedServing.Some? }

  function WaitingSet(db: Db): (r: set<int>)
    ensures r <= db.tokens.Keys
  {
    set n | n in db.tokens && IsWaiting(db.tokens[n])
  }

  function ServingSet(db: Db): (r: set<int>)
    ensures r <= db.tokens.Keys
  {
    set n | n in db.tokens && IsServing(db.tokens[n])
  }

  function UnservedSet(db: Db): (r: set<int>)
    ensures r <= db.tokens.Keys
  {
    set n | n in db.tokens && !db.tokens[n].isServed
  }

  predicate StrictlyIncreasing(s: seq<int>)
  {
    forall i, j :: 0 <= i < j < |s| ==> s[i] < s[j]
  }

  /** A set is empty or has a member. */
  lemma EmptyOrMember(s: set<int>)
    ensures s == {} || exists z :: z in s
  {
    if forall z :: z !in s {
      assert s == {};
    }
  }

  /** A least element of a non-empty finite set of integers, found by
      induction on the set. */
  lemma {:induction false} Least(s: set<int>) returns (m: int)
    requires s != {}
    ensures m in s
    ensures forall x :: x in s ==> m <= x
  {
    EmptyOrMember(s);
    var y :| y in s;
    var rest := s - {y};
    if rest == {} {
      m := y;
      forall x | x in s ensures m <= x {
        assert x !in rest;
      }
    } else {
      var r := Least(rest);
      m := if y < r then y else r;
      forall x | x in s ensures m <= x {
        if x != y {
          assert x in rest;
        }
      }
    }
  }

  lemma HasLeast(s: set<int>)
    requires s != {}
    ensures exists m :: m in s && forall x :: x in s ==> m <= x
  {
    var m := Least(s);
    assert m in s && forall x :: x in s ==> m <= x;
  }

  /** The least element of a set: what `order_by(...).first()` picks. */
  function SetMin(s: set<int>): (m: int)
    requires s != {}
    ensures m in s
    ensures forall x :: x in s ==> m <= x
  {
    HasLeast(s);
    var m :| m in s && forall x :: x in s ==> m <= x;
    m
  }

  /** The elements of a set in ascending order: the rows of a query ordered by
      token_number. */
  function SortedSeq(s: set<int>): (r: seq<int>)
    ensures |r| == |s|
    ensures forall x :: x in r <==> x in s
    ensures StrictlyIncreasing(r)
    decreases |s|
  {
    if s == {} then []
    else
      var m := SetMin(s);
      var rest := SortedSeq(s - {m});
      assert forall i :: 0 <= i < |rest| ==> m < rest[i] by {
        forall i | 0 <= i < |rest| ensures m < rest[i] {
          assert rest[i] in s - {m};
        }
      }
      [m] + rest
  }

  /** In a strictly increasing sequence of integers the i-th element is at
      least i above the first. */
  lemma {:induction false} IncreasingGap(s: seq<int>, i: int)
    requires StrictlyIncreasing(s)
    requires 0 <= i < |s|
    ensures s[i] >= s[0] + i
  {
    if i > 0 {
      IncreasingGap(s, i - 1);
    }
  }

  /** The first element of the ascending enumeration of a set is that set's
      least element. */
  lemma SortedHeadIsMin(s: set<int>)
    requires s != {}
    ensures |SortedSeq(s)| > 0 && SortedSeq(s)[0] == SetMin(s)
  {
  }

  /** The ids of the available counters in ascending id order: the rows of
      `ServiceCounter.objects.filter(is_available=True)`. */
  function AvailableIds(cs: seq<Counter>): (r: seq<int>)
    ensures forall i :: 0 <= i < |r| ==> 0 <= r[i] < |cs| && cs[r[i]].isAvailable
    ensures forall c :: 0 <= c < |cs| && cs[c].isAvailable ==> c in r
    ensures StrictlyIncreasing(r)
    decreases |cs|
  {
    if cs == [] then []
    else
      var last := |cs| - 1;
      var rest := AvailableIds(cs[..last]);
      if cs[last].isAvailable then rest + [last] else rest
  }

  /** The pairing that the assignment routines keep between a token and the
      counter serving it, together with the bookkeeping of the allocator. */
  predicate Consistent(db: Db)
  {
    && db.nextNumber >= 1
    && (forall n :: n in db.tokens ==> 1 <= n < db.nextNumber)
    && (forall n :: n in db.tokens ==> TokenConsistent(db, n))
    && (forall c :: 0 <= c < |db.counters| ==> CounterConsistent(db, c))
  }

  /** A token refers to an existing counter, is completed exactly when it has
      a completion time, has no counter while waiting, and while being served
      is the current token of its counter. */
  predicate TokenConsistent(db: Db, n: int)
    requires n in db.tokens
  {
    var t := db.tokens[n];
    && (t.counter.Some? ==> 0 <= t.counter.value < |db.counters|)
    && (t.isServed <==> t.completedServing.Some?)
    && (IsWaiting(t) ==> t.counter.None?)
    && (IsServing(t) ==>
          t.counter.Some? && 0 <= t.counter.value < |db.counters|
          && db.counters[t.counter.value].currentToken == Some(n))
  }

  /** A counter is available exactly when it has no current token, and its
      current token is a token being served at that counter. */
  predicate CounterConsistent(db: Db, c: int)
    requires 0 <= c < |db.counters|
  {
    var k := db.counters[c];
    && (k.isAvailable <==> k.currentToken.None?)
    && (k.currentToken.Some? ==>
          k.currentToken.value in db.tokens
          && IsServing(db.tokens[k.currentToken.value])
          && db.tokens[k.currentToken.value].counter == Some(c))
  }
}
