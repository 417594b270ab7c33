# Queue management core in Dafny

A model of the token/counter assignment core of a Django queue system.
Customers take numbered tokens. Service counters serve them under a
fairness rule that lets a counter pick a token at most three numbers past
the earliest waiting one. A periodic command hands the next servable token
to every free counter, then force-completes tokens served for too long.
Staff can assign one token by hand, mark a token served, and reset the
queue.

The whole persisted state is one value, `Tables.Db`:

- the token table is a map from token number to row;
- the counter table is a sequence, and a counter's id is its position in it;
- `nextNumber` is the token number sequence, the next number to be issued.

Time is a whole number of seconds. Each nullable column is an `Option`.

The model has five modules:

- `Tables`: the rows, the table queries the core uses (waiting, serving and
  unserved tokens, available counters, ascending order, least element) and
  `Consistent`. `Consistent` is the pairing the assignment routines keep
  between a token being served and its counter.
- `Models`: the fairness rule and the token lifecycle of
  `queue_app/models.py`, as functions on `Db`, with lemmas.
- `AutoAssign`: `Command.assign_tokens`. The counter loop and the timeout
  loop are left folds over a snapshot, with lemmas.
- `Views`: the state logic of `queue_app/views.py`. This covers serve_next,
  mark_served, reset_queue, token issue, the status query with its wait
  estimate, and the guard and phone normalisation of send_sms.
- `QueueDb`: the class `Database`. Its fields are the three tables, and its
  methods update them in place the way the source's `save()` calls do. Each
  method is proved to produce the state that the matching function
  describes.

Behaviour follows the code where the source's own settings, docstrings and
comments suggest otherwise:

- the fairness threshold is the class constant `Token.FAIRNESS_THRESHOLD` = 3
  (queue_app/models.py:33); the FAIRNESS_THRESHOLD setting read from the
  environment (queue_management/settings.py:108) is never consulted;
- only the reference token is required not to have started serving (the
  comment at queue_app/models.py:44); `can_be_served` does not look at the
  tested token's own `started_serving`, so a token already being served
  qualifies again and `start_serving` succeeds a second time;
- `complete_serving` writes neither `last_token_completed` nor the token's
  counter reference, so `get_next_available`, documented as picking the
  counter "free the longest" (queue_app/models.py:17), orders by a field that
  stays null; it also has no guard against completing a served token again;
- `assign_tokens` returns before the timeout sweep when no counter is
  available.

The first is the constant `Models.FAIRNESS_THRESHOLD`; each of the others is
stated as a lemma: `Models.StartedEarliestStillQualifies` and
`Models.SecondStartBreaksPairing`; `Models.StartThenCompleteRestoresCounters`
and `Models.CompletingServedTokenFreesBusyCounter`;
`AutoAssign.NoAvailableCounterSkipsSweep`.

Orders the source leaves to the database are fixed as follows:

- the counter snapshot and the serving tokens are taken in ascending id and
  number;
- `order_by('last_token_completed')` puts nulls first, and ties go to the
  lowest id.

## Model

| member | source | states |
|---|---|---|
| Tables.SetMin | queue_app/models.py:45-48 | `.order_by('token_number').first()` on a non-empty set: a member that is no larger than any other member |
| Tables.SortedSeq | queue_app/models.py:84-87 | the rows of a query ordered by token_number: exactly the set's elements, strictly increasing |
| Tables.AvailableIds | queue_app/management/commands/auto_assign_tokens.py:17 | the available counters: every listed id is available, every available id is listed, ascending |
| Models.CanBeServed | queue_app/models.py:38-54 | false for a served token; true iff the token is unserved and its number is at most every waiting number plus FAIRNESS_THRESHOLD (so every unserved token qualifies when nothing is waiting) |
| Models.FirstServable | queue_app/models.py:89-92 | the result is the first candidate, in the given order, that can be served: every earlier candidate fails can_be_served; none only when no candidate can be served |
| Models.NextServable | queue_app/models.py:81-92 | a found token is waiting and can be served |
| Models.NextServableIsEarliest | queue_app/models.py:81-92 | get_next_servable returns none iff no token is waiting, and otherwise exactly the smallest waiting token |
| Models.ServableOnlyWithinWindow | queue_app/models.py:89 | any servable waiting token lies within the first FAIRNESS_THRESHOLD + 1 in ascending order, so the bounded scan misses none |
| Models.Started | queue_app/models.py:61-67 | the token row equals the old one with counter c and started_serving now, every other field kept; counter c equals the old one with current_token n and is_available false, name and last_token_completed kept; an unserved token becomes one being served; no other token or counter changes |
| Models.Completed | queue_app/models.py:71-79 | the token row equals the old one with is_served true and completed_serving now, every other field (counter reference, start) kept; exactly the token's counter (if any) is freed with current_token cleared; no other row changes |
| Models.StartedMovesToServing | queue_app/models.py:62 | starting a waiting token moves it from the waiting set to the serving set |
| Models.CompletedLeavesQueue | queue_app/models.py:73-74 | completing an unserved token removes it from the waiting, serving and unserved sets |
| Models.StartedPreservesConsistent | queue_app/models.py:56-69 | starting a waiting token at an available counter keeps the token/counter pairing |
| Models.CompletedPreservesConsistent | queue_app/models.py:71-79 | completing an unserved token keeps the pairing |
| Models.StartThenCompleteRestoresCounters | queue_app/models.py:56-79 | start then complete at a free counter leaves that counter exactly as before; the token keeps its counter and both times |
| Models.StartedEarliestStillQualifies | queue_app/models.py:38-54 | right after the earliest waiting token is started it still passes can_be_served, so a second start_serving on it succeeds |
| Models.SecondStartBreaksPairing | queue_app/models.py:56-69 | starting the same unserved token at two counters breaks the pairing (the first counter stays busy with a token recorded elsewhere) |
| Models.CompletingServedTokenFreesBusyCounter | queue_app/models.py:71-79 | completing an already served token frees its old counter even while that counter serves another token, breaking the pairing |
| Models.NextAvailable | queue_app/models.py:15-18 | none iff no counter is available; otherwise an available counter with the least last_token_completed (nulls first), the lowest id among equals |
| AutoAssign.AssignStep | queue_app/management/commands/auto_assign_tokens.py:23-25 | one iteration keeps the token keys, the counter count and the allocator |
| AutoAssign.AssignLoop | queue_app/management/commands/auto_assign_tokens.py:22-30 | the counter loop keeps the token keys, the counter count and the allocator |
| AutoAssign.Sweep | queue_app/management/commands/auto_assign_tokens.py:33-46 | the timeout loop keeps the token keys, the counter count and the allocator |
| AutoAssign.AssignTokens | queue_app/management/commands/auto_assign_tokens.py:15-46 | the pass keeps the token keys, the counter count and the allocator |
| AutoAssign.AssignLoopServesEarliest | queue_app/management/commands/auto_assign_tokens.py:22-30 | the counter loop starts exactly min(#snapshot, #waiting) tokens, the smallest waiting numbers in ascending order, the k-th at the k-th snapshot counter; every other row is unchanged and exactly the rest keep waiting; so each counter gets at most one token and no token two counters |
| AutoAssign.AssignLoopOutcome | queue_app/management/commands/auto_assign_tokens.py:22-30 | the same outcome for any strictly increasing list of exactly the waiting tokens |
| AutoAssign.AssignLoopPreservesConsistent | queue_app/management/commands/auto_assign_tokens.py:22-30 | the counter loop over available counters keeps the pairing |
| AutoAssign.SweepCompletesTimedOut | queue_app/management/commands/auto_assign_tokens.py:32-46 | the sweep completes a listed token iff it is being served and now - started_serving > MAX_SERVING_TIME (strict); every other token is unchanged; a counter is freed iff a completed token was served there |
| AutoAssign.SweepPreservesConsistent | queue_app/management/commands/auto_assign_tokens.py:38-41 | the sweep keeps the pairing |
| AutoAssign.NoAvailableCounterSkipsSweep | queue_app/management/commands/auto_assign_tokens.py:17-19 | with no available counter the pass changes nothing, timeout sweep included |
| AutoAssign.AssignTokensPreservesConsistent | queue_app/management/commands/auto_assign_tokens.py:15-46 | the whole pass keeps the pairing |
| AutoAssign.AssignTokensOutcome | queue_app/management/commands/auto_assign_tokens.py:15-46 | the whole pass: the earliest waiting tokens are started at the snapshot counters in order; the tokens already being served are completed iff strictly over the limit; all other tokens are unchanged |
| AutoAssign.PassFreshTokens | queue_app/management/commands/auto_assign_tokens.py:39-40 | a token started in the same pass (duration 0) is timed out only when MAX_SERVING_TIME is negative |
| Views.TokensAhead | queue_app/views.py:83 | at most the number of unserved tokens; zero iff no unserved token has a smaller number |
| Views.TokensAheadSplit | queue_app/views.py:83 | tokens ahead = waiting ahead + being served ahead |
| Views.LaterTokenHasMoreAhead | queue_app/views.py:83 | of two numbers, with the smaller one unserved, the larger has strictly more tokens ahead |
| Views.EstWait | queue_app/views.py:85 | at least one slot for a non-negative rate; exactly one slot with nobody ahead |
| Views.EstWaitMonotone | queue_app/views.py:85 | the estimate grows with the tokens ahead, strictly at a positive rate |
| Views.CurrentServing | queue_app/views.py:82 | none iff every token is served, otherwise the smallest unserved number |
| Views.NoneAheadIffCurrent | queue_app/views.py:82-83 | an unserved token has nobody ahead iff it is the one shown as currently serving |
| Views.QueueStatus | queue_app/views.py:80-85 | a 404 exactly for an unknown number; otherwise current serving, tokens ahead and wait estimate |
| Views.CurrentTokenStatus | queue_app/views.py:80-85 | the token shown as currently serving is told zero ahead and one slot of waiting |
| Views.NormalizePhone | queue_app/views.py:56-58 | the result ends with the input; it differs from the input iff the input is exactly ten digits, and then the prefix is "+91"; the result is never a bare ten-digit number |
| Views.NormalizePhoneIdempotent | queue_app/views.py:57-58 | normalising twice equals normalising once |
| Views.SmsDestination | queue_app/views.py:53-58 | no destination iff the phone is None or empty or SMS is disabled; otherwise the normalised number |
| Views.SendSms | queue_app/views.py:51-78 | true only with a non-empty phone and SMS enabled, and then exactly when the gateway accepts |
| Views.ServeNext | queue_app/views.py:162-211 | state unchanged unless a token is assigned; missing id, all counters busy and assignment each happen exactly in their guard's case; the assigned token is the smallest waiting one, started at the chosen counter |
| Views.ServeNextStartsOne | queue_app/views.py:191-192 | at most one token leaves the waiting set, and it enters the serving set |
| Views.ServeNextPreservesConsistent | queue_app/views.py:162-211 | serve_next keeps the pairing |
| Views.MarkServed | queue_app/views.py:214-219 | a 404 exactly for an unknown number; otherwise complete_serving, and the token leaves the unserved and waiting sets |
| Views.MarkServedPreservesConsistent | queue_app/views.py:214-219 | marking an unserved token served keeps the pairing |
| Views.ResetQueue | queue_app/views.py:247-258 | no tokens; every counter available with no current token, name and last completion kept; numbering restarts at 1 on SQLite only |
| Views.ResetQueueConsistent | queue_app/views.py:250-253 | after a reset the pairing holds, nothing is unserved, and the snapshot is every counter in order |
| Views.GenerateToken | queue_app/views.py:20-31 | the new token has the next number and is waiting; the allocator advances by one; no counter changes |
| Views.GenerateTokenQueuesLast | queue_app/views.py:26-28 | the new number is fresh and joins the waiting set; every unserved token is ahead of it; the pairing is kept |
| Views.ResetThenIssue | queue_app/views.py:247-258 | the first token after a reset on SQLite is number 1, with nobody ahead and one slot of waiting |
| QueueDb.Database.CreateCounter | queue_app/views.py:119-126 | appends an available counter with no current token and returns its id; the pairing is kept |
| QueueDb.Database.StartServing | queue_app/models.py:56-69 | refuses and changes nothing iff can_be_served is false; otherwise leaves the state of Models.Started |
| QueueDb.Database.CompleteServing | queue_app/models.py:71-79 | leaves the state of Models.Completed |
| QueueDb.Database.AssignCounters | queue_app/management/commands/auto_assign_tokens.py:22-30 | the first loop leaves the state of AssignLoop |
| QueueDb.Database.CompleteTimedOut | queue_app/management/commands/auto_assign_tokens.py:32-46 | the second loop leaves the state of Sweep |
| QueueDb.Database.AssignTokens | queue_app/management/commands/auto_assign_tokens.py:15-46 | leaves the state of AutoAssign.AssignTokens and keeps the pairing |
| QueueDb.Database.ServeNext | queue_app/views.py:162-211 | returns the outcome and leaves the state of Views.ServeNext; keeps the pairing |
| QueueDb.Database.MarkServed | queue_app/views.py:214-219 | reports an unknown number and changes nothing then; otherwise leaves the state of Views.MarkServed |
| QueueDb.Database.ResetQueue | queue_app/views.py:247-258 | leaves the state of Views.ResetQueue, which satisfies the pairing |
| QueueDb.Database.GenerateToken | queue_app/views.py:20-47 | leaves the state and returns the number, tokens ahead and estimate of Views.GenerateToken; keeps the pairing |

## Left out

- Twilio calls, message texts and `timezone.localtime`/`strftime` formatting are not modelled: they are a foreign service and presentation. The gateway's answer is the `gatewayAccepts` parameter of `Views.SendSms`.
- The "all counters busy" SMS loop of serve_next, and the messages sent by generate_token and mark_served, are not modelled: they change no state.
- Rendering, redirects, `JsonResponse`, the AJAX check, request parsing, non-POST requests and the staff check are web plumbing and are not modelled.
- Form validation is not modelled: the operations take the cleaned fields. This covers the name and phone length limits and the invalid-form redirect of generate_token and create_counter.
- The commented-out earlier serve_next (queue_app/views.py:128-160) is dead code and is not modelled.
- `handle`'s endless `while True` / `time.sleep` driver is not modelled. `AUTO_ASSIGN_INTERVAL` plays no part.
- Concurrency is not modelled. The periodic command and the views run with no locking, and the model runs operations one after another.
- Each operation takes one clock reading, `now`, in whole seconds. The source calls `timezone.now()` again for each start, completion and duration, and compares float `total_seconds()`.
- Counter ids are positions in the counter table, not database primary keys. Creating counters appends to it, and the core never deletes a counter.
- The database returns rows of the snapshot, the serving query and `order_by('last_token_completed')` in an order it chooses. The model fixes one order; the order is as stated above.
- Only the SQLite branch of reset_queue restarts numbering; the SQL statement itself is not modelled. Another backend keeps its sequence, and a failure of the statement is not modelled.
- MAX_SERVING_TIME and PER_TOKEN_MINUTES are parameters of the operations. Their defaults are 600 seconds (queue_management/settings.py:110) and 2 minutes (the `getattr` default at queue_app/views.py:29, since the settings do not define PER_TOKEN_MINUTES).
- Views.NormalizePhone: `str.isdigit` is modelled for the ASCII digits only; Python also accepts other Unicode digit characters.
- Views.ServeNext: the form's counter_id is abstracted to absent, not an integer, or an integer. Python's `int()` also accepts surrounding whitespace and a sign, and the model does not parse the string.
- AutoAssign.AssignTokensOutcome: speaks about tokens only. The counters after each loop are given by AssignLoopServesEarliest and SweepCompletesTimedOut.
- QueueDb.Database.StartServing: requires an existing token and counter, as the source passes loaded rows. It ignores that `save()` writes back every field of the loaded objects; no field changes between load and save in the core.
