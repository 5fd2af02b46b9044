# Connector and scheduler: verified model

This project models the parts of the connector, and of the scheduler it talks to, whose behaviour is
hardest to see from one function at a time, and proves what they promise over every input, run or
interleaving.

* **Scheduled delivery** (`delivery_outbox`, `delivery_worker`, `delivery_protocol`, `polling`,
  `schedules_api`). A worker claims leased intents from a durable outbox, runs one task per intent,
  swaps in newer lease tokens, sends a result or a notice and acknowledges it with bounded retries.
  The worker, its tasks, the outbox and the messages between them are one state machine whose steps
  are the stretches between two awaits. An inductive invariant gives: one live task per intent, at
  most 20 active, a token always present and always the newest, no task started after an accepted
  acknowledgement, and the bound on posts the repository's README.md:122-123 describes in words, which
  is reached for every number of tasks that end unacknowledged. What the outbox finally records is
  what some task did.
* **Replay guard and ingress gate** (`replay_guard`, `ingress_gate`). The bounded, lazily evicted
  dictionary, with its two readings of the clock and its sort, refines a predicate over the plain log
  of everything ever accepted; exactly which requests of a trace are admitted follows from that log.
* **Transport contracts** (`callbacks`, `event_stream`). Callback records with an idempotency index,
  and the bounded event buffer with a resuming client.
* **Rate limiter** (`rate_limiter`). An any-interval bound per bucket, hence per user and per channel, and
  the exact age of garbage collection from which it holds and from which collecting cannot be observed.
* **Command firewall** (`command_firewall`, `command_round_trip`). Which accepted commands survive
  being shown and read back by the router, as an exact condition.
* **Media tokens and files, parameter sweeps, newline normalisation** (`media_store`,
  `batch_variants`, `newlines`), and the Python string and number primitives they need (`text`,
  `numbers`).

Code that changes state is modelled as classes and methods whose postconditions tie the new state to a
function of the old one; the main results are lemmas about those functions over whole runs. Every
operation takes its readings of the clock as non-decreasing arguments, Python floats are reals, and ids and lease
tokens drawn at random are fresh arguments.

## Where the code differs from what one might expect

* A flag key accepted by the command firewall may end in a newline, because its pattern ends in `$`
  (`connector/command_firewall.py:19`). Such a key does not survive being shown and read back
  (`CommandRoundTrip.NewlineKeyIsLost`); `CommandRoundTrip.RoundTrip` therefore asks for plain names.
  The other conditions are that values shown in quotes hold no double quote and no backslash before a
  backslash or at the end, and that other values and all arguments hold no white space, double quote
  or backslash.
* The router strips the text before it reads it (`connector/router_dispatch.py:33`), and stripping
  takes off more kinds of white space than the lexer splits at. A shown command that ends in a
  no-break space, for one, is read back by the lexer but not by the router
  (`CommandRoundTrip.TrailingSpaceIsLost`); `CommandRoundTrip.RouterReads` and
  `CommandRoundTrip.RoundTrip` therefore also ask that the text does not end in white space, and that
  it fits the router's length limit.
* `_bounded_int` does not catch the overflow that an infinite number raises
  (`api/schedules.py:111-113`), so such a claim is neither clamped nor answered as malformed
  (`SchedulesApi.BoundedIntExact`).
* A delivered callback can still fail: `record_attempt` does not look at the state
  (`connector/transport_contract.py:425-431`). The key is then free again and can be delivered a second
  time under a new id, whatever the maximum of attempts (`Callbacks.KeyDeliveredTwice`). That takes
  attempts recorded after the delivery that bring the count to the maximum, and nothing else does it
  (`Callbacks.DeliveredUntilFailed`, `Callbacks.KeyKeptUntilFailed`,
  `Callbacks.SecondDeliveryNeedsAttempts`).
* `check_and_record` reads the clock twice, so a key can be written over its own expired entry, in its
  old place, and the dictionary then is not in time order (`ReplayGuard.TimeOrderIsLost`). The sort of
  the cap is what makes this harmless (`ReplayGuard.SortPut`, `ReplayGuard.ReplayGuard.CheckAndRecord`).
* A request outside the allowlist, or without a user id, uses up its request id
  (`IngressGate.WhatIsConsumed`).
* A token issued long enough after its file was written outlives the file; `MediaStore.CleanableWhileLive`
  says exactly when.
* A media token whose file name or channel id contains a colon is issued but never accepted
  (`MediaStore.TokenRoundTrip`).
* A text with a lone CR right before a newline written as LF loses a line when it is normalised
  (`Newlines.RestoredIff`).

## Model

| member | source | states |
|---|---|---|
| DeliveryOutbox.AckFinalises | services/scheduler/delivery_outbox.py:390-432 | an accepted acknowledgement holds the current token, changes only its intent, finalises it with the reported outcome, can be repeated, and the intent is never leaseable again; a refusal changes nothing |
| DeliveryOutbox.AckAcceptedIff | services/scheduler/delivery_outbox.py:390-432 | exactly when an acknowledgement is accepted: valid outcome and reason, current token, claimed or already finalised alike |
| DeliveryOutbox.ReportsAccepted | services/scheduler/delivery_outbox.py:401-411 | which outcomes and reasons are accepted together, and the reason that is filled in |
| DeliveryOutbox.AckAnswers | services/scheduler/delivery_outbox.py:390-432 | which answer each acknowledgement gets, each of the five refusals and the two acceptances exactly |
| DeliveryOutbox.AckStatus | api/schedules.py:88-95 | the status of a refusal by what is wrong: 400 for the request, 404 for an unknown intent, 409 for one held or finished by another |
| DeliveryOutbox.LeaseRunsOut | services/scheduler/delivery_outbox.py:341-388 | a lease lasts as long as asked, between 60 and 7200 seconds, and the intent can be leased again from its end on and not before |
| DeliveryWorker.OutboxRefusalsAreFinal | api/schedules.py:88-95 | every refusal of the outbox reaches the worker as a status that ends its retry loop |
| DeliveryWorker.RunAck | connector/schedule_delivery.py:215-253 | the acknowledgement loop on the replies: at most five attempts with the tokens at hand, another one exactly after an answer that is not ok and has no status, one from 500 on, or 429; the end told by the last answer; the pauses made; at most 120 seconds of them |
| DeliveryWorker.WhichAnswersAreFinal | connector/schedule_delivery.py:228-238 | which answers end the loop and which are retried, by their status |
| DeliveryWorker.LoopGoesOn | connector/schedule_delivery.py:215-244 | one turn of the loop, on the status of its answer |
| DeliveryWorker.ThrottledIsRetried | connector/schedule_delivery.py:229-232 | a throttled acknowledgement that succeeds at the second attempt is acknowledged in two |
| DeliveryWorker.PauseExactly | connector/schedule_delivery.py:247-253 | the pause is the hint of a throttled answer, at most 30 seconds, and otherwise a second per attempt made |
| DeliveryWorker.TargetsAllowed | connector/schedule_delivery.py:200-213 | which allowlist decides for which platform, an empty one allowing every target |
| DeliveryWorker.RefusedAtOnce | connector/schedule_delivery.py:163-170 | which deliveries are refused before the wait, and with which reason |
| DeliveryWorker.DeliveredExactly | connector/schedule_delivery.py:144-198 | what is sent and what is reported, each case exactly |
| DeliveryWorker.PlatformsOffered | connector/schedule_delivery.py:67-68 | the four platforms that are loaded, in their order |
| DeliveryWorker.ScheduleDeliveryWorker.PlanClaim | connector/schedule_delivery.py:105-113 | claims nothing without platforms or capacity; otherwise between 1 and 10, never beyond 20 active, and less than 10 only to fill up to 20 |
| DeliveryWorker.ScheduleDeliveryWorker.HandleClaim | connector/schedule_delivery.py:119-138 | both dictionaries and the started tasks are those of the protocol's claim step; the count returned is the number of tasks started |
| DeliveryWorker.ScheduleDeliveryWorker.Forget | connector/schedule_delivery.py:140-142 | exactly the entries of one id leave both dictionaries |
| DeliveryProtocol.StepInv | connector/schedule_delivery.py:105-244 | every step of worker, task, outbox and network keeps the invariant |
| DeliveryProtocol.RunInv | connector/schedule_delivery.py:105-244 | so does every run |
| DeliveryProtocol.Bookkeeping | connector/schedule_delivery.py:105-142 | in every reachable state both dictionaries have the same keys, an entry is the one task of its id not yet forgotten, at most one task per id is live, and at most 20 are active though capacity is computed before an await |
| DeliveryProtocol.ForgetRemovesOwn | connector/schedule_delivery.py:134-142 | the done callback removes its own task's entries, never a successor's |
| DeliveryProtocol.TokenAlwaysThere | connector/schedule_delivery.py:129-131 | a live task finds a token, it is the newest the worker was given for the intent, and the exit without a token is never taken |
| DeliveryProtocol.NoStartAfterAck | connector/schedule_delivery.py:122-137 | a claim response never starts a task for an intent with an accepted acknowledgement |
| DeliveryProtocol.AckDiscipline | connector/schedule_delivery.py:144-244 | over every interleaving each task keeps one valid report, makes at most five requests with the newest token each and none after a final answer, at least one unless cancelled, and reports `sent` only after the result was sent |
| DeliveryProtocol.AnswersDecide | connector/schedule_delivery.py:215-244 | over every interleaving, on the status itself: which answer ends a task how, and after which it goes on |
| DeliveryProtocol.PollAsks | connector/schedule_delivery.py:105-113 | when a claim is made and for how many intents |
| DeliveryProtocol.MovesDeliver | connector/schedule_delivery.py:144-198 | a task's steps, left alone, send and report what one run of `_run` does |
| DeliveryProtocol.AckStepsAreTheLoop | connector/schedule_delivery.py:215-244 | a task's acknowledgement steps, left alone on given tokens and replies, make the attempts of the loop and end as it does |
| DeliveryProtocol.SendBound | connector/schedule_delivery.py:144-244 | an intent is posted at most once plus once for each of its tasks that ended without a successful acknowledgement |
| DeliveryProtocol.SendBoundReached | connector/schedule_delivery.py:91-97 | for every n there is a run in which n tasks of an intent end without a successful acknowledgement and it is posted n + 1 times, so the bound is reached |
| DeliveryProtocol.FinalIsTrue | connector/schedule_delivery.py:144-244 | what the outbox finally records of an intent is what one of its tasks reported, and an intent recorded as sent was posted by a task whose send returned |
| DeliveryProtocol.RunContinues | connector/schedule_delivery.py:144-244 | over the rest of any run a task keeps its report and requests, a finished task never changes again, an accepted acknowledgement stays accepted |
| Polling.RequestNumber | connector/results_poller.py:251-275 | any history request started before the timeout T is among the first ceil(T/15) + 3 |
| Polling.RequestNumberTight | connector/results_poller.py:251-275 | from eight seconds on, instantaneous requests that go on until the timeout are exactly that many |
| Polling.FirstDelays | connector/results_poller.py:251-275 | the sleeps 1, 2, 4, 8, 15 and 2, 4, 8, 15 |
| Polling.WaitForJob | connector/results_poller.py:251-275 | finds the job exactly when some request started in time shows it, makes at most ceil(T/15) + 3 requests, sleeps the doubling schedule and less than T + 15 seconds |
| Polling.PollApproval | connector/results_poller.py:164-222 | a refusal notice or a tracked job exactly as the last answer says, a timeout only when no answer was either, after a bounded number of requests, none started after the timeout |
| Polling.RunDelivery | connector/schedule_delivery.py:144-198 | what is sent and reported follows from whether the job was found in time, failed, and whether the send raised; at most one send; the acknowledgement is the loop's; asleep less than the lease and 15 seconds |
| SchedulesApi.BoundedIntExact | api/schedules.py:104-114 | rejects exactly the malformed values, raises exactly on infinite ones, clamps the others, and passes numbers in range through unchanged, as integers or as text |
| SchedulesApi.BoundedIntValues | api/schedules.py:104-114 | the default for an absent value, the nearest bound for one out of range, floats cut off toward zero, text as the integer it spells |
| SchedulesApi.ClaimsExactly | api/schedules.py:580-592 | which claims get through and with which platforms, limit and lease, and which error the others get |
| SchedulesApi.WorkerClaimsPassUnchanged | api/schedules.py:580-592 | every claim the worker can send passes validation, is not clamped, and gets the lease it asked for |
| ReplayGuard.ReplayGuard.EvictExpired | connector/security_profile.py:243-250 | in time order, leaves exactly the entries in the window, the newest of them up to the cap |
| ReplayGuard.ReplayGuard.EnforceCap | connector/security_profile.py:252-258 | in time order, leaves exactly the newest entries up to the cap, ties of the sort included |
| ReplayGuard.ReplayGuard.CheckAndRecord | connector/security_profile.py:220-237 | for any two readings of the clock in order, answers False exactly for a key among the accepted ones that, at the second reading, are in the window and among the last `max_entries`; what is within the window of the dictionary ends up as exactly those, and the log grows by the new key |
| ReplayGuard.CountingIsTail | connector/security_profile.py:220-258 | what counts is an end of the log, so lazy eviction and the cap cut at the same place |
| ReplayGuard.RecordingRemembers | connector/security_profile.py:220-237 | recording a new key, over an expired entry of its own if there is one, and capping afterwards keeps the dictionary in step with the longer log |
| ReplayGuard.SortKeepsChronological | connector/security_profile.py:252-258 | what is in time order is left alone by the sort, ties included |
| ReplayGuard.SortPut | connector/security_profile.py:234-258 | sorted by time, a key written in place comes last, as if it had been removed and appended |
| ReplayGuard.SortWithout | connector/security_profile.py:252-258 | deleting a key and sorting by time commute |
| ReplayGuard.TimeOrderIsLost | connector/security_profile.py:225-234 | a dictionary the guard can hold that is not in time order |
| ReplayGuard.IsNewExactly | connector/security_profile.py:220-258 | read off the log: a key is new if and only if each of its entries is older than the window or has at least `max_entries` entries after it |
| IngressGate.ScopeDenies | connector/security_profile.py:322-346 | exactly whom an allowlist keeps out, with blank entries dropped and strictness for an empty list |
| IngressGate.PassesAuth | connector/security_profile.py:478-501 | who passes authentication, by what is configured and what the verifiers say |
| IngressGate.NothingConfigured | connector/security_profile.py:491-501 | with neither a usable secret nor a token every request is refused with that code |
| IngressGate.PassesScope | connector/security_profile.py:322-346 | who is in scope, by the list and its strictness |
| IngressGate.RefusalExactly | connector/security_profile.py:503-536 | each code after authentication, exactly when it is given |
| IngressGate.IngressGate.Evaluate | connector/security_profile.py:456-536 | admits exactly the authentic requests with a new id that are in scope, and never one that no configured verifier accepts; the code of the first check that fails; the guard's log after it |
| IngressGate.WhatIsConsumed | connector/security_profile.py:497-533 | a request without valid auth leaves the guard as it was, an authentic new id is used up even when the scope check turns it away |
| IngressGate.AdmittedExactly | connector/security_profile.py:456-536 | over every trace, a request is admitted if and only if it is authentic, in scope, has an id, and each earlier recording of that id is more than a window ago or has at least `max_entries` recordings after it |
| IngressGate.AdmittedPlainly | connector/security_profile.py:456-536 | the same, down to the secret, the token, the verifiers and the list |
| IngressGate.ReplayedOnlyWhenForgotten | connector/security_profile.py:456-536 | over every trace, two admitted requests with one id are more than a window apart or have `max_entries` acceptances between them |
| IngressGate.UnseenIsNew | connector/security_profile.py:220-237 | an id not accepted within the window is never called a replay |
| EventStream.EventStreamContract.Emit | connector/transport_contract.py:220-232 | events are numbered from 1 without gaps and the buffer stays the last `max_buffer` of all events |
| EventStream.EventStreamContract.Replay | connector/transport_contract.py:234-247 | the buffered events after the first one with the id, or all of them |
| EventStream.ReplayExactly | connector/transport_contract.py:234-247 | what comes after the first event with the id, or everything without one |
| EventStream.FetchIsExact | connector/transport_contract.py:220-247 | a resume returns, in order and without gaps, the events after the last one seen, skipping exactly max(0, counter - seen - max_buffer) |
| EventStream.RunFollows | connector/transport_contract.py:220-254 | over every run of emits and resumes the client sees strictly increasing sequences and after a resume is up to date |
| EventStream.ReceivedPlusLost | connector/transport_contract.py:220-254 | every event up to the last one seen was received or lost, exactly once |
| Callbacks.CallbackContract.Create | connector/transport_contract.py:328-376 | returns the live record of the key or files a new one under its id and key; a contradictory policy changes nothing |
| Callbacks.CallbackContract.Acknowledge | connector/transport_contract.py:378-396 | the book and the answer are those of the acknowledge step |
| Callbacks.CallbackContract.Deliver | connector/transport_contract.py:398-423 | the book and the answer are those of the deliver step |
| Callbacks.CallbackContract.RecordAttempt | connector/transport_contract.py:425-431 | the book and the answer are those of the attempt step |
| Callbacks.CallbackContract.GetByKey | connector/transport_contract.py:439-443 | finds the record the index names and expires it if it is due |
| Callbacks.PolicyExactly | connector/transport_contract.py:478-495 | strict unless asked otherwise, refused only for asking for both |
| Callbacks.NewRecordExactly | connector/transport_contract.py:364-376 | the fields of a new record, the contract's time to live where none, or zero, was asked for |
| Callbacks.ExpiresExactly | connector/transport_contract.py:451-469 | looking at a record expires it exactly if it is open past its time to live, or pending, in need of an acknowledgement, and past the ack window |
| Callbacks.AcknowledgesExactly | connector/transport_contract.py:378-396 | an acknowledgement succeeds exactly for a pending record within ack window and time to live; each error exactly |
| Callbacks.DeliversExactly | connector/transport_contract.py:398-423 | a delivery succeeds exactly within the time to live for a record that was acknowledged, or is pending and needs no acknowledgement; each error exactly |
| Callbacks.AttemptsExactly | connector/transport_contract.py:425-431 | an attempt is counted, and fails the record at its maximum, whatever its state |
| Callbacks.CreatesExactly | connector/transport_contract.py:347-376 | which record a creation gives back, or makes |
| Callbacks.TouchesExactly | connector/transport_contract.py:378-449 | every other operation changes at most the record it looks at, and answers NotFound or nothing without one |
| Callbacks.AcknowledgedIsDelivered | connector/transport_contract.py:378-469 | a record acknowledged within its ack window is delivered at any later time within its time to live |
| Callbacks.StepKeeps | connector/transport_contract.py:328-469 | every operation keeps the book in order and moves each record only upwards in pending, acknowledged, delivered or expired, failed |
| Callbacks.RunKeeps | connector/transport_contract.py:328-469 | so does every run |
| Callbacks.OneLivePerKey | connector/transport_contract.py:347-376 | over every run at most one record of a key is pending, acknowledged or delivered, and the index names it |
| Callbacks.DeadStaysDead | connector/transport_contract.py:347-376 | a superseded record is never live again |
| Callbacks.DeliveredOnce | connector/transport_contract.py:398-423 | a second delivery of a record fails, whatever happened in between |
| Callbacks.StrictDelivery | connector/transport_contract.py:378-423 | a delivered record was delivered within its time to live and, if it needed it, acknowledged before that within its ack window and its time to live |
| Callbacks.OpenHasAttempts | connector/transport_contract.py:425-431 | a record still open has attempts left |
| Callbacks.DeliveredUnless | connector/transport_contract.py:425-431 | one operation takes a record out of delivered exactly if it records the attempt that reaches the maximum |
| Callbacks.DeliveredUntilFailed | connector/transport_contract.py:398-431 | over every run a delivered record stays delivered exactly as long as the attempts recorded since, if any, leave its count below the maximum; afterwards it has failed, and nothing else of it changes |
| Callbacks.KeyKeptUntilFailed | connector/transport_contract.py:347-376 | over every run, creating with the key of a delivered record returns that record exactly until recorded attempts have failed it |
| Callbacks.SecondDeliveryNeedsAttempts | connector/transport_contract.py:347-431 | a key is delivered again only under another id and only after recorded attempts have failed the first record |
| Callbacks.SecondDeliveryNeedsFailure | connector/transport_contract.py:347-431 | of two delivered records of one key at least one has failed |
| Callbacks.KeyDeliveredTwice | connector/transport_contract.py:425-431 | for any settings, and in strict mode for any ack window that is not negative, a run in which a key is delivered twice |
| RateLimiter.TokenBucket.Consume | connector/rate_limiter.py:20-32 | the bucket's new contents and the answer are those of one draw |
| RateLimiter.RateLimiter.IsAllowed | connector/rate_limiter.py:67-79 | both buckets are charged whatever the first answers; allowed when both are |
| RateLimiter.RateLimiter.Cleanup | connector/rate_limiter.py:81-91 | exactly the buckets used since the cutoff remain, as they were |
| RateLimiter.DrawExactly | connector/rate_limiter.py:20-32 | what a draw leaves in a bucket, and when it is granted |
| RateLimiter.AllowExactly | connector/rate_limiter.py:48-79 | one token is drawn from each of the two buckets, full ones if they are new, and no other bucket changes |
| RateLimiter.RunAlike | connector/rate_limiter.py:67-91 | a run gives the same answers with its collections, of age at least 60, as without |
| RateLimiter.CollectionUnobservable | connector/rate_limiter.py:81-91 | collecting at an age is invisible to every limiter and run if and only if the age is at least 60 seconds |
| RateLimiter.ShortCollectionShows | connector/rate_limiter.py:81-91 | a run that tells, for any shorter age |
| RateLimiter.Credit | connector/rate_limiter.py:20-79 | what one bucket granted since a time plus what is left in it never exceeds a full bucket and its refill |
| RateLimiter.GrantBound | connector/rate_limiter.py:20-79 | in any interval [a, b] of any run one bucket grants at most rpm + (b - a) rpm / 60 requests, also those the other side denies |
| RateLimiter.IntervalBound | connector/rate_limiter.py:67-79 | hence so many requests of a user, and of a channel, are allowed |
| RateLimiter.BoundedExactly | connector/rate_limiter.py:20-91 | the bound on what a bucket grants, and that on what is allowed, hold for every limiter and run that collects at an age if and only if the age is at least 60 seconds |
| CommandFirewall.ValidateSuggestion | connector/command_firewall.py:67-190 | pattern check, lexing, allowlist and classification in that order, with the first error found; the pattern error exactly for text that holds a semicolon, a backtick, a bar, or a dollar sign before an opening parenthesis |
| CommandFirewall.AcceptedIsClean | connector/command_firewall.py:18-84 | the text of an accepted suggestion holds none of the denied patterns |
| CommandFirewall.ChecksInOrder | connector/command_firewall.py:86-127 | what follows the patterns: the lexer, an empty line, the four commands, the operands |
| CommandFirewall.KeyExactly | connector/command_firewall.py:19 | which keys match the pattern, character by character |
| CommandFirewall.PlaceExactly | connector/command_firewall.py:130-179 | where one operand goes, and which error it gives |
| CommandFirewall.PlaceInTurn | connector/command_firewall.py:130-179 | operands are placed in turn and the first that cannot be decides |
| CommandFirewall.ValidatedIsAccepted | connector/command_firewall.py:125-190 | an accepted command is allowlisted, its keys match the pattern, its values are at most 1000 long, its arguments positional |
| CommandFirewall.SortKeysSorts | connector/command_firewall.py:37 | the flags are shown in strictly ascending key order, each once |
| CommandFirewall.LeExactly | connector/command_firewall.py:37 | the flags are in code point order |
| CommandFirewall.ToString | connector/command_firewall.py:33-46 | the text is the command, the flags in order with values quoted when they hold a space or nothing, and the arguments, joined by spaces |
| CommandRoundTrip.Drops | connector/router_dispatch.py:63-67 | in lexing, backslashes only disappear and each double quote in a token has used one up |
| CommandRoundTrip.SpaceSeparates | connector/router_dispatch.py:63-67 | text that is whole before a space is lexed independently of what follows |
| CommandRoundTrip.AnyToken | connector/command_firewall.py:88-91 | any text can be written as one token, escaped or in quotes |
| CommandRoundTrip.SeparatesExactly | connector/command_firewall.py:88-91 | which characters end a token, with and without comments |
| CommandRoundTrip.CommentRun | connector/command_firewall.py:88-91 | a comment goes on to the end of its line |
| CommandRoundTrip.LineCosts | connector/command_firewall.py:33-46 | a shown line that loses no backslash has fewer tokens or less white space once read, unless every operand survives |
| CommandRoundTrip.PlacedComeFromParts | connector/command_firewall.py:125-179 | every flag and argument of a classified command is a part of the input of its own |
| CommandRoundTrip.RoundTripExactly | connector/command_firewall.py:33-190 | an accepted command is read back by the router's lexer and classified as the same command if and only if each of its operands survives |
| CommandRoundTrip.ReadWeighs | connector/router_dispatch.py:63-67 | text that reads as a command holds at least as many characters other than quotes as the command is shown with |
| CommandRoundTrip.RoundTrip | connector/command_firewall.py:33-190 | the same for every accepted suggestion, for the lexer and for the router |
| CommandRoundTrip.RouterReads | connector/router_dispatch.py:33-67 | the router, which strips and checks the length first, reads a shown command back as the accepted one if and only if its keys, values and arguments are faithful and the text fits and does not end in white space |
| CommandRoundTrip.NewlineKeyIsLost | connector/command_firewall.py:19 | an accepted suggestion whose key ends in a newline and does not survive |
| CommandRoundTrip.TrailingSpaceIsLost | connector/router_dispatch.py:33 | an accepted suggestion that the lexer gives back and the router does not |
| MediaStore.TokenRoundTrip | connector/media_store.py:155-184 | decoding a generated token returns what went in if neither file name nor channel id contains a colon, and None otherwise |
| MediaStore.DecodedIsSigned | connector/media_store.py:163-184 | a token that decodes carries the signature of text made of its three fields |
| MediaStore.TokenLooks | connector/media_store.py:155-161 | the form of a token |
| MediaStore.DecodesExactly | connector/media_store.py:163-184 | which tokens are accepted, and with which payload |
| MediaStore.MediaStore.Cleanup | connector/media_store.py:136-150 | exactly the files within time to live and buffer remain, and the history grows by one sweep |
| MediaStore.MediaStore.StoreImage | connector/media_store.py:59-81 | the files, the history and the token after storing, after the occasional cleanup, and for an image that is too large |
| MediaStore.MediaStore.GetImagePath | connector/media_store.py:109-134 | a name is returned exactly for a token that decodes, is not expired and names a file that is there |
| MediaStore.ExpiryExactly | connector/media_store.py:79 | the expiry is the time to live after the issue, rounded down |
| MediaStore.DeadlinesExactly | connector/media_store.py:119-147 | a token is good through the second it expires in, a file is kept a minute longer than its time to live |
| MediaStore.CleanableWhileLive | connector/media_store.py:79-150 | exactly when cleanup can delete a file whose token is still good |
| MediaStore.LiveFilesSurvive | connector/media_store.py:79-150 | over every run, a file whose token was issued at most 59 seconds after the write is there as long as the token is unexpired |
| MediaStore.PromptTokensAreAnswered | connector/media_store.py:59-184 | over every run, the token of a file written at most 59 seconds before, with no colon in name or channel id, is answered with the name exactly while the second is not past that of issue plus time to live; at any time up to issue plus time to live, and never a second later |
| BatchVariants.ValidatedInBounds | models/schemas.py:64-74 | sizes are multiples of 8 in [256, 4096] less than 8 below the clamped value, steps and cfg in bounds, and validating again changes nothing |
| BatchVariants.ValidatedExactly | models/schemas.py:55-74 | what validation makes of each value, given or not |
| BatchVariants.GenerateVariants | nodes/batch_variants.py:86-132 | three lists of `count` entries, entry i made from the base, its seed and its place in the sweep |
| BatchVariants.SweepMonotone | nodes/batch_variants.py:86-132 | along an upward sweep the swept value never falls, through interpolation, rounding, clamping and flooring, and the other values do not change |
| BatchVariants.SweepEndpoints | nodes/batch_variants.py:86-132 | the sweep starts at the clamped start and ends at the clamped end |
| BatchVariants.EqualSteps | nodes/batch_variants.py:106-108 | the values of a sweep lie at equal steps |
| BatchVariants.AskedExactly | nodes/batch_variants.py:86-123 | what each sweep puts in place of the base's values |
| BatchVariants.RoundNearest | nodes/batch_variants.py:112 | rounding is to the nearest integer, halves to even |
| BatchVariants.Seeds | nodes/batch_variants.py:88-101 | incremented seeds are distinct, fixed ones equal |
| BatchVariants.SeedExactly | nodes/batch_variants.py:88-101 | the seed of each variant as a function of base and place |
| Newlines.TwoPassesAreOne | scripts/contract_digest.py:9-12 | the two replacements equal one pass over the bytes |
| Newlines.NormalizedIsStable | scripts/contract_digest.py:9-12 | no CR is left and normalising again changes nothing |
| Newlines.RestoredIff | scripts/contract_digest.py:9-12 | a text with each newline written as LF, CRLF or CR comes back exactly when no CR newline is directly followed by an LF newline |

## Left out

- SessionContract: four states with two terminal ones and a table of transitions; only easy members.
- ReconnectPolicy, RetryPolicy, RelayResponseClassifier, TokenContract: single formulas, tables and a precedence list.
- DeliveryProtocol.SendBound: counts the send of one job's images, or of one text, as one send; how many images are posted before one raises is not modelled.
- DeliveryProtocol.NoStartAfterAck: takes for granted that an intent is recorded once under its id; the outbox forgets finished intents after seven days and a schedule could in principle record the same key again.
- DeliveryOutbox.AckAnswers: the error for an unknown outcome, which the type of outcomes rules out.
- The outbox's tenants, file format, capacity limit, platform filter, order of claims and expiry times: a claim leases any intents that can be leased, and maintenance may expire or drop any it could.
- The lease clock in the protocol: any leased intent may run out at any time, so the results do not depend on leases lasting long enough.
- One worker: several connectors sharing one outbox are present only as claims whose answer never arrives.
- Callbacks and RateLimiter take one clock reading per operation: the source reads the clock again after `_expire_if_needed`, and a bucket is created and drawn at slightly different times.
- DeliveryWorker.RunAck: the answers and the tokens at each attempt are given as sequences; the protocol is where they come from.
- RateLimiter.IntervalBound: real arithmetic, so floating-point rounding of tokens is not covered, and collections are of age 60 or more (the default is 3600).
- Callbacks: payload hashes, metadata and the expiry time stamp; a negative or zero maximum of attempts is covered except where a lemma asks for at least 1.
- EventStream.EventStreamContract.Emit: for a negative `max_buffer` only what the slice leaves is stated; resume properties are for `max_buffer` at least 1.
- CommandRoundTrip.RouterReads: the router's rate limit, which is RateLimiter, and its dispatch and argument handling after the lexer.
- CommandFirewall: the severity, action and message fields, which follow from the error code; which of several unsafe patterns is named; lower-casing and the key pattern outside ASCII.
- Text: integer literals with non-ASCII digits and Python's limit on their length.
- MediaStore: the path check, previews, and errors while deleting; file names are assumed to be drawn fresh and to stay inside the directory.
- BatchVariants: the JSON text of the parameters, unknown keys, and values of the wrong type.
- IngressGate: header and signature verification, which are arbitrary functions here.
- HTTP handlers apart from the claim parameters, authentication, audit, logging, metrics, adapters, LLM calls, and the approval, template and scheduler services.
