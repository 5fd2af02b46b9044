/**
 The connector side of scheduled delivery: which outcome a task reports, how it
 retries the acknowledgement, and the worker's two dictionaries.
 */
module DeliveryWorker {
  import opened Wrappers
  import opened DeliveryOutbox

  const MAX_ACTIVE_DELIVERIES := 20
  const CLAIM_BATCH_LIMIT := 10
  const ACK_ATTEMPTS := 5
  const LEASE_GRACE_SEC := 120
  const ACK_RETRY_DELAY_SEC := 1.0
  const MAX_ACK_RETRY_DELAY_SEC := 30.0
  const SCHEDULE_DELIVERY_PLATFORMS := ["discord", "feishu", "slack", "telegram"]

  /** The platforms with a loaded adapter and the four connector allowlists. */
  datatype Config = Config(platforms: set<string>, telegram: seq<string>, discord: seq<string>,
                           slack: seq<string>, feishu: seq<string>, deliveryTimeoutSec: int)

  datatype Delivery = Delivery(platform: string, target: string, promptId: string, failureAlert: bool)

  datatype ClaimItem = Malformed | Offer(id: Id, token: Token, delivery: Delivery)

  /** What an HTTP call to the core came back with; no status means a transport failure. */
  datatype Reply = Reply(ok: bool, status: Option<int>, retryAfter: Option<real>)

  // ---------------------------------------------------------------------
  // Pure decisions
  // ---------------------------------------------------------------------

  function LeaseSec(cfg: Config): int {
    cfg.deliveryTimeoutSec + LEASE_GRACE_SEC
  }

  function LoadedAmong(names: seq<string>, loaded: set<string>): seq<string> {
    if names == [] then []
    else (if names[0] in loaded then [names[0]] else []) + LoadedAmong(names[1..], loaded)
  }

  function EnabledPlatforms(cfg: Config): seq<string> {
    LoadedAmong(SCHEDULE_DELIVERY_PLATFORMS, cfg.platforms)
  }

  predicate TargetAllowed(cfg: Config, platform: string, target: string) {
    if platform == "telegram" then cfg.telegram == [] || target in cfg.telegram
    else if platform == "discord" then cfg.discord == [] || target in cfg.discord
    else if platform == "slack" then cfg.slack == [] || target in cfg.slack
    else if platform == "feishu" then cfg.feishu == [] || target in cfg.feishu
    else false
  }

  /** The part of `_deliver` before its first await: refuse, or go on to wait for the job. */
  function Preflight(cfg: Config, d: Delivery): Option<Report> {
    if d.platform !in cfg.platforms || d.target == "" || d.promptId == "" then
      Some(Report(Undeliverable, Some(PlatformUnavailable)))
    else if !TargetAllowed(cfg, d.platform, d.target) then
      Some(Report(Undeliverable, Some(TargetNotAllowed)))
    else None
  }

  /** A refusal that ends the retry loop: any status below 500 except throttling. */
  predicate IsFinal(reply: Reply) {
    !reply.ok && reply.status.Some? && reply.status.value < 500 && reply.status.value != 429
  }

  predicate Retryable(reply: Reply) {
    !reply.ok && !IsFinal(reply)
  }

  function AckRetryDelay(reply: Reply, attempt: nat): real {
    if reply.status == Some(429) && reply.retryAfter.Some? && reply.retryAfter.value > 0.0 then
      if reply.retryAfter.value < MAX_ACK_RETRY_DELAY_SEC then reply.retryAfter.value
      else MAX_ACK_RETRY_DELAY_SEC
    else ACK_RETRY_DELAY_SEC * attempt as real
  }

  /** Every refusal of the outbox, sent through the handler's status table, stops the worker. */
  lemma OutboxRefusalsAreFinal(box: Box, id: Id, token: Token, report: Report, reply: Reply)
    requires Ack(box, id, token, report).1.Refused?
    requires reply == Reply(false, Some(ErrorStatus(Ack(box, id, token, report).1.error)), None)
    ensures IsFinal(reply) && !Retryable(reply)
  {
  }

  // ---------------------------------------------------------------------
  // The acknowledgement loop
  // ---------------------------------------------------------------------

  /** One request of the ack loop. `newest` is the last lease token the worker was given
      for the intent when the request left. */
  datatype Attempt = Attempt(token: Token, newest: Token, report: Report, reply: Option<Reply>)

  /** What the loop promises about its requests: at most five, one report throughout, the
      newest token each time, and nothing after an answer that is not retryable. */
  ghost predicate Disciplined(attempts: seq<Attempt>, report: Report) {
    && |attempts| <= ACK_ATTEMPTS
    && (forall i :: 0 <= i < |attempts| ==>
          attempts[i].report == report && attempts[i].token == attempts[i].newest)
    && (forall i :: 0 <= i < |attempts| - 1 ==>
          attempts[i].reply.Some? && Retryable(attempts[i].reply.value))
  }

  datatype AckEnd = Acked | Rejected | Exhausted | NoToken

  /** What the loop comes to after the attempts in `done`, given the token and the reply of each. */
  function AckLoop(report: Report, tokens: seq<Option<Token>>, replies: seq<Reply>, done: seq<Attempt>)
    : (seq<Attempt>, AckEnd)
    requires |tokens| == ACK_ATTEMPTS && |replies| == ACK_ATTEMPTS && |done| < ACK_ATTEMPTS
    decreases ACK_ATTEMPTS - |done|
  {
    if tokens[|done|].None? then (done, NoToken)
    else
      var token, reply := tokens[|done|].value, replies[|done|];
      var made := done + [Attempt(token, token, report, Some(reply))];
      if reply.ok then (made, Acked)
      else if IsFinal(reply) then (made, Rejected)
      else if |made| == ACK_ATTEMPTS then (made, Exhausted)
      else AckLoop(report, tokens, replies, made)
  }

  /** How long the pauses after the first n attempts are together. */
  function Pauses(replies: seq<Reply>, n: nat): real
    requires n <= |replies|
  {
    if n == 0 then 0.0 else Pauses(replies, n - 1) + AckRetryDelay(replies[n - 1], n)
  }

  lemma {:induction false} PausesBounded(replies: seq<Reply>, n: nat)
    requires n <= |replies| && n <= 30
    ensures 0.0 <= Pauses(replies, n) <= 30.0 * n as real
  {
    if n > 0 {
      PausesBounded(replies, n - 1);
    }
  }

  lemma PausesGrow(replies: seq<Reply>)
    ensures Pauses(replies, 0) == 0.0
    ensures forall n :: 0 <= n < |replies| ==>
      Pauses(replies, n + 1) == Pauses(replies, n) + AckRetryDelay(replies[n], n + 1)
  {
  }

  /** The attempts were made with the tokens at hand, and each but the last was worth retrying. */
  ghost predicate LoopTrace(report: Report, tokens: seq<Option<Token>>, replies: seq<Reply>, attempts: seq<Attempt>)
    requires |tokens| == ACK_ATTEMPTS && |replies| == ACK_ATTEMPTS
  {
    && |attempts| <= ACK_ATTEMPTS
    && forall i :: 0 <= i < |attempts| ==>
         && tokens[i].Some? && attempts[i] == Attempt(tokens[i].value, tokens[i].value, report, Some(replies[i]))
         && (i < |attempts| - 1 ==> Retryable(replies[i]))
  }

  ghost predicate LoopEnd(tokens: seq<Option<Token>>, replies: seq<Reply>, n: nat, end: AckEnd)
    requires |tokens| == ACK_ATTEMPTS && |replies| == ACK_ATTEMPTS && n <= ACK_ATTEMPTS
  {
    match end
    case Acked => n > 0 && replies[n - 1].ok
    case Rejected => n > 0 && IsFinal(replies[n - 1])
    case Exhausted => n == ACK_ATTEMPTS && Retryable(replies[n - 1])
    case NoToken => n < ACK_ATTEMPTS && tokens[n].None? && (n > 0 ==> Retryable(replies[n - 1]))
  }

  lemma {:induction false} AckLoopEnds(report: Report, tokens: seq<Option<Token>>, replies: seq<Reply>,
                                       done: seq<Attempt>)
    requires |tokens| == ACK_ATTEMPTS && |replies| == ACK_ATTEMPTS && |done| < ACK_ATTEMPTS
    requires LoopTrace(report, tokens, replies, done) && (done != [] ==> Retryable(replies[|done| - 1]))
    ensures var (attempts, end) := AckLoop(report, tokens, replies, done);
      LoopTrace(report, tokens, replies, attempts) && LoopEnd(tokens, replies, |attempts|, end)
    decreases ACK_ATTEMPTS - |done|
  {
    hide IsFinal;
    var n := |done|;
    if tokens[n].Some? {
      var made := done + [Attempt(tokens[n].value, tokens[n].value, report, Some(replies[n]))];
      assert LoopTrace(report, tokens, replies, made);
      if Retryable(replies[n]) && |made| < ACK_ATTEMPTS {
        AckLoopEnds(report, tokens, replies, made);
      }
    }
  }

  /** The loop on what it was given: at most five attempts with the tokens at hand, another one after
      exactly the answers worth retrying, and the end told by the last answer. */
  lemma LoopExactly(report: Report, tokens: seq<Option<Token>>, replies: seq<Reply>,
                    attempts: seq<Attempt>, end: AckEnd)
    requires |tokens| == ACK_ATTEMPTS && |replies| == ACK_ATTEMPTS
    requires (attempts, end) == AckLoop(report, tokens, replies, [])
    ensures Disciplined(attempts, report)
    ensures |attempts| <= 5 && forall i :: 0 <= i < |attempts| ==>
      tokens[i] == Some(attempts[i].token) && attempts[i].reply == Some(replies[i])
    ensures forall i :: 0 <= i < |attempts| - 1 ==>
      && !replies[i].ok
      && (replies[i].status.None? || replies[i].status.value >= 500 || replies[i].status.value == 429)
    ensures attempts == [] <==> tokens[0].None?
    ensures attempts == [] ==> end == NoToken
    ensures attempts != [] ==>
      var last := replies[|attempts| - 1];
      && (end == Acked <==> last.ok)
      && (end == Rejected <==>
            !last.ok && last.status.Some? && last.status.value < 500 && last.status.value != 429)
      && (end == Exhausted || end == NoToken <==>
            !last.ok && (last.status.None? || last.status.value >= 500 || last.status.value == 429))
      && (end == Exhausted ==> |attempts| == 5)
      && (end == NoToken ==> |attempts| < 5 && tokens[|attempts|].None?)
  {
    AckLoopEnds(report, tokens, replies, []);
  }

  /** `_ack` of one task. Between two attempts other coroutines run, so the token found in
      `_lease_tokens` and the reply of each attempt are given as sequences. */
  method RunAck(report: Report, tokens: seq<Option<Token>>, replies: seq<Reply>)
    returns (attempts: seq<Attempt>, end: AckEnd, slept: real)
    requires |tokens| == ACK_ATTEMPTS && |replies| == ACK_ATTEMPTS
    ensures (attempts, end) == AckLoop(report, tokens, replies, [])
    ensures Disciplined(attempts, report)
    ensures |attempts| <= 5 && forall i :: 0 <= i < |attempts| ==>
      tokens[i] == Some(attempts[i].token) && attempts[i].reply == Some(replies[i])
    ensures forall i :: 0 <= i < |attempts| - 1 ==>
      && !replies[i].ok
      && (replies[i].status.None? || replies[i].status.value >= 500 || replies[i].status.value == 429)
    ensures attempts == [] <==> tokens[0].None?
    ensures attempts == [] ==> end == NoToken
    ensures attempts != [] ==>
      var last := replies[|attempts| - 1];
      && (end == Acked <==> last.ok)
      && (end == Rejected <==>
            !last.ok && last.status.Some? && last.status.value < 500 && last.status.value != 429)
      && (end == Exhausted || end == NoToken <==>
            !last.ok && (last.status.None? || last.status.value >= 500 || last.status.value == 429))
      && (end == Exhausted ==> |attempts| == 5)
      && (end == NoToken ==> |attempts| < 5 && tokens[|attempts|].None?)
    ensures slept == Pauses(replies, if end == NoToken then |attempts| else |attempts| - 1)
    ensures 0.0 <= slept <= 120.0
  {
    hide AckRetryDelay, Disciplined, Retryable, Pauses;
    PausesGrow(replies);
    ghost var (made, ended) := AckLoop(report, tokens, replies, []);
    LoopExactly(report, tokens, replies, made, ended);
    attempts, slept := [], 0.0;
    var attempt := 1;
    while attempt < ACK_ATTEMPTS + 1
      invariant 1 <= attempt <= ACK_ATTEMPTS + 1 && |attempts| == attempt - 1
      invariant AckLoop(report, tokens, replies, []) ==
        if attempt <= ACK_ATTEMPTS then AckLoop(report, tokens, replies, attempts) else (attempts, Exhausted)
      invariant slept == Pauses(replies, if attempt <= ACK_ATTEMPTS then attempt - 1 else ACK_ATTEMPTS - 1)
    {
      PausesBounded(replies, attempt - 1);
      var token := tokens[attempt - 1];
      if token.None? {
        return attempts, NoToken, slept;
      }
      var res := replies[attempt - 1];
      attempts := attempts + [Attempt(token.value, token.value, report, Some(res))];
      if res.ok {
        return attempts, Acked, slept;
      }
      if res.status.Some? && res.status.value < 500 && res.status.value != 429 {
        return attempts, Rejected, slept;
      }
      if attempt < ACK_ATTEMPTS {
        var delay := AckRetryDelay(res, attempt);
        slept := slept + delay;
      }
      attempt := attempt + 1;
    }
    PausesBounded(replies, ACK_ATTEMPTS - 1);
    end := Exhausted;
  }

  datatype Notice = TimeoutNotice | FailureNotice | JobResult

  /** What `_run` sends and reports: by whether the job was found in time, whether it failed,
      and whether the send raised. */
  function Delivered(cfg: Config, d: Delivery, found: bool, failed: bool, raises: bool): (seq<Notice>, Report) {
    if Preflight(cfg, d).Some? then ([], Preflight(cfg, d).value)
    else if found && failed && !d.failureAlert then ([], Report(JobFailed, Some(JobError)))
    else
      var what := if !found then TimeoutNotice else if failed then FailureNotice else JobResult;
      ([what], if raises then Report(Undeliverable, Some(ConnectorError))
               else match what
                    case TimeoutNotice => Report(TimedOut, Some(ResultTimeout))
                    case FailureNotice => Report(JobFailed, Some(JobError))
                    case JobResult => Report(Sent, None))
  }

  // ---------------------------------------------------------------------
  // Tasks and the worker's dictionaries
  // ---------------------------------------------------------------------

  datatype Ending = AckEnded(end: AckEnd) | Crashed | Cancelled

  /** Where a delivery task stands. Every constructor but Created, Acking and Done is an
      await; Acking(n) is about to read the token for attempt n. */
  datatype Pc = Created | Waiting | Sending(what: Notice) | Acking(n: nat) | AwaitingReply(n: nat)
              | BackingOff(n: nat) | Done(ending: Ending)

  datatype Task = Task(id: Id, delivery: Delivery, pc: Pc, report: Option<Report>, sends: nat,
                       resultReturned: bool, attempts: seq<Attempt>, forgotten: bool)

  function NewTask(id: Id, delivery: Delivery): Task {
    Task(id, delivery, Created, None, 0, false, [], false)
  }

  /** `_active` (delivery id to task number), `_lease_tokens`, and every task created so far. */
  datatype Book = Book(active: map<Id, nat>, tokens: map<Id, Token>, tasks: seq<Task>)

  function AbsorbOne(b: Book, item: ClaimItem): Book {
    if item.Malformed? then b
    else if item.id in b.active then b.(tokens := b.tokens[item.id := item.token])
    else Book(b.active[item.id := |b.tasks|], b.tokens[item.id := item.token],
              b.tasks + [NewTask(item.id, item.delivery)])
  }

  function Absorb(b: Book, items: seq<ClaimItem>): Book {
    if items == [] then b
    else AbsorbOne(Absorb(b, items[..|items| - 1]), items[|items| - 1])
  }

  function Forgotten(b: Book, id: Id): Book {
    b.(active := b.active - {id}, tokens := b.tokens - {id})
  }

  class ScheduleDeliveryWorker {
    const config: Config
    var active: map<Id, nat>
    var leaseTokens: map<Id, Token>
    var spawned: seq<Task>

    function Books(): Book
      reads this
    {
      Book(active, leaseTokens, spawned)
    }

    constructor (config: Config)
      ensures Books() == Book(map[], map[], []) && this.config == config
    {
      this.config := config;
      active, leaseTokens, spawned := map[], map[], [];
    }

    /** `poll_once` up to its await: how much to claim, or nothing at all. */
    method PlanClaim() returns (limit: Option<int>)
      ensures limit.None? <==> EnabledPlatforms(config) == [] || |active| >= 20
      ensures limit.Some? ==>
        && 1 <= limit.value <= 10
        && |active| + limit.value <= 20
        && (limit.value < 10 ==> |active| + limit.value == 20)
    {
      var platforms := EnabledPlatforms(config);
      var capacity := MAX_ACTIVE_DELIVERIES - |active|;
      if platforms == [] || capacity <= 0 {
        return None;
      }
      limit := Some(if CLAIM_BATCH_LIMIT < capacity then CLAIM_BATCH_LIMIT else capacity);
    }

    /** `poll_once` after its await, on a well-formed response. */
    method HandleClaim(items: seq<ClaimItem>) returns (started: nat)
      modifies this
      ensures Books() == Absorb(old(Books()), items)
      ensures |spawned| == |old(spawned)| + started
    {
      started := 0;
      for k := 0 to |items|
        invariant Books() == Absorb(old(Books()), items[..k])
        invariant |spawned| == |old(spawned)| + started
      {
        assert items[..k + 1][..k] == items[..k];
        var item := items[k];
        if item.Malformed? {
          continue;
        }
        leaseTokens := leaseTokens[item.id := item.token];
        if item.id in active {
          continue;
        }
        spawned := spawned + [NewTask(item.id, item.delivery)];
        active := active[item.id := |spawned| - 1];
        started := started + 1;
      }
      assert items[..|items|] == items;
    }

    /** The done callback: both pops tolerate a missing key. */
    method Forget(id: Id)
      modifies this
      ensures Books() == Forgotten(old(Books()), id)
    {
      if id in active {
        active := map k | k in active && k != id :: active[k];
      }
      if id in leaseTokens {
        leaseTokens := map k | k in leaseTokens && k != id :: leaseTokens[k];
      }
      assert active == old(active) - {id};
      assert leaseTokens == old(leaseTokens) - {id};
    }
  }

  // ---------------------------------------------------------------------
  // Read off the configuration and the replies
  // ---------------------------------------------------------------------

  /** Which answers end the loop: success, and every refusal below 500 except throttling. */
  lemma WhichAnswersAreFinal(reply: Reply)
    ensures IsFinal(reply) <==>
      !reply.ok && reply.status.Some? && reply.status.value < 500 && reply.status.value != 429
    ensures Retryable(reply) <==>
      !reply.ok && (reply.status.None? || reply.status.value >= 500 || reply.status.value == 429)
  {
  }

  /** With a token at hand, the loop goes on after exactly the answers worth retrying, up to the fifth. */
  lemma LoopGoesOn(report: Report, tokens: seq<Option<Token>>, replies: seq<Reply>, done: seq<Attempt>)
    requires |tokens| == 5 && |replies| == 5 && |done| < 5 && tokens[|done|].Some?
    ensures var reply := replies[|done|];
      var made := done + [Attempt(tokens[|done|].value, tokens[|done|].value, report, Some(reply))];
      AckLoop(report, tokens, replies, done) ==
        if reply.ok then (made, Acked)
        else if reply.status.Some? && reply.status.value < 500 && reply.status.value != 429 then (made, Rejected)
        else if |made| == 5 then (made, Exhausted)
        else AckLoop(report, tokens, replies, made)
  {
  }

  /** A throttled acknowledgement is tried again. */
  lemma ThrottledIsRetried(report: Report, replies: seq<Reply>)
    requires |replies| == 5 && replies[0] == Reply(false, Some(429), None) && replies[1].ok
    ensures var tokens := seq(5, i => Some("t"));
      AckLoop(report, tokens, replies, []).1 == Acked && |AckLoop(report, tokens, replies, []).0| == 2
  {
    var tokens: seq<Option<Token>> := seq(5, i => Some("t"));
    LoopGoesOn(report, tokens, replies, []);
    LoopGoesOn(report, tokens, replies, [] + [Attempt("t", "t", report, Some(replies[0]))]);
  }

  /** The pause before the next attempt: what a throttled answer asks for, up to 30 seconds, and
      otherwise as many seconds as attempts were made. */
  lemma PauseExactly(reply: Reply, attempt: nat)
    ensures var hinted := reply.status == Some(429) && reply.retryAfter.Some? && reply.retryAfter.value > 0.0;
      && (hinted && reply.retryAfter.value <= 30.0 ==> AckRetryDelay(reply, attempt) == reply.retryAfter.value)
      && (hinted && reply.retryAfter.value > 30.0 ==> AckRetryDelay(reply, attempt) == 30.0)
      && (!hinted ==> AckRetryDelay(reply, attempt) == attempt as real)
  {
  }

  /** Each platform has its own allowlist, an empty one lets every target through, and no other
      platform is delivered to. */
  lemma TargetsAllowed(cfg: Config, platform: string, target: string)
    ensures TargetAllowed(cfg, platform, target) <==>
      || (platform == "telegram" && (cfg.telegram == [] || target in cfg.telegram))
      || (platform == "discord" && (cfg.discord == [] || target in cfg.discord))
      || (platform == "slack" && (cfg.slack == [] || target in cfg.slack))
      || (platform == "feishu" && (cfg.feishu == [] || target in cfg.feishu))
  {
  }

  /** What is refused before anything is waited for, and why. */
  lemma RefusedAtOnce(cfg: Config, d: Delivery)
    ensures var known := d.platform in cfg.platforms && d.target != "" && d.promptId != "";
      && (Preflight(cfg, d) == Some(Report(Undeliverable, Some(PlatformUnavailable))) <==> !known)
      && (Preflight(cfg, d) == Some(Report(Undeliverable, Some(TargetNotAllowed))) <==>
            known && !TargetAllowed(cfg, d.platform, d.target))
      && (Preflight(cfg, d) == None <==> known && TargetAllowed(cfg, d.platform, d.target))
  {
  }

  /** What comes of a delivery that is not refused at once. */
  lemma DeliveredExactly(cfg: Config, d: Delivery, found: bool, failed: bool, raises: bool)
    requires Preflight(cfg, d).None?
    ensures var (sent, report) := Delivered(cfg, d, found, failed, raises);
      && (sent == [TimeoutNotice] <==> !found)
      && (sent == [JobResult] <==> found && !failed)
      && (sent == [FailureNotice] <==> found && failed && d.failureAlert)
      && (sent == [] <==> found && failed && !d.failureAlert)
      && (report == Report(Undeliverable, Some(ConnectorError)) <==> sent != [] && raises)
      && (report == Report(TimedOut, Some(ResultTimeout)) <==> !found && !raises)
      && (report == Report(Sent, None) <==> found && !failed && !raises)
      && (report == Report(JobFailed, Some(JobError)) <==> found && failed && !(d.failureAlert && raises))
  {
  }

  /** The lease covers the wait for the job and two minutes more. */
  lemma LeaseCoversTheWait(cfg: Config)
    ensures LeaseSec(cfg) == cfg.deliveryTimeoutSec + 120
  {
  }

  /** Which platforms are offered, in the order of their names. */
  lemma PlatformsOffered(cfg: Config)
    ensures EnabledPlatforms(cfg) ==
      (if "discord" in cfg.platforms then ["discord"] else []) +
      (if "feishu" in cfg.platforms then ["feishu"] else []) +
      (if "slack" in cfg.platforms then ["slack"] else []) +
      (if "telegram" in cfg.platforms then ["telegram"] else [])
  {
    var on := cfg.platforms;
    OfferedFirst("telegram", [], on);
    OfferedFirst("slack", ["telegram"], on);
    OfferedFirst("feishu", ["slack", "telegram"], on);
    OfferedFirst("discord", ["feishu", "slack", "telegram"], on);
  }

  lemma OfferedFirst(name: string, rest: seq<string>, loaded: set<string>)
    ensures LoadedAmong([name] + rest, loaded) == (if name in loaded then [name] else []) + LoadedAmong(rest, loaded)
    ensures LoadedAmong([], loaded) == []
  {
    assert ([name] + rest)[1..] == rest;
  }
}
