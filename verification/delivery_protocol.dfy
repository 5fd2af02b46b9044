/**
 The worker, its tasks, the outbox and the messages between them as one state
 machine. A step is what runs between two awaits, so a run of steps is one
 interleaving of the event loop, the network and the server. The steps allow
 more than the code does (any claimed intent's lease may run out at any time, a
 request may be processed late or never, any reply may be lost), so what holds
 over every run here holds over every run of the program.
 */
module DeliveryProtocol {
  import opened Wrappers
  import opened DeliveryOutbox
  import opened DeliveryWorker

  /** `poll_once` runs one at a time: idle, waiting for the claim, or holding the response. */
  datatype Poll = Idle | Requested(limit: int) | Responded(limit: int, items: seq<ClaimItem>)

  /** The outbox, and what has passed between it and the worker so far. */
  datatype Core = Core(
    box: Box,
    recorded: set<Id>,                // every id an intent was ever recorded under
    issued: set<Token>,               // every token the outbox ever generated
    known: set<Token>,                // every token the worker was ever given
    sent: set<(Id, Token, Report)>,   // every acknowledgement request ever sent
    accepted: set<(Id, Token)>        // every acknowledgement the outbox accepted
  )

  /** `newest` is the last token the worker was given for each intent. */
  datatype System = System(cfg: Config, book: Book, poll: Poll, newest: map<Id, Token>, core: Core)

  /** What a task can do between two awaits without telling the outbox anything. */
  datatype Move =
    | Begin | JobFound(failed: bool) | JobTimeout | WaitRaise | SendReturn | SendRaise
    | AckRaise | BackoffDone | Cancel

  datatype Step =
    | Record(id: Id)
    | Maintain(expired: set<Id>, pruned: set<Id>)
    | PollStart
    | ServerClaim(now: real, leaseSec: int, items: seq<ClaimItem>)
    | LateClaim(now: real, leaseSec: int, id: Id, token: Token)
    | PollFail
    | PollResume
    | TaskMove(t: nat, move: Move)
    | AckSend(t: nat)
    | ServerAck(msg: (Id, Token, Report))
    | AckReply(t: nat, reply: Reply)
    | Forget(t: nat)

  function Init(cfg: Config): System {
    System(cfg, Book(map[], map[], []), Idle, map[], Core(map[], {}, {}, {}, {}, {}))
  }

  // ---------------------------------------------------------------------
  // What each step does
  // ---------------------------------------------------------------------

  /** One claim answered item by item: each offer leases another leaseable intent with a fresh token. */
  predicate CanOffer(c: Core, now: real, items: seq<ClaimItem>) {
    items == [] ||
    var rest := items[..|items| - 1];
    var last := items[|items| - 1];
    && CanOffer(c, now, rest)
    && last.Offer?
    && last.id in c.box
    && Leaseable(c.box[last.id], now)
    && last.id !in IdsOf(rest)
    && last.token !in c.issued + TokensOf(rest) && last.token != ""
  }

  function OfferAll(c: Core, now: real, leaseSec: int, items: seq<ClaimItem>): Core {
    if items == [] then c
    else
      var last := items[|items| - 1];
      var before := OfferAll(c, now, leaseSec, items[..|items| - 1]);
      if last.Offer? then OfferOne(before, now, leaseSec, last.id, last.token) else before
  }

  function OfferOne(c: Core, now: real, leaseSec: int, id: Id, token: Token): Core {
    if id in c.box then
      c.(box := c.box[id := Lease(c.box[id], token, now, leaseSec)], issued := c.issued + {token})
    else c
  }

  function NewestAfter(m: map<Id, Token>, items: seq<ClaimItem>): map<Id, Token> {
    if items == [] then m
    else
      var before := NewestAfter(m, items[..|items| - 1]);
      var last := items[|items| - 1];
      if last.Malformed? then before else before[last.id := last.token]
  }

  function TokensOf(items: seq<ClaimItem>): set<Token> {
    set item | item in items && item.Offer? :: item.token
  }

  function IdsOf(items: seq<ClaimItem>): set<Id> {
    set item | item in items && item.Offer? :: item.id
  }

  function ReportOf(what: Notice): Report {
    match what
    case TimeoutNotice => Report(TimedOut, Some(ResultTimeout))
    case FailureNotice => Report(JobFailed, Some(JobError))
    case JobResult => Report(Sent, None)
  }

  const CONNECTOR_FAULT := Report(Undeliverable, Some(ConnectorError))

  function Found(m: map<Id, Token>, id: Id): Option<Token> {
    if id in m then Some(m[id]) else None
  }

  function StartSend(k: Task, what: Notice): Task {
    k.(pc := Sending(what), sends := k.sends + 1)
  }

  function Acknowledge(k: Task, report: Report): Task {
    k.(pc := Acking(1), report := Some(report))
  }

  function Asked(k: Task, token: Token, newest: Token, report: Report): Task
    requires k.pc.Acking?
  {
    k.(pc := AwaitingReply(k.pc.n), attempts := k.attempts + [Attempt(token, newest, report, None)])
  }

  /** One turn of the loop up to its await: without a token the task ends, otherwise it asks. */
  function AckSent(k: Task, token: Option<Token>, newest: Option<Token>): Task
    requires k.pc.Acking? && k.report.Some?
  {
    if token.None? then k.(pc := Done(AckEnded(NoToken)))
    else Asked(k, token.value, if newest.Some? then newest.value else "", k.report.value)
  }

  function AfterReply(k: Task, n: nat, reply: Reply): Task
    requires k.attempts != []
  {
    var last := |k.attempts| - 1;
    var k' := k.(attempts := k.attempts[last := k.attempts[last].(reply := Some(reply))]);
    k'.(pc :=
      if reply.ok then Done(AckEnded(Acked))
      else if IsFinal(reply) then Done(AckEnded(Rejected))
      else if n < ACK_ATTEMPTS then BackingOff(n)
      else Done(AckEnded(Exhausted)))
  }

  predicate CanMove(k: Task, move: Move) {
    match move
    case Begin => k.pc.Created?
    case JobFound(_) => k.pc.Waiting?
    case JobTimeout => k.pc.Waiting?
    case WaitRaise => k.pc.Waiting?
    case SendReturn => k.pc.Sending?
    case SendRaise => k.pc.Sending?
    case AckRaise => k.pc.AwaitingReply?
    case BackoffDone => k.pc.BackingOff?
    case Cancel => !k.pc.Done?
  }

  function Moved(cfg: Config, k: Task, move: Move): Task
    requires CanMove(k, move)
  {
    match move
    case Begin =>
      var refusal := Preflight(cfg, k.delivery);
      if refusal.Some? then Acknowledge(k, refusal.value) else k.(pc := Waiting)
    case JobFound(failed) =>
      if !failed then StartSend(k, JobResult)
      else if k.delivery.failureAlert then StartSend(k, FailureNotice)
      else Acknowledge(k, ReportOf(FailureNotice))
    case JobTimeout => StartSend(k, TimeoutNotice)
    case WaitRaise => Acknowledge(k, CONNECTOR_FAULT)
    case SendReturn => Acknowledge(k.(resultReturned := k.pc.what.JobResult?), ReportOf(k.pc.what))
    case SendRaise => Acknowledge(k, CONNECTOR_FAULT)
    case AckRaise => k.(pc := Done(Crashed))
    case BackoffDone => k.(pc := Acking(k.pc.n + 1))
    case Cancel => k.(pc := Done(Cancelled))
  }

  function ForgetTask(b: Book, t: nat): Book
    requires t < |b.tasks|
  {
    Forgotten(b.(tasks := b.tasks[t := b.tasks[t].(forgotten := true)]), b.tasks[t].id)
  }

  function WithTask(s: System, t: nat, k: Task): System
    requires t < |s.book.tasks|
  {
    s.(book := s.book.(tasks := s.book.tasks[t := k]))
  }

  predicate At(s: System, t: nat) {
    t < |s.book.tasks|
  }

  function Maintained(box: Box, expired: set<Id>, pruned: set<Id>): Box {
    map id | id in box && id !in pruned ::
      if id in expired then box[id].(state := Expired) else box[id]
  }

  predicate Enabled(s: System, step: Step) {
    match step
    case Record(id) => id !in s.core.recorded
    case Maintain(expired, pruned) =>
      && expired <= s.core.box.Keys && pruned <= s.core.box.Keys
      && (forall id :: id in expired ==> !Terminal(s.core.box[id].state))
      && (forall id :: id in pruned ==> Terminal(s.core.box[id].state))
    case PollStart =>
      s.poll.Idle? && EnabledPlatforms(s.cfg) != [] && |s.book.active| < MAX_ACTIVE_DELIVERIES
    case ServerClaim(now, leaseSec, items) =>
      s.poll.Requested? && |items| <= s.poll.limit && CanOffer(s.core, now, items)
    case LateClaim(now, leaseSec, id, token) =>
      id in s.core.box && Leaseable(s.core.box[id], now) && token !in s.core.issued && token != ""
    case PollFail => !s.poll.Idle?
    case PollResume => s.poll.Responded?
    case TaskMove(t, move) => At(s, t) && CanMove(s.book.tasks[t], move)
    case AckSend(t) => At(s, t) && s.book.tasks[t].pc.Acking? && s.book.tasks[t].report.Some?
    case ServerAck(msg) => msg in s.core.sent
    case AckReply(t, reply) =>
      && At(s, t) && s.book.tasks[t].pc.AwaitingReply? && s.book.tasks[t].attempts != []
      && (reply.ok ==> var k := s.book.tasks[t]; (k.id, k.attempts[|k.attempts| - 1].token) in s.core.accepted)
    case Forget(t) => At(s, t) && s.book.tasks[t].pc.Done? && !s.book.tasks[t].forgotten
  }

  function Apply(s: System, step: Step): System
    requires Enabled(s, step)
  {
    match step
    case Record(id) => s.(core := s.core.(box := s.core.box[id := NewIntent()], recorded := s.core.recorded + {id}))
    case Maintain(expired, pruned) =>
      s.(core := s.core.(box := Maintained(s.core.box, expired, pruned)))
    case PollStart =>
      var capacity := MAX_ACTIVE_DELIVERIES - |s.book.active|;
      s.(poll := Requested(if CLAIM_BATCH_LIMIT < capacity then CLAIM_BATCH_LIMIT else capacity))
    case ServerClaim(now, leaseSec, items) =>
      s.(poll := Responded(s.poll.limit, items), core := OfferAll(s.core, now, leaseSec, items))
    case LateClaim(now, leaseSec, id, token) => s.(core := OfferOne(s.core, now, leaseSec, id, token))
    case PollFail => s.(poll := Idle)
    case PollResume =>
      s.(poll := Idle, book := Absorb(s.book, s.poll.items), newest := NewestAfter(s.newest, s.poll.items),
         core := s.core.(known := s.core.known + TokensOf(s.poll.items)))
    case TaskMove(t, move) => WithTask(s, t, Moved(s.cfg, s.book.tasks[t], move))
    case AckSend(t) =>
      var k := s.book.tasks[t];
      var token := Found(s.book.tokens, k.id);
      var s' := WithTask(s, t, AckSent(k, token, Found(s.newest, k.id)));
      if token.None? then s'
      else s'.(core := s.core.(sent := s.core.sent + {(k.id, token.value, k.report.value)}))
    case ServerAck(msg) =>
      var (box, result) := Ack(s.core.box, msg.0, msg.1, msg.2);
      var accepted := if result.Accepted? then s.core.accepted + {(msg.0, msg.1)} else s.core.accepted;
      s.(core := s.core.(box := box, accepted := accepted))
    case AckReply(t, reply) =>
      WithTask(s, t, AfterReply(s.book.tasks[t], s.book.tasks[t].pc.n, reply))
    case Forget(t) =>
      s.(book := ForgetTask(s.book, t))
  }

  /** Runs: every step is enabled where it is taken. */
  ghost predicate Reaches(s: System, steps: seq<Step>, s': System)
    decreases |steps|
  {
    if steps == [] then s == s'
    else Enabled(s, steps[0]) && Reaches(Apply(s, steps[0]), steps[1..], s')
  }

  // ---------------------------------------------------------------------
  // The invariant
  // ---------------------------------------------------------------------

  /** One task's own bookkeeping, by where it stands. */
  ghost predicate TaskOk(k: Task) {
    && (k.forgotten ==> k.pc.Done?)
    && k.sends <= 1
    && (k.report.None? ==> k.attempts == [])
    && (k.report.Some? ==> Disciplined(k.attempts, k.report.value))
    && (k.report.Some? ==> ValidReport(k.report.value))
    && (k.report.Some? && k.report.value.outcome.Sent? ==> k.resultReturned && k.sends == 1)
    && match k.pc
       case Created => k.report.None? && k.sends == 0
       case Waiting => k.report.None? && k.sends == 0
       case Sending(_) => k.report.None? && k.sends == 1
       case Acking(n) => k.report.Some? && 1 <= n <= ACK_ATTEMPTS && |k.attempts| == n - 1 && AllAnswered(k)
       case AwaitingReply(n) => k.report.Some? && 1 <= n <= ACK_ATTEMPTS && |k.attempts| == n && LastReply(k).None?
       case BackingOff(n) => k.report.Some? && 1 <= n < ACK_ATTEMPTS && |k.attempts| == n && AllAnswered(k)
       case Done(ending) => EndingOk(k, ending)
  }

  /** Every request so far was answered, and the answer called for another one. */
  ghost predicate AllAnswered(k: Task) {
    forall i :: 0 <= i < |k.attempts| ==> k.attempts[i].reply.Some? && Retryable(k.attempts[i].reply.value)
  }

  ghost predicate EndingOk(k: Task, ending: Ending) {
    match ending
    case AckEnded(Acked) => k.report.Some? && k.attempts != [] && LastReply(k).Some? && LastReply(k).value.ok
    case AckEnded(Rejected) => k.report.Some? && k.attempts != [] && LastReply(k).Some? && IsFinal(LastReply(k).value)
    case AckEnded(Exhausted) => k.report.Some? && |k.attempts| == ACK_ATTEMPTS && AllAnswered(k)
    case AckEnded(NoToken) => false
    case Crashed => k.report.Some? && k.attempts != [] && LastReply(k).None?
    case Cancelled =>
      k.attempts != [] && LastReply(k).Some? ==> Retryable(LastReply(k).value) && |k.attempts| < ACK_ATTEMPTS
  }

  function LastReply(k: Task): Option<Reply>
    requires k.attempts != []
  {
    k.attempts[|k.attempts| - 1].reply
  }

  predicate IsAcked(k: Task) {
    k.pc == Done(AckEnded(Acked))
  }

  /** The two dictionaries and the task list: each task not yet forgotten is the one its id
      maps to, and an id never has two of them. */
  ghost predicate IndexOk(b: Book) {
    && b.active.Keys == b.tokens.Keys
    && (forall id :: id in b.active ==>
          b.active[id] < |b.tasks| && b.tasks[b.active[id]].id == id && !b.tasks[b.active[id]].forgotten)
    && (forall t :: 0 <= t < |b.tasks| && !b.tasks[t].forgotten ==>
          b.tasks[t].id in b.active && b.active[b.tasks[t].id] == t)
  }

  ghost predicate TasksOk(b: Book, done: set<Id>) {
    forall t :: 0 <= t < |b.tasks| ==>
      TaskOk(b.tasks[t]) && (IsAcked(b.tasks[t]) ==> b.tasks[t].id in done)
  }

  /** Only the last task of an id can have been acknowledged. */
  ghost predicate SuccessionOk(b: Book) {
    forall t, u :: 0 <= t < u < |b.tasks| && b.tasks[t].id == b.tasks[u].id ==>
      b.tasks[t].forgotten && !IsAcked(b.tasks[t])
  }

  function Finalized(accepted: set<(Id, Token)>): set<Id> {
    set m | m in accepted :: m.0
  }

  ghost predicate BookOk(b: Book, done: set<Id>) {
    IndexOk(b) && TasksOk(b, done) && SuccessionOk(b)
  }

  /** Capacity: a claim in flight has already been counted. */
  ghost predicate CapacityOk(active: int, poll: Poll) {
    match poll
    case Idle => active <= MAX_ACTIVE_DELIVERIES
    case Requested(limit) => 1 <= limit <= CLAIM_BATCH_LIMIT && active + limit <= MAX_ACTIVE_DELIVERIES
    case Responded(limit, items) =>
      1 <= limit <= CLAIM_BATCH_LIMIT && active + limit <= MAX_ACTIVE_DELIVERIES && |items| <= limit
  }

  /** The worker holds, for every active intent, the newest token it was given for it. */
  ghost predicate TokensCurrent(tokens: map<Id, Token>, newest: map<Id, Token>, known: set<Token>) {
    && (forall id :: id in newest ==> newest[id] in known)
    && (forall id :: id in tokens ==> id in newest && tokens[id] == newest[id])
  }

  /** The worker acknowledges only with tokens it was given, and what was acknowledged is over. */
  ghost predicate CoreOk(c: Core) {
    && c.known <= c.issued
    && (forall m :: m in c.sent ==> m.1 in c.known)
    && c.box.Keys <= c.recorded
    && Finalized(c.accepted) <= c.recorded
    && (forall id :: id in c.box && id in Finalized(c.accepted) ==> Terminal(c.box[id].state))
    && (forall id :: id in c.box && c.box[id].state.Final? ==> id in Finalized(c.accepted))
  }

  /** An offer on its way to the worker names an intent that cannot be acknowledged before it
      arrives: if it is still open, nobody knows the token that would be needed. */
  ghost predicate OfferPending(c: Core, item: ClaimItem) {
    item.Offer? ==>
      && item.token in c.issued
      && item.id in c.recorded
      && item.id !in Finalized(c.accepted)
      && (item.id in c.box && !Terminal(c.box[item.id].state) ==>
            c.box[item.id].token.Some? && c.box[item.id].token.value !in c.known)
  }

  ghost predicate PollOk(c: Core, poll: Poll) {
    poll.Responded? ==> forall item :: item in poll.items ==> OfferPending(c, item)
  }

  ghost predicate Inv(s: System) {
    && BookOk(s.book, Finalized(s.core.accepted))
    && CapacityOk(|s.book.active|, s.poll)
    && TokensCurrent(s.book.tokens, s.newest, s.core.known)
    && CoreOk(s.core)
    && PollOk(s.core, s.poll)
  }

  // ---------------------------------------------------------------------
  // Every step keeps the invariant
  // ---------------------------------------------------------------------

  lemma InitInv(cfg: Config)
    ensures Inv(Init(cfg))
  {
  }

  lemma TasksUpdated(b: Book, t: nat, k: Task, b': Book, done: set<Id>)
    requires TasksOk(b, done) && t < |b.tasks| && b'.tasks == b.tasks[t := k]
    requires TaskOk(k) && (IsAcked(k) ==> k.id in done)
    ensures TasksOk(b', done)
  {
    hide TaskOk;
  }

  lemma SuccessionUpdated(b: Book, t: nat, k: Task, b': Book)
    requires SuccessionOk(b) && t < |b.tasks| && k.id == b.tasks[t].id && b'.tasks == b.tasks[t := k]
    requires b.tasks[t].forgotten ==> k.forgotten && IsAcked(k) == IsAcked(b.tasks[t])
    ensures SuccessionOk(b')
  {
  }

  lemma IndexUpdated(b: Book, t: nat, k: Task)
    requires IndexOk(b) && t < |b.tasks| && k.id == b.tasks[t].id && k.forgotten == b.tasks[t].forgotten
    ensures IndexOk(b.(tasks := b.tasks[t := k]))
  {
    var b' := b.(tasks := b.tasks[t := k]);
    assert forall u :: 0 <= u < |b.tasks| ==>
      b'.tasks[u].id == b.tasks[u].id && b'.tasks[u].forgotten == b.tasks[u].forgotten;
  }

  /** Changing one task in place, keeping its id and whether it was forgotten. */
  lemma UpdateTask(b: Book, t: nat, k: Task, done: set<Id>)
    requires BookOk(b, done) && t < |b.tasks|
    requires k.id == b.tasks[t].id && k.forgotten == b.tasks[t].forgotten
    requires TaskOk(k) && (IsAcked(k) ==> k.id in done)
    requires k.forgotten ==> IsAcked(k) == IsAcked(b.tasks[t])
    ensures BookOk(b.(tasks := b.tasks[t := k]), done)
  {
    hide TaskOk, IndexOk, TasksOk, SuccessionOk, IsAcked;
    var b' := b.(tasks := b.tasks[t := k]);
    IndexUpdated(b, t, k);
    TasksUpdated(b, t, k, b', done);
    SuccessionUpdated(b, t, k, b');
  }

  lemma MovedOk(cfg: Config, k: Task, move: Move)
    requires TaskOk(k) && CanMove(k, move)
    ensures var k' := Moved(cfg, k, move);
      TaskOk(k') && k'.id == k.id && k'.forgotten == k.forgotten && !k.forgotten && !IsAcked(k')
  {
  }

  lemma TaskMoveInv(s: System, t: nat, move: Move)
    requires Inv(s) && Enabled(s, TaskMove(t, move))
    ensures Inv(Apply(s, TaskMove(t, move)))
  {
    MovedOk(s.cfg, s.book.tasks[t], move);
    UpdateTask(s.book, t, Moved(s.cfg, s.book.tasks[t], move), Finalized(s.core.accepted));
  }

  lemma LiveTask(k: Task)
    requires TaskOk(k) && !k.pc.Done?
    ensures !k.forgotten && (k.pc.Acking? ==> k.report.Some?)
  {
  }

  lemma AskedOk(k: Task, token: Token)
    requires TaskOk(k) && k.pc.Acking?
    ensures var k' := Asked(k, token, token, k.report.value);
      TaskOk(k') && k'.id == k.id && k'.forgotten == k.forgotten && !IsAcked(k')
  {
    var k' := Asked(k, token, token, k.report.value);
    assert forall i :: 0 <= i < |k.attempts| ==> k'.attempts[i] == k.attempts[i];
  }

  lemma AfterReplyOk(k: Task, reply: Reply)
    requires TaskOk(k) && k.pc.AwaitingReply?
    ensures k.attempts != []
    ensures var k' := AfterReply(k, k.pc.n, reply);
      TaskOk(k') && k'.id == k.id && k'.forgotten == k.forgotten && (IsAcked(k') ==> reply.ok)
  {
    var k' := AfterReply(k, k.pc.n, reply);
    assert forall i :: 0 <= i < |k.attempts| - 1 ==> k'.attempts[i] == k.attempts[i];
  }

  lemma TokenCurrent(s: System, t: nat)
    requires Inv(s) && At(s, t) && s.book.tasks[t].pc.Acking?
    ensures var k := s.book.tasks[t];
      TaskOk(k) && k.id in s.book.tokens && k.id in s.newest && s.book.tokens[k.id] == s.newest[k.id]
  {
    hide TaskOk, SuccessionOk, CoreOk, PollOk;
    assert TaskOk(s.book.tasks[t]);
    LiveTask(s.book.tasks[t]);
  }

  lemma AckSendInv(s: System, t: nat)
    requires Inv(s) && Enabled(s, AckSend(t))
    ensures Inv(Apply(s, AckSend(t)))
  {
    hide TaskOk, Asked, IndexOk, SuccessionOk, TasksOk;
    var k := s.book.tasks[t];
    TokenCurrent(s, t);
    var k' := Asked(k, s.newest[k.id], s.newest[k.id], k.report.value);
    AskedOk(k, s.newest[k.id]);
    UpdateTask(s.book, t, k', Finalized(s.core.accepted));
    PollKept(s.core, Apply(s, AckSend(t)).core, s.poll);
  }

  /** Offers on their way do not depend on which acknowledgements were sent. */
  lemma PollKept(c: Core, c': Core, poll: Poll)
    requires PollOk(c, poll) && c' == c.(sent := c'.sent)
    ensures PollOk(c', poll)
  {
    if poll.Responded? {
      forall item | item in poll.items ensures OfferPending(c', item) {
        assert OfferPending(c, item);
      }
    }
  }

  lemma AwaitingTask(b: Book, t: nat, done: set<Id>)
    requires BookOk(b, done) && t < |b.tasks| && b.tasks[t].pc.AwaitingReply?
    ensures TaskOk(b.tasks[t]) && !b.tasks[t].forgotten
  {
    hide IndexOk, SuccessionOk, TaskOk;
    LiveTask(b.tasks[t]);
  }

  lemma AcceptedIsFinal(accepted: set<(Id, Token)>, id: Id, token: Token)
    requires (id, token) in accepted
    ensures id in Finalized(accepted)
  {
  }

  lemma AckReplyInv(s: System, t: nat, reply: Reply)
    requires Inv(s) && Enabled(s, AckReply(t, reply))
    ensures Inv(Apply(s, AckReply(t, reply)))
  {
    hide TaskOk, AfterReply, BookOk, CoreOk, PollOk, CapacityOk, TokensCurrent, Finalized;
    var k := s.book.tasks[t];
    var done := Finalized(s.core.accepted);
    AwaitingTask(s.book, t, done);
    AfterReplyOk(k, reply);
    if reply.ok {
      AcceptedIsFinal(s.core.accepted, k.id, k.attempts[|k.attempts| - 1].token);
    }
    UpdateTask(s.book, t, AfterReply(k, k.pc.n, reply), done);
  }

  lemma ForgottenOk(k: Task)
    requires TaskOk(k) && k.pc.Done?
    ensures TaskOk(k.(forgotten := true))
  {
  }

  lemma ForgetIndex(b: Book, t: nat)
    requires IndexOk(b) && t < |b.tasks| && !b.tasks[t].forgotten
    ensures IndexOk(ForgetTask(b, t)) && |ForgetTask(b, t).active| <= |b.active|
  {
    var b' := ForgetTask(b, t);
    var id := b.tasks[t].id;
    assert forall u :: 0 <= u < |b.tasks| && u != t ==> b'.tasks[u] == b.tasks[u];
    assert b'.active.Keys == b.active.Keys - {id};
    forall u | 0 <= u < |b'.tasks| && !b'.tasks[u].forgotten
      ensures b'.tasks[u].id in b'.active && b'.active[b'.tasks[u].id] == u
    {
      assert b.active[b.tasks[u].id] == u && b.active[id] == t;
    }
  }

  lemma ForgetBook(b: Book, t: nat, done: set<Id>)
    requires BookOk(b, done) && t < |b.tasks| && b.tasks[t].pc.Done? && !b.tasks[t].forgotten
    ensures BookOk(ForgetTask(b, t), done)
    ensures |ForgetTask(b, t).active| <= |b.active|
  {
    hide TaskOk, IndexOk, SuccessionOk;
    var k := b.tasks[t].(forgotten := true);
    ForgetIndex(b, t);
    ForgottenOk(b.tasks[t]);
    TasksUpdated(b, t, k, ForgetTask(b, t), done);
    SuccessionUpdated(b, t, k, ForgetTask(b, t));
  }

  /** A finished task's callback removes that task's own entry, never a successor's. */
  lemma ForgetRemovesOwn(s: System, t: nat)
    requires Inv(s) && Enabled(s, Forget(t))
    ensures var b, b' := s.book, Apply(s, Forget(t)).book;
      && b.tasks[t].id in b.active && b.active[b.tasks[t].id] == t
      && b'.active == b.active - {b.tasks[t].id} && b'.tokens == b.tokens - {b.tasks[t].id}
  {
  }

  // The server's steps ---------------------------------------------------

  lemma FinalizedGrows(accepted: set<(Id, Token)>, id: Id, token: Token)
    ensures Finalized(accepted + {(id, token)}) == Finalized(accepted) + {id}
  {
    assert (id, token) in accepted + {(id, token)};
    forall x | x in Finalized(accepted) ensures x in Finalized(accepted + {(id, token)}) {
      var m :| m in accepted && m.0 == x;
      assert m in accepted + {(id, token)};
    }
  }

  lemma BookMore(b: Book, done: set<Id>, id: Id)
    requires BookOk(b, done)
    ensures BookOk(b, done + {id})
  {
    hide TaskOk, IndexOk, SuccessionOk;
  }

  lemma ServerAckInv(s: System, msg: (Id, Token, Report))
    requires Inv(s) && Enabled(s, ServerAck(msg))
    ensures Inv(Apply(s, ServerAck(msg)))
  {
    hide BookOk, TokensCurrent;
    var (id, token, report) := msg;
    var (box, result) := Ack(s.core.box, id, token, report);
    AckFinalises(s.core.box, id, token, report);
    if result.Accepted? {
      FinalizedGrows(s.core.accepted, id, token);
      BookMore(s.book, Finalized(s.core.accepted), id);
      var s' := Apply(s, ServerAck(msg));
      assert token in s.core.known;
      if s.poll.Responded? {
        forall item | item in s.poll.items ensures OfferPending(s'.core, item) {
          assert OfferPending(s.core, item);
        }
      }
    }
  }

  lemma OfferOneKeeps(c: Core, now: real, leaseSec: int, id: Id, token: Token)
    requires CoreOk(c) && id in c.box && Leaseable(c.box[id], now) && token !in c.issued
    ensures var c' := OfferOne(c, now, leaseSec, id, token);
      && CoreOk(c')
      && (forall item :: OfferPending(c, item) ==> OfferPending(c', item))
      && (forall d :: OfferPending(c', Offer(id, token, d)))
  {
  }

  lemma LateClaimInv(s: System, now: real, leaseSec: int, id: Id, token: Token)
    requires Inv(s) && Enabled(s, LateClaim(now, leaseSec, id, token))
    ensures Inv(Apply(s, LateClaim(now, leaseSec, id, token)))
  {
    OfferOneKeeps(s.core, now, leaseSec, id, token);
  }

  lemma OffersGrow(items: seq<ClaimItem>)
    requires items != [] && items[|items| - 1].Offer?
    ensures var rest, last := items[..|items| - 1], items[|items| - 1];
      TokensOf(items) == TokensOf(rest) + {last.token} && IdsOf(items) == IdsOf(rest) + {last.id}
  {
    var rest, last := items[..|items| - 1], items[|items| - 1];
    assert items == rest + [last];
  }

  lemma {:induction false} OfferAllFrame(c: Core, now: real, leaseSec: int, items: seq<ClaimItem>)
    requires CanOffer(c, now, items)
    ensures var c' := OfferAll(c, now, leaseSec, items);
      && c'.issued == c.issued + TokensOf(items)
      && c'.box.Keys == c.box.Keys
      && (forall id :: id in c.box && id !in IdsOf(items) ==> c'.box[id] == c.box[id])
  {
    if items != [] {
      hide TokensOf, IdsOf;
      OfferAllFrame(c, now, leaseSec, items[..|items| - 1]);
      OffersGrow(items);
    }
  }

  lemma {:induction false} OfferAllKeeps(c: Core, now: real, leaseSec: int, items: seq<ClaimItem>)
    requires CoreOk(c) && CanOffer(c, now, items)
    ensures var c' := OfferAll(c, now, leaseSec, items);
      && CoreOk(c')
      && c'.known == c.known && c'.accepted == c.accepted
      && (forall item :: item in items ==> OfferPending(c', item))
  {
    if items != [] {
      var rest, last := items[..|items| - 1], items[|items| - 1];
      var before := OfferAll(c, now, leaseSec, rest);
      OfferAllKeeps(c, now, leaseSec, rest);
      OfferAllFrame(c, now, leaseSec, rest);
      OfferOneKeeps(before, now, leaseSec, last.id, last.token);
      forall item | item in items ensures OfferPending(OfferAll(c, now, leaseSec, items), item) {
        assert item in rest || item == last;
      }
    }
  }

  // The worker receives a claim ------------------------------------------

  lemma StartSuccession(b: Book, item: ClaimItem, done: set<Id>)
    requires BookOk(b, done) && item.Offer? && item.id !in done && item.id !in b.active
    ensures SuccessionOk(AbsorbOne(b, item))
  {
    var b' := AbsorbOne(b, item);
    forall t, u | 0 <= t < u < |b'.tasks| && b'.tasks[t].id == b'.tasks[u].id
      ensures b'.tasks[t].forgotten && !IsAcked(b'.tasks[t])
    {
      assert b'.tasks[t] == b.tasks[t];
    }
  }

  lemma StartIndex(b: Book, item: ClaimItem)
    requires IndexOk(b) && item.Offer? && item.id !in b.active
    ensures IndexOk(AbsorbOne(b, item))
  {
    var b' := AbsorbOne(b, item);
    assert forall t :: 0 <= t < |b.tasks| ==> b'.tasks[t] == b.tasks[t];
  }

  lemma StartTasks(b: Book, item: ClaimItem, done: set<Id>)
    requires TasksOk(b, done) && item.Offer? && item.id !in b.active
    ensures TasksOk(AbsorbOne(b, item), done)
  {
    assert TaskOk(NewTask(item.id, item.delivery));
  }

  lemma AbsorbOneKeeps(b: Book, item: ClaimItem, done: set<Id>)
    requires BookOk(b, done) && (item.Offer? ==> item.id !in done)
    ensures BookOk(AbsorbOne(b, item), done)
    ensures |AbsorbOne(b, item).active| <= |b.active| + 1
  {
    hide TaskOk;
    if item.Offer? && item.id !in b.active {
      StartSuccession(b, item, done);
      StartIndex(b, item);
      StartTasks(b, item, done);
      hide IndexOk, TasksOk, SuccessionOk;
      assert BookOk(AbsorbOne(b, item), done);
    }
  }

  lemma {:induction false} AbsorbKeeps(b: Book, items: seq<ClaimItem>, done: set<Id>)
    requires BookOk(b, done) && (forall item :: item in items && item.Offer? ==> item.id !in done)
    ensures var b' := Absorb(b, items);
      BookOk(b', done) && |b'.active| <= |b.active| + |items|
  {
    if items != [] {
      AbsorbKeeps(b, items[..|items| - 1], done);
      AbsorbOneKeeps(Absorb(b, items[..|items| - 1]), items[|items| - 1], done);
    }
  }

  lemma {:induction false} AbsorbTokens(b: Book, newest: map<Id, Token>, known: set<Token>, items: seq<ClaimItem>)
    requires TokensCurrent(b.tokens, newest, known)
    ensures TokensCurrent(Absorb(b, items).tokens, NewestAfter(newest, items), known + TokensOf(items))
  {
    if items != [] {
      var rest, last := items[..|items| - 1], items[|items| - 1];
      AbsorbTokens(b, newest, known, rest);
      assert items == rest + [last];
      assert last.Offer? ==> last.token in TokensOf(items);
      assert TokensOf(rest) <= TokensOf(items);
    }
  }

  lemma PollResumeInv(s: System)
    requires Inv(s) && Enabled(s, PollResume)
    ensures Inv(Apply(s, PollResume))
  {
    var items := s.poll.items;
    forall item | item in items && item.Offer? ensures item.id !in Finalized(s.core.accepted) {
      assert OfferPending(s.core, item);
    }
    AbsorbKeeps(s.book, items, Finalized(s.core.accepted));
    AbsorbTokens(s.book, s.newest, s.core.known, items);
    forall token | token in TokensOf(items) ensures token in s.core.issued {
      var item :| item in items && item.Offer? && item.token == token;
      assert OfferPending(s.core, item);
    }
  }

  lemma RecordInv(s: System, id: Id)
    requires Inv(s) && Enabled(s, Record(id))
    ensures Inv(Apply(s, Record(id)))
  {
    hide BookOk;
    if s.poll.Responded? {
      forall item | item in s.poll.items ensures OfferPending(Apply(s, Record(id)).core, item) {
        assert OfferPending(s.core, item);
      }
    }
  }

  lemma MaintainInv(s: System, expired: set<Id>, pruned: set<Id>)
    requires Inv(s) && Enabled(s, Maintain(expired, pruned))
    ensures Inv(Apply(s, Maintain(expired, pruned)))
  {
    hide BookOk;
    if s.poll.Responded? {
      forall item | item in s.poll.items ensures OfferPending(Apply(s, Maintain(expired, pruned)).core, item) {
        assert OfferPending(s.core, item);
      }
    }
  }

  lemma PollStartInv(s: System)
    requires Inv(s) && Enabled(s, PollStart)
    ensures Inv(Apply(s, PollStart))
  {
    hide BookOk, CoreOk, TokensCurrent;
  }

  lemma PollFailInv(s: System)
    requires Inv(s) && Enabled(s, PollFail)
    ensures Inv(Apply(s, PollFail))
  {
    hide BookOk, CoreOk, TokensCurrent;
  }

  lemma ServerClaimInv(s: System, now: real, leaseSec: int, items: seq<ClaimItem>)
    requires Inv(s) && Enabled(s, ServerClaim(now, leaseSec, items))
    ensures Inv(Apply(s, ServerClaim(now, leaseSec, items)))
  {
    hide BookOk, CoreOk, OfferPending, CanOffer, OfferAll;
    OfferAllKeeps(s.core, now, leaseSec, items);
  }

  lemma ForgetInv(s: System, t: nat)
    requires Inv(s) && Enabled(s, Forget(t))
    ensures Inv(Apply(s, Forget(t)))
  {
    hide BookOk, CoreOk, PollOk;
    ForgetBook(s.book, t, Finalized(s.core.accepted));
  }

  lemma StepInv(s: System, step: Step)
    requires Inv(s) && Enabled(s, step)
    ensures Inv(Apply(s, step))
  {
    hide *;
    match step
    case Record(id) => RecordInv(s, id);
    case Maintain(expired, pruned) => MaintainInv(s, expired, pruned);
    case PollStart => PollStartInv(s);
    case ServerClaim(now, leaseSec, items) => ServerClaimInv(s, now, leaseSec, items);
    case LateClaim(now, leaseSec, id, token) => LateClaimInv(s, now, leaseSec, id, token);
    case PollFail => PollFailInv(s);
    case PollResume => PollResumeInv(s);
    case TaskMove(t, move) => TaskMoveInv(s, t, move);
    case AckSend(t) => AckSendInv(s, t);
    case ServerAck(msg) => ServerAckInv(s, msg);
    case AckReply(t, reply) => AckReplyInv(s, t, reply);
    case Forget(t) => ForgetInv(s, t);
  }

  lemma {:induction false} RunInv(s: System, steps: seq<Step>, s': System)
    requires Inv(s) && Reaches(s, steps, s')
    ensures Inv(s')
    decreases |steps|
  {
    if steps != [] {
      StepInv(s, steps[0]);
      RunInv(Apply(s, steps[0]), steps[1..], s');
    }
  }

  // ---------------------------------------------------------------------
  // What the invariant gives, for every reachable state
  // ---------------------------------------------------------------------

  ghost predicate Reachable(s: System) {
    exists steps :: Reaches(Init(s.cfg), steps, s)
  }

  lemma ReachableInv(s: System)
    requires Reachable(s)
    ensures Inv(s)
  {
    var steps :| Reaches(Init(s.cfg), steps, s);
    InitInv(s.cfg);
    RunInv(Init(s.cfg), steps, s);
  }

  predicate Live(k: Task) {
    !k.pc.Done?
  }

  /** The dictionaries agree, hold exactly the tasks not yet forgotten, and never exceed the cap. */
  lemma Bookkeeping(s: System)
    requires Reachable(s)
    ensures s.book.active.Keys == s.book.tokens.Keys
    ensures forall t :: 0 <= t < |s.book.tasks| ==>
      (!s.book.tasks[t].forgotten <==> s.book.tasks[t].id in s.book.active && s.book.active[s.book.tasks[t].id] == t)
    ensures forall t, u :: 0 <= t < u < |s.book.tasks| && s.book.tasks[t].id == s.book.tasks[u].id ==>
      !Live(s.book.tasks[t])
    ensures |s.book.active| <= 20
  {
    ReachableInv(s);
    assert forall t :: 0 <= t < |s.book.tasks| ==> TaskOk(s.book.tasks[t]);
  }

  /** A running task always finds a token, and it is the newest one the worker was given. */
  lemma TokenAlwaysThere(s: System, t: nat)
    requires Reachable(s) && At(s, t) && Live(s.book.tasks[t])
    ensures var id := s.book.tasks[t].id;
      id in s.book.tokens && id in s.newest && s.book.tokens[id] == s.newest[id]
    ensures s.book.tasks[t].pc != Done(AckEnded(NoToken))
  {
    ReachableInv(s);
    assert TaskOk(s.book.tasks[t]);
  }

  /** No task is started for an intent the outbox has accepted an acknowledgement for. */
  lemma NoStartAfterAck(s: System, t: nat)
    requires Reachable(s) && Enabled(s, PollResume)
    requires |s.book.tasks| <= t < |Absorb(s.book, s.poll.items).tasks|
    ensures Absorb(s.book, s.poll.items).tasks[t].id !in Finalized(s.core.accepted)
    ensures forall u :: 0 <= u < |s.book.tasks| && s.book.tasks[u].id == Absorb(s.book, s.poll.items).tasks[t].id ==>
      !IsAcked(s.book.tasks[u])
  {
    ReachableInv(s);
    AbsorbedFrom(s.book, s.poll.items, t);
    var item :| item in s.poll.items && item.Offer? && item.id == Absorb(s.book, s.poll.items).tasks[t].id;
    assert OfferPending(s.core, item);
  }

  lemma {:induction false} AbsorbedFrom(b: Book, items: seq<ClaimItem>, t: nat)
    requires |b.tasks| <= t < |Absorb(b, items).tasks|
    ensures exists item :: item in items && item.Offer? && item.id == Absorb(b, items).tasks[t].id
  {
    if items != [] {
      var before := Absorb(b, items[..|items| - 1]);
      if t < |before.tasks| {
        AbsorbedFrom(b, items[..|items| - 1], t);
        var item :| item in items[..|items| - 1] && item.Offer? && item.id == before.tasks[t].id;
        assert item in items;
      } else {
        assert items[|items| - 1] in items;
      }
    }
  }

  /** What each task reported and how: one fixed report the outbox accepts, at most five
      requests and none after an answer that ends the loop, the newest token each time,
      `sent` only when the result send returned; and an uncancelled task that is over made
      at least one request. */
  lemma AckDiscipline(s: System, t: nat)
    requires Reachable(s) && At(s, t)
    ensures var k := s.book.tasks[t];
      && (k.report.Some? ==> Disciplined(k.attempts, k.report.value) && ValidReport(k.report.value))
      && (k.report.None? ==> k.attempts == [])
      && (k.report == Some(Report(Sent, None)) ==> k.resultReturned)
      && (k.pc.Done? && k.pc.ending != Cancelled ==> 1 <= |k.attempts| <= ACK_ATTEMPTS)
      && (IsAcked(k) ==> k.id in Finalized(s.core.accepted))
  {
    ReachableInv(s);
    assert TaskOk(s.book.tasks[t]);
  }

  /** What each answer leads to, over every interleaving: a success and a refusal below 500 other than
      throttling end the task there and then, and after any other answer it goes on until the fifth,
      unless it is cancelled. */
  lemma AnswersDecide(s: System, t: nat)
    requires Reachable(s) && At(s, t)
    ensures var k := s.book.tasks[t];
      && |k.attempts| <= 5
      && (forall i :: 0 <= i < |k.attempts| - 1 ==>
            var reply := k.attempts[i].reply;
            && reply.Some? && !reply.value.ok
            && (reply.value.status.None? || reply.value.status.value >= 500 || reply.value.status.value == 429))
      && (k.attempts != [] && k.attempts[|k.attempts| - 1].reply.Some? ==>
            var reply := k.attempts[|k.attempts| - 1].reply.value;
            var again := reply.status.None? || reply.status.value >= 500 || reply.status.value == 429;
            && (k.pc == Done(AckEnded(Acked)) <==> reply.ok)
            && (k.pc == Done(AckEnded(Rejected)) <==> !reply.ok && !again)
            && (k.pc == Done(AckEnded(Exhausted)) <==> !reply.ok && again && |k.attempts| == 5)
            && (k.pc.BackingOff? || k.pc.Acking? || k.pc == Done(Cancelled) <==>
                  !reply.ok && again && |k.attempts| < 5))
  {
    ReachableInv(s);
    assert TaskOk(s.book.tasks[t]);
    TaskAnswers(s.book.tasks[t]);
  }

  lemma TaskAnswers(k: Task)
    requires TaskOk(k)
    ensures |k.attempts| <= 5
    ensures forall i :: 0 <= i < |k.attempts| - 1 ==>
      k.attempts[i].reply.Some? && Retryable(k.attempts[i].reply.value)
    ensures k.attempts != [] && LastReply(k).Some? ==>
      var reply := LastReply(k).value;
      && (k.pc == Done(AckEnded(Acked)) <==> reply.ok)
      && (k.pc == Done(AckEnded(Rejected)) <==> IsFinal(reply))
      && (k.pc == Done(AckEnded(Exhausted)) <==> Retryable(reply) && |k.attempts| == 5)
      && (k.pc.BackingOff? || k.pc.Acking? || k.pc == Done(Cancelled) <==> Retryable(reply) && |k.attempts| < 5)
  {
  }

  /** When a claim is made and for how many intents, in the protocol as in the worker. */
  lemma PollAsks(s: System)
    ensures Enabled(s, PollStart) <==>
      s.poll.Idle? && EnabledPlatforms(s.cfg) != [] && |s.book.active| < 20
    ensures Enabled(s, PollStart) ==>
      Apply(s, PollStart).poll == Requested(if |s.book.active| <= 10 then 10 else 20 - |s.book.active|)
  {
  }

  /** What interrupts a task, and what each interruption makes of it. */
  lemma InterruptionsExactly(cfg: Config, k: Task)
    ensures k.pc.Waiting? || k.pc.Sending? ==>
      Moved(cfg, k, if k.pc.Waiting? then WaitRaise else SendRaise) ==
      k.(pc := Acking(1), report := Some(Report(Undeliverable, Some(ConnectorError))))
    ensures k.pc.AwaitingReply? ==> Moved(cfg, k, AckRaise) == k.(pc := Done(Crashed))
    ensures !k.pc.Done? ==> Moved(cfg, k, Cancel) == k.(pc := Done(Cancelled))
  {
  }

  /** The steps that only the outbox or the poll takes, field by field. */
  lemma QuietStepsExactly(s: System, step: Step)
    requires Enabled(s, step)
    ensures step.PollFail? ==> Apply(s, step) == s.(poll := Idle)
    ensures step.Record? ==>
      Apply(s, step) == s.(core := s.core.(box := s.core.box[step.id := NewIntent()],
                                           recorded := s.core.recorded + {step.id}))
    ensures step.Maintain? ==>
      && Apply(s, step) == s.(core := s.core.(box := Apply(s, step).core.box))
      && (forall id :: id in Apply(s, step).core.box <==> id in s.core.box && id !in step.pruned)
      && (forall id :: id in Apply(s, step).core.box ==>
            Apply(s, step).core.box[id] ==
              if id in step.expired then s.core.box[id].(state := Expired) else s.core.box[id])
  {
  }

  /** Left to itself, a task's steps amount to one run of `_run`: they send what it sends, and
      go on to acknowledge what it reports. */
  lemma MovesDeliver(cfg: Config, id: Id, d: Delivery, found: bool, failed: bool, raises: bool)
    ensures var (sent, report) := Delivered(cfg, d, found, failed, raises);
      var k1 := Moved(cfg, NewTask(id, d), Begin);
      var k2 := if k1.pc.Waiting? then Moved(cfg, k1, if found then JobFound(failed) else JobTimeout) else k1;
      var k3 := if k2.pc.Sending? then Moved(cfg, k2, if raises then SendRaise else SendReturn) else k2;
      && k2.pc == (if sent == [] then Acking(1) else Sending(sent[0]))
      && k3 == NewTask(id, d).(pc := Acking(1), report := Some(report), sends := |sent|,
                               resultReturned := sent == [JobResult] && !raises)
  {
  }

  /** The acknowledgement steps of a task that nothing else interrupts, given the token it finds
      and the reply it gets at each attempt. */
  function AckAlone(cfg: Config, k: Task, tokens: seq<Option<Token>>, replies: seq<Reply>): Task
    requires |tokens| == ACK_ATTEMPTS && |replies| == ACK_ATTEMPTS
    requires k.report.Some? && k.pc == Acking(|k.attempts| + 1) && |k.attempts| < ACK_ATTEMPTS
    decreases ACK_ATTEMPTS - |k.attempts|
  {
    var n := |k.attempts|;
    var asked := AckSent(k, tokens[n], tokens[n]);
    if asked.pc.Done? then asked
    else
      var answered := AfterReply(asked, n + 1, replies[n]);
      if CanMove(answered, BackoffDone) then AckAlone(cfg, Moved(cfg, answered, BackoffDone), tokens, replies)
      else answered
  }

  lemma AckTurn(k: Task, token: Token, reply: Reply)
    requires k.report.Some? && k.pc == Acking(|k.attempts| + 1) && |k.attempts| < ACK_ATTEMPTS
    ensures var n := |k.attempts| + 1;
      AfterReply(AckSent(k, Some(token), Some(token)), n, reply) ==
      k.(attempts := k.attempts + [Attempt(token, token, k.report.value, Some(reply))],
         pc := if reply.ok then Done(AckEnded(Acked))
               else if IsFinal(reply) then Done(AckEnded(Rejected))
               else if n == ACK_ATTEMPTS then Done(AckEnded(Exhausted))
               else BackingOff(n))
  {
    var asked := AckSent(k, Some(token), Some(token));
    var made := k.attempts + [Attempt(token, token, k.report.value, Some(reply))];
    assert asked.attempts[|k.attempts| := made[|k.attempts|]] == made;
  }

  /** They make the attempts of the acknowledgement loop and end as it does. */
  lemma {:induction false} AckStepsAreTheLoop(cfg: Config, k: Task, tokens: seq<Option<Token>>, replies: seq<Reply>)
    requires |tokens| == ACK_ATTEMPTS && |replies| == ACK_ATTEMPTS
    requires k.report.Some? && k.pc == Acking(|k.attempts| + 1) && |k.attempts| < ACK_ATTEMPTS
    ensures var (attempts, end) := AckLoop(k.report.value, tokens, replies, k.attempts);
      AckAlone(cfg, k, tokens, replies) == k.(attempts := attempts, pc := Done(AckEnded(end)))
    decreases ACK_ATTEMPTS - |k.attempts|
  {
    var n := |k.attempts|;
    hide AfterReply, IsFinal, Preflight;
    if tokens[n].Some? {
      AckTurn(k, tokens[n].value, replies[n]);
      var made := k.attempts + [Attempt(tokens[n].value, tokens[n].value, k.report.value, Some(replies[n]))];
      if Retryable(replies[n]) && n + 1 < ACK_ATTEMPTS {
        var next := k.(attempts := made, pc := Acking(n + 2));
        assert AckAlone(cfg, k, tokens, replies) == AckAlone(cfg, next, tokens, replies);
        AckStepsAreTheLoop(cfg, next, tokens, replies);
      }
    }
  }

  // ---------------------------------------------------------------------
  // How often one intent is posted
  // ---------------------------------------------------------------------

  function Sends(tasks: seq<Task>, id: Id): nat {
    if tasks == [] then 0
    else Sends(tasks[..|tasks| - 1], id)
         + (if tasks[|tasks| - 1].id == id then tasks[|tasks| - 1].sends else 0)
  }

  /** Tasks of the intent that are over without having seen their acknowledgement accepted. */
  function EndedUnacked(tasks: seq<Task>, id: Id): nat {
    if tasks == [] then 0
    else EndedUnacked(tasks[..|tasks| - 1], id)
         + (var k := tasks[|tasks| - 1]; if k.id == id && k.pc.Done? && !IsAcked(k) then 1 else 0)
  }

  lemma {:induction false} SendsBounded(tasks: seq<Task>, id: Id)
    requires forall t :: 0 <= t < |tasks| && tasks[t].id == id ==> tasks[t].sends <= 1
    requires forall t, u :: 0 <= t < u < |tasks| && tasks[t].id == tasks[u].id ==>
      tasks[t].pc.Done? && !IsAcked(tasks[t])
    ensures Sends(tasks, id) <= 1 + EndedUnacked(tasks, id)
    ensures (forall t :: 0 <= t < |tasks| && tasks[t].id == id ==> tasks[t].pc.Done? && !IsAcked(tasks[t])) ==>
      Sends(tasks, id) <= EndedUnacked(tasks, id)
  {
    if tasks != [] {
      var rest, last := tasks[..|tasks| - 1], tasks[|tasks| - 1];
      assert forall t :: 0 <= t < |rest| ==> rest[t] == tasks[t];
      SendsBounded(rest, id);
    }
  }

  /** At-most-once up to lost acknowledgements: over every run, an intent is posted at most
      once plus once for each of its tasks that ended without a successful acknowledgement. */
  lemma SendBound(s: System, id: Id)
    requires Reachable(s)
    ensures Sends(s.book.tasks, id) <= 1 + EndedUnacked(s.book.tasks, id)
  {
    ReachableInv(s);
    forall t | 0 <= t < |s.book.tasks| ensures TaskOk(s.book.tasks[t]) {
    }
    SendsBounded(s.book.tasks, id);
  }

  // ---------------------------------------------------------------------
  // What a run never takes back
  // ---------------------------------------------------------------------

  /** What later steps may do to a task: a report, once chosen, stays; requests are only added;
      a finished task changes in nothing but being forgotten; sends are never undone. */
  ghost predicate Continues(k: Task, k': Task) {
    && k'.id == k.id && k'.delivery == k.delivery
    && (k.report.Some? ==> k'.report == k.report)
    && k.sends <= k'.sends
    && |k.attempts| <= |k'.attempts|
    && (forall i :: 0 <= i < |k.attempts| ==> k'.attempts[i].token == k.attempts[i].token)
    && (k.pc.Done? ==> k' == k.(forgotten := k'.forgotten))
    && (k.forgotten ==> k'.forgotten)
  }

  lemma {:induction false} AbsorbExtends(b: Book, items: seq<ClaimItem>)
    ensures b.tasks <= Absorb(b, items).tasks
  {
    if items != [] {
      AbsorbExtends(b, items[..|items| - 1]);
    }
  }

  lemma MovedContinues(cfg: Config, k: Task, move: Move)
    requires TaskOk(k) && CanMove(k, move)
    ensures Continues(k, Moved(cfg, k, move))
  {
  }

  lemma AckSentContinues(k: Task, token: Option<Token>, newest: Option<Token>)
    requires k.pc.Acking? && k.report.Some?
    ensures Continues(k, AckSent(k, token, newest))
  {
  }

  lemma AnsweredContinues(k: Task, reply: Reply)
    requires k.pc.AwaitingReply? && k.attempts != []
    ensures Continues(k, AfterReply(k, k.pc.n, reply))
  {
  }

  lemma RestContinues(k: Task)
    ensures Continues(k, k) && Continues(k, k.(forgotten := true))
  {
  }

  lemma StepContinues(s: System, step: Step, t: nat)
    requires Enabled(s, step) && At(s, t) && TaskOk(s.book.tasks[t])
    ensures At(Apply(s, step), t) && Continues(s.book.tasks[t], Apply(s, step).book.tasks[t])
  {
    hide Continues, Moved, AckSent, AfterReply, TaskOk, Absorb, OfferAll, OfferOne, CanOffer, Ack, Maintained;
    var k := s.book.tasks[t];
    RestContinues(k);
    if step.PollResume? {
      AbsorbExtends(s.book, s.poll.items);
    } else if step.TaskMove? && step.t == t {
      MovedContinues(s.cfg, k, step.move);
    } else if step.AckSend? && step.t == t {
      AckSentContinues(k, Found(s.book.tokens, k.id), Found(s.newest, k.id));
    } else if step.AckReply? && step.t == t {
      AnsweredContinues(k, step.reply);
    }
  }

  lemma StepAccepts(s: System, step: Step)
    requires Inv(s) && Enabled(s, step)
    ensures s.core.accepted <= Apply(s, step).core.accepted
  {
    match step
    case ServerClaim(now, leaseSec, items) => OfferAllKeeps(s.core, now, leaseSec, items);
    case _ =>
  }

  /** Over the rest of any run each task keeps its report and, once over, its whole history. */
  lemma {:induction false} RunContinues(s: System, steps: seq<Step>, s': System, t: nat)
    requires Inv(s) && Reaches(s, steps, s') && At(s, t)
    ensures At(s', t) && Continues(s.book.tasks[t], s'.book.tasks[t])
    ensures s.core.accepted <= s'.core.accepted
    decreases |steps|
  {
    if steps != [] {
      assert TaskOk(s.book.tasks[t]);
      StepContinues(s, steps[0], t);
      StepAccepts(s, steps[0]);
      StepInv(s, steps[0]);
      RunContinues(Apply(s, steps[0]), steps[1..], s', t);
    }
  }

  // ---------------------------------------------------------------------
  // The bound is reached, for every number of tasks that end unacknowledged
  // ---------------------------------------------------------------------

  lemma {:induction false} ReachesMore(s: System, steps: seq<Step>, s': System, step: Step)
    requires Reaches(s, steps, s') && Enabled(s', step)
    ensures Reaches(s, steps + [step], Apply(s', step))
    decreases |steps|
  {
    if steps != [] {
      ReachesMore(Apply(s, steps[0]), steps[1..], s', step);
      assert (steps + [step])[1..] == steps[1..] + [step];
    } else {
      assert ([step])[1..] == [];
    }
  }

  lemma Take(s: System, step: Step) returns (s': System)
    requires Reachable(s) && Enabled(s, step)
    ensures s' == Apply(s, step) && Reachable(s')
  {
    s' := Apply(s, step);
    var steps :| Reaches(Init(s.cfg), steps, s);
    ReachesMore(Init(s.cfg), steps, s, step);
  }

  /** The response to a claim of one intent. */
  lemma OfferedOne(s: System, id: Id, token: Token, now: real, d: Delivery) returns (s': System)
    requires Reachable(s) && s.poll.Idle? && s.book.active == map[] && EnabledPlatforms(s.cfg) != []
    requires id in s.core.box && Leaseable(s.core.box[id], now) && token !in s.core.issued && token != ""
    ensures Reachable(s') && s'.cfg == s.cfg && s'.book == s.book
    ensures s'.poll == Responded(10, [Offer(id, token, d)])
    ensures s'.core == OfferOne(s.core, now, 720, id, token)
  {
    var items := [Offer(id, token, d)];
    s' := Take(s, PollStart);
    assert items[..0] == [] && CanOffer(s'.core, now, items[..0]);
    assert TokensOf(items[..0]) == {};
    s' := Take(s', ServerClaim(now, 720, items));
    assert OfferAll(s.core, now, 720, items[..0]) == s.core;
  }

  /** Claiming one intent nobody is working on starts one task for it. */
  lemma ClaimOne(s: System, id: Id, token: Token, now: real, d: Delivery) returns (s': System)
    requires Reachable(s) && s.poll.Idle? && s.book.active == map[] && EnabledPlatforms(s.cfg) != []
    requires id in s.core.box && Leaseable(s.core.box[id], now) && token !in s.core.issued && token != ""
    ensures Reachable(s') && s'.cfg == s.cfg && s'.poll.Idle?
    ensures s'.core.box == s.core.box[id := Lease(s.core.box[id], token, now, 720)]
    ensures s'.core.issued == s.core.issued + {token}
    ensures s'.book.active == map[id := |s.book.tasks|]
    ensures s'.book.tasks == s.book.tasks + [NewTask(id, d)]
  {
    s' := OfferedOne(s, id, token, now, d);
    var items := s'.poll.items;
    assert Absorb(s.book, items) == AbsorbOne(s.book, items[0]) by {
      assert items[..0] == [];
      assert Absorb(s.book, items[..0]) == s.book;
    }
    s' := Take(s', PollResume);
  }

  lemma SendOnly(s: System, t: nat, id: Id, d: Delivery) returns (s': System)
    requires Reachable(s) && At(s, t) && s.book.tasks[t] == NewTask(id, d) && Preflight(s.cfg, d).None?
    ensures Reachable(s') && s' == WithTask(s, t, NewTask(id, d).(pc := Sending(JobResult), sends := 1))
  {
    hide Reachable, Preflight, ReportOf;
    s' := Take(s, TaskMove(t, Begin));
    s' := Take(s', TaskMove(t, JobFound(false)));
  }

  /** A task that sent its result and was stopped before it could acknowledge. */
  lemma SendAndStop(s: System, t: nat, id: Id, d: Delivery) returns (s': System)
    requires Reachable(s) && At(s, t) && s.book.tasks[t] == NewTask(id, d) && Preflight(s.cfg, d).None?
    requires t == |s.book.tasks| - 1 && s.book.active == map[id := t]
    ensures Reachable(s') && s'.cfg == s.cfg && s'.poll == s.poll && s'.core == s.core && s'.book.active == map[]
    ensures |s'.book.tasks| == t + 1 && s'.book.tasks[..t] == s.book.tasks[..t]
    ensures s'.book.tasks[t].id == id && s'.book.tasks[t].sends == 1 && s'.book.tasks[t].pc == Done(Cancelled)
  {
    hide Reachable, Preflight, ReportOf;
    s' := SendOnly(s, t, id, d);
    s' := Take(s', TaskMove(t, Cancel));
    s' := Take(s', Forget(t));
  }

  /** One round of claim, send, stop. */
  lemma PostAndStop(s: System, id: Id, token: Token, now: real, d: Delivery) returns (s': System)
    requires Reachable(s) && s.poll.Idle? && s.book.active == map[]
    requires EnabledPlatforms(s.cfg) != [] && Preflight(s.cfg, d).None?
    requires id in s.core.box && Leaseable(s.core.box[id], now) && token !in s.core.issued && token != ""
    ensures Reachable(s') && s'.cfg == s.cfg && s'.poll.Idle? && s'.book.active == map[]
    ensures id in s'.core.box && s'.core.box[id] == Lease(s.core.box[id], token, now, 720)
    ensures s'.core.issued == s.core.issued + {token}
    ensures Sends(s'.book.tasks, id) == Sends(s.book.tasks, id) + 1
    ensures EndedUnacked(s'.book.tasks, id) == EndedUnacked(s.book.tasks, id) + 1
  {
    s' := ClaimOne(s, id, token, now, d);
    assert s'.book.tasks[..|s.book.tasks|] == s.book.tasks;
    s' := SendAndStop(s', |s.book.tasks|, id, d);
  }

  lemma TokenOfLength(n: nat) returns (token: Token)
    ensures |token| == n
  {
    token := seq(n, i => 'x');
  }

  /** After n tasks that were each stopped between the send and the acknowledgement, the intent can be
      claimed again. */
  lemma {:induction false} StoppedAgain(cfg: Config, id: Id, d: Delivery, n: nat) returns (s: System)
    requires EnabledPlatforms(cfg) != [] && Preflight(cfg, d).None?
    ensures Reachable(s) && s.cfg == cfg && s.poll.Idle? && s.book.active == map[]
    ensures Sends(s.book.tasks, id) == n && EndedUnacked(s.book.tasks, id) == n
    ensures id in s.core.box && Leaseable(s.core.box[id], 720.0 * n as real)
    ensures forall token :: token in s.core.issued ==> |token| <= n
  {
    if n == 0 {
      s := Init(cfg);
      assert Reaches(s, [], s);
      hide Reachable, EnabledPlatforms, Preflight;
      s := Take(s, Record(id));
    } else {
      hide Reachable, EnabledPlatforms, Preflight, Sends, EndedUnacked;
      s := StoppedAgain(cfg, id, d, n - 1);
      var token := TokenOfLength(n);
      s := PostAndStop(s, id, token, 720.0 * (n - 1) as real, d);
    }
  }

  lemma SendCounted(tasks: seq<Task>, id: Id, k: Task)
    requires k.id == id && k.sends == 1 && !k.pc.Done?
    ensures Sends(tasks + [k], id) == Sends(tasks, id) + 1
    ensures EndedUnacked(tasks + [k], id) == EndedUnacked(tasks, id)
  {
    assert (tasks + [k])[..|tasks|] == tasks;
  }

  /** Tightness: for every n there is a run in which n tasks of an intent end without a successful
      acknowledgement and the intent is posted n + 1 times. */
  lemma SendBoundReached(cfg: Config, id: Id, d: Delivery, n: nat) returns (s: System)
    requires EnabledPlatforms(cfg) != [] && Preflight(cfg, d).None?
    ensures Reachable(s) && s.cfg == cfg
    ensures EndedUnacked(s.book.tasks, id) == n
    ensures Sends(s.book.tasks, id) == 1 + EndedUnacked(s.book.tasks, id)
  {
    hide Reachable, EnabledPlatforms, Preflight, Sends, EndedUnacked;
    var before := StoppedAgain(cfg, id, d, n);
    var token := TokenOfLength(n + 1);
    s := ClaimOne(before, id, token, 720.0 * n as real, d);
    var t := |before.book.tasks|;
    s := SendOnly(s, t, id, d);
    assert s.book.tasks == before.book.tasks + [s.book.tasks[t]];
    SendCounted(before.book.tasks, id, s.book.tasks[t]);
  }

  // ---------------------------------------------------------------------
  // What the outbox finally records is what some task did
  // ---------------------------------------------------------------------

  /** A task of this id chose this report. */
  ghost predicate Reported(tasks: seq<Task>, id: Id, report: Report) {
    exists t :: 0 <= t < |tasks| && tasks[t].id == id && tasks[t].report == Some(report)
  }

  /** Every request ever sent carries the report of a task, and every finished intent was finished
      by such a request. */
  ghost predicate Truthful(s: System) {
    && (forall m :: m in s.core.sent ==> Reported(s.book.tasks, m.0, m.2))
    && (forall id :: id in s.core.box && s.core.box[id].state.Final? ==>
          FinishedBy(s.core.sent, id, s.core.box[id].state.report))
  }

  ghost predicate FinishedBy(sent: set<(Id, Token, Report)>, id: Id, report: Report) {
    exists m :: m in sent && m.0 == id && report == Report(m.2.outcome, EffectiveReason(m.2))
  }

  lemma ReportedStays(s: System, step: Step, id: Id, report: Report)
    requires Inv(s) && Enabled(s, step) && Reported(s.book.tasks, id, report)
    ensures Reported(Apply(s, step).book.tasks, id, report)
  {
    var t :| 0 <= t < |s.book.tasks| && s.book.tasks[t].id == id && s.book.tasks[t].report == Some(report);
    assert TaskOk(s.book.tasks[t]);
    hide Apply, Enabled, TaskOk, Inv;
    StepContinues(s, step, t);
    assert Apply(s, step).book.tasks[t].id == id;
  }

  lemma FinishedByMore(sent: set<(Id, Token, Report)>, more: set<(Id, Token, Report)>, id: Id, report: Report)
    requires FinishedBy(sent, id, report) && sent <= more
    ensures FinishedBy(more, id, report)
  {
    var m :| m in sent && m.0 == id && report == Report(m.2.outcome, EffectiveReason(m.2));
    assert m in more;
  }

  lemma {:induction false} OffersFinishNothing(c: Core, now: real, leaseSec: int, items: seq<ClaimItem>)
    requires CanOffer(c, now, items)
    ensures var c' := OfferAll(c, now, leaseSec, items);
      && c'.sent == c.sent && c'.box.Keys == c.box.Keys
      && (forall id :: id in c.box && c'.box[id].state.Final? ==> c'.box[id] == c.box[id])
  {
    if items != [] {
      OffersFinishNothing(c, now, leaseSec, items[..|items| - 1]);
    }
  }

  /** The request this step sends, if it sends one. */
  predicate SentBy(s: System, step: Step, m: (Id, Token, Report)) {
    step.AckSend? && At(s, step.t) && m.0 == s.book.tasks[step.t].id && Some(m.2) == s.book.tasks[step.t].report
  }

  lemma StepSends(s: System, step: Step)
    requires Enabled(s, step)
    ensures s.core.sent <= Apply(s, step).core.sent
    ensures forall m :: m in Apply(s, step).core.sent ==> m in s.core.sent || SentBy(s, step, m)
  {
    if step.ServerClaim? {
      OffersFinishNothing(s.core, step.now, step.leaseSec, step.items);
    }
  }

  lemma StepFinishes(s: System, step: Step, id: Id)
    requires Enabled(s, step)
    requires id in Apply(s, step).core.box && Apply(s, step).core.box[id].state.Final?
    ensures var report := Apply(s, step).core.box[id].state.report;
      (id in s.core.box && s.core.box[id].state == Final(report)) || FinishedBy(s.core.sent, id, report)
  {
    match step
    case ServerClaim(now, leaseSec, items) => OffersFinishNothing(s.core, now, leaseSec, items);
    case ServerAck(msg) =>
      AckFinalises(s.core.box, msg.0, msg.1, msg.2);
      assert msg in s.core.sent;
    case _ =>
  }

  lemma StepTruthful(s: System, step: Step)
    requires Inv(s) && Truthful(s) && Enabled(s, step)
    ensures Truthful(Apply(s, step))
  {
    hide Apply, Enabled, Inv;
    var s' := Apply(s, step);
    forall m | m in s'.core.sent ensures Reported(s'.book.tasks, m.0, m.2) {
      StepSends(s, step);
      if m !in s.core.sent {
        assert Reported(s.book.tasks, m.0, m.2);
      }
      ReportedStays(s, step, m.0, m.2);
    }
    forall id | id in s'.core.box && s'.core.box[id].state.Final?
      ensures FinishedBy(s'.core.sent, id, s'.core.box[id].state.report)
    {
      StepSends(s, step);
      StepFinishes(s, step, id);
      FinishedByMore(s.core.sent, s'.core.sent, id, s'.core.box[id].state.report);
    }
  }

  lemma {:induction false} RunTruthful(s: System, steps: seq<Step>, s': System)
    requires Inv(s) && Truthful(s) && Reaches(s, steps, s')
    ensures Inv(s') && Truthful(s')
    decreases |steps|
  {
    if steps != [] {
      hide Inv, Truthful, Apply, Enabled;
      StepInv(s, steps[0]);
      StepTruthful(s, steps[0]);
      RunTruthful(Apply(s, steps[0]), steps[1..], s');
    }
  }

  /** The task behind a final state: it chose that report, and if the report is `sent`, its one send
      was that of the result, and returned. */
  predicate AccountsFor(k: Task, id: Id, final: Report) {
    && k.id == id && k.report.Some?
    && final == Report(k.report.value.outcome, EffectiveReason(k.report.value))
    && (final.outcome.Sent? ==> k.resultReturned && k.sends == 1)
  }

  /** What the outbox finally says of an intent is what one of its tasks did. */
  lemma FinalIsTrue(s: System, id: Id)
    requires Reachable(s) && id in s.core.box && s.core.box[id].state.Final?
    ensures exists t :: 0 <= t < |s.book.tasks| && AccountsFor(s.book.tasks[t], id, s.core.box[id].state.report)
  {
    var steps :| Reaches(Init(s.cfg), steps, s);
    InitInv(s.cfg);
    RunTruthful(Init(s.cfg), steps, s);
    var m :| m in s.core.sent && m.0 == id
      && s.core.box[id].state.report == Report(m.2.outcome, EffectiveReason(m.2));
    assert Reported(s.book.tasks, id, m.2);
    var t :| 0 <= t < |s.book.tasks| && s.book.tasks[t].id == id && s.book.tasks[t].report == Some(m.2);
    assert TaskOk(s.book.tasks[t]);
    assert AccountsFor(s.book.tasks[t], id, s.core.box[id].state.report);
  }
}
