/**
 The durable outbox behind the claim and ack endpoints: one intent per
 scheduled tick, leased with a fresh token on every claim, finalised by one
 acknowledgement from the holder of the current lease.

 A token stands for its own hash, so two different tokens never share one.
 */
module DeliveryOutbox {
  import opened Wrappers

  type Id = string
  type Token = string

  const MIN_LEASE_SEC := 60
  const MAX_LEASE_SEC := 7200
  const MAX_CLAIM_BATCH := 10

  datatype Outcome = Sent | JobFailed | TimedOut | Undeliverable

  datatype Reason = JobError | ResultTimeout | TargetNotAllowed | PlatformUnavailable | ConnectorError

  datatype Report = Report(outcome: Outcome, reason: Option<Reason>)

  datatype State = Pending | Claimed | Final(report: Report) | Expired

  datatype Intent = Intent(state: State, token: Option<Token>, leaseUntil: real, attempts: nat)

  type Box = map<Id, Intent>

  datatype AckError = InvalidReason | LeaseTokenRequired | NotFound | LeaseMismatch | AlreadyFinalized

  datatype AckResult = Accepted(repeated: bool) | Refused(error: AckError)

  /** ACK_REASONS: the closed set of reasons each outcome may carry. */
  function AllowedReasons(outcome: Outcome): set<Reason> {
    match outcome
    case Sent => {}
    case JobFailed => {JobError}
    case TimedOut => {ResultTimeout}
    case Undeliverable => {TargetNotAllowed, PlatformUnavailable, ConnectorError}
  }

  predicate Terminal(state: State) {
    state.Final? || state.Expired?
  }

  predicate Leaseable(intent: Intent, now: real) {
    intent.state.Pending? || (intent.state.Claimed? && intent.leaseUntil <= now)
  }

  function NewIntent(): Intent {
    Intent(Pending, None, 0.0, 0)
  }

  function Lease(intent: Intent, token: Token, now: real, leaseSec: int): Intent {
    var lease := if leaseSec < MIN_LEASE_SEC then MIN_LEASE_SEC
                 else if leaseSec > MAX_LEASE_SEC then MAX_LEASE_SEC else leaseSec;
    Intent(Claimed, Some(token), now + lease as real, intent.attempts + 1)
  }

  /** A missing reason is filled in when the outcome allows exactly one. */
  function EffectiveReason(report: Report): Option<Reason> {
    if report.reason.Some? then report.reason
    else match report.outcome
      case JobFailed => Some(JobError)
      case TimedOut => Some(ResultTimeout)
      case _ => None
  }

  predicate ValidReport(report: Report) {
    var reason := EffectiveReason(report);
    if reason.None? then AllowedReasons(report.outcome) == {}
    else reason.value in AllowedReasons(report.outcome)
  }

  /** `ack`: the checks in source order, then the one state change. */
  function Ack(box: Box, id: Id, token: Token, report: Report): (r: (Box, AckResult)) {
    if !ValidReport(report) then (box, Refused(InvalidReason))
    else if token == "" then (box, Refused(LeaseTokenRequired))
    else if id !in box then (box, Refused(NotFound))
    else if box[id].token != Some(token) then (box, Refused(LeaseMismatch))
    else
      var final := Report(report.outcome, EffectiveReason(report));
      if Terminal(box[id].state) then
        if box[id].state == Final(final) then (box, Accepted(true))
        else (box, Refused(AlreadyFinalized))
      else if !box[id].state.Claimed? then (box, Refused(LeaseMismatch))
      else (box[id := box[id].(state := Final(final))], Accepted(false))
  }

  /** _OUTBOX_ERROR_STATUS of the ack handler. */
  function ErrorStatus(error: AckError): int {
    match error
    case InvalidReason => 400
    case LeaseTokenRequired => 400
    case NotFound => 404
    case LeaseMismatch => 409
    case AlreadyFinalized => 409
  }

  /** An accepted acknowledgement comes from the current lease holder, leaves the
      intent finalised with what was reported, and can be repeated any number of
      times; every other intent and every refusal leaves the box alone. */
  lemma AckFinalises(box: Box, id: Id, token: Token, report: Report)
    ensures var (after, result) := Ack(box, id, token, report);
      && (result.Accepted? ==>
            && id in box && box[id].token == Some(token) && token != ""
            && after == box[id := after[id]]
            && after[id].state == Final(Report(report.outcome, EffectiveReason(report)))
            && after[id].token == Some(token)
            && Ack(after, id, token, report) == (after, Accepted(true))
            && forall now :: !Leaseable(after[id], now))
      && (result.Refused? ==> after == box)
  {
  }

  /** Exactly when an acknowledgement is accepted. */
  lemma AckAcceptedIff(box: Box, id: Id, token: Token, report: Report)
    ensures Ack(box, id, token, report).1.Accepted? <==>
      && ValidReport(report)
      && token != ""
      && id in box && box[id].token == Some(token)
      && (box[id].state.Claimed?
          || box[id].state == Final(Report(report.outcome, EffectiveReason(report))))
  {
  }

  // ---------------------------------------------------------------------
  // Read off the fields
  // ---------------------------------------------------------------------

  /** Which reports are accepted at all, and the reason they are recorded with. */
  lemma ReportsAccepted(report: Report)
    ensures ValidReport(report) <==>
      || (report.outcome == Sent && report.reason == None)
      || (report.outcome == JobFailed && (report.reason == None || report.reason == Some(JobError)))
      || (report.outcome == TimedOut && (report.reason == None || report.reason == Some(ResultTimeout)))
      || (report.outcome == Undeliverable
          && (report.reason == Some(TargetNotAllowed) || report.reason == Some(PlatformUnavailable)
              || report.reason == Some(ConnectorError)))
    ensures ValidReport(report) ==>
      EffectiveReason(report) ==
        if report.outcome == Sent then None
        else if report.outcome == JobFailed then Some(JobError)
        else if report.outcome == TimedOut then Some(ResultTimeout)
        else report.reason
  {
  }

  /** Which answer each request gets: the first check that fails decides. */
  lemma AckAnswers(box: Box, id: Id, token: Token, report: Report)
    ensures var answer := Ack(box, id, token, report).1;
      var asked := ValidReport(report) && token != "";
      var held := asked && id in box && box[id].token == Some(token);
      var final := Final(Report(report.outcome, EffectiveReason(report)));
      && (answer == Refused(InvalidReason) <==> !ValidReport(report))
      && (answer == Refused(LeaseTokenRequired) <==> ValidReport(report) && token == "")
      && (answer == Refused(NotFound) <==> asked && id !in box)
      && (answer == Refused(LeaseMismatch) <==>
            asked && id in box && (box[id].token != Some(token) || box[id].state == Pending))
      && (answer == Refused(AlreadyFinalized) <==>
            held && box[id].state != Pending && box[id].state != Claimed && box[id].state != final)
      && (answer == Accepted(true) <==> held && box[id].state == final)
      && (answer == Accepted(false) <==> held && box[id].state == Claimed)
  {
  }

  /** What the caller sees of a refusal: 400 for a request that makes no sense, 404 for an unknown
      intent, 409 for one somebody else holds or has finished. */
  lemma AckStatus(box: Box, id: Id, token: Token, report: Report)
    requires Ack(box, id, token, report).1.Refused?
    ensures ErrorStatus(Ack(box, id, token, report).1.error) ==
      if !ValidReport(report) || token == "" then 400 else if id !in box then 404 else 409
  {
  }

  /** A lease is held for what was asked for, between a minute and two hours, and then runs out. */
  lemma LeaseRunsOut(intent: Intent, token: Token, now: real, leaseSec: int, later: real)
    ensures var leased := Lease(intent, token, now, leaseSec);
      && leased.state == Claimed && leased.token == Some(token) && leased.attempts == intent.attempts + 1
      && now + 60.0 <= leased.leaseUntil <= now + 7200.0
      && (60 <= leaseSec <= 7200 ==> leased.leaseUntil == now + leaseSec as real)
      && (leaseSec < 60 ==> leased.leaseUntil == now + 60.0)
      && (leaseSec > 7200 ==> leased.leaseUntil == now + 7200.0)
      && (Leaseable(leased, later) <==> leased.leaseUntil <= later)
    ensures Leaseable(intent, now) <==> intent.state == Pending || (intent.state == Claimed && intent.leaseUntil <= now)
    ensures NewIntent().state == Pending && NewIntent().token == None && NewIntent().attempts == 0
  {
  }
}
