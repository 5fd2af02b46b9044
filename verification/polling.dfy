/**
 The backoff loops of the results poller and one delivery from claim to
 acknowledgement, measured against the lease it runs under.

 A request takes some non-negative time; anything that makes a sleep longer than
 asked for counts as part of the request before it.
 */
module Polling {
  import opened Wrappers
  import opened Numbers
  import opened DeliveryOutbox
  import opened DeliveryWorker

  const MAX_DELAY := 15.0

  /** The sleep after the request number i (from 0). */
  function Delay(first: real, i: nat): real {
    if i == 0 then first else Min(Delay(first, i - 1) * 2.0, MAX_DELAY)
  }

  function SleptBefore(first: real, i: nat): real {
    if i == 0 then 0.0 else SleptBefore(first, i - 1) + Delay(first, i - 1)
  }

  /** When request number i would start, counted from the start of the loop. */
  function StartOf(first: real, duration: nat -> real, i: nat): real {
    if i == 0 then 0.0 else StartOf(first, duration, i - 1) + duration(i - 1) + Delay(first, i - 1)
  }

  ghost predicate NonNegative(duration: nat -> real) {
    forall k :: duration(k) >= 0.0
  }

  lemma {:induction false} DelayPositive(first: real, i: nat)
    requires 1.0 <= first <= MAX_DELAY
    ensures 1.0 <= Delay(first, i) <= MAX_DELAY
  {
    if i > 0 {
      DelayPositive(first, i - 1);
    }
  }

  lemma {:induction false} StartAtLeastSlept(first: real, duration: nat -> real, i: nat)
    requires NonNegative(duration) && 1.0 <= first <= MAX_DELAY
    ensures StartOf(first, duration, i) >= SleptBefore(first, i) >= i as real
  {
    if i > 0 {
      DelayPositive(first, i - 1);
      StartAtLeastSlept(first, duration, i - 1);
    }
  }

  lemma {:induction false} StartGrows(first: real, duration: nat -> real, i: nat, j: nat)
    requires NonNegative(duration) && 1.0 <= first <= MAX_DELAY && i <= j
    ensures StartOf(first, duration, i) <= StartOf(first, duration, j)
  {
    if i < j {
      DelayPositive(first, j - 1);
      StartGrows(first, duration, i, j - 1);
    }
  }

  /** 1, 2, 4, 8 and then 15 seconds each: 15 seconds per request from the fifth on. */
  lemma {:induction false} JobSchedule(i: nat)
    requires i >= 4
    ensures Delay(1.0, i) == 15.0 && SleptBefore(1.0, i) == 15.0 * (i - 3) as real
  {
    if i == 4 {
      assert Delay(1.0, 1) == 2.0 && Delay(1.0, 2) == 4.0 && Delay(1.0, 3) == 8.0;
      assert SleptBefore(1.0, 3) == 7.0;
    } else {
      JobSchedule(i - 1);
    }
  }

  function CeilDiv(a: int, b: int): int
    requires b > 0
  {
    (a + b - 1) / b
  }

  /** Any request started before the timeout is among the first ceil(T/15) + 3. */
  lemma RequestNumber(timeout: int, duration: nat -> real, i: nat)
    requires NonNegative(duration) && StartOf(1.0, duration, i) < timeout as real
    ensures i + 1 <= CeilDiv(timeout, 15) + 3
  {
    StartAtLeastSlept(1.0, duration, i);
    if i >= 4 {
      JobSchedule(i);
      assert 15 * (i - 3) < timeout;
    }
  }

  /** A request that takes no time. */
  function AtOnce(k: nat): real {
    0.0
  }

  lemma {:induction false} StartsAtOnce(first: real, i: nat)
    ensures StartOf(first, AtOnce, i) == SleptBefore(first, i)
  {
    if i > 0 {
      StartsAtOnce(first, i - 1);
    }
  }

  lemma LastInTime(timeout: int, i: nat)
    requires timeout >= 8 && i + 1 == CeilDiv(timeout, 15) + 3
    ensures SleptBefore(1.0, i) < timeout as real <= SleptBefore(1.0, i + 1)
  {
    JobSchedule(i + 1);
    if i == 3 {
      assert Delay(1.0, 1) == 2.0 && Delay(1.0, 2) == 4.0;
      assert SleptBefore(1.0, 3) == 7.0;
    } else {
      JobSchedule(i);
    }
  }

  /** The bound is reached: from eight seconds on, instantaneous requests that go on until the
      timeout are exactly that many. */
  lemma RequestNumberTight(timeout: int, requests: nat)
    requires timeout >= 8
    requires forall k :: 0 <= k < requests ==> StartOf(1.0, AtOnce, k) < timeout as real
    requires StartOf(1.0, AtOnce, requests) >= timeout as real
    ensures requests == CeilDiv(timeout, 15) + 3
  {
    var n := CeilDiv(timeout, 15) + 3;
    LastInTime(timeout, n - 1);
    StartsAtOnce(1.0, n - 1);
    StartsAtOnce(1.0, n);
    if requests < n {
      StartGrows(1.0, AtOnce, requests, n - 1);
    }
  }

  /** What one more round of the job loop costs, given that its request was made in time. */
  lemma Round(timeout: int, duration: nat -> real, i: nat)
    requires NonNegative(duration) && StartOf(1.0, duration, i) < timeout as real
    ensures i < timeout && 1 <= i + 1 <= CeilDiv(timeout, 15) + 3
    ensures 0.0 <= SleptBefore(1.0, i) < SleptBefore(1.0, i + 1) < timeout as real + MAX_DELAY
  {
    StartAtLeastSlept(1.0, duration, i);
    DelayPositive(1.0, i);
    RequestNumber(timeout, duration, i);
  }

  /** Some request that starts before the timeout shows the finished job. */
  ghost predicate FoundInTime(timeout: int, duration: nat -> real, found: nat -> bool) {
    exists k :: found(k) && StartOf(1.0, duration, k) < timeout as real
  }

  lemma NotFoundInTime(timeout: int, duration: nat -> real, found: nat -> bool, requests: nat)
    requires NonNegative(duration) && StartOf(1.0, duration, requests) >= timeout as real
    requires forall k :: 0 <= k < requests ==> !found(k)
    ensures !FoundInTime(timeout, duration, found)
  {
    forall k: nat | k >= requests ensures StartOf(1.0, duration, k) >= timeout as real {
      StartGrows(1.0, duration, requests, k);
    }
  }

  /** `wait_for_job`: `found(k)` says whether request k shows the finished job. */
  method WaitForJob(timeout: int, duration: nat -> real, found: nat -> bool)
    returns (job: bool, requests: nat, slept: real)
    requires NonNegative(duration)
    ensures job <==> FoundInTime(timeout, duration, found)
    ensures forall k :: 0 <= k < requests ==> StartOf(1.0, duration, k) < timeout as real
    ensures job ==> requests > 0 && found(requests - 1)
    ensures forall k :: 0 <= k < requests - 1 ==> !found(k)
    ensures !job ==> StartOf(1.0, duration, requests) >= timeout as real
    ensures !job && requests > 0 ==> !found(requests - 1)
    ensures slept == SleptBefore(1.0, if job then requests - 1 else requests)
    ensures timeout > 0 ==>
      1 <= requests <= CeilDiv(timeout, 15) + 3 && 0.0 <= slept < timeout as real + MAX_DELAY
    ensures timeout <= 0 ==> !job && requests == 0
  {
    var elapsed, delay := 0.0, 1.0;
    requests, slept := 0, 0.0;
    while elapsed < timeout as real
      invariant elapsed == StartOf(1.0, duration, requests)
      invariant delay == Delay(1.0, requests)
      invariant slept == SleptBefore(1.0, requests)
      invariant forall k :: 0 <= k < requests ==> StartOf(1.0, duration, k) < timeout as real
      invariant forall k :: 0 <= k < requests ==> !found(k)
      invariant requests > 0 ==>
        timeout > 0 && requests <= CeilDiv(timeout, 15) + 3 && 0.0 <= slept < timeout as real + MAX_DELAY
      decreases timeout - requests
    {
      Round(timeout, duration, requests);
      requests := requests + 1;
      if found(requests - 1) {
        return true, requests, slept;
      }
      elapsed := elapsed + duration(requests - 1) + delay;
      slept := slept + delay;
      delay := Min(delay * 2.0, MAX_DELAY);
    }
    NotFoundInTime(timeout, duration, found, requests);
    job := false;
  }

  /** 2, 4, 8 and then 15 seconds each. */
  lemma {:induction false} ApprovalSchedule(i: nat)
    requires i >= 3
    ensures Delay(2.0, i) == 15.0 && SleptBefore(2.0, i) == 14.0 + 15.0 * (i - 3) as real
  {
    if i == 3 {
      assert Delay(2.0, 1) == 4.0 && Delay(2.0, 2) == 8.0;
      assert SleptBefore(2.0, 2) == 6.0;
    } else {
      ApprovalSchedule(i - 1);
    }
  }

  lemma ApprovalRound(timeout: int, duration: nat -> real, i: nat)
    requires NonNegative(duration) && StartOf(2.0, duration, i) < timeout as real
    ensures i < timeout && i + 1 <= CeilDiv(timeout + 31, 15)
  {
    StartAtLeastSlept(2.0, duration, i);
    if i >= 3 {
      ApprovalSchedule(i);
    }
  }

  datatype Approval = StillOpen | Refused | ApprovedWith(promptId: string)

  datatype ApprovalEnd = RefusedNotice | Tracked(promptId: string) | TimeoutNoticed

  /** `_poll_approval`: ends in exactly one notice or in handing over one job. An approval
      without a prompt id is polled again. */
  method PollApproval(timeout: int, duration: nat -> real, answer: nat -> Approval)
    returns (end: ApprovalEnd, requests: nat)
    requires NonNegative(duration)
    ensures forall k :: 0 <= k < requests ==> StartOf(2.0, duration, k) < timeout as real
    ensures forall k :: 0 <= k < requests - 1 ==> answer(k).StillOpen? || answer(k) == ApprovedWith("")
    ensures match end
      case RefusedNotice => requests > 0 && answer(requests - 1).Refused?
      case Tracked(promptId) => requests > 0 && promptId != "" && answer(requests - 1) == ApprovedWith(promptId)
      case TimeoutNoticed =>
        && StartOf(2.0, duration, requests) >= timeout as real
        && forall k :: 0 <= k < requests ==> answer(k).StillOpen? || answer(k) == ApprovedWith("")
    ensures requests <= if timeout > 0 then CeilDiv(timeout + 31, 15) else 0
  {
    var elapsed, delay := 0.0, 2.0;
    requests := 0;
    while elapsed < timeout as real
      invariant elapsed == StartOf(2.0, duration, requests)
      invariant delay == Delay(2.0, requests)
      invariant forall k :: 0 <= k < requests ==> StartOf(2.0, duration, k) < timeout as real
      invariant forall k :: 0 <= k < requests ==> answer(k).StillOpen? || answer(k) == ApprovedWith("")
      invariant requests <= if timeout > 0 then CeilDiv(timeout + 31, 15) else 0
      decreases timeout - requests
    {
      ApprovalRound(timeout, duration, requests);
      requests := requests + 1;
      var res := answer(requests - 1);
      if res.Refused? {
        return RefusedNotice, requests;
      }
      if res.ApprovedWith? && res.promptId != "" {
        return Tracked(res.promptId), requests;
      }
      elapsed := elapsed + duration(requests - 1) + delay;
      delay := Min(delay * 2.0, MAX_DELAY);
    }
    end := TimeoutNoticed;
  }

  /** What `_run` meets on the way: how the job comes out, which send raises, and the ack's environment. */
  datatype Surroundings = Surroundings(
    duration: nat -> real, found: nat -> bool, jobFailed: bool, sendRaises: bool,
    tokens: seq<Option<Token>>, replies: seq<Reply>)

  /** `_run`: deliver, then acknowledge what came of it, even when a send raised. What is sent and
      reported is decided by how the job came out; at most one send; the whole task sleeps less
      than its lease and 15 seconds. */
  method RunDelivery(cfg: Config, d: Delivery, env: Surroundings)
    returns (report: Report, sends: seq<Notice>, attempts: seq<Attempt>, end: AckEnd, slept: real)
    requires NonNegative(env.duration) && cfg.deliveryTimeoutSec > 0
    requires |env.tokens| == ACK_ATTEMPTS && |env.replies| == ACK_ATTEMPTS
    ensures var inTime := FoundInTime(cfg.deliveryTimeoutSec, env.duration, env.found);
      (sends, report) == Delivered(cfg, d, inTime, env.jobFailed, env.sendRaises)
    ensures (attempts, end) == AckLoop(report, env.tokens, env.replies, [])
    ensures |sends| <= 1 && Disciplined(attempts, report) && ValidReport(report)
    ensures 0.0 <= slept < LeaseSec(cfg) as real + 15.0
  {
    sends, slept := [], 0.0;
    var refusal := Preflight(cfg, d);
    if refusal.Some? {
      report := refusal.value;
    } else {
      var job, requests, waited := WaitForJob(cfg.deliveryTimeoutSec, env.duration, env.found);
      slept := waited;
      if !job {
        sends := [TimeoutNotice];
        report := Report(TimedOut, Some(ResultTimeout));
      } else if env.jobFailed {
        if d.failureAlert {
          sends := [FailureNotice];
        }
        report := Report(JobFailed, Some(JobError));
      } else {
        sends := [JobResult];
        report := Report(Sent, None);
      }
      if sends != [] && env.sendRaises {
        report := Report(Undeliverable, Some(ConnectorError));
      }
    }
    var rest;
    attempts, end, rest := RunAck(report, env.tokens, env.replies);
    slept := slept + rest;
  }

  /** The first sleeps: 1, 2, 4, 8 and 15 seconds for a job, 2, 4, 8 and 15 for an approval. */
  lemma FirstDelays()
    ensures Delay(1.0, 0) == 1.0 && Delay(1.0, 1) == 2.0 && Delay(1.0, 2) == 4.0 && Delay(1.0, 3) == 8.0
    ensures Delay(1.0, 4) == 15.0
    ensures Delay(2.0, 0) == 2.0 && Delay(2.0, 1) == 4.0 && Delay(2.0, 2) == 8.0 && Delay(2.0, 3) == 15.0
  {
    assert Delay(1.0, 3) == 8.0;
    assert Delay(2.0, 2) == 8.0;
  }
}
