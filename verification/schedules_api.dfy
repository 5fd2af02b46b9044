/** How the claim endpoint reads its parameters, and what the worker sends it. */
module SchedulesApi {
  import opened Wrappers
  import opened Numbers
  import Text
  import opened DeliveryOutbox
  import opened DeliveryWorker

  const MAX_CLAIM_PLATFORMS := 8
  const DEFAULT_LEASE_SEC := 720
  const MIN_DELIVERY_TIMEOUT_SEC := 30
  const MAX_DELIVERY_TIMEOUT_SEC := 3600

  /** Python's reader also knows Infinity, -Infinity and NaN, and reads 1e999 as infinity. */
  datatype Json = JNull | JBool(b: bool) | JInt(i: int) | JFloat(x: real) | JInfinite(negative: bool) | JNaN
                | JString(s: string) | JArray(items: seq<Json>) | JObject(fields: map<string, Json>)

  /** int() of an infinite float raises an error that nothing in the handler catches. */
  datatype Bounded = Value(n: int) | NotInteger | Raises

  /** int(value): floats truncate toward zero. */
  function AsInt(value: Json): Option<int> {
    match value
    case JInt(i) => Some(i)
    case JFloat(x) => Some(if x >= 0.0 then x.Floor else -((-x).Floor))
    case JString(s) => Text.ParseInt(s)
    case _ => None
  }

  function BoundedInt(value: Json, default: int, low: int, high: int): Bounded {
    if value == JNull || value == JString("") then Value(default)
    else if value.JBool? then NotInteger
    else if value.JInfinite? then Raises
    else
      var number := AsInt(value);
      if number.None? then NotInteger else Value(ClampInt(low, high, number.value))
  }

  /** Malformed values are told apart from clamped ones and from the infinite ones, which raise; a
      number in range, written as an integer or as its decimal text, comes through unchanged. */
  lemma BoundedIntExact(value: Json, default: int, low: int, high: int, n: int)
    requires low <= default <= high && low <= n <= high
    ensures BoundedInt(value, default, low, high).Value? ==>
      low <= BoundedInt(value, default, low, high).n <= high
    ensures BoundedInt(JInt(n), default, low, high) == Value(n)
    ensures BoundedInt(JString(Text.Decimal(n)), default, low, high) == Value(n)
    ensures BoundedInt(value, default, low, high).NotInteger? <==>
      value.JBool? || value.JNaN? || value.JArray? || value.JObject?
      || (value.JString? && value.s != "" && Text.ParseInt(value.s).None?)
    ensures BoundedInt(value, default, low, high).Raises? <==> value.JInfinite?
  {
    hide Text.ParseInt;
    Text.ParseDecimal(n);
    Text.NaturalDigits(if n < 0 then -n else n);
  }

  datatype ClaimError = InvalidPlatforms | InvalidLimit | Overflow

  datatype ClaimRequest = ClaimRequest(platforms: seq<string>, limit: int, leaseSec: int)

  function Normalised(s: string): string {
    Text.Lower(Text.Strip(s))
  }

  /** `claim_deliveries` up to its call of the outbox. */
  function ParseClaim(platforms: Json, limit: Json, leaseSec: Json): Result<ClaimRequest, ClaimError> {
    if !platforms.JArray? || !(0 < |platforms.items| <= MAX_CLAIM_PLATFORMS)
       || exists i :: 0 <= i < |platforms.items| && !platforms.items[i].JString? then Err(InvalidPlatforms)
    else
      var n := BoundedInt(limit, 5, 1, 10);
      var lease := BoundedInt(leaseSec, DEFAULT_LEASE_SEC, 60, 7200);
      if n.Raises? || lease.Raises? then Err(Overflow)
      else if n.NotInteger? || lease.NotInteger? then Err(InvalidLimit)
      else
        Ok(ClaimRequest(seq(|platforms.items|, i requires 0 <= i < |platforms.items| =>
                            if platforms.items[i].JString? then Normalised(platforms.items[i].s) else ""),
                        n.n, lease.n))
  }

  function AsJson(names: seq<string>): Json {
    JArray(seq(|names|, i requires 0 <= i < |names| => JString(names[i])))
  }

  lemma {:induction false} LoadedAreNames(names: seq<string>, loaded: set<string>)
    ensures |LoadedAmong(names, loaded)| <= |names|
    ensures forall p :: p in LoadedAmong(names, loaded) <==> p in names && p in loaded
  {
    if names != [] {
      LoadedAreNames(names[1..], loaded);
      assert names == [names[0]] + names[1..];
    }
  }

  lemma PlatformNameUnchanged(name: string)
    requires name in SCHEDULE_DELIVERY_PLATFORMS
    ensures Normalised(name) == name
  {
    assert name == "discord" || name == "feishu" || name == "slack" || name == "telegram";
    assert Text.StripLeft(name) == name && Text.StripRight(name) == name;
    assert Text.Lower(name) == name;
  }

  /** Every claim the worker can send is accepted and reaches the outbox unchanged, and the
      lease it is granted is the one it asked for. */
  lemma WorkerClaimsPassUnchanged(cfg: Config, limit: int, intent: Intent, token: Token, now: real)
    requires MIN_DELIVERY_TIMEOUT_SEC <= cfg.deliveryTimeoutSec <= MAX_DELIVERY_TIMEOUT_SEC
    requires 1 <= limit <= CLAIM_BATCH_LIMIT && EnabledPlatforms(cfg) != []
    ensures ParseClaim(AsJson(EnabledPlatforms(cfg)), JInt(limit), JInt(LeaseSec(cfg)))
         == Ok(ClaimRequest(EnabledPlatforms(cfg), limit, LeaseSec(cfg)))
    ensures Lease(intent, token, now, LeaseSec(cfg)).leaseUntil == now + LeaseSec(cfg) as real
  {
    var names := EnabledPlatforms(cfg);
    LoadedAreNames(SCHEDULE_DELIVERY_PLATFORMS, cfg.platforms);
    forall i | 0 <= i < |names| ensures Normalised(names[i]) == names[i] {
      assert names[i] in names;
      PlatformNameUnchanged(names[i]);
    }
    var request := ParseClaim(AsJson(names), JInt(limit), JInt(LeaseSec(cfg)));
    assert request.Ok?;
    assert request.value.platforms == names;
  }

  /** What each kind of value comes to: the default when there is none, the nearest bound when it is
      out of range, floats cut off toward zero, and text as the integer it spells. */
  lemma BoundedIntValues(value: Json, default: int, low: int, high: int, n: int, x: real)
    requires low <= high
    requires if x >= 0.0 then n as real <= x < n as real + 1.0 else n as real - 1.0 < x <= n as real
    ensures value == JNull || value == JString("") ==> BoundedInt(value, default, low, high) == Value(default)
    ensures n < low ==> BoundedInt(JInt(n), default, low, high) == Value(low)
    ensures n > high ==> BoundedInt(JInt(n), default, low, high) == Value(high)
    ensures low <= n <= high ==> BoundedInt(JInt(n), default, low, high) == Value(n)
    ensures BoundedInt(JFloat(x), default, low, high) == BoundedInt(JInt(n), default, low, high)
    ensures forall s :: s != "" && Text.ParseInt(s) == Some(n) ==>
      BoundedInt(JString(s), default, low, high) == BoundedInt(JInt(n), default, low, high)
  {
    hide Text.ParseInt;
  }

  /** Which claims get through, and with what: one to eight platform names, a limit of 1 to 10 (5 when
      absent) and a lease of 60 to 7200 seconds (720 when absent). */
  lemma ClaimsExactly(platforms: Json, limit: Json, leaseSec: Json)
    ensures var named := platforms.JArray? && 1 <= |platforms.items| <= 8
        && forall i :: 0 <= i < |platforms.items| ==> platforms.items[i].JString?;
      var n, lease := BoundedInt(limit, 5, 1, 10), BoundedInt(leaseSec, 720, 60, 7200);
      var r := ParseClaim(platforms, limit, leaseSec);
      && (r == Err(InvalidPlatforms) <==> !named)
      && (r == Err(Overflow) <==> named && (n.Raises? || lease.Raises?))
      && (r == Err(InvalidLimit) <==> named && !n.Raises? && !lease.Raises? && (n.NotInteger? || lease.NotInteger?))
      && (r.Ok? <==> named && n.Value? && lease.Value?)
      && (r.Ok? ==>
            && r.value.limit == n.n && r.value.leaseSec == lease.n && |r.value.platforms| == |platforms.items|
            && forall i :: 0 <= i < |platforms.items| ==>
                 r.value.platforms[i] == Text.Lower(Text.Strip(platforms.items[i].s)))
  {
    hide BoundedInt;
  }
}
