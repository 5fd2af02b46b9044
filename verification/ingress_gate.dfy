/**
 The composite ingress gate: auth, then replay, then allowlist. Header and
 signature verification are arbitrary functions of what the request carries.
 */
module IngressGate {
  import opened Wrappers
  import Text
  import opened ReplayGuard

  datatype AuthResult = AuthResult(ok: bool, error: string)

  datatype Request = Request(authHeader: string, body: string, signatureHeader: string,
                             requestId: string, userId: string)

  datatype Verifiers = Verifiers(hmac: (string, string, string) -> AuthResult, bearer: (string, string) -> AuthResult)

  datatype ScopeDecision = Allow | Deny(reason: string) | Skip

  /** AllowlistPolicy after construction: the normalised entries and how to normalise. */
  datatype Allowlist = Allowlist(entries: set<string>, strict: bool, normalizer: string -> string)

  function MakeAllowlist(raw: seq<string>, strict: bool, normalizer: string -> string): Allowlist {
    Allowlist(set e | e in raw && Text.StripLeft(e) != "" :: normalizer(e), strict, normalizer)
  }

  function Scope(list: Allowlist, identifier: string): ScopeDecision {
    if list.entries == {} then if list.strict then Deny("empty_allowlist_strict") else Skip
    else if list.normalizer(identifier) in list.entries then Allow
    else Deny("not_in_allowlist")
  }

  /** Exactly who a policy keeps out. */
  lemma ScopeDenies(raw: seq<string>, strict: bool, normalizer: string -> string, identifier: string)
    ensures var blank := forall e :: e in raw ==> Text.StripLeft(e) == "";
      Scope(MakeAllowlist(raw, strict, normalizer), identifier).Deny? <==>
        if blank then strict
        else forall e :: e in raw && Text.StripLeft(e) != "" ==> normalizer(e) != normalizer(identifier)
  {
    var list := MakeAllowlist(raw, strict, normalizer);
    if e :| e in raw && Text.StripLeft(e) != "" {
      assert normalizer(e) in list.entries;
    } else {
      assert list.entries == {};
    }
    assert forall e :: e in raw && Text.StripLeft(e) != "" ==> normalizer(e) in list.entries;
  }

  datatype Config = Config(requireAuth: bool, expectedToken: string, hmacSecret: string, verify: Verifiers,
                           allowlist: Option<Allowlist>)

  datatype Decision = Decision(allowed: bool, auth: Option<AuthResult>, scope: Option<ScopeDecision>,
                               replayOk: bool, error: Option<string>)

  function Authenticate(cfg: Config, r: Request): AuthResult {
    if cfg.hmacSecret != "" && r.body != "" then cfg.verify.hmac(r.body, r.signatureHeader, cfg.hmacSecret)
    else if cfg.expectedToken != "" then cfg.verify.bearer(r.authHeader, cfg.expectedToken)
    else AuthResult(false, "no_auth_configured")
  }

  predicate Authentic(cfg: Config, r: Request) {
    cfg.requireAuth ==> Authenticate(cfg, r).ok
  }

  predicate InScope(cfg: Config, r: Request) {
    cfg.allowlist.Some? ==> r.userId != "" && !Scope(cfg.allowlist.value, r.userId).Deny?
  }

  /** The guard's settings. */
  datatype Window = Window(sec: int, cap: int)

  /** What a request leaves in the guard's log. */
  function LogAfter(cfg: Config, w: Window, log: seq<Entry>, r: Request, now: real): seq<Entry> {
    if Authentic(cfg, r) && r.requestId != "" then Accept(log, r.requestId, now, w.sec, w.cap) else log
  }

  predicate Admitted(cfg: Config, w: Window, log: seq<Entry>, r: Request, now: real) {
    && Authentic(cfg, r)
    && r.requestId != "" && IsNew(log, r.requestId, now, w.sec, w.cap)
    && InScope(cfg, r)
  }

  /** The code of the first check that fails: authentication, then the replay guard if there is
      one, then the allowlist. `unseen` is what the guard says of the id. */
  function Refusal(cfg: Config, r: Request, guarded: bool, unseen: bool): Option<string> {
    if !Authentic(cfg, r) then Some("auth_" + Authenticate(cfg, r).error)
    else if guarded && r.requestId == "" then Some("replay_missing_request_id")
    else if guarded && !unseen then Some("replay_detected")
    else if InScope(cfg, r) then None
    else Some("scope_" + if r.userId == "" then "missing_user_id"
                         else if cfg.allowlist.value.entries == {} then "empty_allowlist_strict"
                         else "not_in_allowlist")
  }

  class IngressGate {
    const cfg: Config
    const guard: ReplayGuard?

    constructor (cfg: Config, guard: ReplayGuard?)
      ensures this.cfg == cfg && this.guard == guard
    {
      this.cfg, this.guard := cfg, guard;
    }

    /** `evicting` and `now` are the guard's two readings of the clock. */
    method Evaluate(r: Request, evicting: real, now: real) returns (d: Decision)
      requires guard != null ==> guard.Valid() && guard.clock <= evicting <= now
      modifies guard
      ensures guard != null ==> guard.Valid() && guard.clock <= now
      ensures guard != null ==>
        && guard.log == LogAfter(cfg, Window(guard.windowSec, guard.maxEntries), old(guard.log), r, now)
        && (d.allowed <==> Admitted(cfg, Window(guard.windowSec, guard.maxEntries), old(guard.log), r, now))
        && (d.replayOk <==> (Authentic(cfg, r) ==>
              r.requestId != "" && IsNew(old(guard.log), r.requestId, now, guard.windowSec, guard.maxEntries)))
        && d.error == Refusal(cfg, r, true, IsNew(old(guard.log), r.requestId, now, guard.windowSec, guard.maxEntries))
      ensures guard == null ==> d.replayOk && (d.allowed <==> Authentic(cfg, r) && InScope(cfg, r))
      ensures guard == null ==> d.error == Refusal(cfg, r, false, true)
      ensures d.allowed <==> d.error.None?
      ensures d.auth == if cfg.requireAuth then Some(Authenticate(cfg, r)) else None
      ensures d.scope.Some? <==> Authentic(cfg, r) && d.replayOk && cfg.allowlist.Some?
      ensures d.scope.Some? ==>
        d.scope.value == if r.userId == "" then Deny("missing_user_id") else Scope(cfg.allowlist.value, r.userId)
      ensures d.allowed ==>
        || !cfg.requireAuth
        || (cfg.hmacSecret != "" && r.body != "" && cfg.verify.hmac(r.body, r.signatureHeader, cfg.hmacSecret).ok)
        || ((cfg.hmacSecret == "" || r.body == "") && cfg.expectedToken != ""
            && cfg.verify.bearer(r.authHeader, cfg.expectedToken).ok)
      ensures cfg.requireAuth && (cfg.hmacSecret == "" || r.body == "") && cfg.expectedToken == "" ==>
        !d.allowed && d.error == Some("auth_no_auth_configured")
    {
      NothingConfigured(cfg, r);
      PassesAuth(cfg, r);
      hide Authenticate, Accept, IsNew;
      d := Decision(false, None, None, true, None);
      if cfg.requireAuth {
        var auth := Authenticate(cfg, r);
        d := d.(auth := Some(auth));
        if !auth.ok {
          d := d.(error := Some("auth_" + auth.error));
          return;
        }
      }
      if guard != null {
        if r.requestId == "" {
          d := d.(replayOk := false, error := Some("replay_missing_request_id"));
          return;
        }
        var isNew := guard.CheckAndRecord(r.requestId, evicting, now);
        if !isNew {
          d := d.(replayOk := false, error := Some("replay_detected"));
          return;
        }
      }
      if cfg.allowlist.Some? {
        if r.userId == "" {
          assert "scope_" + "missing_user_id" == "scope_missing_user_id";
          d := d.(scope := Some(Deny("missing_user_id")), error := Some("scope_missing_user_id"));
          return;
        }
        var scope := Scope(cfg.allowlist.value, r.userId);
        d := d.(scope := Some(scope));
        if scope.Deny? {
          d := d.(error := Some("scope_" + scope.reason));
          return;
        }
      }
      d := d.(allowed := true);
    }
  }

  /** Who passes authentication, by what is configured and what the verifiers say. */
  lemma PassesAuth(cfg: Config, r: Request)
    ensures Authentic(cfg, r) <==>
      || !cfg.requireAuth
      || (cfg.hmacSecret != "" && r.body != "" && cfg.verify.hmac(r.body, r.signatureHeader, cfg.hmacSecret).ok)
      || ((cfg.hmacSecret == "" || r.body == "") && cfg.expectedToken != ""
          && cfg.verify.bearer(r.authHeader, cfg.expectedToken).ok)
  {
  }

  /** With nothing to check against, a request is refused and not let through. */
  lemma NothingConfigured(cfg: Config, r: Request)
    ensures (cfg.hmacSecret == "" || r.body == "") && cfg.expectedToken == "" ==>
      && Authenticate(cfg, r) == AuthResult(false, "no_auth_configured")
      && "auth_" + Authenticate(cfg, r).error == "auth_no_auth_configured"
  {
  }

  /** What an allowlist decides, and why. */
  lemma ScopeExactly(list: Allowlist, id: string)
    ensures Scope(list, id) == Allow <==> list.normalizer(id) in list.entries
    ensures Scope(list, id) == Skip <==> list.entries == {} && !list.strict
    ensures Scope(list, id) == Deny("empty_allowlist_strict") <==> list.entries == {} && list.strict
    ensures Scope(list, id) == Deny("not_in_allowlist") <==> list.entries != {} && list.normalizer(id) !in list.entries
  {
  }

  /** Who is in scope: anybody without an allowlist, and otherwise a named user that the list holds or,
      if it is empty and not strict, any named user. */
  lemma PassesScope(cfg: Config, r: Request)
    ensures InScope(cfg, r) <==>
      || cfg.allowlist.None?
      || (r.userId != ""
          && (cfg.allowlist.value.normalizer(r.userId) in cfg.allowlist.value.entries
              || (cfg.allowlist.value.entries == {} && !cfg.allowlist.value.strict)))
  {
  }

  /** Each code, exactly when it is given. */
  lemma RefusalExactly(cfg: Config, r: Request, guarded: bool, unseen: bool)
    requires Authentic(cfg, r)
    ensures var code := Refusal(cfg, r, guarded, unseen);
      var passed := guarded ==> r.requestId != "" && unseen;
      && (code == Some("replay_missing_request_id") <==> guarded && r.requestId == "")
      && (code == Some("replay_detected") <==> guarded && r.requestId != "" && !unseen)
      && (code == Some("scope_missing_user_id") <==> passed && cfg.allowlist.Some? && r.userId == "")
      && (code == Some("scope_empty_allowlist_strict") <==>
            passed && cfg.allowlist.Some? && r.userId != ""
            && cfg.allowlist.value.entries == {} && cfg.allowlist.value.strict)
      && (code == Some("scope_not_in_allowlist") <==>
            passed && cfg.allowlist.Some? && r.userId != "" && cfg.allowlist.value.entries != {}
            && cfg.allowlist.value.normalizer(r.userId) !in cfg.allowlist.value.entries)
      && (code == None <==> passed && InScope(cfg, r))
  {
    Codes();
  }

  lemma Codes()
    ensures "scope_" + "missing_user_id" == "scope_missing_user_id"
    ensures "scope_" + "empty_allowlist_strict" == "scope_empty_allowlist_strict"
    ensures "scope_" + "not_in_allowlist" == "scope_not_in_allowlist"
    ensures "scope_missing_user_id"[6] == 'm' && "scope_empty_allowlist_strict"[6] == 'e'
    ensures "scope_not_in_allowlist"[6] == 'n' && "replay_detected"[7] == 'd' && "replay_missing_request_id"[7] == 'm'
    ensures "replay_detected"[0] == 'r' && "replay_missing_request_id"[0] == 'r'
  {
  }

  /** What a request costs: nothing unless it authenticates; an authentic new id is used up even
      when the scope check then turns the request away. */
  lemma WhatIsConsumed(cfg: Config, w: Window, log: seq<Entry>, r: Request, now: real)
    ensures LogAfter(cfg, w, log, r, now) == log + [Entry(r.requestId, now)] <==>
      Authentic(cfg, r) && r.requestId != "" && IsNew(log, r.requestId, now, w.sec, w.cap)
    ensures LogAfter(cfg, w, log, r, now) == log || LogAfter(cfg, w, log, r, now) == log + [Entry(r.requestId, now)]
    ensures Admitted(cfg, w, log, r, now) ==> LogAfter(cfg, w, log, r, now) == log + [Entry(r.requestId, now)]
  {
    assert |log + [Entry(r.requestId, now)]| == |log| + 1;
  }

  // ---------------------------------------------------------------------
  // Traces
  // ---------------------------------------------------------------------

  /** One request and the time it came. */
  datatype Arrival = Arrival(r: Request, at: real)

  function LogAfterAll(cfg: Config, w: Window, log: seq<Entry>, arrivals: seq<Arrival>): seq<Entry> {
    if arrivals == [] then log
    else
      var last := arrivals[|arrivals| - 1];
      LogAfter(cfg, w, LogAfterAll(cfg, w, log, arrivals[..|arrivals| - 1]), last.r, last.at)
  }

  ghost predicate InOrder(arrivals: seq<Arrival>) {
    forall i, j :: 0 <= i < j < |arrivals| ==> arrivals[i].at <= arrivals[j].at
  }

  predicate AdmittedAt(cfg: Config, w: Window, arrivals: seq<Arrival>, i: nat)
    requires i < |arrivals|
  {
    Admitted(cfg, w, LogAfterAll(cfg, w, [], arrivals[..i]), arrivals[i].r, arrivals[i].at)
  }

  lemma {:induction false} LogOnlyGrows(cfg: Config, w: Window, arrivals: seq<Arrival>, i: nat)
    requires i <= |arrivals|
    ensures LogAfterAll(cfg, w, [], arrivals[..i]) <= LogAfterAll(cfg, w, [], arrivals)
    decreases |arrivals|
  {
    if i < |arrivals| {
      var rest := arrivals[..|arrivals| - 1];
      LogOnlyGrows(cfg, w, rest, i);
      assert rest[..i] == arrivals[..i];
      var last := arrivals[|arrivals| - 1];
      WhatIsConsumed(cfg, w, LogAfterAll(cfg, w, [], rest), last.r, last.at);
    } else {
      assert arrivals[..i] == arrivals;
    }
  }

  lemma {:induction false} LogInOrder(cfg: Config, w: Window, arrivals: seq<Arrival>)
    requires InOrder(arrivals)
    ensures Chronological(LogAfterAll(cfg, w, [], arrivals))
    ensures arrivals != [] ==> NotAfter(LogAfterAll(cfg, w, [], arrivals), arrivals[|arrivals| - 1].at)
    ensures arrivals == [] ==> LogAfterAll(cfg, w, [], arrivals) == []
  {
    if arrivals != [] {
      var rest, last := arrivals[..|arrivals| - 1], arrivals[|arrivals| - 1];
      var log := LogAfterAll(cfg, w, [], rest);
      LogInOrder(cfg, w, rest);
      LogGrows(log, last.r.requestId, last.at);
      WhatIsConsumed(cfg, w, log, last.r, last.at);
    }
  }

  /** The request at i got through to the guard, and its id was new. */
  predicate RecordedAt(cfg: Config, w: Window, arrivals: seq<Arrival>, i: nat)
    requires i < |arrivals|
  {
    var log := LogAfterAll(cfg, w, [], arrivals[..i]);
    LogAfter(cfg, w, log, arrivals[i].r, arrivals[i].at) != log
  }

  /** How long the log is before the request at i. */
  function LogLength(cfg: Config, w: Window, arrivals: seq<Arrival>, i: nat): nat
    requires i <= |arrivals|
  {
    |LogAfterAll(cfg, w, [], arrivals[..i])|
  }

  /** The entry of a recorded request, and where it stands in every later log. */
  lemma EntryOf(cfg: Config, w: Window, arrivals: seq<Arrival>, i: nat)
    requires i < |arrivals| && RecordedAt(cfg, w, arrivals, i)
    ensures var log, p := LogAfterAll(cfg, w, [], arrivals), LogLength(cfg, w, arrivals, i);
      && LogLength(cfg, w, arrivals, i + 1) == p + 1 <= |log|
      && log[p] == Entry(arrivals[i].r.requestId, arrivals[i].at)
  {
    hide LogAfter;
    var before := LogAfterAll(cfg, w, [], arrivals[..i]);
    assert arrivals[..i + 1][..i] == arrivals[..i];
    WhatIsConsumed(cfg, w, before, arrivals[i].r, arrivals[i].at);
    LogOnlyGrows(cfg, w, arrivals, i + 1);
  }

  /** Every entry of the log is that of a recorded request. */
  lemma {:induction false} EntryFrom(cfg: Config, w: Window, arrivals: seq<Arrival>, p: nat)
    requires p < |LogAfterAll(cfg, w, [], arrivals)|
    ensures exists i :: 0 <= i < |arrivals| && RecordedAt(cfg, w, arrivals, i) && LogLength(cfg, w, arrivals, i) == p
  {
    var rest, last := arrivals[..|arrivals| - 1], arrivals[|arrivals| - 1];
    var log := LogAfterAll(cfg, w, [], rest);
    WhatIsConsumed(cfg, w, log, last.r, last.at);
    if p < |log| {
      EntryFrom(cfg, w, rest, p);
      var i :| 0 <= i < |rest| && RecordedAt(cfg, w, rest, i) && LogLength(cfg, w, rest, i) == p;
      assert rest[..i] == arrivals[..i];
      assert RecordedAt(cfg, w, arrivals, i);
    } else {
      assert RecordedAt(cfg, w, arrivals, |arrivals| - 1);
    }
  }

  /** Nothing recorded before stands in the way of this id at this time: each time it was recorded is
      more than a window ago, or at least `cap` ids have been recorded since. */
  ghost predicate Forgotten(cfg: Config, w: Window, arrivals: seq<Arrival>, id: string, now: real) {
    forall i :: 0 <= i < |arrivals| && RecordedAt(cfg, w, arrivals, i) && arrivals[i].r.requestId == id ==>
      now - arrivals[i].at > w.sec as real
      || LogLength(cfg, w, arrivals, |arrivals|) - LogLength(cfg, w, arrivals, i + 1) >= w.cap
  }

  lemma NewIsForgotten(cfg: Config, w: Window, arrivals: seq<Arrival>, id: string, now: real)
    requires InOrder(arrivals)
    ensures IsNew(LogAfterAll(cfg, w, [], arrivals), id, now, w.sec, w.cap) <==>
            Forgotten(cfg, w, arrivals, id, now)
  {
    hide IsNew, LogAfterAll, RecordedAt, Chronological;
    var log := LogAfterAll(cfg, w, [], arrivals);
    assert arrivals[..|arrivals|] == arrivals;
    LogInOrder(cfg, w, arrivals);
    IsNewExactly(log, id, now, w.sec, w.cap);
    if IsNew(log, id, now, w.sec, w.cap) {
      forall i | 0 <= i < |arrivals| && RecordedAt(cfg, w, arrivals, i) && arrivals[i].r.requestId == id
        ensures now - arrivals[i].at > w.sec as real || |log| - LogLength(cfg, w, arrivals, i + 1) >= w.cap
      {
        EntryOf(cfg, w, arrivals, i);
        assert !CountsAt(log, LogLength(cfg, w, arrivals, i), now, w.sec, w.cap);
      }
    }
    if Forgotten(cfg, w, arrivals, id, now) {
      forall p | 0 <= p < |log| && log[p].key == id ensures !CountsAt(log, p, now, w.sec, w.cap) {
        EntryFrom(cfg, w, arrivals, p);
        var i :| 0 <= i < |arrivals| && RecordedAt(cfg, w, arrivals, i) && LogLength(cfg, w, arrivals, i) == p;
        EntryOf(cfg, w, arrivals, i);
      }
    }
  }

  /** Which requests of a trace are admitted, exactly: authentic ones in scope whose id is either new
      or forgotten. */
  lemma AdmittedExactly(cfg: Config, w: Window, arrivals: seq<Arrival>, j: nat)
    requires InOrder(arrivals) && j < |arrivals|
    ensures var r := arrivals[j].r;
      AdmittedAt(cfg, w, arrivals, j) <==>
      && Authentic(cfg, r) && InScope(cfg, r) && r.requestId != ""
      && Forgotten(cfg, w, arrivals[..j], r.requestId, arrivals[j].at)
  {
    hide Forgotten, LogAfterAll, IsNew, Authenticate, Scope;
    NewIsForgotten(cfg, w, arrivals[..j], arrivals[j].r.requestId, arrivals[j].at);
  }

  /** The same, down to what is configured. */
  lemma AdmittedPlainly(cfg: Config, w: Window, arrivals: seq<Arrival>, j: nat)
    requires InOrder(arrivals) && j < |arrivals|
    ensures var r := arrivals[j].r;
      AdmittedAt(cfg, w, arrivals, j) <==>
      && (!cfg.requireAuth
          || (cfg.hmacSecret != "" && r.body != "" && cfg.verify.hmac(r.body, r.signatureHeader, cfg.hmacSecret).ok)
          || ((cfg.hmacSecret == "" || r.body == "") && cfg.expectedToken != ""
              && cfg.verify.bearer(r.authHeader, cfg.expectedToken).ok))
      && (cfg.allowlist.None?
          || (r.userId != ""
              && (cfg.allowlist.value.normalizer(r.userId) in cfg.allowlist.value.entries
                  || (cfg.allowlist.value.entries == {} && !cfg.allowlist.value.strict))))
      && r.requestId != ""
      && Forgotten(cfg, w, arrivals[..j], r.requestId, arrivals[j].at)
  {
    hide Forgotten, LogAfterAll, IsNew, Authentic, InScope, AdmittedAt;
    AdmittedExactly(cfg, w, arrivals, j);
    PassesAuth(cfg, arrivals[j].r);
    PassesScope(cfg, arrivals[j].r);
  }

  /** So two admitted requests with one id lie more than a window apart, unless at least `cap`
      other ids were accepted in between. */
  lemma ReplayedOnlyWhenForgotten(cfg: Config, w: Window, arrivals: seq<Arrival>, i: nat, j: nat)
    requires InOrder(arrivals) && i < j < |arrivals|
    requires AdmittedAt(cfg, w, arrivals, i) && AdmittedAt(cfg, w, arrivals, j)
    requires arrivals[i].r.requestId == arrivals[j].r.requestId
    ensures var accepted := |LogAfterAll(cfg, w, [], arrivals[..j])| - |LogAfterAll(cfg, w, [], arrivals[..i + 1])|;
      arrivals[j].at - arrivals[i].at > w.sec as real || accepted >= w.cap
  {
    AdmittedExactly(cfg, w, arrivals, j);
    var earlier := arrivals[..j];
    assert earlier[..i] == arrivals[..i] && earlier[..i + 1] == arrivals[..i + 1] && earlier[..j] == earlier;
    WhatIsConsumed(cfg, w, LogAfterAll(cfg, w, [], arrivals[..i]), arrivals[i].r, arrivals[i].at);
    hide LogAfter, LogAfterAll, IsNew, Authenticate, Scope;
    assert RecordedAt(cfg, w, earlier, i);
  }

  /** No false alarms: an id that was not accepted within the window is never called a replay. */
  lemma UnseenIsNew(log: seq<Entry>, key: string, now: real, w: Window)
    requires Chronological(log)
    requires forall p :: 0 <= p < |log| && log[p].key == key ==> now - log[p].at > w.sec as real
    ensures IsNew(log, key, now, w.sec, w.cap)
  {
    hide IsNew;
    IsNewExactly(log, key, now, w.sec, w.cap);
  }
}
