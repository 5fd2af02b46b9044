/** Token buckets per user and per channel, and the garbage collection of idle ones. */
module RateLimiter {
  import opened Numbers

  // ---------------------------------------------------------------------
  // One bucket
  // ---------------------------------------------------------------------

  /** The two dictionaries. */
  datatype Side = Users | Channels

  /** What a TokenBucket holds. */
  datatype Bucket = Bucket(capacity: real, rate: real, tokens: real, last: real)

  /** The tokens a bucket has at a time, before anything is taken. */
  function Level(b: Bucket, now: real): real {
    Min(b.capacity, b.tokens + (now - b.last) * b.rate)
  }

  function Draw(b: Bucket, now: real, n: int): (r: (Bucket, bool)) {
    var level := Level(b, now);
    var ok := level >= n as real;
    (Bucket(b.capacity, b.rate, if ok then level - n as real else level, now), ok)
  }

  // ---------------------------------------------------------------------
  // The limiter
  // ---------------------------------------------------------------------

  /** The two dictionaries as values, and the sizes of the buckets they are filled with. */
  datatype Limits = Limits(userRpm: nat, channelRpm: nat, users: map<string, Bucket>, channels: map<string, Bucket>)

  function FullBucket(rpm: nat, now: real): Bucket {
    Bucket(rpm as real, rpm as real / 60.0, rpm as real, now)
  }

  function BucketOf(m: map<string, Bucket>, rpm: nat, key: string, now: real): Bucket {
    if key in m then m[key] else FullBucket(rpm, now)
  }

  /** `is_allowed`: both buckets are asked, whatever the first one answers. */
  function Allow(l: Limits, user: string, channel: string, now: real): (r: (Limits, bool)) {
    var (u, userOk) := Draw(BucketOf(l.users, l.userRpm, user, now), now, 1);
    var (c, channelOk) := Draw(BucketOf(l.channels, l.channelRpm, channel, now), now, 1);
    (l.(users := l.users[user := u], channels := l.channels[channel := c]), userOk && channelOk)
  }

  function Recent(m: map<string, Bucket>, cutoff: real): map<string, Bucket> {
    map k | k in m && m[k].last > cutoff :: m[k]
  }

  function CleanUp(l: Limits, maxAge: real, now: real): Limits {
    l.(users := Recent(l.users, now - maxAge), channels := Recent(l.channels, now - maxAge))
  }

  lemma LastUpdateCounts(m: map<string, Bucket>, key: string, x: Bucket, y: Bucket)
    ensures m[key := x][key := y] == m[key := y]
  {
  }

  class TokenBucket {
    const capacity: real
    const refillRate: real
    var tokens: real
    var lastRefill: real
    ghost const side: Side    // the one place this bucket is stored in
    ghost const key: string

    constructor (capacity: real, refillRate: real, tokens: real, now: real, ghost side: Side, ghost key: string)
      ensures Value() == Bucket(capacity, refillRate, tokens, now)
      ensures this.side == side && this.key == key
    {
      this.capacity, this.refillRate, this.tokens, this.lastRefill := capacity, refillRate, tokens, now;
      this.side, this.key := side, key;
    }

    function Value(): Bucket
      reads this
    {
      Bucket(capacity, refillRate, tokens, lastRefill)
    }

    method Consume(n: int, now: real) returns (ok: bool)
      modifies this
      ensures (Value(), ok) == Draw(old(Value()), now, n)
      ensures var refilled := old(tokens) + (now - old(lastRefill)) * refillRate;
        var level := if refilled <= capacity then refilled else capacity;
        && ok == (level >= n as real)
        && tokens == (if ok then level - n as real else level)
        && lastRefill == now
    {
      hide Draw;
      ghost var b := Value();
      DrawExactly(b, now, n);
      ghost var refilled := b.tokens + (now - b.last) * b.rate;
      assert refilled == tokens + (now - lastRefill) * refillRate;
      var elapsed := now - lastRefill;
      tokens := Min(capacity, tokens + elapsed * refillRate);
      lastRefill := now;
      assert tokens == if refilled <= capacity then refilled else capacity;
      if tokens >= n as real {
        tokens := tokens - n as real;
        return true;
      }
      ok := false;
    }
  }

  ghost function Values(m: map<string, TokenBucket>): map<string, Bucket>
    reads m.Values
  {
    map k | k in m :: m[k].Value()
  }

  lemma ValuesWith(m: map<string, TokenBucket>, key: string, b: TokenBucket)
    ensures Values(m[key := b]) == Values(m)[key := b.Value()]
    ensures key in m ==>
      key in Values(m) && Values(m)[key] == m[key].Value() && Values(m)[key := m[key].Value()] == Values(m)
    ensures key !in m ==> key !in Values(m)
  {
  }

  lemma ValuesAt(m: map<string, TokenBucket>)
    ensures Values(m).Keys == m.Keys && forall k :: k in m ==> Values(m)[k] == m[k].Value()
  {
  }

  lemma ValuesChanged(m: map<string, TokenBucket>, before: map<string, Bucket>, key: string)
    requires key in m && before.Keys == m.Keys && forall k :: k in m && k != key ==> m[k].Value() == before[k]
    ensures Values(m) == before[key := m[key].Value()]
  {
  }

  /** Filtering buckets by their last use is filtering their values. */
  lemma Survivors(m: map<string, TokenBucket>, kept: map<string, TokenBucket>, cutoff: real)
    requires forall k :: k in kept <==> k in m && m[k].lastRefill > cutoff
    requires forall k :: k in kept ==> kept[k] == m[k]
    ensures Values(kept) == Recent(Values(m), cutoff)
  {
  }

  /** The limiter with its buckets on the heap. */
  class RateLimiter {
    const userRpm: nat
    const channelRpm: nat
    var userBuckets: map<string, TokenBucket>
    var channelBuckets: map<string, TokenBucket>
    ghost var Repr: set<TokenBucket>

    /** Every bucket is stored in one place only, its own. */
    ghost predicate Valid()
      reads this
    {
      && (forall k :: k in userBuckets ==>
            userBuckets[k] in Repr && userBuckets[k].side == Users && userBuckets[k].key == k)
      && (forall k :: k in channelBuckets ==>
            channelBuckets[k] in Repr && channelBuckets[k].side == Channels && channelBuckets[k].key == k)
    }

    ghost function State(): Limits
      requires Valid()
      reads this, Repr
    {
      Limits(userRpm, channelRpm, Values(userBuckets), Values(channelBuckets))
    }

    constructor (userRpm: nat, channelRpm: nat)
      ensures Valid() && Repr == {}
      ensures State() == Limits(userRpm, channelRpm, map[], map[])
    {
      this.userRpm, this.channelRpm := userRpm, channelRpm;
      userBuckets, channelBuckets := map[], map[];
      Repr := {};
    }

    method GetUserBucket(user: string, now: real) returns (b: TokenBucket)
      requires Valid()
      modifies this`userBuckets, this`Repr
      ensures Valid() && fresh(Repr - old(Repr))
      ensures user in userBuckets && userBuckets[user] == b && channelBuckets == old(channelBuckets)
      ensures State().users == old(State()).users[user := BucketOf(old(State()).users, userRpm, user, now)]
      ensures State().channels == old(State()).channels
    {
      hide Values;
      if user !in userBuckets {
        b := new TokenBucket(userRpm as real, userRpm as real / 60.0, userRpm as real, now, Users, user);
        ValuesWith(userBuckets, user, b);
        userBuckets := userBuckets[user := b];
        Repr := Repr + {b};
      } else {
        ValuesWith(userBuckets, user, userBuckets[user]);
      }
      b := userBuckets[user];
    }

    method GetChannelBucket(channel: string, now: real) returns (b: TokenBucket)
      requires Valid()
      modifies this`channelBuckets, this`Repr
      ensures Valid() && fresh(Repr - old(Repr))
      ensures channel in channelBuckets && channelBuckets[channel] == b && userBuckets == old(userBuckets)
      ensures State().channels ==
              old(State()).channels[channel := BucketOf(old(State()).channels, channelRpm, channel, now)]
      ensures State().users == old(State()).users
    {
      hide Values;
      if channel !in channelBuckets {
        b := new TokenBucket(channelRpm as real, channelRpm as real / 60.0, channelRpm as real, now, Channels, channel);
        ValuesWith(channelBuckets, channel, b);
        channelBuckets := channelBuckets[channel := b];
        Repr := Repr + {b};
      } else {
        ValuesWith(channelBuckets, channel, channelBuckets[channel]);
      }
      b := channelBuckets[channel];
    }

    /** Both buckets are charged, whatever the first one answers. */
    method ConsumeBoth(user: string, u: TokenBucket, channel: string, c: TokenBucket, now: real) returns (ok: bool)
      requires Valid()
      requires user in userBuckets && userBuckets[user] == u
      requires channel in channelBuckets && channelBuckets[channel] == c
      modifies u, c
      ensures State().users == old(State()).users[user := Draw(old(u.Value()), now, 1).0]
      ensures State().channels == old(State()).channels[channel := Draw(old(c.Value()), now, 1).0]
      ensures ok == (Draw(old(u.Value()), now, 1).1 && Draw(old(c.Value()), now, 1).1)
    {
      hide Draw, Values;
      ghost var before := State();
      ValuesAt(userBuckets);
      ValuesAt(channelBuckets);
      var userOk := u.Consume(1, now);
      var channelOk := c.Consume(1, now);
      ok := userOk && channelOk;
      assert forall k :: k in userBuckets && k != user ==> userBuckets[k].Value() == old(userBuckets[k].Value());
      assert forall k :: k in channelBuckets && k != channel ==>
        channelBuckets[k].Value() == old(channelBuckets[k].Value());
      ValuesChanged(userBuckets, before.users, user);
      ValuesChanged(channelBuckets, before.channels, channel);
    }

    method IsAllowed(user: string, channel: string, now: real) returns (ok: bool)
      requires Valid()
      modifies this, Repr
      ensures Valid() && fresh(Repr - old(Repr))
      ensures State() == Allow(old(State()), user, channel, now).0
      ensures ok == Allow(old(State()), user, channel, now).1
    {
      hide Draw, BucketOf;
      ghost var before := State();
      ghost var u0 := BucketOf(before.users, userRpm, user, now);
      ghost var c0 := BucketOf(before.channels, channelRpm, channel, now);
      ghost var userDraw, channelDraw := Draw(u0, now, 1), Draw(c0, now, 1);
      var u := GetUserBucket(user, now);
      var c := GetChannelBucket(channel, now);
      assert u.Value() == State().users[user] && c.Value() == State().channels[channel];
      ok := ConsumeBoth(user, u, channel, c, now);
      LastUpdateCounts(before.users, user, u0, userDraw.0);
      LastUpdateCounts(before.channels, channel, c0, channelDraw.0);
    }

    method Cleanup(maxAge: real, now: real)
      requires Valid()
      modifies this
      ensures Valid() && Repr == old(Repr)
      ensures State() == CleanUp(old(State()), maxAge, now)
      ensures forall k :: k in userBuckets <==>
        k in old(userBuckets) && old(userBuckets[k].lastRefill) > now - maxAge
      ensures forall k :: k in userBuckets ==> userBuckets[k] == old(userBuckets)[k]
      ensures forall k :: k in channelBuckets <==>
        k in old(channelBuckets) && old(channelBuckets[k].lastRefill) > now - maxAge
      ensures forall k :: k in channelBuckets ==> channelBuckets[k] == old(channelBuckets)[k]
    {
      hide Recent, Values;
      var cutoff := now - maxAge;
      var users := map k | k in userBuckets && userBuckets[k].lastRefill > cutoff :: userBuckets[k];
      var channels := map k | k in channelBuckets && channelBuckets[k].lastRefill > cutoff :: channelBuckets[k];
      Survivors(userBuckets, users, cutoff);
      Survivors(channelBuckets, channels, cutoff);
      userBuckets, channelBuckets := users, channels;
    }
  }

  // ---------------------------------------------------------------------
  // Whole runs
  // ---------------------------------------------------------------------

  datatype Op = Request(user: string, channel: string, at: real) | Collect(maxAge: real, at: real)

  /** One operation: the new state, and the answer if it was a request. With `collecting` off
      a garbage collection does nothing. */
  function Step(l: Limits, op: Op, collecting: bool): (Limits, seq<bool>) {
    match op
    case Request(user, channel, at) => (Allow(l, user, channel, at).0, [Allow(l, user, channel, at).1])
    case Collect(maxAge, at) => (if collecting then CleanUp(l, maxAge, at) else l, [])
  }

  function Run(l: Limits, ops: seq<Op>, collecting: bool): (Limits, seq<bool>) {
    if ops == [] then (l, [])
    else
      var (before, answers) := Run(l, ops[..|ops| - 1], collecting);
      var (after, answer) := Step(before, ops[|ops| - 1], collecting);
      (after, answers + answer)
  }

  ghost predicate Ordered(from: real, ops: seq<Op>) {
    && (forall i :: 0 <= i < |ops| ==> from <= ops[i].at)
    && (forall i, j :: 0 <= i < j < |ops| ==> ops[i].at <= ops[j].at)
  }

  predicate Patient(ops: seq<Op>) {
    forall i :: 0 <= i < |ops| && ops[i].Collect? ==> ops[i].maxAge >= 60.0
  }

  /** A bucket of a limiter of this size, last used no later than `now`. */
  predicate InOrder(b: Bucket, rpm: nat, now: real) {
    && b.capacity == rpm as real && b.rate == rpm as real / 60.0
    && 0.0 <= b.tokens <= b.capacity && b.last <= now
  }

  /** A dictionary filled by a limiter of this size and last used no later than `now`. */
  ghost predicate Filled(m: map<string, Bucket>, rpm: nat, now: real) {
    forall k :: k in m ==> InOrder(m[k], rpm, now)
  }

  ghost predicate Sound(l: Limits, now: real) {
    Filled(l.users, l.userRpm, now) && Filled(l.channels, l.channelRpm, now)
  }

  /** The tokens a request for this key would find. */
  function LevelOf(m: map<string, Bucket>, rpm: nat, key: string, now: real): real {
    Level(BucketOf(m, rpm, key, now), now)
  }

  /** Two dictionaries that nobody can tell apart from `now` on. */
  ghost predicate Alike(m: map<string, Bucket>, n: map<string, Bucket>, rpm: nat, now: real) {
    forall k :: LevelOf(m, rpm, k, now) == LevelOf(n, rpm, k, now)
  }

  lemma Unused(b: Bucket)
    ensures Level(b, b.last) == Min(b.capacity, b.tokens)
  {
    assert 0.0 * b.rate == 0.0;
  }

  lemma LevelInRange(b: Bucket, rpm: nat, now: real)
    requires InOrder(b, rpm, now)
    ensures 0.0 <= Level(b, now) <= rpm as real
  {
    ProductNonNegative(now - b.last, b.rate);
    assert (now - b.last) * b.rate >= 0.0;
  }

  lemma LevelGrows(b: Bucket, rpm: nat, now: real, later: real)
    requires InOrder(b, rpm, now) && now <= later
    ensures 0.0 <= Level(b, now) <= rpm as real
    ensures Level(b, later) == Min(rpm as real, Level(b, now) + (later - now) * (rpm as real / 60.0))
  {
    var past, more, rate := now - b.last, later - now, b.rate;
    LevelInRange(b, rpm, now);
    ProductNonNegative(more, rate);
    Distribute(past, more, rate);
    assert later - b.last == past + more;
  }

  lemma Distribute(x: real, y: real, z: real)
    ensures (x + y) * z == x * z + y * z
  {
  }

  lemma AMinute(idle: real, rate: real, capacity: real)
    requires idle >= 60.0 && rate >= 0.0 && 60.0 * rate == capacity
    ensures idle * rate >= capacity
  {
    ProductMonotone(60.0, idle, rate);
  }

  lemma SixtyOfASixtieth(rpm: nat)
    ensures 60.0 * (rpm as real / 60.0) == rpm as real
  {
  }

  /** A bucket untouched for a minute is full again. */
  lemma FullAgain(b: Bucket, rpm: nat, now: real)
    requires InOrder(b, rpm, now) && now - b.last >= 60.0
    ensures Level(b, now) == rpm as real
  {
    SixtyOfASixtieth(rpm);
    AMinute(now - b.last, b.rate, b.capacity);
    assert (now - b.last) * b.rate >= b.capacity;
  }

  lemma FullIsInOrder(rpm: nat, now: real)
    ensures InOrder(FullBucket(rpm, now), rpm, now) && Level(FullBucket(rpm, now), now) == rpm as real
  {
    Unused(FullBucket(rpm, now));
  }

  /** What a key's bucket holds later depends only on what it holds now. */
  lemma LevelLater(m: map<string, Bucket>, rpm: nat, key: string, now: real, later: real)
    requires Filled(m, rpm, now) && now <= later
    ensures 0.0 <= LevelOf(m, rpm, key, now) <= rpm as real
    ensures LevelOf(m, rpm, key, later) ==
      Min(rpm as real, LevelOf(m, rpm, key, now) + (later - now) * (rpm as real / 60.0))
  {
    if key in m {
      hide Level;
      LevelGrows(m[key], rpm, now, later);
    } else {
      FullIsInOrder(rpm, now);
      FullIsInOrder(rpm, later);
      ProductNonNegative(later - now, rpm as real / 60.0);
      hide Level, FullBucket;
    }
  }

  lemma StillAlike(m: map<string, Bucket>, n: map<string, Bucket>, rpm: nat, now: real, later: real)
    requires Filled(m, rpm, now) && Filled(n, rpm, now) && Alike(m, n, rpm, now) && now <= later
    ensures Alike(m, n, rpm, later)
  {
    forall k ensures LevelOf(m, rpm, k, later) == LevelOf(n, rpm, k, later) {
      assert LevelOf(m, rpm, k, now) == LevelOf(n, rpm, k, now);
      LevelLater(m, rpm, k, now, later);
      LevelLater(n, rpm, k, now, later);
    }
  }

  /** A bucket untouched for a minute is full again, so dropping it changes nothing. */
  lemma RecentAlike(m: map<string, Bucket>, rpm: nat, maxAge: real, now: real)
    requires Filled(m, rpm, now) && maxAge >= 60.0
    ensures Filled(Recent(m, now - maxAge), rpm, now) && Alike(Recent(m, now - maxAge), m, rpm, now)
  {
    hide Level, FullBucket;
    var r := Recent(m, now - maxAge);
    FullIsInOrder(rpm, now);
    forall k ensures LevelOf(r, rpm, k, now) == LevelOf(m, rpm, k, now) {
      if k in m && k !in r {
        FullAgain(m[k], rpm, now);
      }
    }
  }

  /** Drawing from a bucket: what is left, and that it stays in order. */
  lemma DrawLevel(b: Bucket, rpm: nat, now: real)
    requires InOrder(b, rpm, now)
    ensures var (after, ok) := Draw(b, now, 1);
      && ok == (Level(b, now) >= 1.0) && InOrder(after, rpm, now)
      && Level(after, now) == if ok then Level(b, now) - 1.0 else Level(b, now)
  {
    LevelGrows(b, rpm, now, now);
    hide Level;
    Unused(Draw(b, now, 1).0);
  }

  /** Taking a token from one key leaves what remains there, and every other key alone. */
  lemma DrawLevels(m: map<string, Bucket>, rpm: nat, key: string, now: real)
    requires Filled(m, rpm, now)
    ensures var (b, ok) := Draw(BucketOf(m, rpm, key, now), now, 1);
      var level := LevelOf(m, rpm, key, now);
      && ok == (level >= 1.0)
      && Filled(m[key := b], rpm, now)
      && (forall k :: LevelOf(m[key := b], rpm, k, now) ==
            if k != key then LevelOf(m, rpm, k, now) else if ok then level - 1.0 else level)
  {
    hide Level, FullBucket, Draw, InOrder;
    FullIsInOrder(rpm, now);
    DrawLevel(BucketOf(m, rpm, key, now), rpm, now);
  }

  ghost predicate AlikeLimits(l: Limits, r: Limits, now: real) {
    && l.userRpm == r.userRpm && l.channelRpm == r.channelRpm
    && Alike(l.users, r.users, l.userRpm, now)
    && Alike(l.channels, r.channels, l.channelRpm, now)
  }

  lemma DrawAlike(m: map<string, Bucket>, n: map<string, Bucket>, rpm: nat, key: string, now: real)
    requires Filled(m, rpm, now) && Filled(n, rpm, now) && Alike(m, n, rpm, now)
    ensures var (b, ok) := Draw(BucketOf(m, rpm, key, now), now, 1);
      var (c, ok') := Draw(BucketOf(n, rpm, key, now), now, 1);
      && ok == ok'
      && Filled(m[key := b], rpm, now) && Filled(n[key := c], rpm, now)
      && Alike(m[key := b], n[key := c], rpm, now)
  {
    DrawLevels(m, rpm, key, now);
    DrawLevels(n, rpm, key, now);
    assert LevelOf(m, rpm, key, now) == LevelOf(n, rpm, key, now);
    var b, c := Draw(BucketOf(m, rpm, key, now), now, 1).0, Draw(BucketOf(n, rpm, key, now), now, 1).0;
    var m', n' := m[key := b], n[key := c];
    forall k ensures LevelOf(m', rpm, k, now) == LevelOf(n', rpm, k, now) {
      assert LevelOf(m, rpm, k, now) == LevelOf(n, rpm, k, now);
    }
  }

  lemma RequestAlike(l: Limits, r: Limits, user: string, channel: string, now: real)
    requires Sound(l, now) && Sound(r, now) && AlikeLimits(l, r, now)
    ensures var (l', ok) := Allow(l, user, channel, now);
      var (r', ok') := Allow(r, user, channel, now);
      ok == ok' && Sound(l', now) && Sound(r', now) && AlikeLimits(l', r', now)
  {
    DrawAlike(l.users, r.users, l.userRpm, user, now);
    DrawAlike(l.channels, r.channels, l.channelRpm, channel, now);
  }

  lemma StepAlike(l: Limits, r: Limits, op: Op, now: real)
    requires Sound(l, now) && Sound(r, now) && AlikeLimits(l, r, now)
    requires now <= op.at && Patient([op])
    ensures var (l', a) := Step(l, op, true);
      var (r', a') := Step(r, op, false);
      a == a' && Sound(l', op.at) && Sound(r', op.at) && AlikeLimits(l', r', op.at)
  {
    StillAlike(l.users, r.users, l.userRpm, now, op.at);
    StillAlike(l.channels, r.channels, l.channelRpm, now, op.at);
    match op
    case Request(user, channel, at) => RequestAlike(l, r, user, channel, at);
    case Collect(maxAge, at) =>
      assert [op][0].maxAge >= 60.0;
      RecentAlike(l.users, l.userRpm, maxAge, at);
      RecentAlike(l.channels, l.channelRpm, maxAge, at);
  }

  function EndOf(ops: seq<Op>, from: real): real {
    if ops == [] then from else ops[|ops| - 1].at
  }

  lemma {:induction false} RunAlike(l: Limits, ops: seq<Op>, from: real)
    requires Sound(l, from) && Ordered(from, ops) && Patient(ops)
    ensures var (with, answers) := Run(l, ops, true);
      var (without, answers') := Run(l, ops, false);
      && answers == answers'
      && with.userRpm == l.userRpm && with.channelRpm == l.channelRpm
      && Sound(with, EndOf(ops, from)) && Sound(without, EndOf(ops, from))
      && AlikeLimits(with, without, EndOf(ops, from))
  {
    if ops != [] {
      var rest, op := ops[..|ops| - 1], ops[|ops| - 1];
      RunAlike(l, rest, from);
      StepAlike(Run(l, rest, true).0, Run(l, rest, false).0, op, EndOf(rest, from));
    }
  }

  predicate Collecting(ops: seq<Op>, maxAge: real) {
    forall i :: 0 <= i < |ops| && ops[i].Collect? ==> ops[i].maxAge == maxAge
  }

  /** Nobody can tell whether a new limiter with these limits collects at this age. */
  ghost predicate Unobservable(maxAge: real) {
    forall userRpm, channelRpm, ops ::
      Ordered(0.0, ops) && Collecting(ops, maxAge) ==>
        var l := Limits(userRpm, channelRpm, map[], map[]);
        Run(l, ops, true).1 == Run(l, ops, false).1
  }

  /** The state after one request to a new limiter of one request a minute. */
  lemma FirstRequest(at: real)
    ensures Step(Limits(1, 1, map[], map[]), Request("u", "c", at), true).0 ==
      Limits(1, 1, map["u" := Bucket(1.0, 1.0 / 60.0, 0.0, at)], map["c" := Bucket(1.0, 1.0 / 60.0, 0.0, at)])
    ensures Step(Limits(1, 1, map[], map[]), Request("u", "c", at), true).1 == [true]
  {
  }

  /** Within the minute the next request is denied, unless the buckets were thrown away. */
  lemma SecondRequest(maxAge: real, at: real)
    requires 0.0 <= at < 60.0 && at - maxAge >= 0.0
    ensures var l := Limits(1, 1, map["u" := Bucket(1.0, 1.0 / 60.0, 0.0, 0.0)],
                                  map["c" := Bucket(1.0, 1.0 / 60.0, 0.0, 0.0)]);
      && Step(l, Request("u", "c", at), false).1 == [false]
      && Step(Step(l, Collect(maxAge, at), true).0, Request("u", "c", at), true).1 == [true]
  {
    assert (at - 0.0) * (1.0 / 60.0) < 1.0;
  }

  /** A request, a collection and another request that it wrongly lets through. */
  lemma ShortCollectionShows(maxAge: real)
    requires maxAge < 60.0
    ensures !Unobservable(maxAge)
  {
    hide Step, Run;
    var at := if maxAge < 0.0 then 0.0 else maxAge;
    var l := Limits(1, 1, map[], map[]);
    var x, y, z := Request("u", "c", 0.0), Collect(maxAge, at), Request("u", "c", at);
    RunThree(l, x, y, z, true);
    RunThree(l, x, y, z, false);
    RequestStep(l, x);
    FirstRequest(0.0);
    SecondRequest(maxAge, at);
    CollectStep(Step(l, x, true).0, y);
    var ops := [x, y, z];
    assert Run(l, ops, true).1 == [true, true];
    assert Run(l, ops, false).1 == [true, false];
    assert Ordered(0.0, ops) && Collecting(ops, maxAge);
  }

  lemma RequestStep(l: Limits, op: Op)
    requires op.Request?
    ensures Step(l, op, true) == Step(l, op, false)
  {
  }

  lemma CollectStep(l: Limits, op: Op)
    requires op.Collect?
    ensures Step(l, op, true).1 == [] && Step(l, op, false) == (l, [])
  {
  }

  lemma RunThree(l: Limits, x: Op, y: Op, z: Op, collecting: bool)
    ensures var (l1, a1) := Step(l, x, collecting);
      var (l2, a2) := Step(l1, y, collecting);
      var (l3, a3) := Step(l2, z, collecting);
      Run(l, [x, y, z], collecting) == (l3, a1 + a2 + a3)
  {
    assert [x, y, z][..2] == [x, y] && [x, y][..1] == [x] && [x][..0] == [];
    assert Run(l, [], collecting) == (l, []);
    var (l1, a1) := Step(l, x, collecting);
    var (l2, a2) := Step(l1, y, collecting);
    assert [] + a1 == a1;
    assert Run(l, [x], collecting) == (l1, a1);
    assert Run(l, [x, y], collecting) == (l2, a1 + a2);
  }

  /** Collecting is invisible exactly when it waits a minute, the time an empty bucket needs to fill. */
  lemma CollectionUnobservable(maxAge: real)
    ensures Unobservable(maxAge) <==> maxAge >= 60.0
  {
    if maxAge >= 60.0 {
      forall userRpm, channelRpm, ops | Ordered(0.0, ops) && Collecting(ops, maxAge)
        ensures var l := Limits(userRpm, channelRpm, map[], map[]);
          Run(l, ops, true).1 == Run(l, ops, false).1
      {
        RunAlike(Limits(userRpm, channelRpm, map[], map[]), ops, 0.0);
      }
    } else {
      ShortCollectionShows(maxAge);
    }
  }

  // ---------------------------------------------------------------------
  // How many requests get through
  // ---------------------------------------------------------------------

  function Buckets(l: Limits, side: Side): map<string, Bucket> {
    if side.Users? then l.users else l.channels
  }

  function Rpm(l: Limits, side: Side): nat {
    if side.Users? then l.userRpm else l.channelRpm
  }

  function KeyOf(op: Op, side: Side): string
    requires op.Request?
  {
    if side.Users? then op.user else op.channel
  }

  /** The requests of one user, or of one channel, allowed in [a, b]. */
  function Allowed(l: Limits, ops: seq<Op>, side: Side, key: string, a: real, b: real): nat {
    if ops == [] then 0
    else
      var op := ops[|ops| - 1];
      Allowed(l, ops[..|ops| - 1], side, key, a, b)
      + (if op.Request? && KeyOf(op, side) == key && a <= op.at <= b
            && Step(Run(l, ops[..|ops| - 1], true).0, op, true).1 == [true] then 1 else 0)
  }

  /** The bucket of this key on this side is asked and has a token. */
  predicate Grants(l: Limits, op: Op, side: Side, key: string) {
    op.Request? && KeyOf(op, side) == key
    && Draw(BucketOf(Buckets(l, side), Rpm(l, side), key, op.at), op.at, 1).1
  }

  /** What one bucket grants in [a, b], whether or not the other side lets the request pass. */
  function Granted(l: Limits, ops: seq<Op>, side: Side, key: string, a: real, b: real): nat {
    if ops == [] then 0
    else
      var op := ops[|ops| - 1];
      Granted(l, ops[..|ops| - 1], side, key, a, b)
      + (if a <= op.at <= b && Grants(Run(l, ops[..|ops| - 1], true).0, op, side, key) then 1 else 0)
  }

  lemma StepCredit(l: Limits, op: Op, side: Side, key: string)
    requires Sound(l, op.at) && Patient([op])
    ensures var after := Step(l, op, true).0;
      && Sound(after, op.at) && Rpm(after, side) == Rpm(l, side)
      && LevelOf(Buckets(after, side), Rpm(l, side), key, op.at) <=
           LevelOf(Buckets(l, side), Rpm(l, side), key, op.at) - (if Grants(l, op, side, key) then 1.0 else 0.0)
  {
    match op
    case Request(user, channel, at) =>
      DrawLevels(l.users, l.userRpm, user, at);
      DrawLevels(l.channels, l.channelRpm, channel, at);
    case Collect(maxAge, at) =>
      assert [op][0].maxAge >= 60.0;
      RecentAlike(l.users, l.userRpm, maxAge, at);
      RecentAlike(l.channels, l.channelRpm, maxAge, at);
      assert LevelOf(Buckets(Step(l, op, true).0, side), Rpm(l, side), key, at) ==
             LevelOf(Buckets(l, side), Rpm(l, side), key, at);
  }

  ghost predicate InCredit(granted: nat, level: real, rpm: nat, span: real) {
    granted as real + level <= rpm as real + span * (rpm as real / 60.0)
  }

  /** From one operation to the next: `m` before it, `m'` after it, looked at again at t. */
  lemma CreditGrows(m: map<string, Bucket>, m': map<string, Bucket>, rpm: nat, key: string,
                    n: nat, granted: nat, a: real, at: real, t: real)
    requires Filled(m', rpm, at) && at <= t
    requires InCredit(n, LevelOf(m, rpm, key, at), rpm, at - a)
    requires LevelOf(m', rpm, key, at) <= LevelOf(m, rpm, key, at) - granted as real
    ensures InCredit(n + granted, LevelOf(m', rpm, key, t), rpm, t - a)
  {
    var rate := rpm as real / 60.0;
    LevelLater(m', rpm, key, at, t);
    assert (at - a) * rate + (t - at) * rate == (t - a) * rate;
  }

  /** Credit: what a bucket granted since `a` and what is left in it never exceed a full bucket
      and its refill. */
  lemma {:induction false} Credit(l: Limits, ops: seq<Op>, side: Side, key: string, from: real,
                                  a: real, b: real, t: real)
    requires Sound(l, from) && Ordered(from, ops) && Patient(ops)
    requires a <= t <= b && EndOf(ops, from) <= t
    ensures InCredit(Granted(l, ops, side, key, a, b),
                     LevelOf(Buckets(Run(l, ops, true).0, side), Rpm(l, side), key, t), Rpm(l, side), t - a)
  {
    if EndOf(ops, from) < a || ops == [] {
      CreditStart(l, ops, side, key, from, a, b, t);
    } else {
      Credit(l, ops[..|ops| - 1], side, key, from, a, b, ops[|ops| - 1].at);
      CreditStep(l, ops, side, key, from, a, b, t);
    }
  }

  /** A bucket never holds more than its capacity. */
  lemma NoCredit(m: map<string, Bucket>, rpm: nat, key: string, now: real, a: real, t: real)
    requires Filled(m, rpm, now) && now <= t && a <= t
    ensures InCredit(0, LevelOf(m, rpm, key, t), rpm, t - a)
  {
    LevelLater(m, rpm, key, now, t);
    ProductNonNegative(t - a, rpm as real / 60.0);
  }

  lemma CreditStart(l: Limits, ops: seq<Op>, side: Side, key: string, from: real, a: real, b: real, t: real)
    requires Sound(l, from) && Ordered(from, ops) && Patient(ops)
    requires a <= t <= b && EndOf(ops, from) <= t && (EndOf(ops, from) < a || ops == [])
    ensures InCredit(Granted(l, ops, side, key, a, b),
                     LevelOf(Buckets(Run(l, ops, true).0, side), Rpm(l, side), key, t), Rpm(l, side), t - a)
  {
    RunSound(l, ops, from);
    NoneBefore(l, ops, side, key, a, b);
    NoCredit(Buckets(Run(l, ops, true).0, side), Rpm(l, side), key, EndOf(ops, from), a, t);
  }

  lemma CreditStep(l: Limits, ops: seq<Op>, side: Side, key: string, from: real, a: real, b: real, t: real)
    requires Sound(l, from) && Ordered(from, ops) && Patient(ops) && ops != []
    requires a <= EndOf(ops, from) <= t <= b
    requires InCredit(Granted(l, ops[..|ops| - 1], side, key, a, b),
                      LevelOf(Buckets(Run(l, ops[..|ops| - 1], true).0, side), Rpm(l, side), key, EndOf(ops, from)),
                      Rpm(l, side), EndOf(ops, from) - a)
    ensures InCredit(Granted(l, ops, side, key, a, b),
                     LevelOf(Buckets(Run(l, ops, true).0, side), Rpm(l, side), key, t), Rpm(l, side), t - a)
  {
    var rest, op := ops[..|ops| - 1], ops[|ops| - 1];
    var before := Run(l, rest, true).0;
    RunSound(l, rest, from);
    SoundLater(before, EndOf(rest, from), op.at);
    StepCredit(before, op, side, key);
    var after := Step(before, op, true).0;
    CreditGrows(Buckets(before, side), Buckets(after, side), Rpm(l, side), key, Granted(l, rest, side, key, a, b),
                if Grants(before, op, side, key) then 1 else 0, a, op.at, t);
  }

  lemma SoundLater(l: Limits, now: real, later: real)
    requires Sound(l, now) && now <= later
    ensures Sound(l, later)
  {
  }

  lemma {:induction false} NoneBefore(l: Limits, ops: seq<Op>, side: Side, key: string, a: real, b: real)
    requires forall i :: 0 <= i < |ops| ==> ops[i].at < a
    ensures Granted(l, ops, side, key, a, b) == 0
  {
    if ops != [] {
      NoneBefore(l, ops[..|ops| - 1], side, key, a, b);
    }
  }

  lemma {:induction false} RunSound(l: Limits, ops: seq<Op>, from: real)
    requires Sound(l, from) && Ordered(from, ops) && Patient(ops)
    ensures Sound(Run(l, ops, true).0, EndOf(ops, from))
    ensures Run(l, ops, true).0.userRpm == l.userRpm && Run(l, ops, true).0.channelRpm == l.channelRpm
    ensures forall side :: Filled(Buckets(Run(l, ops, true).0, side), Rpm(l, side), EndOf(ops, from))
  {
    RunAlike(l, ops, from);
  }

  lemma CreditSpent(m: map<string, Bucket>, rpm: nat, key: string, now: real, n: nat, a: real, b: real)
    requires Filled(m, rpm, now) && now <= b && InCredit(n, LevelOf(m, rpm, key, b), rpm, b - a)
    ensures n as real <= rpm as real + (b - a) * (rpm as real / 60.0)
  {
    assert Filled(m, rpm, b);
    hide Filled, LevelOf;
    LevelLater(m, rpm, key, b, b);
  }

  lemma GrantBoundAtEnd(l: Limits, ops: seq<Op>, side: Side, key: string, from: real, a: real, b: real)
    requires Sound(l, from) && Ordered(from, ops) && Patient(ops) && from <= a <= b && EndOf(ops, from) <= b
    ensures Granted(l, ops, side, key, a, b) as real <=
      Rpm(l, side) as real + (b - a) * (Rpm(l, side) as real / 60.0)
  {
    hide *;
    Credit(l, ops, side, key, from, a, b, b);
    RunSound(l, ops, from);
    CreditSpent(Buckets(Run(l, ops, true).0, side), Rpm(l, side), key, EndOf(ops, from),
                Granted(l, ops, side, key, a, b), a, b);
  }

  /** In any interval of any run of a limiter, patient collections included, one bucket grants at
      most its capacity and its refill, whatever the other side answers. */
  lemma {:induction false} GrantBound(l: Limits, ops: seq<Op>, side: Side, key: string, from: real, a: real, b: real)
    requires Sound(l, from) && Ordered(from, ops) && Patient(ops) && from <= a <= b
    ensures Granted(l, ops, side, key, a, b) as real <=
      Rpm(l, side) as real + (b - a) * (Rpm(l, side) as real / 60.0)
  {
    if EndOf(ops, from) <= b {
      GrantBoundAtEnd(l, ops, side, key, from, a, b);
    } else {
      GrantBound(l, ops[..|ops| - 1], side, key, from, a, b);
    }
  }

  /** A request is allowed only if both of its buckets grant it. */
  lemma {:induction false} AllowedIsGranted(l: Limits, ops: seq<Op>, side: Side, key: string, a: real, b: real)
    ensures Allowed(l, ops, side, key, a, b) <= Granted(l, ops, side, key, a, b)
  {
    if ops != [] {
      AllowedIsGranted(l, ops[..|ops| - 1], side, key, a, b);
      var op := ops[|ops| - 1];
      if op.Request? && KeyOf(op, side) == key {
        AllowedStep(Run(l, ops[..|ops| - 1], true).0, op, side, key);
      }
    }
  }

  lemma AllowedStep(l: Limits, op: Op, side: Side, key: string)
    requires op.Request? && KeyOf(op, side) == key
    ensures Step(l, op, true).1 == [true] <==> Grants(l, op, Users, op.user) && Grants(l, op, Channels, op.channel)
    ensures Step(l, op, true).1 == [true] ==> Grants(l, op, side, key)
  {
  }

  /** So in any interval a user gets at most its burst and its rate through, and so does a channel. */
  lemma IntervalBound(l: Limits, ops: seq<Op>, side: Side, key: string, from: real, a: real, b: real)
    requires Sound(l, from) && Ordered(from, ops) && Patient(ops) && from <= a <= b
    ensures Allowed(l, ops, side, key, a, b) as real <=
      Rpm(l, side) as real + (b - a) * (Rpm(l, side) as real / 60.0)
  {
    hide *;
    GrantBound(l, ops, side, key, from, a, b);
    AllowedIsGranted(l, ops, side, key, a, b);
  }

  // ---------------------------------------------------------------------
  // ... and exactly when that bound holds
  // ---------------------------------------------------------------------

  /** The bound for every new limiter and every run that collects at this age. */
  ghost predicate GrantsBounded(maxAge: real) {
    forall userRpm, channelRpm, ops, side, key, a, b ::
      Ordered(0.0, ops) && Collecting(ops, maxAge) && 0.0 <= a <= b ==>
        var l := Limits(userRpm, channelRpm, map[], map[]);
        WithinBound(Granted(l, ops, side, key, a, b), Rpm(l, side), b - a)
  }

  ghost predicate AllowedBounded(maxAge: real) {
    forall userRpm, channelRpm, ops, side, key, a, b ::
      Ordered(0.0, ops) && Collecting(ops, maxAge) && 0.0 <= a <= b ==>
        var l := Limits(userRpm, channelRpm, map[], map[]);
        WithinBound(Allowed(l, ops, side, key, a, b), Rpm(l, side), b - a)
  }

  predicate WithinBound(n: nat, rpm: nat, span: real) {
    n as real <= rpm as real + span * (rpm as real / 60.0)
  }

  lemma RunTwo(l: Limits, x: Op, y: Op)
    ensures Run(l, [x], true).0 == Step(l, x, true).0
    ensures Run(l, [x, y], true).0 == Step(Step(l, x, true).0, y, true).0
  {
    assert [x][..0] == [] && [x, y][..1] == [x];
  }

  /** A collection in between lets the same user and channel through twice within a minute. */
  lemma AllowedTwice(maxAge: real) returns (ops: seq<Op>, at: real)
    requires maxAge < 60.0
    ensures Ordered(0.0, ops) && Collecting(ops, maxAge) && 0.0 <= at < 60.0
    ensures Allowed(Limits(1, 1, map[], map[]), ops, Users, "u", 0.0, at) == 2
  {
    hide Step, Run;
    at := if maxAge < 0.0 then 0.0 else maxAge;
    var l := Limits(1, 1, map[], map[]);
    var x, y, z := Request("u", "c", 0.0), Collect(maxAge, at), Request("u", "c", at);
    ops := [x, y, z];
    RunTwo(l, x, y);
    FirstRequest(0.0);
    SecondRequest(maxAge, at);
    RunNone(l);
    assert ops[..2] == [x, y] && [x, y][..1] == [x] && [x][..0] == [];
    assert Allowed(l, [x], Users, "u", 0.0, at) == 1;
    assert Allowed(l, [x, y], Users, "u", 0.0, at) == 1;
  }

  lemma RunNone(l: Limits)
    ensures Run(l, [], true).0 == l
  {
  }

  /** Both bounds hold, over all limiters and runs, exactly when collecting waits a minute. */
  lemma BoundedExactly(maxAge: real)
    ensures GrantsBounded(maxAge) <==> maxAge >= 60.0
    ensures AllowedBounded(maxAge) <==> maxAge >= 60.0
  {
    if maxAge >= 60.0 {
      PatientIsBounded(maxAge);
    } else {
      var ops, at := AllowedTwice(maxAge);
      AllowedIsGranted(Limits(1, 1, map[], map[]), ops, Users, "u", 0.0, at);
      hide Allowed, Granted, Ordered, Collecting;
      assert !WithinBound(Allowed(Limits(1, 1, map[], map[]), ops, Users, "u", 0.0, at), 1, at - 0.0);
      assert !WithinBound(Granted(Limits(1, 1, map[], map[]), ops, Users, "u", 0.0, at), 1, at - 0.0);
    }
  }

  lemma PatientIsBounded(maxAge: real)
    requires maxAge >= 60.0
    ensures GrantsBounded(maxAge) && AllowedBounded(maxAge)
  {
    hide Granted, Allowed;
    forall userRpm: nat, channelRpm: nat, ops, side, key, a, b
      | Ordered(0.0, ops) && Collecting(ops, maxAge) && 0.0 <= a <= b
      ensures var l := Limits(userRpm, channelRpm, map[], map[]);
        && WithinBound(Granted(l, ops, side, key, a, b), Rpm(l, side), b - a)
        && WithinBound(Allowed(l, ops, side, key, a, b), Rpm(l, side), b - a)
    {
      var l := Limits(userRpm, channelRpm, map[], map[]);
      GrantBound(l, ops, side, key, 0.0, a, b);
      IntervalBound(l, ops, side, key, 0.0, a, b);
    }
  }

  // ---------------------------------------------------------------------
  // Read off the buckets
  // ---------------------------------------------------------------------

  /** A bucket starts full, and fills at a sixtieth of its size each second. */
  lemma FullBucketExactly(rpm: nat, now: real)
    ensures var b := FullBucket(rpm, now);
      b.capacity == rpm as real && b.tokens == rpm as real && b.last == now && 60.0 * b.rate == rpm as real
  {
  }

  /** What a draw leaves, and when it is granted. */
  lemma DrawExactly(b: Bucket, now: real, n: int)
    ensures var refilled := b.tokens + (now - b.last) * b.rate;
      var level := if refilled <= b.capacity then refilled else b.capacity;
      Draw(b, now, n) ==
        if level >= n as real then (b.(tokens := level - n as real, last := now), true)
        else (b.(tokens := level, last := now), false)
  {
    var refilled := b.tokens + (now - b.last) * b.rate;
    assert Level(b, now) == if refilled <= b.capacity then refilled else b.capacity;
    hide Level;
  }

  /** A request draws one token from both of its buckets, new ones if need be, and is allowed if both
      had one; no other bucket changes. */
  lemma AllowExactly(l: Limits, user: string, channel: string, now: real)
    ensures var u := if user in l.users then l.users[user] else FullBucket(l.userRpm, now);
      var c := if channel in l.channels then l.channels[channel] else FullBucket(l.channelRpm, now);
      && Allow(l, user, channel, now).0 ==
           l.(users := l.users[user := Draw(u, now, 1).0], channels := l.channels[channel := Draw(c, now, 1).0])
      && (Allow(l, user, channel, now).1 <==> Draw(u, now, 1).1 && Draw(c, now, 1).1)
  {
  }

  /** What a collection keeps. */
  lemma CleanUpExactly(l: Limits, maxAge: real, now: real, key: string)
    ensures var after := CleanUp(l, maxAge, now);
      && after.userRpm == l.userRpm && after.channelRpm == l.channelRpm
      && (key in after.users <==> key in l.users && l.users[key].last > now - maxAge)
      && (key in after.users ==> after.users[key] == l.users[key])
      && (key in after.channels <==> key in l.channels && l.channels[key].last > now - maxAge)
      && (key in after.channels ==> after.channels[key] == l.channels[key])
  {
  }
}
