/**
 The callback contract: records with an ack window, a time to live, bounded
 attempts and single-use delivery, and an index that makes creation idempotent.
 */
module Callbacks {
  import opened Wrappers

  datatype State = Pending | Acknowledged | Delivered | Expired | Failed

  datatype Record = Record(
    key: string, state: State, createdAt: real, acknowledgedAt: Option<real>, deliveredAt: Option<real>,
    ttl: int, attempts: int, maxAttempts: int, requireAck: bool, allowDirect: bool)

  datatype Settings = Settings(ackWindow: int, ttl: int, maxAttempts: int)

  datatype Error = NotFound | AckWindowExpired | CannotAck(state: State) | MustAckFirst
                 | CannotDeliver(state: State) | InvalidPolicy

  /** Records by id, and for each idempotency key the id it names. */
  datatype Book = Book(records: map<string, Record>, index: map<string, string>)

  // ---------------------------------------------------------------------
  // What happens to one record
  // ---------------------------------------------------------------------

  /** (require_ack, allow_direct_delivery) in effect; None when the request contradicts itself. */
  function AckPolicy(requireAck: Option<bool>, allowDirect: bool): Option<(bool, bool)> {
    match requireAck
    case None => Some((!allowDirect, allowDirect))
    case Some(required) =>
      if required && allowDirect then None else if !required then Some((false, true)) else Some((true, false))
  }

  function NewRecord(cfg: Settings, key: string, ttl: Option<int>, policy: (bool, bool), now: real): Record {
    Record(key, Pending, now, None, None, if ttl.Some? && ttl.value != 0 then ttl.value else cfg.ttl,
           0, cfg.maxAttempts, policy.0, policy.1)
  }

  function ExpireIfNeeded(cfg: Settings, r: Record, now: real): Record {
    if r.state.Delivered? || r.state.Expired? || r.state.Failed? then r
    else if r.requireAck && r.state.Pending? && now - r.createdAt > cfg.ackWindow as real then r.(state := Expired)
    else if now - r.createdAt > r.ttl as real then r.(state := Expired)
    else r
  }

  function AcknowledgeRecord(cfg: Settings, r: Record, now: real): (Record, Option<Error>) {
    if r.state.Pending? && now - r.createdAt > cfg.ackWindow as real then (r.(state := Expired), Some(AckWindowExpired))
    else
      var e := ExpireIfNeeded(cfg, r, now);
      if !e.state.Pending? then (e, Some(CannotAck(e.state)))
      else (e.(state := Acknowledged, acknowledgedAt := Some(now)), None)
  }

  function DeliverRecord(cfg: Settings, r: Record, now: real): (Record, Option<Error>) {
    var e := ExpireIfNeeded(cfg, r, now);
    if e.requireAck && e.state.Pending? then (e, Some(MustAckFirst))
    else if !e.state.Pending? && !e.state.Acknowledged? then (e, Some(CannotDeliver(e.state)))
    else (e.(state := Delivered, deliveredAt := Some(now), attempts := e.attempts + 1), None)
  }

  function AttemptRecord(r: Record): Record {
    var attempts := r.attempts + 1;
    r.(attempts := attempts, state := if attempts >= r.maxAttempts then Failed else r.state)
  }

  // ---------------------------------------------------------------------
  // Operations on the book
  // ---------------------------------------------------------------------

  datatype Op =
    | Create(id: string, key: string, ttl: Option<int>, requireAck: Option<bool>, allowDirect: bool, at: real)
    | Acknowledge(id: string, at: real)
    | Deliver(id: string, at: real)
    | RecordAttempt(id: string, at: real)
    | Get(id: string, at: real)
    | GetByKey(key: string, at: real)

  /** The record the key is still tied to: named by the index and not expired or failed. */
  predicate Deduplicates(b: Book, key: string) {
    && key != "" && key in b.index && b.index[key] != "" && b.index[key] in b.records
    && !b.records[b.index[key]].state.Expired? && !b.records[b.index[key]].state.Failed?
  }

  function WithRecord(b: Book, id: string, r: Record): Book {
    b.(records := b.records[id := r])
  }

  /** The record an operation other than Create is about. */
  function Target(b: Book, op: Op): string
    requires !op.Create?
  {
    if op.GetByKey? then if op.key in b.index then b.index[op.key] else "" else op.id
  }

  function Touched(cfg: Settings, r: Record, op: Op): (Record, Option<Error>)
    requires !op.Create?
  {
    match op
    case Acknowledge(_, at) => AcknowledgeRecord(cfg, r, at)
    case Deliver(_, at) => DeliverRecord(cfg, r, at)
    case RecordAttempt(_, at) => (AttemptRecord(r), None)
    case Get(_, at) => (ExpireIfNeeded(cfg, r, at), None)
    case GetByKey(_, at) => (ExpireIfNeeded(cfg, r, at), None)
  }

  function Created(cfg: Settings, b: Book, op: Op): (Book, Result<Option<string>, Error>)
    requires op.Create?
  {
    var policy := AckPolicy(op.requireAck, op.allowDirect);
    if policy.None? then (b, Err(InvalidPolicy))
    else if Deduplicates(b, op.key) then (b, Ok(Some(b.index[op.key])))
    else
      (Book(b.records[op.id := NewRecord(cfg, op.key, op.ttl, policy.value, op.at)],
            if op.key != "" then b.index[op.key := op.id] else b.index),
       Ok(Some(op.id)))
  }

  /** The new book and what the caller gets: the id of a record, no record, or an error. */
  function Step(cfg: Settings, b: Book, op: Op): (Book, Result<Option<string>, Error>) {
    if op.Create? then Created(cfg, b, op)
    else
      var id := Target(b, op);
      if id !in b.records || (op.GetByKey? && id == "") then
        (b, if op.Get? || op.GetByKey? then Ok(None) else Err(NotFound))
      else
        var (r, error) := Touched(cfg, b.records[id], op);
        (WithRecord(b, id, r), if error.Some? then Err(error.value) else Ok(Some(id)))
  }

  // ---------------------------------------------------------------------
  // The contract with its records on the heap
  // ---------------------------------------------------------------------

  class CallbackRecord {
    const id: string
    const key: string
    const createdAt: real
    const ttl: int
    const maxAttempts: int
    const requireAck: bool
    const allowDirect: bool
    var state: State
    var acknowledgedAt: Option<real>
    var deliveredAt: Option<real>
    var attempts: int

    constructor (id: string, r: Record)
      ensures this.id == id && Value() == r
    {
      this.id, key, createdAt, ttl := id, r.key, r.createdAt, r.ttl;
      maxAttempts, requireAck, allowDirect := r.maxAttempts, r.requireAck, r.allowDirect;
      state, acknowledgedAt, deliveredAt, attempts := r.state, r.acknowledgedAt, r.deliveredAt, r.attempts;
    }

    function Value(): Record
      reads this
    {
      Record(key, state, createdAt, acknowledgedAt, deliveredAt, ttl, attempts, maxAttempts, requireAck, allowDirect)
    }

    method Expire(cfg: Settings, now: real)
      modifies this
      ensures Value() == ExpireIfNeeded(cfg, old(Value()), now)
    {
      if state.Delivered? || state.Expired? || state.Failed? {
        return;
      }
      var elapsed := now - createdAt;
      if requireAck && state.Pending? && elapsed > cfg.ackWindow as real {
        state := Expired;
        return;
      }
      if elapsed > ttl as real {
        state := Expired;
      }
    }

    method Acknowledge(cfg: Settings, now: real) returns (error: Option<Error>)
      modifies this
      ensures (Value(), error) == AcknowledgeRecord(cfg, old(Value()), now)
    {
      if state.Pending? {
        var elapsed := now - createdAt;
        if elapsed > cfg.ackWindow as real {
          state := Expired;
          return Some(AckWindowExpired);
        }
      }
      Expire(cfg, now);
      if !state.Pending? {
        return Some(CannotAck(state));
      }
      state := Acknowledged;
      acknowledgedAt := Some(now);
      error := None;
    }

    method Deliver(cfg: Settings, now: real) returns (error: Option<Error>)
      modifies this
      ensures (Value(), error) == DeliverRecord(cfg, old(Value()), now)
    {
      Expire(cfg, now);
      if requireAck && state.Pending? {
        return Some(MustAckFirst);
      }
      if !state.Pending? && !state.Acknowledged? {
        return Some(CannotDeliver(state));
      }
      state := Delivered;
      deliveredAt := Some(now);
      attempts := attempts + 1;
      error := None;
    }

    method Attempt()
      modifies this
      ensures Value() == AttemptRecord(old(Value()))
    {
      attempts := attempts + 1;
      if attempts >= maxAttempts {
        state := Failed;
      }
    }
  }

  class CallbackContract {
    const cfg: Settings
    var records: map<string, CallbackRecord>
    var index: map<string, string>
    ghost var Repr: set<CallbackRecord>

    ghost predicate Valid()
      reads this
    {
      forall id :: id in records ==> records[id] in Repr && records[id].id == id
    }

    ghost function State(): Book
      requires Valid()
      reads this, Repr
    {
      Book(map id | id in records :: records[id].Value(), index)
    }

    constructor (cfg: Settings)
      ensures Valid() && Repr == {} && this.cfg == cfg && State() == Book(map[], map[])
    {
      this.cfg := cfg;
      records, index, Repr := map[], map[], {};
    }

    /** The second half of `create`: file a new record under its id and its key. */
    method File(id: string, r: Record) returns (record: CallbackRecord)
      requires Valid() && id !in records
      modifies this
      ensures Valid() && fresh(Repr - old(Repr))
      ensures State() == Book(old(State()).records[id := r],
                              if r.key != "" then old(index)[r.key := id] else old(index))
      ensures record.id == id && id in records && records[id] == record
    {
      ghost var before := State();
      record := new CallbackRecord(id, r);
      records := records[id := record];
      Repr := Repr + {record};
      if r.key != "" {
        index := index[r.key := id];
      }
      OneAdded(before.records, id, r);
    }

    /** `id` is the fresh one drawn for the record, should one be made. */
    method Create(id: string, key: string, ttl: Option<int>, requireAck: Option<bool>, allowDirect: bool, now: real)
      returns (r: Result<CallbackRecord, Error>)
      requires Valid() && id !in records
      modifies this
      ensures Valid() && fresh(Repr - old(Repr))
      ensures var (book, answer) := Step(cfg, old(State()), Op.Create(id, key, ttl, requireAck, allowDirect, now));
        && State() == book
        && (r.Ok? <==> answer.Ok?)
        && (r.Ok? ==> answer.value == Some(r.value.id) && r.value.id in records && records[r.value.id] == r.value)
        && (r.Err? ==> r.error == answer.error)
    {
      var policy := AckPolicy(requireAck, allowDirect);
      if policy.None? {
        return Err(InvalidPolicy);
      }
      hide AckPolicy;
      if key != "" {
        if key in index && index[key] != "" && index[key] in records {
          var existing := records[index[key]];
          if !existing.state.Expired? && !existing.state.Failed? {
            return Ok(existing);
          }
        }
      }
      var record := File(id, NewRecord(cfg, key, ttl, policy.value, now));
      r := Ok(record);
    }

    method Acknowledge(id: string, now: real) returns (r: Result<CallbackRecord, Error>)
      requires Valid()
      modifies Repr
      ensures Valid() && State() == Step(cfg, old(State()), Op.Acknowledge(id, now)).0
      ensures r.Ok? <==> Step(cfg, old(State()), Op.Acknowledge(id, now)).1.Ok?
      ensures r.Ok? ==> id in records && r.value == records[id]
      ensures r.Err? ==> Step(cfg, old(State()), Op.Acknowledge(id, now)).1 == Err(r.error)
    {
      hide AcknowledgeRecord;
      if id !in records {
        return Err(NotFound);
      }
      var record := records[id];
      var error := record.Acknowledge(cfg, now);
      OneChanged(old(State()), id, record.Value());
      r := if error.Some? then Err(error.value) else Ok(record);
    }

    method Deliver(id: string, now: real) returns (r: Result<CallbackRecord, Error>)
      requires Valid()
      modifies Repr
      ensures Valid() && State() == Step(cfg, old(State()), Op.Deliver(id, now)).0
      ensures r.Ok? <==> Step(cfg, old(State()), Op.Deliver(id, now)).1.Ok?
      ensures r.Ok? ==> id in records && r.value == records[id]
      ensures r.Err? ==> Step(cfg, old(State()), Op.Deliver(id, now)).1 == Err(r.error)
    {
      hide DeliverRecord;
      if id !in records {
        return Err(NotFound);
      }
      var record := records[id];
      var error := record.Deliver(cfg, now);
      OneChanged(old(State()), id, record.Value());
      r := if error.Some? then Err(error.value) else Ok(record);
    }

    method RecordAttempt(id: string, now: real) returns (r: Result<CallbackRecord, Error>)
      requires Valid()
      modifies Repr
      ensures Valid() && State() == Step(cfg, old(State()), Op.RecordAttempt(id, now)).0
      ensures if id in records then r == Ok(records[id]) else r == Err(NotFound)
    {
      hide AttemptRecord;
      if id !in records {
        return Err(NotFound);
      }
      var record := records[id];
      record.Attempt();
      OneChanged(old(State()), id, record.Value());
      r := Ok(record);
    }

    method Get(id: string, now: real) returns (r: Option<CallbackRecord>)
      requires Valid()
      modifies Repr
      ensures Valid() && State() == Step(cfg, old(State()), Op.Get(id, now)).0
      ensures if id in records then r == Some(records[id]) else r == None
    {
      hide ExpireIfNeeded;
      if id !in records {
        return None;
      }
      var record := records[id];
      record.Expire(cfg, now);
      OneChanged(old(State()), id, record.Value());
      r := Some(record);
    }

    method GetByKey(key: string, now: real) returns (r: Option<CallbackRecord>)
      requires Valid()
      modifies Repr
      ensures Valid() && State() == Step(cfg, old(State()), Op.GetByKey(key, now)).0
      ensures if key in index && index[key] != "" && index[key] in records
              then r == Some(records[index[key]]) else r == None
    {
      hide ExpireIfNeeded;
      if key in index && index[key] != "" {
        r := Get(index[key], now);
        return;
      }
      r := None;
    }

    lemma OneAdded(before: map<string, Record>, id: string, r: Record)
      requires Valid() && id in records && records[id].Value() == r
      requires records.Keys == before.Keys + {id}
      requires forall k :: k in before && k != id ==> records[k].Value() == before[k]
      ensures State().records == before[id := r]
    {
    }

    /** The book after one record changed and the others did not. */
    lemma OneChanged(before: Book, id: string, r: Record)
      requires Valid() && id in records && records[id].Value() == r
      requires before.index == index && before.records.Keys == records.Keys
      requires forall k :: k in records && k != id ==> records[k].Value() == before.records[k]
      ensures State() == WithRecord(before, id, r)
    {
    }
  }

  // ---------------------------------------------------------------------
  // What every run keeps
  // ---------------------------------------------------------------------

  /** A record's timestamps tell its history, with the windows it had to meet. */
  ghost predicate RecordOk(cfg: Settings, r: Record, now: real) {
    && r.createdAt <= now && r.maxAttempts == cfg.maxAttempts && r.requireAck != r.allowDirect
    && (r.acknowledgedAt.Some? ==>
          && r.createdAt <= r.acknowledgedAt.value <= now
          && r.acknowledgedAt.value <= r.createdAt + cfg.ackWindow as real
          && r.acknowledgedAt.value <= r.createdAt + r.ttl as real)
    && (r.deliveredAt.Some? ==>
          && r.createdAt <= r.deliveredAt.value <= now
          && r.deliveredAt.value <= r.createdAt + r.ttl as real
          && (r.requireAck ==> r.acknowledgedAt.Some?)
          && (r.acknowledgedAt.Some? ==> r.acknowledgedAt.value <= r.deliveredAt.value))
    && (r.state.Pending? ==> r.acknowledgedAt.None?)
    && (r.state.Acknowledged? ==> r.acknowledgedAt.Some?)
    && (r.deliveredAt.Some? ==> r.state.Delivered? || r.state.Failed?)
    && (r.state.Delivered? ==> r.deliveredAt.Some?)
    && (r.state.Pending? || r.state.Acknowledged? ==> r.attempts < r.maxAttempts || cfg.maxAttempts < 1)
  }

  predicate Live(r: Record) {
    r.state.Pending? || r.state.Acknowledged? || r.state.Delivered?
  }

  ghost predicate BookOk(cfg: Settings, b: Book, now: real) {
    && (forall id :: id in b.records ==> id != "" && RecordOk(cfg, b.records[id], now))
    && (forall key :: key in b.index ==>
          key != "" && b.index[key] in b.records && b.records[b.index[key]].key == key)
    && (forall id :: id in b.records && b.records[id].key != "" && Live(b.records[id]) ==>
          b.records[id].key in b.index && b.index[b.records[id].key] == id)
  }

  /** The clock does not run backwards, and the id drawn for a new record is new. */
  predicate Possible(b: Book, op: Op, now: real) {
    now <= op.at && (op.Create? ==> op.id !in b.records && op.id != "")
  }

  /** How far a record has come; delivered and expired are side by side. */
  function Rank(s: State): nat {
    match s
    case Pending => 0
    case Acknowledged => 1
    case Delivered => 2
    case Expired => 2
    case Failed => 3
  }

  /** What may become of a record: its identity stays, its rank never falls, it never leaves a
      state for another one of the same rank, and a delivery once recorded stays recorded. */
  ghost predicate Later(r: Record, r': Record) {
    && r'.key == r.key && r'.createdAt == r.createdAt && r'.ttl == r.ttl && r'.requireAck == r.requireAck
    && Rank(r.state) <= Rank(r'.state)
    && (Rank(r.state) == Rank(r'.state) ==> r.state == r'.state)
    && (r.acknowledgedAt.Some? ==> r'.acknowledgedAt == r.acknowledgedAt)
    && (r.deliveredAt.Some? ==> r'.deliveredAt == r.deliveredAt)
    && r.attempts <= r'.attempts
  }

  /** A record in order, and what may become of it. */
  ghost predicate Becomes(cfg: Settings, r: Record, r': Record, now: real) {
    RecordOk(cfg, r', now) && Later(r, r') && (Live(r') ==> Live(r))
  }

  lemma ExpireKeeps(cfg: Settings, r: Record, before: real, now: real)
    requires RecordOk(cfg, r, before) && before <= now
    ensures Becomes(cfg, r, ExpireIfNeeded(cfg, r, now), now)
  {
  }

  lemma AcknowledgeKeeps(cfg: Settings, r: Record, before: real, now: real)
    requires RecordOk(cfg, r, before) && before <= now
    ensures Becomes(cfg, r, AcknowledgeRecord(cfg, r, now).0, now)
  {
    ExpireKeeps(cfg, r, before, now);
  }

  lemma DeliverKeeps(cfg: Settings, r: Record, before: real, now: real)
    requires RecordOk(cfg, r, before) && before <= now
    ensures Becomes(cfg, r, DeliverRecord(cfg, r, now).0, now)
  {
    ExpireKeeps(cfg, r, before, now);
  }

  lemma AttemptKeeps(cfg: Settings, r: Record, before: real, now: real)
    requires RecordOk(cfg, r, before) && before <= now
    ensures Becomes(cfg, r, AttemptRecord(r), now)
  {
  }

  lemma TouchedKeeps(cfg: Settings, r: Record, op: Op, before: real)
    requires RecordOk(cfg, r, before) && before <= op.at && !op.Create?
    ensures Becomes(cfg, r, Touched(cfg, r, op).0, op.at)
  {
    hide RecordOk, Becomes, ExpireIfNeeded, AcknowledgeRecord, DeliverRecord, AttemptRecord;
    match op
    case Acknowledge(_, at) => AcknowledgeKeeps(cfg, r, before, at);
    case Deliver(_, at) => DeliverKeeps(cfg, r, before, at);
    case RecordAttempt(_, at) => AttemptKeeps(cfg, r, before, at);
    case Get(_, at) => ExpireKeeps(cfg, r, before, at);
    case GetByKey(_, at) => ExpireKeeps(cfg, r, before, at);
  }

  /** Putting a later version of a record back keeps the book in order. */
  lemma UpdateKeeps(cfg: Settings, b: Book, id: string, r: Record, before: real, now: real)
    requires BookOk(cfg, b, before) && before <= now && id in b.records && Becomes(cfg, b.records[id], r, now)
    ensures BookOk(cfg, WithRecord(b, id, r), now)
  {
    hide RecordOk;
    var b' := WithRecord(b, id, r);
    forall k | k in b'.records ensures k != "" && RecordOk(cfg, b'.records[k], now) {
      RecordAges(cfg, b.records[k], before, now);
    }
  }

  lemma RecordAges(cfg: Settings, r: Record, before: real, now: real)
    requires RecordOk(cfg, r, before) && before <= now
    ensures RecordOk(cfg, r, now) && Later(r, r)
  {
  }

  lemma NewRecordOk(cfg: Settings, key: string, ttl: Option<int>, requireAck: Option<bool>, allowDirect: bool,
                    now: real)
    requires AckPolicy(requireAck, allowDirect).Some?
    ensures RecordOk(cfg, NewRecord(cfg, key, ttl, AckPolicy(requireAck, allowDirect).value, now), now)
  {
  }

  lemma CreateKeeps(cfg: Settings, b: Book, op: Op, before: real)
    requires BookOk(cfg, b, before) && op.Create? && Possible(b, op, before)
    ensures BookOk(cfg, Created(cfg, b, op).0, op.at)
  {
    hide RecordOk, AckPolicy;
    var b' := Created(cfg, b, op).0;
    if AckPolicy(op.requireAck, op.allowDirect).Some? {
      NewRecordOk(cfg, op.key, op.ttl, op.requireAck, op.allowDirect, op.at);
    }
    forall k | k in b'.records ensures k != "" && RecordOk(cfg, b'.records[k], op.at) {
      if k in b.records {
        RecordAges(cfg, b.records[k], before, op.at);
      }
    }
  }

  lemma AllAge(cfg: Settings, b: Book, before: real, now: real)
    requires BookOk(cfg, b, before) && before <= now
    ensures BookOk(cfg, b, now) && forall id :: id in b.records ==> Later(b.records[id], b.records[id])
  {
    hide RecordOk;
    forall id | id in b.records ensures RecordOk(cfg, b.records[id], now) {
      RecordAges(cfg, b.records[id], before, now);
    }
  }

  lemma StepKeeps(cfg: Settings, b: Book, op: Op, before: real)
    requires BookOk(cfg, b, before) && Possible(b, op, before)
    ensures BookOk(cfg, Step(cfg, b, op).0, op.at)
    ensures forall id :: id in b.records ==>
      id in Step(cfg, b, op).0.records && Later(b.records[id], Step(cfg, b, op).0.records[id])
  {
    hide RecordOk, Touched, AckPolicy, Later;
    AllAge(cfg, b, before, op.at);
    if op.Create? {
      CreateKeeps(cfg, b, op, before);
    } else if Target(b, op) in b.records {
      var id := Target(b, op);
      TouchedKeeps(cfg, b.records[id], op, before);
      UpdateKeeps(cfg, b, id, Touched(cfg, b.records[id], op).0, before, op.at);
    }
  }

  // ---------------------------------------------------------------------
  // Whole runs
  // ---------------------------------------------------------------------

  function EndOf(ops: seq<Op>, from: real): real {
    if ops == [] then from else ops[|ops| - 1].at
  }

  function Run(cfg: Settings, b: Book, ops: seq<Op>): Book {
    if ops == [] then b else Step(cfg, Run(cfg, b, ops[..|ops| - 1]), ops[|ops| - 1]).0
  }

  ghost predicate Feasible(cfg: Settings, b: Book, ops: seq<Op>, from: real) {
    ops == [] ||
    (Feasible(cfg, b, ops[..|ops| - 1], from)
     && Possible(Run(cfg, b, ops[..|ops| - 1]), ops[|ops| - 1], EndOf(ops[..|ops| - 1], from)))
  }

  const NO_BOOK := Book(map[], map[])

  lemma {:induction false} RunKeeps(cfg: Settings, b: Book, ops: seq<Op>, from: real)
    requires BookOk(cfg, b, from) && Feasible(cfg, b, ops, from)
    ensures BookOk(cfg, Run(cfg, b, ops), EndOf(ops, from))
    ensures forall id :: id in b.records ==>
      id in Run(cfg, b, ops).records && Later(b.records[id], Run(cfg, b, ops).records[id])
  {
    hide RecordOk, Step;
    if ops == [] {
      AllAge(cfg, b, from, from);
    } else {
      RunKeeps(cfg, b, ops[..|ops| - 1], from);
      StepKeeps(cfg, Run(cfg, b, ops[..|ops| - 1]), ops[|ops| - 1], EndOf(ops[..|ops| - 1], from));
    }
  }

  /** Idempotency: of all the records ever made for a key at most one is not expired or failed,
      and it is the one the index names. */
  lemma OneLivePerKey(cfg: Settings, ops: seq<Op>, a: string, c: string)
    requires Feasible(cfg, NO_BOOK, ops, 0.0)
    requires var b := Run(cfg, NO_BOOK, ops);
      && a in b.records && c in b.records && a != c
      && b.records[a].key == b.records[c].key != ""
    ensures var b := Run(cfg, NO_BOOK, ops);
      && !(Live(b.records[a]) && Live(b.records[c]))
      && (Live(b.records[a]) ==> b.records[a].key in b.index && b.index[b.records[a].key] == a)
  {
    RunKeeps(cfg, NO_BOOK, ops, 0.0);
  }

  /** Superseded records stay superseded: what is expired or failed is never live again. */
  lemma DeadStaysDead(cfg: Settings, b: Book, more: seq<Op>, now: real, id: string)
    requires BookOk(cfg, b, now) && Feasible(cfg, b, more, now)
    requires id in b.records && !Live(b.records[id])
    ensures id in Run(cfg, b, more).records && !Live(Run(cfg, b, more).records[id])
  {
    RunKeeps(cfg, b, more, now);
  }

  /** A delivery that succeeds finds its record open, and closes it. */
  lemma DeliverSucceeds(cfg: Settings, b: Book, id: string, now: real)
    requires Step(cfg, b, Op.Deliver(id, now)).1.Ok?
    ensures id in b.records && (b.records[id].state.Pending? || b.records[id].state.Acknowledged?)
    ensures id in Step(cfg, b, Op.Deliver(id, now)).0.records
    ensures Step(cfg, b, Op.Deliver(id, now)).0.records[id].state.Delivered?
  {
  }

  /** Single use: over every run a record is delivered successfully at most once. */
  lemma DeliveredOnce(cfg: Settings, b: Book, now: real, id: string, at: real, between: seq<Op>, again: real)
    requires BookOk(cfg, b, now) && now <= at
    requires Step(cfg, b, Op.Deliver(id, at)).1.Ok?
    requires var b1 := Step(cfg, b, Op.Deliver(id, at)).0; Feasible(cfg, b1, between, at)
    ensures var b1 := Step(cfg, b, Op.Deliver(id, at)).0;
      Step(cfg, Run(cfg, b1, between), Op.Deliver(id, again)).1.Err?
  {
    DeliverSucceeds(cfg, b, id, at);
    StepKeeps(cfg, b, Op.Deliver(id, at), now);
    var b1 := Step(cfg, b, Op.Deliver(id, at)).0;
    RunKeeps(cfg, b1, between, at);
    if Step(cfg, Run(cfg, b1, between), Op.Deliver(id, again)).1.Ok? {
      DeliverSucceeds(cfg, Run(cfg, b1, between), id, again);
    }
  }

  /** Strict mode: over every run, a delivered record that needed an acknowledgement got it in
      its ack window and its time to live, and was delivered after it and in time. */
  lemma StrictDelivery(cfg: Settings, ops: seq<Op>, id: string)
    requires Feasible(cfg, NO_BOOK, ops, 0.0)
    requires var b := Run(cfg, NO_BOOK, ops); id in b.records && b.records[id].deliveredAt.Some?
    ensures var r := Run(cfg, NO_BOOK, ops).records[id];
      && r.createdAt <= r.deliveredAt.value <= r.createdAt + r.ttl as real
      && (r.requireAck ==>
            && r.acknowledgedAt.Some?
            && r.createdAt <= r.acknowledgedAt.value <= r.deliveredAt.value
            && r.acknowledgedAt.value <= r.createdAt + cfg.ackWindow as real
            && r.acknowledgedAt.value <= r.createdAt + r.ttl as real)
  {
    RunKeeps(cfg, NO_BOOK, ops, 0.0);
    assert RecordOk(cfg, Run(cfg, NO_BOOK, ops).records[id], EndOf(ops, 0.0));
  }

  /** Bounded attempts: over every run, a record still open has attempts left. */
  lemma OpenHasAttempts(cfg: Settings, ops: seq<Op>, id: string)
    requires Feasible(cfg, NO_BOOK, ops, 0.0) && cfg.maxAttempts >= 1
    requires var b := Run(cfg, NO_BOOK, ops);
      id in b.records && (b.records[id].state.Pending? || b.records[id].state.Acknowledged?)
    ensures Run(cfg, NO_BOOK, ops).records[id].attempts < cfg.maxAttempts
  {
    RunKeeps(cfg, NO_BOOK, ops, 0.0);
    assert RecordOk(cfg, Run(cfg, NO_BOOK, ops).records[id], EndOf(ops, 0.0));
  }

  /** A delivered record is not quite final: recording one more attempt fails it once its
      attempts are used up, and nothing else does. */
  lemma DeliveredUnless(cfg: Settings, b: Book, op: Op, id: string)
    requires id in b.records && b.records[id].state.Delivered? && (op.Create? ==> op.id != id)
    ensures id in Step(cfg, b, op).0.records
    ensures !Step(cfg, b, op).0.records[id].state.Delivered? <==>
      op.RecordAttempt? && op.id == id && b.records[id].attempts + 1 >= b.records[id].maxAttempts
  {
  }

  /** How many attempts are recorded for this id. */
  function AttemptsAt(ops: seq<Op>, id: string): nat {
    if ops == [] then 0
    else
      var op := ops[|ops| - 1];
      AttemptsAt(ops[..|ops| - 1], id) + (if op.RecordAttempt? && op.id == id then 1 else 0)
  }

  /** After delivery only recorded attempts touch a record, and they fail it at its maximum. */
  lemma AfterDelivery(cfg: Settings, b: Book, op: Op, id: string)
    requires id in b.records && (b.records[id].state.Delivered? || b.records[id].state.Failed?)
    requires op.Create? ==> op.id != id
    ensures var n := AttemptsAt([op], id);
      var r := b.records[id];
      && id in Step(cfg, b, op).0.records
      && Step(cfg, b, op).0.records[id] ==
           r.(attempts := r.attempts + n,
              state := if r.state.Delivered? && (n == 0 || r.attempts + n < r.maxAttempts) then Delivered else Failed)
  {
    assert [op][..0] == [];
  }

  /** Over every run a delivered record stays delivered exactly as long as the attempts recorded
      since, if any, leave its count below the maximum; otherwise it has failed. */
  lemma {:induction false} DeliveredUntilFailed(cfg: Settings, b: Book, id: string, more: seq<Op>, from: real)
    requires id in b.records && b.records[id].state.Delivered? && Feasible(cfg, b, more, from)
    ensures var n := AttemptsAt(more, id);
      var r := b.records[id];
      && id in Run(cfg, b, more).records
      && Run(cfg, b, more).records[id] ==
           r.(attempts := r.attempts + n,
              state := if n == 0 || r.attempts + n < r.maxAttempts then Delivered else Failed)
  {
    if more != [] {
      hide Step;
      var rest, op := more[..|more| - 1], more[|more| - 1];
      DeliveredUntilFailed(cfg, b, id, rest, from);
      AfterDelivery(cfg, Run(cfg, b, rest), op, id);
      assert [op][..0] == [];
    }
  }

  /** The attempts recorded in `more` fail this record. */
  predicate FailedBy(r: Record, id: string, more: seq<Op>) {
    AttemptsAt(more, id) > 0 && r.attempts + AttemptsAt(more, id) >= r.maxAttempts
  }

  /** A delivered record keeps its key exactly until recorded attempts fail it: up to then asking
      for the key gives this record, afterwards never again. */
  lemma KeyKeptUntilFailed(cfg: Settings, b: Book, now: real, a: string, more: seq<Op>, again: Op)
    requires BookOk(cfg, b, now) && Feasible(cfg, b, more, now)
    requires a in b.records && b.records[a].state.Delivered? && b.records[a].key != ""
    requires again.Create? && again.key == b.records[a].key && AckPolicy(again.requireAck, again.allowDirect).Some?
    requires Possible(Run(cfg, b, more), again, EndOf(more, now))
    ensures Step(cfg, Run(cfg, b, more), again).1 == Ok(Some(a)) <==> !FailedBy(b.records[a], a, more)
  {
    hide RecordOk, Run, Feasible;
    DeliveredUntilFailed(cfg, b, a, more, now);
    RunKeeps(cfg, b, more, now);
  }

  /** So a key is delivered a second time, under another id, only after attempts recorded for the
      first record in between have failed it. */
  lemma SecondDeliveryNeedsAttempts(cfg: Settings, b: Book, now: real, a: string, between: seq<Op>,
                                    c: string, again: real)
    requires BookOk(cfg, b, now) && Feasible(cfg, b, between, now)
    requires a in b.records && b.records[a].state.Delivered? && b.records[a].key != ""
    requires var b1 := Run(cfg, b, between);
      Step(cfg, b1, Op.Deliver(c, again)).1.Ok? && c in b1.records && b1.records[c].key == b.records[a].key
    ensures a != c && FailedBy(b.records[a], a, between)
    ensures a in Run(cfg, b, between).records && Run(cfg, b, between).records[a].state.Failed?
  {
    hide RecordOk, Run, Feasible;
    DeliveredUntilFailed(cfg, b, a, between, now);
    RunKeeps(cfg, b, between, now);
    hide Step;
    DeliverSucceeds(cfg, Run(cfg, b, between), c, again);
  }

  /** Seen from the end of a run: of two delivered records of one key at least one has failed. */
  lemma SecondDeliveryNeedsFailure(cfg: Settings, ops: seq<Op>, a: string, c: string)
    requires Feasible(cfg, NO_BOOK, ops, 0.0)
    requires var b := Run(cfg, NO_BOOK, ops);
      && a in b.records && c in b.records && a != c && b.records[a].key == b.records[c].key != ""
      && b.records[a].deliveredAt.Some? && b.records[c].deliveredAt.Some?
    ensures var b := Run(cfg, NO_BOOK, ops);
      b.records[a].state.Failed? || b.records[c].state.Failed?
  {
    OneLivePerKey(cfg, ops, a, c);
    RunKeeps(cfg, NO_BOOK, ops, 0.0);
    assert RecordOk(cfg, Run(cfg, NO_BOOK, ops).records[a], EndOf(ops, 0.0));
    assert RecordOk(cfg, Run(cfg, NO_BOOK, ops).records[c], EndOf(ops, 0.0));
  }

  // ---------------------------------------------------------------------
  // ... and it does happen
  // ---------------------------------------------------------------------

  lemma Extend(cfg: Settings, ops: seq<Op>, op: Op) returns (longer: seq<Op>)
    requires Feasible(cfg, NO_BOOK, ops, 0.0) && Possible(Run(cfg, NO_BOOK, ops), op, EndOf(ops, 0.0))
    ensures longer == ops + [op] && Feasible(cfg, NO_BOOK, longer, 0.0) && EndOf(longer, 0.0) == op.at
    ensures Run(cfg, NO_BOOK, longer) == Step(cfg, Run(cfg, NO_BOOK, ops), op).0
  {
    longer := ops + [op];
    assert longer[..|longer| - 1] == ops;
  }

  /** Create and deliver a record whose key is free, after an acknowledgement if it needs one. */
  lemma DeliverOne(cfg: Settings, ops: seq<Op>, id: string, key: string, strict: bool) returns (longer: seq<Op>)
    requires (strict ==> cfg.ackWindow >= 0) && Feasible(cfg, NO_BOOK, ops, 0.0) && EndOf(ops, 0.0) == 0.0
    requires id != "" && key != "" && id !in Run(cfg, NO_BOOK, ops).records
    requires !Deduplicates(Run(cfg, NO_BOOK, ops), key)
    ensures Feasible(cfg, NO_BOOK, longer, 0.0) && EndOf(longer, 0.0) == 0.0
    ensures var r := Record(key, Delivered, 0.0, if strict then Some(0.0) else None, Some(0.0), 1, 1,
                            cfg.maxAttempts, strict, !strict);
      Run(cfg, NO_BOOK, longer).records == Run(cfg, NO_BOOK, ops).records[id := r]
    ensures Run(cfg, NO_BOOK, longer).index == Run(cfg, NO_BOOK, ops).index[key := id]
  {
    hide Run, Feasible;
    longer := Extend(cfg, ops, Create(id, key, Some(1), None, !strict, 0.0));
    if strict {
      longer := Extend(cfg, longer, Op.Acknowledge(id, 0.0));
    }
    longer := Extend(cfg, longer, Op.Deliver(id, 0.0));
  }

  /** Recording n more attempts for one record changes no other. */
  lemma {:induction false} RecordMore(cfg: Settings, ops: seq<Op>, id: string, n: nat) returns (longer: seq<Op>)
    requires Feasible(cfg, NO_BOOK, ops, 0.0) && EndOf(ops, 0.0) == 0.0 && id in Run(cfg, NO_BOOK, ops).records
    ensures Feasible(cfg, NO_BOOK, longer, 0.0) && EndOf(longer, 0.0) == 0.0
    ensures var b, b' := Run(cfg, NO_BOOK, ops), Run(cfg, NO_BOOK, longer);
      var r := b.records[id];
      && b'.index == b.index
      && b'.records == b.records[id := r.(attempts := r.attempts + n,
           state := if n > 0 && r.attempts + n >= r.maxAttempts then Failed else r.state)]
  {
    longer := ops;
    if n > 0 {
      hide Run, Feasible;
      longer := RecordMore(cfg, ops, id, n - 1);
      longer := Extend(cfg, longer, RecordAttempt(id, 0.0));
    }
  }

  /** Whatever the settings, and in strict mode whenever acknowledging is possible at all, a key
      can be delivered twice. */
  lemma KeyDeliveredTwice(cfg: Settings, strict: bool) returns (ops: seq<Op>)
    requires strict ==> cfg.ackWindow >= 0
    ensures Feasible(cfg, NO_BOOK, ops, 0.0)
    ensures var records := Run(cfg, NO_BOOK, ops).records;
      && "a" in records && "b" in records && records["a"].key == records["b"].key == "k"
      && records["a"].deliveredAt.Some? && records["b"].deliveredAt.Some?
      && records["a"].requireAck == records["b"].requireAck == strict
  {
    ops := [];
    ops := DeliverOne(cfg, ops, "a", "k", strict);
    hide Run, Feasible;
    ops := RecordMore(cfg, ops, "a", if cfg.maxAttempts > 1 then cfg.maxAttempts - 1 else 1);
    ops := DeliverOne(cfg, ops, "b", "k", strict);
  }

  // ---------------------------------------------------------------------
  // When each operation succeeds, read off the fields
  // ---------------------------------------------------------------------

  /** The ack policy: strict unless asked otherwise, and refused only for asking for both. */
  lemma PolicyExactly(requireAck: Option<bool>, allowDirect: bool)
    ensures AckPolicy(requireAck, allowDirect) == None <==> requireAck == Some(true) && allowDirect
    ensures AckPolicy(requireAck, allowDirect) == Some((true, false)) <==>
      !allowDirect && requireAck != Some(false)
    ensures AckPolicy(requireAck, allowDirect) == Some((false, true)) <==>
      requireAck == Some(false) || (allowDirect && requireAck == None)
  {
  }

  /** A new record is pending and untouched, and lives as long as asked for, or as long as the
      contract says if nothing, or zero, was asked for. */
  lemma NewRecordExactly(cfg: Settings, key: string, ttl: Option<int>, policy: (bool, bool), now: real)
    ensures var r := NewRecord(cfg, key, ttl, policy, now);
      && r.key == key && r.state == Pending && r.createdAt == now
      && r.acknowledgedAt == None && r.deliveredAt == None
      && r.attempts == 0 && r.maxAttempts == cfg.maxAttempts
      && r.requireAck == policy.0 && r.allowDirect == policy.1
      && (ttl == None || ttl == Some(0) ==> r.ttl == cfg.ttl)
      && (ttl.Some? && ttl.value != 0 ==> r.ttl == ttl.value)
  {
  }

  /** When looking at a record expires it: an open one past its time to live, and a pending one that
      needs an acknowledgement past the ack window. An acknowledged one has its whole time to live. */
  lemma ExpiresExactly(cfg: Settings, r: Record, now: real)
    ensures var late := now > r.createdAt + r.ttl as real;
      var missed := r.requireAck && r.state == Pending && now > r.createdAt + cfg.ackWindow as real;
      var due := (r.state == Pending || r.state == Acknowledged) && (late || missed);
      ExpireIfNeeded(cfg, r, now) == if due then r.(state := Expired) else r
  {
  }

  /** An acknowledgement succeeds exactly for a pending record within its ack window and its time to
      live, and then records the time; otherwise the record is left alone or, if it is due, expired. */
  lemma AcknowledgesExactly(cfg: Settings, r: Record, now: real)
    ensures var (after, error) := AcknowledgeRecord(cfg, r, now);
      var inWindow := now <= r.createdAt + cfg.ackWindow as real;
      var alive := now <= r.createdAt + r.ttl as real;
      && (error == None <==> r.state == Pending && inWindow && alive)
      && (error == Some(AckWindowExpired) <==> r.state == Pending && !inWindow)
      && (error == Some(CannotAck(Expired)) <==>
            r.state == Expired || (r.state == Acknowledged && !alive) || (r.state == Pending && inWindow && !alive))
      && (error == Some(CannotAck(Acknowledged)) <==> r.state == Acknowledged && alive)
      && (r.state == Delivered || r.state == Failed ==> error == Some(CannotAck(r.state)))
      && after == (if error == None then r.(state := Acknowledged, acknowledgedAt := Some(now))
                   else if (r.state == Pending || r.state == Acknowledged) && !(inWindow && r.state == Pending && alive)
                           && !(r.state == Acknowledged && alive) then r.(state := Expired)
                   else r)
  {
  }

  /** A delivery succeeds exactly within the time to live, for a record that was acknowledged or that
      is pending and needs no acknowledgement; it then counts as an attempt. */
  lemma DeliversExactly(cfg: Settings, r: Record, now: real)
    ensures var (after, error) := DeliverRecord(cfg, r, now);
      var alive := now <= r.createdAt + r.ttl as real;
      var missed := r.requireAck && r.state == Pending && now > r.createdAt + cfg.ackWindow as real;
      && (error == None <==> alive && (r.state == Acknowledged || (r.state == Pending && !r.requireAck)))
      && (error == Some(MustAckFirst) <==> alive && r.state == Pending && r.requireAck && !missed)
      && (error == Some(CannotDeliver(Expired)) <==>
            r.state == Expired || (!alive && (r.state == Pending || r.state == Acknowledged)) || missed)
      && (r.state == Delivered || r.state == Failed ==> error == Some(CannotDeliver(r.state)))
      && after == (if error == None then r.(state := Delivered, deliveredAt := Some(now), attempts := r.attempts + 1)
                   else if error == Some(CannotDeliver(Expired)) then r.(state := Expired)
                   else r)
  {
  }

  /** Recording an attempt counts it, and fails the record at its maximum, whatever its state. */
  lemma AttemptsExactly(r: Record)
    ensures AttemptRecord(r) ==
      if r.attempts + 1 >= r.maxAttempts then r.(attempts := r.attempts + 1, state := Failed)
      else r.(attempts := r.attempts + 1)
  {
  }

  /** Creating gives back the record its key is tied to as long as that is neither marked expired nor
      failed, and otherwise makes a new one; without a key it always does. */
  lemma CreatesExactly(cfg: Settings, b: Book, op: Op)
    requires op.Create? && AckPolicy(op.requireAck, op.allowDirect).Some?
    ensures var tied := op.key != "" && op.key in b.index && b.index[op.key] != "" && b.index[op.key] in b.records
        && b.records[b.index[op.key]].state != Expired && b.records[b.index[op.key]].state != Failed;
      var made := NewRecord(cfg, op.key, op.ttl, AckPolicy(op.requireAck, op.allowDirect).value, op.at);
      Step(cfg, b, op) ==
        if tied then (b, Ok(Some(b.index[op.key])))
        else (Book(b.records[op.id := made], if op.key == "" then b.index else b.index[op.key := op.id]),
              Ok(Some(op.id)))
  {
  }

  /** Every other operation looks at one record, changes at most that, and never the index. */
  lemma TouchesExactly(cfg: Settings, b: Book, op: Op)
    requires !op.Create?
    ensures var id := if op.GetByKey? then (if op.key in b.index then b.index[op.key] else "") else op.id;
      var there := id in b.records && !(op.GetByKey? && id == "");
      var (after, answer) := Step(cfg, b, op);
      && after.index == b.index
      && (!there ==> after == b && answer == if op.Get? || op.GetByKey? then Ok(None) else Err(NotFound))
      && (there ==>
            && after.records == b.records[id := Touched(cfg, b.records[id], op).0]
            && (Touched(cfg, b.records[id], op).1.None? ==> answer == Ok(Some(id)))
            && (Touched(cfg, b.records[id], op).1.Some? ==> answer == Err(Touched(cfg, b.records[id], op).1.value)))
  {
  }

  /** Which change each operation makes to the record it looks at. */
  lemma ChangesExactly(cfg: Settings, r: Record, id: string, at: real)
    ensures Touched(cfg, r, Op.Acknowledge(id, at)) == AcknowledgeRecord(cfg, r, at)
    ensures Touched(cfg, r, Op.Deliver(id, at)) == DeliverRecord(cfg, r, at)
    ensures Touched(cfg, r, Op.RecordAttempt(id, at)) == (AttemptRecord(r), None)
    ensures Touched(cfg, r, Op.Get(id, at)) == (ExpireIfNeeded(cfg, r, at), None)
    ensures Touched(cfg, r, Op.GetByKey(id, at)) == (ExpireIfNeeded(cfg, r, at), None)
  {
  }

  /** The strict way through: a record acknowledged within its ack window is delivered at any later
      time within its time to live, however long the ack window has been over. */
  lemma AcknowledgedIsDelivered(cfg: Settings, b: Book, now: real, id: string, acked: real, delivered: real)
    requires BookOk(cfg, b, now) && now <= acked <= delivered
    requires id in b.records && b.records[id].state == Pending
    requires var r := b.records[id];
      acked <= r.createdAt + cfg.ackWindow as real && delivered <= r.createdAt + r.ttl as real
    ensures var (b1, first) := Step(cfg, b, Op.Acknowledge(id, acked));
      var (b2, second) := Step(cfg, b1, Op.Deliver(id, delivered));
      && first == Ok(Some(id)) && second == Ok(Some(id))
      && id in b2.records && b2.records[id].state == Delivered
      && b2.records[id].acknowledgedAt == Some(acked) && b2.records[id].deliveredAt == Some(delivered)
  {
    var r := b.records[id];
    AcknowledgesExactly(cfg, r, acked);
    DeliversExactly(cfg, AcknowledgeRecord(cfg, r, acked).0, delivered);
  }

  /** With the settings the contract has when none are given: acknowledged after one second, delivered
      after ten. */
  lemma DeliveredAfterTheAckWindow(id: string, key: string)
    requires id != ""
    ensures var cfg := Settings(3, 300, 3);
      var (b1, made) := Step(cfg, NO_BOOK, Op.Create(id, key, None, None, false, 0.0));
      var (b2, acked) := Step(cfg, b1, Op.Acknowledge(id, 1.0));
      made.Ok? && acked.Ok? && Step(cfg, b2, Op.Deliver(id, 10.0)).1 == Ok(Some(id))
  {
    var cfg := Settings(3, 300, 3);
    var op := Op.Create(id, key, None, None, false, 0.0);
    CreatesExactly(cfg, NO_BOOK, op);
    StepKeeps(cfg, NO_BOOK, op, 0.0);
    AcknowledgedIsDelivered(cfg, Step(cfg, NO_BOOK, op).0, 0.0, id, 1.0, 10.0);
  }
}
