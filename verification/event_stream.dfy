/** The bounded event buffer and a client that resumes from the last event it saw. */
module EventStream {
  import opened Wrappers
  import opened Numbers

  datatype Event = Event(id: string, kind: string, sequence: nat)

  /** Python's s[k:] for any k. */
  function From(s: seq<Event>, k: int): seq<Event> {
    if k >= |s| then [] else if k >= 0 then s[k..] else if -k >= |s| then s else s[|s| + k..]
  }

  /** The last n events, or all of them. */
  function Last(s: seq<Event>, n: nat): seq<Event> {
    if n >= |s| then s else s[|s| - n..]
  }

  /** Index of the first event with this id. */
  function Find(s: seq<Event>, id: string): Option<nat> {
    if s == [] then None
    else if s[0].id == id then Some(0)
    else
      var rest := Find(s[1..], id);
      if rest.None? then None else Some(rest.value + 1)
  }

  function ReplayFrom(buffer: seq<Event>, lastId: string): seq<Event> {
    match Find(buffer, lastId)
    case Some(i) => From(buffer, i + 1)
    case None => buffer
  }

  lemma {:induction false} FindFirst(s: seq<Event>, id: string)
    ensures match Find(s, id)
      case Some(i) => i < |s| && s[i].id == id && forall j :: 0 <= j < i ==> s[j].id != id
      case None => forall j :: 0 <= j < |s| ==> s[j].id != id
  {
    if s != [] && s[0].id != id {
      FindFirst(s[1..], id);
    }
  }

  lemma FindIs(s: seq<Event>, id: string, i: nat)
    requires i < |s| && s[i].id == id && forall j :: 0 <= j < |s| && j != i ==> s[j].id != id
    ensures Find(s, id) == Some(i)
  {
    FindFirst(s, id);
  }

  /** Every event ever emitted, numbered from 1. */
  ghost predicate Numbered(emitted: seq<Event>) {
    forall i :: 0 <= i < |emitted| ==> emitted[i].sequence == i + 1
  }

  class EventStreamContract {
    const maxBuffer: int
    var buffer: seq<Event>
    var sequenceCounter: nat
    ghost var emitted: seq<Event>

    /** Retention: with a positive bound the buffer is the last that many events. */
    ghost predicate Valid()
      reads this
    {
      && Numbered(emitted) && sequenceCounter == |emitted|
      && (maxBuffer >= 1 ==> buffer == Last(emitted, maxBuffer))
      && (maxBuffer == 0 ==> buffer == emitted)
    }

    constructor (maxBuffer: int)
      ensures Valid() && emitted == [] && this.maxBuffer == maxBuffer
    {
      this.maxBuffer := maxBuffer;
      buffer, sequenceCounter, emitted := [], 0, [];
    }

    method Emit(id: string, kind: string) returns (event: Event)
      requires Valid()
      modifies this
      ensures Valid()
      ensures event == Event(id, kind, |old(emitted)| + 1)
      ensures emitted == old(emitted) + [event]
      ensures maxBuffer < 0 ==> buffer == From(old(buffer) + [event], -maxBuffer)
    {
      sequenceCounter := sequenceCounter + 1;
      event := Event(id, kind, sequenceCounter);
      buffer := buffer + [event];
      emitted := emitted + [event];
      if |buffer| > maxBuffer {
        buffer := From(buffer, -maxBuffer);
      }
    }

    method Replay(lastId: string) returns (events: seq<Event>)
      ensures events == ReplayFrom(buffer, lastId)
    {
      var idx: Option<nat> := None;
      var i := 0;
      FindFirst(buffer, lastId);
      while i < |buffer|
        invariant i <= |buffer| && idx.None?
        invariant forall j :: 0 <= j < i ==> buffer[j].id != lastId
      {
        if buffer[i].id == lastId {
          idx := Some(i);
          break;
        }
        i := i + 1;
      }
      if idx.Some? {
        return From(buffer, idx.value + 1);
      }
      events := buffer;
    }
  }

  // ---------------------------------------------------------------------
  // A client that fetches now and then
  // ---------------------------------------------------------------------

  datatype Op = Emit(id: string) | Fetch

  /** Emitted so far; the id of the last event the client saw; the sequences it received. */
  datatype World = World(emitted: seq<Event>, lastId: string, received: seq<nat>)

  function Sequences(events: seq<Event>): (r: seq<nat>)
    ensures |r| == |events| && forall i :: 0 <= i < |r| ==> r[i] == events[i].sequence
  {
    seq(|events|, i requires 0 <= i < |events| => events[i].sequence)
  }

  function Step(w: World, op: Op, maxBuffer: nat): World {
    match op
    case Emit(id) => w.(emitted := w.emitted + [Event(id, "message", |w.emitted| + 1)])
    case Fetch =>
      var events := ReplayFrom(Last(w.emitted, maxBuffer), w.lastId);
      if events == [] then w
      else w.(lastId := events[|events| - 1].id, received := w.received + Sequences(events))
  }

  function Run(w: World, ops: seq<Op>, maxBuffer: nat): World {
    if ops == [] then w else Step(Run(w, ops[..|ops| - 1], maxBuffer), ops[|ops| - 1], maxBuffer)
  }

  /** Fresh ids: no event repeats another one's, or the empty id a new client starts from. */
  ghost predicate Fresh(ops: seq<Op>) {
    && (forall i :: 0 <= i < |ops| && ops[i].Emit? ==> ops[i].id != "")
    && (forall i, j :: 0 <= i < j < |ops| && ops[i].Emit? && ops[j].Emit? ==> ops[i].id != ops[j].id)
  }

  ghost predicate DistinctIds(emitted: seq<Event>) {
    forall i, j :: 0 <= i < j < |emitted| ==> emitted[i].id != emitted[j].id
  }

  function Seen(w: World): nat {
    if w.received == [] then 0 else w.received[|w.received| - 1]
  }

  /** The client is at the event it last received, and received in strictly increasing order. */
  ghost predicate Following(w: World) {
    && Numbered(w.emitted) && DistinctIds(w.emitted)
    && (forall i :: 0 <= i < |w.emitted| ==> w.emitted[i].id != "")
    && (forall i, j :: 0 <= i < j < |w.received| ==> w.received[i] < w.received[j])
    && (forall i :: 0 <= i < |w.received| ==> 1 <= w.received[i] <= |w.emitted|)
    && (if w.received == [] then w.lastId == ""
        else 1 <= Seen(w) <= |w.emitted| && w.emitted[Seen(w) - 1].id == w.lastId)
  }

  lemma FindInSuffix(emitted: seq<Event>, base: nat, p: nat, id: string)
    requires base <= p < |emitted| && emitted[p].id == id && DistinctIds(emitted)
    ensures Find(emitted[base..], id) == Some(p - base)
  {
    FindIs(emitted[base..], id, p - base);
  }

  lemma NotInSuffix(emitted: seq<Event>, base: nat, id: string)
    requires base <= |emitted| && forall i :: base <= i < |emitted| ==> emitted[i].id != id
    ensures Find(emitted[base..], id) == None
  {
    FindFirst(emitted[base..], id);
  }

  /** One fetch is exact: it returns the events after both the last one seen and the oldest one
      kept, in order and without gaps, so it skips exactly what had been dropped. */
  lemma FetchIsExact(w: World, maxBuffer: nat)
    requires Following(w) && maxBuffer >= 1
    ensures var n := |w.emitted|;
      var skipped := MaxInt(0, n - Seen(w) - maxBuffer);
      && Seen(w) + skipped <= n
      && ReplayFrom(Last(w.emitted, maxBuffer), w.lastId) == w.emitted[Seen(w) + skipped..]
  {
    hide Find, Numbered;
    var n, s := |w.emitted|, Seen(w);
    var base := if maxBuffer >= n then 0 else n - maxBuffer;
    assert Last(w.emitted, maxBuffer) == w.emitted[base..];
    if s > base {
      FindInSuffix(w.emitted, base, s - 1, w.lastId);
    } else {
      forall i | base <= i < n ensures w.emitted[i].id != w.lastId {
      }
      NotInSuffix(w.emitted, base, w.lastId);
    }
  }

  /** Fetching a suffix of the events from the one after the last seen, or from later. */
  lemma ReceiveFollows(w: World, from: nat, w': World)
    requires Following(w) && Seen(w) <= from < |w.emitted|
    requires w' == w.(lastId := w.emitted[|w.emitted| - 1].id, received := w.received + Sequences(w.emitted[from..]))
    ensures Following(w') && Seen(w') == |w.emitted|
  {
    var k := |w.received|;
    hide DistinctIds;
    assert forall i :: 0 <= i < k ==> w'.received[i] == w.received[i] <= Seen(w);
    forall i | k <= i < |w'.received| ensures w'.received[i] == from + (i - k) + 1 {
      assert w'.received[i] == w.emitted[from..][i - k].sequence;
    }
  }

  lemma FetchFollows(w: World, maxBuffer: nat)
    requires Following(w) && maxBuffer >= 1
    ensures Following(Step(w, Fetch, maxBuffer)) && Seen(Step(w, Fetch, maxBuffer)) == |w.emitted|
  {
    hide Following, ReplayFrom, Last;
    FetchIsExact(w, maxBuffer);
    var from := Seen(w) + MaxInt(0, |w.emitted| - Seen(w) - maxBuffer);
    if from < |w.emitted| {
      ReceiveFollows(w, from, Step(w, Fetch, maxBuffer));
    }
  }

  lemma EmitFollows(w: World, id: string, maxBuffer: nat)
    requires Following(w) && id != "" && forall i :: 0 <= i < |w.emitted| ==> w.emitted[i].id != id
    ensures Following(Step(w, Emit(id), maxBuffer))
  {
  }

  lemma {:induction false} EmittedByOps(ops: seq<Op>, maxBuffer: nat, k: nat)
    requires k < |Run(World([], "", []), ops, maxBuffer).emitted|
    ensures var id := Run(World([], "", []), ops, maxBuffer).emitted[k].id;
      exists i :: 0 <= i < |ops| && ops[i].Emit? && ops[i].id == id
  {
    var rest := ops[..|ops| - 1];
    var before := Run(World([], "", []), rest, maxBuffer);
    if k < |before.emitted| {
      EmittedByOps(rest, maxBuffer, k);
      var i :| 0 <= i < |rest| && rest[i].Emit? && rest[i].id == before.emitted[k].id;
      assert ops[i] == rest[i];
    } else {
      assert ops[|ops| - 1].Emit?;
    }
  }

  /** Over every run of emits and fetches the client follows: strictly increasing sequences, no
      duplicates, and after a fetch it has seen the newest event. */
  lemma {:induction false} RunFollows(ops: seq<Op>, maxBuffer: nat)
    requires Fresh(ops) && maxBuffer >= 1
    ensures Following(Run(World([], "", []), ops, maxBuffer))
    ensures ops != [] && ops[|ops| - 1].Fetch? ==>
      var w := Run(World([], "", []), ops, maxBuffer); Seen(w) == |w.emitted|
  {
    if ops != [] {
      var rest, op := ops[..|ops| - 1], ops[|ops| - 1];
      var before := Run(World([], "", []), rest, maxBuffer);
      RunFollows(rest, maxBuffer);
      forall k | op.Emit? && 0 <= k < |before.emitted| ensures before.emitted[k].id != op.id {
        EmittedByOps(rest, maxBuffer, k);
        var i :| 0 <= i < |rest| && rest[i].Emit? && rest[i].id == before.emitted[k].id;
        assert ops[i] == rest[i];
      }
      match op
      case Emit(id) => EmitFollows(before, id, maxBuffer);
      case Fetch => FetchFollows(before, maxBuffer);
    }
  }

  /** What all the fetches of a run skipped. */
  function Lost(ops: seq<Op>, maxBuffer: nat): nat {
    if ops == [] then 0
    else
      var before := Run(World([], "", []), ops[..|ops| - 1], maxBuffer);
      Lost(ops[..|ops| - 1], maxBuffer)
      + (if ops[|ops| - 1].Fetch? then MaxInt(0, |before.emitted| - Seen(before) - maxBuffer) else 0)
  }

  /** Conservation: every event up to the last one seen was either received or lost, once. */
  lemma {:induction false} ReceivedPlusLost(ops: seq<Op>, maxBuffer: nat)
    requires Fresh(ops) && maxBuffer >= 1
    ensures var w := Run(World([], "", []), ops, maxBuffer);
      |w.received| + Lost(ops, maxBuffer) == Seen(w)
  {
    if ops != [] {
      var rest, op := ops[..|ops| - 1], ops[|ops| - 1];
      ReceivedPlusLost(rest, maxBuffer);
      RunFollows(rest, maxBuffer);
      RunFollows(ops, maxBuffer);
      var before := Run(World([], "", []), rest, maxBuffer);
      if op.Fetch? {
        FetchIsExact(before, maxBuffer);
      }
    }
  }

  // ---------------------------------------------------------------------
  // Read off the positions
  // ---------------------------------------------------------------------

  /** s[k:]: without the first k events, or for a negative k the last -k of them. */
  lemma SliceExactly(s: seq<Event>, k: int)
    ensures 0 <= k <= |s| ==> From(s, k) == s[k..]
    ensures k > |s| ==> From(s, k) == []
    ensures -|s| <= k < 0 ==> From(s, k) == s[|s| + k..]
    ensures k < -|s| ==> From(s, k) == s
  {
  }

  lemma LastExactly(s: seq<Event>, n: nat)
    ensures n <= |s| ==> Last(s, n) == s[|s| - n..]
    ensures n >= |s| ==> Last(s, n) == s
  {
  }

  /** A resume gives what comes after the first event with that id, or everything if there is none. */
  lemma ReplayExactly(buffer: seq<Event>, lastId: string, i: nat)
    ensures i < |buffer| && buffer[i].id == lastId && (forall j :: 0 <= j < i ==> buffer[j].id != lastId) ==>
      ReplayFrom(buffer, lastId) == buffer[i + 1..]
    ensures (forall j :: 0 <= j < |buffer| ==> buffer[j].id != lastId) ==> ReplayFrom(buffer, lastId) == buffer
  {
    FindFirst(buffer, lastId);
  }
}
