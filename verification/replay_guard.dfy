/**
 The replay guard: a dictionary from key to time, bounded by a window and a cap
 and evicted lazily, against the plain log of everything it ever accepted.

 A Python dict keeps insertion order, so the dictionary is a sequence of entries
 with distinct keys.
 */
module ReplayGuard {
  datatype Entry = Entry(key: string, at: real)

  function Keys(s: seq<Entry>): set<string> {
    set e | e in s :: e.key
  }

  ghost predicate Chronological(s: seq<Entry>) {
    forall i, j :: 0 <= i < j < |s| ==> s[i].at <= s[j].at
  }

  ghost predicate NotAfter(s: seq<Entry>, now: real) {
    s != [] ==> s[|s| - 1].at <= now
  }

  ghost predicate Distinct(s: seq<Entry>) {
    forall i, j :: 0 <= i < j < |s| ==> s[i].key != s[j].key
  }

  // ---------------------------------------------------------------------
  // The specification: a log and what of it still counts
  // ---------------------------------------------------------------------

  function Since(s: seq<Entry>, cutoff: real): seq<Entry> {
    if s == [] then []
    else (if s[0].at < cutoff then [] else [s[0]]) + Since(s[1..], cutoff)
  }

  function LastN(s: seq<Entry>, n: int): seq<Entry> {
    if n <= 0 then [] else if n >= |s| then s else s[|s| - n..]
  }

  /** Accepted within the window, and among the last `cap` accepted. */
  function Counting(log: seq<Entry>, now: real, window: int, cap: int): seq<Entry> {
    LastN(Since(log, now - window as real), cap)
  }

  predicate IsNew(log: seq<Entry>, key: string, now: real, window: int, cap: int) {
    key !in Keys(Counting(log, now, window, cap))
  }

  function Accept(log: seq<Entry>, key: string, now: real, window: int, cap: int): seq<Entry> {
    if IsNew(log, key, now, window, cap) then log + [Entry(key, now)] else log
  }

  // Everything that counts is an end of the log, so it is known by its length.

  function Tail(s: seq<Entry>, n: nat): (r: seq<Entry>)
    requires n <= |s|
    ensures |r| == n
  {
    s[|s| - n..]
  }

  function Keep(n: nat, cap: int): nat {
    if cap <= 0 then 0 else if n <= cap then n else cap
  }

  lemma LastNOfTail(s: seq<Entry>, n: nat, cap: int)
    requires n <= |s|
    ensures LastN(Tail(s, n), cap) == Tail(s, Keep(n, cap))
  {
  }

  lemma {:induction false} SinceFrom(s: seq<Entry>, cutoff: real, k: nat)
    requires k <= |s|
    requires forall i :: 0 <= i < k ==> s[i].at < cutoff
    requires forall i :: k <= i < |s| ==> s[i].at >= cutoff
    ensures Since(s, cutoff) == s[k..]
  {
    if s != [] {
      SinceFrom(s[1..], cutoff, if k > 0 then k - 1 else 0);
    }
  }

  /** How many entries at the front are too old. */
  function TooOld(s: seq<Entry>, cutoff: real): nat {
    if s == [] || s[0].at >= cutoff then 0 else 1 + TooOld(s[1..], cutoff)
  }

  lemma {:induction false} TooOldIsCut(s: seq<Entry>, cutoff: real)
    requires Chronological(s)
    ensures TooOld(s, cutoff) <= |s|
    ensures forall i :: 0 <= i < |s| ==> (s[i].at < cutoff <==> i < TooOld(s, cutoff))
  {
    if s != [] && s[0].at < cutoff {
      var t := s[1..];
      assert forall i :: 0 <= i < |t| ==> t[i] == s[i + 1];
      TooOldIsCut(t, cutoff);
    }
  }

  /** In time order, what is recent enough is what comes last. */
  lemma SinceIsTail(s: seq<Entry>, cutoff: real)
    requires Chronological(s)
    ensures |Since(s, cutoff)| <= |s| && Since(s, cutoff) == Tail(s, |Since(s, cutoff)|)
    ensures forall i :: 0 <= i < |s| ==> (s[i].at < cutoff <==> i < |s| - |Since(s, cutoff)|)
  {
    hide Since, TooOld, Chronological;
    TooOldIsCut(s, cutoff);
    SinceFrom(s, cutoff, TooOld(s, cutoff));
  }

  lemma SinceOfTail(s: seq<Entry>, n: nat, cutoff: real)
    requires Chronological(s) && n <= |s|
    ensures |Since(s, cutoff)| <= |s|
    ensures Since(Tail(s, n), cutoff) == Tail(s, if n < |Since(s, cutoff)| then n else |Since(s, cutoff)|)
  {
    hide Since, Chronological;
    SinceIsTail(s, cutoff);
    var t, r := Tail(s, n), |Since(s, cutoff)|;
    assert forall i :: 0 <= i < n ==> t[i] == s[|s| - n + i];
    SinceFrom(t, cutoff, if n < r then 0 else n - r);
  }

  lemma {:induction false} SinceShrinks(s: seq<Entry>, early: real, late: real)
    requires early <= late
    ensures |Since(s, late)| <= |Since(s, early)|
  {
    if s != [] {
      SinceShrinks(s[1..], early, late);
    }
  }

  lemma CountingIsTail(log: seq<Entry>, now: real, window: int, cap: int)
    requires Chronological(log)
    ensures var n := Keep(|Since(log, now - window as real)|, cap);
      n <= |log| && Counting(log, now, window, cap) == Tail(log, n)
  {
    SinceIsTail(log, now - window as real);
    LastNOfTail(log, |Since(log, now - window as real)|, cap);
  }

  /** The entry at p is within the window and among the last `cap`. */
  predicate CountsAt(log: seq<Entry>, p: nat, now: real, window: int, cap: int)
    requires p < |log|
  {
    now - log[p].at <= window as real && |log| - p - 1 < cap
  }

  lemma CountingFrom(log: seq<Entry>, now: real, window: int, cap: int)
    requires Chronological(log)
    ensures var k := |log| - |Counting(log, now, window, cap)|;
      && 0 <= k && Counting(log, now, window, cap) == log[k..]
      && forall p :: 0 <= p < |log| ==> (CountsAt(log, p, now, window, cap) <==> k <= p)
  {
    hide Since, LastN, Chronological;
    SinceIsTail(log, now - window as real);
    CountingIsTail(log, now, window, cap);
  }

  /** What the guard answers, read off the plain log: a key is new unless one of its entries still
      counts. */
  lemma IsNewExactly(log: seq<Entry>, key: string, now: real, window: int, cap: int)
    requires Chronological(log)
    ensures IsNew(log, key, now, window, cap) <==>
      forall p :: 0 <= p < |log| && log[p].key == key ==> !CountsAt(log, p, now, window, cap)
  {
    hide Counting, Chronological, CountsAt;
    CountingFrom(log, now, window, cap);
    var k := |log| - |Counting(log, now, window, cap)|;
    KeysFrom(log, k, key);
  }

  lemma KeysFrom(s: seq<Entry>, k: nat, key: string)
    requires k <= |s|
    ensures key in Keys(s[k..]) <==> exists p :: k <= p < |s| && s[p].key == key
  {
    if key in Keys(s[k..]) {
      var e :| e in s[k..] && e.key == key;
      var q :| 0 <= q < |s| - k && s[k..][q] == e;
      assert s[k + q].key == key;
    }
    if p :| k <= p < |s| && s[p].key == key {
      assert s[p] == s[k..][p - k];
      assert s[p] in s[k..];
    }
  }

  lemma LastNOfShort(s: seq<Entry>, n: int)
    requires |s| <= n
    ensures LastN(s, n) == s
  {
  }

  /** What counts is within the window. */
  lemma CountingIsRecent(log: seq<Entry>, now: real, window: int, cap: int, e: Entry)
    requires Chronological(log) && e in Counting(log, now, window, cap)
    ensures now - e.at <= window as real
  {
    SinceIsTail(log, now - window as real);
    CountingIsTail(log, now, window, cap);
  }

  lemma LogGrows(log: seq<Entry>, key: string, now: real)
    requires Chronological(log) && NotAfter(log, now)
    ensures Chronological(log + [Entry(key, now)])
    ensures NotAfter(log + [Entry(key, now)], now)
  {
    var log' := log + [Entry(key, now)];
    forall i, j | 0 <= i < j < |log'| ensures log'[i].at <= log'[j].at {
      assert log'[i] == log[i];
    }
  }

  /** A new entry at the end: with a window that is not negative it counts from the start. */
  lemma SinceGrows(log: seq<Entry>, key: string, now: real, window: int)
    requires Chronological(log) && NotAfter(log, now)
    ensures var log' := log + [Entry(key, now)];
      Since(log', now - window as real) ==
        if window >= 0 then Since(log, now - window as real) + [Entry(key, now)] else []
  {
    hide Since;
    var cutoff := now - window as real;
    var log' := log + [Entry(key, now)];
    SinceIsTail(log, cutoff);
    var k := |log| - |Since(log, cutoff)|;
    forall i | 0 <= i < |log| ensures log'[i] == log[i] && log'[i].at <= now {
    }
    SinceFrom(log', cutoff, if window >= 0 then k else |log'|);
  }

  lemma {:induction false} SinceIn(s: seq<Entry>, cutoff: real, e: Entry)
    ensures e in Since(s, cutoff) <==> e in s && e.at >= cutoff
  {
    if s != [] {
      SinceIn(s[1..], cutoff, e);
      assert s == [s[0]] + s[1..];
    }
  }

  lemma {:induction false} SinceTwice(s: seq<Entry>, early: real, late: real)
    requires early <= late
    ensures Since(Since(s, early), late) == Since(s, late)
  {
    if s != [] {
      SinceTwice(s[1..], early, late);
      var rest := Since(s[1..], early);
      if s[0].at >= early {
        assert Since(s, early)[1..] == rest;
      } else {
        assert [] + rest == rest && [] + Since(s[1..], late) == Since(s[1..], late);
      }
    }
  }

  lemma {:induction false} SinceAppend(s: seq<Entry>, e: Entry, cutoff: real)
    ensures Since(s + [e], cutoff) == Since(s, cutoff) + (if e.at < cutoff then [] else [e])
  {
    if s == [] {
      assert s + [e] == [e] && [e][1..] == [];
    } else {
      SinceAppend(s[1..], e, cutoff);
      assert (s + [e])[0] == s[0] && (s + [e])[1..] == s[1..] + [e];
      var first := if s[0].at < cutoff then [] else [s[0]];
      var last := if e.at < cutoff then [] else [e];
      assert first + (Since(s[1..], cutoff) + last) == first + Since(s[1..], cutoff) + last;
    }
  }

  /** The window and the cap cut the same end, so their order does not matter. */
  lemma SinceOfLastN(s: seq<Entry>, n: int, cutoff: real)
    requires Chronological(s)
    ensures Since(LastN(s, n), cutoff) == LastN(Since(s, cutoff), n)
  {
    hide Since, Chronological;
    var k := Keep(|s|, n);
    LastNOfTail(s, |s|, n);
    assert Tail(s, |s|) == s;
    SinceOfTail(s, k, cutoff);
    SinceIsTail(s, cutoff);
    LastNOfTail(s, |Since(s, cutoff)|, n);
  }

  lemma LastNTwice(s: seq<Entry>, e: Entry, n: int)
    ensures LastN(LastN(s, n), n) == LastN(s, n)
    ensures LastN(LastN(s, n) + [e], n) == LastN(s + [e], n)
  {
    if 0 < n < |s| {
      var last := s[|s| - n..];
      assert last + [e] == (s + [e])[|s| - n..];
      assert (last + [e])[1..] == (s + [e])[|s| + 1 - n..];
    }
  }

  // ---------------------------------------------------------------------
  // The dictionary operations
  // ---------------------------------------------------------------------

  /** d.pop(key) on the entry sequence. */
  function Without(s: seq<Entry>, key: string): seq<Entry> {
    if s == [] then []
    else if s[0].key == key then s[1..]
    else [s[0]] + Without(s[1..], key)
  }

  /** d[key] = at: in place for a key that is there, at the end for a new one. */
  function Put(s: seq<Entry>, key: string, at: real): seq<Entry> {
    if s == [] then [Entry(key, at)]
    else if s[0].key == key then [Entry(key, at)] + s[1..]
    else [s[0]] + Put(s[1..], key, at)
  }

  function TimeOf(s: seq<Entry>, key: string): real
    requires key in Keys(s)
  {
    if s[0].key == key then s[0].at else TimeOf(s[1..], key)
  }

  /** sorted(items, key=time): stable insertion sort. */
  function Insert(e: Entry, s: seq<Entry>): seq<Entry> {
    if s == [] || e.at <= s[0].at then [e] + s else [s[0]] + Insert(e, s[1..])
  }

  function SortByTime(s: seq<Entry>): seq<Entry> {
    if s == [] then [] else Insert(s[0], SortByTime(s[1..]))
  }

  // ---------------------------------------------------------------------
  // The dictionary in time order
  // ---------------------------------------------------------------------

  lemma {:induction false} InsertSorts(e: Entry, s: seq<Entry>)
    requires Chronological(s)
    ensures Chronological(Insert(e, s)) && multiset(Insert(e, s)) == multiset(s) + multiset{e}
    ensures Insert(e, s) != [] && (Insert(e, s)[0] == e || (s != [] && Insert(e, s)[0] == s[0]))
  {
    if s != [] {
      assert s == [s[0]] + s[1..];
      if s[0].at < e.at {
        InsertSorts(e, s[1..]);
        ChronologicalCons(s[0], Insert(e, s[1..]));
      } else {
        ChronologicalCons(e, s);
      }
    }
  }

  lemma ChronologicalCons(e: Entry, s: seq<Entry>)
    requires Chronological(s) && (s != [] ==> e.at <= s[0].at)
    ensures Chronological([e] + s)
  {
  }

  lemma {:induction false} SortBag(s: seq<Entry>)
    ensures Chronological(SortByTime(s)) && multiset(SortByTime(s)) == multiset(s)
  {
    if s != [] {
      hide Insert, Chronological;
      SortBag(s[1..]);
      InsertSorts(s[0], SortByTime(s[1..]));
      assert s == [s[0]] + s[1..];
      assert multiset(s) == multiset{s[0]} + multiset(s[1..]);
    }
  }

  lemma SameBag(s: seq<Entry>, t: seq<Entry>)
    requires multiset(s) == multiset(t)
    ensures |s| == |t| && forall e :: e in s <==> e in t
  {
    assert |multiset(s)| == |s| && |multiset(t)| == |t|;
    forall e ensures e in s <==> e in t {
      assert e in multiset(s) <==> e in multiset(t);
    }
  }

  /** The same entries, in time order. */
  lemma SortSorts(s: seq<Entry>)
    ensures Chronological(SortByTime(s)) && |SortByTime(s)| == |s| && forall e :: e in SortByTime(s) <==> e in s
  {
    hide SortByTime, Chronological;
    SortBag(s);
    SameBag(SortByTime(s), s);
  }

  /** The sort has nothing to do on what is in time order, ties included. */
  lemma {:induction false} SortKeepsChronological(s: seq<Entry>)
    requires Chronological(s)
    ensures SortByTime(s) == s
  {
    if s != [] {
      SortKeepsChronological(s[1..]);
    }
  }

  lemma {:induction false} InsertSince(e: Entry, s: seq<Entry>, cutoff: real)
    requires Chronological(s)
    ensures Since(Insert(e, s), cutoff) == if e.at < cutoff then Since(s, cutoff) else Insert(e, Since(s, cutoff))
  {
    if s == [] || e.at <= s[0].at {
      assert ([e] + s)[1..] == s;
      if s != [] && e.at >= cutoff {
        assert Since(s, cutoff)[0] == s[0];
      }
    } else {
      InsertSince(e, s[1..], cutoff);
      assert ([s[0]] + Insert(e, s[1..]))[1..] == Insert(e, s[1..]);
      if s[0].at >= cutoff {
        assert Since(s, cutoff)[1..] == Since(s[1..], cutoff);
      } else if e.at >= cutoff {
        assert Since(s, cutoff) == Since(s[1..], cutoff);
      }
    }
  }

  lemma {:induction false} SortSince(s: seq<Entry>, cutoff: real)
    ensures SortByTime(Since(s, cutoff)) == Since(SortByTime(s), cutoff)
  {
    if s != [] {
      hide Insert;
      SortSince(s[1..], cutoff);
      SortSorts(s[1..]);
      InsertSince(s[0], SortByTime(s[1..]), cutoff);
      if s[0].at >= cutoff {
        assert Since(s, cutoff)[1..] == Since(s[1..], cutoff);
      } else {
        assert Since(s, cutoff) == Since(s[1..], cutoff);
      }
    }
  }

  lemma {:induction false} InsertWithout(e: Entry, s: seq<Entry>, key: string)
    requires Chronological(s) && e.key != key
    ensures Without(Insert(e, s), key) == Insert(e, Without(s, key))
  {
    if s == [] || e.at <= s[0].at {
      assert ([e] + s)[1..] == s;
    } else {
      assert ([s[0]] + Insert(e, s[1..]))[1..] == Insert(e, s[1..]);
      InsertWithout(e, s[1..], key);
      if s[0].key != key {
        assert Without(s, key)[1..] == Without(s[1..], key);
      }
    }
  }

  lemma {:induction false} InsertWithoutSelf(e: Entry, s: seq<Entry>)
    requires e.key !in Keys(s)
    ensures Without(Insert(e, s), e.key) == s
  {
    if s == [] || e.at <= s[0].at {
      assert ([e] + s)[1..] == s;
    } else {
      assert s[0] in s && forall x :: x in s[1..] ==> x in s;
      assert ([s[0]] + Insert(e, s[1..]))[1..] == Insert(e, s[1..]);
      InsertWithoutSelf(e, s[1..]);
    }
  }

  lemma {:induction false} SortWithout(s: seq<Entry>, key: string)
    requires Distinct(s)
    ensures SortByTime(Without(s, key)) == Without(SortByTime(s), key)
  {
    if s != [] {
      hide Insert;
      SortWithout(s[1..], key);
      SortSorts(s[1..]);
      DistinctHead(s);
      if s[0].key == key {
        InsertWithoutSelf(s[0], SortByTime(s[1..]));
      } else {
        InsertWithout(s[0], SortByTime(s[1..]), key);
        assert Without(s, key)[1..] == Without(s[1..], key);
      }
    }
  }

  lemma DistinctHead(s: seq<Entry>)
    requires Distinct(s) && s != []
    ensures Distinct(s[1..]) && s[0].key !in Keys(s[1..])
  {
    assert forall i :: 0 <= i < |s| - 1 ==> s[1..][i] == s[i + 1];
  }

  lemma DistinctCons(e: Entry, s: seq<Entry>)
    requires Distinct(s) && e.key !in Keys(s)
    ensures Distinct([e] + s)
  {
    assert forall i :: 0 <= i < |s| ==> s[i].key in Keys(s);
  }

  lemma {:induction false} InsertLast(e: Entry, s: seq<Entry>)
    requires forall x :: x in s ==> x.at < e.at
    ensures Insert(e, s) == s + [e]
  {
    if s != [] {
      assert s[0] in s;
      assert forall x :: x in s[1..] ==> x in s;
      InsertLast(e, s[1..]);
    }
  }

  lemma {:induction false} InsertBeforeLast(e: Entry, s: seq<Entry>, last: Entry)
    requires e.at <= last.at
    ensures Insert(e, s + [last]) == Insert(e, s) + [last]
  {
    if s != [] {
      assert (s + [last])[1..] == s[1..] + [last];
      InsertBeforeLast(e, s[1..], last);
    }
  }

  /** Writing a key in place keeps its old place in the dictionary, but in time order the new entry
      comes last, as long as an overwritten one leaves no entry of the same time. */
  lemma {:induction false} SortPut(s: seq<Entry>, key: string, at: real)
    requires Distinct(s)
    requires forall e :: e in s ==> e.at <= at
    requires key in Keys(s) ==> forall e :: e in s ==> e.at < at
    ensures SortByTime(Put(s, key, at)) == Without(SortByTime(s), key) + [Entry(key, at)]
  {
    if s != [] {
      hide Insert;
      var head, rest := s[0], s[1..];
      assert s == [head] + rest;
      DistinctHead(s);
      SortSorts(rest);
      if head.key == key {
        assert head.key in Keys(s);
        InsertWithoutSelf(head, SortByTime(rest));
        InsertLast(Entry(key, at), SortByTime(rest));
        assert ([Entry(key, at)] + rest)[1..] == rest;
      } else {
        assert key in Keys(rest) ==> key in Keys(s);
        SortPut(rest, key, at);
        InsertWithout(head, SortByTime(rest), key);
        InsertBeforeLast(head, Without(SortByTime(rest), key), Entry(key, at));
        assert Put(s, key, at)[1..] == Put(rest, key, at);
      }
    }
  }

  lemma {:induction false} PutIn(s: seq<Entry>, key: string, at: real)
    ensures forall e :: e in Put(s, key, at) ==> e in s || e == Entry(key, at)
  {
    if s != [] {
      PutIn(s[1..], key, at);
      assert s == [s[0]] + s[1..];
    }
  }

  lemma {:induction false} PutDistinct(s: seq<Entry>, key: string, at: real)
    requires Distinct(s)
    ensures Distinct(Put(s, key, at))
  {
    if s != [] {
      hide Distinct;
      DistinctHead(s);
      if s[0].key == key {
        DistinctCons(Entry(key, at), s[1..]);
      } else {
        PutDistinct(s[1..], key, at);
        PutIn(s[1..], key, at);
        DistinctCons(s[0], Put(s[1..], key, at));
      }
    }
  }

  lemma {:induction false} WithoutKeys(s: seq<Entry>, key: string)
    requires Distinct(s)
    ensures Distinct(Without(s, key)) && key !in Keys(Without(s, key))
    ensures forall e :: e in Without(s, key) <==> e in s && e.key != key
  {
    if s != [] {
      DistinctHead(s);
      WithoutKeys(s[1..], key);
      assert s == [s[0]] + s[1..];
      if s[0].key != key {
        assert s[0].key !in Keys(Without(s[1..], key));
        DistinctCons(s[0], Without(s[1..], key));
      }
    }
  }

  lemma {:induction false} SinceKeys(s: seq<Entry>, cutoff: real)
    requires Distinct(s)
    ensures Distinct(Since(s, cutoff))
  {
    if s != [] {
      DistinctHead(s);
      SinceKeys(s[1..], cutoff);
      forall e ensures e in Since(s[1..], cutoff) ==> e in s[1..] {
        SinceIn(s[1..], cutoff, e);
      }
      assert s[0].key !in Keys(Since(s[1..], cutoff));
      DistinctCons(s[0], Since(s[1..], cutoff));
      assert [] + Since(s[1..], cutoff) == Since(s[1..], cutoff);
    }
  }

  /** The keys the first loop of an eviction collects. */
  function ExpiredKeys(s: seq<Entry>, cutoff: real): seq<string> {
    if s == [] then []
    else (if s[0].at < cutoff then [s[0].key] else []) + ExpiredKeys(s[1..], cutoff)
  }

  function WithoutAll(s: seq<Entry>, keys: seq<string>): seq<Entry>
    decreases |keys|
  {
    if keys == [] then s else WithoutAll(Without(s, keys[0]), keys[1..])
  }

  lemma {:induction false} WithoutAllKeepsHead(e: Entry, s: seq<Entry>, keys: seq<string>)
    requires e.key !in keys
    ensures WithoutAll([e] + s, keys) == [e] + WithoutAll(s, keys)
    decreases |keys|
  {
    if keys != [] {
      assert ([e] + s)[1..] == s;
      assert keys[0] in keys && forall k :: k in keys[1..] ==> k in keys;
      WithoutAllKeepsHead(e, Without(s, keys[0]), keys[1..]);
    }
  }

  lemma {:induction false} ExpiredKeysIn(s: seq<Entry>, cutoff: real)
    ensures forall k :: k in ExpiredKeys(s, cutoff) ==> k in Keys(s)
  {
    if s != [] {
      ExpiredKeysIn(s[1..], cutoff);
      assert s == [s[0]] + s[1..];
      assert Keys(s) == {s[0].key} + Keys(s[1..]);
    }
  }

  /** Deleting the expired keys one by one leaves the entries within the window. */
  lemma {:induction false} WithoutExpired(s: seq<Entry>, cutoff: real)
    requires Distinct(s)
    ensures WithoutAll(s, ExpiredKeys(s, cutoff)) == Since(s, cutoff)
  {
    if s != [] {
      hide Keys;
      DistinctHead(s);
      WithoutExpired(s[1..], cutoff);
      ExpiredKeysIn(s[1..], cutoff);
      var keys := ExpiredKeys(s[1..], cutoff);
      if s[0].at < cutoff {
        assert ([s[0].key] + keys)[1..] == keys;
        assert [] + Since(s[1..], cutoff) == Since(s[1..], cutoff);
      } else {
        assert [] + keys == keys && s == [s[0]] + s[1..];
        WithoutAllKeepsHead(s[0], s[1..], keys);
      }
    }
  }

  // ---------------------------------------------------------------------
  // What the guard remembers
  // ---------------------------------------------------------------------

  /** In time order, what is within the window of the dictionary is exactly what counts of the log. */
  ghost predicate Remembers(seen: seq<Entry>, log: seq<Entry>, clock: real, window: int, cap: int) {
    && Chronological(log) && NotAfter(log, clock)
    && Distinct(seen) && (forall e :: e in seen ==> e.at <= clock)
    && Since(SortByTime(seen), clock - window as real) == Counting(log, clock, window, cap)
    && LastN(SortByTime(seen), cap) == SortByTime(seen)
  }

  /** A later window cuts both the same way. */
  lemma CountingLater(seen: seq<Entry>, log: seq<Entry>, clock: real, later: real, window: int, cap: int)
    requires Remembers(seen, log, clock, window, cap) && clock <= later
    ensures Since(SortByTime(seen), later - window as real) == Counting(log, later, window, cap)
  {
    hide Since, LastN, SortByTime, Distinct;
    var early, late := clock - window as real, later - window as real;
    SinceTwice(SortByTime(seen), early, late);
    ChronologicalSince(log, early);
    SinceOfLastN(Since(log, early), cap, late);
    SinceTwice(log, early, late);
  }

  lemma ChronologicalSince(s: seq<Entry>, cutoff: real)
    requires Chronological(s)
    ensures Chronological(Since(s, cutoff))
  {
    SinceIsTail(s, cutoff);
  }

  lemma RemembersLater(seen: seq<Entry>, log: seq<Entry>, clock: real, later: real, window: int, cap: int)
    requires Remembers(seen, log, clock, window, cap) && clock <= later
    ensures Remembers(seen, log, later, window, cap)
  {
    hide Since, LastN, SortByTime, Distinct;
    CountingLater(seen, log, clock, later, window, cap);
  }

  /** An eviction leaves, in time order, exactly what counts at that time. */
  lemma EvictionRemembers(seen: seq<Entry>, log: seq<Entry>, clock: real, now: real, window: int, cap: int,
                          left: seq<Entry>)
    requires Remembers(seen, log, clock, window, cap) && clock <= now
    requires Distinct(left) && SortByTime(left) == LastN(Since(SortByTime(seen), now - window as real), cap)
    ensures SortByTime(left) == Counting(log, now, window, cap)
    ensures Remembers(left, log, now, window, cap)
    ensures forall e :: e in left ==> e.at <= clock && now - e.at <= window as real
  {
    hide Since, LastN, SortByTime, Distinct, Chronological;
    var cutoff := now - window as real;
    CountingLater(seen, log, clock, now, window, cap);
    LastNTwice(Since(log, cutoff), Entry("", 0.0), cap);
    ChronologicalSince(log, cutoff);
    SinceOfLastN(Since(log, cutoff), cap, cutoff);
    SinceTwice(log, cutoff, cutoff);
    forall e | e in left ensures e.at <= clock && now - e.at <= window as real {
      SortSorts(left);
      SortSorts(seen);
      SinceIn(SortByTime(seen), cutoff, e);
    }
  }

  /** A key is remembered as recent exactly when it is not new to the log. */
  lemma RecentIsNotNew(seen: seq<Entry>, log: seq<Entry>, now: real, window: int, cap: int, key: string)
    requires Remembers(seen, log, now, window, cap)
    ensures IsNew(log, key, now, window, cap) <==> forall e :: e in seen && e.key == key ==> now - e.at > window as real
  {
    hide Since, LastN, SortByTime, Distinct, Chronological;
    var recent := Since(SortByTime(seen), now - window as real);
    SortSorts(seen);
    forall e ensures e in recent <==> e in seen && now - e.at <= window as real {
      SinceIn(SortByTime(seen), now - window as real, e);
    }
  }

  lemma {:induction false} SinceWithout(s: seq<Entry>, key: string, cutoff: real)
    requires forall e :: e in s && e.key == key ==> e.at < cutoff
    ensures Since(Without(s, key), cutoff) == Since(s, cutoff)
  {
    if s != [] {
      assert s == [s[0]] + s[1..];
      if s[0].key != key {
        SinceWithout(s[1..], key, cutoff);
        assert Without(s, key)[1..] == Without(s[1..], key);
      }
    }
  }

  lemma {:induction false} WithoutChronological(s: seq<Entry>, key: string)
    requires Chronological(s)
    ensures Chronological(Without(s, key)) && forall e :: e in Without(s, key) ==> e in s
  {
    if s != [] {
      assert s == [s[0]] + s[1..];
      if s[0].key != key {
        WithoutChronological(s[1..], key);
        var rest := Without(s[1..], key);
        assert rest != [] ==> rest[0] in s[1..];
        ChronologicalCons(s[0], rest);
      }
    }
  }

  /** In time order a new entry comes last; what it overwrites did not count any more. */
  lemma RecordedSince(order: seq<Entry>, e: Entry, cutoff: real)
    requires Chronological(order) && forall x :: x in order ==> x.at <= e.at && (x.key == e.key ==> x.at < cutoff)
    ensures Chronological(Without(order, e.key) + [e])
    ensures Since(Without(order, e.key) + [e], cutoff) == Since(order, cutoff) + (if e.at < cutoff then [] else [e])
  {
    hide Since, Without, Chronological;
    SinceWithout(order, e.key, cutoff);
    WithoutChronological(order, e.key);
    LogGrows(Without(order, e.key), e.key, e.at);
    SinceAppend(Without(order, e.key), e, cutoff);
  }

  /** Recording a new key, over an expired entry of its own if there is one, and capping the
      dictionary is remembering the longer log. */
  lemma RecordingRemembers(seen: seq<Entry>, log: seq<Entry>, key: string, now: real, window: int, cap: int,
                           left: seq<Entry>)
    requires Remembers(seen, log, now, window, cap) && IsNew(log, key, now, window, cap)
    requires Distinct(left) && (forall e :: e in left ==> e.at <= now)
    requires SortByTime(left) == LastN(Without(SortByTime(seen), key) + [Entry(key, now)], cap)
    ensures Remembers(left, log + [Entry(key, now)], now, window, cap)
  {
    hide Since, LastN, SortByTime, Distinct, Without, Chronological;
    var e, cutoff, order := Entry(key, now), now - window as real, SortByTime(seen);
    SortSorts(seen);
    RecentIsNotNew(seen, log, now, window, cap, key);
    RecordedSince(order, e, cutoff);
    SinceOfLastN(Without(order, key) + [e], cap, cutoff);
    LogGrows(log, key, now);
    SinceGrows(log, key, now, window);
    LastNTwice(Since(log, cutoff), e, cap);
    LastNTwice(Without(order, key) + [e], e, cap);
    if window < 0 {
      NothingSince(order, cutoff);
    }
  }

  lemma {:induction false} NothingSince(s: seq<Entry>, cutoff: real)
    requires forall e :: e in s ==> e.at < cutoff
    ensures Since(s, cutoff) == []
  {
    if s != [] {
      assert s == [s[0]] + s[1..];
      NothingSince(s[1..], cutoff);
    }
  }

  lemma {:induction false} TimeOfIn(s: seq<Entry>, key: string)
    requires key in Keys(s)
    ensures Entry(key, TimeOf(s, key)) in s
  {
    if s[0].key != key {
      var e :| e in s && e.key == key;
      assert e in s[1..];
      TimeOfIn(s[1..], key);
    }
  }

  lemma DistinctEntry(s: seq<Entry>, key: string, e: Entry)
    requires Distinct(s) && key in Keys(s) && e in s && e.key == key
    ensures e == Entry(key, TimeOf(s, key))
  {
    TimeOfIn(s, key);
  }

  // ---------------------------------------------------------------------
  // The guard
  // ---------------------------------------------------------------------

  class ReplayGuard {
    const windowSec: int
    const maxEntries: int
    var seen: seq<Entry>
    ghost var log: seq<Entry>     // everything ever accepted
    ghost var clock: real         // the last reading of the clock

    ghost predicate Valid()
      reads this
    {
      Remembers(seen, log, clock, windowSec, maxEntries)
    }

    constructor (windowSec: int, maxEntries: int)
      ensures Valid() && seen == [] && log == [] && clock == 0.0
      ensures this.windowSec == windowSec && this.maxEntries == maxEntries
    {
      this.windowSec, this.maxEntries := windowSec, maxEntries;
      seen, log, clock := [], [], 0.0;
    }

    method EnforceCap()
      requires Distinct(seen)
      modifies this`seen
      ensures Distinct(seen) && SortByTime(seen) == LastN(SortByTime(old(seen)), maxEntries)
      ensures forall e :: e in seen ==> e in old(seen)
    {
      hide SortByTime, Distinct, Without;
      SortSorts(seen);
      if |seen| > maxEntries {
        var sortedItems := SortByTime(seen);
        var excess := |seen| - maxEntries;
        var doomed := if excess < |sortedItems| then sortedItems[..excess] else sortedItems;
        for i := 0 to |doomed|
          invariant Distinct(seen) && SortByTime(seen) == sortedItems[i..]
          invariant forall e :: e in seen ==> e in old(seen)
        {
          SortWithout(seen, doomed[i].key);
          WithoutKeys(seen, doomed[i].key);
          WithoutFirst(sortedItems[i..]);
          seen := Without(seen, doomed[i].key);
        }
      }
    }

    method EvictExpired(now: real)
      requires Distinct(seen)
      modifies this`seen
      ensures Distinct(seen)
      ensures SortByTime(seen) == LastN(Since(SortByTime(old(seen)), now - windowSec as real), maxEntries)
    {
      hide SortByTime, Distinct, Without, Since, LastN, ExpiredKeys, WithoutAll;
      var cutoff := now - windowSec as real;
      var items := seen;
      var expired: seq<string> := [];
      ExpiredKeysEnd(items, cutoff);
      for i := 0 to |items|
        invariant seen == items
        invariant expired + ExpiredKeys(items[i..], cutoff) == ExpiredKeys(items, cutoff)
      {
        ExpiredKeysStep(items, i, cutoff);
        if items[i].at < cutoff {
          expired := expired + [items[i].key];
        }
      }
      assert expired + [] == expired;
      assert expired == ExpiredKeys(items, cutoff);
      WithoutExpired(items, cutoff);
      assert expired[0..] == expired;
      for i := 0 to |expired|
        invariant WithoutAll(seen, expired[i..]) == Since(old(seen), cutoff)
      {
        WithoutAllStep(seen, expired, i);
        seen := Without(seen, expired[i]);
      }
      WithoutAllEnd(seen, expired);
      SinceKeys(old(seen), cutoff);
      SortSince(old(seen), cutoff);
      EnforceCap();
    }

    /** True for a key that is new. The clock is read twice: for the eviction, and again for the
        comparison and the new entry. */
    method CheckAndRecord(key: string, evicting: real, now: real) returns (isNew: bool)
      requires Valid() && clock <= evicting <= now
      modifies this
      ensures Valid() && clock == now
      ensures isNew == IsNew(old(log), key, now, windowSec, maxEntries)
      ensures log == Accept(old(log), key, now, windowSec, maxEntries)
      ensures Since(SortByTime(seen), now - windowSec as real) == Counting(log, now, windowSec, maxEntries)
      ensures SortByTime(seen) ==
        var left := Counting(old(log), evicting, windowSec, maxEntries);
        if isNew then LastN(Without(left, key) + [Entry(key, now)], maxEntries) else left
    {
      hide Since, LastN, SortByTime, Chronological, Distinct, Without, Remembers;
      RemembersParts(seen, log, clock, windowSec, maxEntries);
      EvictExpired(evicting);
      EvictionRemembers(old(seen), log, clock, evicting, windowSec, maxEntries, seen);
      RemembersLater(seen, log, evicting, now, windowSec, maxEntries);
      RecentIsNotNew(seen, log, now, windowSec, maxEntries, key);
      clock := now;
      if key in Keys(seen) {
        var at := TimeOf(seen, key);
        TimeOfIn(seen, key);
        if now - at <= windowSec as real {
          RemembersParts(seen, log, now, windowSec, maxEntries);
          return false;
        }
        forall e | e in seen && e.key == key ensures now - e.at > windowSec as real {
          DistinctEntry(seen, key, e);
        }
      }
      ghost var before := seen;
      SortPut(seen, key, now);
      PutIn(seen, key, now);
      PutDistinct(seen, key, now);
      seen := Put(seen, key, now);
      if |seen| > maxEntries {
        EnforceCap();
      } else {
        SortSorts(seen);
        LastNOfShort(SortByTime(seen), maxEntries);
      }
      RecordingRemembers(before, log, key, now, windowSec, maxEntries, seen);
      log := log + [Entry(key, now)];
      RemembersParts(seen, log, now, windowSec, maxEntries);
      isNew := true;
    }
  }

  lemma RemembersParts(seen: seq<Entry>, log: seq<Entry>, clock: real, window: int, cap: int)
    requires Remembers(seen, log, clock, window, cap)
    ensures Distinct(seen) && Since(SortByTime(seen), clock - window as real) == Counting(log, clock, window, cap)
  {
  }

  lemma TwoSorted()
    ensures SortByTime([Entry("a", 2.0), Entry("b", 1.0)]) == [Entry("b", 1.0), Entry("a", 2.0)]
  {
    var a, b := Entry("a", 2.0), Entry("b", 1.0);
    assert [a, b][1..] == [b] && [b][1..] == [];
    assert SortByTime([b]) == [b];
    InsertLast(a, [b]);
  }

  lemma TwoRecent()
    ensures var b, a := Entry("b", 1.0), Entry("a", 2.0);
      Since([b, a], 1.0) == [b, a] && Since([Entry("a", 0.0), b, a], 1.0) == [b, a]
  {
    var b, a := Entry("b", 1.0), Entry("a", 2.0);
    SinceFrom([b, a], 1.0, 0);
    assert [b, a][0..] == [b, a];
    SinceFrom([Entry("a", 0.0), b, a], 1.0, 1);
    assert [Entry("a", 0.0), b, a][1..] == [b, a];
  }

  /** A clock that moves on between the eviction and the comparison lets a key be written over its
      own entry, and then the dictionary is no longer in time order. */
  lemma TimeOrderIsLost()
    ensures var seen := Put([Entry("a", 0.0), Entry("b", 1.0)], "a", 2.0);
      && !Chronological(seen)
      && Remembers(seen, [Entry("a", 0.0), Entry("b", 1.0), Entry("a", 2.0)], 2.0, 1, 2)
  {
    hide SortByTime, Since;
    var seen := [Entry("a", 2.0), Entry("b", 1.0)];
    assert Put([Entry("a", 0.0), Entry("b", 1.0)], "a", 2.0) == seen;
    assert !Chronological(seen) by {
      assert seen[0].at > seen[1].at;
    }
    TwoSorted();
    TwoRecent();
  }

  lemma ExpiredKeysStep(s: seq<Entry>, i: nat, cutoff: real)
    requires i < |s|
    ensures ExpiredKeys(s[i..], cutoff) ==
            (if s[i].at < cutoff then [s[i].key] else []) + ExpiredKeys(s[i + 1..], cutoff)
  {
    assert s[i..][1..] == s[i + 1..];
  }

  lemma ExpiredKeysEnd(s: seq<Entry>, cutoff: real)
    ensures ExpiredKeys(s[..0], cutoff) == [] && ExpiredKeys(s[|s|..], cutoff) == [] && s[0..] == s
  {
  }

  lemma WithoutAllStep(s: seq<Entry>, keys: seq<string>, i: nat)
    requires i < |keys|
    ensures WithoutAll(s, keys[i..]) == WithoutAll(Without(s, keys[i]), keys[i + 1..])
  {
    assert keys[i..][1..] == keys[i + 1..];
  }

  lemma WithoutAllEnd(s: seq<Entry>, keys: seq<string>)
    ensures WithoutAll(s, keys[|keys|..]) == s && keys[0..] == keys
  {
  }

  lemma WithoutFirst(s: seq<Entry>)
    requires s != []
    ensures Without(s, s[0].key) == s[1..]
  {
  }
}
