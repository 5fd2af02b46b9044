/** When a shown command is read back as the command that was accepted. */
module CommandRoundTrip {
  import opened Wrappers
  import opened CommandFirewall
  import Text

  // ---------------------------------------------------------------------
  // Counting characters
  // ---------------------------------------------------------------------

  const BACKSLASH: set<char> := {'\\'}

  const MARKS: set<char> := {'\\', '"'}

  function Tally(s: string, cs: set<char>): nat {
    if s == "" then 0 else (if s[0] in cs then 1 else 0) + Tally(s[1..], cs)
  }

  function Total(ts: seq<string>, cs: set<char>): nat {
    if ts == [] then 0 else Tally(ts[0], cs) + Total(ts[1..], cs)
  }

  lemma {:induction false} TallyConcat(a: string, b: string, cs: set<char>)
    ensures Tally(a + b, cs) == Tally(a, cs) + Tally(b, cs)
  {
    if a == "" {
      assert a + b == b;
    } else {
      assert (a + b)[1..] == a[1..] + b;
      TallyConcat(a[1..], b, cs);
    }
  }

  lemma {:induction false} TotalConcat(a: seq<string>, b: seq<string>, cs: set<char>)
    ensures Total(a + b, cs) == Total(a, cs) + Total(b, cs)
  {
    if a == [] {
      assert a + b == b;
    } else {
      assert (a + b)[1..] == a[1..] + b;
      TotalConcat(a[1..], b, cs);
    }
  }

  lemma {:induction false} TallyNone(s: string, cs: set<char>)
    ensures Tally(s, cs) == 0 <==> forall c :: c in s ==> c !in cs
  {
    if s != "" {
      TallyNone(s[1..], cs);
      assert s == [s[0]] + s[1..];
    }
  }

  lemma {:induction false} TallyUnion(s: string, a: set<char>, b: set<char>)
    requires a !! b
    ensures Tally(s, a + b) == Tally(s, a) + Tally(s, b)
  {
    if s != "" {
      TallyUnion(s[1..], a, b);
    }
  }

  lemma {:induction false} TotalUnion(ts: seq<string>, a: set<char>, b: set<char>)
    requires a !! b
    ensures Total(ts, a + b) == Total(ts, a) + Total(ts, b)
  {
    if ts != [] {
      TallyUnion(ts[0], a, b);
      TotalUnion(ts[1..], a, b);
    }
  }

  lemma TotalWithout(b: seq<string>, i: nat, cs: set<char>)
    requires i < |b|
    ensures Total(b, cs) == Tally(b[i], cs) + Total(b[..i] + b[i + 1..], cs)
  {
    assert b == b[..i] + ([b[i]] + b[i + 1..]);
    TotalConcat(b[..i], [b[i]] + b[i + 1..], cs);
    TotalConcat(b[..i], b[i + 1..], cs);
    assert ([b[i]] + b[i + 1..])[1..] == b[i + 1..];
  }

  lemma BagOf(b: seq<string>, i: nat)
    requires i < |b|
    ensures multiset(b) == multiset{b[i]} + multiset(b[..i] + b[i + 1..])
  {
    assert b == b[..i] + [b[i]] + b[i + 1..];
  }

  lemma SmallerBags(x: string, a: multiset<string>, b: multiset<string>)
    requires multiset{x} + a <= multiset{x} + b
    ensures a <= b
  {
    forall y ensures a[y] <= b[y] {
      assert (multiset{x} + a)[y] <= (multiset{x} + b)[y];
    }
  }

  lemma BagWithout(a: seq<string>, b: seq<string>, i: nat)
    requires multiset(a) <= multiset(b) && a != [] && i < |b| && b[i] == a[0]
    ensures multiset(a[1..]) <= multiset(b[..i] + b[i + 1..])
  {
    BagOf(a, 0);
    assert a[..0] + a[0 + 1..] == a[1..];
    BagOf(b, i);
    SmallerBags(a[0], multiset(a[1..]), multiset(b[..i] + b[i + 1..]));
  }

  /** A bag of pieces inside another holds no more of anything. */
  lemma {:induction false} TotalMonotone(a: seq<string>, b: seq<string>, cs: set<char>)
    requires multiset(a) <= multiset(b)
    ensures |a| <= |b| && Total(a, cs) <= Total(b, cs)
  {
    if a != [] {
      assert a[0] in multiset(a);
      var i :| 0 <= i < |b| && b[i] == a[0];
      BagWithout(a, b, i);
      TotalWithout(b, i, cs);
      TotalMonotone(a[1..], b[..i] + b[i + 1..], cs);
    }
  }

  // ---------------------------------------------------------------------
  // Laws of the lexer without comments
  // ---------------------------------------------------------------------

  function Token(st: State): string {
    match st
    case Word(t) => t
    case Quoted(t) => t
    case Escaped(t, _) => t
    case _ => ""
  }

  /** Backslashes only disappear; each double quote in a token has used one up. */
  lemma {:induction false} Drops(s: string, st: State)
    requires Scan(s, st, false).Ok?
    ensures Total(Scan(s, st, false).value, BACKSLASH) <=
            Tally(Token(st), BACKSLASH) + (if st.Escaped? && st.inQuotes then 1 else 0) + Tally(s, BACKSLASH)
    ensures Total(Scan(s, st, false).value, MARKS) <=
            Tally(Token(st), MARKS) + (if st.Escaped? then 1 else 0) + Tally(s, BACKSLASH)
  {
    if s != "" {
      var next := Step(st, s[0], false);
      Drops(s[1..], next);
      TallyConcat(Token(st), [s[0]], BACKSLASH);
      TallyConcat(Token(st), [s[0]], MARKS);
      TallyConcat(Token(st), ['\\', s[0]], BACKSLASH);
      TallyConcat(Token(st), ['\\', s[0]], MARKS);
      TotalConcat(Ended(st, s[0], false), Scan(s[1..], next, false).value, BACKSLASH);
      TotalConcat(Ended(st, s[0], false), Scan(s[1..], next, false).value, MARKS);
    }
  }

  lemma PrependTwice(a: seq<string>, b: seq<string>, r: Tokens)
    ensures Prepend([], r) == r && Prepend(a, Prepend(b, r)) == Prepend(a + b, r)
  {
    if r.Ok? {
      assert a + (b + r.value) == a + b + r.value && [] + r.value == r.value;
    }
  }

  lemma ScanStep(c: char, s: string, line: string, st: State, hash: bool)
    requires line == [c] + s
    ensures Scan(line, st, hash) == Prepend(Ended(st, c, hash), Scan(s, Step(st, c, hash), hash))
  {
    assert line[1..] == s;
  }

  /** A line that is whole before a space is read piece by piece. */
  lemma {:induction false} SpaceSeparates(a: string, st: State, rest: string)
    requires Scan(a, st, false).Ok? && !st.Comment?
    ensures Scan(a + " " + rest, st, false) == Prepend(Scan(a, st, false).value, Scan(rest, Blank, false))
  {
    var line := a + " " + rest;
    if a == "" {
      ScanStep(' ', rest, line, st, false);
    } else {
      ScanStep(a[0], a[1..] + " " + rest, line, st, false);
      SpaceSeparates(a[1..], Step(st, a[0], false), rest);
      PrependTwice(Ended(st, a[0], false), Scan(a[1..], Step(st, a[0], false), false).value,
                   Scan(rest, Blank, false));
    }
  }

  predicate Plain(w: string) {
    forall c :: c in w ==> c !in SPACES && c !in MARKS
  }

  lemma {:induction false} PlainRun(w: string, st: State, rest: string, hash: bool)
    requires Plain(w) && w != "" && (st.Blank? || st.Word?) && (hash ==> '#' !in w)
    ensures Scan(w + rest, st, hash) == Scan(rest, Word(Token(st) + w), hash)
  {
    hide Scan;
    var next := Step(st, w[0], hash);
    ScanStep(w[0], w[1..] + rest, w + rest, st, hash);
    PrependTwice([], [], Scan(w[1..] + rest, next, hash));
    assert next == Word(Token(st) + [w[0]]);
    if |w| > 1 {
      PlainRun(w[1..], next, rest, hash);
      assert Token(st) + [w[0]] + w[1..] == Token(st) + w;
    } else {
      assert w == [w[0]] && w[1..] + rest == rest;
    }
  }

  predicate StableAt(v: string, i: nat)
    requires i < |v|
  {
    v[i] != '"' && (v[i] == '\\' ==> i + 1 < |v| && v[i + 1] != '\\')
  }

  /** No double quote, and every backslash is followed by something other than a backslash. */
  predicate Stable(v: string) {
    forall i :: 0 <= i < |v| ==> StableAt(v, i)
  }

  lemma StableAfter(v: string)
    requires v != "" && v[0] != '"'
    ensures v[0] != '\\' ==> (Stable(v) <==> Stable(v[1..]))
    ensures v[0] == '\\' ==> (Stable(v) <==> |v| > 1 && v[1] != '\\' && v[1] != '"' && Stable(v[2..]))
  {
    assert forall i :: 0 <= i < |v| - 1 ==> (StableAt(v[1..], i) <==> StableAt(v, i + 1));
    assert forall i :: 1 <= i < |v| ==> (StableAt(v, i) <==> StableAt(v[1..], i - 1));
    if |v| > 1 {
      assert forall i :: 0 <= i < |v| - 2 ==> (StableAt(v[2..], i) <==> StableAt(v, i + 2));
      assert forall i :: 2 <= i < |v| ==> (StableAt(v, i) <==> StableAt(v[2..], i - 2));
      assert v[1] != '\\' ==> (StableAt(v, 1) <==> v[1] != '"');
    }
    assert Stable(v) ==> StableAt(v, 0);
  }

  lemma {:induction false} StableRun(v: string, t: string, rest: string, hash: bool)
    requires Stable(v)
    ensures Scan(v + "\"" + rest, Quoted(t), hash) == Scan(rest, Word(t + v), hash)
    decreases |v|
  {
    var line := v + "\"" + rest;
    if v == "" {
      ScanStep('"', rest, line, Quoted(t), hash);
      PrependTwice([], [], Scan(rest, Word(t), hash));
      assert t + v == t;
    } else {
      assert StableAt(v, 0);
      StableAfter(v);
      var after := v[1..] + "\"" + rest;
      var next := Step(Quoted(t), v[0], hash);
      ScanStep(v[0], after, line, Quoted(t), hash);
      PrependTwice([], [], Scan(after, next, hash));
      if v[0] == '\\' {
        var later := v[2..] + "\"" + rest;
        ScanStep(v[1], later, after, next, hash);
        PrependTwice([], [], Scan(later, Step(next, v[1], hash), hash));
        StableRun(v[2..], t + ['\\', v[1]], rest, hash);
        assert t + ['\\', v[1]] + v[2..] == t + v;
      } else {
        StableRun(v[1..], t + [v[0]], rest, hash);
        assert t + [v[0]] + v[1..] == t + v;
      }
    }
  }

  // ---------------------------------------------------------------------
  // Which pieces survive
  // ---------------------------------------------------------------------

  predicate Survives(p: Piece) {
    match p
    case Bare(w) => w != "" && Plain(w)
    case InQuotes(k, v) => Plain(k) && Stable(v)
  }

  lemma PieceReads(p: Piece)
    requires Survives(p)
    ensures Scan(Shown(p), Blank, false) == Ok([Meant(p)])
  {
    match p
    case Bare(w) =>
      PlainRun(w, Blank, "", false);
      assert w + "" == w && "" + w == w;
    case InQuotes(k, v) =>
      var quote := "\"" + (v + "\"" + "");
      assert Shown(p) == k + "=" + quote;
      PlainRun(k + "=", Blank, quote, false);
      assert "" + (k + "=") == k + "=";
      ScanStep('"', v + "\"" + "", quote, Word(k + "="), false);
      PrependTwice([], [], Scan(v + "\"" + "", Quoted(k + "="), false));
      StableRun(v, k + "=", "", false);
  }

  function Line(ps: seq<Piece>): string {
    if ps == [] then "" else if |ps| == 1 then Shown(ps[0]) else Shown(ps[0]) + " " + Line(ps[1..])
  }

  lemma {:induction false} LineIsJoined(ps: seq<Piece>)
    requires ps != []
    ensures Text.Join(AllShown(ps), ' ') == Line(ps)
  {
    assert AllShown(ps) == [Shown(ps[0])] + AllShown(ps[1..]);
    if |ps| > 1 {
      LineIsJoined(ps[1..]);
      Text.JoinCons(Shown(ps[0]), AllShown(ps[1..]), ' ');
    }
  }

  /** A line is read as its first piece is, followed by the rest. */
  lemma LineSplits(ps: seq<Piece>)
    requires ps != [] && Scan(Shown(ps[0]), Blank, false).Ok?
    ensures Scan(Line(ps), Blank, false) ==
            Prepend(Scan(Shown(ps[0]), Blank, false).value, Scan(Line(ps[1..]), Blank, false))
  {
    var own := Scan(Shown(ps[0]), Blank, false).value;
    if |ps| == 1 {
      assert Scan(Line(ps[1..]), Blank, false) == Ok([]);
      assert own + [] == own;
    } else {
      SpaceSeparates(Shown(ps[0]), Blank, Line(ps[1..]));
    }
  }

  lemma {:induction false} SurvivorsAreRead(ps: seq<Piece>)
    requires forall p :: p in ps ==> Survives(p)
    ensures Scan(Line(ps), Blank, false) == Ok(AllMeant(ps))
  {
    if ps != [] {
      hide *;
      HeadAndTail(ps);
      PieceReads(ps[0]);
      LineSplits(ps);
      SurvivorsAreRead(ps[1..]);
      MeantBegins(ps, {});
      PrependOk([Meant(ps[0])], AllMeant(ps[1..]));
    } else {
      assert AllMeant(ps) == [];
    }
  }

  lemma PrependOk(a: seq<string>, b: seq<string>)
    ensures Prepend(a, Ok(b)) == Ok(a + b)
  {
  }

  lemma HeadAndTail(ps: seq<Piece>)
    requires ps != []
    ensures forall q :: q in ps <==> q == ps[0] || q in ps[1..]
  {
    assert ps == [ps[0]] + ps[1..];
  }

  // ---------------------------------------------------------------------
  // A piece that does not survive loses something
  // ---------------------------------------------------------------------

  /** Outside quotes a backslash never reaches a token. */
  lemma {:induction false} BareDrops(w: string, st: State, tail: string)
    requires '"' !in w && '\\' in w && (st.Blank? || st.Word?)
    requires Scan(w + tail, st, false).Ok?
    ensures Total(Scan(w + tail, st, false).value, BACKSLASH) <
            Tally(Token(st), BACKSLASH) + Tally(w, BACKSLASH) + Tally(tail, BACKSLASH)
  {
    var next := Step(st, w[0], false);
    var after := w[1..] + tail;
    ScanStep(w[0], after, w + tail, st, false);
    TotalConcat(Ended(st, w[0], false), Scan(after, next, false).value, BACKSLASH);
    TallyConcat(w[1..], tail, BACKSLASH);
    TallyConcat(Token(st), [w[0]], BACKSLASH);
    if w[0] == '\\' {
      Drops(after, next);
    } else {
      assert w == [w[0]] + w[1..];
      BareDrops(w[1..], next, tail);
    }
  }

  lemma QuotedStep(c: char, s: string, line: string, t: string)
    requires line == [c] + s
    ensures c != '\\' && c != '"' ==> Scan(line, Quoted(t), false) == Scan(s, Quoted(t + [c]), false)
    ensures c == '\\' && s != "" ==>
      Scan(line, Quoted(t), false) ==
      Scan(s[1..], Quoted(if s[0] == '\\' || s[0] == '"' then t + [s[0]] else t + ['\\', s[0]]), false)
  {
    hide Scan;
    var next := Step(Quoted(t), c, false);
    ScanStep(c, s, line, Quoted(t), false);
    PrependTwice([], [], Scan(s, next, false));
    if c == '\\' && s != "" {
      ScanStep(s[0], s[1..], s, next, false);
      PrependTwice([], [], Scan(s[1..], Step(next, s[0], false), false));
    }
  }

  function One(c: char, cs: set<char>): nat {
    if c in cs then 1 else 0
  }

  lemma TallyHead(t: string, v: string, cs: set<char>)
    requires v != ""
    ensures Tally(v, cs) == One(v[0], cs) + Tally(v[1..], cs)
    ensures Tally(t + [v[0]], cs) == Tally(t, cs) + One(v[0], cs)
  {
    TallyConcat(t, [v[0]], cs);
  }

  /** Inside quotes a backslash is lost before another one and before the closing quote. */
  lemma {:induction false} QuotesDrop(v: string, t: string, tail: string)
    requires '"' !in v && !Stable(v)
    requires Scan(v + "\"" + tail, Quoted(t), false).Ok?
    ensures Total(Scan(v + "\"" + tail, Quoted(t), false).value, BACKSLASH) <
            Tally(t, BACKSLASH) + Tally(v, BACKSLASH) + Tally(tail, BACKSLASH)
    decreases |v|
  {
    assert v != "";
    hide Scan, Stable, Total, Tally;
    var after := v[1..] + "\"" + tail;
    QuotedStep(v[0], after, v + "\"" + tail, t);
    StableAfter(v);
    TallyHead(t, v, BACKSLASH);
    if v[0] != '\\' {
      QuotesDrop(v[1..], t + [v[0]], tail);
    } else if |v| == 1 {
      assert after[1..] == tail;
      TallyHead(t, "\"", BACKSLASH);
      Drops(tail, Quoted(t + ['"']));
    } else {
      var later := v[2..] + "\"" + tail;
      assert after[1..] == later && v[1..][1..] == v[2..] && t + [v[0]] + [v[1]] == t + ['\\', v[1]];
      TallyHead(t + [v[0]], v[1..], BACKSLASH);
      if v[1] == '\\' {
        Drops(later, Quoted(t + ['\\']));
        QuoteTallies(v[2..], tail);
      } else {
        QuotesDrop(v[2..], t + ['\\', v[1]], tail);
      }
    }
  }

  lemma QuoteTallies(v: string, tail: string)
    ensures Tally(v + "\"" + tail, BACKSLASH) == Tally(v, BACKSLASH) + Tally(tail, BACKSLASH)
  {
    TallyConcat(v + "\"", tail, BACKSLASH);
    TallyConcat(v, "\"", BACKSLASH);
  }

  /** The tokens that a key leaves behind, and the one it begins. */
  function KeyLeaves(k: string): seq<string>
    requires ValidKey(k)
  {
    if IsName(k) then [] else [k[..|k| - 1]]
  }

  function KeyBegins(k: string): string {
    if IsName(k) then k + "=" else "="
  }

  lemma NamesArePlain(k: string)
    requires ValidKey(k)
    ensures IsName(k) <==> Plain(k)
    ensures !IsName(k) ==> k == k[..|k| - 1] + "\n" && Plain(k[..|k| - 1])
    ensures k != "" && '=' !in k && '"' !in k && '\\' !in k
  {
    assert !IsName(k) ==> '\n' in k && k == k[..|k| - 1] + ['\n'];
  }

  lemma QuoteOpens(rest: string, t: string)
    ensures Scan("\"" + rest, Word(t), false) == Scan(rest, Quoted(t), false)
  {
    ScanStep('"', rest, "\"" + rest, Word(t), false);
    PrependTwice([], [], Scan(rest, Quoted(t), false));
  }

  lemma NameReads(n: string, rest: string)
    requires Plain(n)
    ensures Scan(n + "=\"" + rest, Blank, false) == Scan(rest, Quoted(n + "="), false)
  {
    hide Scan;
    PlainRun(n + "=", Blank, "\"" + rest, false);
    QuoteOpens(rest, n + "=");
    assert "" + (n + "=") == n + "=";
    assert n + "=\"" + rest == (n + "=") + ("\"" + rest);
  }

  lemma NewlineEnds(n: string, rest: string)
    requires Plain(n) && n != ""
    ensures Scan(n + "\n" + rest, Blank, false) == Prepend([n], Scan(rest, Blank, false))
  {
    hide Scan;
    PlainRun(n, Blank, "\n" + rest, false);
    ScanStep('\n', rest, "\n" + rest, Word(n), false);
    assert "" + n == n;
    assert n + "\n" + rest == n + ("\n" + rest);
  }

  lemma KeyReads(k: string, rest: string)
    requires ValidKey(k)
    ensures Scan(k + "=\"" + rest, Blank, false) ==
            Prepend(KeyLeaves(k), Scan(rest, Quoted(KeyBegins(k)), false))
  {
    hide Scan, Plain, NameChar;
    NamesArePlain(k);
    if IsName(k) {
      NameReads(k, rest);
      PrependTwice([], [], Scan(rest, Quoted(k + "="), false));
    } else {
      var n := k[..|k| - 1];
      NewlineEnds(n, "=\"" + rest);
      EmptyIsPlain();
      NameReads("", rest);
      assert "" + "=\"" + rest == "=\"" + rest && "" + "=" == "=";
      assert k + "=\"" + rest == n + "\n" + ("=\"" + rest);
    }
  }

  lemma EmptyIsPlain()
    ensures Plain("")
  {
  }

  /** Each token costs one, and each white space in it two. */
  function Cost(ts: seq<string>): nat {
    2 * Total(ts, SPACES) + |ts|
  }

  lemma {:induction false} BareTokens(w: string, st: State)
    requires '"' !in w && '\\' !in w && (st.Blank? || st.Word?)
    ensures Scan(w, st, false).Ok?
    ensures Total(Scan(w, st, false).value, SPACES) == Tally(Token(st), SPACES)
    ensures |Scan(w, st, false).value| <= Tally(w, SPACES) + 1
  {
    if w != "" {
      var next := Step(st, w[0], false);
      BareTokens(w[1..], next);
      TotalConcat(Ended(st, w[0], false), Scan(w[1..], next, false).value, SPACES);
      TallyConcat(Token(st), [w[0]], SPACES);
    }
  }

  /** Nothing in the piece that the lexer would drop. */
  predicate Clear(p: Piece) {
    match p
    case Bare(w) => '\\' !in w
    case InQuotes(_, v) => Stable(v)
  }

  predicate Proper(p: Piece) {
    '"' !in Meant(p) && (p.InQuotes? ==> ValidKey(p.key))
  }

  lemma QuotedReads(k: string, v: string)
    requires ValidKey(k) && Stable(v)
    ensures Scan(k + "=\"" + v + "\"", Blank, false) == Ok(KeyLeaves(k) + [KeyBegins(k) + v])
  {
    hide Stable, ValidKey, IsName, KeyLeaves, KeyBegins, Step;
    KeyReads(k, v + "\"");
    StableRun(v, KeyBegins(k), "", false);
    assert v + "\"" + "" == v + "\"";
    assert k + "=\"" + v + "\"" == k + "=\"" + (v + "\"");
  }

  /** Cutting a key at its newline leaves one space less than was meant. */
  lemma NewlineCosts(n: string, v: string)
    ensures Cost([n, "=" + v]) < Cost([n + "\n" + "=" + v])
  {
    TallyConcat("=", v, SPACES);
    TallyConcat(n + "\n" + "=", v, SPACES);
    TallyConcat(n + "\n", "=", SPACES);
    TallyConcat(n, "\n", SPACES);
    TotalConcat([n], ["=" + v], SPACES);
    assert [n, "=" + v] == [n] + ["=" + v];
    TotalOne(n, SPACES);
    TotalOne("=" + v, SPACES);
    TotalOne(n + "\n" + "=" + v, SPACES);
  }

  lemma TotalOne(t: string, cs: set<char>)
    ensures Total([t], cs) == Tally(t, cs)
  {
    assert [t][1..] == [];
  }

  lemma PieceCosts(p: Piece)
    requires Clear(p) && Proper(p)
    ensures Scan(Shown(p), Blank, false).Ok?
    ensures Cost(Scan(Shown(p), Blank, false).value) <= Cost([Meant(p)])
    ensures !Survives(p) ==> Cost(Scan(Shown(p), Blank, false).value) < Cost([Meant(p)])
  {
    match p
    case Bare(w) =>
      BareTokens(w, Blank);
      TallyNone(w, SPACES);
    case InQuotes(k, v) =>
      hide Scan, Plain, Stable;
      NamesArePlain(k);
      QuotedReads(k, v);
      if IsName(k) {
        assert KeyLeaves(k) + [KeyBegins(k) + v] == [Meant(p)];
      } else {
        var n := k[..|k| - 1];
        NewlineCosts(n, v);
        assert KeyLeaves(k) + [KeyBegins(k) + v] == [n, "=" + v];
        assert Meant(p) == n + "\n" + "=" + v;
      }
  }

  /** Showing adds nothing but quotes and the spaces between pieces. */
  lemma ShownTally(p: Piece, cs: set<char>)
    requires '"' !in cs
    ensures Tally(Shown(p), cs) == Tally(Meant(p), cs)
  {
    if p.InQuotes? {
      TallyConcat(p.key + "=\"" + p.text, "\"", cs);
      TallyConcat(p.key + "=\"", p.text, cs);
      TallyConcat(p.key + "=", "\"", cs);
      TallyConcat(p.key + "=", p.text, cs);
      assert p.key + "=\"" == p.key + "=" + "\"";
    }
  }

  lemma {:induction false} LineTally(ps: seq<Piece>, cs: set<char>)
    requires '"' !in cs
    ensures Tally(Line(ps), cs) == Total(AllMeant(ps), cs) + (if ' ' in cs && ps != [] then |ps| - 1 else 0)
  {
    if ps != [] {
      ShownTally(ps[0], cs);
      LineTally(ps[1..], cs);
      assert AllMeant(ps)[1..] == AllMeant(ps[1..]);
      TallyConcat(Shown(ps[0]) + " ", Line(ps[1..]), cs);
      TallyConcat(Shown(ps[0]), " ", cs);
    }
  }

  lemma KeyHasNoBackslash(k: string)
    requires ValidKey(k)
    ensures Tally(k + "=", BACKSLASH) == 0 && Tally(KeyBegins(k), BACKSLASH) == 0
    ensures Total(KeyLeaves(k), BACKSLASH) == 0
  {
    NamesArePlain(k);
    TallyNone(k + "=", BACKSLASH);
    TallyNone(KeyBegins(k), BACKSLASH);
    if !IsName(k) {
      TallyNone(k[..|k| - 1], BACKSLASH);
      TotalOne(k[..|k| - 1], BACKSLASH);
    }
  }

  lemma QuotedKeeps(k: string, v: string, tail: string)
    requires ValidKey(k) && '"' !in v
    requires Scan(k + "=\"" + v + "\"" + tail, Blank, false).Ok?
    requires Total(Scan(k + "=\"" + v + "\"" + tail, Blank, false).value, BACKSLASH) >=
             Tally(v, BACKSLASH) + Tally(tail, BACKSLASH)
    ensures Stable(v)
  {
    hide Scan, Stable, ValidKey, KeyBegins, KeyLeaves, IsName, Tally, Total;
    var rest := v + "\"" + tail;
    KeyReads(k, rest);
    assert k + "=\"" + v + "\"" + tail == k + "=\"" + rest;
    KeyHasNoBackslash(k);
    TotalConcat(KeyLeaves(k), Scan(rest, Quoted(KeyBegins(k)), false).value, BACKSLASH);
    if !Stable(v) {
      QuotesDrop(v, KeyBegins(k), tail);
    }
  }

  /** A piece is clear if no backslash of the line it begins is lost. */
  lemma NothingDropped(p: Piece, tail: string)
    requires Proper(p)
    requires Scan(Shown(p) + tail, Blank, false).Ok?
    requires Total(Scan(Shown(p) + tail, Blank, false).value, BACKSLASH) >=
             Tally(Shown(p), BACKSLASH) + Tally(tail, BACKSLASH)
    ensures Clear(p)
  {
    hide Scan, Stable, ValidKey, Total;
    match p
    case Bare(w) =>
      if '\\' in w {
        BareDrops(w, Blank, tail);
      }
    case InQuotes(k, v) =>
      hide Tally;
      assert '"' !in v;
      KeyHasNoBackslash(k);
      ShownTally(p, BACKSLASH);
      TallyConcat(k + "=", v, BACKSLASH);
      QuotedKeeps(k, v, tail);
  }

  lemma CostConcat(a: seq<string>, b: seq<string>)
    ensures Cost(a + b) == Cost(a) + Cost(b)
  {
    TotalConcat(a, b, SPACES);
  }

  /** The first piece of a line that loses no backslash, and what is left for the others. */
  lemma LineBegins(ps: seq<Piece>)
    requires ps != [] && Proper(ps[0])
    requires Scan(Line(ps), Blank, false).Ok?
    requires Total(Scan(Line(ps), Blank, false).value, BACKSLASH) >= Total(AllMeant(ps), BACKSLASH)
    ensures Scan(Shown(ps[0]), Blank, false).Ok? && Scan(Line(ps[1..]), Blank, false).Ok?
    ensures Cost(Scan(Line(ps), Blank, false).value) ==
            Cost(Scan(Shown(ps[0]), Blank, false).value) + Cost(Scan(Line(ps[1..]), Blank, false).value)
    ensures Clear(ps[0])
    ensures Total(Scan(Line(ps[1..]), Blank, false).value, BACKSLASH) >= Total(AllMeant(ps[1..]), BACKSLASH)
  {
    var p, rest := ps[0], ps[1..];
    var tail := if |ps| == 1 then "" else " " + Line(rest);
    assert Line(ps) == Shown(p) + tail;
    assert Tally(tail, BACKSLASH) == Tally(Line(rest), BACKSLASH);
    hide Scan, Line, Shown, Meant, Proper, Clear, Tally, Cost;
    ShownTally(p, BACKSLASH);
    LineTally(rest, BACKSLASH);
    MeantBegins(ps, BACKSLASH);
    NothingDropped(p, tail);
    PieceCosts(p);
    LineSplits(ps);
    var own, others := Scan(Shown(p), Blank, false).value, Scan(Line(rest), Blank, false).value;
    Drops(Shown(p), Blank);
    assert Tally(Token(Blank), BACKSLASH) == 0 by {
      TallyNone("", BACKSLASH);
    }
    TotalConcat(own, others, BACKSLASH);
    CostConcat(own, others);
  }

  lemma MeantBegins(ps: seq<Piece>, cs: set<char>)
    requires ps != []
    ensures AllMeant(ps) == [Meant(ps[0])] + AllMeant(ps[1..])
    ensures Total(AllMeant(ps), cs) == Tally(Meant(ps[0]), cs) + Total(AllMeant(ps[1..]), cs)
  {
    assert AllMeant(ps)[1..] == AllMeant(ps[1..]);
  }

  /** A line that loses no backslash costs no more once it is read, and less if a piece does not survive. */
  lemma {:induction false} LineCosts(ps: seq<Piece>)
    requires forall p :: p in ps ==> Proper(p)
    requires Scan(Line(ps), Blank, false).Ok?
    requires Total(Scan(Line(ps), Blank, false).value, BACKSLASH) >= Total(AllMeant(ps), BACKSLASH)
    ensures Cost(Scan(Line(ps), Blank, false).value) <= Cost(AllMeant(ps))
    ensures Cost(Scan(Line(ps), Blank, false).value) == Cost(AllMeant(ps)) ==> forall p :: p in ps ==> Survives(p)
  {
    if ps != [] {
      hide *;
      var p, rest := ps[0], ps[1..];
      HeadAndTail(ps);
      LineBegins(ps);
      MeantBegins(ps, SPACES);
      PieceCosts(p);
      LineCosts(rest);
      CostConcat([Meant(p)], AllMeant(rest));
    }
  }

  /** If what is read holds every piece that was meant, every piece survives. */
  lemma ReadWholeSurvives(ps: seq<Piece>)
    requires forall p :: p in ps && p.InQuotes? ==> ValidKey(p.key)
    requires Scan(Line(ps), Blank, false).Ok?
    requires multiset(AllMeant(ps)) <= multiset(Scan(Line(ps), Blank, false).value)
    ensures forall p :: p in ps ==> Survives(p)
  {
    hide Scan, Line, Total, AllMeant;
    var ts := Scan(Line(ps), Blank, false).value;
    Drops(Line(ps), Blank);
    LineTally(ps, BACKSLASH);
    TotalMonotone(AllMeant(ps), ts, MARKS);
    TotalMonotone(AllMeant(ps), ts, BACKSLASH);
    TotalMonotone(AllMeant(ps), ts, SPACES);
    assert MARKS == BACKSLASH + {'"'};
    TotalUnion(AllMeant(ps), BACKSLASH, {'"'});
    NoQuotes(ps);
    LineCosts(ps);
  }

  lemma NoQuotes(ps: seq<Piece>)
    requires Total(AllMeant(ps), {'"'}) == 0
    ensures forall p :: p in ps ==> '"' !in Meant(p)
  {
    forall p | p in ps ensures '"' !in Meant(p) {
      var i :| 0 <= i < |ps| && ps[i] == p;
      TotalHolds(AllMeant(ps), i, {'"'});
      TallyNone(Meant(p), {'"'});
    }
  }

  lemma {:induction false} TotalHolds(ts: seq<string>, i: nat, cs: set<char>)
    requires i < |ts|
    ensures Tally(ts[i], cs) <= Total(ts, cs)
  {
    if i > 0 {
      TotalHolds(ts[1..], i - 1, cs);
    }
  }

  // ---------------------------------------------------------------------
  // Classifying
  // ---------------------------------------------------------------------

  function Entries(flags: map<string, string>): set<string> {
    set k | k in flags :: k + "=" + flags[k]
  }

  lemma EntryParts(k: string, v: string)
    requires '=' !in k
    ensures var e := k + "=" + v;
      '=' in e && IndexOf(e, '=') == |k| && e[..|k|] == k && e[|k| + 1..] == v
  {
    var e := k + "=" + v;
    assert e[|k|] == '=';
    assert forall i :: 0 <= i < |k| ==> e[i] == k[i] != '=';
  }

  lemma SettingAdds(flags: map<string, string>, k: string, v: string)
    ensures multiset(Entries(flags[k := v])) <= multiset(Entries(flags)) + multiset([k + "=" + v])
  {
    var e := k + "=" + v;
    var after := flags[k := v];
    assert Entries(after) <= Entries(flags) + {e};
    forall x ensures multiset(Entries(after))[x] <= (multiset(Entries(flags)) + multiset([e]))[x] {
      assert x in Entries(after) ==> x in Entries(flags) || x == e;
    }
  }

  lemma PlaceAdds(c: Command, arg: string)
    requires Place(c, arg).Ok?
    ensures var d := Place(c, arg).value;
      multiset(Entries(d.flags)) + multiset(d.args) <= multiset(Entries(c.flags)) + multiset(c.args) + multiset([arg])
  {
    hide Entries;
    if !Positional(arg) {
      var i := IndexOf(arg, '=');
      assert arg == arg[..i] + "=" + arg[i + 1..];
      SettingAdds(c.flags, arg[..i], arg[i + 1..]);
    }
  }

  /** Everything in a command came from some piece of its own. */
  lemma {:induction false} PlacedComeFromParts(c: Command, args: seq<string>)
    requires PlaceAll(c, args).Ok?
    ensures var d := PlaceAll(c, args).value;
      multiset(Entries(d.flags)) + multiset(d.args) <= multiset(Entries(c.flags)) + multiset(c.args) + multiset(args)
    decreases args
  {
    hide Entries, Place;
    if args != [] {
      PlaceAdds(c, args[0]);
      PlacedComeFromParts(Place(c, args[0]).value, args[1..]);
      assert args == [args[0]] + args[1..];
      assert multiset(args) == multiset([args[0]]) + multiset(args[1..]);
    }
  }

  function EntrySeq(keys: seq<string>, flags: map<string, string>): seq<string>
    requires forall k :: k in keys ==> k in flags
  {
    if keys == [] then [] else [keys[0] + "=" + flags[keys[0]]] + EntrySeq(keys[1..], flags)
  }

  lemma {:induction false} FlagPiecesMean(keys: seq<string>, flags: map<string, string>)
    requires forall k :: k in keys ==> k in flags
    ensures AllMeant(FlagPieces(keys, flags)) == EntrySeq(keys, flags)
  {
    if keys != [] {
      FlagPiecesMean(keys[1..], flags);
      assert FlagPieces(keys, flags) == [FlagPiece(keys[0], flags[keys[0]])] + FlagPieces(keys[1..], flags);
      MeantBegins(FlagPieces(keys, flags), {});
    }
  }

  function EntrySet(keys: seq<string>, flags: map<string, string>): set<string>
    requires forall k :: k in keys ==> k in flags
  {
    set k | k in keys :: k + "=" + flags[k]
  }

  lemma EntrySetGrows(k: string, rest: seq<string>, flags: map<string, string>)
    requires k in flags && k !in rest && '=' !in k
    requires forall j :: j in rest ==> j in flags && '=' !in j
    ensures multiset(EntrySet([k] + rest, flags)) == multiset([k + "=" + flags[k]]) + multiset(EntrySet(rest, flags))
  {
    var e := k + "=" + flags[k];
    EntryParts(k, flags[k]);
    forall j | j in rest ensures j + "=" + flags[j] != e {
      EntryParts(j, flags[j]);
    }
    assert EntrySet([k] + rest, flags) == EntrySet(rest, flags) + {e};
    assert multiset(EntrySet(rest, flags) + {e}) == multiset(EntrySet(rest, flags)) + multiset{e};
  }

  lemma EntrySeqGrows(k: string, rest: seq<string>, flags: map<string, string>)
    requires k in flags && forall j :: j in rest ==> j in flags
    ensures multiset(EntrySeq([k] + rest, flags)) == multiset([k + "=" + flags[k]]) + multiset(EntrySeq(rest, flags))
  {
    assert EntrySeq([k] + rest, flags) == [k + "=" + flags[k]] + EntrySeq(rest, flags) by {
      assert ([k] + rest)[1..] == rest;
    }
  }

  lemma {:induction false} SeqOfEntries(keys: seq<string>, flags: map<string, string>)
    requires forall k :: k in keys ==> k in flags && '=' !in k
    requires forall i, j :: 0 <= i < j < |keys| ==> keys[i] != keys[j]
    ensures multiset(EntrySeq(keys, flags)) == multiset(EntrySet(keys, flags))
  {
    if keys != [] {
      hide EntrySet, EntrySeq;
      var k, rest := keys[0], keys[1..];
      assert keys == [k] + rest;
      SeqOfEntries(rest, flags);
      EntrySetGrows(k, rest, flags);
      EntrySeqGrows(k, rest, flags);
    }
  }

  lemma {:induction false} PlacingArgs(c: Command, args: seq<string>)
    requires forall a :: a in args ==> Positional(a)
    ensures PlaceAll(c, args) == Ok(c.(args := c.args + args))
    decreases args
  {
    if args == [] {
      assert c.args + args == c.args;
    } else {
      PlacingArgs(c.(args := c.args + [args[0]]), args[1..]);
      assert c.args + [args[0]] + args[1..] == c.args + args;
    }
  }

  lemma PlacingEntry(c: Command, k: string, v: string)
    requires ValidKey(k) && |v| <= MAX_VALUE
    ensures Place(c, k + "=" + v) == Ok(c.(flags := c.flags[k := v]))
  {
    NamesArePlain(k);
    EntryParts(k, v);
    assert !IsName(k) ==> k[..|k| - 1][0] == k[0];
    assert NameChar(k[0]);
    assert (k + "=" + v)[0] == k[0] != '-';
  }

  function Picked(keys: seq<string>, flags: map<string, string>): map<string, string>
    requires forall k :: k in keys ==> k in flags
  {
    map k | k in keys :: flags[k]
  }

  lemma PickedGrows(base: map<string, string>, k: string, rest: seq<string>, flags: map<string, string>)
    requires k in flags && forall j :: j in rest ==> j in flags
    ensures base[k := flags[k]] + Picked(rest, flags) == base + Picked([k] + rest, flags)
  {
  }

  /** The first entry is placed, and the rest after it. */
  lemma PlacingFirst(c: Command, k: string, rest: seq<string>, flags: map<string, string>, args: seq<string>)
    requires k in flags && ValidKey(k) && |flags[k]| <= MAX_VALUE && forall j :: j in rest ==> j in flags
    ensures PlaceAll(c, EntrySeq([k] + rest, flags) + args) ==
            PlaceAll(c.(flags := c.flags[k := flags[k]]), EntrySeq(rest, flags) + args)
  {
    hide Place, ValidKey;
    var all := EntrySeq([k] + rest, flags) + args;
    PlacingEntry(c, k, flags[k]);
    assert ([k] + rest)[1..] == rest;
    assert all[0] == k + "=" + flags[k] && all[1..] == EntrySeq(rest, flags) + args;
  }

  lemma {:induction false} PlacingEntries(c: Command, keys: seq<string>, flags: map<string, string>, args: seq<string>)
    requires forall k :: k in keys ==> k in flags && ValidKey(k) && |flags[k]| <= MAX_VALUE
    ensures PlaceAll(c, EntrySeq(keys, flags) + args) ==
            PlaceAll(c.(flags := c.flags + Picked(keys, flags)), args)
    decreases keys
  {
    hide PlaceAll, ValidKey, Picked;
    if keys == [] {
      assert EntrySeq(keys, flags) + args == args;
      NonePicked(flags);
      assert c.flags + map[] == c.flags;
    } else {
      hide EntrySeq;
      var k, rest := keys[0], keys[1..];
      assert keys == [k] + rest;
      PlacingFirst(c, k, rest, flags, args);
      PlacingEntries(c.(flags := c.flags[k := flags[k]]), rest, flags, args);
      PickedGrows(c.flags, k, rest, flags);
    }
  }

  lemma NonePicked(flags: map<string, string>)
    ensures Picked([], flags) == map[]
  {
  }

  // ---------------------------------------------------------------------
  // The round trip
  // ---------------------------------------------------------------------

  lemma OperandsSplit(c: Command)
    ensures AllMeant(Operands(c)) == EntrySeq(SortKeys(c.flags.Keys), c.flags) + c.args
  {
    hide SortKeys, FlagPieces, EntrySeq;
    var keys := SortKeys(c.flags.Keys);
    FlagPiecesMean(keys, c.flags);
    assert AllMeant(ArgPieces(c.args)) == c.args;
    assert AllMeant(Operands(c)) == AllMeant(FlagPieces(keys, c.flags)) + AllMeant(ArgPieces(c.args));
  }

  lemma SortedEntries(flags: map<string, string>)
    requires forall k :: k in flags ==> ValidKey(k)
    ensures multiset(EntrySeq(SortKeys(flags.Keys), flags)) == multiset(Entries(flags))
  {
    hide ValidKey, SortKeys, IsName, EntrySeq;
    SortKeysSorts(flags.Keys);
    var keys := SortKeys(flags.Keys);
    forall k | k in keys ensures '=' !in k {
      NamesArePlain(k);
    }
    SeqOfEntries(keys, flags);
    assert EntrySet(keys, flags) == Entries(flags);
  }

  lemma OperandKeys(c: Command)
    requires Accepted(c)
    ensures forall p :: p in Operands(c) && p.InQuotes? ==> ValidKey(p.key)
  {
    hide ValidKey, SortKeys;
  }

  /** What the operands of an accepted command stand for. */
  lemma OperandsMean(c: Command)
    requires Accepted(c)
    ensures AllMeant(Operands(c)) == EntrySeq(SortKeys(c.flags.Keys), c.flags) + c.args
    ensures multiset(AllMeant(Operands(c))) == multiset(Entries(c.flags)) + multiset(c.args)
    ensures forall p :: p in Operands(c) && p.InQuotes? ==> ValidKey(p.key)
  {
    hide Operands, AllMeant, EntrySeq, SortKeys, Entries, ValidKey;
    OperandsSplit(c);
    SortedEntries(c.flags);
    OperandKeys(c);
  }

  lemma CommandSurvives(c: Command)
    requires Accepted(c)
    ensures Survives(Bare(c.command)) && Text.Lower(c.command) == c.command
  {
    hide Plain, Text.Lower;
    ASlashAndLetters(c.command);
  }

  lemma ASlashAndLetters(w: string)
    requires forall i :: 0 <= i < |w| ==> w[i] == '/' || 'a' <= w[i] <= 'z'
    ensures Plain(w) && Text.Lower(w) == w
  {
  }

  /** Reading a shown command: the command itself, then its operands. */
  lemma ReadRendered(c: Command)
    requires Accepted(c)
    ensures var ts := Scan(Line(Operands(c)), Blank, false);
      Read(Rendered(c), false) ==
      if ts.Ok? then PlaceAll(Command(c.command, [], map[]), ts.value) else Err(ParseError(ts.error))
  {
    hide Scan, Operands, PlaceAll;
    var ps := [Bare(c.command)] + Operands(c);
    assert ps[1..] == Operands(c);
    LineIsJoined(ps);
    CommandSurvives(c);
    PieceReads(ps[0]);
    LineSplits(ps);
    var ts := Scan(Line(Operands(c)), Blank, false);
    if ts.Ok? {
      assert ([c.command] + ts.value)[1..] == ts.value;
    }
  }

  /** Read back by the router's lexer and classified again, a shown command is the accepted command
      exactly when each of its operands survives. */
  lemma RoundTripExactly(c: Command)
    requires Accepted(c)
    ensures Read(Rendered(c), false) == Ok(c) <==> forall p :: p in Operands(c) ==> Survives(p)
  {
    hide Scan, Operands, PlaceAll, Survives, Accepted, AllMeant, Line;
    var ps := Operands(c);
    OperandsMean(c);
    ReadRendered(c);
    if Read(Rendered(c), false) == Ok(c) {
      PlacedComeFromParts(Command(c.command, [], map[]), Scan(Line(ps), Blank, false).value);
      ReadWholeSurvives(ps);
    }
    if forall p :: p in ps ==> Survives(p) {
      SurvivorsAreRead(ps);
      PlacingOperands(c);
    }
  }

  lemma PlacingOperands(c: Command)
    requires Accepted(c)
    ensures PlaceAll(Command(c.command, [], map[]), AllMeant(Operands(c))) == Ok(c)
  {
    hide PlaceAll, ValidKey, Positional, SortKeys, AllMeant, Operands;
    OperandsMean(c);
    var keys := SortKeys(c.flags.Keys);
    SortKeysSorts(c.flags.Keys);
    var start := Command(c.command, [], map[]);
    PlacingEntries(start, keys, c.flags, c.args);
    assert start.flags + Picked(keys, c.flags) == c.flags;
    PlacingArgs(start.(flags := c.flags), c.args);
    assert [] + c.args == c.args;
  }

  /** A key without a newline; a value with a space, which is shown in quotes, and one without. */
  predicate FlagFaithful(k: string, v: string) {
    IsName(k) && if ' ' in v then Stable(v) else Plain(v)
  }

  /** The same condition read off the command: what its keys, values and arguments may hold. */
  predicate Faithful(c: Command) {
    && (forall k :: k in c.flags ==> FlagFaithful(k, c.flags[k]))
    && (forall a :: a in c.args ==> a != "" && Plain(a))
  }

  lemma FlagSurvives(k: string, v: string)
    requires ValidKey(k)
    ensures Survives(FlagPiece(k, v)) <==> FlagFaithful(k, v)
  {
    NamesArePlain(k);
    if !(' ' in v || v == "") {
      var e := k + "=" + v;
      assert forall c :: c in e <==> c in k || c == '=' || c in v;
    }
  }

  lemma FlagsSurvive(keys: seq<string>, flags: map<string, string>)
    requires forall k :: k in keys <==> k in flags
    requires forall k :: k in flags ==> ValidKey(k)
    ensures (forall p :: p in FlagPieces(keys, flags) ==> Survives(p)) <==>
            forall k :: k in flags ==> FlagFaithful(k, flags[k])
  {
    hide Survives, FlagPiece, ValidKey, FlagFaithful;
    var ps := FlagPieces(keys, flags);
    forall k | k in flags ensures Survives(FlagPiece(k, flags[k])) <==> FlagFaithful(k, flags[k]) {
      FlagSurvives(k, flags[k]);
    }
    assert forall i :: 0 <= i < |keys| ==> ps[i] == FlagPiece(keys[i], flags[keys[i]]);
    assert forall k :: k in flags ==> FlagPiece(k, flags[k]) in ps;
  }

  lemma ArgsSurvive(args: seq<string>)
    ensures (forall p :: p in ArgPieces(args) ==> Survives(p)) <==> forall a :: a in args ==> a != "" && Plain(a)
  {
    hide Plain;
    var ps := ArgPieces(args);
    assert forall i :: 0 <= i < |args| ==> ps[i] == Bare(args[i]);
    assert forall a :: a in args ==> Bare(a) in ps;
    assert forall p :: p in ps ==> p.Bare? && p.word in args;
  }

  lemma FaithfulSurvives(c: Command)
    requires Accepted(c)
    ensures (forall p :: p in Operands(c) ==> Survives(p)) <==> Faithful(c)
  {
    hide SortKeys, Survives, ValidKey, Positional, FlagFaithful, FlagPieces, ArgPieces, Plain;
    var keys := SortKeys(c.flags.Keys);
    FlagsSurvive(keys, c.flags);
    ArgsSurvive(c.args);
    assert Operands(c) == FlagPieces(keys, c.flags) + ArgPieces(c.args);
  }

  lemma RenderedBegins(c: Command)
    requires Accepted(c)
    ensures Rendered(c) != "" && Rendered(c)[0] == '/'
  {
    var ps := [Bare(c.command)] + Operands(c);
    assert AllShown(ps)[0] == c.command;
  }

  // ---------------------------------------------------------------------
  // The router strips the text before it reads it
  // ---------------------------------------------------------------------

  const LETTERS: set<char> := set c: char | c != '"'

  /** The tokens of a line weigh no more than the line: each costs its letters and one for the
      space or the end after it, and quotes weigh nothing. */
  lemma {:induction false} TokensWeigh(s: string, st: State)
    requires Scan(s, st, false).Ok?
    ensures var ts := Scan(s, st, false).value;
      Total(ts, LETTERS) + |ts| <=
        Tally(Token(st), LETTERS) + (if st.Escaped? && st.inQuotes then 1 else 0) + Tally(s, LETTERS) + 1
  {
    if s != "" {
      var next := Step(st, s[0], false);
      TokensWeigh(s[1..], next);
      TallyConcat(Token(st), [s[0]], LETTERS);
      TallyConcat(Token(st), ['\\', s[0]], LETTERS);
      TotalConcat(Ended(st, s[0], false), Scan(s[1..], next, false).value, LETTERS);
    }
  }

  lemma {:induction false} StripRightLoses(s: string)
    ensures Tally(Text.StripRight(s), LETTERS) <= Tally(s, LETTERS)
    ensures s != "" && Text.IsSpace(s[|s| - 1]) ==> Tally(Text.StripRight(s), LETTERS) < Tally(s, LETTERS)
    decreases |s|
  {
    if s != "" && Text.IsSpace(s[|s| - 1]) {
      var last := s[|s| - 1];
      StripRightLoses(s[..|s| - 1]);
      assert s == s[..|s| - 1] + [last];
      TallyConcat(s[..|s| - 1], [last], LETTERS);
    }
  }

  lemma {:induction false} LowerWeighs(w: string)
    ensures Tally(Text.Lower(w), LETTERS) == Tally(w, LETTERS)
  {
    if w != "" {
      LowerWeighs(w[1..]);
      assert Text.Lower(w)[1..] == Text.Lower(w[1..]);
    }
  }

  lemma {:induction false} PlaceAllKeepsCommand(c: Command, args: seq<string>)
    requires PlaceAll(c, args).Ok?
    ensures PlaceAll(c, args).value.command == c.command
    decreases args
  {
    if args != [] {
      PlaceAllKeepsCommand(Place(c, args[0]).value, args[1..]);
    }
  }

  /** Text that is read as a command weighs at least as much as the command is shown with. */
  lemma ReadWeighs(c: Command, text: string)
    requires Accepted(c) && Read(text, false) == Ok(c)
    ensures Tally(Rendered(c), LETTERS) <= Tally(text, LETTERS)
  {
    hide Scan, Operands, PlaceAll, Accepted, AllMeant, Line, Tally, Total, Entries, Text.Lower;
    var ts := Scan(text, Blank, false).value;
    var ops := Operands(c);
    var ps := [Bare(c.command)] + ops;
    assert ps[1..] == ops;
    TokensWeigh(text, Blank);
    NothingWeighs();
    PlaceAllKeepsCommand(Command(Text.Lower(ts[0]), [], map[]), ts[1..]);
    PlacedComeFromParts(Command(c.command, [], map[]), ts[1..]);
    NoEntries();
    OperandsMean(c);
    TotalMonotone(AllMeant(ops), ts[1..], LETTERS);
    AllMeantLength(ops);
    LowerWeighs(ts[0]);
    HeadWeighs(ts);
    MeantBegins(ps, LETTERS);
    LineIsJoined(ps);
    LineTally(ps, LETTERS);
  }

  lemma NothingWeighs()
    ensures Tally("", LETTERS) == 0
  {
  }

  lemma NoEntries()
    ensures Entries(map[]) == {}
  {
  }

  lemma AllMeantLength(ps: seq<Piece>)
    ensures |AllMeant(ps)| == |ps|
  {
  }

  lemma HeadWeighs(ts: seq<string>)
    requires ts != []
    ensures Total(ts, LETTERS) == Tally(ts[0], LETTERS) + Total(ts[1..], LETTERS)
  {
  }

  /** `handle` up to its dispatch: strip, check the length, read; None for a text that is too long. */
  function Route(text: string, maxLength: int): Option<Result<Command, Denial>> {
    var line := Text.Strip(text);
    if |line| > maxLength then None else Some(Read(line, false))
  }

  /** The router takes a shown command for the accepted one exactly when it is faithful, is not too
      long, and does not end in white space of any kind, which the router would strip. */
  lemma RouterReads(c: Command, maxLength: int)
    requires Accepted(c)
    ensures Rendered(c) != ""
    ensures Read(Text.Strip(Rendered(c)), false) == Ok(c) <==>
      Faithful(c) && !Text.IsSpace(Rendered(c)[|Rendered(c)| - 1])
    ensures Route(Rendered(c), maxLength) == Some(Ok(c)) <==>
      Faithful(c) && !Text.IsSpace(Rendered(c)[|Rendered(c)| - 1]) && |Rendered(c)| <= maxLength
  {
    hide Faithful, Operands, Read, Rendered, Accepted, Survives, Tally, Text.IsSpace;
    RenderedBegins(c);
    var text := Rendered(c);
    assert !Text.IsSpace('/') by {
      SlashIsNoSpace();
    }
    if Text.IsSpace(text[|text| - 1]) {
      StripRightLoses(text);
      if Read(Text.Strip(text), false) == Ok(c) {
        ReadWeighs(c, Text.Strip(text));
      }
    } else {
      RoundTripExactly(c);
      FaithfulSurvives(c);
    }
  }

  lemma SlashIsNoSpace()
    ensures !Text.IsSpace('/')
  {
  }

  /** The text an accepted suggestion is shown as: the router's lexer reads it back as the very same
      command if and only if the command is faithful, and the router itself if and only if, besides,
      the text fits and does not end in white space. */
  lemma RoundTrip(raw: string, maxLength: int)
    requires Validate(raw).Ok?
    ensures var c := Validate(raw).value;
      && Rendered(c) != ""
      && (Read(Rendered(c), false) == Ok(c) <==> Faithful(c))
      && (Route(Rendered(c), maxLength) == Some(Ok(c)) <==>
            Faithful(c) && !Text.IsSpace(Rendered(c)[|Rendered(c)| - 1]) && |Rendered(c)| <= maxLength)
  {
    hide Faithful, Operands, Read, Rendered, Accepted, Survives;
    var c := Validate(raw).value;
    ValidatedIsAccepted(raw);
    RoundTripExactly(c);
    FaithfulSurvives(c);
    RouterReads(c, maxLength);
  }

  // ---------------------------------------------------------------------
  // Accepted suggestions that are lost
  // ---------------------------------------------------------------------

  /** A suggestion of one quoted operand. */
  function Suggestion(v: string): string {
    "/run \"" + v + "\""
  }

  lemma SuggestionScans(v: string)
    requires Stable(v)
    ensures Scan(Suggestion(v), Blank, true) == Ok(["/run", v])
  {
    hide Scan, Stable;
    var quoted := "\"" + (v + "\"" + "");
    assert Suggestion(v) == "/run" + (" " + quoted);
    PlainRun("/run", Blank, " " + quoted, true);
    ScanStep(' ', quoted, " " + quoted, Word("/run"), true);
    ScanStep('"', v + "\"" + "", quoted, Blank, true);
    PrependTwice([], [], Scan(v + "\"" + "", Quoted(""), true));
    StableRun(v, "", "", true);
    ScanEnds(v, true);
    assert ["/run"] + [v] == ["/run", v];
    assert "" + "/run" == "/run" && "" + v == v;
  }

  lemma ScanEnds(t: string, hash: bool)
    ensures Scan("", Word(t), hash) == Ok([t])
  {
  }

  lemma SuggestionValidates(v: string)
    requires Stable(v) && !Unsafe(Suggestion(v))
    ensures Validate(Suggestion(v)) == PlaceAll(Command("/run", [], map[]), [v])
  {
    hide Scan, Stable, Unsafe, PlaceAll;
    SuggestionScans(v);
    assert Text.Strip(Suggestion(v)) == Suggestion(v);
    assert Text.Lower("/run") == "/run";
    assert ["/run", v][1..] == [v];
  }

  /** A quoted key may end in a newline, which the lexer does not give back. */
  lemma NewlineKeyIsLost()
    ensures var c := Command("/run", [], map["k\n" := "v"]);
      Validate(Suggestion("k\n=v")) == Ok(c) && Read(Rendered(c), false) != Ok(c)
  {
    hide Scan, Unsafe, Rendered, Operands, Place, Suggestion, Text.IsSpace;
    var c := Command("/run", [], map["k\n" := "v"]);
    NewlineKeyIsSafe();
    SuggestionValidates("k\n=v");
    assert ValidKey("k\n") && !IsName("k\n") by {
      var key := "k\n";
      assert key[..1] == "k" && key[1] == '\n' && key[1] in key && !NameChar(key[1]);
    }
    PlacingEntry(Command("/run", [], map[]), "k\n", "v");
    assert "k\n" + "=" + "v" == "k\n=v";
    assert ["k\n=v"][1..] == [];
    assert Validate(Suggestion("k\n=v")) == Ok(c);
    RoundTrip(Suggestion("k\n=v"), 0);
    assert !FlagFaithful("k\n", c.flags["k\n"]);
  }

  lemma NewlineKeyIsSafe()
    ensures !Unsafe(Suggestion("k\n=v")) && Stable("k\n=v")
  {
  }

  const HARD_SPACE := "a\U{A0}"

  /** A quoted argument may end in a no-break space, which the lexer gives back and the router's
      stripping does not. */
  lemma TrailingSpaceIsLost(maxLength: int)
    ensures var c := Command("/run", [HARD_SPACE], map[]);
      && Validate(Suggestion(HARD_SPACE)) == Ok(c)
      && Faithful(c) && Read(Rendered(c), false) == Ok(c)
      && Route(Rendered(c), maxLength) != Some(Ok(c))
  {
    hide Scan, Unsafe, Suggestion, Read, Text.IsSpace, Text.Strip;
    var c := Command("/run", [HARD_SPACE], map[]);
    TrailingSpaceIsSafe();
    SuggestionValidates(HARD_SPACE);
    PlacingArgs(Command("/run", [], map[]), [HARD_SPACE]);
    assert [] + [HARD_SPACE] == [HARD_SPACE];
    assert Validate(Suggestion(HARD_SPACE)) == Ok(c);
    assert Faithful(c);
    TrailingSpaceShown();
    RoundTrip(Suggestion(HARD_SPACE), maxLength);
  }

  lemma TrailingSpaceIsSafe()
    ensures !Unsafe(Suggestion(HARD_SPACE)) && Stable(HARD_SPACE) && Positional(HARD_SPACE)
    ensures HARD_SPACE != "" && Plain(HARD_SPACE)
  {
  }

  lemma TrailingSpaceShown()
    ensures var text := Rendered(Command("/run", [HARD_SPACE], map[]));
      text != "" && Text.IsSpace(text[|text| - 1])
  {
    var c := Command("/run", [HARD_SPACE], map[]);
    var ps := [Bare("/run")] + Operands(c);
    assert Operands(c) == [Bare(HARD_SPACE)];
    assert ps[1..] == [Bare(HARD_SPACE)];
    LineIsJoined(ps);
    assert Rendered(c) == "/run" + " " + HARD_SPACE;
  }

  // ---------------------------------------------------------------------
  // What the lexer makes of each character
  // ---------------------------------------------------------------------

  /** Every character with a backslash before it. */
  function EscapeAll(t: string): string {
    if t == "" then "" else ['\\', t[0]] + EscapeAll(t[1..])
  }

  /** A backslash before every quote and every backslash. */
  function EscapeMarks(t: string): string {
    if t == "" then "" else (if t[0] == '"' || t[0] == '\\' then ['\\', t[0]] else [t[0]]) + EscapeMarks(t[1..])
  }

  lemma EscapedOne(c: char, st: State, rest: string, hash: bool)
    requires st.Blank? || st.Word?
    ensures Scan(['\\', c] + rest, st, hash) == Scan(rest, Word(Token(st) + [c]), hash)
  {
    hide Scan;
    ScanStep('\\', [c] + rest, ['\\', c] + rest, st, hash);
    ScanStep(c, rest, [c] + rest, Escaped(Token(st), false), hash);
    PrependTwice([], [], Scan([c] + rest, Escaped(Token(st), false), hash));
    PrependTwice([], [], Scan(rest, Word(Token(st) + [c]), hash));
  }

  lemma EscapeAllStep(t: string)
    requires t != ""
    ensures EscapeAll(t) == ['\\', t[0]] + EscapeAll(t[1..]) && EscapeAll("") == ""
  {
  }

  lemma {:induction false} EscapedRun(t: string, st: State, rest: string, hash: bool)
    requires t != "" && (st.Blank? || st.Word?)
    ensures Scan(EscapeAll(t) + rest, st, hash) == Scan(rest, Word(Token(st) + t), hash)
  {
    hide Scan, EscapeAll;
    var first, more := t[0], t[1..];
    var after := EscapeAll(more) + rest;
    EscapeAllStep(t);
    assert EscapeAll(t) + rest == ['\\', first] + after;
    EscapedOne(first, st, after, hash);
    assert t == [first] + more;
    if more == "" {
      assert after == rest && t == [first] && Token(st) + [first] == Token(st) + t;
    } else {
      EscapedRun(more, Word(Token(st) + [first]), rest, hash);
      assert Token(st) + [first] + more == Token(st) + t;
    }
  }

  lemma {:induction false} QuotedRun(t: string, got: string, rest: string, hash: bool)
    ensures Scan(EscapeMarks(t) + "\"" + rest, Quoted(got), hash) == Scan(rest, Word(got + t), hash)
  {
    hide Scan;
    var line := EscapeMarks(t) + "\"" + rest;
    if t == "" {
      ScanStep('"', rest, line, Quoted(got), hash);
      PrependTwice([], [], Scan(rest, Word(got), hash));
      assert got + t == got;
    } else {
      var after := EscapeMarks(t[1..]) + "\"" + rest;
      if t[0] == '"' || t[0] == '\\' {
        assert line == ['\\'] + ([t[0]] + after);
        ScanStep('\\', [t[0]] + after, line, Quoted(got), hash);
        ScanStep(t[0], after, [t[0]] + after, Escaped(got, true), hash);
        PrependTwice([], [], Scan([t[0]] + after, Escaped(got, true), hash));
      } else {
        ScanStep(t[0], after, line, Quoted(got), hash);
      }
      PrependTwice([], [], Scan(after, Quoted(got + [t[0]]), hash));
      QuotedRun(t[1..], got + [t[0]], rest, hash);
      assert got + [t[0]] + t[1..] == got + t;
    }
  }

  /** Any text can be written as one token, by escaping every character, or in quotes after a plain
      beginning. */
  lemma AnyToken(w: string, t: string, hash: bool)
    requires Plain(w) && (hash ==> '#' !in w)
    ensures t != "" ==> Scan(EscapeAll(t), Blank, hash) == Ok([t])
    ensures Scan(w + "\"" + EscapeMarks(t) + "\"", Blank, hash) == Ok([w + t])
  {
    hide Scan;
    if t != "" {
      EscapedRun(t, Blank, "", hash);
      ScanEnds(t, hash);
      assert EscapeAll(t) + "" == EscapeAll(t) && "" + t == t;
    }
    var quoted := "\"" + (EscapeMarks(t) + "\"" + "");
    assert w + "\"" + EscapeMarks(t) + "\"" == w + quoted;
    ScanEnds(w + t, hash);
    if w == "" {
      assert w + quoted == quoted;
      ScanStep('"', EscapeMarks(t) + "\"" + "", quoted, Blank, hash);
    } else {
      PlainRun(w, Blank, quoted, hash);
      assert "" + w == w;
      ScanStep('"', EscapeMarks(t) + "\"" + "", quoted, Word(w), hash);
    }
    PrependTwice([], [], Scan(EscapeMarks(t) + "\"" + "", Quoted(w), hash));
    QuotedRun(t, w, "", hash);
  }

  /** The characters that end a token: blank, tab, CR and LF, and where comments are on, '#'. */
  lemma SeparatesExactly(w: string, c: char, rest: string, hash: bool)
    requires Plain(w) && w != "" && (hash ==> '#' !in w)
    ensures c as int in {32, 9, 13, 10} ==>
      Scan(w + [c] + rest, Blank, hash) == Prepend([w], Scan(rest, Blank, hash))
    ensures c as int in {32, 9, 13, 10} ==> Scan([c] + rest, Blank, hash) == Scan(rest, Blank, hash)
    ensures c == '#' && hash ==>
      && Scan(w + [c] + rest, Blank, hash) == Prepend([w], Scan(rest, Comment, hash))
      && Scan([c] + rest, Blank, hash) == Scan(rest, Comment, hash)
    ensures c as int !in {32, 9, 13, 10} && c != '"' && c != '\\' && !(c == '#' && hash) ==>
      Scan(w + [c] + rest, Blank, hash) == Scan(rest, Word(w + [c]), hash)
  {
    hide Scan;
    assert w + [c] + rest == w + ([c] + rest) && "" + w == w;
    PlainRun(w, Blank, [c] + rest, hash);
    ScanStep(c, rest, [c] + rest, Word(w), hash);
    ScanStep(c, rest, [c] + rest, Blank, hash);
    PrependTwice([], [], Scan(rest, Step(Word(w), c, hash), hash));
    PrependTwice([], [], Scan(rest, Step(Blank, c, hash), hash));
  }

  /** A comment goes on to the end of its line. */
  lemma {:induction false} CommentRun(comment: string, rest: string, hash: bool)
    requires '\n' !in comment
    ensures Scan(comment + "\n" + rest, Comment, hash) == Scan(rest, Blank, hash)
    ensures Scan(comment, Comment, hash) == Ok([])
  {
    var line := comment + "\n" + rest;
    if comment == "" {
      ScanStep('\n', rest, line, Comment, hash);
      PrependTwice([], [], Scan(rest, Blank, hash));
    } else {
      var after := comment[1..] + "\n" + rest;
      assert comment == [comment[0]] + comment[1..];
      assert comment[0] in comment;
      ScanStep(comment[0], after, line, Comment, hash);
      PrependTwice([], [], Scan(after, Comment, hash));
      PrependTwice([], [], Scan(comment[1..], Comment, hash));
      CommentRun(comment[1..], rest, hash);
    }
  }

  /** What is left open at the end is an error: a quote that is not closed, or nothing to escape. */
  lemma LeftOpen(t: string, hash: bool)
    ensures Scan("", Quoted(t), hash) == Err(NoClosingQuotation)
    ensures Scan("", Escaped(t, true), hash) == Scan("", Escaped(t, false), hash) == Err(NoEscapedCharacter)
    ensures Scan("", Word(t), hash) == Ok([t]) && Scan("", Blank, hash) == Scan("", Comment, hash) == Ok([])
  {
  }
}
