/**
 Temporary media files and the signed tokens that name them. The keyed hash is an
 arbitrary function of the payload bytes; a file is its name and modification time.
 */
module MediaStore {
  import opened Wrappers
  import opened Text

  const CLEANUP_BUFFER_SEC := 60

  // ---------------------------------------------------------------------
  // Tokens
  // ---------------------------------------------------------------------

  datatype Payload = Payload(filename: string, channel: string, expiry: int)

  function HexDigit(d: int): char
    requires 0 <= d < 16
  {
    "0123456789abcdef"[d]
  }

  function HexValue(c: char): Option<int> {
    if '0' <= c <= '9' then Some(c as int - '0' as int)
    else if 'a' <= c <= 'f' then Some(c as int - 'a' as int + 10)
    else if 'A' <= c <= 'F' then Some(c as int - 'A' as int + 10)
    else None
  }

  function Hex(b: seq<byte>): string {
    if b == [] then ""
    else [HexDigit(b[0] as int / 16), HexDigit(b[0] as int % 16)] + Hex(b[1..])
  }

  /** bytes.fromhex: either case, and ASCII whitespace between bytes is skipped. */
  function FromHex(s: string): Option<seq<byte>> {
    if s == "" then Some([])
    else if s[0] == ' ' || '\t' <= s[0] <= '\r' then FromHex(s[1..])
    else if |s| < 2 || HexValue(s[0]).None? || HexValue(s[1]).None? then None
    else
      var rest := FromHex(s[2..]);
      if rest.None? then None
      else Some([(16 * HexValue(s[0]).value + HexValue(s[1]).value) as byte] + rest.value)
  }

  function PayloadText(p: Payload): string {
    p.filename + ":" + p.channel + ":" + Decimal(p.expiry)
  }

  function Signature(mac: seq<byte> -> seq<byte>, payload: string): string {
    Hex(mac(Encode(payload)))
  }

  function GenerateToken(mac: seq<byte> -> seq<byte>, p: Payload): string {
    Hex(Encode(PayloadText(p))) + "." + Signature(mac, PayloadText(p))
  }

  /** `_decode_token`; every exception of the source ends in None. */
  function DecodeToken(mac: seq<byte> -> seq<byte>, token: string): Option<Payload> {
    var parts := Split(token, '.', |token|);
    if |parts| != 2 then None
    else
      var raw := FromHex(parts[0]);
      var payload := if raw.Some? then Decode(raw.value) else None;
      if payload.None? || parts[1] != Signature(mac, payload.value) then None
      else
        var fields := Split(payload.value, ':', 2);
        if |fields| != 3 || ParseInt(fields[2]).None? then None
        else Some(Payload(fields[0], fields[1], ParseInt(fields[2]).value))
  }

  lemma HexDigitRoundTrip(d: int)
    requires 0 <= d < 16
    ensures HexValue(HexDigit(d)) == Some(d) && HexDigit(d) != ' ' && !('\t' <= HexDigit(d) <= '\r')
  {
  }

  lemma {:induction false} HexRoundTrip(b: seq<byte>)
    ensures FromHex(Hex(b)) == Some(b)
  {
    if b != [] {
      HexRoundTrip(b[1..]);
      HexDigitRoundTrip(b[0] as int / 16);
      HexDigitRoundTrip(b[0] as int % 16);
      assert Hex(b)[2..] == Hex(b[1..]);
      assert b == [b[0]] + b[1..];
    }
  }

  lemma {:induction false} HexHasNoDot(b: seq<byte>)
    ensures '.' !in Hex(b)
  {
    if b != [] {
      HexHasNoDot(b[1..]);
      HexDigitRoundTrip(b[0] as int / 16);
      HexDigitRoundTrip(b[0] as int % 16);
    }
  }

  /** Text that split into two or three pieces, put together again. */
  lemma Pieces(s: string, sep: char, n: nat)
    ensures var p := Split(s, sep, n);
      && (|p| == 2 ==> s == p[0] + [sep] + p[1])
      && (|p| == 3 ==> s == p[0] + [sep] + (p[1] + [sep] + p[2]) && sep !in p[0] && sep !in p[1])
  {
    hide Split, Join;
    SplitJoin(s, sep, n);
    SplitPieces(s, sep, n);
    var p := Split(s, sep, n);
    if |p| == 2 {
      JoinPair(p[0], p[1], sep);
      assert p == [p[0], p[1]];
    } else if |p| == 3 {
      JoinCons(p[0], [p[1], p[2]], sep);
      JoinPair(p[1], p[2], sep);
      assert p == [p[0]] + [p[1], p[2]];
    }
  }

  lemma JoinPair(a: string, b: string, sep: char)
    ensures Join([a, b], sep) == a + [sep] + b
  {
    assert [a, b][1..] == [b];
  }

  /** A decoded token always carries the signature of text that splits into its three fields. */
  lemma DecodedIsSigned(mac: seq<byte> -> seq<byte>, token: string) returns (head: string, stamp: string)
    requires DecodeToken(mac, token).Some?
    ensures var p := DecodeToken(mac, token).value;
      var text := p.filename + ":" + (p.channel + ":" + stamp);
      && ':' !in p.filename && ':' !in p.channel
      && token == head + "." + Signature(mac, text)
      && FromHex(head).Some? && Decode(FromHex(head).value) == Some(text)
      && ParseInt(stamp) == Some(p.expiry)
  {
    hide Split, FromHex, Decode, ParseInt, Signature;
    var parts := Split(token, '.', |token|);
    Pieces(token, '.', |token|);
    head := parts[0];
    var payload := Decode(FromHex(head).value).value;
    Pieces(payload, ':', 2);
    stamp := Split(payload, ':', 2)[2];
  }

  lemma PayloadSplits(p: Payload)
    requires ':' !in p.filename && ':' !in p.channel
    ensures Split(PayloadText(p), ':', 2) == [p.filename, p.channel, Decimal(p.expiry)]
  {
    var stamp := Decimal(p.expiry);
    var tail := p.channel + [':'] + stamp;
    assert PayloadText(p) == p.filename + [':'] + tail;
    SplitHead(p.filename, tail, ':', 2);
    SplitHead(p.channel, stamp, ':', 1);
  }

  lemma TokenSplits(mac: seq<byte> -> seq<byte>, text: string)
    ensures var token := Hex(Encode(text)) + "." + Signature(mac, text);
      Split(token, '.', |token|) == [Hex(Encode(text)), Signature(mac, text)]
  {
    var head, sig := Hex(Encode(text)), Signature(mac, text);
    var token := head + "." + sig;
    HexHasNoDot(Encode(text));
    HexHasNoDot(mac(Encode(text)));
    assert token == head + ['.'] + sig;
    SplitHead(head, sig, '.', |token|);
    assert Split(sig, '.', |token| - 1) == [sig];
  }

  /** A stray colon ends up in the expiry field, which then is no number. */
  lemma StrayColon(p: Payload)
    requires ':' in p.filename || ':' in p.channel
    ensures var fields := Split(PayloadText(p), ':', 2);
      |fields| == 3 && ParseInt(fields[2]).None?
  {
    var stamp := Decimal(p.expiry);
    var tail := p.channel + (":" + stamp);
    var text := PayloadText(p);
    assert text == p.filename + (":" + tail);
    CountConcat(p.filename, ":" + tail, ':');
    CountConcat(":", tail, ':');
    CountConcat(p.channel, ":" + stamp, ':');
    CountConcat(":", stamp, ':');
    CountIn(p.filename, ':');
    CountIn(p.channel, ':');
    LeftoverSeparator(text, ':', 2);
    var last := Split(text, ':', 2)[2];
    if ParseInt(last).Some? {
      ParseIntChars(last);
    }
  }

  /** What the decoder makes of signed text, whatever the text. */
  lemma DecodeSigned(mac: seq<byte> -> seq<byte>, text: string)
    ensures var fields := Split(text, ':', 2);
      DecodeToken(mac, Hex(Encode(text)) + "." + Signature(mac, text)) ==
        if |fields| != 3 || ParseInt(fields[2]).None? then None
        else Some(Payload(fields[0], fields[1], ParseInt(fields[2]).value))
  {
    TokenSplits(mac, text);
    HexRoundTrip(Encode(text));
    DecodeEncode(text);
  }

  /** Decoding a generated token gives back what went in exactly when neither the file name
      nor the channel id contains a colon; with a colon in either, the token is never accepted. */
  lemma TokenRoundTrip(mac: seq<byte> -> seq<byte>, p: Payload)
    ensures DecodeToken(mac, GenerateToken(mac, p)) ==
      if ':' in p.filename || ':' in p.channel then None else Some(p)
  {
    DecodeSigned(mac, PayloadText(p));
    if ':' in p.filename || ':' in p.channel {
      StrayColon(p);
    } else {
      PayloadSplits(p);
      ParseDecimal(p.expiry);
    }
  }

  // ---------------------------------------------------------------------
  // Expiry and cleanup
  // ---------------------------------------------------------------------

  function Expiry(now: real, ttl: nat): int {
    (now + ttl as real).Floor
  }

  /** `get_image_path` still accepts a token with this expiry. */
  predicate Unexpired(now: real, expiry: int) {
    now.Floor <= expiry
  }

  /** `cleanup` deletes a file with this modification time. */
  predicate Stale(mtime: real, now: real, ttl: nat) {
    mtime < now - ttl as real - CLEANUP_BUFFER_SEC as real
  }

  function Cleaned(files: map<string, real>, now: real, ttl: nat): map<string, real> {
    map f | f in files && !Stale(files[f], now, ttl) :: files[f]
  }

  /** A file can be cleaned up while its token is still good exactly when the token was issued
      so late after the write that the rounded-down expiry outlasts the file's grace period. */
  lemma CleanableWhileLive(written: real, issued: real, ttl: nat)
    requires written <= issued
    ensures (exists now :: issued <= now && Unexpired(now, Expiry(issued, ttl)) && Stale(written, now, ttl))
       <==> written + ttl as real + 60.0 < Expiry(issued, ttl) as real + 1.0
  {
    var limit := Expiry(issued, ttl) as real + 1.0;
    var grace := written + ttl as real + CLEANUP_BUFFER_SEC as real;
    if grace < limit {
      var from := if grace < issued then issued else grace;
      var now := (from + limit) / 2.0;
      assert issued <= now && Unexpired(now, Expiry(issued, ttl)) && Stale(written, now, ttl);
    }
  }

  /** 59 seconds between write and issue are always safe, whatever the roundings. */
  lemma PromptTokensAreSafe(written: real, issued: real, now: real, ttl: nat)
    requires issued - written <= 59.0 && Unexpired(now, Expiry(issued, ttl))
    ensures !Stale(written, now, ttl)
  {
  }

  // ---------------------------------------------------------------------
  // The directory over time
  // ---------------------------------------------------------------------

  datatype Op = Write(name: string, at: real) | Issue(name: string, channel: string, at: real) | Sweep(at: real)

  /** One token handed out. */
  datatype Issued = Issued(name: string, channel: string, at: real)

  /** The directory, each name's last write, the tokens issued, and the clock. */
  datatype World = World(files: map<string, real>, written: map<string, real>, tokens: set<Issued>, clock: real)

  predicate Possible(w: World, op: Op) {
    w.clock <= op.at && (op.Issue? ==> op.name in w.written)
  }

  function Do(w: World, op: Op, ttl: nat): World {
    match op
    case Write(name, at) => World(w.files[name := at], w.written[name := at], w.tokens, at)
    case Issue(name, channel, at) => World(w.files, w.written, w.tokens + {Issued(name, channel, at)}, at)
    case Sweep(at) => World(Cleaned(w.files, at, ttl), w.written, w.tokens, at)
  }

  function DoAll(w: World, ops: seq<Op>, ttl: nat): World
    decreases |ops|
  {
    if ops == [] then w else DoAll(Do(w, ops[0], ttl), ops[1..], ttl)
  }

  ghost predicate Run(w: World, ops: seq<Op>, ttl: nat, w': World)
    decreases |ops|
  {
    if ops == [] then w == w'
    else Possible(w, ops[0]) && Run(Do(w, ops[0], ttl), ops[1..], ttl, w')
  }

  const NO_FILES := World(map[], map[], {}, 0.0)

  /** What `store_image` does to the directory. */
  function Storing(name: string, channel: string, sweep: bool, fits: bool, written: real, issued: real): seq<Op> {
    (if sweep then [Sweep(written)] else []) +
    (if fits then [Write(name, written), Issue(name, channel, issued)] else [])
  }

  /** What `get_image_path` answers. */
  function Answer(mac: seq<byte> -> seq<byte>, files: map<string, real>, token: string, now: real): Option<string> {
    var p := DecodeToken(mac, token);
    if p.Some? && Unexpired(now, p.value.expiry) && p.value.filename in files then Some(p.value.filename) else None
  }

  class MediaStore {
    const mac: seq<byte> -> seq<byte>
    const ttl: nat
    const maxBytes: int
    var files: map<string, real>
    ghost var world: World      // the directory with its history
    ghost var past: seq<Op>     // everything done so far

    /** The history is a run, and the directory is where it led. */
    ghost predicate Valid()
      reads this
    {
      files == world.files && Run(NO_FILES, past, ttl, world)
    }

    constructor (mac: seq<byte> -> seq<byte>, ttl: nat, maxBytes: int)
      ensures this.mac == mac && this.ttl == ttl && this.maxBytes == maxBytes
      ensures Valid() && files == map[] && past == []
    {
      this.mac, this.ttl, this.maxBytes := mac, ttl, maxBytes;
      files := map[];
      world, past := NO_FILES, [];
    }

    /** The loop over the directory. */
    method SweepFiles(now: real)
      modifies this`files
      ensures files == Cleaned(old(files), now, ttl)
    {
      var left := files.Keys;
      while left != {}
        invariant left <= old(files).Keys
        invariant files == map f | f in old(files) && (f in left || !Stale(old(files)[f], now, ttl)) :: old(files)[f]
        decreases left
      {
        var p :| p in left;
        if files[p] < now - ttl as real - CLEANUP_BUFFER_SEC as real {
          files := files - {p};
        }
        left := left - {p};
      }
    }

    method Cleanup(now: real)
      requires Valid() && world.clock <= now
      modifies this
      ensures Valid() && world == Do(old(world), Sweep(now), ttl) && past == old(past) + [Sweep(now)]
      ensures files == Cleaned(old(files), now, ttl)
      ensures forall f :: f in files <==> f in old(files) && now <= old(files)[f] + ttl as real + 60.0
      ensures forall f :: f in files ==> files[f] == old(files)[f]
    {
      SweepFiles(now);
      RunMore(NO_FILES, past, ttl, world, Sweep(now));
      world, past := Do(world, Sweep(now), ttl), past + [Sweep(now)];
    }

    /** `sweep` is the one-in-ten cleanup; the name is the random one drawn for this file. */
    method StoreImage(size: int, name: string, channel: string, sweep: bool, written: real, issued: real)
      returns (token: Option<string>)
      requires Valid() && world.clock <= written <= issued
      modifies this
      ensures var done := Storing(name, channel, sweep, size <= maxBytes, written, issued);
        Valid() && world == DoAll(old(world), done, ttl) && past == old(past) + done
      ensures var kept := if sweep then Cleaned(old(files), written, ttl) else old(files);
        files == if size > maxBytes then kept else kept[name := written]
      ensures token == if size > maxBytes then None
        else Some(GenerateToken(mac, Payload(name, channel, Expiry(issued, ttl))))
    {
      hide Run, GenerateToken, Cleaned;
      ghost var done: seq<Op> := [];
      if sweep {
        Cleanup(written);
        done := [Sweep(written)];
      }
      assert past == old(past) + done && world == DoAll(old(world), done, ttl);
      if size > maxBytes {
        return None;
      }
      files := files[name := written];
      ghost var write, issue := Write(name, written), Issue(name, channel, issued);
      RunMore(NO_FILES, past, ttl, world, write);
      DoOneMore(old(world), done, write, ttl);
      world, past := Do(world, write, ttl), past + [write];
      RunMore(NO_FILES, past, ttl, world, issue);
      DoOneMore(old(world), done + [write], issue, ttl);
      world, past := Do(world, issue, ttl), past + [issue];
      assert done + [write] + [issue] == Storing(name, channel, sweep, true, written, issued);
      assert past == old(past) + (done + [write] + [issue]);
      token := Some(GenerateToken(mac, Payload(name, channel, Expiry(issued, ttl))));
    }

    method GetImagePath(token: string, now: real) returns (name: Option<string>)
      ensures name == Answer(mac, files, token, now)
      ensures name.Some? <==>
        && DecodeToken(mac, token).Some?
        && Unexpired(now, DecodeToken(mac, token).value.expiry)
        && DecodeToken(mac, token).value.filename in files
      ensures name.Some? ==> name.value == DecodeToken(mac, token).value.filename
    {
      var payload := DecodeToken(mac, token);
      if payload.None? {
        return None;
      }
      if now.Floor > payload.value.expiry {
        return None;
      }
      if payload.value.filename !in files {
        return None;
      }
      name := Some(payload.value.filename);
    }
  }

  lemma {:induction false} RunMore(w: World, ops: seq<Op>, ttl: nat, w': World, op: Op)
    requires Run(w, ops, ttl, w') && Possible(w', op)
    ensures Run(w, ops + [op], ttl, Do(w', op, ttl))
    decreases |ops|
  {
    if ops == [] {
      assert ops + [op] == [op] && [op][1..] == [];
    } else {
      assert (ops + [op])[1..] == ops[1..] + [op];
      RunMore(Do(w, ops[0], ttl), ops[1..], ttl, w', op);
    }
  }

  lemma {:induction false} DoOneMore(w: World, ops: seq<Op>, op: Op, ttl: nat)
    ensures DoAll(w, ops + [op], ttl) == Do(DoAll(w, ops, ttl), op, ttl)
    decreases |ops|
  {
    if ops == [] {
      assert ops + [op] == [op] && [op][1..] == [];
    } else {
      assert (ops + [op])[1..] == ops[1..] + [op];
      DoOneMore(Do(w, ops[0], ttl), ops[1..], op, ttl);
    }
  }

  /** Within its grace period a written file is there, with its last write time. */
  ghost predicate Kept(w: World, ttl: nat) {
    && (forall n :: n in w.written ==> w.written[n] <= w.clock)
    && (forall n :: n in w.written && !Stale(w.written[n], w.clock, ttl) ==>
          n in w.files && w.files[n] == w.written[n])
    && (forall n :: n in w.files ==> n in w.written && w.files[n] == w.written[n])
    && (forall t :: t in w.tokens ==> t.name in w.written)
  }

  lemma {:induction false} RunKeeps(w: World, ops: seq<Op>, ttl: nat, w': World)
    requires Kept(w, ttl) && Run(w, ops, ttl, w')
    ensures Kept(w', ttl)
    ensures forall n :: n in w.written ==> n in w'.written && w.written[n] <= w'.written[n]
    decreases |ops|
  {
    if ops != [] {
      assert Kept(Do(w, ops[0], ttl), ttl);
      RunKeeps(Do(w, ops[0], ttl), ops[1..], ttl, w');
    }
  }

  /** Over any run from an empty directory: once a token was issued within 59 seconds of its
      file's write, nothing that happens later removes the file while the token is unexpired. */
  lemma LiveFilesSurvive(before: seq<Op>, w: World, name: string, channel: string, issued: real,
                         after: seq<Op>, w': World, ttl: nat)
    requires Run(NO_FILES, before, ttl, w)
    requires name in w.written && w.clock <= issued <= w.written[name] + 59.0
    requires Run(Do(w, Issue(name, channel, issued), ttl), after, ttl, w')
    requires Unexpired(w'.clock, Expiry(issued, ttl))
    ensures name in w'.files
  {
    RunKeeps(NO_FILES, before, ttl, w);
    var w1 := Do(w, Issue(name, channel, issued), ttl);
    assert Kept(w1, ttl);
    RunKeeps(w1, after, ttl, w');
    PromptTokensAreSafe(w.written[name], issued, w'.clock, ttl);
  }

  /** From issue to use: over any run, the token of a file written at most 59 seconds before is
      answered with the file's name exactly as long as it is unexpired, if neither the name nor the
      channel holds a colon, and never otherwise. */
  lemma PromptTokensAreAnswered(mac: seq<byte> -> seq<byte>, before: seq<Op>, w: World, name: string, channel: string,
                                issued: real, after: seq<Op>, w': World, ttl: nat, now: real)
    requires Run(NO_FILES, before, ttl, w)
    requires name in w.written && w.clock <= issued <= w.written[name] + 59.0
    requires Run(Do(w, Issue(name, channel, issued), ttl), after, ttl, w') && w'.clock <= now
    ensures var answer := Answer(mac, w'.files, GenerateToken(mac, Payload(name, channel, Expiry(issued, ttl))), now);
      && answer == (if ':' !in name && ':' !in channel && now.Floor <= (issued + ttl as real).Floor then Some(name)
                    else None)
      && (':' !in name && ':' !in channel && now <= issued + ttl as real ==> answer == Some(name))
      && (now >= issued + ttl as real + 1.0 ==> answer == None)
  {
    hide DecodeToken, GenerateToken, Run, Do;
    TokenRoundTrip(mac, Payload(name, channel, Expiry(issued, ttl)));
    if Unexpired(now, Expiry(issued, ttl)) {
      LiveFilesSurvive(before, w, name, channel, issued, after, w', ttl);
    }
  }

  // ---------------------------------------------------------------------
  // Read off the clock and the characters
  // ---------------------------------------------------------------------

  /** The expiry is the time to live after the issue, rounded down to a second. */
  lemma ExpiryExactly(now: real, ttl: nat)
    ensures Expiry(now, ttl) as real <= now + ttl as real < Expiry(now, ttl) as real + 1.0
  {
  }

  /** A token is good through the second it expires in; a file is kept a minute longer than its time
      to live. */
  lemma DeadlinesExactly(now: real, expiry: int, mtime: real, ttl: nat)
    ensures Unexpired(now, expiry) <==> now < expiry as real + 1.0
    ensures Stale(mtime, now, ttl) <==> mtime + ttl as real + 60.0 < now
  {
  }

  /** Two lower-case digits for each byte. */
  lemma {:induction false} HexExactly(b: seq<byte>, i: nat)
    requires i < |b|
    ensures |Hex(b)| == 2 * |b|
    ensures Hex(b)[2 * i] == "0123456789abcdef"[b[i] as int / 16]
    ensures Hex(b)[2 * i + 1] == "0123456789abcdef"[b[i] as int % 16]
  {
    var rest := Hex(b[1..]);
    assert Hex(b)[2..] == rest;
    if |b| > 1 {
      HexExactly(b[1..], if i > 0 then i - 1 else 0);
      assert i > 0 ==> Hex(b)[2 * i] == rest[2 * (i - 1)] && Hex(b)[2 * i + 1] == rest[2 * (i - 1) + 1];
    } else {
      assert b[1..] == [];
    }
  }

  /** Reading is as lenient as the source's: digits of either case, and white space before a byte. */
  lemma HexReads(a: char, c: char, rest: string)
    ensures HexValue(a).Some? <==> a in "0123456789abcdefABCDEF"
    ensures 'A' <= a <= 'F' ==> HexValue(a) == HexValue((a as int + 32) as char)
    ensures a == ' ' || 9 <= a as int <= 13 ==> FromHex([a] + rest) == FromHex(rest)
    ensures HexValue(a).None? && a != ' ' && !(9 <= a as int <= 13) ==> FromHex([a] + rest) == None
    ensures HexValue(a).Some? ==> FromHex([a]) == None
    ensures HexValue(a).Some? && HexValue(c).None? ==> FromHex([a, c] + rest) == None
  {
    assert ([a] + rest)[1..] == rest;
  }

  /** A token is the payload in hex, a dot, and the keyed hash of the payload in hex. */
  lemma TokenLooks(mac: seq<byte> -> seq<byte>, p: Payload)
    ensures var text := Encode(p.filename + ":" + p.channel + ":" + Decimal(p.expiry));
      GenerateToken(mac, p) == Hex(text) + "." + Hex(mac(text))
  {
  }

  lemma {:induction false} HexTextHasNoDot(s: string)
    requires FromHex(s).Some?
    ensures '.' !in s
    decreases |s|
  {
    if s != "" {
      if s[0] == ' ' || '\t' <= s[0] <= '\r' {
        HexTextHasNoDot(s[1..]);
        assert s == [s[0]] + s[1..];
      } else {
        HexTextHasNoDot(s[2..]);
        assert s == [s[0], s[1]] + s[2..];
      }
    }
  }

  /** Which tokens are accepted, and with what: a head that reads as text, the signature of that text,
      and in the text two colons before a number. */
  lemma DecodesExactly(mac: seq<byte> -> seq<byte>, head: string, sig: string)
    requires FromHex(head).Some? && Decode(FromHex(head).value).Some? && '.' !in sig
    ensures var text := Decode(FromHex(head).value).value;
      var fields := Split(text, ':', 2);
      DecodeToken(mac, head + "." + sig) ==
        if sig == Hex(mac(Encode(text))) && |fields| == 3 && ParseInt(fields[2]).Some?
        then Some(Payload(fields[0], fields[1], ParseInt(fields[2]).value)) else None
  {
    hide FromHex, Decode, ParseInt, Split;
    var token := head + "." + sig;
    HexTextHasNoDot(head);
    SplitHead(head, sig, '.', |token|);
    SplitNone(sig, '.', |token| - 1);
    assert token == head + ['.'] + sig;
    assert Split(token, '.', |token|) == [head, sig];
  }

  /** And every accepted token is one of these. */
  lemma DecodesOnly(mac: seq<byte> -> seq<byte>, token: string)
    requires DecodeToken(mac, token).Some?
    ensures exists head, sig :: token == head + "." + sig && '.' !in sig && FromHex(head).Some?
  {
    hide FromHex, Decode, ParseInt;
    var parts := Split(token, '.', |token|);
    Pieces(token, '.', |token|);
    HexHasNoDot(mac(Encode(Decode(FromHex(parts[0]).value).value)));
    assert token == parts[0] + "." + parts[1] && '.' !in parts[1] && FromHex(parts[0]).Some?;
  }

  /** What is stored, and what is refused for being too large. */
  lemma StoringExactly(w: World, name: string, channel: string, sweep: bool, fits: bool,
                       written: real, issued: real, ttl: nat)
    ensures var after := DoAll(w, Storing(name, channel, sweep, fits, written, issued), ttl);
      && (fits ==> name in after.files && after.files[name] == written && Issued(name, channel, issued) in after.tokens)
      && (!fits ==> after.tokens == w.tokens && after.written == w.written)
      && (forall f :: f in after.files && (f != name || !fits) ==> f in w.files && after.files[f] == w.files[f])
      && (forall f :: f in w.files && (f != name || !fits) ==>
            (f in after.files <==> !sweep || written <= w.files[f] + ttl as real + 60.0))
  {
    var write, issue := Write(name, written), Issue(name, channel, issued);
    var swept := if sweep then Do(w, Sweep(written), ttl) else w;
    var put := if fits then [write, issue] else [];
    DoFirst(w, Sweep(written), put, ttl);
    assert [] + put == put;
    assert DoAll(w, Storing(name, channel, sweep, fits, written, issued), ttl) == DoAll(swept, put, ttl);
    DoFirst(swept, write, [issue], ttl);
    DoFirst(Do(swept, write, ttl), issue, [], ttl);
    assert [write] + [issue] == [write, issue] && [issue] + [] == [issue];
    assert fits ==> DoAll(swept, put, ttl) == Do(Do(swept, write, ttl), issue, ttl);
  }

  lemma DoFirst(w: World, op: Op, rest: seq<Op>, ttl: nat)
    ensures DoAll(w, [op] + rest, ttl) == DoAll(Do(w, op, ttl), rest, ttl)
    ensures DoAll(w, [], ttl) == w
  {
    assert ([op] + rest)[1..] == rest;
  }
}
