/** The few Python string primitives the modules share: decimal integers, splitting, UTF-8. */
module Text {
  import opened Wrappers

  newtype byte = i: int | 0 <= i < 256

  // ---------------------------------------------------------------------
  // Decimal integers: str(n) and int(s) on ASCII text
  // ---------------------------------------------------------------------

  function Digit(d: int): char
    requires 0 <= d < 10
  {
    "0123456789"[d]
  }

  predicate IsDigit(c: char) {
    '0' <= c <= '9'
  }

  function DigitValue(c: char): int
    requires IsDigit(c)
  {
    c as int - '0' as int
  }

  function Natural(n: nat): string {
    if n < 10 then [Digit(n)] else Natural(n / 10) + [Digit(n % 10)]
  }

  function Decimal(n: int): string {
    if n < 0 then "-" + Natural(-n) else Natural(n)
  }

  /** What `str.strip` takes off. */
  predicate IsSpace(c: char) {
    '\t' <= c <= '\r' || '\U{1C}' <= c <= ' ' || c == '\U{85}' || c == '\U{A0}' || c == '\U{1680}' ||
    '\U{2000}' <= c <= '\U{200A}' || '\U{2028}' <= c <= '\U{2029}' || c == '\U{202F}' || c == '\U{205F}' ||
    c == '\U{3000}'
  }

  function StripLeft(s: string): string {
    if s != "" && IsSpace(s[0]) then StripLeft(s[1..]) else s
  }

  function StripRight(s: string): string {
    if s != "" && IsSpace(s[|s| - 1]) then StripRight(s[..|s| - 1]) else s
  }

  function Strip(s: string): string {
    StripRight(StripLeft(s))
  }

  function LowerChar(c: char): char {
    if 'A' <= c <= 'Z' then (c as int + 32) as char else c
  }

  /** str.lower() on ASCII letters. */
  function Lower(s: string): string {
    seq(|s|, i requires 0 <= i < |s| => LowerChar(s[i]))
  }

  /** Digits with single underscores between them, read from the right. */
  function ParseDigits(s: string): Option<nat> {
    if s == "" || !IsDigit(s[|s| - 1]) then None
    else
      var d := DigitValue(s[|s| - 1]);
      var rest := s[..|s| - 1];
      if rest == "" then Some(d)
      else
        var high := ParseDigits(if rest[|rest| - 1] == '_' then rest[..|rest| - 1] else rest);
        if high.None? then None else Some(10 * high.value + d)
  }

  function Signed(sign: int, n: Option<nat>): Option<int> {
    if n.None? then None else Some(sign * n.value)
  }

  function ParseInt(s: string): Option<int> {
    var t := Strip(s);
    if t != "" && t[0] == '-' then
      Signed(-1, ParseDigits(t[1..]))
    else
      Signed(1, ParseDigits(if t != "" && t[0] == '+' then t[1..] else t))
  }

  lemma {:induction false} NaturalDigits(n: nat)
    ensures Natural(n) != "" && forall i :: 0 <= i < |Natural(n)| ==> IsDigit(Natural(n)[i])
  {
    if n >= 10 {
      NaturalDigits(n / 10);
    }
  }

  lemma {:induction false} ParseNatural(n: nat)
    ensures ParseDigits(Natural(n)) == Some(n)
  {
    NaturalDigits(n);
    if n >= 10 {
      ParseNatural(n / 10);
      NaturalDigits(n / 10);
      var s := Natural(n);
      assert s[..|s| - 1] == Natural(n / 10);
    }
  }

  lemma NothingToStrip(s: string)
    requires s != "" && !IsSpace(s[0]) && !IsSpace(s[|s| - 1])
    ensures Strip(s) == s
  {
  }

  predicate AllDigits(s: string) {
    s != "" && forall i :: 0 <= i < |s| ==> IsDigit(s[i])
  }

  lemma ParsePlain(s: string)
    requires AllDigits(s)
    ensures ParseInt(s) == Signed(1, ParseDigits(s))
  {
    hide StripLeft, StripRight, ParseDigits;
    NothingToStrip(s);
  }

  lemma ParseNegative(s: string)
    requires AllDigits(s)
    ensures ParseInt("-" + s) == Signed(-1, ParseDigits(s))
  {
    hide StripLeft, StripRight, ParseDigits;
    NothingToStrip("-" + s);
    assert ("-" + s)[1..] == s;
  }

  /** int(str(n)) == n. */
  lemma ParseDecimal(n: int)
    ensures ParseInt(Decimal(n)) == Some(n)
  {
    hide Natural, ParseDigits, ParseInt;
    var m := if n < 0 then -n else n;
    NaturalDigits(m);
    ParseNatural(m);
    if n < 0 {
      ParseNegative(Natural(m));
    } else {
      ParsePlain(Natural(m));
    }
  }

  predicate IntChar(c: char) {
    IsDigit(c) || c == '_' || c == '-' || c == '+' || IsSpace(c)
  }

  lemma {:induction false} DigitsChars(s: string)
    requires ParseDigits(s).Some?
    ensures forall c :: c in s ==> IntChar(c)
    decreases |s|
  {
    var rest := s[..|s| - 1];
    assert s == rest + [s[|s| - 1]];
    if rest != "" {
      if rest[|rest| - 1] == '_' {
        DigitsChars(rest[..|rest| - 1]);
        assert rest == rest[..|rest| - 1] + ['_'];
      } else {
        DigitsChars(rest);
      }
    }
  }

  lemma {:induction false} StripLeftChars(s: string)
    ensures forall c :: c in s ==> c in StripLeft(s) || IsSpace(c)
  {
    if s != "" && IsSpace(s[0]) {
      StripLeftChars(s[1..]);
      assert s == [s[0]] + s[1..];
    }
  }

  lemma {:induction false} StripRightChars(s: string)
    ensures forall c :: c in s ==> c in StripRight(s) || IsSpace(c)
    decreases |s|
  {
    if s != "" && IsSpace(s[|s| - 1]) {
      StripRightChars(s[..|s| - 1]);
      assert s == s[..|s| - 1] + [s[|s| - 1]];
    }
  }

  /** Text that int() accepts is made of digits, underscores, signs and whitespace only. */
  lemma ParseIntChars(s: string)
    requires ParseInt(s).Some?
    ensures forall c :: c in s ==> IntChar(c)
  {
    StripLeftChars(s);
    StripRightChars(StripLeft(s));
    var t := Strip(s);
    if t != "" && (t[0] == '-' || t[0] == '+') {
      DigitsChars(t[1..]);
      assert t == [t[0]] + t[1..];
    } else {
      DigitsChars(t);
    }
  }

  // ---------------------------------------------------------------------
  // s.split(sep, n)
  // ---------------------------------------------------------------------

  function Before(s: string, sep: char): string {
    if s == "" || s[0] == sep then "" else [s[0]] + Before(s[1..], sep)
  }

  lemma {:induction false} BeforeFirst(s: string, sep: char)
    ensures |Before(s, sep)| <= |s| && Before(s, sep) == s[..|Before(s, sep)|]
    ensures sep !in Before(s, sep)
    ensures sep in s ==> |Before(s, sep)| < |s| && s[|Before(s, sep)|] == sep
    ensures sep !in s ==> Before(s, sep) == s
  {
    if s != "" && s[0] != sep {
      BeforeFirst(s[1..], sep);
    }
  }

  /** At most n cuts, from the left. */
  function Split(s: string, sep: char, n: nat): seq<string> {
    BeforeFirst(s, sep);
    if n == 0 || sep !in s then [s]
    else [Before(s, sep)] + Split(s[|Before(s, sep)| + 1..], sep, n - 1)
  }

  function Join(parts: seq<string>, sep: char): string
    requires parts != []
  {
    if |parts| == 1 then parts[0] else parts[0] + [sep] + Join(parts[1..], sep)
  }

  lemma SplitHead(a: string, rest: string, sep: char, n: nat)
    requires sep !in a && n > 0
    ensures Split(a + [sep] + rest, sep, n) == [a] + Split(rest, sep, n - 1)
  {
    var s := a + [sep] + rest;
    assert s[|a|] == sep;
    BeforeFirst(s, sep);
    var b := Before(s, sep);
    assert forall i :: 0 <= i < |a| ==> s[i] == a[i];
    assert b == a;
    assert s[|a| + 1..] == rest;
  }

  lemma JoinCons(a: string, parts: seq<string>, sep: char)
    requires parts != []
    ensures Join([a] + parts, sep) == a + [sep] + Join(parts, sep)
  {
    assert ([a] + parts)[1..] == parts;
  }

  lemma CutAtFirst(s: string, sep: char)
    requires sep in s
    ensures |Before(s, sep)| < |s| && s == Before(s, sep) + [sep] + s[|Before(s, sep)| + 1..]
  {
    BeforeFirst(s, sep);
  }

  lemma SplitCons(s: string, sep: char, n: nat)
    requires n > 0 && sep in s
    ensures |Before(s, sep)| < |s| && sep !in Before(s, sep)
    ensures Split(s, sep, n) == [Before(s, sep)] + Split(s[|Before(s, sep)| + 1..], sep, n - 1)
  {
    BeforeFirst(s, sep);
  }

  lemma SplitNone(s: string, sep: char, n: nat)
    requires n == 0 || sep !in s
    ensures Split(s, sep, n) == [s] && Join([s], sep) == s
  {
  }

  /** Splitting loses nothing. */
  lemma {:induction false} SplitJoin(s: string, sep: char, n: nat)
    ensures Split(s, sep, n) != [] && Join(Split(s, sep, n), sep) == s
    decreases n
  {
    hide *;
    if n > 0 && sep in s {
      CutAtFirst(s, sep);
      SplitCons(s, sep, n);
      var b := Before(s, sep);
      var rest := Split(s[|b| + 1..], sep, n - 1);
      SplitJoin(s[|b| + 1..], sep, n - 1);
      JoinCons(b, rest, sep);
      assert Split(s, sep, n) == [b] + rest;
    } else {
      SplitNone(s, sep, n);
    }
  }

  /** Every piece but the last is free of the separator. */
  lemma {:induction false} SplitPieces(s: string, sep: char, n: nat)
    ensures |Split(s, sep, n)| <= n + 1
    ensures forall i :: 0 <= i < |Split(s, sep, n)| - 1 ==> sep !in Split(s, sep, n)[i]
    decreases n
  {
    if n > 0 && sep in s {
      hide Before, Split;
      SplitCons(s, sep, n);
      var first, rest := Before(s, sep), Split(s[|Before(s, sep)| + 1..], sep, n - 1);
      SplitPieces(s[|Before(s, sep)| + 1..], sep, n - 1);
      assert Split(s, sep, n) == [first] + rest;
    }
  }

  function Count(s: string, c: char): nat {
    if s == "" then 0 else (if s[0] == c then 1 else 0) + Count(s[1..], c)
  }

  lemma {:induction false} CountConcat(a: string, b: string, c: char)
    ensures Count(a + b, c) == Count(a, c) + Count(b, c)
  {
    if a == "" {
      assert a + b == b;
    } else {
      assert (a + b)[1..] == a[1..] + b;
      CountConcat(a[1..], b, c);
    }
  }

  lemma {:induction false} CountIn(s: string, c: char)
    ensures Count(s, c) > 0 <==> c in s
  {
    if s != "" {
      CountIn(s[1..], c);
      assert s == [s[0]] + s[1..];
    }
  }

  lemma {:induction false} CountAfterFirst(s: string, sep: char)
    requires sep in s
    ensures |Before(s, sep)| < |s| && Count(s, sep) == 1 + Count(s[|Before(s, sep)| + 1..], sep)
  {
    if s[0] != sep {
      CountAfterFirst(s[1..], sep);
      var k := |Before(s[1..], sep)|;
      assert s[1..][k + 1..] == s[k + 2..];
    }
  }

  /** With more separators than cuts, one is left over in the last piece. */
  lemma {:induction false} LeftoverSeparator(s: string, sep: char, n: nat)
    requires Count(s, sep) > n
    ensures |Split(s, sep, n)| == n + 1 && sep in Split(s, sep, n)[n]
    decreases n
  {
    CountIn(s, sep);
    if n > 0 {
      CountAfterFirst(s, sep);
      LeftoverSeparator(s[|Before(s, sep)| + 1..], sep, n - 1);
    }
  }

  // ---------------------------------------------------------------------
  // UTF-8
  // ---------------------------------------------------------------------

  function EncodeChar(c: char): seq<byte> {
    var n := c as int;
    if n < 0x80 then [n as byte]
    else if n < 0x800 then [(0xC0 + n / 64) as byte, (0x80 + n % 64) as byte]
    else if n < 0x1_0000 then
      [(0xE0 + n / 64 / 64) as byte, (0x80 + n / 64 % 64) as byte, (0x80 + n % 64) as byte]
    else
      [(0xF0 + n / 64 / 64 / 64) as byte, (0x80 + n / 64 / 64 % 64) as byte, (0x80 + n / 64 % 64) as byte,
       (0x80 + n % 64) as byte]
  }

  function Encode(s: string): seq<byte> {
    if s == "" then [] else EncodeChar(s[0]) + Encode(s[1..])
  }

  predicate Continuation(b: byte) {
    0x80 <= b < 0xC0
  }

  /** How many bytes the character starting with b takes; 0 if none can start with b. */
  function Width(b: byte): int {
    if b < 0x80 then 1 else if b < 0xC2 then 0 else if b < 0xE0 then 2 else if b < 0xF0 then 3
    else if b < 0xF5 then 4 else 0
  }

  function Low(b: byte): int {
    b as int - 0x80
  }

  function CodePoint(b: seq<byte>): int
    requires |b| > 0 && |b| == Width(b[0])
  {
    if |b| == 1 then b[0] as int
    else if |b| == 2 then (b[0] as int - 0xC0) * 64 + Low(b[1])
    else if |b| == 3 then ((b[0] as int - 0xE0) * 64 + Low(b[1])) * 64 + Low(b[2])
    else (((b[0] as int - 0xF0) * 64 + Low(b[1])) * 64 + Low(b[2])) * 64 + Low(b[3])
  }

  /** The strict decoder: overlong forms, surrogates and stray bytes are errors. */
  function DecodeChar(b: seq<byte>): Option<char>
    requires |b| > 0 && |b| == Width(b[0])
  {
    var n := CodePoint(b);
    if (forall i :: 1 <= i < |b| ==> Continuation(b[i]))
       && (|b| == 3 ==> n >= 0x800) && (|b| == 4 ==> n >= 0x1_0000)
       && (0 <= n < 0xD800 || 0xE000 <= n < 0x11_0000)
    then Some(n as char) else None
  }

  function Decode(b: seq<byte>): Option<string> {
    if b == [] then Some("")
    else if Width(b[0]) == 0 || Width(b[0]) > |b| then None
    else
      var c := DecodeChar(b[..Width(b[0])]);
      var rest := Decode(b[Width(b[0])..]);
      if c.None? || rest.None? then None else Some([c.value] + rest.value)
  }

  lemma EncodedWidth(c: char)
    ensures |EncodeChar(c)| == Width(EncodeChar(c)[0])
    ensures forall i :: 1 <= i < |EncodeChar(c)| ==> Continuation(EncodeChar(c)[i])
  {
  }

  lemma EncodedCodePoint(c: char)
    ensures |EncodeChar(c)| == Width(EncodeChar(c)[0]) && CodePoint(EncodeChar(c)) == c as int
  {
    var n := c as int;
    var q := n / 64;
    var r := q / 64;
    assert n == q * 64 + n % 64 && q == r * 64 + q % 64 && r == r / 64 * 64 + r % 64;
  }

  lemma DecodeEncodedChar(c: char)
    ensures |EncodeChar(c)| == Width(EncodeChar(c)[0]) && DecodeChar(EncodeChar(c)) == Some(c)
  {
    EncodedWidth(c);
    EncodedCodePoint(c);
  }

  lemma {:induction false} DecodeEncode(s: string)
    ensures Decode(Encode(s)) == Some(s)
  {
    if s != "" {
      var head := EncodeChar(s[0]);
      DecodeEncodedChar(s[0]);
      DecodeEncode(s[1..]);
      var b := Encode(s);
      assert b == head + Encode(s[1..]);
      assert b[0] == head[0];
      assert b[..|head|] == head && b[|head|..] == Encode(s[1..]);
      assert s == [s[0]] + s[1..];
    }
  }

  // ---------------------------------------------------------------------
  // Read off the characters
  // ---------------------------------------------------------------------

  /** The 29 white-space characters, by code point. */
  lemma SpaceCharacters(c: char)
    ensures IsSpace(c) <==>
      c as int in {9, 10, 11, 12, 13, 28, 29, 30, 31, 32, 133, 160, 5760, 8192, 8193, 8194, 8195, 8196, 8197, 8198,
                   8199, 8200, 8201, 8202, 8232, 8233, 8239, 8287, 12288}
  {
  }

  lemma {:induction false} StripLeftExactly(s: string) returns (pre: string)
    ensures s == pre + StripLeft(s) && forall c :: c in pre ==> IsSpace(c)
    ensures StripLeft(s) != "" ==> !IsSpace(StripLeft(s)[0])
  {
    pre := "";
    if s != "" && IsSpace(s[0]) {
      pre := StripLeftExactly(s[1..]);
      pre := [s[0]] + pre;
      assert s == [s[0]] + s[1..];
    }
  }

  lemma {:induction false} StripRightExactly(s: string) returns (post: string)
    ensures s == StripRight(s) + post && forall c :: c in post ==> IsSpace(c)
    ensures StripRight(s) != "" ==> !IsSpace(StripRight(s)[|StripRight(s)| - 1]) && StripRight(s)[0] == s[0]
    decreases |s|
  {
    post := "";
    if s != "" && IsSpace(s[|s| - 1]) {
      post := StripRightExactly(s[..|s| - 1]);
      post := post + [s[|s| - 1]];
      assert s == s[..|s| - 1] + [s[|s| - 1]];
    }
  }

  /** Stripping takes off white space at both ends, all of it and nothing else. */
  lemma StripExactly(s: string) returns (pre: string, post: string)
    ensures s == pre + Strip(s) + post && (forall c :: c in pre || c in post ==> IsSpace(c))
    ensures Strip(s) != "" ==> !IsSpace(Strip(s)[0]) && !IsSpace(Strip(s)[|Strip(s)| - 1])
  {
    pre := StripLeftExactly(s);
    post := StripRightExactly(StripLeft(s));
  }

  /** Lower-casing changes the letters A to Z and nothing else. */
  lemma LowerExactly(s: string, i: nat)
    requires i < |s|
    ensures |Lower(s)| == |s|
    ensures 65 <= s[i] as int <= 90 ==> Lower(s)[i] as int == s[i] as int + 32
    ensures !(65 <= s[i] as int <= 90) ==> Lower(s)[i] == s[i]
  {
  }

  /** Digits, with single underscores between them. */
  predicate Numeral(s: string) {
    && s != "" && IsDigit(s[0]) && IsDigit(s[|s| - 1])
    && (forall i :: 0 <= i < |s| ==> IsDigit(s[i]) || s[i] == '_')
    && forall i :: 0 <= i < |s| - 1 ==> s[i] != '_' || s[i + 1] != '_'
  }

  lemma {:induction false} ParseDigitsExactly(s: string)
    ensures ParseDigits(s).Some? <==> Numeral(s)
    decreases |s|
  {
    if |s| > 1 && IsDigit(s[|s| - 1]) {
      var rest := s[..|s| - 1];
      var high := if rest[|rest| - 1] == '_' then rest[..|rest| - 1] else rest;
      ParseDigitsExactly(high);
      if Numeral(high) {
        assert forall i :: 0 <= i < |s| ==> i < |high| || s[i] == '_' || IsDigit(s[i]);
        assert forall i :: 0 <= i < |high| ==> s[i] == high[i];
      }
      if Numeral(s) {
        assert forall i :: 0 <= i < |high| ==> high[i] == s[i];
      }
    }
  }

  /** An underscore between digits means nothing. */
  lemma {:induction false} UnderscoreIgnored(a: string, b: string)
    requires a != "" && IsDigit(a[|a| - 1]) && AllDigits(b)
    ensures ParseDigits(a + "_" + b) == ParseDigits(a + b)
    decreases |b|
  {
    var s, t := a + "_" + b, a + b;
    if |b| == 1 {
      assert s[..|s| - 1] == a + "_" && (a + "_")[..|a|] == a && t[..|t| - 1] == a;
    } else {
      var shorter := b[..|b| - 1];
      UnderscoreIgnored(a, shorter);
      assert s[..|s| - 1] == a + "_" + shorter && t[..|t| - 1] == a + shorter;
      assert s[|s| - 2] == b[|b| - 2] && t[|t| - 2] == b[|b| - 2];
    }
  }

  lemma {:induction false} LeadingZero(s: string)
    requires AllDigits(s)
    ensures ParseDigits("0" + s) == ParseDigits(s)
    decreases |s|
  {
    var t := "0" + s;
    if |s| == 1 {
      assert t[..1] == "0" && t[1..] == s;
      assert ParseDigits("0") == Some(0);
    } else {
      LeadingZero(s[..|s| - 1]);
      assert t[..|t| - 1] == "0" + s[..|s| - 1];
    }
  }

  lemma {:induction false} SpacesStripped(pre: string, t: string, post: string)
    requires forall c :: c in pre || c in post ==> IsSpace(c)
    requires t != "" && !IsSpace(t[0]) && !IsSpace(t[|t| - 1])
    ensures Strip(pre + t + post) == t
    decreases |pre| + |post|
  {
    var s := pre + t + post;
    if pre != "" {
      assert s[1..] == pre[1..] + t + post && s[0] == pre[0];
      SpacesStripped(pre[1..], t, post);
    } else if post != "" {
      assert s == t + post && StripLeft(s) == s;
      assert s[..|s| - 1] == t + post[..|post| - 1];
      SpacesStripped("", t, post[..|post| - 1]);
      assert "" + t + post[..|post| - 1] == t + post[..|post| - 1];
      assert StripLeft(t + post[..|post| - 1]) == t + post[..|post| - 1];
    } else {
      assert s == t;
    }
  }

  /** int(s) on ASCII text: white space around, one sign at most, and a numeral. */
  lemma ParseIntForms(pre: string, d: string, post: string)
    requires (forall c :: c in pre || c in post ==> IsSpace(c)) && Numeral(d)
    ensures ParseDigits(d).Some?
    ensures ParseInt(pre + d + post) == Some(ParseDigits(d).value)
    ensures ParseInt(pre + ("+" + d) + post) == Some(ParseDigits(d).value)
    ensures ParseInt(pre + ("-" + d) + post).Some?
    ensures ParseInt(pre + ("-" + d) + post).value == -(ParseDigits(d).value as int)
  {
    hide StripLeft, StripRight, Strip, ParseDigits;
    ParseDigitsExactly(d);
    SpacesStripped(pre, d, post);
    SpacesStripped(pre, "+" + d, post);
    SpacesStripped(pre, "-" + d, post);
    assert ("+" + d)[1..] == d && ("-" + d)[1..] == d;
  }

  /** ... and nothing else. */
  lemma ParseIntExactly(s: string)
    ensures ParseInt(s).Some? <==>
      var t := Strip(s);
      t != "" && Numeral(if t[0] == '+' || t[0] == '-' then t[1..] else t)
  {
    hide Strip, ParseDigits, Numeral;
    var t := Strip(s);
    if t != "" {
      ParseDigitsExactly(if t[0] == '+' || t[0] == '-' then t[1..] else t);
    } else {
      ParseDigitsExactly("");
      NoNumeral();
    }
  }

  lemma NoNumeral()
    ensures !Numeral("")
  {
  }

  /** At most n cuts are made, and no fewer if there are as many separators. */
  lemma {:induction false} SplitCuts(s: string, sep: char, n: nat)
    ensures |Split(s, sep, n)| == 1 + (if Count(s, sep) < n then Count(s, sep) else n)
    decreases n
  {
    CountIn(s, sep);
    if n > 0 && sep in s {
      hide Split, Before;
      SplitCons(s, sep, n);
      CountAfterFirst(s, sep);
      SplitCuts(s[|Before(s, sep)| + 1..], sep, n - 1);
    }
  }

  lemma DecodedChar(b: seq<byte>)
    requires |b| > 0 && |b| == Width(b[0]) && DecodeChar(b).Some?
    ensures EncodeChar(DecodeChar(b).value) == b
  {
    var n := CodePoint(b);
    if |b| == 2 {
      QuotientOf(b[0] as int - 0xC0, Low(b[1]));
    } else if |b| == 3 {
      QuotientOf((b[0] as int - 0xE0) * 64 + Low(b[1]), Low(b[2]));
      QuotientOf(b[0] as int - 0xE0, Low(b[1]));
    } else if |b| == 4 {
      QuotientOf(((b[0] as int - 0xF0) * 64 + Low(b[1])) * 64 + Low(b[2]), Low(b[3]));
      QuotientOf((b[0] as int - 0xF0) * 64 + Low(b[1]), Low(b[2]));
      QuotientOf(b[0] as int - 0xF0, Low(b[1]));
    }
  }

  lemma QuotientOf(high: int, low: int)
    requires 0 <= low < 64
    ensures (high * 64 + low) / 64 == high && (high * 64 + low) % 64 == low
  {
  }

  /** The strict decoder accepts nothing but what the encoder makes. */
  lemma {:induction false} EncodeDecode(b: seq<byte>)
    requires Decode(b).Some?
    ensures Encode(Decode(b).value) == b
    decreases |b|
  {
    if b != [] {
      hide DecodeChar, EncodeChar;
      var w := Width(b[0]);
      var first, rest := DecodeChar(b[..w]), Decode(b[w..]);
      DecodedChar(b[..w]);
      EncodeDecode(b[w..]);
      var s := [first.value] + rest.value;
      assert s[1..] == rest.value;
      assert b == b[..w] + b[w..];
    }
  }
}
