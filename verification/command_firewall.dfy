/** The command firewall: how a suggested command is read, checked, shown and read again. */
module CommandFirewall {
  import opened Wrappers
  import Text

  // ---------------------------------------------------------------------
  // The shell-style lexer: POSIX rules, double quotes only
  // ---------------------------------------------------------------------

  datatype LexError = NoClosingQuotation | NoEscapedCharacter

  datatype State =
    | Blank
    | Comment
    | Word(token: string)
    | Quoted(token: string)
    | Escaped(token: string, inQuotes: bool)

  type Tokens = Result<seq<string>, LexError>

  const SPACES: set<char> := {' ', '\t', '\r', '\n'}

  /** One character; `hash` says whether '#' starts a comment. */
  function Step(st: State, c: char, hash: bool): State {
    match st
    case Comment => if c == '\n' then Blank else Comment
    case Quoted(t) => if c == '"' then Word(t) else if c == '\\' then Escaped(t, true) else Quoted(t + [c])
    case Escaped(t, true) => Quoted(if c == '\\' || c == '"' then t + [c] else t + ['\\', c])
    case Escaped(t, false) => Word(t + [c])
    case _ =>
      var t := if st.Word? then st.token else "";
      if c in SPACES then Blank
      else if hash && c == '#' then Comment
      else if c == '"' then Quoted(t)
      else if c == '\\' then Escaped(t, false)
      else Word(t + [c])
  }

  /** The token that ends before this character, if one does. */
  function Ended(st: State, c: char, hash: bool): seq<string> {
    if st.Word? && (c in SPACES || (hash && c == '#')) then [st.token] else []
  }

  function Prepend(ts: seq<string>, r: Tokens): Tokens {
    if r.Ok? then Ok(ts + r.value) else r
  }

  function Scan(s: string, st: State, hash: bool): Tokens {
    if s == "" then
      match st
      case Word(t) => Ok([t])
      case Quoted(_) => Err(NoClosingQuotation)
      case Escaped(_, _) => Err(NoEscapedCharacter)
      case _ => Ok([])
    else Prepend(Ended(st, s[0], hash), Scan(s[1..], Step(st, s[0], hash), hash))
  }

  // ---------------------------------------------------------------------
  // validate_suggestion
  // ---------------------------------------------------------------------

  datatype Command = Command(command: string, args: seq<string>, flags: map<string, string>)

  datatype Denial =
    | UnsafePattern
    | ParseError(error: LexError)
    | EmptyCommand
    | CommandNotAllowed(command: string)
    | InvalidKey(key: string)
    | ValueTooLong(key: string)

  const ALLOWED_COMMANDS: set<string> := {"/run", "/status", "/help", "/jobs"}

  const MAX_VALUE: nat := 1000

  predicate Unsafe(s: string) {
    exists i :: 0 <= i < |s| && (s[i] in {';', '`', '|'} || (s[i] == '$' && i + 1 < |s| && s[i + 1] == '('))
  }

  predicate NameChar(c: char) {
    'A' <= c <= 'Z' || 'a' <= c <= 'z' || '0' <= c <= '9' || c == '_'
  }

  predicate IsName(s: string) {
    s != "" && !('0' <= s[0] <= '9') && forall c :: c in s ==> NameChar(c)
  }

  /** The pattern ends in '$', which also matches before one last newline. */
  predicate ValidKey(k: string) {
    IsName(k) || (k != "" && k[|k| - 1] == '\n' && IsName(k[..|k| - 1]))
  }

  function IndexOf(s: string, c: char): (i: nat)
    ensures i <= |s| && (forall j :: 0 <= j < i ==> s[j] != c) && (if c in s then i < |s| && s[i] == c else i == |s|)
  {
    if s == "" || s[0] == c then 0 else 1 + IndexOf(s[1..], c)
  }

  predicate StartsWith(s: string, t: string) {
    |t| <= |s| && s[..|t|] == t
  }

  function SetFlag(c: Command, arg: string): Result<Command, Denial>
    requires '=' in arg
  {
    var i := IndexOf(arg, '=');
    var k, v := arg[..i], arg[i + 1..];
    if !ValidKey(k) then Err(InvalidKey(k))
    else if |v| > MAX_VALUE then Err(ValueTooLong(k))
    else Ok(c.(flags := c.flags[k := v]))
  }

  predicate Positional(arg: string) {
    StartsWith(arg, "--") || '=' !in arg
  }

  function Place(c: Command, arg: string): Result<Command, Denial> {
    if Positional(arg) then Ok(c.(args := c.args + [arg])) else SetFlag(c, arg)
  }

  function PlaceAll(c: Command, args: seq<string>): Result<Command, Denial>
    decreases args
  {
    if args == [] then Ok(c)
    else
      var r := Place(c, args[0]);
      if r.Ok? then PlaceAll(r.value, args[1..]) else r
  }

  function Classify(parts: seq<string>): Result<Command, Denial> {
    if parts == [] then Err(EmptyCommand)
    else
      var cmd := Text.Lower(parts[0]);
      if cmd !in ALLOWED_COMMANDS then Err(CommandNotAllowed(cmd))
      else PlaceAll(Command(cmd, [], map[]), parts[1..])
  }

  function Read(text: string, hash: bool): Result<Command, Denial> {
    var parts := Scan(text, Blank, hash);
    if parts.Err? then Err(ParseError(parts.error)) else Classify(parts.value)
  }

  function Validate(raw: string): Result<Command, Denial> {
    if Unsafe(Text.Strip(raw)) then Err(UnsafePattern) else Read(Text.Strip(raw), true)
  }

  method ValidateSuggestion(raw: string) returns (r: Result<Command, Denial>)
    ensures r == Validate(raw)
    ensures var text := Text.Strip(raw);
      r == Err(UnsafePattern) <==>
        || ';' in text || '`' in text || '|' in text
        || exists i :: 0 <= i < |text| - 1 && text[i] == '$' && text[i + 1] == '('
    ensures r.Ok? ==> r.value.command in {"/run", "/status", "/help", "/jobs"}
  {
    UnsafeAnswer(raw);
    hide Scan, Unsafe, Text.Strip, Text.Lower, ValidKey;
    var text := Text.Strip(raw);
    if Unsafe(text) {
      return Err(UnsafePattern);
    }
    var lexed := Scan(text, Blank, true);
    if lexed.Err? {
      return Err(ParseError(lexed.error));
    }
    var parts := lexed.value;
    if parts == [] {
      return Err(EmptyCommand);
    }
    var cmd := Text.Lower(parts[0]);
    if cmd !in ALLOWED_COMMANDS {
      return Err(CommandNotAllowed(cmd));
    }
    var args := parts[1..];
    var cleanArgs, flags := [], map[];
    for n := 0 to |args|
      invariant PlaceAll(Command(cmd, cleanArgs, flags), args[n..]) == PlaceAll(Command(cmd, [], map[]), args)
    {
      var arg := args[n];
      assert args[n..][0] == arg && args[n..][1..] == args[n + 1..];
      if StartsWith(arg, "-") {
        if '=' in arg && !StartsWith(arg, "--") {
          var i := IndexOf(arg, '=');
          var k, v := arg[..i], arg[i + 1..];
          if !ValidKey(k) {
            return Err(InvalidKey(k));
          }
          if |v| > MAX_VALUE {
            return Err(ValueTooLong(k));
          }
          flags := flags[k := v];
        } else {
          cleanArgs := cleanArgs + [arg];
        }
      } else if '=' in arg {
        var i := IndexOf(arg, '=');
        var k, v := arg[..i], arg[i + 1..];
        if !ValidKey(k) {
          return Err(InvalidKey(k));
        }
        if |v| > MAX_VALUE {
          return Err(ValueTooLong(k));
        }
        flags := flags[k := v];
      } else {
        cleanArgs := cleanArgs + [arg];
      }
    }
    return Ok(Command(cmd, cleanArgs, flags));
  }

  /** What every accepted command is. */
  predicate Accepted(c: Command) {
    && c.command in ALLOWED_COMMANDS
    && (forall a :: a in c.args ==> Positional(a))
    && (forall k :: k in c.flags ==> ValidKey(k) && |c.flags[k]| <= MAX_VALUE)
  }

  lemma {:induction false} PlaceAllAccepts(c: Command, args: seq<string>)
    requires Accepted(c) && PlaceAll(c, args).Ok?
    ensures Accepted(PlaceAll(c, args).value)
    decreases args
  {
    if args != [] {
      PlaceAllAccepts(Place(c, args[0]).value, args[1..]);
    }
  }

  lemma ValidatedIsAccepted(raw: string)
    requires Validate(raw).Ok?
    ensures Accepted(Validate(raw).value)
  {
    var parts := Scan(Text.Strip(raw), Blank, true).value;
    PlaceAllAccepts(Command(Text.Lower(parts[0]), [], map[]), parts[1..]);
  }

  // ---------------------------------------------------------------------
  // to_string
  // ---------------------------------------------------------------------

  predicate Le(a: string, b: string) {
    a == "" || (b != "" && (a[0] < b[0] || (a[0] == b[0] && Le(a[1..], b[1..]))))
  }

  lemma {:induction false} LeOrders(a: string, b: string, c: string)
    ensures Le(a, b) || Le(b, a)
    ensures Le(a, b) && Le(b, a) ==> a == b
    ensures Le(a, b) && Le(b, c) ==> Le(a, c)
  {
    if a != "" && b != "" && a[0] == b[0] {
      LeOrders(a[1..], b[1..], if c == "" then "" else c[1..]);
      assert a == [a[0]] + a[1..] && b == [b[0]] + b[1..];
    }
  }

  lemma {:induction false} LeastExists(ks: set<string>)
    requires ks != {}
    ensures exists k :: k in ks && forall j :: j in ks ==> Le(k, j)
  {
    hide Le;
    var k :| k in ks;
    LeOrders(k, k, k);
    var others := ks - {k};
    assert ks == others + {k};
    if others != {} {
      LeastExists(others);
      var l :| l in others && forall j :: j in others ==> Le(l, j);
      LeOrders(k, l, k);
      forall j | j in ks ensures Le(k, l) ==> Le(k, j) {
        LeOrders(k, l, j);
      }
      var least := if Le(k, l) then k else l;
      assert least in ks && forall j :: j in ks ==> Le(least, j);
    } else {
      assert forall j :: j in ks ==> Le(k, j);
    }
  }

  function Least(ks: set<string>): (k: string)
    requires ks != {}
    ensures k in ks && forall j :: j in ks ==> Le(k, j)
  {
    LeastExists(ks);
    assert forall a, b :: Le(a, b) && Le(b, a) ==> a == b by {
      forall a, b ensures Le(a, b) && Le(b, a) ==> a == b { LeOrders(a, b, a); }
    }
    var k :| k in ks && forall j :: j in ks ==> Le(k, j);
    k
  }

  /** sorted(flags.keys()) */
  function SortKeys(ks: set<string>): (r: seq<string>)
    ensures forall k :: k in r <==> k in ks
  {
    if ks == {} then [] else [Least(ks)] + SortKeys(ks - {Least(ks)})
  }

  lemma {:induction false} SortKeysSorts(ks: set<string>)
    ensures var r := SortKeys(ks);
      && |r| == |ks|
      && forall i, j :: 0 <= i < j < |r| ==> Le(r[i], r[j]) && r[i] != r[j]
  {
    if ks != {} {
      hide Le, Least;
      var l := Least(ks);
      SortKeysSorts(ks - {l});
      assert SortKeys(ks) == [l] + SortKeys(ks - {l});
    }
  }

  /** One piece of a shown command: as it is, or a flag with its value in quotes. */
  datatype Piece = Bare(word: string) | InQuotes(key: string, text: string)

  function Shown(p: Piece): string {
    match p
    case Bare(w) => w
    case InQuotes(k, v) => k + "=\"" + v + "\""
  }

  /** What a piece stands for. */
  function Meant(p: Piece): string {
    match p
    case Bare(w) => w
    case InQuotes(k, v) => k + "=" + v
  }

  function FlagPiece(k: string, v: string): Piece {
    if ' ' in v || v == "" then InQuotes(k, v) else Bare(k + "=" + v)
  }

  function FlagPieces(keys: seq<string>, flags: map<string, string>): seq<Piece>
    requires forall k :: k in keys ==> k in flags
  {
    seq(|keys|, i requires 0 <= i < |keys| => FlagPiece(keys[i], flags[keys[i]]))
  }

  function ArgPieces(args: seq<string>): seq<Piece> {
    seq(|args|, i requires 0 <= i < |args| => Bare(args[i]))
  }

  function Operands(c: Command): seq<Piece> {
    FlagPieces(SortKeys(c.flags.Keys), c.flags) + ArgPieces(c.args)
  }

  function AllShown(ps: seq<Piece>): seq<string> {
    seq(|ps|, i requires 0 <= i < |ps| => Shown(ps[i]))
  }

  function AllMeant(ps: seq<Piece>): seq<string> {
    seq(|ps|, i requires 0 <= i < |ps| => Meant(ps[i]))
  }

  function Rendered(c: Command): string {
    Text.Join(AllShown([Bare(c.command)] + Operands(c)), ' ')
  }

  lemma ShownParts(c: Command, keys: seq<string>)
    requires keys == SortKeys(c.flags.Keys) && forall k :: k in keys ==> k in c.flags
    ensures |AllShown(FlagPieces(keys, c.flags))| == |keys|
    ensures Rendered(c) == Text.Join([c.command] + AllShown(FlagPieces(keys, c.flags)) + c.args, ' ')
  {
    hide SortKeys, Text.Join, FlagPiece;
    assert AllShown(ArgPieces(c.args)) == c.args;
    assert AllShown([Bare(c.command)] + Operands(c)) ==
           [c.command] + AllShown(FlagPieces(keys, c.flags)) + c.args;
  }

  lemma ShownFlag(keys: seq<string>, flags: map<string, string>, n: nat)
    requires n < |keys| && forall k :: k in keys ==> k in flags
    ensures var v := flags[keys[n]]; var shown := AllShown(FlagPieces(keys, flags));
      && |shown| == |keys|
      && shown[n] == keys[n] + "=" + (if ' ' in v || v == "" then "\"" + v + "\"" else v)
  {
  }

  method ToString(c: Command) returns (text: string)
    ensures text == Rendered(c)
  {
    hide *;
    var parts := [c.command];
    SortKeysSorts(c.flags.Keys);
    var keys := SortKeys(c.flags.Keys);
    ghost var shown := AllShown(FlagPieces(keys, c.flags));
    for n := 0 to |keys|
      invariant n <= |shown| && parts == [c.command] + shown[..n]
    {
      ShownFlag(keys, c.flags, n);
      var v := c.flags[keys[n]];
      if ' ' in v || v == "" {
        v := "\"" + v + "\"";
      }
      parts := parts + [keys[n] + "=" + v];
    }
    ShownParts(c, keys);
    assert shown[..|keys|] == shown;
    parts := parts + c.args;
    text := Text.Join(parts, ' ');
  }

  // ---------------------------------------------------------------------
  // Read off the characters
  // ---------------------------------------------------------------------

  /** What the deny list looks for. */
  lemma UnsafeExactly(s: string)
    ensures Unsafe(s) <==>
      || ';' in s || '`' in s || '|' in s
      || exists i :: 0 <= i < |s| - 1 && s[i] == '$' && s[i + 1] == '('
  {
    if ';' in s || '`' in s || '|' in s {
      var i :| 0 <= i < |s| && s[i] in {';', '`', '|'};
    }
    if Unsafe(s) {
      var i :| 0 <= i < |s| && (s[i] in {';', '`', '|'} || (s[i] == '$' && i + 1 < |s| && s[i + 1] == '('));
      assert s[i] in s;
    }
  }

  lemma PlaceAllIsNoPattern(c: Command, args: seq<string>)
    ensures PlaceAll(c, args) != Err(UnsafePattern)
    ensures PlaceAll(c, args).Ok? ==> PlaceAll(c, args).value.command == c.command
    decreases args
  {
    if args != [] && Place(c, args[0]).Ok? {
      PlaceAllIsNoPattern(Place(c, args[0]).value, args[1..]);
    }
  }

  /** That answer is given exactly for such text, and only the four commands are ever accepted. */
  lemma UnsafeAnswer(raw: string)
    ensures Validate(raw) == Err(UnsafePattern) <==> Unsafe(Text.Strip(raw))
    ensures var text := Text.Strip(raw);
      Unsafe(text) <==>
        || ';' in text || '`' in text || '|' in text
        || exists i :: 0 <= i < |text| - 1 && text[i] == '$' && text[i + 1] == '('
    ensures Validate(raw).Ok? ==> Validate(raw).value.command in {"/run", "/status", "/help", "/jobs"}
  {
    hide Unsafe, Scan, Text.Strip, Text.Lower, PlaceAll;
    UnsafeExactly(Text.Strip(raw));
    var lexed := Scan(Text.Strip(raw), Blank, true);
    if lexed.Ok? && lexed.value != [] {
      PlaceAllIsNoPattern(Command(Text.Lower(lexed.value[0]), [], map[]), lexed.value[1..]);
    }
  }

  /** The text of an accepted suggestion holds none of the patterns. */
  lemma AcceptedIsClean(raw: string)
    requires Validate(raw).Ok?
    ensures var text := Text.Strip(raw);
      && ';' !in text && '`' !in text && '|' !in text
      && forall i :: 0 <= i < |text| - 1 && text[i] == '$' ==> text[i + 1] != '('
  {
    UnsafeAnswer(raw);
  }

  /** The checks in order: the patterns, the lexer, an empty line, the command, its operands. */
  lemma ChecksInOrder(raw: string)
    requires !Unsafe(Text.Strip(raw))
    ensures var lexed := Scan(Text.Strip(raw), Blank, true);
      && (lexed.Err? ==> Validate(raw) == Err(ParseError(lexed.error)))
      && (lexed == Ok([]) ==> Validate(raw) == Err(EmptyCommand))
      && (lexed.Ok? && lexed.value != [] ==>
            var cmd := Text.Lower(lexed.value[0]);
            Validate(raw) == if cmd == "/run" || cmd == "/status" || cmd == "/help" || cmd == "/jobs"
                             then PlaceAll(Command(cmd, [], map[]), lexed.value[1..])
                             else Err(CommandNotAllowed(cmd)))
  {
    hide Unsafe, Scan, Text.Strip, Text.Lower, PlaceAll;
  }

  /** Which keys match the pattern: a letter or underscore, then letters, digits and underscores, and
      possibly one newline at the end. */
  lemma KeyExactly(k: string)
    ensures ValidKey(k) <==>
      var n := if k != "" && k[|k| - 1] == '\n' then k[..|k| - 1] else k;
      && n != "" && !(48 <= n[0] as int <= 57)
      && forall i :: 0 <= i < |n| ==>
           65 <= n[i] as int <= 90 || 97 <= n[i] as int <= 122 || 48 <= n[i] as int <= 57 || n[i] == '_'
  {
    var n := if k != "" && k[|k| - 1] == '\n' then k[..|k| - 1] else k;
    NameExactly(n);
    if k != "" && k[|k| - 1] == '\n' {
      assert k[|k| - 1] in k && !NameChar('\n');
    }
  }

  lemma NameExactly(n: string)
    ensures IsName(n) <==>
      && n != "" && !(48 <= n[0] as int <= 57)
      && forall i :: 0 <= i < |n| ==>
           65 <= n[i] as int <= 90 || 97 <= n[i] as int <= 122 || 48 <= n[i] as int <= 57 || n[i] == '_'
  {
    assert forall i :: 0 <= i < |n| ==> n[i] in n;
  }

  /** Where one operand goes: it is an argument if it starts with two dashes or holds no equals sign,
      and otherwise a flag cut at the first equals sign, if the key is valid and the value no longer
      than a thousand characters. */
  lemma PlaceExactly(c: Command, arg: string, i: nat)
    ensures ('=' !in arg || (|arg| >= 2 && arg[0] == '-' && arg[1] == '-')) ==>
      Place(c, arg) == Ok(c.(args := c.args + [arg]))
    ensures i < |arg| && arg[i] == '=' && '=' !in arg[..i] && !(|arg| >= 2 && arg[0] == '-' && arg[1] == '-') ==>
      Place(c, arg) ==
        if !ValidKey(arg[..i]) then Err(InvalidKey(arg[..i]))
        else if |arg| - i - 1 > 1000 then Err(ValueTooLong(arg[..i]))
        else Ok(c.(flags := c.flags[arg[..i] := arg[i + 1..]]))
  {
    hide ValidKey;
    assert |arg| >= 2 && arg[0] == '-' && arg[1] == '-' <==> StartsWith(arg, "--") by {
      if |arg| >= 2 {
        assert arg[..2] == [arg[0], arg[1]];
      }
    }
    if i < |arg| && arg[i] == '=' && '=' !in arg[..i] {
      assert arg[i] in arg;
      FirstIndex(arg, '=', i);
    }
  }

  lemma FirstIndex(s: string, c: char, i: nat)
    requires i < |s| && s[i] == c && c !in s[..i]
    ensures IndexOf(s, c) == i
  {
    assert forall j :: 0 <= j < i ==> s[j] == s[..i][j] && s[..i][j] in s[..i];
  }

  /** Operands are placed one after the other, and the first that cannot be decides. */
  lemma {:induction false} PlaceInTurn(c: Command, a: seq<string>, b: seq<string>)
    ensures PlaceAll(c, a + b) == (if PlaceAll(c, a).Ok? then PlaceAll(PlaceAll(c, a).value, b) else PlaceAll(c, a))
    ensures PlaceAll(c, []) == Ok(c)
    ensures |a| == 1 ==> PlaceAll(c, a) == Place(c, a[0])
    decreases a
  {
    hide Place;
    if a == [] {
      assert a + b == b;
    } else {
      assert (a + b)[1..] == a[1..] + b;
      if Place(c, a[0]).Ok? {
        PlaceInTurn(Place(c, a[0]).value, a[1..], b);
      }
      if |a| == 1 {
        assert a[1..] == [];
      }
    }
  }

  /** The order of the flags is that of code points: at the first difference, or the prefix first. */
  lemma {:induction false} LeExactly(a: string, b: string, n: nat)
    requires n <= |a| && n <= |b| && a[..n] == b[..n]
    requires (n < |a| && n < |b| ==> a[n] != b[n])
    ensures Le(a, b) <==> n == |a| || (n < |b| && a[n] < b[n])
  {
    if n > 0 {
      assert a[0] == a[..n][0] == b[..n][0] == b[0];
      assert a[1..][..n - 1] == a[..n][1..] == b[..n][1..] == b[1..][..n - 1];
      LeExactly(a[1..], b[1..], n - 1);
    }
  }

  /** A flag is shown in quotes exactly if its value holds a space or is empty, and means the same. */
  lemma FlagShown(k: string, v: string)
    ensures Shown(FlagPiece(k, v)) == if ' ' in v || |v| == 0 then k + "=\"" + v + "\"" else k + "=" + v
    ensures Meant(FlagPiece(k, v)) == k + "=" + v
  {
  }
}
