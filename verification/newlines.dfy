/** Newline normalisation of governed text: bytes.replace twice, against one pass over the bytes. */
module Newlines {
  import Text

  type byte = Text.byte

  const LF: byte := 10
  const CR: byte := 13

  /** payload.replace(old, new): leftmost matches, not overlapping. */
  function Replace(s: seq<byte>, old_: seq<byte>, new_: seq<byte>): seq<byte>
    requires old_ != []
  {
    if |s| < |old_| then s
    else if s[..|old_|] == old_ then new_ + Replace(s[|old_|..], old_, new_)
    else [s[0]] + Replace(s[1..], old_, new_)
  }

  function Normalize(s: seq<byte>): seq<byte> {
    Replace(Replace(s, [CR, LF], [LF]), [CR], [LF])
  }

  /** One pass: a CR becomes an LF, and an LF right after a CR is dropped. */
  function OnePass(s: seq<byte>, afterCR: bool): seq<byte> {
    if s == [] then []
    else if s[0] == CR then [LF] + OnePass(s[1..], true)
    else if s[0] == LF && afterCR then OnePass(s[1..], false)
    else [s[0]] + OnePass(s[1..], false)
  }

  /** Replacing a single byte works byte by byte. */
  lemma ReplaceOne(b: byte, rest: seq<byte>)
    ensures Replace([b] + rest, [CR], [LF]) == [if b == CR then LF else b] + Replace(rest, [CR], [LF])
  {
    assert ([b] + rest)[..1] == [b] && ([b] + rest)[1..] == rest;
  }

  lemma {:induction false} TwoPassesAreOne(s: seq<byte>)
    ensures Normalize(s) == OnePass(s, false)
    decreases |s|
  {
    if |s| >= 2 && s[..2] == [CR, LF] {
      assert s[0] == CR && s[1] == LF;
      ReplaceOne(LF, Replace(s[2..], [CR, LF], [LF]));
      TwoPassesAreOne(s[2..]);
      assert s[1..][1..] == s[2..];
    } else if s != [] {
      assert |s| >= 2 && s[0] == CR ==> s[1] != LF by {
        assert |s| >= 2 ==> s[..2] == [s[0], s[1]];
      }
      TwoPassesAreOne(s[1..]);
      if |s| >= 2 {
        ReplaceOne(s[0], Replace(s[1..], [CR, LF], [LF]));
      } else {
        assert s[1..] == [] && s == [s[0]] + [];
        ReplaceOne(s[0], []);
      }
      if s[0] == CR {
        AfterCRElsewhere(s[1..]);
      }
    }
  }

  /** Having just seen a CR only matters to an LF. */
  lemma AfterCRElsewhere(s: seq<byte>)
    requires s == [] || s[0] != LF
    ensures OnePass(s, true) == OnePass(s, false)
  {
  }

  lemma {:induction false} NoCRLeft(s: seq<byte>, afterCR: bool)
    ensures CR !in OnePass(s, afterCR)
  {
    if s != [] {
      NoCRLeft(s[1..], s[0] == CR);
    }
  }

  lemma {:induction false} NothingToDo(s: seq<byte>)
    requires CR !in s
    ensures OnePass(s, false) == s
  {
    if s != [] {
      NothingToDo(s[1..]);
    }
  }

  /** The result is free of CR, and normalising it again changes nothing. */
  lemma NormalizedIsStable(s: seq<byte>)
    ensures CR !in Normalize(s) && Normalize(Normalize(s)) == Normalize(s)
  {
    TwoPassesAreOne(s);
    NoCRLeft(s, false);
    TwoPassesAreOne(Normalize(s));
    NothingToDo(Normalize(s));
  }

  // ---------------------------------------------------------------------
  // Which renderings of a text come back
  // ---------------------------------------------------------------------

  datatype Ending = AsLF | AsCRLF | AsCR

  /** A text of LF newlines with each newline written in a style of its own. */
  function Render(text: seq<byte>, styles: seq<Ending>): seq<byte>
    requires |styles| == |text|
  {
    if text == [] then []
    else (if text[0] != LF then [text[0]]
          else match styles[0] case AsLF => [LF] case AsCRLF => [CR, LF] case AsCR => [CR])
         + Render(text[1..], styles[1..])
  }

  /** No newline written as CR is directly followed by one written as LF. */
  ghost predicate Unambiguous(text: seq<byte>, styles: seq<Ending>)
    requires |styles| == |text|
  {
    forall i :: 0 <= i < |text| - 1 && text[i] == LF && text[i + 1] == LF ==> !(styles[i].AsCR? && styles[i + 1].AsLF?)
  }

  lemma OnePassOverCR(rest: seq<byte>, afterCR: bool)
    ensures OnePass([CR] + rest, afterCR) == [LF] + OnePass(rest, true)
    ensures OnePass([CR, LF] + rest, afterCR) == [LF] + OnePass(rest, false)
  {
    assert ([CR] + rest)[1..] == rest;
    assert ([CR, LF] + rest)[1..] == [LF] + rest && ([LF] + rest)[1..] == rest;
  }

  lemma OnePassOverOther(b: byte, rest: seq<byte>, afterCR: bool)
    requires b != CR
    ensures OnePass([b] + rest, afterCR) == (if b == LF && afterCR then [] else [b]) + OnePass(rest, false)
  {
    assert ([b] + rest)[1..] == rest;
  }

  /** The two newlines at the front clash. */
  predicate Clash(text: seq<byte>, styles: seq<Ending>)
    requires |styles| == |text|
  {
    |text| >= 2 && text[0] == LF && styles[0].AsCR? && text[1] == LF && styles[1].AsLF?
  }

  lemma UnambiguousStep(text: seq<byte>, styles: seq<Ending>)
    requires |styles| == |text| > 0
    ensures Unambiguous(text, styles) <==> Unambiguous(text[1..], styles[1..]) && !Clash(text, styles)
  {
    if Unambiguous(text, styles) {
      forall i | 0 <= i < |text| - 2 && text[1..][i] == LF && text[1..][i + 1] == LF
        ensures !(styles[1..][i].AsCR? && styles[1..][i + 1].AsLF?)
      {
        assert text[i + 1] == LF && text[i + 2] == LF;
      }
    }
    if Unambiguous(text[1..], styles[1..]) && !Clash(text, styles) {
      forall i | 0 <= i < |text| - 1 && text[i] == LF && text[i + 1] == LF
        ensures !(styles[i].AsCR? && styles[i + 1].AsLF?)
      {
        if i > 0 {
          assert text[1..][i - 1] == LF && text[1..][i] == LF;
        }
      }
    }
  }

  /** `afterCR`: the newline before this text was written as CR. */
  lemma {:induction false} RenderingNormalises(text: seq<byte>, styles: seq<Ending>, afterCR: bool)
    requires |styles| == |text| && CR !in text
    ensures var clash := afterCR && text != [] && text[0] == LF && styles[0].AsLF?;
      var out := OnePass(Render(text, styles), afterCR);
      if Unambiguous(text, styles) && !clash then out == text else |out| < |text|
  {
    if text != [] {
      hide OnePass, Unambiguous;
      var rest := Render(text[1..], styles[1..]);
      RenderingNormalises(text[1..], styles[1..], text[0] == LF && styles[0].AsCR?);
      UnambiguousStep(text, styles);
      OnePassOverCR(rest, afterCR);
      OnePassOverOther(text[0], rest, afterCR);
      assert text == [text[0]] + text[1..];
    } else {
      assert Unambiguous(text, styles);
    }
  }

  /** A rendering of an LF text, each newline as LF, CRLF or CR, normalises back to the text
      exactly when no CR newline is directly followed by an LF newline; otherwise that pair
      reads as one CRLF and the text gets shorter. */
  lemma RestoredIff(text: seq<byte>, styles: seq<Ending>)
    requires |styles| == |text| && CR !in text
    ensures Normalize(Render(text, styles)) == text <==> Unambiguous(text, styles)
    ensures (forall i :: 0 <= i < |styles| ==> !styles[i].AsCR?) ==> Normalize(Render(text, styles)) == text
    ensures (forall i :: 0 <= i < |styles| ==> styles[i].AsCR?) ==> Normalize(Render(text, styles)) == text
  {
    TwoPassesAreOne(Render(text, styles));
    RenderingNormalises(text, styles, false);
  }
}
