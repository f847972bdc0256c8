/**
 Writing characters as a string literal, raw or escaped, and unescaping them back
 to their UTF-8 bytes.
 */
module EscapeRoundTrip {
  import opened Values
  import opened StringEscapes

  /** A Unicode scalar value: a code point that is not a surrogate. */
  type Scalar = n: CodePoint | n < 0xD800 || n > 0xDFFF

  /** One way to write one character. */
  datatype Written = Raw(cp: Scalar) | Short(cp: Scalar) | Hexed(cp: Scalar, upper: bool)

  function Utf8All(cps: seq<Scalar>): seq<Byte> {
    if cps == [] then [] else Utf8(cps[0]) + Utf8All(cps[1..])
  }

  function Characters(ws: seq<Written>): (cps: seq<Scalar>)
    ensures |cps| == |ws| && forall i :: 0 <= i < |ws| ==> cps[i] == ws[i].cp
  {
    if ws == [] then [] else [ws[0].cp] + Characters(ws[1..])
  }

  /** The letter of the short escape of a character. */
  function ShortLetter(cp: int): Option<Byte> {
    if cp == 34 || cp == 92 || cp == 47 then Some(cp)
    else if cp == 8 then Some(98)
    else if cp == 12 then Some(102)
    else if cp == 10 then Some(110)
    else if cp == 13 then Some(114)
    else if cp == 9 then Some(116)
    else None
  }

  /** Quotes, backslashes and control characters are not written raw; only some
      characters have a short escape. Source text is UTF-8, or one byte a character. */
  predicate CanWrite(w: Written, utf8: bool) {
    match w
    case Raw(cp) => cp >= 0x20 && cp != 34 && cp != 92 && (utf8 || cp < 256)
    case Short(cp) => ShortLetter(cp).Some?
    case Hexed(_, _) => true
  }

  function HexCharacter(d: int, upper: bool): (b: Byte)
    requires 0 <= d < 16
    ensures HexDigit(b) == Some(d)
  {
    if d < 10 then 48 + d else if upper then 55 + d else 87 + d
  }

  function HexEscape(n: int, upper: bool): (t: seq<Byte>)
    requires 0 <= n < 0x10000
    ensures |t| == 6
  {
    [BACKSLASH, LETTER_U, HexCharacter(n / 4096, upper), HexCharacter(n / 256 % 16, upper),
     HexCharacter(n / 16 % 16, upper), HexCharacter(n % 16, upper)]
  }

  function HighOf(cp: int): int
    requires 0x10000 <= cp < 0x110000
  {
    0xD800 + (cp - 0x10000) / 1024
  }

  function LowOf(cp: int): int
    requires 0x10000 <= cp < 0x110000
  {
    0xDC00 + (cp - 0x10000) % 1024
  }

  /** The bytes of a written character; those beyond 16 bits escape as a surrogate pair. */
  function Write(w: Written, utf8: bool): seq<Byte>
    requires CanWrite(w, utf8)
  {
    match w
    case Raw(cp) => if utf8 then Utf8(cp) else [cp]
    case Short(cp) => [BACKSLASH, ShortLetter(cp).value]
    case Hexed(cp, upper) =>
      if cp < 0x10000 then HexEscape(cp, upper) else HexEscape(HighOf(cp), upper) + HexEscape(LowOf(cp), upper)
  }

  function WriteAll(ws: seq<Written>, utf8: bool): seq<Byte>
    requires forall i :: 0 <= i < |ws| ==> CanWrite(ws[i], utf8)
  {
    if ws == [] then [] else Write(ws[0], utf8) + WriteAll(ws[1..], utf8)
  }

  /** The bytes that come out of a written character. */
  function Output(w: Written, utf8: bool): seq<Byte>
    requires CanWrite(w, utf8)
  {
    if w.Raw? && !utf8 then [w.cp] else Utf8(w.cp)
  }

  function OutputAll(ws: seq<Written>, utf8: bool): seq<Byte>
    requires forall i :: 0 <= i < |ws| ==> CanWrite(ws[i], utf8)
  {
    if ws == [] then [] else Output(ws[0], utf8) + OutputAll(ws[1..], utf8)
  }

  // ----- One character -----

  lemma HexDigits(n: int)
    requires 0 <= n < 0x10000
    ensures n / 4096 * 4096 + n / 256 % 16 * 256 + n / 16 % 16 * 16 + n % 16 == n
  {
    var a, b := n / 16, n / 256;
    assert b == a / 16 && n / 4096 == b / 16;
  }

  lemma HexEscapeReads(n: int, upper: bool, rest: seq<Byte>)
    requires 0 <= n < 0x10000
    ensures Hex4(HexEscape(n, upper) + rest, 2) == Some(n)
  {
    var t := HexEscape(n, upper) + rest;
    var a, b, c, d := n / 4096, n / 256 % 16, n / 16 % 16, n % 16;
    assert t[2] == HexCharacter(a, upper) && t[3] == HexCharacter(b, upper);
    assert t[4] == HexCharacter(c, upper) && t[5] == HexCharacter(d, upper);
    assert HexDigit(t[2]) == Some(a) && HexDigit(t[3]) == Some(b) && HexDigit(t[4]) == Some(c)
           && HexDigit(t[5]) == Some(d);
    HexDigits(n);
  }

  lemma PlainStep(b: Byte, rest: seq<Byte>)
    requires b != BACKSLASH
    ensures Unescape([b] + rest) == Prefixed([b], Unescape(rest))
    ensures HasUnicodeEscape([b] + rest) == HasUnicodeEscape(rest)
    ensures b != QUOTE && b >= 0x20 ==> Lexes([b] + rest) == Lexes(rest)
  {
    assert ([b] + rest)[1..] == rest;
  }

  lemma {:induction false} PlainBytes(xs: seq<Byte>, rest: seq<Byte>)
    requires forall i :: 0 <= i < |xs| ==> xs[i] != BACKSLASH && xs[i] != QUOTE && xs[i] >= 0x20
    ensures Unescape(xs + rest) == Prefixed(xs, Unescape(rest))
    ensures HasUnicodeEscape(xs + rest) == HasUnicodeEscape(rest)
    ensures Lexes(xs + rest) == Lexes(rest)
    decreases |xs|
  {
    if xs == [] {
      assert xs + rest == rest;
      PrefixedNone(xs, Unescape(rest));
    } else {
      assert xs + rest == [xs[0]] + (xs[1..] + rest);
      PlainStep(xs[0], xs[1..] + rest);
      PlainBytes(xs[1..], rest);
      PrefixedAgain([xs[0]], xs[1..], Unescape(rest));
      assert [xs[0]] + xs[1..] == xs;
    }
  }

  lemma ShortReads(cp: Scalar, rest: seq<Byte>)
    requires ShortLetter(cp).Some?
    ensures var t := [BACKSLASH, ShortLetter(cp).value] + rest;
            && Unescape(t) == Prefixed(Utf8(cp), Unescape(rest))
            && HasUnicodeEscape(t) == HasUnicodeEscape(rest) && Lexes(t) == Lexes(rest)
  {
    var t := [BACKSLASH, ShortLetter(cp).value] + rest;
    assert t[2..] == rest;
    assert NextStep(t) == Step(2, [cp], false);
  }

  lemma HexedReads(cp: Scalar, upper: bool, rest: seq<Byte>)
    requires cp < 0x10000
    ensures var t := HexEscape(cp, upper) + rest;
            && Unescape(t) == Prefixed(Utf8(cp), Unescape(rest)) && HasUnicodeEscape(t) && Lexes(t) == Lexes(rest)
  {
    var t := HexEscape(cp, upper) + rest;
    assert t[6..] == rest;
    HexEscapeReads(cp, upper, rest);
    assert ShortEscape(LETTER_U) == None;
    assert NextStep(t) == Step(6, Utf8(cp), true);
  }

  lemma PairReads(cp: Scalar, upper: bool, rest: seq<Byte>)
    requires cp >= 0x10000
    ensures var t := HexEscape(HighOf(cp), upper) + HexEscape(LowOf(cp), upper) + rest;
            && Unescape(t) == Prefixed(Utf8(cp), Unescape(rest)) && HasUnicodeEscape(t) && Lexes(t) == Lexes(rest)
  {
    var low := HexEscape(LowOf(cp), upper) + rest;
    var t := HexEscape(HighOf(cp), upper) + HexEscape(LowOf(cp), upper) + rest;
    assert t == HexEscape(HighOf(cp), upper) + low;
    assert t[12..] == rest && t[6..] == low && low[6..] == rest;
    HexEscapeReads(HighOf(cp), upper, low);
    HexEscapeReads(LowOf(cp), upper, rest);
    assert Hex4(t, 8) == Hex4(low, 2);
    assert t[6] == BACKSLASH && t[7] == LETTER_U && ShortEscape(LETTER_U) == None;
    assert Combine(HighOf(cp), LowOf(cp)) == cp;
    assert NextStep(t) == Step(12, Utf8(cp), true);
    assert Lexes(low) == Lexes(rest);
  }

  lemma Utf8IsPlain(cp: Scalar)
    requires cp >= 0x20 && cp != 34 && cp != 92
    ensures forall i :: 0 <= i < |Utf8(cp)| ==> Utf8(cp)[i] != BACKSLASH && Utf8(cp)[i] != QUOTE && Utf8(cp)[i] >= 0x20
  {
  }

  lemma WrittenReads(w: Written, utf8: bool, rest: seq<Byte>)
    requires CanWrite(w, utf8)
    ensures var t := Write(w, utf8) + rest;
            && Unescape(t) == Prefixed(Output(w, utf8), Unescape(rest))
            && HasUnicodeEscape(t) == (w.Hexed? || HasUnicodeEscape(rest))
            && Lexes(t) == Lexes(rest)
  {
    match w
    case Raw(cp) =>
      Utf8IsPlain(cp);
      PlainBytes(Write(w, utf8), rest);
    case Short(cp) =>
      ShortReads(cp, rest);
    case Hexed(cp, upper) =>
      if cp < 0x10000 {
        HexedReads(cp, upper, rest);
      } else {
        PairReads(cp, upper, rest);
      }
  }

  // ----- Whole strings -----

  lemma {:induction false} AllWrittenReads(ws: seq<Written>, utf8: bool)
    requires forall i :: 0 <= i < |ws| ==> CanWrite(ws[i], utf8)
    ensures var t := WriteAll(ws, utf8);
            && Unescape(t) == Some(OutputAll(ws, utf8)) && Lexes(t)
            && (HasUnicodeEscape(t) <==> exists i :: 0 <= i < |ws| && ws[i].Hexed?)
    decreases |ws|
  {
    if ws != [] {
      AllWrittenReads(ws[1..], utf8);
      WrittenReads(ws[0], utf8, WriteAll(ws[1..], utf8));
      if i :| 0 <= i < |ws| && ws[i].Hexed? {
        assert i > 0 ==> ws[1..][i - 1].Hexed?;
      }
      if i :| 0 <= i < |ws[1..]| && ws[1..][i].Hexed? {
        assert ws[i + 1].Hexed?;
      }
    }
  }

  lemma {:induction false} OutputIsUtf8(ws: seq<Written>, utf8: bool)
    requires forall i :: 0 <= i < |ws| ==> CanWrite(ws[i], utf8)
    requires forall i :: 0 <= i < |ws| ==> utf8 || !ws[i].Raw? || ws[i].cp < 0x80
    ensures OutputAll(ws, utf8) == Utf8All(Characters(ws))
    decreases |ws|
  {
    if ws != [] {
      OutputIsUtf8(ws[1..], utf8);
      assert Characters(ws)[1..] == Characters(ws[1..]);
    }
  }

  /** UTF-8 source text: any writing of characters is accepted, and unescapes to
      their UTF-8 bytes. */
  lemma EscapedTextUnescapes(ws: seq<Written>)
    requires forall i :: 0 <= i < |ws| ==> CanWrite(ws[i], true)
    ensures Lexes(WriteAll(ws, true)) && Unescape(WriteAll(ws, true)) == Some(Utf8All(Characters(ws)))
  {
    AllWrittenReads(ws, true);
    OutputIsUtf8(ws, true);
  }

  lemma {:induction false} OutputLength(ws: seq<Written>)
    requires forall i :: 0 <= i < |ws| ==> CanWrite(ws[i], false)
    ensures |OutputAll(ws, false)| <= |Utf8All(Characters(ws))|
    ensures (exists i :: 0 <= i < |ws| && ws[i].Raw? && ws[i].cp >= 0x80) ==>
              |OutputAll(ws, false)| < |Utf8All(Characters(ws))|
    decreases |ws|
  {
    if ws != [] {
      OutputLength(ws[1..]);
      assert Characters(ws)[1..] == Characters(ws[1..]);
      if i :| 0 <= i < |ws| && ws[i].Raw? && ws[i].cp >= 0x80 {
        assert i > 0 ==> ws[1..][i - 1] == ws[i];
      }
    }
  }

  /** Source text of one byte a character: a Unicode escape makes the whole result
      count as UTF-8, which it is exactly when nothing beyond ASCII was written raw. */
  lemma ByteTextUnescapesIffAscii(ws: seq<Written>)
    requires forall i :: 0 <= i < |ws| ==> CanWrite(ws[i], false)
    requires exists i :: 0 <= i < |ws| && ws[i].Hexed?
    ensures HasUnicodeEscape(WriteAll(ws, false))
    ensures Unescape(WriteAll(ws, false)) == Some(Utf8All(Characters(ws)))
            <==> forall i :: 0 <= i < |ws| && ws[i].Raw? ==> ws[i].cp < 0x80
  {
    AllWrittenReads(ws, false);
    OutputLength(ws);
    if forall i :: 0 <= i < |ws| && ws[i].Raw? ==> ws[i].cp < 0x80 {
      OutputIsUtf8(ws, false);
    }
  }

  lemma SurrogateIsNotUtf8(cp: CodePoint, text: seq<Scalar>)
    requires 0xD800 <= cp <= 0xDFFF
    ensures |Utf8(cp)| == 3 && Utf8All(text) != Utf8(cp)
  {
    if text != [] {
      var first := Utf8(text[0]);
      assert Utf8(cp)[0] == 0xED && Utf8(cp)[1] >= 0xA0;
      if first[0] == 0xED {
        assert |first| == 3 && text[0] / 4096 == 13;
        assert first[1] < 0xA0;
      }
      if |first| > 1 {
        assert Utf8All(text)[0] == first[0] && Utf8All(text)[1] == first[1];
      } else {
        assert Utf8All(text)[0] == first[0];
      }
    }
  }

  /** A surrogate escaped on its own is accepted and unescapes to three bytes that
      are not the UTF-8 of any text. */
  lemma LoneSurrogateIsNotUtf8(cp: CodePoint, upper: bool)
    requires 0xD800 <= cp <= 0xDFFF
    ensures Lexes(HexEscape(cp, upper)) && Unescape(HexEscape(cp, upper)) == Some(Utf8(cp))
    ensures |Utf8(cp)| == 3 && forall text :: Utf8All(text) != Utf8(cp)
  {
    var t := HexEscape(cp, upper);
    assert t + [] == t && t[6..] == [];
    HexEscapeReads(cp, upper, []);
    assert ShortEscape(LETTER_U) == None;
    assert NextStep(t) == Step(6, Utf8(cp), true);
    assert Unescape(t[6..]) == Some([]) && Utf8(cp) + [] == Utf8(cp);
    forall text ensures |Utf8(cp)| == 3 && Utf8All(text) != Utf8(cp) {
      SurrogateIsNotUtf8(cp, text);
    }
  }
}
