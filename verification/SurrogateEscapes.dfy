/**
 Which strings unescape to UTF-8: those without an unpaired surrogate escape.
 */
module SurrogateEscapes {
  import opened Values
  import opened StringEscapes
  import opened EscapeRoundTrip

  /** The bytes are the UTF-8 of some text. */
  ghost predicate Decodable(bytes: seq<Byte>) {
    exists text :: Utf8All(text) == bytes
  }

  /** Every surrogate escape is half of a pair. */
  predicate Paired(t: seq<Byte>)
    decreases |t|
  {
    t == [] || (!StartsWithLoneSurrogate(t) && NextStep(t).Step? && Paired(t[NextStep(t).taken..]))
  }

  /** The next step is an escape of a surrogate on its own. */
  predicate StartsWithLoneSurrogate(t: seq<Byte>)
    requires t != []
  {
    && NextStep(t).Step? && NextStep(t).unicode && NextStep(t).taken == 6
    && |t| >= 6 && Hex4(t, 2).Some? && 0xD800 <= Hex4(t, 2).value <= 0xDFFF
  }

  // ----- UTF-8 is prefix-free -----

  lemma FirstBytes(a: Scalar, b: Scalar, x: seq<Byte>, y: seq<Byte>)
    requires Utf8(a) + x == Utf8(b) + y
    ensures a == b && x == y
  {
    var t := Utf8(a) + x;
    assert t[0] == Utf8(a)[0] && t[0] == Utf8(b)[0];
    assert |Utf8(a)| == |Utf8(b)|;
    assert Utf8(a) == t[..|Utf8(a)|] == Utf8(b);
    SameUtf8(a, b);
    assert x == t[|Utf8(a)|..] == y;
  }

  lemma SameUtf8(a: CodePoint, b: CodePoint)
    requires Utf8(a) == Utf8(b)
    ensures a == b
  {
    var x, y := Utf8(a), Utf8(b);
    assert |x| == |y| && x[0] == y[0];
    if |x| == 2 {
      assert x[1] == y[1];
    } else if |x| == 3 {
      assert x[1] == y[1] && x[2] == y[2];
      Split3(a);
      Split3(b);
    } else if |x| == 4 {
      assert x[1] == y[1] && x[2] == y[2] && x[3] == y[3];
      Split4(a);
      Split4(b);
    }
  }

  lemma Split3(a: int)
    requires 0 <= a
    ensures a == a / 4096 * 4096 + a / 64 % 64 * 64 + a % 64
  {
    var q := a / 64;
    assert a / 4096 == q / 64;
  }

  lemma Split4(a: int)
    requires 0 <= a
    ensures a == a / 262144 * 262144 + a / 4096 % 64 * 4096 + a / 64 % 64 * 64 + a % 64
  {
    var q := a / 4096;
    assert a / 262144 == q / 64;
    Split3(a);
  }

  /** A leading character does not change whether bytes are UTF-8. */
  lemma DecodableAfter(cp: Scalar, rest: seq<Byte>)
    ensures Decodable(Utf8(cp) + rest) <==> Decodable(rest)
  {
    if Decodable(rest) {
      var text :| Utf8All(text) == rest;
      assert ([cp] + text)[1..] == text;
      assert Utf8All([cp] + text) == Utf8(cp) + rest;
    }
    if Decodable(Utf8(cp) + rest) {
      var text :| Utf8All(text) == Utf8(cp) + rest;
      assert text != [];
      FirstBytes(text[0], cp, Utf8All(text[1..]), rest);
    }
  }

  lemma NoScalarStartsSo(cp: Scalar, rest: seq<Byte>)
    ensures var bytes := Utf8(cp) + rest; bytes[0] == 0xED && |bytes| > 1 ==> bytes[1] < 0xA0
  {
    if Utf8(cp)[0] == 0xED {
      assert |Utf8(cp)| == 3 && cp / 4096 == 13;
    }
  }

  /** Bytes that start with a surrogate's are not UTF-8. */
  lemma SurrogateFirst(cp: CodePoint, rest: seq<Byte>)
    requires 0xD800 <= cp <= 0xDFFF
    ensures !Decodable(Utf8(cp) + rest)
  {
    var bytes := Utf8(cp) + rest;
    assert bytes[0] == 0xED && bytes[1] >= 0xA0;
    forall text ensures Utf8All(text) != bytes {
      if text != [] {
        NoScalarStartsSo(text[0], Utf8All(text[1..]));
      }
    }
  }

  // ----- ASCII at the start of UTF-8 text -----

  lemma AsciiFirst(text: seq<Scalar>)
    requires text != []
    ensures Utf8All(text) != []
    ensures Utf8All(text)[0] < 0x80 ==> Utf8All(text)[0] == text[0] && Utf8All(text)[1..] == Utf8All(text[1..])
  {
  }

  lemma {:induction false} AsciiPrefix(text: seq<Scalar>, k: nat)
    requires k <= |Utf8All(text)| && forall i :: 0 <= i < k ==> Utf8All(text)[i] < 0x80
    ensures k <= |text| && Utf8All(text)[k..] == Utf8All(text[k..])
    decreases k
  {
    var t := Utf8All(text);
    if k == 0 {
      assert text[0..] == text;
    } else {
      AsciiFirst(text);
      forall i | 0 <= i < k - 1 ensures Utf8All(text[1..])[i] < 0x80 {
        assert t[1..][i] == t[i + 1];
      }
      AsciiPrefix(text[1..], k - 1);
      assert text[1..][k - 1..] == text[k..];
      assert t[1..][k - 1..] == t[k..];
    }
  }

  lemma HexIsAscii(s: seq<Byte>, at: nat, i: nat)
    requires at + 4 <= |s| && Hex4(s, at).Some? && at <= i < at + 4
    ensures s[i] < 0x80
  {
    assert i == at || i == at + 1 || i == at + 2 || i == at + 3;
  }

  // ----- Step by step -----

  lemma {:induction false} PlainBytesPaired(xs: seq<Byte>, rest: seq<Byte>)
    requires forall i :: 0 <= i < |xs| ==> xs[i] != BACKSLASH
    ensures Paired(xs + rest) == Paired(rest)
    decreases |xs|
  {
    if xs == [] {
      assert xs + rest == rest;
    } else {
      assert (xs + rest)[1..] == xs[1..] + rest;
      PlainBytesPaired(xs[1..], rest);
    }
  }

  /** The claim for one string. */
  ghost predicate Exact(t: seq<Byte>) {
    Unescape(t).Some? && (Decodable(Unescape(t).value) <==> Paired(t))
  }

  lemma RawCharacter(cp: Scalar, rest: seq<Byte>)
    requires cp != 92 && Lexes(Utf8(cp) + rest)
    ensures Lexes(rest)
    ensures Exact(rest) ==> Exact(Utf8(cp) + rest)
  {
    var t := Utf8(cp) + rest;
    assert t[0] == Utf8(cp)[0];
    Utf8Bytes(cp);
    PlainBytes(Utf8(cp), rest);
    PlainBytesPaired(Utf8(cp), rest);
    if Unescape(rest).Some? {
      DecodableAfter(cp, Unescape(rest).value);
    }
  }

  lemma Utf8Bytes(cp: Scalar)
    requires cp != 92 && Utf8(cp)[0] != QUOTE && Utf8(cp)[0] >= 0x20
    ensures forall i :: 0 <= i < |Utf8(cp)| ==> Utf8(cp)[i] != BACKSLASH && Utf8(cp)[i] != QUOTE && Utf8(cp)[i] >= 0x20
  {
    Utf8IsPlain(cp);
  }

  /** A step that puts out one character. */
  lemma OneCharacter(t: seq<Byte>, taken: nat, cp: Scalar, unicode: bool)
    requires t != [] && NextStep(t) == Step(taken, Utf8(cp), unicode) && taken <= |t|
    requires !StartsWithLoneSurrogate(t)
    ensures Exact(t[taken..]) ==> Exact(t)
  {
    if Unescape(t[taken..]).Some? {
      DecodableAfter(cp, Unescape(t[taken..]).value);
    }
  }

  lemma ShortEscapeExact(text: seq<Scalar>)
    requires var t := Utf8All(text); |t| >= 2 && t[0] == BACKSLASH && ShortEscape(t[1]).Some? && Lexes(t)
    ensures 2 <= |text| && Lexes(Utf8All(text[2..]))
    ensures Exact(Utf8All(text[2..])) ==> Exact(Utf8All(text))
  {
    var t := Utf8All(text);
    AsciiPrefix(text, 2);
    OneCharacter(t, 2, ShortEscape(t[1]).value, false);
  }

  lemma BackslashNulExact(text: seq<Scalar>)
    requires var t := Utf8All(text); |t| >= 2 && t[0] == BACKSLASH && t[1] == 0 && Lexes(t)
    ensures 2 <= |text| && Lexes(Utf8All(text[2..]))
    ensures Exact(Utf8All(text[2..])) ==> Exact(Utf8All(text))
  {
    var t := Utf8All(text);
    AsciiPrefix(text, 2);
    assert NextStep(t) == Step(1, Utf8(92), false);
    assert NextStep(t[1..]) == Step(1, Utf8(0), false);
    assert t[1..][1..] == t[2..];
    OneCharacter(t[1..], 1, 0, false);
    OneCharacter(t, 1, 92, false);
  }

  lemma UnicodeEscapeExact(text: seq<Scalar>) returns (k: nat)
    requires var t := Utf8All(text);
             |t| >= 6 && t[0] == BACKSLASH && t[1] == LETTER_U && Hex4(t, 2).Some? && Lexes(t)
    ensures 0 < k <= |text| && Lexes(Utf8All(text[k..]))
    ensures Exact(Utf8All(text[k..])) ==> Exact(Utf8All(text))
  {
    var t := Utf8All(text);
    assert ShortEscape(LETTER_U) == None;
    forall i | 0 <= i < 6 ensures t[i] < 0x80 {
      if i >= 2 {
        HexIsAscii(t, 2, i);
      }
    }
    AsciiPrefix(text, 6);
    var cp := Hex4(t, 2).value;
    if IsHigh(cp) && |t| >= 12 && t[6] == BACKSLASH && t[7] == LETTER_U {
      k := HighEscapeExact(text);
    } else {
      k := 6;
      SingleEscapeExact(t);
    }
  }

  /** An escape that is not the first half of a pair. */
  lemma SingleEscapeExact(t: seq<Byte>)
    requires |t| >= 6 && Hex4(t, 2).Some? && NextStep(t) == Step(6, Utf8(Hex4(t, 2).value), true)
    ensures Exact(t[6..]) ==> Exact(t)
  {
    var cp := Hex4(t, 2).value;
    if 0xD800 <= cp <= 0xDFFF {
      if Unescape(t[6..]).Some? {
        SurrogateFirst(cp, Unescape(t[6..]).value);
      }
    } else {
      OneCharacter(t, 6, cp, true);
    }
  }

  /** A high surrogate before another escape. */
  lemma HighEscapeExact(text: seq<Scalar>) returns (k: nat)
    requires var t := Utf8All(text);
             && |t| >= 12 && t[0] == BACKSLASH && t[1] == LETTER_U && Hex4(t, 2).Some? && IsHigh(Hex4(t, 2).value)
             && t[6] == BACKSLASH && t[7] == LETTER_U && Lexes(t)
    ensures 0 < k <= |text| && Lexes(Utf8All(text[k..]))
    ensures Exact(Utf8All(text[k..])) ==> Exact(Utf8All(text))
  {
    var t := Utf8All(text);
    assert ShortEscape(LETTER_U) == None;
    var u := t[6..];
    assert Lexes(u) && u[0] == BACKSLASH && u[1] == LETTER_U;
    assert Hex4(u, 2).Some? && Hex4(t, 8) == Hex4(u, 2);
    forall i | 0 <= i < 12 ensures t[i] < 0x80 {
      if 2 <= i < 6 {
        HexIsAscii(t, 2, i);
      } else if i >= 8 {
        HexIsAscii(t, 8, i);
      }
    }
    if IsLow(Hex4(t, 8).value) {
      k := 12;
      AsciiPrefix(text, 12);
      assert u[6..] == t[12..];
      OneCharacter(t, 12, Combine(Hex4(t, 2).value, Hex4(t, 8).value), true);
    } else {
      k := 6;
      AsciiPrefix(text, 6);
      SingleEscapeExact(t);
    }
  }

  /** Source text the lexer accepts as a string unescapes to the UTF-8 of some text
      exactly when every surrogate escape in it is half of a pair. */
  lemma {:induction false} UnescapedIsUtf8IffPaired(text: seq<Scalar>)
    requires Lexes(Utf8All(text))
    ensures Unescape(Utf8All(text)).Some?
    ensures (exists out :: Unescape(Utf8All(text)) == Some(Utf8All(out))) <==> Paired(Utf8All(text))
    decreases |text|
  {
    AllExact(text);
    var bytes := Unescape(Utf8All(text)).value;
    if Decodable(bytes) {
      var out :| Utf8All(out) == bytes;
      assert Unescape(Utf8All(text)) == Some(Utf8All(out));
    }
    if out :| Unescape(Utf8All(text)) == Some(Utf8All(out)) {
      assert Utf8All(out) == bytes;
    }
  }

  lemma {:induction false} AllExact(text: seq<Scalar>)
    requires Lexes(Utf8All(text))
    ensures Exact(Utf8All(text))
    decreases |text|
  {
    var t := Utf8All(text);
    if text == [] {
      assert Utf8All([]) == [];
    } else if text[0] != 92 {
      RawCharacter(text[0], Utf8All(text[1..]));
      AllExact(text[1..]);
    } else {
      assert t[0] == BACKSLASH;
      if ShortEscape(t[1]).Some? {
        ShortEscapeExact(text);
        AllExact(text[2..]);
      } else if t[1] == 0 {
        BackslashNulExact(text);
        AllExact(text[2..]);
      } else {
        var k := UnicodeEscapeExact(text);
        AllExact(text[k..]);
      }
    }
  }
}
