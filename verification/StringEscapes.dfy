/**
 String literals: what the lexer lets through between quotes, and the unescaping
 of it into a buffer no larger than the input.
 */
module StringEscapes {
  import opened Values

  type Byte = n: int | 0 <= n < 256

  /** A code point as the encoder takes it, surrogates included. */
  type CodePoint = n: int | 0 <= n < 0x110000

  const QUOTE: Byte := 34
  const BACKSLASH: Byte := 92
  const LETTER_U: Byte := 117

  // ----- Encoding and hexadecimal digits -----

  /** The UTF-8 form of a code point. */
  function Utf8(cp: CodePoint): (bytes: seq<Byte>)
    ensures 1 <= |bytes| <= 4
  {
    if cp < 0x80 then [cp]
    else if cp < 0x800 then [0xC0 + cp / 64, 0x80 + cp % 64]
    else if cp < 0x10000 then [0xE0 + cp / 4096, 0x80 + cp / 64 % 64, 0x80 + cp % 64]
    else [0xF0 + cp / 262144, 0x80 + cp / 4096 % 64, 0x80 + cp / 64 % 64, 0x80 + cp % 64]
  }

  function HexDigit(b: Byte): (d: Option<int>)
    ensures d.Some? ==> 0 <= d.value < 16
  {
    if 48 <= b <= 57 then Some(b - 48)
    else if 65 <= b <= 70 then Some(b - 65 + 10)
    else if 97 <= b <= 102 then Some(b - 97 + 10)
    else None
  }

  /** The number written in the four digits at `at`. */
  function Hex4(s: seq<Byte>, at: nat): (v: Option<int>)
    requires at + 4 <= |s|
    ensures v.Some? ==> 0 <= v.value < 0x10000
  {
    var a, b, c, d := HexDigit(s[at]), HexDigit(s[at + 1]), HexDigit(s[at + 2]), HexDigit(s[at + 3]);
    if a.Some? && b.Some? && c.Some? && d.Some?
    then Some(a.value * 4096 + b.value * 256 + c.value * 16 + d.value) else None
  }

  method ParseHex4(s: seq<Byte>, at: nat) returns (r: Option<int>)
    requires at + 4 <= |s|
    ensures r == Hex4(s, at)
  {
    var parsed := 0;
    for i := 0 to 4
      invariant HexPrefix(s, at, i) == Some(parsed)
    {
      var digit := HexDigit(s[at + i]);
      if digit.None? {
        assert i == 0 || i == 1 || i == 2 || i == 3;
        return None;
      }
      parsed := parsed * 16 + digit.value;
    }
    HexPrefixOfFour(s, at);
    return Some(parsed);
  }

  /** The number in the first `i` of the digits at `at`. */
  ghost function HexPrefix(s: seq<Byte>, at: nat, i: nat): Option<int>
    requires at + 4 <= |s| && i <= 4
  {
    if i == 0 then Some(0)
    else
      var high, low := HexPrefix(s, at, i - 1), HexDigit(s[at + i - 1]);
      if high.Some? && low.Some? then Some(high.value * 16 + low.value) else None
  }

  lemma HexPrefixOfFour(s: seq<Byte>, at: nat)
    requires at + 4 <= |s|
    ensures HexPrefix(s, at, 4) == Hex4(s, at)
  {
    assert HexPrefix(s, at, 0) == Some(0);
    var one, two := HexPrefix(s, at, 1), HexPrefix(s, at, 2);
    var three := HexPrefix(s, at, 3);
  }

  // ----- Unescaping -----

  /** The character of a short escape, by the letter after the backslash. */
  function ShortEscape(letter: Byte): Option<Byte> {
    if letter == 34 then Some(34)
    else if letter == 92 then Some(92)
    else if letter == 47 then Some(47)
    else if letter == 98 then Some(8)
    else if letter == 102 then Some(12)
    else if letter == 110 then Some(10)
    else if letter == 114 then Some(13)
    else if letter == 116 then Some(9)
    else None
  }

  predicate IsHigh(cp: int) { 0xD800 <= cp <= 0xDBFF }

  predicate IsLow(cp: int) { 0xDC00 <= cp <= 0xDFFF }

  function Combine(high: int, low: int): CodePoint
    requires IsHigh(high) && IsLow(low)
  {
    0x10000 + (high - 0xD800) * 1024 + (low - 0xDC00)
  }

  /** One step: how much input it takes, what it puts out, and whether it was a
      Unicode escape; or an invalid escape. */
  datatype Step = Invalid | Step(taken: nat, out: seq<Byte>, unicode: bool)

  function NextStep(t: seq<Byte>): (r: Step)
    requires t != []
    ensures r.Step? ==> 1 <= |r.out| <= r.taken <= |t|
  {
    if t[0] != BACKSLASH || |t| < 2 then Step(1, [t[0]], false)
    else if ShortEscape(t[1]).Some? then Step(2, [ShortEscape(t[1]).value], false)
    else if t[1] != LETTER_U || |t| < 6 then Step(1, [t[0]], false)
    else if Hex4(t, 2).None? then Invalid
    else
      var cp := Hex4(t, 2).value;
      if !(IsHigh(cp) && |t| >= 12 && t[6] == BACKSLASH && t[7] == LETTER_U) then Step(6, Utf8(cp), true)
      else if Hex4(t, 8).None? then Invalid
      else if IsLow(Hex4(t, 8).value) then Step(12, Utf8(Combine(cp, Hex4(t, 8).value)), true)
      else Step(6, Utf8(cp), true)
  }

  function Unescape(t: seq<Byte>): (r: Option<seq<Byte>>)
    ensures r.Some? ==> |r.value| <= |t|
    decreases |t|
  {
    if t == [] then Some([])
    else
      var step := NextStep(t);
      if step.Invalid? then None
      else
        var rest := Unescape(t[step.taken..]);
        if rest.None? then None else Some(step.out + rest.value)
  }

  /** Whether any step is a Unicode escape. */
  function HasUnicodeEscape(t: seq<Byte>): bool
    decreases |t|
  {
    t != [] && NextStep(t).Step? && (NextStep(t).unicode || HasUnicodeEscape(t[NextStep(t).taken..]))
  }

  /** Unescapes into a buffer one byte larger than the input, ended by a zero byte. */
  method UnescapeString(src: seq<Byte>, utf8: bool) returns (ok: bool, dst: array<Byte>, length: nat, outUtf8: bool)
    ensures ok <==> Unescape(src).Some?
    ensures ok ==> length <= |src| < dst.Length && dst[..length] == Unescape(src).value && dst[length] == 0
    ensures ok ==> outUtf8 == (utf8 || HasUnicodeEscape(src))
  {
    dst := new Byte[|src| + 1];
    length, outUtf8, ok := 0, utf8, true;
    var i := 0;
    assert src[0..] == src;
    PrefixedNone(dst[..0], Unescape(src));
    while i < |src|
      invariant 0 <= i <= |src| && length <= i
      invariant Unescape(src) == Prefixed(dst[..length], Unescape(src[i..]))
      invariant Unescape(src[i..]).Some? ==> (outUtf8 || HasUnicodeEscape(src[i..])) == (utf8 || HasUnicodeEscape(src))
      decreases |src| - i
    {
      var step := TakeStep(src, i);
      if step.Invalid? {
        return false, dst, 0, false;
      }
      assert src[i..][step.taken..] == src[i + step.taken..];
      PrefixedAgain(dst[..length], step.out, Unescape(src[i + step.taken..]));
      length := Append(dst, length, step.out);
      outUtf8 := outUtf8 || step.unicode;
      i := i + step.taken;
    }
    assert src[i..] == [];
    assert dst[..length] + [] == dst[..length];
    dst[length] := 0;
  }

  /** Writes bytes into the buffer after the first `length`. */
  method Append(dst: array<Byte>, length: nat, out: seq<Byte>) returns (longer: nat)
    requires length + |out| <= dst.Length
    modifies dst
    ensures longer == length + |out| && dst[..longer] == old(dst[..length]) + out
  {
    ghost var before := dst[..length];
    for j := 0 to |out|
      invariant dst[..length + j] == before + out[..j]
    {
      dst[length + j] := out[j];
      assert dst[..length + j + 1] == dst[..length + j] + [out[j]];
      assert before + out[..j + 1] == before + out[..j] + [out[j]];
    }
    assert out[..|out|] == out;
    longer := length + |out|;
  }

  lemma PrefixedNone(xs: seq<Byte>, r: Option<seq<Byte>>)
    requires xs == []
    ensures Prefixed(xs, r) == r
  {
    if r.Some? {
      assert xs + r.value == r.value;
    }
  }

  function Prefixed(xs: seq<Byte>, r: Option<seq<Byte>>): Option<seq<Byte>> {
    if r.None? then None else Some(xs + r.value)
  }

  lemma PrefixedAgain(xs: seq<Byte>, ys: seq<Byte>, r: Option<seq<Byte>>)
    ensures Prefixed(xs, Prefixed(ys, r)) == Prefixed(xs + ys, r)
  {
    if r.Some? {
      assert xs + (ys + r.value) == xs + ys + r.value;
    }
  }

  /** The step at position `i`, with the program's index arithmetic. */
  method TakeStep(src: seq<Byte>, i: nat) returns (r: Step)
    requires i < |src|
    ensures r == NextStep(src[i..])
  {
    ghost var t := src[i..];
    if src[i] == BACKSLASH && i + 1 < |src| {
      var decoded := ShortEscape(src[i + 1]);
      if decoded.Some? {
        return Step(2, [decoded.value], false);
      }
      if src[i + 1] == LETTER_U && i + 5 < |src| {
        var cp := ParseHex4(src, i + 2);
        assert Hex4(t, 2) == Hex4(src, i + 2);
        if cp.None? {
          return Invalid;
        }
        if 0xD800 <= cp.value <= 0xDBFF && i + 11 < |src| && src[i + 6] == BACKSLASH && src[i + 7] == LETTER_U {
          var low := ParseHex4(src, i + 8);
          assert Hex4(t, 8) == Hex4(src, i + 8);
          if low.None? {
            return Invalid;
          }
          if 0xDC00 <= low.value <= 0xDFFF {
            return Step(12, Utf8(0x10000 + (cp.value - 0xD800) * 1024 + (low.value - 0xDC00)), true);
          }
        }
        return Step(6, Utf8(cp.value), true);
      }
    }
    return Step(1, [src[i]], false);
  }

  // ----- What the lexer lets through -----

  /** The contents of a string token: no raw quote, no control character, and every
      backslash begins a known escape (or precedes a zero byte). */
  predicate Lexes(t: seq<Byte>)
    decreases |t|
  {
    t == [] ||
    if t[0] == BACKSLASH then
      && |t| >= 2
      && if ShortEscape(t[1]).Some? || t[1] == 0 then Lexes(t[2..])
         else t[1] == LETTER_U && |t| >= 6 && Hex4(t, 2).Some? && Lexes(t[6..])
    else t[0] != QUOTE && t[0] >= 0x20 && Lexes(t[1..])
  }

  /** A string the lexer accepts is never rejected by unescaping. */
  lemma {:induction false} LexedStringsUnescape(t: seq<Byte>)
    requires Lexes(t)
    ensures Unescape(t).Some?
    decreases |t|
  {
    if t != [] {
      if t[0] == BACKSLASH && ShortEscape(t[1]).None? && t[1] == 0 {
        assert NextStep(t) == Step(1, [t[0]], false);
        assert t[1..] != [] && NextStep(t[1..]) == Step(1, [0], false);
        assert t[1..][1..] == t[2..];
        LexedStringsUnescape(t[2..]);
      } else if t[0] == BACKSLASH && ShortEscape(t[1]).None? {
        LexedStringsUnescape(t[6..]);
        if |t| >= 12 && t[6] == BACKSLASH && t[7] == LETTER_U {
          assert t[6..][1] == LETTER_U && Hex4(t[6..], 2) == Hex4(t, 8);
          assert t[6..][6..] == t[12..];
          LexedStringsUnescape(t[12..]);
        }
      } else {
        LexedStringsUnescape(t[NextStep(t).taken..]);
      }
    }
  }
}
