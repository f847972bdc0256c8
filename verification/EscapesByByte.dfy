/**
 Unescaping and UTF-8 on given bytes: what each letter, digit and code point is.
 */
module EscapesByByte {
  import opened Values
  import opened StringEscapes

  // ----- The bytes of characters and escapes -----

  /** The code point that bytes stand for: one byte for itself; else the first byte tells
      the length, and each later one holds six bits. */
  function CodePointOf(b: seq<Byte>): int
    requires 1 <= |b| <= 4
  {
    var n: seq<int> := seq(|b|, i requires 0 <= i < |b| => b[i] as int);
    match |b|
    case 1 => n[0]
    case 2 => (n[0] - 0xC0) * 64 + (n[1] - 0x80)
    case 3 => (n[0] - 0xE0) * 4096 + (n[1] - 0x80) * 64 + (n[2] - 0x80)
    case _ => (n[0] - 0xF0) * 262144 + (n[1] - 0x80) * 4096 + (n[2] - 0x80) * 64 + (n[3] - 0x80)
  }

  /** The UTF-8 of a code point stands for it. */
  lemma Utf8Reads(cp: CodePoint)
    ensures CodePointOf(Utf8(cp)) == cp
  {
    if cp < 0x800 {
    } else if cp < 0x10000 {
      assert cp == cp / 4096 * 4096 + cp / 64 % 64 * 64 + cp % 64;
    } else {
      assert cp == cp / 262144 * 262144 + cp / 4096 % 64 * 4096 + cp / 64 % 64 * 64 + cp % 64;
    }
  }

  /** Its length, and the ranges of its bytes, are those of section 3 of RFC 3629. */
  lemma Utf8Shape(cp: CodePoint)
    ensures var b := Utf8(cp);
            && (cp < 0x80 <==> |b| == 1) && (cp < 0x800 <==> |b| <= 2) && (cp < 0x10000 <==> |b| <= 3)
            && (|b| == 1 ==> b[0] <= 0x7F) && (|b| == 2 ==> 0xC2 <= b[0] <= 0xDF)
            && (|b| == 3 ==> 0xE0 <= b[0] <= 0xEF) && (|b| == 4 ==> 0xF0 <= b[0] <= 0xF4)
            && forall i :: 1 <= i < |b| ==> 0x80 <= b[i] <= 0xBF
  {
  }

  /** A dollar sign, a pound sign, a euro sign and a face. */
  lemma Utf8Examples()
    ensures Utf8(0x24) == [0x24] && Utf8(0xA3) == [0xC2, 0xA3] && Utf8(0x20AC) == [0xE2, 0x82, 0xAC]
    ensures Utf8(0x1F600) == [0xF0, 0x9F, 0x98, 0x80]
  {
  }

  lemma OneStep(t: seq<Byte>, out: seq<Byte>, unicode: bool)
    requires t != [] && NextStep(t) == Step(|t|, out, unicode)
    ensures Unescape(t) == Some(out)
  {
    assert t[|t|..] == [];
    assert out + [] == out;
  }

  /** A backslash before `"`, `\`, `/`, `b`, `f`, `n`, `r` or `t`. */
  lemma ShortEscapesRead()
    ensures Unescape([92, 34]) == Some([34]) && Unescape([92, 92]) == Some([92]) && Unescape([92, 47]) == Some([47])
    ensures Unescape([92, 98]) == Some([8]) && Unescape([92, 102]) == Some([12]) && Unescape([92, 110]) == Some([10])
    ensures Unescape([92, 114]) == Some([13]) && Unescape([92, 116]) == Some([9])
  {
    OneStep([92, 34], [34], false);
    OneStep([92, 92], [92], false);
    OneStep([92, 47], [47], false);
    OneStep([92, 98], [8], false);
    OneStep([92, 102], [12], false);
    OneStep([92, 110], [10], false);
    OneStep([92, 114], [13], false);
    OneStep([92, 116], [9], false);
  }

  /** Before any other letter but `u` a backslash stands for itself, as any byte does that
      is no backslash. */
  lemma OthersStand(c: Byte)
    ensures c !in {34, 92, 47, 98, 102, 110, 114, 116, 117} ==> Unescape([92, c]) == Some([92, c])
    ensures c != 92 ==> Unescape([c]) == Some([c])
  {
    if c != 92 {
      OneStep([c], [c], false);
      assert NextStep([c]) == Step(1, [c], false);
    }
    if c !in {34, 92, 47, 98, 102, 110, 114, 116, 117} {
      var t := [92, c];
      assert NextStep(t) == Step(1, [92], false);
      assert t[1..] == [c];
      assert [92] + [c] == t;
    }
  }

  /** What each byte counts as a hexadecimal digit. */
  lemma HexDigitsRead(b: Byte)
    ensures '0' <= b as char <= '9' ==> HexDigit(b) == Some(b as char as int - '0' as int)
    ensures 'a' <= b as char <= 'f' ==> HexDigit(b) == Some(10 + (b as char as int - 'a' as int))
    ensures 'A' <= b as char <= 'F' ==> HexDigit(b) == Some(10 + (b as char as int - 'A' as int))
    ensures !('0' <= b as char <= '9' || 'a' <= b as char <= 'f' || 'A' <= b as char <= 'F') ==> HexDigit(b) == None
  {
  }

  /** `\u0041`, `\u00e9`, `\u20AC`, and the pair `\uD83D\uDE00` for one character. */
  lemma UnicodeEscapesRead()
    ensures Unescape([92, 117, 48, 48, 52, 49]) == Some([0x41])
    ensures Unescape([92, 117, 48, 48, 101, 57]) == Some([0xC3, 0xA9])
    ensures Unescape([92, 117, 50, 48, 65, 67]) == Some([0xE2, 0x82, 0xAC])
    ensures Unescape([92, 117, 68, 56, 51, 68, 92, 117, 68, 69, 48, 48]) == Some([0xF0, 0x9F, 0x98, 0x80])
  {
    OneStep([92, 117, 48, 48, 52, 49], [0x41], true);
    OneStep([92, 117, 48, 48, 101, 57], [0xC3, 0xA9], true);
    OneStep([92, 117, 50, 48, 65, 67], [0xE2, 0x82, 0xAC], true);
    var pair := [92, 117, 68, 56, 51, 68, 92, 117, 68, 69, 48, 48];
    assert Hex4(pair, 2) == Some(0xD83D) && Hex4(pair, 8) == Some(0xDE00);
    OneStep(pair, [0xF0, 0x9F, 0x98, 0x80], true);
  }

  /** Between quotes stand no raw quote and no control character; a backslash stands
      before `"`, `\`, `/`, `b`, `f`, `n`, `r`, `t`, a zero byte, or `u` and four digits. */
  lemma LexedFirst(c: Byte, rest: seq<Byte>)
    ensures c != 92 ==> (Lexes([c] + rest) <==> c != 34 && c >= 32 && Lexes(rest))
    ensures c in {34, 92, 47, 98, 102, 110, 114, 116, 0} ==> (Lexes([92, c] + rest) <==> Lexes(rest))
    ensures c !in {34, 92, 47, 98, 102, 110, 114, 116, 0, 117} ==> !Lexes([92, c] + rest)
    ensures Lexes([]) && !Lexes([92])
  {
    var one, two := [c] + rest, [92, c] + rest;
    assert one[1..] == rest && two[2..] == rest;
  }
}
