/** The bytes of JSON texts named by their characters: the tables every other part relies on. */
module Alphabet {
  import opened Basics
  import Utf8
  import opened StringLiteral
  import opened TextEscape
  import opened Numeral
  import opened Trees
  import opened Printer

  function Ascii(text: string): (b: Bytes)
    requires forall i :: 0 <= i < |text| ==> text[i] as int < 128
    ensures |b| == |text|
  {
    seq(|text|, i requires 0 <= i < |text| => text[i] as int)
  }

  /** Whitespace and digits (sections 2 and 6 of RFC 8259). */
  lemma SpacesAndDigits(b: Byte)
    ensures IsSpace(b) <==> b in Ascii(" \t\r\n")
    ensures IsDigit(b) <==> b in Ascii("0123456789")
  {
    assert Ascii(" \t\r\n") == [0x20, 0x09, 0x0D, 0x0A];
    assert Ascii("0123456789") == [0x30, 0x31, 0x32, 0x33, 0x34, 0x35, 0x36, 0x37, 0x38, 0x39];
  }

  /** The three literal names (section 3). */
  lemma Names(b: bool)
    ensures WordBytes(Null) == Ascii("null")
    ensures WordBytes(Boolean(b)) == if b then Ascii("true") else Ascii("false")
  {
  }

  /** The structural characters (section 2), in print. */
  lemma ArrayPunctuation()
    ensures Print(Array([Array([]), Object([])]), COMPACT, 0) == Ascii("[[],{}]")
  {
    var items := [Array([]), Object([])];
    assert Print(items[0], COMPACT, 1) == Ascii("[]") && Print(items[1], COMPACT, 1) == Ascii("{}");
    assert PrintItems(items, 1, COMPACT, 0) == Ascii("{}]");
  }

  lemma ObjectPunctuation()
    ensures Print(Object([Member([], Null), Member([], Text([]))]), COMPACT, 0) == Ascii("{\"\":null,\"\":\"\"}")
  {
    var ms := [Member([], Null), Member([], Text([]))];
    assert Quoted([], false) == Ascii("\"\"");
    assert PrintMembers(ms, 1, COMPACT, 0) == Ascii("\"\":\"\"}");
  }

  /** Indented: one entry a line, two spaces a level, nothing inside an empty container. */
  lemma IndentedArray(style: Style)
    requires style == Style(true, false)
    ensures Print(Array([Array([])]), style, 0) == Ascii("[\n  []\n]")
  {
    BreakText(style);
    hide Break, Quoted, Gap;
    assert Print(Array([]), style, 1) == Ascii("[]");
    assert PrintItems([Array([])], 0, style, 0) == Ascii("\n  []\n]");
  }

  /** The same for a member one level down, with one space after its colon. */
  lemma IndentedMember(style: Style)
    requires style == Style(true, false)
    ensures Print(Object([Member([], Null)]), style, 1) == Ascii("{\n    \"\": null\n  }")
  {
    BreakText(style);
    hide Break, Quoted, Gap;
    assert PrintMembers([Member([], Null)], 0, style, 1) == Ascii("\n    \"\": null\n  }");
  }

  lemma BreakText(style: Style)
    requires style.indent
    ensures Break(style, 0) == Ascii("\n") && Break(style, 1) == Ascii("\n  ") && Break(style, 2) == Ascii("\n    ")
    ensures Gap(style) == Ascii(" ") && Quoted([], false) == Ascii("\"\"")
  {
  }

  lemma FinalNewline(j: Json, style: Style)
    ensures Output(j, style, true) == Output(j, style, false) + Ascii("\n")
  {
    hide Print;
  }

  /** The two-character escapes (section 7): which letters there are and what they mean. */
  lemma ShortEscapes(letter: Byte)
    ensures ShortMeaning(letter) != 0 <==> letter in Ascii("\"\\/bfnrt")
    ensures letter == 'b' as int ==> ShortMeaning(letter) == 0x08
    ensures letter == 'f' as int ==> ShortMeaning(letter) == 0x0C
    ensures letter == 'n' as int ==> ShortMeaning(letter) == 0x0A
    ensures letter == 'r' as int ==> ShortMeaning(letter) == 0x0D
    ensures letter == 't' as int ==> ShortMeaning(letter) == 0x09
    ensures letter in Ascii("\"\\/") ==> ShortMeaning(letter) == letter
  {
    assert Ascii("\"\\/bfnrt") == [0x22, 0x5C, 0x2F, 0x62, 0x66, 0x6E, 0x72, 0x74];
    assert Ascii("\"\\/") == [0x22, 0x5C, 0x2F];
  }

  /** Hexadecimal digits in either case are read by their value, anything else is none. */
  lemma HexDigits(b: Byte)
    ensures HexValue(b) >= 0 <==> b in Ascii("0123456789abcdefABCDEF")
    ensures '0' as int <= b <= '9' as int ==> HexValue(b) == b - '0' as int
    ensures 'a' as int <= b <= 'f' as int ==> HexValue(b) == b - 'a' as int + 10
    ensures 'A' as int <= b <= 'F' as int ==> HexValue(b) == b - 'A' as int + 10
  {
    var all := Ascii("0123456789abcdefABCDEF");
    assert all[..10] == [0x30, 0x31, 0x32, 0x33, 0x34, 0x35, 0x36, 0x37, 0x38, 0x39];
    assert all[10..16] == [0x61, 0x62, 0x63, 0x64, 0x65, 0x66];
    assert all[16..] == [0x41, 0x42, 0x43, 0x44, 0x45, 0x46];
    assert all == all[..10] + all[10..16] + all[16..];
  }

  // ----- the grammar in characters

  /** Unescaped characters (section 7): everything from U+0020 on but the two marks; printable ASCII in that profile. */
  lemma RawCharacters(profile: Profile, p: Utf8.Scalar)
    ensures CharOk(profile, Raw(p)) <==>
              p >= 0x20 && p != 0x22 && p != 0x5C && (profile.ContractAscii? ==> p <= 0x7E)
  {
  }

  /** Escaped characters: a unit that is no surrogate and not U+0000, or a high and a low surrogate; none in ASCII. */
  lemma EscapedCharacters(profile: Profile, h: Bytes, l: Bytes)
    ensures CharOk(profile, Hex(h)) <==>
              !profile.ContractAscii? && IsHex4(h) && Hex4(h) != 0 && !(0xD800 <= Hex4(h) <= 0xDFFF)
    ensures CharOk(profile, Surrogates(h, l)) <==>
              && !profile.ContractAscii? && IsHex4(h) && IsHex4(l)
              && 0xD800 <= Hex4(h) <= 0xDBFF && 0xDC00 <= Hex4(l) <= 0xDFFF
    ensures CharOk(profile, Surrogates(h, l)) ==>
              Point(Surrogates(h, l)) == 0x10000 + (Hex4(h) - 0xD800) * 0x400 + (Hex4(l) - 0xDC00)
    ensures IsHex4(h) ==>
              Hex4(h) == HexValue(h[0]) * 0x1000 + HexValue(h[1]) * 0x100 + HexValue(h[2]) * 0x10 + HexValue(h[3])
  {
  }

  /** How escaped characters are spelled. */
  lemma SpelledEscapes(letter: Byte, h: Bytes, l: Bytes)
    ensures Spell(Short(letter)) == Ascii("\\") + [letter]
    ensures Spell(Hex(h)) == Ascii("\\u") + h
    ensures Spell(Surrogates(h, l)) == Ascii("\\u") + h + Ascii("\\u") + l
  {
  }

  /** How numbers are spelled (section 6). */
  lemma SpelledNumber()
    ensures SpellParts(Parts(true, Ascii("10"), Ascii("5"), Exponent('E' as int, Ascii("+"), Ascii("3")))) ==
            Ascii("-10.5E+3")
    ensures SpellParts(Parts(false, Ascii("0"), [], Exponent('e' as int, Ascii("-"), Ascii("1")))) == Ascii("0e-1")
    ensures SpellParts(Parts(false, Ascii("7"), [], NoExponent)) == Ascii("7")
  {
  }

  /** No leading zero, no bare sign, no plus, no empty fraction or exponent. */
  lemma NoNumbers()
    ensures !IsNumber([]) && !IsNumber(Ascii("-")) && !IsNumber(Ascii("+1")) && !IsNumber(Ascii("01"))
    ensures !IsNumber(Ascii("1.")) && !IsNumber(Ascii(".5")) && !IsNumber(Ascii("1e"))
    ensures IsNumber(Ascii("0")) && IsNumber(Ascii("-0")) && IsNumber(Ascii("10"))
  {
    assert Ascii("-") == [0x2D] && Ascii("+1") == [0x2B, 0x31] && Ascii("01") == [0x30, 0x31];
    assert Ascii("1.") == [0x31, 0x2E] && Ascii(".5") == [0x2E, 0x35] && Ascii("1e") == [0x31, 0x65];
    assert Ascii("0") == [0x30] && Ascii("-0") == [0x2D, 0x30] && Ascii("10") == [0x31, 0x30];
  }

  // ----- what is printed

  /** `b` is the lower-case hexadecimal digit of `n`. */
  predicate LowerHex(b: Byte, n: int) {
    ('0' as int <= b <= '9' as int && b - '0' as int == n) || ('a' as int <= b <= 'f' as int && b - 'a' as int + 10 == n)
  }

  /** The canonical spelling of each byte: five short escapes besides the two marks, `\u00xx` in lower case, or itself. */
  lemma CanonicalSpelling(b: Byte)
    ensures b == '\"' as int ==> CanonicalEscape(b) == Ascii("\\\"")
    ensures b == '\\' as int ==> CanonicalEscape(b) == Ascii("\\\\")
    ensures b == 0x08 ==> CanonicalEscape(b) == Ascii("\\b")
    ensures b == 0x09 ==> CanonicalEscape(b) == Ascii("\\t")
    ensures b == 0x0A ==> CanonicalEscape(b) == Ascii("\\n")
    ensures b == 0x0C ==> CanonicalEscape(b) == Ascii("\\f")
    ensures b == 0x0D ==> CanonicalEscape(b) == Ascii("\\r")
    ensures b >= 0x20 && b != '\"' as int && b != '\\' as int ==> CanonicalEscape(b) == [b]
    ensures b < 0x20 && b !in {0x08, 0x09, 0x0A, 0x0C, 0x0D} ==>
              var e := CanonicalEscape(b);
              |e| == 6 && e[..4] == Ascii("\\u00") && LowerHex(e[4], b / 16) && LowerHex(e[5], b % 16)
  {
    if b < 0x20 && b !in {0x08, 0x09, 0x0A, 0x0C, 0x0D} {
      ControlSpelling(b);
    }
  }

  lemma ControlSpelling(b: Byte)
    requires b < 0x20 && b !in {0x08, 0x09, 0x0A, 0x0C, 0x0D}
    ensures var e := CanonicalEscape(b);
            |e| == 6 && e[..4] == Ascii("\\u00") && LowerHex(e[4], b / 16) && LowerHex(e[5], b % 16)
  {
    hide UnicodeEscape;
    assert CanonicalEscape(b) == UnicodeEscape(b) by {
      UnicodeIs(b);
    }
    EscapeSpelling(b);
    var e := CanonicalEscape(b);
    assert e[2] == '0' as int && e[3] == '0' as int;
    assert e[..4] == Ascii("\\u00");
  }

  lemma UnicodeIs(b: Byte)
    ensures UnicodeEscape(b) == [BACKSLASH, LETTER_U] + Hex4Of(b)
  {
  }

  /** A printed `\u` escape: four lower-case digits of the code unit, never a capital. */
  lemma EscapeSpelling(unit: int)
    requires 0 <= unit < 0x10000
    ensures var e := UnicodeEscape(unit);
            && |e| == 6 && e[0] == '\\' as int && e[1] == 'u' as int
            && LowerHex(e[2], unit / 4096) && LowerHex(e[3], unit / 256 % 16)
            && LowerHex(e[4], unit / 16 % 16) && LowerHex(e[5], unit % 16)
            && forall k :: 0 <= k < 6 ==> e[k] <= 0x7F && !('A' as int <= e[k] <= 'F' as int)
  {
    DigitIsLower(unit / 4096);
    DigitIsLower(unit / 256 % 16);
    DigitIsLower(unit / 16 % 16);
    DigitIsLower(unit % 16);
    hide HexDigit;
  }

  lemma DigitIsLower(n: int)
    requires 0 <= n < 16
    ensures LowerHex(HexDigit(n), n)
  {
  }

  /** A scalar value above ASCII as escapes: itself, or the high and the low surrogate of section 7. */
  lemma PointSpelling(p: int)
    requires 0x7F < p <= 0x10FFFF && !(0xD800 <= p <= 0xDFFF)
    ensures p < 0x10000 ==> PointEscape(p) == UnicodeEscape(p)
    ensures p >= 0x10000 ==>
              exists high, low :: 0xD800 <= high <= 0xDBFF && 0xDC00 <= low <= 0xDFFF &&
                p == 0x10000 + (high - 0xD800) * 0x400 + (low - 0xDC00) &&
                PointEscape(p) == UnicodeEscape(high) + UnicodeEscape(low)
    ensures forall k :: 0 <= k < |PointEscape(p)| ==> PointEscape(p)[k] <= 0x7F
  {
    hide UnicodeEscape;
    if p >= 0x10000 {
      var high, low := 0xD800 + (p - 0x10000) / 1024, 0xDC00 + (p - 0x10000) % 1024;
      EscapeSpelling(high);
      EscapeSpelling(low);
      assert PointEscape(p) == UnicodeEscape(high) + UnicodeEscape(low);
    } else {
      EscapeSpelling(p);
    }
  }

  /** Raw presentation takes a text byte by byte, bytes above ASCII unchanged; ASCII text looks the same either way. */
  lemma {:induction false} RawPresentation(t: Bytes, i: nat, ascii: bool)
    requires i <= |t| && (ascii ==> forall k :: 0 <= k < |t| ==> t[k] <= 0x7F)
    ensures EscapeFrom(t, i, ascii) == if i == |t| then [] else CanonicalEscape(t[i]) + EscapeFrom(t, i + 1, ascii)
    ensures EscapeFrom(t, i, ascii) == EscapeFrom(t, i, false)
    decreases |t| - i
  {
    hide CanonicalEscape, PointEscape;
    if i < |t| {
      RawPresentation(t, i + 1, ascii);
    }
  }
}
