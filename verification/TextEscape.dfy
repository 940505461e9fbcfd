/** How the writer spells text inside a string literal, and why the reader gets the same text back. */
module TextEscape {
  import opened Basics
  import opened Utf8
  import opened StringLiteral

  function HexDigit(n: int): (b: Byte)
    requires 0 <= n < 16
    ensures HexValue(b) == n
  {
    if n < 10 then 0x30 + n else 0x61 + (n - 10)
  }

  function Hex4Of(n: int): (d: Bytes)
    requires 0 <= n < 0x10000
    ensures IsHex4(d)
  {
    [HexDigit(n / 4096), HexDigit(n / 256 % 16), HexDigit(n / 16 % 16), HexDigit(n % 16)]
  }

  lemma Hex4Inverse(n: int)
    requires 0 <= n < 0x10000
    ensures Hex4(Hex4Of(n)) == n
  {
    assert n / 256 == n / 16 / 16 && n / 4096 == n / 16 / 16 / 16;
  }

  /** The letter of the short escape of a byte, or 0 when it has none. */
  function ShortLetter(b: Byte): (letter: Byte)
    ensures letter != 0 ==> ShortMeaning(letter) == b
  {
    match b
    case 0x22 => 0x22
    case 0x5C => 0x5C
    case 0x08 => 0x62
    case 0x0C => 0x66
    case 0x0A => 0x6E
    case 0x0D => 0x72
    case 0x09 => 0x74
    case _ => 0
  }

  /** The canonical spelling of one byte; it never looks at code points. */
  function CanonicalEscape(b: Byte): (s: Bytes)
    ensures 1 <= |s| <= 6
  {
    if ShortLetter(b) != 0 then [BACKSLASH, ShortLetter(b)]
    else if b >= 0x20 then [b]
    else [BACKSLASH, LETTER_U] + Hex4Of(b)
  }

  function UnicodeEscape(unit: int): Bytes
    requires 0 <= unit < 0x10000
  {
    [BACKSLASH, LETTER_U] + Hex4Of(unit)
  }

  /** The ASCII presentation of a scalar value above U+007F. */
  function PointEscape(p: Scalar): Bytes {
    if p >= 0x10000 then
      UnicodeEscape(0xD800 + (p - 0x10000) / 1024) + UnicodeEscape(0xDC00 + (p - 0x10000) % 1024)
    else UnicodeEscape(p)
  }

  /** The spelling of `t` from `i`: by byte, or by code point above U+007F when `ascii` is set. */
  function EscapeFrom(t: Bytes, i: nat, ascii: bool): Bytes
    decreases |t| - i
  {
    if i >= |t| then []
    else if ascii && t[i] >= 0x80 && StepAt(t, i) > 0 then
      StepEncodes(t, i);
      PointEscape(PointAt(t, i)) + EscapeFrom(t, i + StepAt(t, i), ascii)
    else CanonicalEscape(t[i]) + EscapeFrom(t, i + 1, ascii)
  }

  function Quoted(t: Bytes, ascii: bool): Bytes {
    [QUOTE] + EscapeFrom(t, 0, ascii) + [QUOTE]
  }

  /** The `char` of the grammar that the writer chooses for a scalar value. */
  function CanonChar(p: Scalar, ascii: bool): Char {
    if p <= 0x7F && ShortLetter(p) != 0 then Short(ShortLetter(p))
    else if p < 0x20 then Hex(Hex4Of(p))
    else if p <= 0x7F || !ascii then Raw(p)
    else if p >= 0x10000 then
      Surrogates(Hex4Of(0xD800 + (p - 0x10000) / 1024), Hex4Of(0xDC00 + (p - 0x10000) % 1024))
    else Hex(Hex4Of(p))
  }

  lemma CanonCharOk(profile: Profile, p: Scalar, ascii: bool)
    requires p != 0
    requires profile.ContractAscii? ==> 0x20 <= p <= 0x7E && p != QUOTE && p != BACKSLASH
    ensures CharOk(profile, CanonChar(p, ascii)) && Point(CanonChar(p, ascii)) == p
  {
    hide HexValue, Hex4, Hex4Of;
    if p < 0x10000 {
      Hex4Inverse(p);
    } else {
      Hex4Inverse(0xD800 + (p - 0x10000) / 1024);
      Hex4Inverse(0xDC00 + (p - 0x10000) % 1024);
    }
  }

  /** Text the writer accepts under a profile. */
  predicate Printable(profile: Profile, t: Bytes) {
    if profile.ContractAscii? then
      forall k :: 0 <= k < |t| ==> 0x20 <= t[k] <= 0x7E && t[k] != QUOTE && t[k] != BACKSLASH
    else
      (forall k :: 0 <= k < |t| ==> t[k] != 0) && Valid(t)
  }

  function CharsFrom(t: Bytes, i: nat, ascii: bool): (cs: seq<Char>)
    requires i <= |t| && PrefixFrom(t, i) == |t|
    decreases |t| - i
  {
    if i == |t| then []
    else
      StepEncodes(t, i);
      [CanonChar(PointAt(t, i), ascii)] + CharsFrom(t, i + StepAt(t, i), ascii)
  }

  /** What `CharsFrom` must satisfy for the literal to read back as `t`. */
  ghost predicate Faithful(profile: Profile, t: Bytes, i: nat, ascii: bool, cs: seq<Char>)
    requires i <= |t| && PrefixFrom(t, i) == |t|
  {
    && CharsOk(profile, cs)
    && SpellAll(cs) == EscapeFrom(t, i, ascii)
    && Points(cs) == ScalarsFrom(t, i)
  }

  /** A byte above ASCII stands for itself in the raw presentation. */
  lemma HighByte(t: Bytes, i: nat)
    requires i < |t| && t[i] >= 0x80
    ensures EscapeFrom(t, i, false) == [t[i]] + EscapeFrom(t, i + 1, false)
  {
    hide StepAt, PointAt, PointEscape;
    assert CanonicalEscape(t[i]) == [t[i]];
  }

  lemma {:induction false} EscapeHigh(t: Bytes, i: nat, n: nat)
    requires i + n <= |t| && forall k :: i <= k < i + n ==> t[k] >= 0x80
    ensures EscapeFrom(t, i, false) == t[i..i + n] + EscapeFrom(t, i + n, false)
    decreases n
  {
    hide EscapeFrom;
    if n == 0 {
      assert t[i..i] == [];
    } else {
      EscapeHigh(t, i + 1, n - 1);
      HighByte(t, i);
      assert t[i..i + n] == [t[i]] + t[i + 1..i + n];
    }
  }

  lemma StepShape(t: Bytes, i: nat)
    requires i < |t| && StepAt(t, i) > 0
    ensures t[i] <= 0x7F ==> StepAt(t, i) == 1 && PointAt(t, i) == t[i]
    ensures t[i] > 0x7F ==> PointAt(t, i) > 0x7F
    ensures t[i] > 0x7F ==> forall k :: i <= k < i + StepAt(t, i) ==> t[k] >= 0x80
  {
  }

  /** One step of the writer spells the character chosen for the scalar value there. */
  lemma EscapeStep(t: Bytes, i: nat, ascii: bool)
    requires i < |t| && StepAt(t, i) > 0 && IsScalar(PointAt(t, i))
    requires Encode(PointAt(t, i)) == t[i..i + StepAt(t, i)]
    ensures EscapeFrom(t, i, ascii) ==
            Spell(CanonChar(PointAt(t, i), ascii)) + EscapeFrom(t, i + StepAt(t, i), ascii)
  {
    StepShape(t, i);
    hide PointAt, StepAt, Hex4Of;
    var p := PointAt(t, i);
    if t[i] <= 0x7F {
      assert t[i..i + 1] == [t[i]];
    } else if ascii {
      hide Encode;
      SpellPoint(p);
    } else {
      hide Encode;
      EscapeHigh(t, i, StepAt(t, i));
    }
  }

  lemma SpellPoint(p: Scalar)
    requires p > 0x7F
    ensures Spell(CanonChar(p, true)) == PointEscape(p)
  {
    hide Hex4Of, ShortLetter;
  }

  lemma PrintablePoint(profile: Profile, t: Bytes, i: nat, ascii: bool)
    requires i < |t| && Printable(profile, t) && StepAt(t, i) > 0 && IsScalar(PointAt(t, i))
    ensures var c := CanonChar(PointAt(t, i), ascii);
            CharOk(profile, c) && Point(c) == PointAt(t, i)
  {
    StepShape(t, i);
    hide StepAt, PointAt, CharOk, CanonChar, Point;
    CanonCharOk(profile, PointAt(t, i), ascii);
  }

  lemma CharsUnfold(t: Bytes, i: nat, ascii: bool)
    requires i < |t| && PrefixFrom(t, i) == |t|
    ensures StepAt(t, i) > 0 && PrefixFrom(t, i + StepAt(t, i)) == |t| && IsScalar(PointAt(t, i))
    ensures Encode(PointAt(t, i)) == t[i..i + StepAt(t, i)]
    ensures ScalarsFrom(t, i) == [PointAt(t, i)] + ScalarsFrom(t, i + StepAt(t, i))
    ensures CharsFrom(t, i, ascii) == [CanonChar(PointAt(t, i), ascii)] + CharsFrom(t, i + StepAt(t, i), ascii)
  {
    if StepAt(t, i) > 0 {
      StepEncodes(t, i);
    }
  }

  lemma SpellCons(profile: Profile, c: Char, cs: seq<Char>)
    requires CharOk(profile, c) && CharsOk(profile, cs)
    ensures CharsOk(profile, [c] + cs) && SpellAll([c] + cs) == Spell(c) + SpellAll(cs)
    ensures Points([c] + cs) == [Point(c)] + Points(cs)
  {
    assert ([c] + cs)[1..] == cs;
  }

  lemma FaithfulEnd(profile: Profile, t: Bytes, ascii: bool)
    ensures PrefixFrom(t, |t|) == |t| && Faithful(profile, t, |t|, ascii, CharsFrom(t, |t|, ascii))
  {
  }

  lemma {:induction false} CharsFaithful(profile: Profile, t: Bytes, i: nat, ascii: bool)
    requires i <= |t| && PrefixFrom(t, i) == |t| && Printable(profile, t)
    ensures Faithful(profile, t, i, ascii, CharsFrom(t, i, ascii))
    decreases |t| - i
  {
    hide EscapeFrom, CanonChar, PointAt, StepAt, Encode, Spell, SpellAll, CharOk, CharsOk, Point, Points, Printable,
      PrefixFrom, ScalarsFrom, CharsFrom;
    if i == |t| {
      FaithfulEnd(profile, t, ascii);
    } else {
      CharsUnfold(t, i, ascii);
      PrintablePoint(profile, t, i, ascii);
      EscapeStep(t, i, ascii);
      CharsFaithful(profile, t, i + StepAt(t, i), ascii);
      SpellCons(profile, CanonChar(PointAt(t, i), ascii), CharsFrom(t, i + StepAt(t, i), ascii));
    }
  }

  lemma {:induction false} AsciiIsValid(t: Bytes, i: nat)
    requires i <= |t| && forall k :: 0 <= k < |t| ==> t[k] <= 0x7F
    ensures PrefixFrom(t, i) == |t|
    decreases |t| - i
  {
    if i < |t| {
      AsciiIsValid(t, i + 1);
    }
  }

  /** The characters the writer prints for `t`. */
  function LiteralOf(t: Bytes, ascii: bool): seq<Char> {
    if Valid(t) then CharsFrom(t, 0, ascii) else []
  }

  /** Decoding the printed form of any acceptable text, raw or ASCII-escaped, gives the text back. */
  lemma PrintedTextReadsBack(profile: Profile, t: Bytes, ascii: bool)
    requires Printable(profile, t)
    ensures Valid(t)
    ensures CharsOk(profile, LiteralOf(t, ascii))
    ensures Quoted(t, ascii) == [QUOTE] + SpellAll(LiteralOf(t, ascii)) + [QUOTE]
    ensures Meaning(LiteralOf(t, ascii)) == t
  {
    if profile.ContractAscii? {
      AsciiIsValid(t, 0);
    }
    hide PrefixFrom, EscapeFrom, SpellAll;
    CharsFaithful(profile, t, 0, ascii);
    ValidIsWellFormed(t);
  }
}
