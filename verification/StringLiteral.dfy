/** The content of a string literal: its grammar (section 7 of RFC 8259), scanning and decoding. */
module StringLiteral {
  import opened Basics
  import opened Utf8

  /** One `char` of the grammar, as spelled in the source. */
  datatype Char =
    | Raw(p: Scalar)
    | Short(letter: Byte)
    | Hex(digits: Bytes)
    | Surrogates(high: Bytes, low: Bytes)

  /** The value of a hexadecimal digit, or -1. */
  function HexValue(b: Byte): (v: int)
    ensures -1 <= v < 16
  {
    if 0x30 <= b <= 0x39 then b - 0x30
    else if 0x61 <= b <= 0x66 then b - 0x61 + 10
    else if 0x41 <= b <= 0x46 then b - 0x41 + 10
    else -1
  }

  predicate IsHex4(d: Bytes) {
    |d| == 4 && HexValue(d[0]) >= 0 && HexValue(d[1]) >= 0 && HexValue(d[2]) >= 0 && HexValue(d[3]) >= 0
  }

  function Hex4(d: Bytes): (v: int)
    requires IsHex4(d)
    ensures 0 <= v < 0x10000
  {
    ((HexValue(d[0]) * 16 + HexValue(d[1])) * 16 + HexValue(d[2])) * 16 + HexValue(d[3])
  }

  function Joined(high: int, low: int): int {
    0x10000 + (high - 0xD800) * 1024 + (low - 0xDC00)
  }

  /** What a two-byte escape denotes, or 0 when the letter names none. */
  function ShortMeaning(letter: Byte): (m: Byte)
    ensures m <= 0x7F
  {
    match letter
    case 0x22 => 0x22
    case 0x5C => 0x5C
    case 0x2F => 0x2F
    case 0x62 => 0x08
    case 0x66 => 0x0C
    case 0x6E => 0x0A
    case 0x72 => 0x0D
    case 0x74 => 0x09
    case _ => 0
  }

  /** The grammar, minus U+0000 and lone surrogates; CONTRACT_ASCII keeps printable raw bytes only. */
  predicate CharOk(profile: Profile, c: Char) {
    match c
    case Raw(p) => p >= 0x20 && p != QUOTE && p != BACKSLASH && (profile.ContractAscii? ==> p <= 0x7E)
    case Short(letter) => !profile.ContractAscii? && ShortMeaning(letter) != 0
    case Hex(d) => !profile.ContractAscii? && IsHex4(d) && Hex4(d) != 0 && IsScalar(Hex4(d))
    case Surrogates(h, l) =>
      !profile.ContractAscii? && IsHex4(h) && IsHex4(l) && 0xD800 <= Hex4(h) <= 0xDBFF && 0xDC00 <= Hex4(l) <= 0xDFFF
  }

  predicate CharsOk(profile: Profile, cs: seq<Char>) {
    forall k :: 0 <= k < |cs| ==> CharOk(profile, cs[k])
  }

  function Spell(c: Char): (s: Bytes) {
    match c
    case Raw(p) => Encode(p)
    case Short(letter) => [BACKSLASH, letter]
    case Hex(d) => [BACKSLASH, LETTER_U] + d
    case Surrogates(h, l) => [BACKSLASH, LETTER_U] + h + [BACKSLASH, LETTER_U] + l
  }

  function SpellAll(cs: seq<Char>): Bytes {
    if cs == [] then [] else Spell(cs[0]) + SpellAll(cs[1..])
  }

  /** The scalar value a `char` denotes; 0 when it is no `char` of the grammar. */
  function Point(c: Char): (p: Scalar)
    ensures forall profile :: CharOk(profile, c) ==> p != 0
  {
    match c
    case Raw(p) => p
    case Short(letter) => ShortMeaning(letter)
    case Hex(d) => if IsHex4(d) && IsScalar(Hex4(d)) then Hex4(d) else 0
    case Surrogates(h, l) =>
      if IsHex4(h) && IsHex4(l) && 0xD800 <= Hex4(h) <= 0xDBFF && 0xDC00 <= Hex4(l) <= 0xDFFF
      then Joined(Hex4(h), Hex4(l)) else 0
  }

  function Points(cs: seq<Char>): (ps: seq<Scalar>)
    ensures |ps| == |cs| && forall k :: 0 <= k < |ps| ==> ps[k] == Point(cs[k])
  {
    if cs == [] then [] else [Point(cs[0])] + Points(cs[1..])
  }

  /** The text a literal denotes. */
  function Meaning(cs: seq<Char>): Bytes {
    EncodeAll(Points(cs))
  }

  // ----- scanning for the closing quotation mark

  datatype Scan = Closed(end: nat) | BadByte(at: nat) | Unterminated

  predicate PlainByte(profile: Profile, b: Byte) {
    b != QUOTE && b >= 0x20 && b != BACKSLASH && (profile.ContractAscii? ==> b <= 0x7E)
  }

  /** The scan of a literal from `pos`: a backslash hides the byte after it. */
  function ScanBody(profile: Profile, b: Bytes, pos: nat): (r: Scan)
    ensures r.Closed? ==> pos <= r.end < |b| && b[r.end] == QUOTE
    ensures r.BadByte? ==> pos <= r.at < |b|
    decreases |b| - pos
  {
    if pos >= |b| then Unterminated
    else if b[pos] == QUOTE then Closed(pos)
    else if b[pos] < 0x20 || (profile.ContractAscii? && (b[pos] == BACKSLASH || b[pos] > 0x7E)) then BadByte(pos)
    else if b[pos] == BACKSLASH then ScanBody(profile, b, pos + 2)
    else ScanBody(profile, b, pos + 1)
  }

  lemma {:induction false} ScanPlain(profile: Profile, b: Bytes, pos: nat, n: nat)
    requires pos + n <= |b|
    requires forall k :: pos <= k < pos + n ==> PlainByte(profile, b[k])
    ensures ScanBody(profile, b, pos) == ScanBody(profile, b, pos + n)
    decreases n
  {
    if n > 0 {
      ScanPlain(profile, b, pos + 1, n - 1);
    }
  }

  lemma RawIsPlain(profile: Profile, p: Scalar)
    requires CharOk(profile, Raw(p))
    ensures forall k :: 0 <= k < |Encode(p)| ==> PlainByte(profile, Encode(p)[k])
  {
  }

  lemma HexIsPlain(profile: Profile, d: Bytes)
    requires IsHex4(d)
    ensures forall k :: 0 <= k < |d| ==> PlainByte(profile, d[k])
  {
  }

  lemma ScanPart(profile: Profile, b: Bytes, pos: nat, part: Bytes)
    requires Occurs(b, pos, part)
    requires forall k :: 0 <= k < |part| ==> PlainByte(profile, part[k])
    ensures ScanBody(profile, b, pos) == ScanBody(profile, b, pos + |part|)
  {
    forall k | pos <= k < pos + |part| ensures PlainByte(profile, b[k]) {
      OccursAt(b, pos, part, k - pos);
    }
    ScanPlain(profile, b, pos, |part|);
  }

  lemma ScanEscape(profile: Profile, b: Bytes, pos: nat, letter: Byte)
    requires !profile.ContractAscii? && Occurs(b, pos, [BACKSLASH, letter])
    ensures ScanBody(profile, b, pos) == ScanBody(profile, b, pos + 2)
  {
    OccursAt(b, pos, [BACKSLASH, letter], 0);
  }

  lemma ScanChar(profile: Profile, b: Bytes, pos: nat, c: Char)
    requires CharOk(profile, c) && Occurs(b, pos, Spell(c))
    ensures ScanBody(profile, b, pos) == ScanBody(profile, b, pos + |Spell(c)|)
  {
    hide ScanBody, Encode, Hex4, Occurs;
    match c {
      case Raw(p) =>
        RawIsPlain(profile, p);
        ScanPart(profile, b, pos, Encode(p));
      case Short(letter) =>
        ScanEscape(profile, b, pos, letter);
      case Hex(d) =>
        OccursSplit(b, pos, [BACKSLASH, LETTER_U], d);
        ScanEscape(profile, b, pos, LETTER_U);
        HexIsPlain(profile, d);
        ScanPart(profile, b, pos + 2, d);
      case Surrogates(h, l) =>
        OccursSplit(b, pos, Spell(Hex(h)), [BACKSLASH, LETTER_U] + l);
        assert Spell(c) == Spell(Hex(h)) + ([BACKSLASH, LETTER_U] + l);
        OccursSplit(b, pos, [BACKSLASH, LETTER_U], h);
        OccursSplit(b, pos + 6, [BACKSLASH, LETTER_U], l);
        ScanEscape(profile, b, pos, LETTER_U);
        HexIsPlain(profile, h);
        ScanPart(profile, b, pos + 2, h);
        ScanEscape(profile, b, pos + 6, LETTER_U);
        HexIsPlain(profile, l);
        ScanPart(profile, b, pos + 8, l);
    }
  }

  /** The scan of a literal spelled by the grammar stops exactly at its closing quotation mark. */
  lemma {:induction false} ScanFindsEnd(profile: Profile, b: Bytes, pos: nat, cs: seq<Char>)
    requires CharsOk(profile, cs) && Occurs(b, pos, SpellAll(cs) + [QUOTE])
    ensures ScanBody(profile, b, pos) == Closed(pos + |SpellAll(cs)|)
    decreases |cs|
  {
    hide CharOk, Spell, Occurs;
    if cs == [] {
      assert SpellAll(cs) + [QUOTE] == [QUOTE];
      OccursAt(b, pos, [QUOTE], 0);
      OccursFits(b, pos, [QUOTE]);
    } else {
      assert SpellAll(cs) + [QUOTE] == Spell(cs[0]) + (SpellAll(cs[1..]) + [QUOTE]);
      OccursSplit(b, pos, Spell(cs[0]), SpellAll(cs[1..]) + [QUOTE]);
      ScanChar(profile, b, pos, cs[0]);
      ScanFindsEnd(profile, b, pos + |Spell(cs[0])|, cs[1..]);
    }
  }

  // ----- decoding the body

  datatype Decoded = Good(text: Bytes) | Bad(code: Code, at: nat)

  function Prepend(head: Bytes, d: Decoded): Decoded {
    match d
    case Good(text) => Good(head + text)
    case Bad(_, _) => d
  }

  predicate IsHexAt(s: Bytes, i: nat) {
    i + 4 <= |s| && IsHex4(s[i..i + 4])
  }

  /** The value of a \uXXXX escape, or of a surrogate pair, whose digits start at `i`; 0 when there is none. */
  function EscapePoint(s: Bytes, i: nat): (p: int)
    ensures p == 0 || IsScalar(p)
  {
    if !IsHexAt(s, i) then 0
    else
      var unit := Hex4(s[i..i + 4]);
      if 0xD800 <= unit <= 0xDBFF then
        if i + 10 > |s| || s[i + 4] != BACKSLASH || s[i + 5] != LETTER_U || !IsHexAt(s, i + 6) then 0
        else
          var low := Hex4(s[i + 6..i + 10]);
          if low < 0xDC00 || low > 0xDFFF then 0 else Joined(unit, low)
      else if 0xDC00 <= unit <= 0xDFFF then 0
      else unit
  }

  /** How many bytes after the letter u the escape spans. */
  function EscapeSize(s: Bytes, i: nat): (n: nat)
    requires EscapePoint(s, i) != 0
    ensures i + n <= |s| && n > 0
  {
    if EscapePoint(s, i) >= 0x10000 then 10 else 4
  }

  /** Decoding of the body `s` from `i`, one character at a time. */
  function DecodeFrom(profile: Profile, s: Bytes, i: nat): (d: Decoded)
    ensures d.Bad? ==> i <= d.at < |s| && (d.code.Syntax? || d.code.Utf8?)
    decreases |s| - i
  {
    if i >= |s| then Good([])
    else if profile.ContractAscii? then
      if s[i] < 0x20 || s[i] > 0x7E || s[i] == BACKSLASH then Bad(Code.Syntax, i)
      else Prepend([s[i]], DecodeFrom(profile, s, i + 1))
    else if s[i] != BACKSLASH then
      if StepAt(s, i) == 0 then Bad(Code.Utf8, i)
      else Prepend(s[i..i + StepAt(s, i)], DecodeFrom(profile, s, i + StepAt(s, i)))
    else if i + 1 >= |s| then Bad(Code.Syntax, i)
    else if s[i + 1] == LETTER_U then
      var p := EscapePoint(s, i + 2);
      if p == 0 then Bad(Code.Syntax, i)
      else Prepend(Encode(p), DecodeFrom(profile, s, i + 2 + EscapeSize(s, i + 2)))
    else if ShortMeaning(s[i + 1]) == 0 then Bad(Code.Syntax, i)
    else Prepend([ShortMeaning(s[i + 1])], DecodeFrom(profile, s, i + 2))
  }

  function Decode(profile: Profile, s: Bytes): Decoded {
    DecodeFrom(profile, s, 0)
  }

  /** Decoding never expands: the text fits in the space the body occupied. */
  lemma {:induction false} DecodeShrinks(profile: Profile, s: Bytes, i: nat)
    requires i <= |s| && DecodeFrom(profile, s, i).Good?
    ensures |DecodeFrom(profile, s, i).text| <= |s| - i
    decreases |s| - i
  {
    hide Encode, EscapePoint, StepAt, ShortMeaning;
    if i < |s| {
      if profile.ContractAscii? {
        DecodeShrinks(profile, s, i + 1);
      } else if s[i] != BACKSLASH {
        DecodeShrinks(profile, s, i + StepAt(s, i));
      } else if s[i + 1] == LETTER_U {
        DecodeShrinks(profile, s, i + 2 + EscapeSize(s, i + 2));
      } else {
        DecodeShrinks(profile, s, i + 2);
      }
    }
  }

  lemma RawBegins(profile: Profile, p: Scalar)
    requires CharOk(profile, Raw(p))
    ensures Encode(p)[0] != BACKSLASH
    ensures profile.ContractAscii? ==> |Encode(p)| == 1 && 0x20 <= Encode(p)[0] <= 0x7E
  {
  }

  lemma DecodeRaw(profile: Profile, s: Bytes, i: nat, p: Scalar)
    requires CharOk(profile, Raw(p)) && Occurs(s, i, Encode(p))
    ensures DecodeFrom(profile, s, i) == Prepend(Encode(p), DecodeFrom(profile, s, i + |Encode(p)|))
  {
    hide StepAt, PointAt, EscapePoint, EscapeSize, ShortMeaning;
    OccursAt(s, i, Encode(p), 0);
    EncodeSteps(p, s, i);
    RawBegins(profile, p);
    hide Encode, CharOk;
    assert s[i..i + |Encode(p)|] == Encode(p);
  }

  lemma DecodeShort(profile: Profile, s: Bytes, i: nat, letter: Byte)
    requires CharOk(profile, Short(letter)) && Occurs(s, i, [BACKSLASH, letter])
    ensures DecodeFrom(profile, s, i) == Prepend([ShortMeaning(letter)], DecodeFrom(profile, s, i + 2))
  {
    hide StepAt;
    OccursAt(s, i, [BACKSLASH, letter], 0);
    OccursAt(s, i, [BACKSLASH, letter], 1);
  }

  lemma DecodeHex(profile: Profile, s: Bytes, i: nat, d: Bytes)
    requires CharOk(profile, Hex(d)) && Occurs(s, i, [BACKSLASH, LETTER_U] + d)
    ensures DecodeFrom(profile, s, i) == Prepend(Encode(Hex4(d)), DecodeFrom(profile, s, i + 6))
  {
    hide StepAt, Hex4, HexValue, Encode;
    OccursSplit(s, i, [BACKSLASH, LETTER_U], d);
    OccursAt(s, i, [BACKSLASH, LETTER_U], 0);
    OccursAt(s, i, [BACKSLASH, LETTER_U], 1);
    assert EscapePoint(s, i + 2) == Hex4(d);
  }

  lemma SurrogatesOccur(s: Bytes, i: nat, h: Bytes, l: Bytes)
    requires |h| == |l| == 4 && Occurs(s, i, Spell(Surrogates(h, l)))
    ensures i + 12 <= |s| && s[i] == s[i + 6] == BACKSLASH && s[i + 1] == s[i + 7] == LETTER_U
    ensures s[i + 2..i + 6] == h && s[i + 8..i + 12] == l
  {
    var c := Spell(Surrogates(h, l));
    assert c == [BACKSLASH, LETTER_U] + (h + ([BACKSLASH, LETTER_U] + l));
    OccursSplit(s, i, [BACKSLASH, LETTER_U], h + ([BACKSLASH, LETTER_U] + l));
    OccursSplit(s, i + 2, h, [BACKSLASH, LETTER_U] + l);
    OccursSplit(s, i + 6, [BACKSLASH, LETTER_U], l);
    OccursAt(s, i, [BACKSLASH, LETTER_U], 0);
    OccursAt(s, i, [BACKSLASH, LETTER_U], 1);
    OccursAt(s, i + 6, [BACKSLASH, LETTER_U], 0);
    OccursAt(s, i + 6, [BACKSLASH, LETTER_U], 1);
  }

  lemma DecodeSurrogates(profile: Profile, s: Bytes, i: nat, h: Bytes, l: Bytes)
    requires CharOk(profile, Surrogates(h, l)) && Occurs(s, i, Spell(Surrogates(h, l)))
    ensures DecodeFrom(profile, s, i) == Prepend(Encode(Joined(Hex4(h), Hex4(l))), DecodeFrom(profile, s, i + 12))
  {
    hide StepAt, Hex4, HexValue, Encode;
    SurrogatesOccur(s, i, h, l);
    assert EscapePoint(s, i + 2) == Joined(Hex4(h), Hex4(l));
  }

  lemma ShortEncodes(letter: Byte)
    requires ShortMeaning(letter) != 0
    ensures Encode(ShortMeaning(letter)) == [ShortMeaning(letter)]
  {
  }

  lemma DecodeChar(profile: Profile, s: Bytes, i: nat, c: Char)
    requires CharOk(profile, c) && Occurs(s, i, Spell(c))
    ensures DecodeFrom(profile, s, i) == Prepend(Encode(Point(c)), DecodeFrom(profile, s, i + |Spell(c)|))
  {
    hide DecodeFrom, Encode, Hex4, Occurs, Joined, ShortMeaning;
    match c {
      case Raw(p) => DecodeRaw(profile, s, i, p);
      case Short(letter) =>
        DecodeShort(profile, s, i, letter);
        ShortEncodes(letter);
      case Hex(d) => DecodeHex(profile, s, i, d);
      case Surrogates(h, l) => DecodeSurrogates(profile, s, i, h, l);
    }
  }

  lemma PrependTwice(a: Bytes, b: Bytes, d: Decoded)
    ensures Prepend(a, Prepend(b, d)) == Prepend(a + b, d)
    ensures Prepend([], d) == d
  {
    if d.Good? {
      assert a + (b + d.text) == (a + b) + d.text;
      assert [] + d.text == d.text;
    }
  }

  /** Every spelling the grammar allows decodes to its meaning. */
  lemma {:induction false} DecodeComplete(profile: Profile, s: Bytes, i: nat, cs: seq<Char>)
    requires CharsOk(profile, cs) && Occurs(s, i, SpellAll(cs))
    ensures DecodeFrom(profile, s, i) == Prepend(Meaning(cs), DecodeFrom(profile, s, i + |SpellAll(cs)|))
    decreases |cs|
  {
    hide CharOk, Spell, Occurs, Point, DecodeFrom, Encode;
    var rest := DecodeFrom(profile, s, i + |SpellAll(cs)|);
    if cs == [] {
      PrependTwice([], [], rest);
    } else {
      OccursSplit(s, i, Spell(cs[0]), SpellAll(cs[1..]));
      DecodeChar(profile, s, i, cs[0]);
      DecodeComplete(profile, s, i + |Spell(cs[0])|, cs[1..]);
      PrependTwice(Encode(Point(cs[0])), Meaning(cs[1..]), rest);
      assert Points(cs)[1..] == Points(cs[1..]);
    }
  }

  // ----- soundness: whatever decodes was spelled by the grammar

  /** The bytes a scan has accepted from `i` to the end of the body. */
  predicate Clean(profile: Profile, s: Bytes, i: nat)
    decreases |s| - i
  {
    if i >= |s| then i == |s|
    else if s[i] == BACKSLASH && !profile.ContractAscii? then i + 1 < |s| && Clean(profile, s, i + 2)
    else PlainByte(profile, s[i]) && Clean(profile, s, i + 1)
  }

  lemma {:induction false} ScanGivesClean(profile: Profile, b: Bytes, start: nat, pos: nat, end: nat)
    requires start <= pos <= end && ScanBody(profile, b, pos) == Closed(end)
    ensures Clean(profile, b[start..end], pos - start)
    decreases end - pos
  {
    if pos < end {
      var next := if b[pos] == BACKSLASH then pos + 2 else pos + 1;
      assert ScanBody(profile, b, next) == Closed(end);
      ScanGivesClean(profile, b, start, next, end);
    }
  }

  lemma {:induction false} CleanSkips(profile: Profile, s: Bytes, i: nat, n: nat)
    requires i + n <= |s| && Clean(profile, s, i)
    requires forall k :: i <= k < i + n ==> PlainByte(profile, s[k])
    ensures Clean(profile, s, i + n)
    decreases n
  {
    if n > 0 {
      CleanSkips(profile, s, i + 1, n - 1);
    }
  }

  /** One decoding step reads one `char` of the grammar. */
  ghost predicate Reads(profile: Profile, s: Bytes, i: nat, c: Char) {
    && CharOk(profile, c)
    && Occurs(s, i, Spell(c))
    && Spell(c) != []
    && Clean(profile, s, i + |Spell(c)|)
    && DecodeFrom(profile, s, i) == Prepend(Encode(Point(c)), DecodeFrom(profile, s, i + |Spell(c)|))
  }

  lemma ReadRaw(profile: Profile, s: Bytes, i: nat)
    requires i < |s| && Clean(profile, s, i) && !profile.ContractAscii? && s[i] != BACKSLASH && StepAt(s, i) > 0
    ensures IsScalar(PointAt(s, i)) && Reads(profile, s, i, Raw(PointAt(s, i)))
  {
    var p, k := PointAt(s, i), StepAt(s, i);
    StepEncodes(s, i);
    RawFromStep(s, i);
    hide PointAt, StepAt, Encode;
    assert Occurs(s, i, Encode(p));
    RawIsPlain(profile, p);
    forall j | i <= j < i + k ensures PlainByte(profile, s[j]) {
      OccursAt(s, i, Encode(p), j - i);
    }
    CleanSkips(profile, s, i, k);
    DecodeRaw(profile, s, i, p);
  }

  lemma RawFromStep(s: Bytes, i: nat)
    requires i < |s| && StepAt(s, i) > 0 && IsScalar(PointAt(s, i)) && s[i] != BACKSLASH
    requires s[i] >= 0x20 && s[i] != QUOTE
    ensures PointAt(s, i) >= 0x20 && PointAt(s, i) != QUOTE && PointAt(s, i) != BACKSLASH
  {
  }

  lemma ReadAscii(profile: Profile, s: Bytes, i: nat)
    requires i < |s| && Clean(profile, s, i) && profile.ContractAscii? && DecodeFrom(profile, s, i).Good?
    ensures Reads(profile, s, i, Raw(s[i]))
  {
    assert Encode(s[i]) == [s[i]] == s[i..i + 1];
  }

  lemma ReadHex(profile: Profile, s: Bytes, i: nat)
    requires i + 1 < |s| && Clean(profile, s, i) && !profile.ContractAscii? && s[i] == BACKSLASH && s[i + 1] == LETTER_U
    requires 0 < EscapePoint(s, i + 2) < 0x10000
    ensures Reads(profile, s, i, Hex(s[i + 2..i + 6]))
  {
    hide Encode, Hex4, HexValue, DecodeFrom, EscapePoint, Clean, PlainByte;
    JoinedRange(s, i + 2);
    var d := s[i + 2..i + 6];
    EscapeSkips(profile, s, i);
    HexSkips(profile, s, i + 2);
    assert s[i..i + 6] == [BACKSLASH, LETTER_U] + d;
    HexIsScalar(s, i + 2);
    DecodeHex(profile, s, i, d);
  }

  lemma HexIsScalar(s: Bytes, i: nat)
    requires 0 < EscapePoint(s, i) < 0x10000
    ensures IsHexAt(s, i) && IsScalar(Hex4(s[i..i + 4])) && Hex4(s[i..i + 4]) != 0
  {
    hide HexValue, Hex4;
  }

  lemma JoinedRange(s: Bytes, i: nat)
    requires EscapePoint(s, i) != 0
    ensures EscapePoint(s, i) < 0x10000 ==> IsHexAt(s, i) && EscapePoint(s, i) == Hex4(s[i..i + 4])
    ensures EscapePoint(s, i) >= 0x10000 ==>
              && i + 10 <= |s| && IsHexAt(s, i) && IsHexAt(s, i + 6)
              && s[i + 4] == BACKSLASH && s[i + 5] == LETTER_U
              && 0xD800 <= Hex4(s[i..i + 4]) <= 0xDBFF && 0xDC00 <= Hex4(s[i + 6..i + 10]) <= 0xDFFF
  {
    hide HexValue, Hex4;
  }

  lemma HexSkips(profile: Profile, s: Bytes, i: nat)
    requires IsHexAt(s, i) && Clean(profile, s, i)
    ensures Clean(profile, s, i + 4)
  {
    hide HexValue;
    HexIsPlain(profile, s[i..i + 4]);
    forall j | i <= j < i + 4 ensures PlainByte(profile, s[j]) {
      assert s[j] == s[i..i + 4][j - i];
    }
    CleanSkips(profile, s, i, 4);
  }

  lemma EscapeSkips(profile: Profile, s: Bytes, i: nat)
    requires i + 1 < |s| && s[i] == BACKSLASH && !profile.ContractAscii? && Clean(profile, s, i)
    ensures Clean(profile, s, i + 2)
  {
  }

  lemma SurrogatesSlice(s: Bytes, i: nat)
    requires i + 12 <= |s| && s[i] == s[i + 6] == BACKSLASH && s[i + 1] == s[i + 7] == LETTER_U
    ensures Spell(Surrogates(s[i + 2..i + 6], s[i + 8..i + 12])) == s[i..i + 12]
  {
  }

  lemma ReadSurrogates(profile: Profile, s: Bytes, i: nat)
    requires i + 1 < |s| && Clean(profile, s, i) && !profile.ContractAscii? && s[i] == BACKSLASH && s[i + 1] == LETTER_U
    requires EscapePoint(s, i + 2) >= 0x10000
    ensures i + 12 <= |s| && Reads(profile, s, i, Surrogates(s[i + 2..i + 6], s[i + 8..i + 12]))
  {
    hide Encode, Hex4, HexValue, Joined, DecodeFrom, EscapePoint, Clean, PlainByte, Spell;
    JoinedRange(s, i + 2);
    EscapeSkips(profile, s, i);
    HexSkips(profile, s, i + 2);
    EscapeSkips(profile, s, i + 6);
    HexSkips(profile, s, i + 8);
    SurrogatesSlice(s, i);
    DecodeSurrogates(profile, s, i, s[i + 2..i + 6], s[i + 8..i + 12]);
  }

  lemma ReadShort(profile: Profile, s: Bytes, i: nat)
    requires i + 1 < |s| && Clean(profile, s, i) && !profile.ContractAscii? && s[i] == BACKSLASH
    requires ShortMeaning(s[i + 1]) != 0
    ensures Reads(profile, s, i, Short(s[i + 1]))
  {
    assert s[i..i + 2] == [BACKSLASH, s[i + 1]];
    hide DecodeFrom, Encode, ShortMeaning;
    DecodeShort(profile, s, i, s[i + 1]);
    ShortEncodes(s[i + 1]);
  }

  lemma ReadChar(profile: Profile, s: Bytes, i: nat) returns (c: Char)
    requires i < |s| && Clean(profile, s, i) && DecodeFrom(profile, s, i).Good?
    ensures Reads(profile, s, i, c)
  {
    hide Reads, Encode, PointAt, EscapePoint, ShortMeaning, Clean;
    if profile.ContractAscii? {
      ReadAscii(profile, s, i);
      c := Raw(s[i]);
    } else if s[i] != BACKSLASH {
      ReadRaw(profile, s, i);
      c := Raw(PointAt(s, i));
    } else if s[i + 1] != LETTER_U {
      ReadShort(profile, s, i);
      c := Short(s[i + 1]);
    } else if EscapePoint(s, i + 2) >= 0x10000 {
      ReadSurrogates(profile, s, i);
      c := Surrogates(s[i + 2..i + 6], s[i + 8..i + 12]);
    } else {
      ReadHex(profile, s, i);
      c := Hex(s[i + 2..i + 6]);
    }
  }

  lemma {:induction false} DecodeSound(profile: Profile, s: Bytes, i: nat) returns (cs: seq<Char>)
    requires i <= |s| && Clean(profile, s, i) && DecodeFrom(profile, s, i).Good?
    ensures CharsOk(profile, cs) && SpellAll(cs) == s[i..]
    ensures Meaning(cs) == DecodeFrom(profile, s, i).text
    decreases |s| - i
  {
    hide CharOk, Spell, DecodeFrom, Encode, Clean, Point;
    if i == |s| {
      EndDecodes(profile, s);
      cs := [];
    } else {
      var c := ReadChar(profile, s, i);
      var rest := DecodeSound(profile, s, i + |Spell(c)|);
      cs := [c] + rest;
      assert s[i..] == s[i..i + |Spell(c)|] + s[i + |Spell(c)|..];
      assert cs[1..] == rest;
      assert Points(cs)[1..] == Points(rest);
    }
  }

  lemma EndDecodes(profile: Profile, s: Bytes)
    ensures DecodeFrom(profile, s, |s|) == Good([])
  {
  }

  /** A literal the scan closes decodes exactly when the grammar spells its body, and to the same text. */
  lemma LiteralSound(profile: Profile, b: Bytes, pos: nat, end: nat) returns (cs: seq<Char>)
    requires ScanBody(profile, b, pos) == Closed(end) && Decode(profile, b[pos..end]).Good?
    ensures CharsOk(profile, cs) && SpellAll(cs) == b[pos..end]
    ensures Meaning(cs) == Decode(profile, b[pos..end]).text
  {
    hide ScanBody, DecodeFrom, Clean, SpellAll, Meaning;
    ScanGivesClean(profile, b, pos, pos, end);
    cs := DecodeSound(profile, b[pos..end], 0);
    assert b[pos..end][0..] == b[pos..end];
  }

  lemma LiteralComplete(profile: Profile, b: Bytes, pos: nat, cs: seq<Char>)
    requires CharsOk(profile, cs) && Occurs(b, pos, SpellAll(cs) + [QUOTE])
    ensures ScanBody(profile, b, pos) == Closed(pos + |SpellAll(cs)|)
    ensures b[pos..pos + |SpellAll(cs)|] == SpellAll(cs)
    ensures Decode(profile, SpellAll(cs)) == Good(Meaning(cs))
  {
    hide ScanBody, DecodeFrom, SpellAll, Meaning;
    ScanFindsEnd(profile, b, pos, cs);
    OccursSplit(b, pos, SpellAll(cs), [QUOTE]);
    var s := SpellAll(cs);
    assert s[0..|s|] == s;
    DecodeComplete(profile, s, 0, cs);
    EndDecodes(profile, s);
    assert Meaning(cs) + [] == Meaning(cs);
  }
}
