/** Number lexemes: the grammar of section 6 of RFC 8259, exact 64-bit reading, decimal rendering. */
module Numeral {
  import opened Basics

  const MINUS: Byte := 0x2D
  const PLUS: Byte := 0x2B
  const POINT: Byte := 0x2E
  const ZERO: Byte := 0x30
  const LOWER_E: Byte := 0x65
  const UPPER_E: Byte := 0x45

  const U64_MAX: nat := 0xFFFF_FFFF_FFFF_FFFF
  const I64_MAX: nat := 0x7FFF_FFFF_FFFF_FFFF
  const I64_MIN_MAGNITUDE: nat := 0x8000_0000_0000_0000

  // ----- grammar

  datatype Exponent = NoExponent | Exponent(mark: Byte, sign: Bytes, digits: Bytes)

  /** A number of the grammar; an absent fraction is an empty one. */
  datatype Parts = Parts(minus: bool, whole: Bytes, fraction: Bytes, exponent: Exponent)

  predicate Digits(d: Bytes) {
    forall k :: 0 <= k < |d| ==> IsDigit(d[k])
  }

  predicate WholeOk(d: Bytes) {
    d != [] && Digits(d) && (d[0] == ZERO ==> |d| == 1)
  }

  predicate PartsOk(n: Parts) {
    && WholeOk(n.whole)
    && Digits(n.fraction)
    && (n.exponent.Exponent? ==>
          && (n.exponent.mark == LOWER_E || n.exponent.mark == UPPER_E)
          && (n.exponent.sign == [] || n.exponent.sign == [PLUS] || n.exponent.sign == [MINUS])
          && n.exponent.digits != [] && Digits(n.exponent.digits))
  }

  function SpellFraction(n: Parts): Bytes {
    if n.fraction == [] then [] else [POINT] + n.fraction
  }

  function SpellExponent(e: Exponent): Bytes {
    if e.NoExponent? then [] else [e.mark] + (e.sign + e.digits)
  }

  function SpellParts(n: Parts): Bytes {
    (if n.minus then [MINUS] else []) + (n.whole + (SpellFraction(n) + SpellExponent(n.exponent)))
  }

  // ----- recognition

  /** End of the digit run starting at `i`. */
  function DigitsEnd(s: Bytes, i: nat): (e: nat)
    ensures i <= e && (i <= |s| ==> e <= |s|)
    ensures forall k :: i <= k < e ==> k < |s| && IsDigit(s[k])
    ensures e < |s| ==> !IsDigit(s[e])
    decreases |s| - i
  {
    if i < |s| && IsDigit(s[i]) then DigitsEnd(s, i + 1) else i
  }

  function SignEnd(s: Bytes): nat {
    if |s| > 0 && s[0] == MINUS then 1 else 0
  }

  function WholeEnd(s: Bytes, i: nat): (e: Option<nat>)
    ensures e.Some? ==> i < e.value <= |s|
  {
    if i >= |s| then None
    else if s[i] == ZERO then Some(i + 1)
    else if !IsDigit(s[i]) then None
    else Some(DigitsEnd(s, i + 1))
  }

  function FractionEnd(s: Bytes, i: nat): (e: Option<nat>)
    requires i <= |s|
    ensures e.Some? ==> i <= e.value <= |s|
  {
    if i < |s| && s[i] == POINT then
      if DigitsEnd(s, i + 1) == i + 1 then None else Some(DigitsEnd(s, i + 1))
    else Some(i)
  }

  function ExponentSignEnd(s: Bytes, i: nat): (e: nat)
    ensures i <= e <= i + 1 && (e == i + 1 ==> i < |s| && (s[i] == PLUS || s[i] == MINUS))
  {
    if i < |s| && (s[i] == PLUS || s[i] == MINUS) then i + 1 else i
  }

  function ExponentEnd(s: Bytes, i: nat): (e: Option<nat>)
    requires i <= |s|
    ensures e.Some? ==> i <= e.value <= |s|
  {
    if i < |s| && (s[i] == LOWER_E || s[i] == UPPER_E) then
      var digits := ExponentSignEnd(s, i + 1);
      if DigitsEnd(s, digits) == digits then None else Some(DigitsEnd(s, digits))
    else Some(i)
  }

  predicate IsNumber(s: Bytes) {
    var whole := WholeEnd(s, SignEnd(s));
    whole.Some? &&
    var fraction := FractionEnd(s, whole.value);
    fraction.Some? && ExponentEnd(s, fraction.value) == Some(|s|)
  }

  /** The recognizer as the source runs it: one offset moving over the lexeme. */
  method NumberSyntax(bytes: Bytes) returns (ok: bool)
    ensures ok == IsNumber(bytes)
  {
    hide DigitsEnd;
    var size := |bytes|;
    var offset := 0;
    if offset < size && bytes[offset] == MINUS {
      offset := offset + 1;
    }
    if offset >= size {
      return false;
    }
    if bytes[offset] == ZERO {
      offset := offset + 1;
    } else {
      if bytes[offset] < 0x31 || bytes[offset] > 0x39 {
        return false;
      }
      offset := SkipDigits(bytes, offset);
    }
    DigitsEndStep(bytes, SignEnd(bytes));
    ok := TailSyntax(bytes, offset);
  }

  lemma DigitsEndStep(s: Bytes, i: nat)
    requires i < |s|
    ensures DigitsEnd(s, i) == if IsDigit(s[i]) then DigitsEnd(s, i + 1) else i
  {
  }

  /** The optional fraction and exponent of the same recognizer. */
  method TailSyntax(bytes: Bytes, start: nat) returns (ok: bool)
    requires start <= |bytes|
    ensures ok == (FractionEnd(bytes, start).Some? &&
                   ExponentEnd(bytes, FractionEnd(bytes, start).value) == Some(|bytes|))
  {
    hide DigitsEnd;
    var size, offset := |bytes|, start;
    if offset < size && bytes[offset] == POINT {
      offset := offset + 1;
      var fraction := offset;
      offset := SkipDigits(bytes, offset);
      if offset == fraction {
        return false;
      }
    }
    if offset < size && (bytes[offset] == LOWER_E || bytes[offset] == UPPER_E) {
      offset := offset + 1;
      if offset < size && (bytes[offset] == PLUS || bytes[offset] == MINUS) {
        offset := offset + 1;
      }
      var exponent := offset;
      offset := SkipDigits(bytes, offset);
      if offset == exponent {
        return false;
      }
    }
    return offset == size;
  }

  method SkipDigits(bytes: Bytes, start: nat) returns (offset: nat)
    requires start <= |bytes|
    ensures offset == DigitsEnd(bytes, start)
  {
    offset := start;
    while offset < |bytes| && IsDigit(bytes[offset])
      invariant offset <= |bytes|
      invariant DigitsEnd(bytes, start) == DigitsEnd(bytes, offset)
    {
      offset := offset + 1;
    }
  }

  lemma {:induction false} RunEnds(s: Bytes, i: nat, d: Bytes)
    requires Digits(d) && Occurs(s, i, d) && (i + |d| < |s| ==> !IsDigit(s[i + |d|]))
    ensures DigitsEnd(s, i) == i + |d|
  {
    var e := DigitsEnd(s, i);
    if e < i + |d| {
      OccursAt(s, i, d, e - i);
    }
  }

  lemma FractionCompletes(s: Bytes, i: nat, n: Parts)
    requires PartsOk(n) && i <= |s| && s[i..] == SpellFraction(n) + SpellExponent(n.exponent)
    ensures FractionEnd(s, i) == Some(i + |SpellFraction(n)|)
    ensures s[i + |SpellFraction(n)|..] == SpellExponent(n.exponent)
  {
    var tail := SpellExponent(n.exponent);
    var j := i + |SpellFraction(n)|;
    assert s[j..] == s[i..][|SpellFraction(n)|..];
    if tail != [] {
      assert s[j] == s[j..][0] == n.exponent.mark;
    }
    if n.fraction == [] {
      assert s[i..] == tail;
    } else {
      assert s[i] == s[i..][0] == POINT;
      assert s[i + 1..j] == s[i..][1..|SpellFraction(n)|] == n.fraction;
      RunEnds(s, i + 1, n.fraction);
    }
  }

  lemma ExponentCompletes(s: Bytes, i: nat, n: Parts)
    requires PartsOk(n) && i <= |s| && s[i..] == SpellExponent(n.exponent)
    ensures ExponentEnd(s, i) == Some(|s|)
  {
    if n.exponent.Exponent? {
      var e := n.exponent;
      assert s[i] == s[i..][0] == e.mark;
      assert s[i + 1..] == s[i..][1..] == e.sign + e.digits;
      if e.sign == [] {
        assert s[i + 1] == s[i + 1..][0] == e.digits[0];
      } else {
        assert s[i + 1] == s[i + 1..][0] == e.sign[0];
      }
      var digits := ExponentSignEnd(s, i + 1);
      assert digits == i + 1 + |e.sign|;
      assert s[digits..|s|] == s[i + 1..][|e.sign|..] == e.digits;
      RunEnds(s, digits, e.digits);
    }
  }

  lemma WholeCompletes(s: Bytes, i: nat, n: Parts)
    requires PartsOk(n) && i <= |s| && s[i..] == n.whole + (SpellFraction(n) + SpellExponent(n.exponent))
    ensures WholeEnd(s, i) == Some(i + |n.whole|)
    ensures s[i + |n.whole|..] == SpellFraction(n) + SpellExponent(n.exponent)
  {
    var tail := SpellFraction(n) + SpellExponent(n.exponent);
    var j := i + |n.whole|;
    assert s[j..] == s[i..][|n.whole|..] == tail;
    assert s[i] == s[i..][0] == n.whole[0];
    if tail != [] {
      assert s[j] == tail[0];
    }
    assert s[i..j] == s[i..][..|n.whole|] == n.whole;
    RunEnds(s, i, n.whole);
  }

  /** The recognizer accepts exactly the spellings of the grammar. */
  lemma NumberIsGrammar(s: Bytes)
    ensures IsNumber(s) <==> exists n :: PartsOk(n) && SpellParts(n) == s
  {
    if IsNumber(s) {
      var n := PartsOf(s);
    }
    if n: Parts :| PartsOk(n) && SpellParts(n) == s {
      SpellingIsNumber(n);
    }
  }

  lemma SpellingIsNumber(n: Parts)
    requires PartsOk(n)
    ensures IsNumber(SpellParts(n))
  {
    hide SpellFraction, SpellExponent, FractionEnd, ExponentEnd, WholeEnd;
    var s := SpellParts(n);
    var body := n.whole + (SpellFraction(n) + SpellExponent(n.exponent));
    assert n.minus ==> s[0] == MINUS;
    assert !n.minus ==> s == body && s[0] == n.whole[0];
    var i := SignEnd(s);
    assert s[i..] == body;
    WholeCompletes(s, i, n);
    FractionCompletes(s, i + |n.whole|, n);
    ExponentCompletes(s, i + |n.whole| + |SpellFraction(n)|, n);
  }

  lemma PartsOf(s: Bytes) returns (n: Parts)
    requires IsNumber(s)
    ensures PartsOk(n) && SpellParts(n) == s
  {
    hide FractionEnd, ExponentEnd, WholeEnd, WholeOk, SpellExponent, SpellFraction;
    var i := SignEnd(s);
    var j := WholeEnd(s, i).value;
    var k := FractionEnd(s, j).value;
    WholeOf(s, i);
    var fraction := FractionOf(s, j);
    var exponent := ExponentOf(s, k);
    n := Parts(i == 1, s[i..j], fraction, exponent);
    Resplit(s, i, j, k);
  }

  lemma WholeOf(s: Bytes, i: nat)
    requires WholeEnd(s, i).Some?
    ensures WholeOk(s[i..WholeEnd(s, i).value])
  {
  }

  lemma Resplit(s: Bytes, i: nat, j: nat, k: nat)
    requires i <= j <= k <= |s|
    ensures s == s[..i] + (s[i..j] + (s[j..k] + s[k..]))
    ensures i == 1 ==> s[..i] == [s[0]]
  {
  }

  lemma FractionOf(s: Bytes, j: nat) returns (fraction: Bytes)
    requires j <= |s| && FractionEnd(s, j).Some?
    ensures Digits(fraction)
    ensures forall n: Parts :: n.fraction == fraction ==> SpellFraction(n) == s[j..FractionEnd(s, j).value]
  {
    var k := FractionEnd(s, j).value;
    if k == j {
      fraction := [];
    } else {
      fraction := s[j + 1..k];
      assert s[j..k] == [POINT] + fraction;
    }
  }

  lemma ExponentOf(s: Bytes, k: nat) returns (e: Exponent)
    requires k <= |s| && ExponentEnd(s, k) == Some(|s|)
    ensures forall n: Parts :: n.exponent == e && WholeOk(n.whole) && Digits(n.fraction) ==> PartsOk(n)
    ensures SpellExponent(e) == s[k..]
  {
    if k == |s| {
      e := NoExponent;
    } else {
      var digits := ExponentSignEnd(s, k + 1);
      e := Exponent(s[k], s[k + 1..digits], s[digits..]);
      assert s[k..] == [s[k]] + (s[k + 1..digits] + s[digits..]);
      assert digits == k + 2 ==> s[k + 1..digits] == [s[k + 1]];
    }
  }

  // ----- values

  /** The decimal value of a digit string. */
  function DecimalValue(d: Bytes): (v: nat)
    requires Digits(d)
  {
    if d == [] then 0 else DecimalValue(d[..|d| - 1]) * 10 + (d[|d| - 1] - ZERO)
  }

  datatype Magnitude = Exact(value: nat) | TooBig | Fractional

  function LeadingDigits(s: Bytes): (d: Bytes)
    ensures Digits(d)
  {
    if SignEnd(s) <= |s| then s[SignEnd(s)..DigitsEnd(s, SignEnd(s))] else []
  }

  /** Only the leading digit run decides RANGE; what follows it is looked at afterwards. */
  function MagnitudeOf(s: Bytes, maximum: nat): Magnitude {
    if DecimalValue(LeadingDigits(s)) > maximum then TooBig
    else if DigitsEnd(s, SignEnd(s)) < |s| then Fractional
    else Exact(DecimalValue(LeadingDigits(s)))
  }

  lemma {:induction false} PrefixValueSmaller(d: Bytes, n: nat)
    requires Digits(d) && n <= |d|
    ensures DecimalValue(d[..n]) <= DecimalValue(d)
    decreases |d|
  {
    if n < |d| {
      PrefixValueSmaller(d[..|d| - 1], n);
      assert d[..|d| - 1][..n] == d[..n];
    } else {
      assert d[..n] == d;
    }
  }

  /** The digit loop: `magnitude` never exceeds `maximum`, so it never wraps around. */
  method ReadMagnitude(bytes: Bytes, maximum: nat) returns (code: Code, magnitude: nat, negative: bool)
    requires 9 <= maximum <= U64_MAX
    ensures negative == (|bytes| > 0 && bytes[0] == MINUS)
    ensures magnitude <= maximum
    ensures MagnitudeOf(bytes, maximum) ==
            if code.Ok? then Exact(magnitude) else if code.Range? then TooBig else Fractional
    ensures code.Ok? || code.Range? || code.NotInteger?
  {
    var offset := 0;
    negative := |bytes| > 0 && bytes[0] == MINUS;
    if negative {
      offset := offset + 1;
    }
    ghost var start := offset;
    ghost var end := DigitsEnd(bytes, start);
    ghost var run := LeadingDigits(bytes);
    magnitude := 0;
    while offset < |bytes|
      invariant start <= offset <= end
      invariant magnitude == DecimalValue(run[..offset - start]) <= maximum
    {
      if bytes[offset] < 0x30 || bytes[offset] > 0x39 {
        assert run[..offset - start] == run;
        return Code.NotInteger, magnitude, negative;
      }
      var digit := bytes[offset] - ZERO;
      assert run[..offset + 1 - start][..offset - start] == run[..offset - start];
      if magnitude > (maximum - digit) / 10 {
        PrefixValueSmaller(run, offset + 1 - start);
        return Code.Range, magnitude, negative;
      }
      magnitude := magnitude * 10 + digit;
      offset := offset + 1;
    }
    assert run[..offset - start] == run;
    code := Ok;
  }

  datatype Reading = Value(n: int) | Failed(code: Code)

  function AsU64(s: Bytes): Reading {
    match MagnitudeOf(s, U64_MAX)
    case TooBig => Failed(Code.Range)
    case Fractional => Failed(Code.NotInteger)
    case Exact(v) => if SignEnd(s) == 1 && v != 0 then Failed(Code.Range) else Value(v)
  }

  function AsI64(s: Bytes): Reading {
    match MagnitudeOf(s, I64_MIN_MAGNITUDE)
    case TooBig => Failed(Code.Range)
    case Fractional => Failed(Code.NotInteger)
    case Exact(v) =>
      if SignEnd(s) == 0 && v > I64_MAX then Failed(Code.Range)
      else Value(if SignEnd(s) == 1 then -(v as int) else v as int)
  }

  // ----- rendering

  function Render(n: nat): (d: Bytes)
    ensures Digits(d) && d != []
  {
    if n < 10 then [ZERO + n] else Render(n / 10) + [ZERO + n % 10]
  }

  function RenderInt(z: int): Bytes {
    if z < 0 then [MINUS] + Render(-z) else Render(z)
  }

  lemma {:induction false} RenderInverts(n: nat)
    ensures DecimalValue(Render(n)) == n
    ensures WholeOk(Render(n))
    ensures n == 0 <==> Render(n)[0] == ZERO
  {
    if n < 10 {
      assert Render(n)[..0] == [];
    } else {
      RenderInverts(n / 10);
      var d := Render(n);
      assert d[..|d| - 1] == Render(n / 10);
      assert d[0] == Render(n / 10)[0];
    }
  }

  lemma {:induction false} RenderReproduces(d: Bytes)
    requires WholeOk(d)
    ensures Render(DecimalValue(d)) == d
    ensures d[0] != ZERO ==> DecimalValue(d) > 0
  {
    if |d| == 1 {
      assert DecimalValue(d[..0]) == 0;
    } else {
      var init := d[..|d| - 1];
      assert init[0] == d[0];
      RenderReproduces(init);
      assert d == init + [d[|d| - 1]];
      LastDigit(DecimalValue(init), d[|d| - 1] - ZERO);
    }
  }

  lemma LastDigit(v: int, digit: int)
    requires 0 <= digit < 10
    ensures (v * 10 + digit) / 10 == v && (v * 10 + digit) % 10 == digit
  {
  }

  // ----- copying and canonical spelling

  /** The reading the writer and the canonical check ask for: signed exactly when a minus is present. */
  function AsInteger(s: Bytes): (r: Reading)
    ensures r.Failed? ==> r.code.Range? || r.code.NotInteger?
  {
    if SignEnd(s) == 1 then AsI64(s) else AsU64(s)
  }

  function LargestMagnitude(s: Bytes): nat {
    if SignEnd(s) == 1 then I64_MIN_MAGNITUDE else U64_MAX
  }

  /** The lexeme a copy of a document number prints, or None when copying it is a RANGE error. */
  function CopiedLexeme(s: Bytes): Option<Bytes> {
    match AsInteger(s)
    case Value(n) => Some(RenderInt(n))
    case Failed(code) => if code.NotInteger? then Some(s) else None
  }

  /** "-0" is spelled "0"; every other lexeme keeps its spelling. */
  function Normal(s: Bytes): Bytes {
    if s == [MINUS, ZERO] then [ZERO] else s
  }

  /** No fraction and no exponent, as the canonical check looks for them. */
  predicate Integral(s: Bytes) {
    forall k :: 0 <= k < |s| ==> s[k] != POINT && s[k] != LOWER_E && s[k] != UPPER_E
  }

  lemma WholeIsLeading(s: Bytes)
    requires IsNumber(s)
    ensures WholeOk(LeadingDigits(s))
    ensures DigitsEnd(s, SignEnd(s)) == |s| <==> Integral(s)
    ensures SignEnd(s) == 0 && Integral(s) ==> s == LeadingDigits(s)
    ensures SignEnd(s) == 1 && Integral(s) ==> s == [MINUS] + LeadingDigits(s)
  {
    hide ExponentEnd, FractionEnd, WholeEnd, WholeOk, DigitsEnd;
    var i := SignEnd(s);
    var j := WholeEnd(s, i).value;
    WholeOf(s, i);
    if j < |s| {
      TailStart(s, j);
    }
    WholeDigits(s, i, j);
    RunEnds(s, i, s[i..j]);
    if j == |s| {
      IntegralDigits(s, i);
    }
  }

  lemma WholeDigits(s: Bytes, i: nat, j: nat)
    requires i <= j <= |s| && WholeOk(s[i..j])
    ensures Digits(s[i..j]) && i < j
  {
  }

  lemma IntegralDigits(s: Bytes, i: nat)
    requires i <= |s| && i == SignEnd(s) && Digits(s[i..])
    ensures Integral(s) && s == (if i == 1 then [MINUS] else []) + s[i..]
  {
    forall k | 0 <= k < |s| ensures s[k] == MINUS || IsDigit(s[k]) {
      if k >= i {
        assert s[k] == s[i..][k - i];
      }
    }
  }

  lemma TailStart(s: Bytes, j: nat)
    requires j < |s| && FractionEnd(s, j).Some? && ExponentEnd(s, FractionEnd(s, j).value) == Some(|s|)
    ensures s[j] == POINT || s[j] == LOWER_E || s[j] == UPPER_E
  {
  }

  /** Reading a number of the grammar: which of value, NOT_INTEGER and RANGE, and why. */
  lemma IntegerReading(s: Bytes)
    requires IsNumber(s)
    ensures AsInteger(s) == Failed(Code.Range) <==> DecimalValue(LeadingDigits(s)) > LargestMagnitude(s)
    ensures AsInteger(s) == Failed(Code.NotInteger) <==>
            !Integral(s) && DecimalValue(LeadingDigits(s)) <= LargestMagnitude(s)
    ensures AsInteger(s).Value? ==>
              && AsInteger(s).n == (if SignEnd(s) == 1 then -(DecimalValue(LeadingDigits(s)) as int)
                                    else DecimalValue(LeadingDigits(s)))
              && -(I64_MIN_MAGNITUDE as int) <= AsInteger(s).n <= U64_MAX
  {
    hide IsNumber, LeadingDigits, DecimalValue, Integral;
    WholeIsLeading(s);
  }

  /** The integer a lexeme's sign and leading digits spell. */
  function IntegerOf(s: Bytes): int {
    if s != [] && s[0] == 0x2D then -(DecimalValue(LeadingDigits(s)) as int) else DecimalValue(LeadingDigits(s))
  }

  /**
    value_i64 on every number of the grammar: the integer itself exactly from -2^63 to 2^63 - 1; RANGE when the
    leading digits exceed 2^63 or the number is 2^63 itself; otherwise NOT_INTEGER for a fraction or exponent.
   */
  lemma SignedReading(s: Bytes)
    requires IsNumber(s)
    ensures AsI64(s).Value? <==> Integral(s) && -0x8000_0000_0000_0000 <= IntegerOf(s) <= 0x7FFF_FFFF_FFFF_FFFF
    ensures AsI64(s).Value? ==> AsI64(s).n == IntegerOf(s)
    ensures AsI64(s) == Failed(Code.Range) <==>
              DecimalValue(LeadingDigits(s)) > 0x8000_0000_0000_0000
              || (Integral(s) && IntegerOf(s) == 0x8000_0000_0000_0000)
    ensures AsI64(s) == Failed(Code.NotInteger) <==>
              !Integral(s) && DecimalValue(LeadingDigits(s)) <= 0x8000_0000_0000_0000
  {
    hide IsNumber, LeadingDigits, DecimalValue, Integral;
    WholeIsLeading(s);
    NumberIsSomething(s);
  }

  /**
    value_u64 likewise: the integer itself exactly from 0 to 2^64 - 1 ("-0" is 0); RANGE when the leading digits
    exceed 2^64 - 1 or the number is a negative integer; otherwise NOT_INTEGER.
   */
  lemma UnsignedReading(s: Bytes)
    requires IsNumber(s)
    ensures AsU64(s).Value? <==> Integral(s) && 0 <= IntegerOf(s) <= 0xFFFF_FFFF_FFFF_FFFF
    ensures AsU64(s).Value? ==> AsU64(s).n == IntegerOf(s)
    ensures AsU64(s) == Failed(Code.Range) <==>
              DecimalValue(LeadingDigits(s)) > 0xFFFF_FFFF_FFFF_FFFF || (Integral(s) && IntegerOf(s) < 0)
    ensures AsU64(s) == Failed(Code.NotInteger) <==>
              !Integral(s) && DecimalValue(LeadingDigits(s)) <= 0xFFFF_FFFF_FFFF_FFFF
  {
    hide IsNumber, LeadingDigits, DecimalValue, Integral;
    WholeIsLeading(s);
    NumberIsSomething(s);
  }

  lemma NumberIsSomething(s: Bytes)
    requires IsNumber(s)
    ensures s != [] && (SignEnd(s) == 1 <==> s[0] == 0x2D)
  {
  }

  /** A rendered integer spells that integer and is integral. */
  lemma RenderedValue(z: int)
    ensures Integral(RenderInt(z)) && IntegerOf(RenderInt(z)) == z
  {
    hide Render, DecimalValue, DigitsEnd;
    var magnitude: nat := if z < 0 then -z else z;
    var s := RenderInt(z);
    RenderInverts(magnitude);
    var i := if z < 0 then 1 else 0;
    assert s[i..] == Render(magnitude);
    assert s[0] == 0x2D <==> z < 0 by {
      assert z >= 0 ==> IsDigit(Render(magnitude)[0]);
    }
    RunEnds(s, i, Render(magnitude));
    IntegralDigits(s, i);
    assert s[i..|s|] == s[i..];
  }

  /** An integer lexeme in range renders back to itself, "-0" excepted. */
  lemma IntegerReproduced(s: Bytes)
    requires IsNumber(s) && AsInteger(s).Value?
    ensures RenderInt(AsInteger(s).n) == Normal(s)
  {
    hide IsNumber, LeadingDigits, DecimalValue, AsInteger, Render;
    IntegerReading(s);
    WholeIsLeading(s);
    var d := LeadingDigits(s);
    RenderReproduces(d);
    if SignEnd(s) == 1 && d[0] == ZERO {
      assert d == [ZERO];
      RenderInverts(DecimalValue(d));
      assert s == [MINUS, ZERO];
    }
  }

  /** Copying a number: it fails exactly when its leading digits exceed 64 bits, fraction or not. */
  lemma CopyKeepsLexeme(s: Bytes)
    requires IsNumber(s)
    ensures CopiedLexeme(s) ==
            if DecimalValue(LeadingDigits(s)) > LargestMagnitude(s) then None else Some(Normal(s))
  {
    hide IsNumber, LeadingDigits, DecimalValue, AsInteger, RenderInt;
    IntegerReading(s);
    if AsInteger(s).Value? {
      IntegerReproduced(s);
    }
  }

  /** Every integer the writer renders is a number of the grammar and keeps its value. */
  lemma RenderedIsNumber(z: int)
    ensures IsNumber(RenderInt(z)) && Normal(RenderInt(z)) == RenderInt(z)
  {
    hide IsNumber, Render;
    var magnitude := if z < 0 then -z else z;
    RenderInverts(magnitude);
    var n := Parts(z < 0, Render(magnitude), [], NoExponent);
    SpellingIsNumber(n);
    assert SpellParts(n) == RenderInt(z);
    assert z < 0 ==> RenderInt(z)[1] == Render(magnitude)[0];
    assert z >= 0 ==> IsDigit(RenderInt(z)[0]);
  }

  /** The header says such a number is copied by its lexeme; the digit loop reports RANGE first. */
  lemma RangeBeforeFraction()
    ensures var s: Bytes := Render(18446744073709551616) + [POINT, 0x35];
            IsNumber(s) && !Integral(s) && AsInteger(s) == Failed(Code.Range) && CopiedLexeme(s) == None
  {
    hide Render, DecimalValue, DigitsEnd, IsNumber;
    var d := Render(18446744073709551616);
    RenderInverts(18446744073709551616);
    var n := Parts(false, d, [0x35], NoExponent);
    SpellingIsNumber(n);
    var s: Bytes := d + [POINT, 0x35];
    assert SpellParts(n) == s;
    assert s[|d|] == POINT;
    assert s[0] == d[0] && s[0..|d|] == d;
    RunEnds(s, 0, d);
  }
}
