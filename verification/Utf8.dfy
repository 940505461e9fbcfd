/** UTF-8 (section 4 of RFC 3629): validation, decoding and encoding of scalar values. */
module Utf8 {
  import opened Basics

  predicate IsScalar(p: int) {
    0 <= p < 0xD800 || 0xE000 <= p <= 0x10FFFF
  }

  type Scalar = p: int | 0 <= p < 0xD800 || 0xE000 <= p <= 0x10FFFF

  /** The definition of the encoding: six-bit groups of `p`, most significant first. */
  function Encode(p: Scalar): (s: Bytes)
    ensures 1 <= |s| <= 4
  {
    var q, r := p / 64, p / 64 / 64;
    var low: Byte, middle: Byte, high: Byte := 0x80 + p % 64, 0x80 + q % 64, 0x80 + r % 64;
    if p <= 0x7F then
      var lead: Byte := p; [lead]
    else if p <= 0x7FF then
      var lead: Byte := 0xC0 + q; [lead, low]
    else if p <= 0xFFFF then
      var lead: Byte := 0xE0 + r; [lead, middle, low]
    else
      var lead: Byte := 0xF0 + r / 64; [lead, high, middle, low]
  }

  /** The table of section 3 of RFC 3629: how long each encoding is, its lead bytes, and its six-bit groups. */
  lemma EncodingTable(p: Scalar)
    ensures var s: seq<int> := Encode(p);
            && (p <= 0x7F ==> s == [p])
            && (0x80 <= p <= 0x7FF ==>
                  |s| == 2 && 0xC2 <= s[0] <= 0xDF && p == (s[0] - 0xC0) * 0x40 + (s[1] - 0x80))
            && (0x800 <= p <= 0xFFFF ==>
                  |s| == 3 && 0xE0 <= s[0] <= 0xEF &&
                  p == (s[0] - 0xE0) * 0x1000 + (s[1] - 0x80) * 0x40 + (s[2] - 0x80))
            && (0x10000 <= p ==>
                  |s| == 4 && 0xF0 <= s[0] <= 0xF4 &&
                  p == (s[0] - 0xF0) * 0x40000 + (s[1] - 0x80) * 0x1000 + (s[2] - 0x80) * 0x40 + (s[3] - 0x80))
            && forall k :: 1 <= k < |s| ==> 0x80 <= s[k] <= 0xBF
  {
  }

  function EncodeAll(ps: seq<Scalar>): Bytes {
    if ps == [] then [] else Encode(ps[0]) + EncodeAll(ps[1..])
  }

  /** A byte string is well formed when it encodes some sequence of scalar values. */
  ghost predicate WellFormed(s: Bytes) {
    exists ps: seq<Scalar> :: EncodeAll(ps) == s
  }

  predicate Continuation(b: Byte) {
    0x80 <= b < 0xC0
  }

  /** Length of the sequence the validator accepts at `i`, or 0 when it stops there. */
  function StepAt(s: Bytes, i: nat): (k: nat)
    requires i < |s|
    ensures k <= 4 && i + k <= |s|
  {
    var a := s[i];
    if a <= 0x7F then 1
    else if 0xC2 <= a <= 0xDF then
      if i + 1 >= |s| || !Continuation(s[i + 1]) then 0 else 2
    else if 0xE0 <= a <= 0xEF then
      if i + 2 >= |s| || !Continuation(s[i + 1]) || !Continuation(s[i + 2]) then 0
      else if (a == 0xE0 && s[i + 1] < 0xA0) || (a == 0xED && s[i + 1] >= 0xA0) then 0
      else 3
    else if 0xF0 <= a <= 0xF4 then
      if i + 3 >= |s| || !Continuation(s[i + 1]) || !Continuation(s[i + 2]) || !Continuation(s[i + 3]) then 0
      else if (a == 0xF0 && s[i + 1] < 0x90) || (a == 0xF4 && s[i + 1] >= 0x90) then 0
      else 4
    else 0
  }

  /** The value the decoder reads at `i`, looking only at the lead byte to choose a length. */
  function PointAt(s: Bytes, i: nat): int
    requires i < |s| && StepAt(s, i) > 0
  {
    var a: int := s[i];
    if a <= 0x7F then a
    else if a <= 0xDF then a % 32 * 64 + Low(s, i + 1)
    else if a <= 0xEF then (a % 16 * 64 + Low(s, i + 1)) * 64 + Low(s, i + 2)
    else ((a % 8 * 64 + Low(s, i + 1)) * 64 + Low(s, i + 2)) * 64 + Low(s, i + 3)
  }

  /** The six payload bits of a continuation byte. */
  function Low(s: Bytes, i: nat): (n: int)
    requires i < |s|
    ensures 0 <= n < 64
    ensures Continuation(s[i]) ==> s[i] == 0x80 + n
  {
    var b: int := s[i];
    b % 64
  }

  lemma Regroup(high: int, low: int)
    requires 0 <= low < 64
    ensures (high * 64 + low) / 64 == high && (high * 64 + low) % 64 == low
  {
  }

  lemma EncodePair(p: Scalar, a: int, b: int)
    requires p == a * 64 + b && 0 <= b < 64 && 0x80 <= p <= 0x7FF
    ensures Encode(p) == [(0xC0 + a) as Byte, (0x80 + b) as Byte]
  {
    Regroup(a, b);
  }

  lemma EncodeTriple(p: Scalar, a: int, b: int, c: int)
    requires p == (a * 64 + b) * 64 + c && 0 <= b < 64 && 0 <= c < 64 && 0x800 <= p <= 0xFFFF
    ensures Encode(p) == [(0xE0 + a) as Byte, (0x80 + b) as Byte, (0x80 + c) as Byte]
  {
    Regroup(a * 64 + b, c);
    Regroup(a, b);
  }

  lemma EncodeQuad(p: Scalar, a: int, b: int, c: int, d: int)
    requires p == ((a * 64 + b) * 64 + c) * 64 + d
    requires 0 <= b < 64 && 0 <= c < 64 && 0 <= d < 64 && 0x10000 <= p
    ensures Encode(p) == [(0xF0 + a) as Byte, (0x80 + b) as Byte, (0x80 + c) as Byte, (0x80 + d) as Byte]
  {
    Regroup((a * 64 + b) * 64 + c, d);
    Regroup(a * 64 + b, c);
    Regroup(a, b);
  }

  lemma StepEncodesWide(s: Bytes, i: nat)
    requires i < |s| && StepAt(s, i) == 4
    ensures IsScalar(PointAt(s, i))
    ensures Encode(PointAt(s, i)) == [s[i], s[i + 1], s[i + 2], s[i + 3]]
  {
    var a: int, p := s[i], PointAt(s, i);
    EncodeQuad(p, a - 0xF0, Low(s, i + 1), Low(s, i + 2), Low(s, i + 3));
  }

  lemma StepEncodesTriple(s: Bytes, i: nat)
    requires i < |s| && StepAt(s, i) == 3
    ensures IsScalar(PointAt(s, i))
    ensures Encode(PointAt(s, i)) == [s[i], s[i + 1], s[i + 2]]
  {
    var a: int, p := s[i], PointAt(s, i);
    EncodeTriple(p, a - 0xE0, Low(s, i + 1), Low(s, i + 2));
  }

  lemma StepEncodesNarrow(s: Bytes, i: nat)
    requires i < |s| && 1 <= StepAt(s, i) <= 2
    ensures IsScalar(PointAt(s, i))
    ensures Encode(PointAt(s, i)) == if StepAt(s, i) == 1 then [s[i]] else [s[i], s[i + 1]]
  {
    var a: int, p := s[i], PointAt(s, i);
    if StepAt(s, i) == 2 {
      EncodePair(p, a - 0xC0, Low(s, i + 1));
    }
  }

  /** What the validator accepts at `i` is exactly the encoding of the value decoded there. */
  lemma StepEncodes(s: Bytes, i: nat)
    requires i < |s| && StepAt(s, i) > 0
    ensures IsScalar(PointAt(s, i))
    ensures Encode(PointAt(s, i)) == s[i..i + StepAt(s, i)]
  {
    hide StepAt, PointAt, Encode;
    match StepAt(s, i) {
      case 1 => StepEncodesNarrow(s, i);
      case 2 => StepEncodesNarrow(s, i);
      case 3 => StepEncodesTriple(s, i);
      case 4 => StepEncodesWide(s, i);
    }
  }

  lemma EncodeStepsNarrow(p: Scalar, s: Bytes, i: nat)
    requires p <= 0x7FF && Occurs(s, i, Encode(p))
    ensures StepAt(s, i) == |Encode(p)| && PointAt(s, i) == p
  {
    OccursAt(s, i, Encode(p), 0);
    if p > 0x7F {
      OccursAt(s, i, Encode(p), 1);
    }
  }

  lemma EncodeStepsTriple(p: Scalar, s: Bytes, i: nat)
    requires 0x800 <= p <= 0xFFFF && Occurs(s, i, Encode(p))
    ensures StepAt(s, i) == |Encode(p)| && PointAt(s, i) == p
  {
    OccursAt(s, i, Encode(p), 0);
    OccursAt(s, i, Encode(p), 1);
    OccursAt(s, i, Encode(p), 2);
  }

  lemma EncodeStepsWide(p: Scalar, s: Bytes, i: nat)
    requires 0x10000 <= p && Occurs(s, i, Encode(p))
    ensures StepAt(s, i) == |Encode(p)| && PointAt(s, i) == p
  {
    OccursAt(s, i, Encode(p), 0);
    OccursAt(s, i, Encode(p), 1);
    OccursAt(s, i, Encode(p), 2);
    OccursAt(s, i, Encode(p), 3);
  }

  /** Decoding inverts encoding on every scalar value, whatever follows. */
  lemma EncodeSteps(p: Scalar, s: Bytes, i: nat)
    requires Occurs(s, i, Encode(p))
    ensures StepAt(s, i) == |Encode(p)| && PointAt(s, i) == p
  {
    hide StepAt, PointAt, Encode;
    if p <= 0x7FF {
      EncodeStepsNarrow(p, s, i);
    } else if p <= 0xFFFF {
      EncodeStepsTriple(p, s, i);
    } else {
      EncodeStepsWide(p, s, i);
    }
  }

  /** Longest prefix of `s` from `i` made of accepted sequences. */
  function PrefixFrom(s: Bytes, i: nat): (n: nat)
    requires i <= |s|
    ensures i <= n <= |s|
    decreases |s| - i
  {
    if i == |s| || StepAt(s, i) == 0 then i else PrefixFrom(s, i + StepAt(s, i))
  }

  predicate Valid(s: Bytes) {
    PrefixFrom(s, 0) == |s|
  }

  /** Accepted bytes are their scalar value followed by the encoding of what comes after. */
  lemma EncodedAfter(s: Bytes, i: nat, rest: seq<Scalar>)
    requires i < |s| && StepAt(s, i) > 0
    requires EncodeAll(rest) == s[i + StepAt(s, i)..PrefixFrom(s, i + StepAt(s, i))]
    ensures IsScalar(PointAt(s, i)) && EncodeAll([PointAt(s, i)] + rest) == s[i..PrefixFrom(s, i)]
  {
    hide Encode, StepAt, PointAt;
    StepEncodes(s, i);
    var k := StepAt(s, i);
    assert ([PointAt(s, i)] + rest)[1..] == rest;
    assert s[i..PrefixFrom(s, i)] == s[i..i + k] + s[i + k..PrefixFrom(s, i + k)];
  }

  /** The scalar values of a byte string up to its first malformed position. */
  function ScalarsFrom(s: Bytes, i: nat): (ps: seq<Scalar>)
    requires i <= |s|
    ensures EncodeAll(ps) == s[i..PrefixFrom(s, i)]
    decreases |s| - i
  {
    if i == |s| || StepAt(s, i) == 0 then []
    else
      StepEncodes(s, i);
      hide Encode, StepAt, PointAt;
      var k := StepAt(s, i);
      var rest := ScalarsFrom(s, i + k);
      EncodedAfter(s, i, rest);
      [PointAt(s, i)] + rest
  }

  function Scalars(s: Bytes): seq<Scalar> {
    ScalarsFrom(s, 0)
  }

  lemma HeadAndTail(ps: seq<Scalar>, rest: seq<Scalar>)
    requires ps != []
    ensures [ps[0]] + (ps[1..] + rest) == ps + rest
  {
    assert ps == [ps[0]] + ps[1..];
  }

  /** The scan passes over one character. */
  lemma ScanStep(s: Bytes, i: nat)
    requires i < |s| && StepAt(s, i) > 0
    ensures PrefixFrom(s, i) == PrefixFrom(s, i + StepAt(s, i))
    ensures ScalarsFrom(s, i) == [PointAt(s, i)] + ScalarsFrom(s, i + StepAt(s, i))
  {
    hide StepAt, PointAt;
  }

  /** If `s` from `i` starts with an encoding of `ps`, the scan passes over all of it. */
  lemma {:induction false} ScanPasses(s: Bytes, i: nat, ps: seq<Scalar>)
    requires Occurs(s, i, EncodeAll(ps))
    ensures PrefixFrom(s, i) == PrefixFrom(s, i + |EncodeAll(ps)|)
    ensures ScalarsFrom(s, i) == ps + ScalarsFrom(s, i + |EncodeAll(ps)|)
    decreases |ps|
  {
    hide Encode, StepAt, PointAt, PrefixFrom, ScalarsFrom;
    if ps != [] {
      var e := Encode(ps[0]);
      OccursSplit(s, i, e, EncodeAll(ps[1..]));
      EncodeSteps(ps[0], s, i);
      ScanStep(s, i);
      ScanPasses(s, i + |e|, ps[1..]);
      HeadAndTail(ps, ScalarsFrom(s, i + |EncodeAll(ps)|));
      hide EncodeAll;
    }
  }

  lemma PrefixCovers(s: Bytes, ps: seq<Scalar>, m: nat)
    requires m <= |s| && EncodeAll(ps) == s[..m]
    ensures m <= PrefixFrom(s, 0)
    ensures m == |s| ==> Scalars(s) == ps
  {
    hide StepAt, PointAt, EncodeAll;
    assert s[0..m] == s[..m];
    ScanPasses(s, 0, ps);
    assert m == |s| ==> ps + [] == ps;
  }

  /** The validator computes the longest well-formed prefix. */
  lemma PrefixIsLongest(s: Bytes)
    ensures WellFormed(s[..PrefixFrom(s, 0)])
    ensures forall m :: PrefixFrom(s, 0) < m <= |s| ==> !WellFormed(s[..m])
  {
    hide StepAt, EncodeAll, ScalarsFrom, PrefixFrom;
    var n := PrefixFrom(s, 0);
    assert s[..n] == s[0..n];
    assert EncodeAll(ScalarsFrom(s, 0)) == s[..n];
    forall m | n < m <= |s| ensures !WellFormed(s[..m]) {
      if WellFormed(s[..m]) {
        var ps: seq<Scalar> :| EncodeAll(ps) == s[..m];
        PrefixCovers(s, ps, m);
      }
    }
  }

  /** Well-formedness, validity and the scalar view agree; the view is the only one. */
  lemma ValidIsWellFormed(s: Bytes)
    ensures Valid(s) <==> WellFormed(s)
    ensures Valid(s) ==> EncodeAll(Scalars(s)) == s
    ensures forall ps: seq<Scalar> :: EncodeAll(ps) == s ==> Scalars(s) == ps
  {
    hide StepAt, EncodeAll, ScalarsFrom, PrefixFrom;
    PrefixIsLongest(s);
    assert s[..|s|] == s && s[0..|s|] == s;
    forall ps: seq<Scalar> | EncodeAll(ps) == s ensures Scalars(s) == ps && WellFormed(s) {
      PrefixCovers(s, ps, |s|);
    }
  }

  /** The validation loop over bytes[start..stop], as the string decoder calls it on a run. */
  method ValidPrefix(bytes: Bytes) returns (size: nat)
    ensures size == PrefixFrom(bytes, 0)
    ensures size <= |bytes| && WellFormed(bytes[..size])
    ensures forall m :: size < m <= |bytes| ==> !WellFormed(bytes[..m])
  {
    PrefixIsLongest(bytes);
    var i := 0;
    while i < |bytes|
      invariant i <= |bytes|
      invariant PrefixFrom(bytes, i) == PrefixFrom(bytes, 0)
    {
      var a := bytes[i];
      if a <= 0x7F {
        i := i + 1;
        continue;
      }
      if 0xC2 <= a <= 0xDF {
        if i + 1 >= |bytes| || !Continuation(bytes[i + 1]) {
          return i;
        }
        i := i + 2;
        continue;
      }
      if 0xE0 <= a <= 0xEF {
        if i + 2 >= |bytes| || !Continuation(bytes[i + 1]) || !Continuation(bytes[i + 2]) {
          return i;
        }
        if (a == 0xE0 && bytes[i + 1] < 0xA0) || (a == 0xED && bytes[i + 1] >= 0xA0) {
          return i;
        }
        i := i + 3;
        continue;
      }
      if 0xF0 <= a <= 0xF4 {
        if i + 3 >= |bytes| || !Continuation(bytes[i + 1]) || !Continuation(bytes[i + 2]) ||
           !Continuation(bytes[i + 3]) {
          return i;
        }
        if (a == 0xF0 && bytes[i + 1] < 0x90) || (a == 0xF4 && bytes[i + 1] >= 0x90) {
          return i;
        }
        i := i + 4;
        continue;
      }
      return i;
    }
    return |bytes|;
  }
}
