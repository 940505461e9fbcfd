/** The key order of RFC 8785, section 3.2.3: UTF-16 code units compared as unsigned integers. */
module Utf16 {
  import opened Basics
  import opened Utf8

  /** The code units of one scalar value: itself, or a surrogate pair. */
  function Units(p: Scalar): (u: seq<int>)
    ensures 1 <= |u| <= 2
  {
    if p >= 0x10000 then [0xD800 + (p - 0x10000) / 1024, 0xDC00 + (p - 0x10000) % 1024] else [p]
  }

  function UnitsAll(ps: seq<Scalar>): seq<int> {
    if ps == [] then [] else Units(ps[0]) + UnitsAll(ps[1..])
  }

  function Utf16Of(s: Bytes): seq<int> {
    UnitsAll(Scalars(s))
  }

  /** Lexicographic comparison of integer sequences: negative, zero or positive. */
  function LexCompare(a: seq<int>, b: seq<int>): (r: int)
    ensures -1 <= r <= 1
  {
    if a == [] then (if b == [] then 0 else -1)
    else if b == [] then 1
    else if a[0] != b[0] then (if a[0] < b[0] then -1 else 1)
    else LexCompare(a[1..], b[1..])
  }

  function KeyCompare(a: Bytes, b: Bytes): (r: int)
    ensures -1 <= r <= 1
  {
    LexCompare(Utf16Of(a), Utf16Of(b))
  }

  predicate KeyLess(a: Bytes, b: Bytes) {
    KeyCompare(a, b) < 0
  }

  /** The code units of section 2.1 of RFC 2781. */
  lemma UnitsTable(p: Scalar)
    ensures p < 0x10000 ==> Units(p) == [p]
    ensures p >= 0x10000 ==>
              && |Units(p)| == 2 && 0xD800 <= Units(p)[0] <= 0xDBFF && 0xDC00 <= Units(p)[1] <= 0xDFFF
              && p == 0x10000 + (Units(p)[0] - 0xD800) * 0x400 + (Units(p)[1] - 0xDC00)
  {
  }

  /** `a` comes first: it ends where `b` goes on, or has the smaller unit at the first difference. */
  ghost predicate ComesFirst(a: seq<int>, b: seq<int>) {
    exists n: nat :: FirstDifference(a, b, n) && (n == |a| || a[n] < b[n])
  }

  /** The sequences agree before `n` and `b` goes on there. */
  predicate FirstDifference(a: seq<int>, b: seq<int>, n: nat) {
    n <= |a| && n < |b| && a[..n] == b[..n]
  }

  lemma FirstShared(a: seq<int>, b: seq<int>, n: nat)
    requires FirstDifference(a, b, n)
    ensures n > 0 ==> a != [] && b != [] && a[0] == b[0]
  {
    assert n > 0 ==> a[0] == a[..n][0] && b[0] == b[..n][0];
  }

  /** Negative exactly when the first comes first, positive exactly when the second does. */
  lemma {:induction false} LexMeaning(a: seq<int>, b: seq<int>)
    ensures LexCompare(a, b) < 0 <==> ComesFirst(a, b)
    ensures LexCompare(a, b) > 0 <==> ComesFirst(b, a)
  {
    LexAntisymmetric(a, b);
    LexFirst(a, b);
    LexFirst(b, a);
  }

  lemma {:induction false} LexFirst(a: seq<int>, b: seq<int>)
    ensures LexCompare(a, b) < 0 <==> ComesFirst(a, b)
  {
    if a != [] && b != [] && a[0] == b[0] {
      LexFirst(a[1..], b[1..]);
      if ComesFirst(a[1..], b[1..]) {
        var n: nat :| FirstDifference(a[1..], b[1..], n) && (n == |a[1..]| || a[1..][n] < b[1..][n]);
        assert a[..n + 1] == [a[0]] + a[1..][..n] && b[..n + 1] == [b[0]] + b[1..][..n];
        assert FirstDifference(a, b, n + 1);
      }
      if ComesFirst(a, b) {
        var n: nat :| FirstDifference(a, b, n) && (n == |a| || a[n] < b[n]);
        assert n > 0;
        assert a[1..][..n - 1] == a[..n][1..] && b[1..][..n - 1] == b[..n][1..];
        assert FirstDifference(a[1..], b[1..], n - 1);
      }
    } else {
      if ComesFirst(a, b) {
        var n: nat :| FirstDifference(a, b, n) && (n == |a| || a[n] < b[n]);
        FirstShared(a, b, n);
      }
      if LexCompare(a, b) < 0 {
        assert a[..0] == b[..0];
        assert FirstDifference(a, b, 0);
      }
    }
  }

  /** The order of keys: by the first differing UTF-16 code unit. */
  lemma KeyOrderMeaning(a: Bytes, b: Bytes)
    ensures KeyLess(a, b) <==> ComesFirst(Utf16Of(a), Utf16Of(b))
  {
    hide LexCompare, UnitsAll, ScalarsFrom;
    LexMeaning(Utf16Of(a), Utf16Of(b));
  }

  lemma {:induction false} LexZero(a: seq<int>, b: seq<int>)
    ensures LexCompare(a, b) == 0 <==> a == b
  {
    if a != [] && b != [] && a[0] == b[0] {
      LexZero(a[1..], b[1..]);
      assert a == [a[0]] + a[1..] && b == [b[0]] + b[1..];
    }
  }

  lemma {:induction false} LexAntisymmetric(a: seq<int>, b: seq<int>)
    ensures LexCompare(a, b) == -LexCompare(b, a)
  {
    if a != [] && b != [] && a[0] == b[0] {
      LexAntisymmetric(a[1..], b[1..]);
    }
  }

  lemma {:induction false} LexTransitive(a: seq<int>, b: seq<int>, c: seq<int>)
    requires LexCompare(a, b) <= 0 && LexCompare(b, c) <= 0
    ensures LexCompare(a, c) <= 0
    ensures LexCompare(a, b) < 0 || LexCompare(b, c) < 0 ==> LexCompare(a, c) < 0
  {
    if a != [] && b != [] && c != [] && a[0] == b[0] == c[0] {
      LexTransitive(a[1..], b[1..], c[1..]);
    }
  }

  lemma {:induction false} LexSkip(prefix: seq<int>, a: seq<int>, b: seq<int>)
    ensures LexCompare(prefix + a, prefix + b) == LexCompare(a, b)
  {
    if prefix == [] {
      assert prefix + a == a && prefix + b == b;
    } else {
      LexSkip(prefix[1..], a, b);
      assert (prefix + a)[1..] == prefix[1..] + a && (prefix + b)[1..] == prefix[1..] + b;
    }
  }

  /** Position of a scalar value in the key order: supplementary characters precede U+E000..U+FFFF. */
  function Weight(p: Scalar): int {
    if p < 0xD800 then p
    else if p >= 0x10000 then 0xD800 + (p - 0x10000)
    else p + 0x100000
  }

  function Weights(ps: seq<Scalar>): (w: seq<int>)
    ensures |w| == |ps|
  {
    if ps == [] then [] else [Weight(ps[0])] + Weights(ps[1..])
  }

  lemma UnitsDecide(p: Scalar, q: Scalar, a: seq<int>, b: seq<int>)
    requires p != q
    ensures LexCompare(Units(p) + a, Units(q) + b) == if Weight(p) < Weight(q) then -1 else 1
  {
    var u, v := Units(p), Units(q);
    assert (u + a)[0] == u[0] && (v + b)[0] == v[0];
    if u[0] == v[0] {
      assert (u + a)[1..] == u[1..] + a && (v + b)[1..] == v[1..] + b;
      assert (u[1..] + a)[0] == u[1] && (v[1..] + b)[0] == v[1];
    }
  }

  /** Comparing code units is comparing code points, with the one exception `Weight` records. */
  lemma {:induction false} UnitOrderIsWeightOrder(ps: seq<Scalar>, qs: seq<Scalar>)
    ensures LexCompare(UnitsAll(ps), UnitsAll(qs)) == LexCompare(Weights(ps), Weights(qs))
  {
    hide Units, Weight;
    if ps != [] && qs != [] {
      var p, q := ps[0], qs[0];
      if p == q {
        LexSkip(Units(p), UnitsAll(ps[1..]), UnitsAll(qs[1..]));
        UnitOrderIsWeightOrder(ps[1..], qs[1..]);
        assert Weights(ps)[1..] == Weights(ps[1..]) && Weights(qs)[1..] == Weights(qs[1..]);
      } else {
        UnitsDecide(p, q, UnitsAll(ps[1..]), UnitsAll(qs[1..]));
        WeightInjective(p, q);
      }
    }
  }

  lemma WeightInjective(p: Scalar, q: Scalar)
    ensures Weight(p) == Weight(q) <==> p == q
  {
  }

  lemma {:induction false} WeightsInjective(ps: seq<Scalar>, qs: seq<Scalar>)
    requires Weights(ps) == Weights(qs)
    ensures ps == qs
  {
    hide Weight;
    if ps != [] && qs != [] {
      assert Weights(ps)[0] == Weights(qs)[0] && Weights(ps)[1..] == Weights(qs)[1..];
      WeightInjective(ps[0], qs[0]);
      WeightsInjective(ps[1..], qs[1..]);
      assert ps == [ps[0]] + ps[1..] && qs == [qs[0]] + qs[1..];
    }
  }

  /** On validated text the comparison is a total order that separates distinct byte strings. */
  lemma KeyOrderTotal(a: Bytes, b: Bytes)
    requires Valid(a) && Valid(b)
    ensures KeyCompare(a, b) == -KeyCompare(b, a)
    ensures KeyCompare(a, b) == 0 <==> a == b
  {
    hide LexCompare, UnitsAll, Weights, ScalarsFrom, PrefixFrom;
    LexAntisymmetric(Utf16Of(a), Utf16Of(b));
    if KeyCompare(a, b) == 0 {
      UnitOrderIsWeightOrder(Scalars(a), Scalars(b));
      LexZero(Weights(Scalars(a)), Weights(Scalars(b)));
      WeightsInjective(Scalars(a), Scalars(b));
      ValidIsWellFormed(a);
      ValidIsWellFormed(b);
    }
    if a == b {
      LexZero(Utf16Of(a), Utf16Of(b));
    }
  }

  lemma KeyOrderTransitive(a: Bytes, b: Bytes, c: Bytes)
    requires KeyCompare(a, b) <= 0 && KeyCompare(b, c) <= 0
    ensures KeyCompare(a, c) <= 0
    ensures KeyLess(a, b) || KeyLess(b, c) ==> KeyLess(a, c)
  {
    LexTransitive(Utf16Of(a), Utf16Of(b), Utf16Of(c));
  }

  /** One decoding step of validated text yields the units of one scalar value. */
  lemma UnitsStep(s: Bytes, i: nat)
    requires i < |s| && PrefixFrom(s, i) == |s|
    ensures StepAt(s, i) > 0 && IsScalar(PointAt(s, i)) && PrefixFrom(s, i + StepAt(s, i)) == |s|
    ensures UnitsAll(ScalarsFrom(s, i)) == Units(PointAt(s, i)) + UnitsAll(ScalarsFrom(s, i + StepAt(s, i)))
  {
    hide Encode, PointAt, Units;
    if StepAt(s, i) > 0 {
      StepEncodes(s, i);
      var rest := ScalarsFrom(s, i + StepAt(s, i));
      assert ScalarsFrom(s, i) == [PointAt(s, i)] + rest;
      assert ScalarsFrom(s, i)[1..] == rest;
    }
  }

  /** Streams the code units of a validated byte string. */
  class UnitCursor {
    const bytes: Bytes
    var offset: nat
    var pendingLow: int

    ghost predicate Ready()
      reads this
    {
      && offset <= |bytes|
      && PrefixFrom(bytes, offset) == |bytes|
      && pendingLow >= 0
    }

    ghost function Rest(): seq<int>
      reads this
      requires Ready()
    {
      (if pendingLow != 0 then [pendingLow] else []) + UnitsAll(ScalarsFrom(bytes, offset))
    }

    constructor (bytes: Bytes)
      requires Valid(bytes)
      ensures Ready() && Rest() == Utf16Of(bytes)
    {
      this.bytes := bytes;
      offset, pendingLow := 0, 0;
      new;
      assert Rest() == UnitsAll(ScalarsFrom(bytes, 0));
    }

    method Next() returns (has: bool, unit: int)
      requires Ready()
      modifies this
      ensures Ready()
      ensures has <==> old(Rest()) != []
      ensures has ==> [unit] + Rest() == old(Rest())
      ensures !has ==> Rest() == old(Rest())
    {
      hide UnitsAll, ScalarsFrom, StepAt, PointAt, Encode, PrefixFrom;
      if pendingLow != 0 {
        has, unit := true, pendingLow;
        pendingLow := 0;
        return;
      }
      if offset >= |bytes| {
        EndOfUnits(bytes, offset);
        return false, 0;
      }
      has := true;
      UnitsStep(bytes, offset);
      var point := PointAt(bytes, offset);
      offset := offset + StepAt(bytes, offset);
      ghost var tail := UnitsAll(ScalarsFrom(bytes, offset));
      assert old(Rest()) == Units(point) + tail;
      if point >= 0x10000 {
        point := point - 0x10000;
        unit := 0xD800 + point / 1024;
        pendingLow := 0xDC00 + point % 1024;
        assert Rest() == [pendingLow] + tail;
        assert [unit] + Rest() == [unit, pendingLow] + tail;
      } else {
        unit := point;
        assert Rest() == tail;
      }
    }
  }

  lemma EndOfUnits(s: Bytes, i: nat)
    requires i == |s|
    ensures UnitsAll(ScalarsFrom(s, i)) == []
  {
  }

  method Compare(left: Bytes, right: Bytes) returns (order: int)
    requires Valid(left) && Valid(right)
    ensures order == KeyCompare(left, right)
    ensures order == 0 <==> left == right
  {
    KeyOrderTotal(left, right);
    var a := new UnitCursor(left);
    var b := new UnitCursor(right);
    while true
      invariant a.Ready() && b.Ready() && fresh(a) && fresh(b) && a != b
      invariant LexCompare(a.Rest(), b.Rest()) == KeyCompare(left, right)
      decreases |a.Rest()|
    {
      var restA, restB := a.Rest(), b.Rest();
      var hasA, unitA := a.Next();
      var hasB, unitB := b.Next();
      if !hasA || !hasB {
        return (if hasA then 1 else 0) - (if hasB then 1 else 0);
      }
      assert restA[1..] == a.Rest() && restB[1..] == b.Rest();
      if unitA != unitB {
        return if unitA < unitB then -1 else 1;
      }
    }
  }
}
