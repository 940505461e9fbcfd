/** The canonical bytes of a tree: what they depend on, and the slow definition of "is canonical". */
module CanonicalForm {
  import opened Basics
  import opened StringLiteral
  import opened TextEscape
  import opened Numeral
  import opened Trees
  import opened Reader
  import opened Acceptance
  import opened Grammar
  import opened Printer
  import opened Order
  import opened LastWinsTree

  /** The tree as a writer copy holds it: "-0" becomes "0", every other lexeme stays. */
  function Normalized(j: Json): Json {
    match j
    case Number(lexeme) => Number(Normal(lexeme))
    case Array(items) => Array(seq(|items|, k requires 0 <= k < |items| => Normalized(items[k])))
    case Object(ms) =>
      Object(seq(|ms|, k requires 0 <= k < |ms| => Member(ms[k].key, Normalized(ms[k].value))))
    case _ => j
  }

  /** The canonical serialization of a tree. */
  function Canonical(j: Json, newline: bool): Bytes {
    Output(Sorted(Normalized(j)), COMPACT, newline)
  }

  /** Every number is an integer in [-2^63, 2^64 - 1]. */
  predicate IntegersOnly(j: Json) {
    match j
    case Number(lexeme) => Integral(lexeme) && AsInteger(lexeme).Value?
    case Array(items) => forall k :: 0 <= k < |items| ==> IntegersOnly(items[k])
    case Object(ms) => forall k :: 0 <= k < |ms| ==> IntegersOnly(ms[k].value)
    case _ => true
  }

  // ----- what normalizing keeps

  lemma NormalIsNumber(lexeme: Bytes)
    requires IsNumber(lexeme)
    ensures IsNumber(Normal(lexeme)) && Normal(Normal(lexeme)) == Normal(lexeme)
  {
    hide IsNumber, Render;
    if lexeme == [MINUS, ZERO] {
      RenderedIsNumber(0);
      RenderZero();
    }
  }

  lemma RenderZero()
    ensures RenderInt(0) == [ZERO]
  {
  }

  lemma {:induction false} NormalizedCarried(profile: Profile, j: Json)
    requires Carried(profile, j)
    ensures Carried(profile, Normalized(j))
    decreases j
  {
    hide IsNumber, Printable;
    match j {
      case Number(lexeme) => NormalIsNumber(lexeme);
      case Array(items) =>
        forall k | 0 <= k < |items| ensures Carried(profile, Normalized(items[k])) {
          NormalizedCarried(profile, items[k]);
        }
      case Object(ms) =>
        forall k | 0 <= k < |ms| ensures Carried(profile, Normalized(ms[k].value)) {
          NormalizedCarried(profile, ms[k].value);
        }
      case _ =>
    }
  }

  lemma {:induction false} NormalizedDistinct(j: Json)
    ensures Distinct(Normalized(j)) <==> Distinct(j)
    decreases j
  {
    match j {
      case Array(items) =>
        forall k | 0 <= k < |items| ensures Distinct(Normalized(j).items[k]) <==> Distinct(items[k]) {
          NormalizedDistinct(items[k]);
        }
      case Object(ms) =>
        forall k | 0 <= k < |ms| ensures Distinct(Normalized(j).members[k].value) <==> Distinct(ms[k].value) {
          NormalizedDistinct(ms[k].value);
        }
        SameKeys(ms, Normalized(j).members);
        SameKeys(Normalized(j).members, ms);
      case _ =>
    }
  }

  lemma {:induction false} NormalizedInOrder(j: Json)
    ensures InOrder(Normalized(j)) <==> InOrder(j)
    decreases j
  {
    hide InKeyOrder;
    match j {
      case Array(items) =>
        forall k | 0 <= k < |items| ensures InOrder(Normalized(j).items[k]) <==> InOrder(items[k]) {
          NormalizedInOrder(items[k]);
        }
      case Object(ms) =>
        forall k | 0 <= k < |ms| ensures InOrder(Normalized(j).members[k].value) <==> InOrder(ms[k].value) {
          NormalizedInOrder(ms[k].value);
        }
        OrderOfKeys(ms, Normalized(j).members);
        OrderOfKeys(Normalized(j).members, ms);
      case _ =>
    }
  }

  lemma OrderOfKeys(ms: seq<Member>, vs: seq<Member>)
    requires |ms| == |vs| && forall k :: 0 <= k < |ms| ==> vs[k].key == ms[k].key
    ensures InKeyOrder(ms) ==> InKeyOrder(vs)
  {
    hide Utf16.KeyLess;
  }

  lemma {:induction false} NormalizedNests(j: Json, room: int)
    requires Nests(j, room)
    ensures Nests(Normalized(j), room)
    decreases j
  {
    match j {
      case Array(items) =>
        forall k | 0 <= k < |items| ensures Nests(Normalized(items[k]), room - 1) {
          NormalizedNests(items[k], room - 1);
        }
      case Object(ms) =>
        forall k | 0 <= k < |ms| ensures Nests(Normalized(ms[k].value), room - 1) {
          NormalizedNests(ms[k].value, room - 1);
        }
      case _ =>
    }
  }

  lemma {:induction false} NormalizedTokens(j: Json)
    ensures Tokens(Normalized(j)) == Tokens(j)
    decreases j
  {
    hide ItemTokens, MemberTokens;
    match j {
      case Array(items) =>
        forall k | 0 <= k < |items| ensures Tokens(Normalized(items[k])) == Tokens(items[k]) {
          NormalizedTokens(items[k]);
        }
        SameItemTokens(items, Normalized(j).items, 0);
      case Object(ms) =>
        forall k | 0 <= k < |ms| ensures Tokens(Normalized(ms[k].value)) == Tokens(ms[k].value) {
          NormalizedTokens(ms[k].value);
        }
        SameTokens(ms, Normalized(j).members, 0);
      case _ =>
    }
  }

  lemma NormalizedFits(c: Config, j: Json)
    requires Carried(c.profile, j) && Distinct(j) && Fits(c, j, 0, 0)
    ensures Carried(c.profile, Normalized(j)) && Distinct(Normalized(j)) && Fits(c, Normalized(j), 0, 0)
  {
    hide Carried, Distinct, Nests, Tokens, Normalized;
    NormalizedCarried(c.profile, j);
    NormalizedDistinct(j);
    NormalizedNests(j, c.depth);
    NormalizedTokens(j);
  }

  lemma {:induction false} NormalizedTwice(profile: Profile, j: Json)
    requires Carried(profile, j)
    ensures Normalized(Normalized(j)) == Normalized(j)
    decreases j
  {
    hide IsNumber, Printable;
    match j {
      case Number(lexeme) => NormalIsNumber(lexeme);
      case Array(items) =>
        forall k | 0 <= k < |items| ensures Normalized(Normalized(items[k])) == Normalized(items[k]) {
          NormalizedTwice(profile, items[k]);
        }
        assert Normalized(Normalized(j)).items == Normalized(j).items;
      case Object(ms) =>
        forall k | 0 <= k < |ms| ensures Normalized(Normalized(ms[k].value)) == Normalized(ms[k].value) {
          NormalizedTwice(profile, ms[k].value);
        }
        assert Normalized(Normalized(j)).members == Normalized(j).members;
      case _ =>
    }
  }

  // ----- reading back

  /** What the reader accepts is what a writer of the same profile can carry. */
  lemma {:induction false} ReadIsCarried(profile: Profile, s: Syntax)
    requires SyntaxOk(profile, s)
    ensures Carried(profile, Tree(s))
    decreases s
  {
    hide IsNumber, CharsOk, Printable, Meaning;
    match s {
      case Quote(chars) => MeaningPrintable(profile, chars);
      case List(_, items) =>
        forall k | 0 <= k < |items| ensures Carried(profile, Tree(items[k].value)) {
          ReadIsCarried(profile, items[k].value);
        }
      case Record(_, pairs) =>
        forall k | 0 <= k < |pairs|
          ensures Printable(profile, Meaning(pairs[k].key)) && Carried(profile, Tree(pairs[k].item.value))
        {
          MeaningPrintable(profile, pairs[k].key);
          ReadIsCarried(profile, pairs[k].item.value);
        }
      case _ =>
    }
  }

  lemma {:induction false} EncodedNonZero(ps: seq<Utf8.Scalar>)
    requires forall k :: 0 <= k < |ps| ==> ps[k] != 0
    ensures forall k :: 0 <= k < |Utf8.EncodeAll(ps)| ==> Utf8.EncodeAll(ps)[k] != 0
  {
    if ps != [] {
      EncodedNonZero(ps[1..]);
      OneNonZero(ps[0]);
      hide Utf8.Encode;
    }
  }

  lemma OneNonZero(p: Utf8.Scalar)
    requires p != 0
    ensures forall k :: 0 <= k < |Utf8.Encode(p)| ==> Utf8.Encode(p)[k] != 0
  {
  }

  lemma {:induction false} AsciiMeaning(cs: seq<Char>)
    requires CharsOk(ContractAscii, cs)
    ensures forall k :: 0 <= k < |Meaning(cs)| ==>
              0x20 <= Meaning(cs)[k] <= 0x7E && Meaning(cs)[k] != QUOTE && Meaning(cs)[k] != BACKSLASH
  {
    if cs != [] {
      AsciiMeaning(cs[1..]);
      assert Points(cs)[1..] == Points(cs[1..]);
      assert CharOk(ContractAscii, cs[0]);
      assert Utf8.Encode(Point(cs[0])) == [Point(cs[0])];
      assert Meaning(cs) == [Point(cs[0])] + Meaning(cs[1..]);
    }
  }

  /** Decoded text is well-formed UTF-8 without U+0000; under CONTRACT_ASCII, plain printable ASCII. */
  lemma MeaningPrintable(profile: Profile, cs: seq<Char>)
    requires CharsOk(profile, cs)
    ensures Printable(profile, Meaning(cs))
  {
    hide CharOk, Point, Points, Utf8.EncodeAll, Utf8.PrefixFrom;
    if profile.ContractAscii? {
      AsciiMeaning(cs);
    } else {
      forall k | 0 <= k < |cs| ensures Points(cs)[k] != 0 {
        assert CharOk(profile, cs[k]);
      }
      EncodedNonZero(Points(cs));
      Utf8.ValidIsWellFormed(Meaning(cs));
    }
  }

  lemma ParsedIsCarried(c: Config, b: Bytes)
    requires ReadText(c, b).Parsed?
    ensures Carried(c.profile, ReadText(c, b).tree) && Fits(c, ReadText(c, b).tree, 0, 0)
  {
    hide ReadText, SyntaxOk, Fits, Carried, Tree, Spelling;
    var lead, s, trail := TextSound(c, b);
    ReadIsCarried(c.profile, s);
  }

  /** Every presentation of a sorted tree reads back as the sorted tree. */
  lemma RoundTrip(c: Config, j: Json, style: Style, newline: bool)
    requires Carried(c.profile, j) && Distinct(j) && Fits(c, j, 0, 0)
    ensures ReadText(c, Output(Sorted(j), style, newline)) ==
            Parsed(Sorted(j), |Output(Sorted(j), style, newline)|, Tokens(j))
  {
    hide ReadText, Output, Carried, Distinct, Fits, Sorted, Tokens;
    SortedFits(c, j);
    PrintReadsBack(c, Sorted(j), style, newline);
    SortedTokens(j);
  }

  lemma CanonicalFits(c: Config, j: Json)
    requires Carried(c.profile, j) && Distinct(j) && Fits(c, j, 0, 0)
    ensures var n := Sorted(Normalized(j));
            Carried(c.profile, n) && Distinct(n) && Fits(c, n, 0, 0) && Sorted(n) == n && Normalized(n) == n
  {
    hide Carried, Distinct, Fits, Sorted, Normalized;
    NormalizedFits(c, j);
    SortedFits(c, Normalized(j));
    SortIdempotent(c.profile, Normalized(j));
    SortedNormal(c.profile, Normalized(j), j);
  }

  /** Sorting keeps a tree normalized. */
  lemma SortedNormal(profile: Profile, n: Json, j: Json)
    requires Carried(profile, j) && n == Normalized(j)
    ensures Normalized(Sorted(n)) == Sorted(n)
  {
    NormalizedTwice(profile, j);
    NormalFixedSorted(n);
  }

  lemma {:induction false} NormalFixedSorted(n: Json)
    requires Normalized(n) == n
    ensures Normalized(Sorted(n)) == Sorted(n)
    decreases n
  {
    hide SortMembers;
    match n {
      case Array(items) =>
        forall k | 0 <= k < |items| ensures Normalized(Sorted(items[k])) == Sorted(items[k]) {
          assert Normalized(n).items[k] == items[k];
          NormalFixedSorted(items[k]);
        }
        assert Normalized(Sorted(n)).items == Sorted(n).items;
      case Object(ms) =>
        forall k | 0 <= k < |ms| ensures Normalized(Sorted(ms[k].value)) == Sorted(ms[k].value) {
          assert Normalized(n).members[k] == ms[k];
          NormalFixedSorted(ms[k].value);
        }
        SortedObject(ms);
        var vs := SortedValues(ms);
        var sorted := SortMembers(vs);
        forall k | 0 <= k < |sorted| ensures Normalized(sorted[k].value) == sorted[k].value {
          var i := SortedFrom(vs, k);
        }
        assert Normalized(Sorted(n)).members == sorted;
      case _ =>
    }
  }

  /** Canonicalizing what was read from any presentation of a tree gives the tree's canonical bytes again. */
  lemma CanonicalIdempotent(c: Config, j: Json, style: Style, newline: bool, newline': bool)
    requires Carried(c.profile, j) && Distinct(j) && Fits(c, j, 0, 0)
    ensures var r := ReadText(c, Output(Sorted(Normalized(j)), style, newline));
            r.Parsed? && Canonical(r.tree, newline') == Canonical(j, newline')
  {
    hide ReadText, Output, Carried, Distinct, Fits, Sorted, Normalized, Tokens;
    CanonicalFits(c, j);
    PrintReadsBack(c, Sorted(Normalized(j)), style, newline);
  }

  // ----- member order does not matter

  /** Equal up to the order of object members. */
  ghost predicate SameTree(a: Json, b: Json)
    decreases a
  {
    match a
    case Array(items) =>
      b.Array? && |b.items| == |items| && forall k :: 0 <= k < |items| ==> SameTree(items[k], b.items[k])
    case Object(ms) =>
      b.Object? && |b.members| == |ms|
      && (forall k :: 0 <= k < |ms| ==> HasPartner(ms, k, b.members))
      && (forall i :: 0 <= i < |ms| ==> IsPartner(ms, b.members, i))
    case _ => a == b
  }

  ghost predicate Paired(ms: seq<Member>, k: nat, vs: seq<Member>, i: nat)
    requires k < |ms| && i < |vs|
    decreases ms, 0
  {
    ms[k].key == vs[i].key && SameTree(ms[k].value, vs[i].value)
  }

  ghost predicate HasPartner(ms: seq<Member>, k: nat, vs: seq<Member>)
    requires k < |ms|
    decreases ms, 1
  {
    exists i :: 0 <= i < |vs| && Paired(ms, k, vs, i)
  }

  ghost predicate IsPartner(ms: seq<Member>, vs: seq<Member>, i: nat)
    requires i < |vs|
    decreases ms, 1
  {
    exists k :: 0 <= k < |ms| && Paired(ms, k, vs, i)
  }

  lemma {:induction false} SameTreeSorts(profile: Profile, a: Json, b: Json)
    requires SameTree(a, b) && Carried(profile, a) && Carried(profile, b) && Distinct(a) && Distinct(b)
    ensures Sorted(a) == Sorted(b)
    decreases a
  {
    hide SortMembers, Printable, KeysDistinct;
    match a {
      case Array(items) =>
        forall k | 0 <= k < |items| ensures Sorted(items[k]) == Sorted(b.items[k]) {
          SameTreeSorts(profile, items[k], b.items[k]);
        }
        assert Sorted(a).items == Sorted(b).items;
      case Object(ms) =>
        forall k, i | 0 <= k < |ms| && 0 <= i < |ms| && Paired(ms, k, b.members, i)
          ensures SortedValues(ms)[k] == SortedValues(b.members)[i]
        {
          SameTreeSorts(profile, ms[k].value, b.members[i].value);
        }
        SameObjects(profile, ms, b.members);
      case _ =>
    }
  }

  lemma SameObjects(profile: Profile, ms: seq<Member>, vs: seq<Member>)
    requires |ms| == |vs| && KeysDistinct(ms) && KeysDistinct(vs)
    requires forall k :: 0 <= k < |ms| ==> Printable(profile, ms[k].key) && Printable(profile, vs[k].key)
    requires forall k :: 0 <= k < |ms| ==> HasPartner(ms, k, vs)
    requires forall i :: 0 <= i < |vs| ==> IsPartner(ms, vs, i)
    requires forall k, i :: 0 <= k < |ms| && 0 <= i < |ms| && Paired(ms, k, vs, i) ==>
               SortedValues(ms)[k] == SortedValues(vs)[i]
    ensures Sorted(Object(ms)) == Sorted(Object(vs))
  {
    hide Sorted, SortMembers, Printable, KeysDistinct, Paired, SortedValues, InKeyOrder;
    var a, b := SortedValues(ms), SortedValues(vs);
    SortedObject(ms);
    SortedObject(vs);
    CarriedKeys(profile, ms);
    CarriedKeys(profile, vs);
    SameKeys(ms, a);
    SameKeys(vs, b);
    SortOrders(a);
    SortOrders(b);
    forall m ensures m in a <==> m in b {
      if m in a {
        var k :| 0 <= k < |a| && a[k] == m;
        assert HasPartner(ms, k, vs);
        var i :| 0 <= i < |vs| && Paired(ms, k, vs, i);
        assert b[i] == m;
      }
      if m in b {
        var i :| 0 <= i < |b| && b[i] == m;
        assert IsPartner(ms, vs, i);
        var k :| 0 <= k < |ms| && Paired(ms, k, vs, i);
        assert a[k] == m;
      }
    }
    OrderUnique(SortMembers(a), SortMembers(b));
  }

  lemma {:induction false} SameTreeNormalized(a: Json, b: Json)
    requires SameTree(a, b)
    ensures SameTree(Normalized(a), Normalized(b))
    decreases a
  {
    match a {
      case Array(items) =>
        forall k | 0 <= k < |items| ensures SameTree(Normalized(items[k]), Normalized(b.items[k])) {
          SameTreeNormalized(items[k], b.items[k]);
        }
      case Object(ms) =>
        var vs := b.members;
        var na, nb := Normalized(a).members, Normalized(b).members;
        forall k, i | 0 <= k < |ms| && 0 <= i < |ms| && Paired(ms, k, vs, i) ensures Paired(na, k, nb, i) {
          SameTreeNormalized(ms[k].value, vs[i].value);
        }
        PairedNormalized(ms, vs, na, nb);
      case _ =>
    }
  }

  lemma PairedNormalized(ms: seq<Member>, vs: seq<Member>, na: seq<Member>, nb: seq<Member>)
    requires |na| == |nb| == |ms| == |vs|
    requires forall k :: 0 <= k < |ms| ==> HasPartner(ms, k, vs)
    requires forall i :: 0 <= i < |vs| ==> IsPartner(ms, vs, i)
    requires forall k, i :: 0 <= k < |ms| && 0 <= i < |ms| && Paired(ms, k, vs, i) ==> Paired(na, k, nb, i)
    ensures forall k :: 0 <= k < |na| ==> HasPartner(na, k, nb)
    ensures forall i :: 0 <= i < |nb| ==> IsPartner(na, nb, i)
  {
    hide Paired;
    forall k | 0 <= k < |na| ensures HasPartner(na, k, nb) {
      assert HasPartner(ms, k, vs);
      var i :| 0 <= i < |vs| && Paired(ms, k, vs, i);
      assert Paired(na, k, nb, i);
    }
    forall i | 0 <= i < |nb| ensures IsPartner(na, nb, i) {
      assert IsPartner(ms, vs, i);
      var k :| 0 <= k < |ms| && Paired(ms, k, vs, i);
      assert Paired(na, k, nb, i);
    }
  }

  /** Canonical bytes depend only on the tree up to member order. */
  lemma CanonicalIgnoresOrder(profile: Profile, a: Json, b: Json, newline: bool)
    requires SameTree(a, b) && Carried(profile, a) && Carried(profile, b) && Distinct(a) && Distinct(b)
    ensures Canonical(a, newline) == Canonical(b, newline)
  {
    hide Carried, Distinct, SameTree, Normalized, Sorted, Output;
    SameTreeNormalized(a, b);
    NormalizedCarried(profile, a);
    NormalizedCarried(profile, b);
    NormalizedDistinct(a);
    NormalizedDistinct(b);
    SameTreeSorts(profile, Normalized(a), Normalized(b));
  }
}
