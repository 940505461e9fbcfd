/** The canonical form is never longer than any source of the same tree. */
module CanonicalSize {
  import opened Basics
  import opened Utf8
  import opened StringLiteral
  import opened TextEscape
  import opened Numeral
  import opened Trees
  import opened Reader
  import opened Acceptance
  import opened Grammar
  import opened Printer
  import opened Order
  import opened LastWinsTree
  import opened CanonicalForm

  // ----- strings

  function EscapedSize(t: Bytes): nat {
    if t == [] then 0 else |CanonicalEscape(t[0])| + EscapedSize(t[1..])
  }

  lemma {:induction false} EscapedSizeAppend(a: Bytes, b: Bytes)
    ensures EscapedSize(a + b) == EscapedSize(a) + EscapedSize(b)
  {
    hide CanonicalEscape;
    if a == [] {
      assert a + b == b;
    } else {
      EscapedSizeAppend(a[1..], b);
      assert (a + b)[1..] == a[1..] + b;
    }
  }

  lemma {:induction false} EscapeIsSized(t: Bytes, i: nat)
    requires i <= |t|
    ensures |EscapeFrom(t, i, false)| == EscapedSize(t[i..])
    decreases |t| - i
  {
    hide CanonicalEscape;
    if i < |t| {
      EscapeIsSized(t, i + 1);
      assert t[i..][1..] == t[i + 1..];
    }
  }

  lemma {:induction false} HighBytesKeepSize(t: Bytes)
    requires forall k :: 0 <= k < |t| ==> t[k] >= 0x80
    ensures EscapedSize(t) == |t|
  {
    if t != [] {
      HighBytesKeepSize(t[1..]);
    }
  }

  lemma HighEncoding(p: Scalar)
    requires p > 0x7F
    ensures forall k :: 0 <= k < |Encode(p)| ==> Encode(p)[k] >= 0x80
    ensures p < 0x10000 ==> |Encode(p)| <= 3
  {
  }

  lemma LowSize(b: Byte)
    requires b <= 0x7F
    ensures EscapedSize([b]) == |CanonicalEscape(b)|
    ensures b >= 0x20 && b != QUOTE && b != BACKSLASH ==> |CanonicalEscape(b)| == 1
  {
    assert [b][1..] == [];
  }

  lemma ShortSize(letter: Byte)
    requires ShortMeaning(letter) != 0
    ensures |CanonicalEscape(ShortMeaning(letter))| <= 2
  {
  }

  /** The canonical spelling of one character is never longer than the source's. */
  lemma CharShrinks(profile: Profile, c: Char)
    requires CharOk(profile, c)
    ensures EscapedSize(Encode(Point(c))) <= |Spell(c)|
  {
    hide EscapedSize, CanonicalEscape, Hex4, Joined;
    var p := Point(c);
    if p > 0x7F {
      HighEncoding(p);
      HighBytesKeepSize(Encode(p));
      hide Encode;
    } else {
      assert Encode(p) == [p];
      LowSize(p);
      if c.Short? {
        ShortSize(c.letter);
      }
    }
  }

  lemma {:induction false} CharsShrink(profile: Profile, cs: seq<Char>)
    requires CharsOk(profile, cs)
    ensures EscapedSize(Meaning(cs)) <= |SpellAll(cs)|
  {
    hide EscapedSize, Point, Spell, Encode, CharOk;
    if cs == [] {
      EmptySize();
    } else {
      CharsShrink(profile, cs[1..]);
      CharShrinks(profile, cs[0]);
      EscapedSizeAppend(Encode(Point(cs[0])), Meaning(cs[1..]));
      assert Points(cs)[1..] == Points(cs[1..]);
    }
  }

  lemma EmptySize()
    ensures EscapedSize([]) == 0
  {
  }

  lemma QuotedShrinks(profile: Profile, cs: seq<Char>)
    requires CharsOk(profile, cs)
    ensures |Quoted(Meaning(cs), false)| <= |SpellText(cs)|
  {
    hide EscapeFrom, SpellAll, Meaning, CharsOk, EscapedSize;
    CharsShrink(profile, cs);
    EscapeIsSized(Meaning(cs), 0);
    assert Meaning(cs)[0..] == Meaning(cs);
  }

  // ----- trees

  function CompactSize(j: Json): nat
    decreases j, 0
  {
    match j
    case Number(lexeme) => |lexeme|
    case Text(t) => |Quoted(t, false)|
    case Array(items) => 1 + if items == [] then 1 else ItemSizes(items, 0)
    case Object(ms) => 1 + if ms == [] then 1 else MemberSizes(ms, 0)
    case _ => |WordBytes(j)|
  }

  function ItemSizes(items: seq<Json>, k: nat): nat
    decreases items, |items| - k
  {
    if k >= |items| then 0 else CompactSize(items[k]) + 1 + ItemSizes(items, k + 1)
  }

  function MemberSizes(ms: seq<Member>, k: nat): nat
    decreases ms, |ms| - k
  {
    if k >= |ms| then 0 else |Quoted(ms[k].key, false)| + CompactSize(ms[k].value) + 2 + MemberSizes(ms, k + 1)
  }

  lemma {:induction false} PrintIsSized(j: Json, level: nat)
    ensures |Print(j, COMPACT, level)| == CompactSize(j)
    decreases j, 0
  {
    hide PrintItems, PrintMembers, ItemSizes, MemberSizes;
    match j {
      case Array(items) => if items != [] { ItemsSized(items, 0, level); }
      case Object(ms) => if ms != [] { MembersSized(ms, 0, level); }
      case _ =>
    }
  }

  lemma {:induction false} ItemsSized(items: seq<Json>, k: nat, level: nat)
    requires k < |items|
    ensures |PrintItems(items, k, COMPACT, level)| == ItemSizes(items, k)
    decreases items, |items| - k
  {
    hide Print, CompactSize;
    PrintIsSized(items[k], level + 1);
    if k + 1 < |items| {
      ItemsSized(items, k + 1, level);
    } else {
      assert ItemSizes(items, k + 1) == 0;
    }
  }

  lemma {:induction false} MembersSized(ms: seq<Member>, k: nat, level: nat)
    requires k < |ms|
    ensures |PrintMembers(ms, k, COMPACT, level)| == MemberSizes(ms, k)
    decreases ms, |ms| - k
  {
    hide Print, CompactSize, Quoted;
    PrintIsSized(ms[k].value, level + 1);
    if k + 1 < |ms| {
      MembersSized(ms, k + 1, level);
    } else {
      assert MemberSizes(ms, k + 1) == 0;
    }
  }

  // ----- sorting and normalizing do not lengthen

  lemma {:induction false} MemberSizesShift(m: Member, ms: seq<Member>, k: nat)
    ensures MemberSizes([m] + ms, k + 1) == MemberSizes(ms, k)
    decreases |ms| - k
  {
    hide CompactSize, Quoted;
    if k < |ms| {
      MemberSizesShift(m, ms, k + 1);
    }
  }

  lemma {:induction false} InsertSizes(m: Member, ms: seq<Member>)
    ensures MemberSizes(Insert(m, ms), 0) ==
            |Quoted(m.key, false)| + CompactSize(m.value) + 2 + MemberSizes(ms, 0)
    decreases |ms|
  {
    hide CompactSize, Quoted, Utf16.KeyCompare;
    MemberSizesShift(m, ms, 0);
    if ms != [] {
      InsertSizes(m, ms[1..]);
      MemberSizesShift(ms[0], Insert(m, ms[1..]), 0);
      MemberSizesShift(ms[0], ms[1..], 0);
      assert [ms[0]] + ms[1..] == ms;
    }
  }

  lemma {:induction false} SortSizes(ms: seq<Member>)
    ensures MemberSizes(SortMembers(ms), 0) == MemberSizes(ms, 0)
    decreases |ms|
  {
    hide CompactSize, Quoted, Insert;
    if ms != [] {
      SortSizes(ms[1..]);
      InsertSizes(ms[0], SortMembers(ms[1..]));
      MemberSizesShift(ms[0], ms[1..], 0);
      assert [ms[0]] + ms[1..] == ms;
    }
  }

  lemma {:induction false} ItemSizesBound(a: seq<Json>, b: seq<Json>, k: nat)
    requires |a| == |b| && forall i :: k <= i < |a| ==> CompactSize(a[i]) <= CompactSize(b[i])
    ensures ItemSizes(a, k) <= ItemSizes(b, k)
    decreases |a| - k
  {
    hide CompactSize;
    if k < |a| {
      ItemSizesBound(a, b, k + 1);
    }
  }

  lemma {:induction false} MemberSizesBound(a: seq<Member>, b: seq<Member>, k: nat)
    requires |a| == |b|
    requires forall i :: k <= i < |a| ==> a[i].key == b[i].key && CompactSize(a[i].value) <= CompactSize(b[i].value)
    ensures MemberSizes(a, k) <= MemberSizes(b, k)
    decreases |a| - k
  {
    hide CompactSize, Quoted;
    if k < |a| {
      MemberSizesBound(a, b, k + 1);
    }
  }

  lemma {:induction false} SortedSize(j: Json)
    ensures CompactSize(Sorted(j)) <= CompactSize(j)
    decreases j
  {
    hide ItemSizes, MemberSizes, SortMembers;
    match j {
      case Array(items) =>
        forall k | 0 <= k < |items| ensures CompactSize(Sorted(items[k])) <= CompactSize(items[k]) {
          SortedSize(items[k]);
        }
        ItemSizesBound(Sorted(j).items, items, 0);
      case Object(ms) =>
        forall k | 0 <= k < |ms| ensures CompactSize(Sorted(ms[k].value)) <= CompactSize(ms[k].value) {
          SortedSize(ms[k].value);
        }
        SortedObject(ms);
        MemberSizesBound(SortedValues(ms), ms, 0);
        SortSizes(SortedValues(ms));
      case _ =>
    }
  }

  lemma {:induction false} NormalizedSize(j: Json)
    ensures CompactSize(Normalized(j)) <= CompactSize(j)
    decreases j
  {
    hide ItemSizes, MemberSizes;
    match j {
      case Array(items) =>
        forall k | 0 <= k < |items| ensures CompactSize(Normalized(items[k])) <= CompactSize(items[k]) {
          NormalizedSize(items[k]);
        }
        ItemSizesBound(Normalized(j).items, items, 0);
      case Object(ms) =>
        forall k | 0 <= k < |ms| ensures CompactSize(Normalized(ms[k].value)) <= CompactSize(ms[k].value) {
          NormalizedSize(ms[k].value);
        }
        MemberSizesBound(Normalized(j).members, ms, 0);
      case _ =>
    }
  }

  // ----- against the source

  lemma {:induction false} ItemsCompact(items: seq<Item>, trees: seq<Json>, k: nat)
    requires k < |items| == |trees|
    requires forall i :: k <= i < |items| ==> CompactSize(trees[i]) <= |Spelling(items[i].value)|
    ensures ItemSizes(trees, k) <= |ItemsFrom(items, k)|
    decreases |items| - k
  {
    hide Spelling, CompactSize;
    if k + 1 < |items| {
      ItemsCompact(items, trees, k + 1);
    } else {
      assert ItemSizes(trees, k + 1) == 0;
    }
  }

  lemma {:induction false} PairsCompact(profile: Profile, pairs: seq<Pair>, ms: seq<Member>, k: nat)
    requires k < |pairs| == |ms|
    requires forall i :: k <= i < |pairs| ==> CharsOk(profile, pairs[i].key) && ms[i].key == Meaning(pairs[i].key)
    requires forall i :: k <= i < |pairs| ==> CompactSize(ms[i].value) <= |Spelling(pairs[i].item.value)|
    ensures MemberSizes(ms, k) <= |PairsFrom(pairs, k)|
    decreases |pairs| - k
  {
    hide Spelling, CompactSize, Quoted, SpellText, Meaning, CharsOk;
    QuotedShrinks(profile, pairs[k].key);
    if k + 1 < |pairs| {
      PairsCompact(profile, pairs, ms, k + 1);
    } else {
      assert MemberSizes(ms, k + 1) == 0;
    }
  }

  lemma {:induction false} SourceIsLonger(profile: Profile, s: Syntax)
    requires SyntaxOk(profile, s)
    ensures CompactSize(Tree(s)) <= |Spelling(s)|
    decreases s
  {
    hide IsNumber, CharsOk, ItemsFrom, PairsFrom, ItemSizes, MemberSizes, SpellText, Meaning, Quoted;
    match s {
      case Quote(chars) => QuotedShrinks(profile, chars);
      case List(_, items) =>
        forall k | 0 <= k < |items| ensures CompactSize(Tree(items[k].value)) <= |Spelling(items[k].value)| {
          SourceIsLonger(profile, items[k].value);
        }
        if items != [] {
          ItemsCompact(items, Tree(s).items, 0);
        }
      case Record(_, pairs) =>
        forall k | 0 <= k < |pairs| ensures CompactSize(Tree(pairs[k].item.value)) <= |Spelling(pairs[k].item.value)| {
          SourceIsLonger(profile, pairs[k].item.value);
        }
        if pairs != [] {
          PairsCompact(profile, pairs, Tree(s).members, 0);
        }
      case _ =>
    }
  }

  /** The canonical form, final newline aside, is never longer than a source of the same tree. */
  lemma NeverLonger(profile: Profile, b: Bytes, j: Json)
    requires Denotes(profile, b, j)
    ensures |Canonical(j, false)| <= |b|
  {
    hide SyntaxOk, Spelling, Tree, CompactSize, Sorted, Normalized, Print;
    var lead, s, trail :| IsTextOf(profile, b, lead, s, trail) && Tree(s) == j;
    SourceIsLonger(profile, s);
    NormalizedSize(j);
    SortedSize(Normalized(j));
    PrintIsSized(Sorted(Normalized(j)), 0);
  }

  // ----- the streaming check, on trees

  /** The bytes a document must be made of for the streaming check to say yes. */
  ghost predicate Streams(b: Bytes, duplicates: int, j: Json, newline: bool) {
    duplicates == 0 && InOrder(j) && IntegersOnly(j) && b == Output(Normalized(j), COMPACT, newline)
  }

  /** Copy, sort, print, compare. */
  predicate Reference(b: Bytes, j: Json, newline: bool) {
    IntegersOnly(j) && b == Canonical(j, newline)
  }

  /** The streaming answer is the reference answer, for every text the reader accepts. */
  lemma StreamsIsReference(c: Config, b: Bytes, newline: bool)
    requires ReadText(c, b).Parsed?
    ensures var full := ReadText(c, b).tree;
            Streams(b, Duplicates(full), Prune(full), newline) <==> Reference(b, Prune(full), newline)
    ensures Reference(b, Prune(ReadText(c, b).tree), newline) ==> Duplicates(ReadText(c, b).tree) == 0
  {
    hide ReadText, Output, Carried, Distinct, Fits, Sorted, Normalized, IntegersOnly, InOrder, Prune, Duplicates;
    var full := ReadText(c, b).tree;
    var j := Prune(full);
    ParsedIsCarried(c, b);
    DuplicatesZero(full);
    if Streams(b, Duplicates(full), j, newline) {
      NormalizedInOrder(j);
      InOrderIsSorted(Normalized(j));
    }
    if Reference(b, j, newline) {
      PrunedFits(c, full);
      PruneIsDistinct(full);
      CanonicalFits(c, j);
      var n := Sorted(Normalized(j));
      PrintReadsBack(c, n, COMPACT, newline);
      assert full == n;
      PruneFixed(full);
      SortedInOrder(c.profile, Normalized(j));
    }
  }

  // ----- pruning keeps a tree within the limits

  lemma {:induction false} PrunedTokens(ms: seq<Member>, k: nat)
    requires forall i :: 0 <= i < |ms| ==> Tokens(Prune(ms[i].value)) <= Tokens(ms[i].value)
    ensures MemberTokens(PruneFrom(ms, k), 0) <= MemberTokens(ms, k)
    decreases |ms| - k
  {
    hide Prune, Tokens, Superseded;
    if k < |ms| {
      PrunedTokens(ms, k + 1);
      MemberTokensShift(Member(ms[k].key, Prune(ms[k].value)), PruneFrom(ms, k + 1), 0);
    }
  }

  lemma {:induction false} ItemTokensBound(a: seq<Json>, b: seq<Json>, k: nat)
    requires |a| == |b| && forall i :: k <= i < |a| ==> Tokens(a[i]) <= Tokens(b[i])
    ensures ItemTokens(a, k) <= ItemTokens(b, k)
    decreases |a| - k
  {
    hide Tokens;
    if k < |a| {
      ItemTokensBound(a, b, k + 1);
    }
  }

  lemma {:induction false} PrunedKeeps(profile: Profile, j: Json, room: int)
    requires Carried(profile, j) && Nests(j, room)
    ensures Carried(profile, Prune(j)) && Nests(Prune(j), room) && Tokens(Prune(j)) <= Tokens(j)
    decreases j
  {
    hide IsNumber, Printable, PruneFrom, ItemTokens, MemberTokens;
    match j {
      case Array(items) =>
        forall k | 0 <= k < |items|
          ensures Carried(profile, Prune(items[k])) && Nests(Prune(items[k]), room - 1)
          ensures Tokens(Prune(items[k])) <= Tokens(items[k])
        {
          PrunedKeeps(profile, items[k], room - 1);
        }
        ItemTokensBound(Prune(j).items, items, 0);
      case Object(ms) =>
        forall k | 0 <= k < |ms|
          ensures Carried(profile, Prune(ms[k].value)) && Nests(Prune(ms[k].value), room - 1)
          ensures Tokens(Prune(ms[k].value)) <= Tokens(ms[k].value)
        {
          PrunedKeeps(profile, ms[k].value, room - 1);
        }
        PrunedTokens(ms, 0);
        var vs := PruneFrom(ms, 0);
        forall k | 0 <= k < |vs|
          ensures Printable(profile, vs[k].key) && Carried(profile, vs[k].value) && Nests(vs[k].value, room - 1)
        {
          var i := PrunedFrom(ms, 0, k);
        }
      case _ =>
    }
  }

  lemma PrunedFits(c: Config, j: Json)
    requires Carried(c.profile, j) && Fits(c, j, 0, 0)
    ensures Carried(c.profile, Prune(j)) && Fits(c, Prune(j), 0, 0)
  {
    hide Carried, Nests, Tokens, Prune, Distinct;
    PrunedKeeps(c.profile, j, c.depth);
    PruneIsDistinct(j);
  }
}
