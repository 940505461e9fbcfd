/** The reader against the grammar: acceptance, uniqueness of the tree, and the size of token tables. */
module Grammar {
  import opened Basics
  import opened StringLiteral
  import opened Numeral
  import opened Trees
  import opened Reader
  import opened Acceptance

  /** `b` is a JSON text for `j`: whitespace, one value, whitespace. */
  ghost predicate Denotes(profile: Profile, b: Bytes, j: Json) {
    exists lead, s, trail :: IsTextOf(profile, b, lead, s, trail) && Tree(s) == j
  }

  predicate IsTextOf(profile: Profile, b: Bytes, lead: Bytes, s: Syntax, trail: Bytes) {
    Blank(lead) && SyntaxOk(profile, s) && Blank(trail) && b == lead + (Spelling(s) + trail)
  }

  lemma TextComplete(c: Config, b: Bytes, lead: Bytes, s: Syntax, trail: Bytes)
    requires IsTextOf(c.profile, b, lead, s, trail) && Fits(c, Tree(s), 0, 0)
    ensures ReadText(c, b) == Parsed(Tree(s), |b|, Tokens(Tree(s)))
  {
    hide Occurs, Spelling, SyntaxOk, Skip, Fits, ValueAt;
    TextParts(b, lead, s, trail);
    var p1 := |lead|;
    var p2 := p1 + |Spelling(s)|;
    SpellingBegins(c.profile, s);
    OccursAt(b, p1, Spelling(s), 0);
    SkipsBlank(b, 0, lead);
    SkipsBlank(b, p2, trail);
    if trail != [] {
      OccursAt(b, p2, trail, 0);
    }
    ValueComplete(c, b, p1, 0, 0, s);
    ValueSkips(c, b, 0, 0, 0);
  }

  lemma TextParts(b: Bytes, lead: Bytes, s: Syntax, trail: Bytes)
    requires b == lead + (Spelling(s) + trail)
    ensures Occurs(b, 0, lead) && Occurs(b, |lead|, Spelling(s)) && Occurs(b, |lead| + |Spelling(s)|, trail)
  {
    hide Spelling;
  }

  lemma TextSound(c: Config, b: Bytes) returns (lead: Bytes, s: Syntax, trail: Bytes)
    requires ReadText(c, b).Parsed?
    ensures IsTextOf(c.profile, b, lead, s, trail) && Tree(s) == ReadText(c, b).tree
    ensures Fits(c, Tree(s), 0, 0)
    ensures ReadText(c, b).used == Tokens(Tree(s))
  {
    hide Skip, ValueAt, SyntaxOk, Fits, Tree, Spelling;
    var r := ValueAt(c, b, 0, 0, 0);
    s := ValueSound(c, b, 0, 0, 0);
    var p := Skip(b, 0);
    lead, trail := b[0..p], b[r.pos..];
    SkippedIsBlank(b, 0);
    SkippedIsBlank(b, r.pos);
    Slices(b, 0, p, r.pos, r.pos, |b|);
    assert b[r.pos..r.pos] == [] && b[0..|b|] == b && b[r.pos..|b|] == b[r.pos..];
    assert [] + b[r.pos..|b|] == b[r.pos..|b|];
  }

  /** The reader accepts `b` as `j` exactly when the grammar derives it and the limits admit it. */
  lemma AcceptsExactly(c: Config, b: Bytes, j: Json)
    ensures ReadText(c, b).Parsed? && ReadText(c, b).tree == j <==>
            Denotes(c.profile, b, j) && Fits(c, j, 0, 0)
  {
    hide ReadText, IsTextOf, Fits, Tree;
    if ReadText(c, b).Parsed? {
      var lead, s, trail := TextSound(c, b);
    }
    if Denotes(c.profile, b, j) && Fits(c, j, 0, 0) {
      var lead, s, trail :| IsTextOf(c.profile, b, lead, s, trail) && Tree(s) == j;
      TextComplete(c, b, lead, s, trail);
    }
  }

  // ----- the derivation tree is unique

  lemma RelaxChar(profile: Profile, ch: Char)
    requires CharOk(profile, ch)
    ensures CharOk(LastWins, ch)
  {
  }

  lemma RelaxChars(profile: Profile, cs: seq<Char>)
    requires CharsOk(profile, cs)
    ensures CharsOk(LastWins, cs)
  {
    forall k | 0 <= k < |cs| ensures CharOk(LastWins, cs[k]) {
      RelaxChar(profile, cs[k]);
    }
  }

  lemma {:induction false} Relax(profile: Profile, s: Syntax)
    requires SyntaxOk(profile, s)
    ensures SyntaxOk(LastWins, s)
  {
    hide IsNumber, CharsOk;
    match s {
      case Quote(chars) => RelaxChars(profile, chars);
      case List(_, items) =>
        forall k | 0 <= k < |items| ensures ItemOk(LastWins, items[k]) {
          Relax(profile, items[k].value);
        }
      case Record(_, pairs) =>
        forall k | 0 <= k < |pairs| ensures CharsOk(LastWins, pairs[k].key) && ItemOk(LastWins, pairs[k].item) {
          RelaxChars(profile, pairs[k].key);
          Relax(profile, pairs[k].item.value);
        }
      case _ =>
    }
  }

  lemma {:induction false} ItemTokensCover(items: seq<Json>, k: nat, i: nat)
    requires k <= i < |items|
    ensures Tokens(items[i]) <= ItemTokens(items, k)
    decreases i - k
  {
    hide Tokens;
    if k < i {
      ItemTokensCover(items, k + 1, i);
    }
  }

  lemma {:induction false} MemberTokensCover(ms: seq<Member>, k: nat, i: nat)
    requires k <= i < |ms|
    ensures Tokens(ms[i].value) <= MemberTokens(ms, k)
    decreases i - k
  {
    hide Tokens;
    if k < i {
      MemberTokensCover(ms, k + 1, i);
    }
  }

  /** A tree never nests deeper than it has tokens. */
  lemma {:induction false} NestsWithinTokens(j: Json, room: int)
    requires room >= Tokens(j)
    ensures Nests(j, room)
    decreases j
  {
    match j {
      case Array(items) =>
        forall k | 0 <= k < |items| ensures Nests(items[k], room - 1) {
          ItemTokensCover(items, 0, k);
          NestsWithinTokens(items[k], room - 1);
        }
      case Object(ms) =>
        forall k | 0 <= k < |ms| ensures Nests(ms[k].value, room - 1) {
          MemberTokensCover(ms, 0, k);
          NestsWithinTokens(ms[k].value, room - 1);
        }
      case _ =>
    }
  }

  /** A text denotes at most one tree, repeated keys included. */
  lemma UniqueTree(profile: Profile, b: Bytes, j1: Json, j2: Json)
    requires Denotes(profile, b, j1) && Denotes(profile, b, j2)
    ensures j1 == j2
  {
    hide SyntaxOk, Spelling, Tree, ReadText;
    var n := Tokens(j1) + Tokens(j2);
    var c := Config(LastWins, n, n);
    var lead1, s1, trail1 :| IsTextOf(profile, b, lead1, s1, trail1) && Tree(s1) == j1;
    var lead2, s2, trail2 :| IsTextOf(profile, b, lead2, s2, trail2) && Tree(s2) == j2;
    Relax(profile, s1);
    Relax(profile, s2);
    NestsWithinTokens(j1, n);
    NestsWithinTokens(j2, n);
    TextComplete(c, b, lead1, s1, trail1);
    TextComplete(c, b, lead2, s2, trail2);
  }

  // ----- every token spans at least one byte

  lemma {:induction false} ItemsSpan(items: seq<Item>, trees: seq<Json>, k: nat)
    requires k < |items| == |trees|
    requires forall i :: k <= i < |items| ==>
               trees[i] == Tree(items[i].value) && Tokens(trees[i]) <= |Spelling(items[i].value)|
    ensures ItemTokens(trees, k) < |ItemsFrom(items, k)|
    decreases |items| - k
  {
    hide Spelling, Tree, Tokens;
    if k + 1 < |items| {
      ItemsSpan(items, trees, k + 1);
    } else {
      assert ItemTokens(trees, k + 1) == 0;
    }
  }

  lemma {:induction false} PairsSpan(pairs: seq<Pair>, ms: seq<Member>, k: nat)
    requires k < |pairs| == |ms|
    requires forall i :: k <= i < |pairs| ==>
               ms[i].value == Tree(pairs[i].item.value) && Tokens(ms[i].value) <= |Spelling(pairs[i].item.value)|
    ensures MemberTokens(ms, k) < |PairsFrom(pairs, k)|
    decreases |pairs| - k
  {
    hide Spelling, Tree, Tokens, SpellText;
    SpellTextSize(pairs[k].key);
    if k + 1 < |pairs| {
      PairsSpan(pairs, ms, k + 1);
    } else {
      assert MemberTokens(ms, k + 1) == 0;
    }
  }

  lemma {:induction false} TokensSpanBytes(profile: Profile, s: Syntax)
    requires SyntaxOk(profile, s)
    ensures Tokens(Tree(s)) <= |Spelling(s)|
    decreases s
  {
    hide IsNumber, CharsOk, ItemsFrom, PairsFrom, ItemTokens, MemberTokens, SpellAll, Meaning;
    NoTokens();
    match s {
      case Numeral(lexeme) => NumberBegins(lexeme);
      case List(_, items) =>
        forall k | 0 <= k < |items| ensures Tokens(Tree(items[k].value)) <= |Spelling(items[k].value)| {
          TokensSpanBytes(profile, items[k].value);
        }
        if items != [] {
          ItemsSpan(items, Tree(s).items, 0);
        } else {
          assert Tree(s).items == [];
        }
      case Record(_, pairs) =>
        forall k | 0 <= k < |pairs| ensures Tokens(Tree(pairs[k].item.value)) <= |Spelling(pairs[k].item.value)| {
          TokensSpanBytes(profile, pairs[k].item.value);
        }
        if pairs != [] {
          PairsSpan(pairs, Tree(s).members, 0);
        } else {
          assert Tree(s).members == [];
        }
      case _ =>
    }
  }

  /** The token capacity a parse allocates for `size` bytes. */
  function CapacityFor(size: nat, maximumTokens: nat): (n: nat)
    ensures n >= 1
  {
    var tokens := if size < maximumTokens then size else maximumTokens;
    if tokens == 0 then 1 else tokens
  }

  /** Bounding the capacity by the input size refuses nothing: only maximum_tokens decides. */
  lemma CapacityIsExact(profile: Profile, depth: nat, maximumTokens: nat, b: Bytes, j: Json)
    requires maximumTokens > 0 && Denotes(profile, b, j)
    ensures Fits(Config(profile, depth, CapacityFor(|b|, maximumTokens)), j, 0, 0) <==>
            Fits(Config(profile, depth, maximumTokens), j, 0, 0)
  {
    hide SyntaxOk, Spelling, Tree, Tokens, Nests, Distinct;
    var lead, s, trail :| IsTextOf(profile, b, lead, s, trail) && Tree(s) == j;
    TokensSpanBytes(profile, s);
  }

  // ----- what the limits measure

  /** How many containers the deepest value of the tree lies in, itself included. */
  function Height(j: Json): nat
    decreases j, 0
  {
    match j
    case Array(items) => 1 + ItemsHeight(items, |items|)
    case Object(ms) => 1 + MembersHeight(ms, |ms|)
    case _ => 0
  }

  function ItemsHeight(items: seq<Json>, n: nat): nat
    requires n <= |items|
    decreases items, n
  {
    if n == 0 then 0
    else
      var before, last := ItemsHeight(items, n - 1), Height(items[n - 1]);
      if before > last then before else last
  }

  function MembersHeight(ms: seq<Member>, n: nat): nat
    requires n <= |ms|
    decreases ms, n
  {
    if n == 0 then 0
    else
      var before, last := MembersHeight(ms, n - 1), Height(ms[n - 1].value);
      if before > last then before else last
  }

  /** The nesting limit bounds the height, neither more nor less. */
  lemma {:induction false} NestsIsHeight(j: Json, room: int)
    ensures Nests(j, room) <==> Height(j) <= room || (room < 0 && Height(j) == 0)
    decreases j, 0
  {
    hide ItemsHeight, MembersHeight;
    match j {
      case Array(items) => ItemsNest(items, |items|, room - 1);
      case Object(ms) => MembersNest(ms, |ms|, room - 1);
      case _ =>
    }
  }

  lemma {:induction false} ItemsNest(items: seq<Json>, n: nat, room: int)
    requires n <= |items|
    ensures room >= 0 ==> ((forall k :: 0 <= k < n ==> Nests(items[k], room)) <==> ItemsHeight(items, n) <= room)
    decreases items, n
  {
    hide Nests, Height;
    if n > 0 {
      ItemsNest(items, n - 1, room);
      NestsIsHeight(items[n - 1], room);
    }
  }

  lemma {:induction false} MembersNest(ms: seq<Member>, n: nat, room: int)
    requires n <= |ms|
    ensures room >= 0 ==> ((forall k :: 0 <= k < n ==> Nests(ms[k].value, room)) <==> MembersHeight(ms, n) <= room)
    decreases ms, n
  {
    hide Nests, Height;
    if n > 0 {
      MembersNest(ms, n - 1, room);
      NestsIsHeight(ms[n - 1].value, room);
    }
  }

  /** Values of the tree and keys of its objects, counted one by one. */
  function Entries(j: Json): nat
    decreases j, 0
  {
    match j
    case Array(items) => 1 + ItemEntries(items, |items|)
    case Object(ms) => 1 + |ms| + MemberEntries(ms, |ms|)
    case _ => 1
  }

  function ItemEntries(items: seq<Json>, n: nat): nat
    requires n <= |items|
    decreases items, n
  {
    if n == 0 then 0 else ItemEntries(items, n - 1) + Entries(items[n - 1])
  }

  function MemberEntries(ms: seq<Member>, n: nat): nat
    requires n <= |ms|
    decreases ms, n
  {
    if n == 0 then 0 else MemberEntries(ms, n - 1) + Entries(ms[n - 1].value)
  }

  /** The token charge is one for each value and one for each key. */
  lemma {:induction false} TokensAreEntries(j: Json)
    ensures Tokens(j) == Entries(j)
    decreases j, 0
  {
    hide ItemEntries, MemberEntries, ItemTokens, MemberTokens;
    match j {
      case Array(items) =>
        ItemTokensAreEntries(items, |items|);
        NoTokensLeft(items, []);
      case Object(ms) =>
        MemberTokensAreEntries(ms, |ms|);
        NoTokensLeft([], ms);
      case _ =>
    }
  }

  lemma NoTokensLeft(items: seq<Json>, ms: seq<Member>)
    ensures ItemTokens(items, |items|) == MemberTokens(ms, |ms|) == 0
  {
  }

  lemma {:induction false} ItemTokensAreEntries(items: seq<Json>, n: nat)
    requires n <= |items|
    ensures ItemEntries(items, n) + ItemTokens(items, n) == ItemTokens(items, 0)
    decreases items, n
  {
    hide Tokens, Entries;
    if n > 0 {
      ItemTokensAreEntries(items, n - 1);
      TokensAreEntries(items[n - 1]);
    }
  }

  lemma {:induction false} MemberTokensAreEntries(ms: seq<Member>, n: nat)
    requires n <= |ms|
    ensures MemberEntries(ms, n) + n + MemberTokens(ms, n) == MemberTokens(ms, 0)
    decreases ms, n
  {
    hide Tokens, Entries;
    if n > 0 {
      MemberTokensAreEntries(ms, n - 1);
      TokensAreEntries(ms[n - 1].value);
    }
  }

  /** Acceptance spelled out: derived by the grammar, no higher than the depth, no more entries than tokens. */
  lemma AcceptsWithin(c: Config, b: Bytes, j: Json)
    ensures ReadText(c, b).Parsed? && ReadText(c, b).tree == j <==>
            && Denotes(c.profile, b, j) && Height(j) <= c.depth && Entries(j) <= c.capacity
            && (!c.profile.LastWins? ==> Distinct(j))
  {
    hide ReadText, Denotes, Nests, Height, Tokens, Entries, Distinct;
    AcceptsExactly(c, b, j);
    NestsIsHeight(j, c.depth);
    TokensAreEntries(j);
  }
}
