/** The reader accepts exactly the texts of RFC 8259 within its limits, and yields the tree they denote. */
module Acceptance {
  import opened Basics
  import opened StringLiteral
  import opened Numeral
  import opened Trees
  import opened Reader

  /** The limits a tree must fit, seen from nesting level `depth` with `used` tokens already charged. */
  predicate Fits(c: Config, j: Json, depth: nat, used: nat) {
    && Nests(j, c.depth - depth)
    && used + Tokens(j) <= c.capacity
    && (!c.profile.LastWins? ==> Distinct(j))
  }

  // ----- completeness

  lemma SkipsBlank(b: Bytes, pos: nat, ws: Bytes)
    requires Blank(ws) && Occurs(b, pos, ws)
    requires pos + |ws| < |b| ==> !IsSpace(b[pos + |ws|])
    ensures Skip(b, pos) == pos + |ws|
  {
    hide Occurs;
    OccursFits(b, pos, ws);
    var p := Skip(b, pos);
    if p < pos + |ws| {
      OccursAt(b, pos, ws, p - pos);
    }
  }

  lemma SkipIdle(b: Bytes, pos: nat)
    requires pos < |b| ==> !IsSpace(b[pos])
    ensures Skip(b, pos) == pos
  {
  }

  lemma StartIdle(b: Bytes, pos: nat)
    requires pos <= |b|
    ensures Skip(b, Skip(b, pos)) == Skip(b, pos)
  {
    SkipIdle(b, Skip(b, pos));
  }

  lemma ValueSkips(c: Config, b: Bytes, pos: nat, depth: nat, used: nat)
    requires pos <= |b|
    ensures ValueAt(c, b, pos, depth, used) == ValueAt(c, b, Skip(b, pos), depth, used)
  {
    SkipIdle(b, Skip(b, pos));
  }

  lemma DelimiterSkips(b: Bytes, pos: nat, closing: Byte)
    requires pos <= |b|
    ensures Delimiter(b, pos, closing) == Delimiter(b, Skip(b, pos), closing)
  {
    SkipIdle(b, Skip(b, pos));
  }

  predicate Begins(s: Syntax) {
    Spelling(s) != [] && !IsDelimiter(Spelling(s)[0])
  }

  lemma SpellingBegins(profile: Profile, s: Syntax)
    requires SyntaxOk(profile, s)
    ensures Begins(s)
  {
    match s {
      case Numeral(lexeme) => NumberBegins(lexeme);
      case _ =>
    }
  }

  lemma NumberBegins(lexeme: Bytes)
    requires IsNumber(lexeme)
    ensures lexeme != [] && (lexeme[0] == MINUS || IsDigit(lexeme[0]))
    ensures forall k :: 0 <= k < |lexeme| ==> !IsDelimiter(lexeme[k]) && lexeme[k] != QUOTE && lexeme[k] != COLON
  {
    var n := PartsOf(lexeme);
    hide IsNumber;
    PartsPlain(n);
  }

  lemma PartsPlain(n: Parts)
    requires PartsOk(n)
    ensures forall k :: 0 <= k < |SpellParts(n)| ==>
              var x := SpellParts(n)[k]; IsDigit(x) || x in {MINUS, PLUS, POINT, LOWER_E, UPPER_E}
    ensures SpellParts(n) != [] && (SpellParts(n)[0] == MINUS || IsDigit(SpellParts(n)[0]))
  {
  }

  /** A terminated value: what follows it is the end of the text or a delimiter. */
  predicate Terminated(b: Bytes, end: nat) {
    end < |b| ==> IsDelimiter(b[end])
  }

  lemma RunIs(b: Bytes, pos: nat, lexeme: Bytes)
    requires Occurs(b, pos, lexeme) && Terminated(b, pos + |lexeme|)
    requires forall k :: 0 <= k < |lexeme| ==> !IsDelimiter(lexeme[k])
    ensures RunEnd(b, pos) == pos + |lexeme|
  {
    var p := RunEnd(b, pos);
    if p < pos + |lexeme| {
      OccursAt(b, pos, lexeme, p - pos);
    }
  }

  lemma PrimitiveComplete(c: Config, b: Bytes, pos: nat, used: nat, lexeme: Bytes, value: Json)
    requires Occurs(b, pos, lexeme) && Terminated(b, pos + |lexeme|) && lexeme != [] && used < c.capacity
    requires forall k :: 0 <= k < |lexeme| ==> !IsDelimiter(lexeme[k])
    requires Primitive(lexeme) == Some(value)
    ensures PrimitiveAt(c, b, pos, used) == Parsed(value, pos + |lexeme|, used + 1)
  {
    hide Primitive;
    RunIs(b, pos, lexeme);
  }

  lemma WordPlain(value: Json)
    requires value.Null? || value.Boolean?
    ensures var w := WordBytes(value);
            && w != [] && Primitive(w) == Some(value)
            && w[0] !in {OPEN_BRACE, OPEN_BRACKET, QUOTE}
            && (forall k :: 0 <= k < |w| ==> !IsDelimiter(w[k]))
  {
    assert TRUE_WORD[0] != FALSE_WORD[0] && TRUE_WORD[0] != NULL_WORD[0] && FALSE_WORD[0] != NULL_WORD[0];
  }

  lemma NumberPlain(lexeme: Bytes)
    requires IsNumber(lexeme)
    ensures lexeme != [] && Primitive(lexeme) == Some(Number(lexeme))
    ensures lexeme[0] !in {OPEN_BRACE, OPEN_BRACKET, QUOTE}
    ensures forall k :: 0 <= k < |lexeme| ==> !IsDelimiter(lexeme[k])
  {
    hide IsNumber;
    NumberBegins(lexeme);
    assert TRUE_WORD[0] == 0x74 && FALSE_WORD[0] == 0x66 && NULL_WORD[0] == 0x6E;
  }

  lemma StringComplete(c: Config, b: Bytes, pos: nat, used: nat, chars: seq<Char>)
    requires CharsOk(c.profile, chars) && Occurs(b, pos, SpellText(chars)) && used < c.capacity
    ensures StringAt(c, b, pos, used) == Read(Meaning(chars), pos + 1 + |SpellAll(chars)|)
  {
    hide ScanBody, DecodeFrom, SpellAll, Meaning, CharsOk, Occurs, Decode;
    OccursSplit(b, pos, [QUOTE], SpellAll(chars) + [QUOTE]);
    OccursAt(b, pos, [QUOTE], 0);
    OccursFits(b, pos, [QUOTE]);
    LiteralComplete(c.profile, b, pos + 1, chars);
  }

  /** The value at `pos` reads as the tree of `s`. */
  ghost predicate Reads(c: Config, b: Bytes, pos: nat, depth: nat, used: nat, s: Syntax)
    requires pos <= |b|
  {
    ValueAt(c, b, pos, depth, used) == Parsed(Tree(s), pos + |Spelling(s)|, used + Tokens(Tree(s)))
  }

  lemma ScalarComplete(c: Config, b: Bytes, pos: nat, depth: nat, used: nat, s: Syntax)
    requires !s.List? && !s.Record? && SyntaxOk(c.profile, s) && Fits(c, Tree(s), depth, used)
    requires Occurs(b, pos, Spelling(s)) && Terminated(b, pos + |Spelling(s)|)
    ensures pos <= |b| && Reads(c, b, pos, depth, used, s)
  {
    hide Occurs, PrimitiveAt, StringAt, Primitive, IsNumber, Meaning, CharsOk, SpellAll;
    SpellingBegins(c.profile, s);
    OccursFits(b, pos, Spelling(s));
    OccursAt(b, pos, Spelling(s), 0);
    SkipIdle(b, pos);
    match s {
      case Word(value) =>
        WordPlain(value);
        PrimitiveComplete(c, b, pos, used, Spelling(s), value);
      case Numeral(lexeme) =>
        NumberPlain(lexeme);
        PrimitiveComplete(c, b, pos, used, lexeme, Number(lexeme));
      case Quote(chars) =>
        StringComplete(c, b, pos, used, chars);
    }
  }

  /** Where the parts of one element lie when `tail` (a comma or a closing delimiter first) follows it. */
  lemma ItemLayout(profile: Profile, b: Bytes, pos: nat, item: Item, tail: Bytes)
    requires ItemOk(profile, item) && tail != [] && IsDelimiter(tail[0]) && !IsSpace(tail[0])
    requires Occurs(b, pos, item.before + (Spelling(item.value) + (item.after + tail)))
    ensures var p1 := pos + |item.before|;
            var p2 := p1 + |Spelling(item.value)|;
            var p3 := p2 + |item.after|;
            && Skip(b, pos) == p1 && Occurs(b, p1, Spelling(item.value)) && Terminated(b, p2)
            && Skip(b, p2) == p3 < |b| && Occurs(b, p3, tail) && b[p3] == tail[0]
  {
    hide Occurs, Spelling, SyntaxOk;
    var p1 := pos + |item.before|;
    var p2 := p1 + |Spelling(item.value)|;
    var p3 := p2 + |item.after|;
    OccursSplit(b, pos, item.before, Spelling(item.value) + (item.after + tail));
    OccursSplit(b, p1, Spelling(item.value), item.after + tail);
    OccursSplit(b, p2, item.after, tail);
    OccursFits(b, p3, tail);
    OccursAt(b, p3, tail, 0);
    SpellingBegins(profile, item.value);
    OccursAt(b, p1, Spelling(item.value), 0);
    SkipsBlank(b, pos, item.before);
    SkipsBlank(b, p2, item.after);
    if item.after != [] {
      OccursAt(b, p2, item.after, 0);
    }
  }

  function ItemsTail(items: seq<Item>, k: nat): (tail: Bytes)
    requires k < |items|
    ensures tail != [] && IsDelimiter(tail[0]) && !IsSpace(tail[0])
  {
    if k + 1 < |items| then [COMMA] + ItemsFrom(items, k + 1) else [CLOSE_BRACKET]
  }

  function PairsTail(pairs: seq<Pair>, k: nat): (tail: Bytes)
    requires k < |pairs|
    ensures tail != [] && IsDelimiter(tail[0]) && !IsSpace(tail[0])
  {
    if k + 1 < |pairs| then [COMMA] + PairsFrom(pairs, k + 1) else [CLOSE_BRACE]
  }

  /** Position just after the comma or closing delimiter of an element that starts at `pos`. */
  function ItemNext(pos: nat, item: Item): nat {
    pos + |item.before| + |Spelling(item.value)| + |item.after| + 1
  }

  /** One turn of the array loop over an element that reads as its tree. */
  lemma ItemTurn(c: Config, b: Bytes, pos: nat, depth: nat, used: nat, items: seq<Item>, k: nat, done: seq<Json>)
    requires k < |items| && ItemOk(c.profile, items[k]) && Occurs(b, pos, ItemsFrom(items, k))
    requires pos + |items[k].before| <= |b| && Reads(c, b, pos + |items[k].before|, depth + 1, used, items[k].value)
    ensures var v := Tree(items[k].value);
            var next := ItemNext(pos, items[k]);
            && next <= |b| && pos <= |b|
            && ItemsAt(c, b, Skip(b, pos), depth, used, done) ==
               (if k + 1 < |items| then ItemsAt(c, b, Skip(b, next), depth, used + Tokens(v), done + [v])
                else Parsed(Array(done + [v]), next, used + Tokens(v)))
            && (k + 1 < |items| ==> Occurs(b, next, ItemsFrom(items, k + 1)))
  {
    hide Occurs, Spelling, ValueAt, Tree, Tokens, ItemOk, Skip, ItemsFrom;
    var item, tail := items[k], ItemsTail(items, k);
    ItemsUnfold(items, k);
    ItemLayout(c.profile, b, pos, item, tail);
    if k + 1 < |items| {
      OccursSplit(b, ItemNext(pos, item) - 1, [COMMA], ItemsFrom(items, k + 1));
    }
  }

  lemma ItemsUnfold(items: seq<Item>, k: nat)
    requires k < |items|
    ensures ItemsFrom(items, k) ==
            items[k].before + (Spelling(items[k].value) + (items[k].after + ItemsTail(items, k)))
  {
  }

  lemma {:induction false} ItemsComplete(c: Config, b: Bytes, pos: nat, depth: nat, used: nat,
                                         items: seq<Item>, trees: seq<Json>, k: nat)
    requires k < |items| == |trees| && Occurs(b, pos, ItemsFrom(items, k))
    requires forall i :: 0 <= i < |items| ==> ItemOk(c.profile, items[i]) && trees[i] == Tree(items[i].value)
    requires forall i :: 0 <= i < |trees| ==> Nests(trees[i], c.depth - depth - 1)
    requires forall i :: 0 <= i < |trees| ==> !c.profile.LastWins? ==> Distinct(trees[i])
    requires used + ItemTokens(trees, k) <= c.capacity
    ensures pos <= |b|
    ensures ItemsAt(c, b, Skip(b, pos), depth, used, trees[..k]) ==
            Parsed(Array(trees), pos + |ItemsFrom(items, k)|, used + ItemTokens(trees, k))
    decreases items, |items| - k
  {
    hide Spelling, ItemsAt, Tree, Tokens, Skip, ItemOk, Nests, Distinct, ValueAt, Occurs, ItemsFrom;
    var item, tail := items[k], ItemsTail(items, k);
    ItemsUnfold(items, k);
    ItemOkUnfold(c.profile, item);
    ItemLayout(c.profile, b, pos, item, tail);
    ValueComplete(c, b, pos + |item.before|, depth + 1, used, item.value);
    ItemTurn(c, b, pos, depth, used, items, k, trees[..k]);
    assert trees[..k] + [trees[k]] == trees[..k + 1];
    if k + 1 < |items| {
      ItemsComplete(c, b, ItemNext(pos, item), depth, used + Tokens(trees[k]), items, trees, k + 1);
    } else {
      assert trees[..k + 1] == trees;
    }
  }

  lemma ItemOkUnfold(profile: Profile, item: Item)
    requires ItemOk(profile, item)
    ensures SyntaxOk(profile, item.value) && Blank(item.before) && Blank(item.after)
  {
  }

  lemma ListComplete(c: Config, b: Bytes, pos: nat, depth: nat, used: nat, s: Syntax)
    requires s.List? && SyntaxOk(c.profile, s) && Fits(c, Tree(s), depth, used)
    requires Occurs(b, pos, Spelling(s))
    ensures pos <= |b| && Reads(c, b, pos, depth, used, s)
    decreases s, 0
  {
    hide Occurs, ItemsAt, Skip, ItemOk, Spelling, ItemsFrom, Fits, SyntaxOk, Tree, ItemTokens, Nests, Distinct;
    SpellingUnfold(s);
    ContainerFits(c, s, depth, used);
    var body := Spelling(s)[1..];
    OccursSplit(b, pos, [OPEN_BRACKET], body);
    OccursFits(b, pos, [OPEN_BRACKET]);
    OccursAt(b, pos, [OPEN_BRACKET], 0);
    SkipIdle(b, pos);
    var trees := Tree(s).items;
    assert trees[..0] == [] && (|trees| == 0 ==> trees == []);
    if s.items == [] {
      NoTokens();
      ClosesAtOnce(b, pos + 1, s.pad, CLOSE_BRACKET);
    } else {
      FirstItem(c.profile, b, pos + 1, s.items);
      ItemsComplete(c, b, pos + 1, depth, used + 1, s.items, trees, 0);
    }
  }

  lemma NoTokens()
    ensures ItemTokens([], 0) == MemberTokens([], 0) == 0
  {
  }

  /** An array that is not empty does not close at once. */
  lemma FirstItem(profile: Profile, b: Bytes, pos: nat, items: seq<Item>)
    requires items != [] && ItemOk(profile, items[0]) && Occurs(b, pos, ItemsFrom(items, 0))
    ensures Skip(b, pos) < |b| && b[Skip(b, pos)] != CLOSE_BRACKET
  {
    hide Occurs, Skip, Spelling, ItemsFrom, ItemOk;
    var item := items[0];
    ItemsUnfold(items, 0);
    ItemLayout(profile, b, pos, item, ItemsTail(items, 0));
    ItemOkUnfold(profile, item);
    SpellingBegins(profile, item.value);
    OccursAt(b, pos + |item.before|, Spelling(item.value), 0);
    OccursFits(b, pos + |item.before|, Spelling(item.value));
  }

  lemma FirstPair(profile: Profile, b: Bytes, pos: nat, pairs: seq<Pair>)
    requires pairs != [] && PairOk(profile, pairs[0]) && Occurs(b, pos, PairsFrom(pairs, 0))
    ensures Skip(b, pos) < |b| && b[Skip(b, pos)] == QUOTE
  {
    hide Occurs, Skip, PairsFrom, PairOk;
    PairsUnfold(pairs, 0);
    PairLayout(profile, b, pos, pairs[0], PairRest(pairs[0], PairsTail(pairs, 0)));
  }

  /** What fitting the limits means for the children of a container. */
  lemma ContainerFits(c: Config, s: Syntax, depth: nat, used: nat)
    requires s.List? || s.Record?
    requires SyntaxOk(c.profile, s) && Fits(c, Tree(s), depth, used)
    ensures depth < c.depth && used < c.capacity
    ensures s.List? ==>
              var trees := Tree(s).items;
              && |trees| == |s.items| && Tree(s) == Array(trees) && Blank(s.pad)
              && (forall i :: 0 <= i < |trees| ==> ItemOk(c.profile, s.items[i]) && trees[i] == Tree(s.items[i].value))
              && (forall i :: 0 <= i < |trees| ==> Nests(trees[i], c.depth - depth - 1))
              && (forall i :: 0 <= i < |trees| ==> !c.profile.LastWins? ==> Distinct(trees[i]))
              && Tokens(Tree(s)) == 1 + ItemTokens(trees, 0) && used + 1 + ItemTokens(trees, 0) <= c.capacity
    ensures s.Record? ==>
              var ms := Tree(s).members;
              && |ms| == |s.pairs| && Tree(s) == Object(ms) && Blank(s.pad)
              && (forall i :: 0 <= i < |ms| ==> PairOk(c.profile, s.pairs[i]) &&
                                                ms[i] == Member(Meaning(s.pairs[i].key), Tree(s.pairs[i].item.value)))
              && (forall i :: 0 <= i < |ms| ==> Nests(ms[i].value, c.depth - depth - 1))
              && (!c.profile.LastWins? ==> KeysDistinct(ms) && forall i :: 0 <= i < |ms| ==> Distinct(ms[i].value))
              && Tokens(Tree(s)) == 1 + MemberTokens(ms, 0) && used + 1 + MemberTokens(ms, 0) <= c.capacity
  {
    hide ItemOk, CharsOk, Meaning, ItemTokens, MemberTokens, KeysDistinct;
  }

  lemma SpellingUnfold(s: Syntax)
    requires s.List? || s.Record?
    ensures Spelling(s) != []
    ensures s.List? ==>
              && Spelling(s) == [OPEN_BRACKET] + Spelling(s)[1..]
              && Spelling(s)[1..] == if s.items == [] then s.pad + [CLOSE_BRACKET] else ItemsFrom(s.items, 0)
    ensures s.Record? ==>
              && Spelling(s) == [OPEN_BRACE] + Spelling(s)[1..]
              && Spelling(s)[1..] == if s.pairs == [] then s.pad + [CLOSE_BRACE] else PairsFrom(s.pairs, 0)
  {
  }

  lemma ClosesAtOnce(b: Bytes, pos: nat, pad: Bytes, closing: Byte)
    requires Blank(pad) && !IsSpace(closing) && Occurs(b, pos, pad + [closing])
    ensures Skip(b, pos) == pos + |pad| < |b| && b[pos + |pad|] == closing
  {
    hide Occurs, Skip;
    OccursSplit(b, pos, pad, [closing]);
    OccursFits(b, pos + |pad|, [closing]);
    OccursAt(b, pos + |pad|, [closing], 0);
    SkipsBlank(b, pos, pad);
  }

  // ----- objects

  function PairRest(p: Pair, tail: Bytes): Bytes {
    p.item.before + (Spelling(p.item.value) + (p.item.after + tail))
  }

  predicate PairOk(profile: Profile, p: Pair) {
    Blank(p.before) && CharsOk(profile, p.key) && Blank(p.middle) && ItemOk(profile, p.item)
  }

  lemma PairsUnfold(pairs: seq<Pair>, k: nat)
    requires k < |pairs|
    ensures var p := pairs[k];
            PairsFrom(pairs, k) ==
            p.before + (SpellText(p.key) + (p.middle + ([COLON] + PairRest(p, PairsTail(pairs, k)))))
  {
  }

  /** Where the key, the colon and the value of a member lie. */
  lemma PairLayout(profile: Profile, b: Bytes, pos: nat, p: Pair, rest: Bytes)
    requires PairOk(profile, p)
    requires Occurs(b, pos, p.before + (SpellText(p.key) + (p.middle + ([COLON] + rest))))
    ensures var p1 := pos + |p.before|;
            var p2 := p1 + |SpellText(p.key)|;
            var colon := p2 + |p.middle|;
            && Skip(b, pos) == p1 && p1 < |b| && b[p1] == QUOTE && Occurs(b, p1, SpellText(p.key))
            && Skip(b, p2) == colon < |b| && b[colon] == COLON
            && Occurs(b, colon + 1, rest)
  {
    hide Occurs, Skip, CharsOk, SpellAll, ItemOk;
    var p1 := pos + |p.before|;
    var p2 := p1 + |SpellText(p.key)|;
    var colon := p2 + |p.middle|;
    OccursSplit(b, pos, p.before, SpellText(p.key) + (p.middle + ([COLON] + rest)));
    OccursSplit(b, p1, SpellText(p.key), p.middle + ([COLON] + rest));
    OccursSplit(b, p2, p.middle, [COLON] + rest);
    OccursSplit(b, colon, [COLON], rest);
    OccursFits(b, colon, [COLON]);
    OccursAt(b, colon, [COLON], 0);
    OccursAt(b, p1, SpellText(p.key), 0);
    SkipsBlank(b, pos, p.before);
    SkipsBlank(b, p2, p.middle);
  }

  /** The key of a member reads, and its value is next. */
  lemma PairHead(c: Config, b: Bytes, pos: nat, depth: nat, used: nat, p: Pair, rest: Bytes, done: seq<Member>)
    requires PairOk(c.profile, p) && used < c.capacity
    requires Occurs(b, pos, p.before + (SpellText(p.key) + (p.middle + ([COLON] + rest))))
    requires !c.profile.LastWins? ==> !HasKey(done, Meaning(p.key))
    ensures var start := ValueStart(pos, p);
            && pos <= start <= |b| && Occurs(b, start, rest)
            && exists step: Step :: step.AtKey? && step.key == Meaning(p.key) &&
                 MembersAt(c, b, Skip(b, pos), depth, used, done) ==
                 MemberValueAt(c, b, start, depth, used + 1, done, step)
  {
    hide Occurs, ItemOk, Skip, StringAt, Meaning, SpellText, HasKey, CharsOk, MemberValueAt;
    PairLayout(c.profile, b, pos, p, rest);
    StringComplete(c, b, pos + |p.before|, used, p.key);
    SpellTextSize(p.key);
    var key := StringAt(c, b, Skip(b, pos), used);
    var step := AtKey(key.text, Skip(b, pos) + 1, key.end);
    assert MembersAt(c, b, Skip(b, pos), depth, used, done) ==
           MemberValueAt(c, b, ValueStart(pos, p), depth, used + 1, done, step);
  }

  /** Position just after the colon of a member that starts at `pos`. */
  function ValueStart(pos: nat, p: Pair): nat {
    pos + |p.before| + |SpellText(p.key)| + |p.middle| + 1
  }

  /** The value of a member reads, and the loop goes on or closes. */
  lemma PairTail(c: Config, b: Bytes, start: nat, depth: nat, used: nat, pairs: seq<Pair>, k: nat,
                 done: seq<Member>, step: Step)
    requires k < |pairs| && ItemOk(c.profile, pairs[k].item) && step.AtKey?
    requires start <= |b| && Occurs(b, start, PairRest(pairs[k], PairsTail(pairs, k)))
    requires start + |pairs[k].item.before| <= |b|
    requires Reads(c, b, start + |pairs[k].item.before|, depth + 1, used, pairs[k].item.value)
    ensures var v := Tree(pairs[k].item.value);
            var next := ItemNext(start, pairs[k].item);
            var members := done + [Member(step.key, v)];
            && next <= |b|
            && MemberValueAt(c, b, start, depth, used, done, step) ==
               (if k + 1 < |pairs| then MembersAt(c, b, Skip(b, next), depth, used + Tokens(v), members)
                else Parsed(Object(members), next, used + Tokens(v)))
            && (k + 1 < |pairs| ==> Occurs(b, next, PairsFrom(pairs, k + 1)))
  {
    hide Occurs, Spelling, ValueAt, Tree, Tokens, ItemOk, Skip, PairsFrom, MembersAt;
    var item, tail := pairs[k].item, PairsTail(pairs, k);
    ItemLayout(c.profile, b, start, item, tail);
    ValueSkips(c, b, start, depth + 1, used);
    if k + 1 < |pairs| {
      OccursSplit(b, ItemNext(start, item) - 1, [COMMA], PairsFrom(pairs, k + 1));
    }
  }

  lemma SpellTextSize(chars: seq<Char>)
    ensures |SpellText(chars)| == |SpellAll(chars)| + 2
  {
  }

  lemma FreshKey(ms: seq<Member>, k: nat)
    requires k < |ms| && KeysDistinct(ms)
    ensures !HasKey(ms[..k], ms[k].key)
  {
  }

  lemma {:induction false} PairsComplete(c: Config, b: Bytes, pos: nat, depth: nat, used: nat,
                                         pairs: seq<Pair>, ms: seq<Member>, k: nat)
    requires k < |pairs| == |ms| && Occurs(b, pos, PairsFrom(pairs, k))
    requires forall i :: 0 <= i < |pairs| ==> PairOk(c.profile, pairs[i])
    requires forall i :: 0 <= i < |pairs| ==> ms[i] == Member(Meaning(pairs[i].key), Tree(pairs[i].item.value))
    requires forall i :: 0 <= i < |ms| ==> Nests(ms[i].value, c.depth - depth - 1)
    requires !c.profile.LastWins? ==> KeysDistinct(ms) && forall i :: 0 <= i < |ms| ==> Distinct(ms[i].value)
    requires used + MemberTokens(ms, k) <= c.capacity
    ensures pos <= |b|
    ensures MembersAt(c, b, Skip(b, pos), depth, used, ms[..k]) ==
            Parsed(Object(ms), pos + |PairsFrom(pairs, k)|, used + MemberTokens(ms, k))
    decreases pairs, |pairs| - k
  {
    hide Spelling, MembersAt, MemberValueAt, Tree, Tokens, Skip, ItemOk, Nests, Distinct, ValueAt, Meaning, CharsOk,
      SpellText, StringAt, KeysDistinct, HasKey, Occurs, PairsFrom;
    var p, tail := pairs[k], PairsTail(pairs, k);
    PairsUnfold(pairs, k);
    ItemOkUnfold(c.profile, p.item);
    if !c.profile.LastWins? {
      FreshKey(ms, k);
    }
    PairHead(c, b, pos, depth, used, p, PairRest(p, tail), ms[..k]);
    var start := ValueStart(pos, p);
    var step: Step :| step.AtKey? && step.key == Meaning(p.key) &&
      MembersAt(c, b, Skip(b, pos), depth, used, ms[..k]) ==
      MemberValueAt(c, b, start, depth, used + 1, ms[..k], step);
    ItemLayout(c.profile, b, start, p.item, tail);
    ValueComplete(c, b, start + |p.item.before|, depth + 1, used + 1, p.item.value);
    PairTail(c, b, start, depth, used + 1, pairs, k, ms[..k], step);
    assert ms[..k] + [ms[k]] == ms[..k + 1];
    if k + 1 < |pairs| {
      PairsComplete(c, b, ItemNext(start, p.item), depth, used + 1 + Tokens(ms[k].value), pairs, ms, k + 1);
    } else {
      assert ms[..k + 1] == ms;
    }
  }

  lemma RecordComplete(c: Config, b: Bytes, pos: nat, depth: nat, used: nat, s: Syntax)
    requires s.Record? && SyntaxOk(c.profile, s) && Fits(c, Tree(s), depth, used)
    requires Occurs(b, pos, Spelling(s))
    ensures pos <= |b| && Reads(c, b, pos, depth, used, s)
    decreases s, 0
  {
    hide Occurs, MembersAt, Skip, PairOk, Spelling, PairsFrom, CharsOk, Meaning, Fits, SyntaxOk, Tree, MemberTokens,
      Nests, Distinct, KeysDistinct;
    SpellingUnfold(s);
    ContainerFits(c, s, depth, used);
    OccursSplit(b, pos, [OPEN_BRACE], Spelling(s)[1..]);
    OccursFits(b, pos, [OPEN_BRACE]);
    OccursAt(b, pos, [OPEN_BRACE], 0);
    SkipIdle(b, pos);
    var ms := Tree(s).members;
    assert ms[..0] == [] && (|ms| == 0 ==> ms == []);
    if s.pairs == [] {
      NoTokens();
      ClosesAtOnce(b, pos + 1, s.pad, CLOSE_BRACE);
    } else {
      FirstPair(c.profile, b, pos + 1, s.pairs);
      PairsComplete(c, b, pos + 1, depth, used + 1, s.pairs, ms, 0);
    }
  }

  lemma ValueComplete(c: Config, b: Bytes, pos: nat, depth: nat, used: nat, s: Syntax)
    requires SyntaxOk(c.profile, s) && Fits(c, Tree(s), depth, used)
    requires Occurs(b, pos, Spelling(s)) && Terminated(b, pos + |Spelling(s)|)
    ensures pos <= |b| && Reads(c, b, pos, depth, used, s)
    decreases s, 1
  {
    if s.List? {
      ListComplete(c, b, pos, depth, used, s);
    } else if s.Record? {
      RecordComplete(c, b, pos, depth, used, s);
    } else {
      ScalarComplete(c, b, pos, depth, used, s);
    }
  }

  // ----- soundness

  /** `s` is the syntax of what was read at `pos`, up to `r`. */
  ghost predicate Explains(c: Config, b: Bytes, pos: nat, depth: nat, used: nat, r: Parse, s: Syntax)
    requires r.Parsed?
  {
    && Skip(b, pos) <= r.pos <= |b|
    && SyntaxOk(c.profile, s)
    && Spelling(s) == b[Skip(b, pos)..r.pos]
    && Tree(s) == r.tree
    && Fits(c, r.tree, depth, used)
    && r.used == used + Tokens(r.tree)
  }

  lemma PrimitiveSound(c: Config, b: Bytes, pos: nat, depth: nat, used: nat) returns (s: Syntax)
    requires pos < |b| && !IsSpace(b[pos]) && PrimitiveAt(c, b, pos, used).Parsed?
    ensures Explains(c, b, pos, depth, used, PrimitiveAt(c, b, pos, used), s)
  {
    hide IsNumber, RunEnd;
    SkipIdle(b, pos);
    var lexeme := b[pos..RunEnd(b, pos)];
    var value := Primitive(lexeme).value;
    s := if value.Number? then Numeral(lexeme) else Word(value);
  }

  lemma StringSound(c: Config, b: Bytes, pos: nat, used: nat) returns (chars: seq<Char>)
    requires StringAt(c, b, pos, used).Read?
    ensures CharsOk(c.profile, chars)
    ensures var r := StringAt(c, b, pos, used);
            r.text == Meaning(chars) && SpellText(chars) == b[pos..r.end + 1]
  {
    hide ScanBody, Decode, SpellAll, Meaning, CharsOk;
    var end := StringAt(c, b, pos, used).end;
    chars := LiteralSound(c.profile, b, pos + 1, end);
    assert b[pos..end + 1] == [b[pos]] + (b[pos + 1..end] + [b[end]]);
  }

  lemma Slices(b: Bytes, i: nat, j: nat, k: nat, l: nat, m: nat)
    requires i <= j <= k <= l <= m <= |b|
    ensures b[i..m] == b[i..j] + (b[j..k] + (b[k..l] + b[l..m]))
  {
  }

  lemma SkippedIsBlank(b: Bytes, pos: nat)
    requires pos <= |b|
    ensures Blank(b[pos..Skip(b, pos)])
  {
  }

  lemma {:induction false} ItemsShift(item: Item, rest: seq<Item>, k: nat)
    requires k < |rest|
    ensures ItemsFrom([item] + rest, k + 1) == ItemsFrom(rest, k)
    decreases |rest| - k
  {
    hide Spelling;
    if k + 1 < |rest| {
      ItemsShift(item, rest, k + 1);
    }
  }

  /** One element, its surroundings and its follower, as grammar. */
  lemma ItemSound(c: Config, b: Bytes, q: nat, depth: nat, used: nat, s: Syntax) returns (item: Item)
    requires q <= |b| && ValueAt(c, b, Skip(b, q), depth, used).Parsed?
    requires Explains(c, b, Skip(b, q), depth, used, ValueAt(c, b, Skip(b, q), depth, used), s)
    ensures var r := ValueAt(c, b, Skip(b, q), depth, used);
            var p := Skip(b, r.pos);
            && item == Item(b[q..Skip(b, q)], s, b[r.pos..p]) && ItemOk(c.profile, item)
            && forall m :: p <= m <= |b| ==>
                 item.before + (Spelling(item.value) + (item.after + b[p..m])) == b[q..m]
  {
    hide SyntaxOk, Spelling, ValueAt, Fits, Tree;
    var r := ValueAt(c, b, Skip(b, q), depth, used);
    var p := Skip(b, r.pos);
    SkipIdle(b, Skip(b, q));
    item := Item(b[q..Skip(b, q)], s, b[r.pos..p]);
    SkippedIsBlank(b, q);
    SkippedIsBlank(b, r.pos);
    forall m | p <= m <= |b| ensures item.before + (Spelling(item.value) + (item.after + b[p..m])) == b[q..m] {
      Slices(b, q, Skip(b, q), r.pos, p, m);
    }
  }

  ghost predicate ItemsExplain(c: Config, b: Bytes, q: nat, depth: nat, used: nat, done: seq<Json>,
                               r: Parse, items: seq<Item>)
  {
    && r.Parsed? && q <= r.pos <= |b| && r.tree.Array?
    && var all := r.tree.items;
    && items != [] && |all| == |done| + |items| && all[..|done|] == done
    && (forall i :: 0 <= i < |items| ==> ItemOk(c.profile, items[i]) && all[|done| + i] == Tree(items[i].value))
    && ItemsFrom(items, 0) == b[q..r.pos]
    && (forall i :: |done| <= i < |all| ==> Nests(all[i], c.depth - depth - 1))
    && (!c.profile.LastWins? ==> forall i :: |done| <= i < |all| ==> Distinct(all[i]))
    && r.used == used + ItemTokens(all, |done|) <= c.capacity
  }

  lemma ItemsCons(c: Config, b: Bytes, q: nat, p: nat, depth: nat, used: nat, used1: nat, done: seq<Json>, v: Json,
                  r: Parse, item: Item, rest: seq<Item>)
    requires ItemsExplain(c, b, p + 1, depth, used1, done + [v], r, rest)
    requires ItemOk(c.profile, item) && v == Tree(item.value) && Nests(v, c.depth - depth - 1)
    requires !c.profile.LastWins? ==> Distinct(v)
    requires q <= p < |b| && b[p] == COMMA && used1 == used + Tokens(v)
    requires item.before + (Spelling(item.value) + (item.after + b[p..r.pos])) == b[q..r.pos]
    ensures ItemsExplain(c, b, q, depth, used, done, r, [item] + rest)
  {
    hide Spelling, Tree, Nests, Distinct, ItemOk, Tokens;
    var items, all := [item] + rest, r.tree.items;
    ItemsShift(item, rest, 0);
    assert b[p..r.pos] == [COMMA] + b[p + 1..r.pos];
    assert all[|done|] == all[..|done| + 1][|done|] == v;
    assert all[..|done|] == all[..|done| + 1][..|done|] == done;
    forall i | 0 <= i < |items|
      ensures ItemOk(c.profile, items[i]) && all[|done| + i] == Tree(items[i].value)
    {
      if i > 0 {
        assert items[i] == rest[i - 1] && all[|done| + i] == all[|done + [v]| + (i - 1)];
      }
    }
  }

  lemma ItemsLast(c: Config, b: Bytes, q: nat, p: nat, depth: nat, used: nat, used1: nat, done: seq<Json>, v: Json,
                  item: Item)
    requires ItemOk(c.profile, item) && v == Tree(item.value) && Nests(v, c.depth - depth - 1)
    requires !c.profile.LastWins? ==> Distinct(v)
    requires q <= p < |b| && b[p] == CLOSE_BRACKET && used1 == used + Tokens(v) <= c.capacity
    requires item.before + (Spelling(item.value) + (item.after + b[p..p + 1])) == b[q..p + 1]
    ensures ItemsExplain(c, b, q, depth, used, done, Parsed(Array(done + [v]), p + 1, used1), [item])
  {
    hide Spelling, Tree, Nests, Distinct, ItemOk, Tokens;
    assert b[p..p + 1] == [CLOSE_BRACKET];
    var all := done + [v];
    assert all[..|done|] == done && ItemTokens(all, |all|) == 0;
    ItemsUnfold([item], 0);
  }

  lemma {:induction false} ItemsSound(c: Config, b: Bytes, q: nat, depth: nat, used: nat, done: seq<Json>)
    returns (items: seq<Item>)
    requires q <= |b| && ItemsAt(c, b, Skip(b, q), depth, used, done).Parsed?
    ensures ItemsExplain(c, b, q, depth, used, done, ItemsAt(c, b, Skip(b, q), depth, used, done), items)
    decreases |b| - q, 1
  {
    hide ValueAt, Spelling, Tree, Nests, Distinct, ItemOk, Tokens, SyntaxOk, Skip, ItemsExplain, ItemTokens, PrimitiveAt;
    var r1 := ValueAt(c, b, Skip(b, q), depth + 1, used);
    var s := ValueSound(c, b, Skip(b, q), depth + 1, used);
    var item := ItemSound(c, b, q, depth + 1, used, s);
    var p := Skip(b, r1.pos);
    var r := ItemsAt(c, b, Skip(b, q), depth, used, done);
    if b[p] == CLOSE_BRACKET {
      ItemsLast(c, b, q, p, depth, used, r1.used, done, r1.tree, item);
      items := [item];
    } else {
      var rest := ItemsSound(c, b, p + 1, depth, r1.used, done + [r1.tree]);
      ItemsBounds(c, b, p + 1, depth, r1.used, done + [r1.tree], r, rest);
      ItemsCons(c, b, q, p, depth, used, r1.used, done, r1.tree, r, item, rest);
      items := [item] + rest;
    }
  }

  lemma ItemsBounds(c: Config, b: Bytes, q: nat, depth: nat, used: nat, done: seq<Json>, r: Parse, items: seq<Item>)
    requires ItemsExplain(c, b, q, depth, used, done, r, items)
    ensures r.Parsed? && q <= r.pos <= |b|
  {
  }

  lemma {:induction false} ValueSound(c: Config, b: Bytes, pos: nat, depth: nat, used: nat) returns (s: Syntax)
    requires pos <= |b| && ValueAt(c, b, pos, depth, used).Parsed?
    ensures Explains(c, b, pos, depth, used, ValueAt(c, b, pos, depth, used), s)
    decreases |b| - pos, 0
  {
    hide StringAt, PrimitiveAt, ItemsAt, MembersAt, Skip, Explains;
    var p := Skip(b, pos);
    var r := ValueAt(c, b, pos, depth, used);
    if b[p] == OPEN_BRACE {
      var q := Skip(b, p + 1);
      if q < |b| && b[q] == CLOSE_BRACE {
        EmptySound(c, b, pos, depth, used, CLOSE_BRACE);
        s := Record(b[p + 1..q], []);
      } else {
        var pairs := PairsSound(c, b, p + 1, depth, used + 1, []);
        RecordSound(c, b, pos, depth, used, r, pairs);
        s := Record([], pairs);
      }
    } else if b[p] == OPEN_BRACKET {
      var q := Skip(b, p + 1);
      if q < |b| && b[q] == CLOSE_BRACKET {
        EmptySound(c, b, pos, depth, used, CLOSE_BRACKET);
        s := List(b[p + 1..q], []);
      } else {
        var items := ItemsSound(c, b, p + 1, depth, used + 1, []);
        ListSound(c, b, pos, depth, used, r, items);
        s := List([], items);
      }
    } else if b[p] == QUOTE {
      s := QuoteSound(c, b, pos, depth, used);
    } else {
      s := PrimitiveSound(c, b, p, depth, used);
      SkipTwice(c, b, pos, depth, used, r, s);
    }
  }

  lemma SkipTwice(c: Config, b: Bytes, pos: nat, depth: nat, used: nat, r: Parse, s: Syntax)
    requires r.Parsed? && Explains(c, b, Skip(b, pos), depth, used, r, s)
    ensures Explains(c, b, pos, depth, used, r, s)
  {
    SkipIdle(b, Skip(b, pos));
  }

  lemma QuoteSound(c: Config, b: Bytes, pos: nat, depth: nat, used: nat) returns (s: Syntax)
    requires pos <= |b| && Skip(b, pos) < |b| && StringAt(c, b, Skip(b, pos), used).Read?
    ensures var r := StringAt(c, b, Skip(b, pos), used);
            Explains(c, b, pos, depth, used, Parsed(Text(r.text), r.end + 1, used + 1), s)
  {
    hide StringAt, SpellAll, Meaning, CharsOk;
    var chars := StringSound(c, b, Skip(b, pos), used);
    s := Quote(chars);
  }

  lemma EmptySound(c: Config, b: Bytes, pos: nat, depth: nat, used: nat, closing: Byte)
    requires pos <= |b| && Skip(b, pos) < |b| && depth < c.depth && used < c.capacity
    requires var q := Skip(b, Skip(b, pos) + 1); q < |b| && b[q] == closing
    ensures var p := Skip(b, pos);
            var q := Skip(b, p + 1);
            && (b[p] == OPEN_BRACE && closing == CLOSE_BRACE ==>
                  Explains(c, b, pos, depth, used, Parsed(Object([]), q + 1, used + 1), Record(b[p + 1..q], [])))
            && (b[p] == OPEN_BRACKET && closing == CLOSE_BRACKET ==>
                  Explains(c, b, pos, depth, used, Parsed(Array([]), q + 1, used + 1), List(b[p + 1..q], [])))
  {
    var p := Skip(b, pos);
    var q := Skip(b, p + 1);
    SkippedIsBlank(b, p + 1);
    NoTokens();
    assert b[p..q + 1] == [b[p]] + (b[p + 1..q] + [b[q]]);
    assert Tree(Record(b[p + 1..q], [])) == Object([]) && Tree(List(b[p + 1..q], [])) == Array([]);
  }

  lemma ListSound(c: Config, b: Bytes, pos: nat, depth: nat, used: nat, r: Parse, items: seq<Item>)
    requires pos <= |b| && Skip(b, pos) < |b| && b[Skip(b, pos)] == OPEN_BRACKET && depth < c.depth
    requires ItemsExplain(c, b, Skip(b, pos) + 1, depth, used + 1, [], r, items)
    ensures Explains(c, b, pos, depth, used, r, List([], items))
  {
    hide Spelling, ItemOk, Skip, ItemsFrom, ItemTokens;
    var p, s := Skip(b, pos), List([], items);
    assert b[p..r.pos] == [b[p]] + b[p + 1..r.pos];
    SpellingUnfold(s);
    assert Tree(s).items == r.tree.items;
  }

  lemma {:induction false} PairsShift(pair: Pair, rest: seq<Pair>, k: nat)
    requires k < |rest|
    ensures PairsFrom([pair] + rest, k + 1) == PairsFrom(rest, k)
    decreases |rest| - k
  {
    hide Spelling, SpellText;
    if k + 1 < |rest| {
      PairsShift(pair, rest, k + 1);
    }
  }

  ghost predicate PairsExplain(c: Config, b: Bytes, q: nat, depth: nat, used: nat, done: seq<Member>,
                               r: Parse, pairs: seq<Pair>)
  {
    && r.Parsed? && q <= r.pos <= |b| && r.tree.Object?
    && var all := r.tree.members;
    && pairs != [] && |all| == |done| + |pairs| && all[..|done|] == done
    && (forall i :: 0 <= i < |pairs| ==> PairOk(c.profile, pairs[i]))
    && (forall i :: 0 <= i < |pairs| ==>
          all[|done| + i] == Member(Meaning(pairs[i].key), Tree(pairs[i].item.value)))
    && PairsFrom(pairs, 0) == b[q..r.pos]
    && (forall i :: |done| <= i < |all| ==> Nests(all[i].value, c.depth - depth - 1))
    && (!c.profile.LastWins? ==> forall i :: |done| <= i < |all| ==> Distinct(all[i].value))
    && (!c.profile.LastWins? ==> KeysDistinct(done) ==> KeysDistinct(all))
    && r.used == used + MemberTokens(all, |done|) <= c.capacity
  }

  /** A member whose value and tail are already explained. */
  ghost predicate PairExplains(c: Config, b: Bytes, q: nat, p: nat, depth: nat, pair: Pair, m: Member)
    requires q <= p < |b|
  {
    && PairOk(c.profile, pair)
    && m == Member(Meaning(pair.key), Tree(pair.item.value))
    && Nests(m.value, c.depth - depth - 1)
    && (!c.profile.LastWins? ==> Distinct(m.value))
    && forall e :: p <= e <= |b| ==>
         pair.before + (SpellText(pair.key) + (pair.middle + ([COLON] + PairRest(pair, b[p..e])))) == b[q..e]
  }

  lemma ExtendDistinct(ms: seq<Member>, m: Member)
    requires KeysDistinct(ms) && !HasKey(ms, m.key)
    ensures KeysDistinct(ms + [m])
  {
  }

  lemma PairsCons(c: Config, b: Bytes, q: nat, p: nat, depth: nat, used: nat, used1: nat, done: seq<Member>, m: Member,
                  r: Parse, pair: Pair, rest: seq<Pair>)
    requires PairsExplain(c, b, p + 1, depth, used1, done + [m], r, rest)
    requires q <= p < |b| && b[p] == COMMA && used1 == used + 1 + Tokens(m.value)
    requires PairExplains(c, b, q, p, depth, pair, m)
    requires !c.profile.LastWins? ==> !HasKey(done, m.key)
    ensures PairsExplain(c, b, q, depth, used, done, r, [pair] + rest)
  {
    hide Spelling, Tree, Nests, Distinct, PairOk, Tokens, SpellText, Meaning, HasKey, KeysDistinct;
    var pairs, all := [pair] + rest, r.tree.members;
    PairsShift(pair, rest, 0);
    assert b[p..r.pos] == [COMMA] + b[p + 1..r.pos];
    assert all[|done|] == all[..|done| + 1][|done|] == m;
    assert all[..|done|] == all[..|done| + 1][..|done|] == done;
    if !c.profile.LastWins? && KeysDistinct(done) {
      ExtendDistinct(done, m);
    }
    forall i | 0 <= i < |pairs|
      ensures PairOk(c.profile, pairs[i])
      ensures all[|done| + i] == Member(Meaning(pairs[i].key), Tree(pairs[i].item.value))
    {
      if i > 0 {
        assert pairs[i] == rest[i - 1] && all[|done| + i] == all[|done + [m]| + (i - 1)];
      }
    }
  }

  lemma PairsLast(c: Config, b: Bytes, q: nat, p: nat, depth: nat, used: nat, used1: nat, done: seq<Member>, m: Member,
                  pair: Pair)
    requires q <= p < |b| && b[p] == CLOSE_BRACE && used1 == used + 1 + Tokens(m.value) <= c.capacity
    requires PairExplains(c, b, q, p, depth, pair, m)
    requires !c.profile.LastWins? ==> !HasKey(done, m.key)
    ensures PairsExplain(c, b, q, depth, used, done, Parsed(Object(done + [m]), p + 1, used1), [pair])
  {
    hide Spelling, Tree, Nests, Distinct, PairOk, Tokens, SpellText, Meaning, HasKey, KeysDistinct;
    assert b[p..p + 1] == [CLOSE_BRACE];
    var all := done + [m];
    assert all[..|done|] == done && MemberTokens(all, |all|) == 0;
    PairsUnfold([pair], 0);
    if !c.profile.LastWins? && KeysDistinct(done) {
      ExtendDistinct(done, m);
    }
  }

  /** The key and colon of a member as grammar, in front of an explained value. */
  lemma PairSound(c: Config, b: Bytes, q: nat, depth: nat, used: nat, used1: nat, key: Literal, colon: nat, r: Parse,
                  s: Syntax) returns (pair: Pair)
    requires q <= |b| && StringAt(c, b, Skip(b, q), used) == key && key.Read?
    requires colon == Skip(b, key.end + 1) < |b| && b[colon] == COLON
    requires r == ValueAt(c, b, Skip(b, colon + 1), depth + 1, used1) && r.Parsed? && Skip(b, r.pos) < |b|
    requires Explains(c, b, Skip(b, colon + 1), depth + 1, used1, r, s)
    ensures q <= Skip(b, r.pos) && PairExplains(c, b, q, Skip(b, r.pos), depth, pair, Member(key.text, r.tree))
  {
    hide StringAt, Spelling, ValueAt, SyntaxOk, Tree, CharsOk, Meaning, SpellText, ItemOk, Tokens, Nests, Distinct,
      Skip;
    var p1, p := Skip(b, q), Skip(b, r.pos);
    var chars := StringSound(c, b, p1, used);
    var item := ItemSound(c, b, colon + 1, depth + 1, used1, s);
    pair := Pair(b[q..p1], chars, b[key.end + 1..colon], item);
    SkippedIsBlank(b, q);
    SkippedIsBlank(b, key.end + 1);
    forall e | p <= e <= |b|
      ensures pair.before + (SpellText(pair.key) + (pair.middle + ([COLON] + PairRest(pair, b[p..e])))) == b[q..e]
    {
      Slices(b, q, p1, key.end + 1, colon, e);
      assert b[colon..e] == [COLON] + b[colon + 1..e];
    }
  }

  /** What a successful object loop has read first. */
  lemma MembersUnfold(c: Config, b: Bytes, pos: nat, depth: nat, used: nat, done: seq<Member>)
    returns (key: Literal, colon: nat, r: Parse, p: nat)
    requires pos <= |b| && MembersAt(c, b, pos, depth, used, done).Parsed?
    ensures StringAt(c, b, pos, used) == key && key.Read? && (!c.profile.LastWins? ==> !HasKey(done, key.text))
    ensures colon == Skip(b, key.end + 1) < |b| && b[colon] == COLON
    ensures ValueAt(c, b, Skip(b, colon + 1), depth + 1, used + 1) == r && r.Parsed? && r.pos <= |b|
    ensures p == Skip(b, r.pos) < |b| && (b[p] == CLOSE_BRACE || b[p] == COMMA)
    ensures b[p] == CLOSE_BRACE ==> MembersAt(c, b, pos, depth, used, done) ==
                                    Parsed(Object(done + [Member(key.text, r.tree)]), p + 1, r.used)
    ensures b[p] == COMMA ==> MembersAt(c, b, pos, depth, used, done) ==
                              MembersAt(c, b, Skip(b, p + 1), depth, r.used, done + [Member(key.text, r.tree)])
  {
    hide StringAt, HasKey, ValueAt;
    key := StringAt(c, b, pos, used);
    colon := Skip(b, key.end + 1);
    ValueSkips(c, b, colon + 1, depth + 1, used + 1);
    r := ValueAt(c, b, Skip(b, colon + 1), depth + 1, used + 1);
    p := Skip(b, r.pos);
  }

  lemma {:induction false} PairsSound(c: Config, b: Bytes, q: nat, depth: nat, used: nat, done: seq<Member>)
    returns (pairs: seq<Pair>)
    requires q <= |b| && MembersAt(c, b, Skip(b, q), depth, used, done).Parsed?
    ensures PairsExplain(c, b, q, depth, used, done, MembersAt(c, b, Skip(b, q), depth, used, done), pairs)
    decreases |b| - q, 1
  {
    hide ValueAt, StringAt, Spelling, Tree, Nests, Distinct, Tokens, SyntaxOk, Skip, PairsExplain, PairExplains, Explains,
      HasKey, MembersAt, MemberValueAt;
    var key, colon, r1, p := MembersUnfold(c, b, Skip(b, q), depth, used, done);
    var s := ValueSound(c, b, Skip(b, colon + 1), depth + 1, used + 1);
    var pair := PairSound(c, b, q, depth, used, used + 1, key, colon, r1, s);
    var m := Member(key.text, r1.tree);
    UsedBy(c, b, Skip(b, colon + 1), depth + 1, used + 1, r1, s);
    if b[p] == CLOSE_BRACE {
      PairsLast(c, b, q, p, depth, used, r1.used, done, m, pair);
      pairs := [pair];
    } else {
      var r := MembersAt(c, b, Skip(b, q), depth, used, done);
      var rest := PairsSound(c, b, p + 1, depth, r1.used, done + [m]);
      PairsCons(c, b, q, p, depth, used, r1.used, done, m, r, pair, rest);
      pairs := [pair] + rest;
    }
  }

  lemma UsedBy(c: Config, b: Bytes, pos: nat, depth: nat, used: nat, r: Parse, s: Syntax)
    requires r.Parsed? && Explains(c, b, pos, depth, used, r, s)
    ensures r.used == used + Tokens(r.tree)
  {
  }

  lemma RecordSound(c: Config, b: Bytes, pos: nat, depth: nat, used: nat, r: Parse, pairs: seq<Pair>)
    requires pos <= |b| && Skip(b, pos) < |b| && b[Skip(b, pos)] == OPEN_BRACE && depth < c.depth
    requires PairsExplain(c, b, Skip(b, pos) + 1, depth, used + 1, [], r, pairs)
    ensures Explains(c, b, pos, depth, used, r, Record([], pairs))
  {
    hide Spelling, ItemOk, Skip, PairsFrom, MemberTokens, CharsOk, Meaning;
    var p, s := Skip(b, pos), Record([], pairs);
    assert b[p..r.pos] == [b[p]] + b[p + 1..r.pos];
    SpellingUnfold(s);
    assert KeysDistinct([]);
    assert Tree(s).members == r.tree.members;
  }
}
