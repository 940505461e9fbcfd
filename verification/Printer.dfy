/** The text of a tree in every presentation, and why the reader gets the tree back. */
module Printer {
  import opened Basics
  import opened StringLiteral
  import opened TextEscape
  import opened Numeral
  import opened Trees
  import opened Reader
  import opened Acceptance
  import opened Grammar

  datatype Style = Style(indent: bool, ascii: bool)

  const COMPACT := Style(false, false)

  function Spaces(n: nat): (s: Bytes)
    ensures |s| == n && Blank(s) && forall k :: 0 <= k < n ==> s[k] == 0x20
  {
    if n == 0 then [] else Spaces(n - 1) + [SPACE]
  }

  /** A new line indented to `level`; nothing in compact form. */
  function Break(style: Style, level: nat): (s: Bytes)
    ensures Blank(s)
    ensures !style.indent ==> s == []
    // Two spaces for each level of nesting.
    ensures style.indent ==> |s| == 1 + 2 * level && s[0] == 0x0A && forall k :: 1 <= k < |s| ==> s[k] == 0x20
  {
    if style.indent then [NEWLINE] + Spaces(2 * level) else []
  }

  function Gap(style: Style): (s: Bytes)
    ensures Blank(s) && s == if style.indent then [0x20] else []
  {
    if style.indent then [SPACE] else []
  }

  function Print(j: Json, style: Style, level: nat): Bytes
    decreases j, 0
  {
    match j
    case Number(lexeme) => lexeme
    case Text(t) => Quoted(t, style.ascii)
    case Array(items) => [OPEN_BRACKET] + if items == [] then [CLOSE_BRACKET] else PrintItems(items, 0, style, level)
    case Object(ms) => [OPEN_BRACE] + if ms == [] then [CLOSE_BRACE] else PrintMembers(ms, 0, style, level)
    case _ => WordBytes(j)
  }

  function PrintItems(items: seq<Json>, k: nat, style: Style, level: nat): Bytes
    requires k < |items|
    decreases items, |items| - k
  {
    Break(style, level + 1) + (Print(items[k], style, level + 1) +
      if k + 1 < |items| then [COMMA] + PrintItems(items, k + 1, style, level)
      else Break(style, level) + [CLOSE_BRACKET])
  }

  function PrintMembers(ms: seq<Member>, k: nat, style: Style, level: nat): Bytes
    requires k < |ms|
    decreases ms, |ms| - k
  {
    Break(style, level + 1) + (Quoted(ms[k].key, style.ascii) + ([COLON] + (Gap(style) +
      (Print(ms[k].value, style, level + 1) +
      if k + 1 < |ms| then [COMMA] + PrintMembers(ms, k + 1, style, level)
      else Break(style, level) + [CLOSE_BRACE]))))
  }

  function Output(j: Json, style: Style, newline: bool): Bytes {
    Print(j, style, 0) + if newline then [NEWLINE] else []
  }

  /** The printed form as concrete syntax. */
  function Pretty(j: Json, style: Style, level: nat): Syntax {
    match j
    case Number(lexeme) => Numeral(lexeme)
    case Text(t) => Quote(LiteralOf(t, style.ascii))
    case Array(items) =>
      List([], seq(|items|, k requires 0 <= k < |items| =>
        Item(Break(style, level + 1), Pretty(items[k], style, level + 1),
             if k + 1 < |items| then [] else Break(style, level))))
    case Object(ms) =>
      Record([], seq(|ms|, k requires 0 <= k < |ms| =>
        Pair(Break(style, level + 1), LiteralOf(ms[k].key, style.ascii), [],
             Item(Gap(style), Pretty(ms[k].value, style, level + 1),
                  if k + 1 < |ms| then [] else Break(style, level)))))
    case _ => Word(j)
  }

  /** What the printed form of `j` must satisfy to read back as `j`. */
  ghost predicate Faithful(profile: Profile, j: Json, style: Style, level: nat) {
    var s := Pretty(j, style, level);
    SyntaxOk(profile, s) && Tree(s) == j && Spelling(s) == Print(j, style, level)
  }

  lemma LiteralFaithful(profile: Profile, t: Bytes, ascii: bool)
    requires Printable(profile, t)
    ensures CharsOk(profile, LiteralOf(t, ascii)) && Meaning(LiteralOf(t, ascii)) == t
    ensures SpellText(LiteralOf(t, ascii)) == Quoted(t, ascii)
  {
    hide CharsOk, LiteralOf, Meaning, Quoted;
    PrintedTextReadsBack(profile, t, ascii);
    var body := SpellAll(LiteralOf(t, ascii));
    assert [QUOTE] + body + [QUOTE] == [QUOTE] + (body + [QUOTE]);
  }

  lemma {:induction false} ItemsSpell(items: seq<Json>, printed: seq<Item>, k: nat, style: Style, level: nat)
    requires k < |items| == |printed|
    requires forall i :: k <= i < |items| ==>
               && printed[i].before == Break(style, level + 1)
               && Spelling(printed[i].value) == Print(items[i], style, level + 1)
               && printed[i].after == if i + 1 < |items| then [] else Break(style, level)
    ensures ItemsFrom(printed, k) == PrintItems(items, k, style, level)
    decreases |items| - k
  {
    hide Break, Spelling, Print;
    if k + 1 < |items| {
      ItemsSpell(items, printed, k + 1, style, level);
      assert [] + ([COMMA] + ItemsFrom(printed, k + 1)) == [COMMA] + ItemsFrom(printed, k + 1);
    }
  }

  lemma {:induction false} PairsSpell(ms: seq<Member>, printed: seq<Pair>, k: nat, style: Style, level: nat)
    requires k < |ms| == |printed|
    requires forall i :: k <= i < |ms| ==>
               && printed[i].before == Break(style, level + 1)
               && SpellText(printed[i].key) == Quoted(ms[i].key, style.ascii)
               && printed[i].middle == []
               && printed[i].item.before == Gap(style)
               && Spelling(printed[i].item.value) == Print(ms[i].value, style, level + 1)
               && printed[i].item.after == if i + 1 < |ms| then [] else Break(style, level)
    ensures PairsFrom(printed, k) == PrintMembers(ms, k, style, level)
    decreases |ms| - k
  {
    hide Break, Spelling, Print, Gap, SpellText, Quoted;
    if k + 1 < |ms| {
      PairsSpell(ms, printed, k + 1, style, level);
      assert [] + ([COMMA] + PairsFrom(printed, k + 1)) == [COMMA] + PairsFrom(printed, k + 1);
    }
    var p := printed[k];
    var rest := [COLON] + (p.item.before + (Spelling(p.item.value) + (p.item.after +
      (if k + 1 < |printed| then [COMMA] + PairsFrom(printed, k + 1) else [CLOSE_BRACE]))));
    assert [] + rest == rest;
  }

  lemma {:induction false} PrettyFaithful(profile: Profile, j: Json, style: Style, level: nat)
    requires Carried(profile, j)
    ensures Faithful(profile, j, style, level)
    decreases j
  {
    match j {
      case Array(items) =>
        forall k | 0 <= k < |items| ensures Faithful(profile, items[k], style, level + 1) {
          PrettyFaithful(profile, items[k], style, level + 1);
        }
        ArrayFaithful(profile, items, style, level);
      case Object(ms) =>
        forall k | 0 <= k < |ms| ensures Faithful(profile, ms[k].value, style, level + 1) {
          PrettyFaithful(profile, ms[k].value, style, level + 1);
        }
        ObjectFaithful(profile, ms, style, level);
      case Text(t) => LiteralFaithful(profile, t, style.ascii);
      case _ =>
    }
  }

  lemma ArrayFaithful(profile: Profile, items: seq<Json>, style: Style, level: nat)
    requires forall k :: 0 <= k < |items| ==> Faithful(profile, items[k], style, level + 1)
    ensures Faithful(profile, Array(items), style, level)
  {
    hide Break, PrintItems, ItemsFrom;
    var j := Array(items);
    var printed := Pretty(j, style, level).items;
    if items != [] {
      forall k | 0 <= k < |items| ensures ItemOk(profile, printed[k]) && Tree(printed[k].value) == items[k] {
        assert Faithful(profile, items[k], style, level + 1);
      }
      ItemsSpell(items, printed, 0, style, level);
    }
    assert Tree(Pretty(j, style, level)).items == items;
  }

  lemma ObjectFaithful(profile: Profile, ms: seq<Member>, style: Style, level: nat)
    requires forall k :: 0 <= k < |ms| ==> Printable(profile, ms[k].key)
    requires forall k :: 0 <= k < |ms| ==> Faithful(profile, ms[k].value, style, level + 1)
    ensures Faithful(profile, Object(ms), style, level)
  {
    hide Break, PrintMembers, PairsFrom, Printable, SpellText, Quoted, LiteralOf, CharsOk, Meaning;
    var j := Object(ms);
    var printed := Pretty(j, style, level).pairs;
    forall k | 0 <= k < |ms|
      ensures PairOk(profile, printed[k]) && Tree(printed[k].item.value) == ms[k].value
      ensures Meaning(printed[k].key) == ms[k].key && SpellText(printed[k].key) == Quoted(ms[k].key, style.ascii)
    {
      assert Faithful(profile, ms[k].value, style, level + 1);
      LiteralFaithful(profile, ms[k].key, style.ascii);
    }
    if ms != [] {
      PairsSpell(ms, printed, 0, style, level);
    }
    assert Tree(Pretty(j, style, level)).members == ms;
  }

  /** Whatever the presentation, the reader recovers the printed tree. */
  lemma PrintReadsBack(c: Config, j: Json, style: Style, newline: bool)
    requires Carried(c.profile, j) && Fits(c, j, 0, 0)
    ensures ReadText(c, Output(j, style, newline)) == Parsed(j, |Output(j, style, newline)|, Tokens(j))
  {
    hide ReadText, Fits, SyntaxOk, Spelling, Print, Tree, Carried;
    PrettyFaithful(c.profile, j, style, 0);
    var trail: Bytes := if newline then [NEWLINE] else [];
    var b := Output(j, style, newline);
    assert b == [] + (Spelling(Pretty(j, style, 0)) + trail);
    TextComplete(c, b, [], Pretty(j, style, 0), trail);
  }

  // ----- the text of a container, piece by piece

  function ItemsRest(items: seq<Json>, k: nat, style: Style, level: nat): Bytes
    requires k <= |items|
    decreases |items| - k
  {
    if k == |items| then Break(style, level) + [CLOSE_BRACKET]
    else Lead(style, k, level) + (Print(items[k], style, level + 1) + ItemsRest(items, k + 1, style, level))
  }

  function MembersRest(ms: seq<Member>, k: nat, style: Style, level: nat): Bytes
    requires k <= |ms|
    decreases |ms| - k
  {
    if k == |ms| then Break(style, level) + [CLOSE_BRACE]
    else
      Lead(style, k, level) + (MemberHead(ms[k].key, style) +
      (Print(ms[k].value, style, level + 1) + MembersRest(ms, k + 1, style, level)))
  }

  /** Comma, if any, and line break before entry `k`. */
  function Lead(style: Style, k: nat, level: nat): Bytes {
    (if k > 0 then [COMMA] else []) + Break(style, level + 1)
  }

  function MemberHead(key: Bytes, style: Style): Bytes {
    Quoted(key, style.ascii) + ([COLON] + Gap(style))
  }

  /** Entry `k` of a container: an element, or a member when there is a key. */
  function EntryText(style: Style, k: nat, level: nat, key: Option<Bytes>, value: Json): Bytes {
    Lead(style, k, level) + ((if key.Some? then MemberHead(key.value, style) else []) + Print(value, style, level + 1))
  }

  lemma ItemsEntry(items: seq<Json>, k: nat, style: Style, level: nat)
    requires k < |items|
    ensures ItemsRest(items, k, style, level) ==
            EntryText(style, k, level, None, items[k]) + ItemsRest(items, k + 1, style, level)
  {
    hide Print, Lead;
  }

  lemma MembersEntry(ms: seq<Member>, k: nat, style: Style, level: nat)
    requires k < |ms|
    ensures MembersRest(ms, k, style, level) ==
            EntryText(style, k, level, Some(ms[k].key), ms[k].value) + MembersRest(ms, k + 1, style, level)
  {
    hide Print, Lead, MemberHead;
  }

  lemma NoEntries(style: Style, level: nat)
    ensures Print(Array([]), style, level) == [OPEN_BRACKET, CLOSE_BRACKET]
    ensures Print(Object([]), style, level) == [OPEN_BRACE, CLOSE_BRACE]
  {
  }

  lemma EndOfItems(items: seq<Json>, style: Style, level: nat)
    ensures ItemsRest(items, |items|, style, level) == Break(style, level) + [CLOSE_BRACKET]
  {
  }

  lemma EndOfMembers(ms: seq<Member>, style: Style, level: nat)
    ensures MembersRest(ms, |ms|, style, level) == Break(style, level) + [CLOSE_BRACE]
  {
  }

  lemma {:induction false} ItemsRestIsPrinted(items: seq<Json>, k: nat, style: Style, level: nat)
    requires k < |items|
    ensures ItemsRest(items, k, style, level) == (if k > 0 then [COMMA] else []) + PrintItems(items, k, style, level)
    decreases |items| - k
  {
    hide Print, Break;
    if k + 1 < |items| {
      ItemsRestIsPrinted(items, k + 1, style, level);
    }
  }

  lemma {:induction false} MembersRestIsPrinted(ms: seq<Member>, k: nat, style: Style, level: nat)
    requires k < |ms|
    ensures MembersRest(ms, k, style, level) == (if k > 0 then [COMMA] else []) + PrintMembers(ms, k, style, level)
    decreases |ms| - k
  {
    hide Print, Break, Gap, Quoted;
    if k + 1 < |ms| {
      MembersRestIsPrinted(ms, k + 1, style, level);
    }
    MemberPieces(Break(style, level + 1), Quoted(ms[k].key, style.ascii), Gap(style),
                 Print(ms[k].value, style, level + 1), MembersRest(ms, k + 1, style, level));
  }

  lemma MemberPieces(a: Bytes, b: Bytes, c: Bytes, d: Bytes, e: Bytes)
    ensures a + ((b + ([COLON] + c)) + (d + e)) == a + (b + ([COLON] + (c + (d + e))))
  {
    assert (b + ([COLON] + c)) + (d + e) == b + ([COLON] + (c + (d + e)));
  }

  lemma ArrayPieces(items: seq<Json>, style: Style, level: nat)
    requires items != []
    ensures Print(Array(items), style, level) == [OPEN_BRACKET] + ItemsRest(items, 0, style, level)
  {
    hide ItemsRest, PrintItems;
    ItemsRestIsPrinted(items, 0, style, level);
  }

  lemma ObjectPieces(ms: seq<Member>, style: Style, level: nat)
    requires ms != []
    ensures Print(Object(ms), style, level) == [OPEN_BRACE] + MembersRest(ms, 0, style, level)
  {
    hide MembersRest, PrintMembers;
    MembersRestIsPrinted(ms, 0, style, level);
  }
}
