/** The streaming canonical check: a cursor that demands, byte by byte, what the canonical printer would write. */
module CanonicalCheck {
  import opened Basics
  import opened Utf8
  import opened Utf16
  import opened TextEscape
  import opened Numeral
  import opened Trees
  import opened Reader
  import opened Printer
  import opened Order
  import opened LinkedTable
  import opened TokenTable
  import opened LastWinsTree
  import opened CanonicalForm
  import opened CanonicalSize
  import opened Children
  import opened DocumentParse
  import opened DocumentApi

  /** The canonical text of a value inside a document, at any level of nesting. */
  function Canon(j: Json, level: nat): Bytes {
    Print(Normalized(j), COMPACT, level)
  }

  /** What the walk over `j` asks for, beyond the bytes. */
  ghost predicate Asks(j: Json) {
    InOrder(j) && IntegersOnly(j)
  }

  // ----- the text of a container, piece by piece

  /** The text of an array from element `k` on. */
  function ItemsTail(items: seq<Json>, k: nat, level: nat): Bytes
    requires k <= |items|
  {
    ItemsRest(Normalized(Array(items)).items, k, COMPACT, level)
  }

  function MembersTail(ms: seq<Member>, k: nat, level: nat): Bytes
    requires k <= |ms|
  {
    MembersRest(Normalized(Object(ms)).members, k, COMPACT, level)
  }

  function MemberText(m: Member, level: nat): Bytes {
    Quoted(m.key, false) + ([COLON] + Canon(m.value, level + 1))
  }

  lemma NormalizedItems(items: seq<Json>)
    ensures var n := Normalized(Array(items));
            n.Array? && |n.items| == |items| && forall k :: 0 <= k < |items| ==> n.items[k] == Normalized(items[k])
  {
  }

  lemma NormalizedMembers(ms: seq<Member>)
    ensures var n := Normalized(Object(ms));
            && n.Object? && |n.members| == |ms|
            && forall k :: 0 <= k < |ms| ==> n.members[k] == Member(ms[k].key, Normalized(ms[k].value))
  {
  }

  lemma ArrayText(items: seq<Json>, level: nat)
    ensures Canon(Array(items), level) == [OPEN_BRACKET] + ItemsTail(items, 0, level)
  {
    hide PrintItems;
    NormalizedItems(items);
    var ns := Normalized(Array(items)).items;
    if items == [] {
      assert ns == [];
      EndOfItems(ns, COMPACT, level);
    } else {
      ArrayPieces(ns, COMPACT, level);
    }
  }

  lemma ObjectText(ms: seq<Member>, level: nat)
    ensures Canon(Object(ms), level) == [OPEN_BRACE] + MembersTail(ms, 0, level)
  {
    hide PrintMembers;
    NormalizedMembers(ms);
    var ns := Normalized(Object(ms)).members;
    if ms == [] {
      assert ns == [];
      EndOfMembers(ns, COMPACT, level);
    } else {
      ObjectPieces(ns, COMPACT, level);
    }
  }

  lemma ItemsTailAt(items: seq<Json>, k: nat, level: nat, b: Bytes, at: nat)
    requires k < |items|
    ensures var lead := if k > 0 then [COMMA] else [];
            var text, tail := Canon(items[k], level + 1), ItemsTail(items, k + 1, level);
            && |ItemsTail(items, k, level)| == |lead| + |text| + |tail|
            && (Occurs(b, at, ItemsTail(items, k, level)) <==>
                  Occurs(b, at, lead) && Occurs(b, at + |lead|, text) && Occurs(b, at + |lead| + |text|, tail))
    ensures k == 0 && at <= |b| ==> Occurs(b, at, [])
  {
    hide Print, Normalized;
    var lead := if k > 0 then [COMMA] else [];
    var text, tail := Canon(items[k], level + 1), ItemsTail(items, k + 1, level);
    NormalizedItems(items);
    assert Lead(COMPACT, k, level) == lead;
    assert ItemsTail(items, k, level) == lead + (text + tail);
    hide ItemsTail, Canon;
    OccursSplit(b, at, lead, text + tail);
    OccursSplit(b, at + |lead|, text, tail);
  }

  lemma MembersTailParts(ms: seq<Member>, k: nat, level: nat)
    requires k < |ms|
    ensures MembersTail(ms, k, level) ==
            (if k > 0 then [COMMA] else []) + (MemberText(ms[k], level) + MembersTail(ms, k + 1, level))
  {
    hide Print, Normalized, Quoted, MembersRest, MemberHead, Lead, Canon;
    NormalizedMembers(ms);
    var ns := Normalized(Object(ms)).members;
    MembersEntry(ns, k, COMPACT, level);
    CompactMember(k, level, ms[k], ns[k].value);
  }

  lemma CompactMember(k: nat, level: nat, m: Member, value: Json)
    requires value == Normalized(m.value)
    ensures EntryText(COMPACT, k, level, Some(m.key), value) == (if k > 0 then [COMMA] else []) + MemberText(m, level)
  {
    hide Print, Normalized, Quoted;
  }

  lemma MembersTailAt(ms: seq<Member>, k: nat, level: nat, b: Bytes, at: nat)
    requires k < |ms|
    ensures var lead := if k > 0 then [COMMA] else [];
            var text, tail := MemberText(ms[k], level), MembersTail(ms, k + 1, level);
            && |MembersTail(ms, k, level)| == |lead| + |text| + |tail|
            && (Occurs(b, at, MembersTail(ms, k, level)) <==>
                  Occurs(b, at, lead) && Occurs(b, at + |lead|, text) && Occurs(b, at + |lead| + |text|, tail))
    ensures k == 0 && at <= |b| ==> Occurs(b, at, [])
  {
    hide MembersTail, MemberText;
    var lead := if k > 0 then [COMMA] else [];
    var text, tail := MemberText(ms[k], level), MembersTail(ms, k + 1, level);
    MembersTailParts(ms, k, level);
    OccursSplit(b, at, lead, text + tail);
    OccursSplit(b, at + |lead|, text, tail);
  }

  lemma ItemsTailEnd(items: seq<Json>, level: nat)
    ensures ItemsTail(items, |items|, level) == [CLOSE_BRACKET]
  {
    NormalizedItems(items);
  }

  lemma MembersTailEnd(ms: seq<Member>, level: nat)
    ensures MembersTail(ms, |ms|, level) == [CLOSE_BRACE]
  {
    NormalizedMembers(ms);
  }

  // ----- what is asked of a container

  lemma NoneInOrder(ms: seq<Member>)
    ensures InKeyOrder(ms[..0])
  {
  }

  lemma AsksItems(items: seq<Json>)
    ensures Asks(Array(items)) <==> forall k :: 0 <= k < |items| ==> Asks(items[k])
  {
  }

  lemma AsksMembers(ms: seq<Member>)
    ensures Asks(Object(ms)) <==> InKeyOrder(ms) && forall k :: 0 <= k < |ms| ==> Asks(ms[k].value)
  {
  }

  /** Comparing neighbours is enough. */
  lemma NextInOrder(ms: seq<Member>, k: nat)
    requires k < |ms| && InKeyOrder(ms[..k])
    ensures InKeyOrder(ms[..k + 1]) <==> k == 0 || KeyLess(ms[k - 1].key, ms[k].key)
    ensures InKeyOrder(ms) ==> InKeyOrder(ms[..k + 1])
  {
    hide KeyCompare, KeyLess;
    var next := ms[..k + 1];
    if k > 0 && KeyLess(ms[k - 1].key, ms[k].key) {
      forall i, l | 0 <= i < l < |next| ensures KeyLess(next[i].key, next[l].key) {
        if l < k {
          assert KeyLess(ms[..k][i].key, ms[..k][l].key);
        } else if i < k - 1 {
          assert KeyLess(ms[..k][i].key, ms[..k][k - 1].key);
          KeysChain(ms[i].key, ms[k - 1].key, ms[k].key);
        }
      }
    }
    if k > 0 && InKeyOrder(next) {
      assert next[k - 1] == ms[k - 1] && next[k] == ms[k];
    }
  }

  lemma KeysChain(a: Bytes, b: Bytes, c: Bytes)
    requires KeyLess(a, b) && KeyLess(b, c)
    ensures KeyLess(a, c)
  {
    KeyOrderTransitive(a, b, c);
  }

  class Cursor {
    const document: Finished
    const bytes: Bytes
    var offset: nat

    constructor (document: Finished, bytes: Bytes)
      ensures this.document == document && this.bytes == bytes && offset == 0
    {
      this.document, this.bytes, offset := document, bytes, 0;
    }

    /** Consumes `text` if it comes next. */
    method Expect(text: Bytes) returns (ok: bool)
      requires offset <= |bytes|
      modifies this
      ensures ok == Occurs(bytes, old(offset), text)
      ensures offset == old(offset) + (if ok then |text| else 0) <= |bytes|
    {
      if |bytes| - offset < |text| || bytes[offset..offset + |text|] != text {
        return false;
      }
      offset := offset + |text|;
      ok := true;
    }

    /** Consumes a string literal in canonical spelling. */
    method ExpectString(text: Bytes) returns (ok: bool)
      requires offset <= |bytes|
      modifies this
      ensures offset <= |bytes|
      ensures ok == Occurs(bytes, old(offset), Quoted(text, false))
      ensures ok ==> offset == old(offset) + |Quoted(text, false)|
    {
      hide CanonicalEscape, Occurs;
      ghost var all := Quoted(text, false);
      ghost var rest := EscapeFrom(text, 0, false) + [QUOTE];
      assert all == [QUOTE] + rest;
      OccursSplit(bytes, offset, [QUOTE], rest);
      ok := Expect([QUOTE]);
      if !ok {
        return;
      }
      var i := 0;
      while i < |text|
        invariant 0 <= i <= |text| && offset <= |bytes|
        invariant rest == EscapeFrom(text, i, false) + [QUOTE]
        invariant Occurs(bytes, old(offset), all) <==> Occurs(bytes, offset, rest)
        invariant offset + |rest| == old(offset) + |all|
      {
        var escaped := CanonicalEscape(text[i]);
        rest := EscapeFrom(text, i + 1, false) + [QUOTE];
        assert EscapeFrom(text, i, false) + [QUOTE] == escaped + rest;
        OccursSplit(bytes, offset, escaped, rest);
        ok := Expect(escaped);
        if !ok {
          return;
        }
        i := i + 1;
      }
      assert rest == [QUOTE];
      ok := Expect([QUOTE]);
    }

    /** Consumes a number: integral, in range, and spelled as it would be rendered. */
    method ExpectNumber(value: nat, ghost lexeme: Bytes) returns (ok: bool)
      requires offset <= |bytes| && document.Valid() && Shows(document.tokens, value, Number(lexeme))
      requires IsNumber(lexeme)
      modifies this
      ensures offset <= |bytes|
      ensures ok == (Integral(lexeme) && AsInteger(lexeme).Value? && Occurs(bytes, old(offset), Normal(lexeme)))
      ensures ok ==> offset == old(offset) + |Normal(lexeme)|
    {
      hide IsNumber, Occurs, RenderInt, Normal, AsU64, AsI64, Laid, Cells;
      ghost var j := Number(lexeme);
      ghost var q := TokenShows(document.tokens, value, j);
      var token := document.tokens[value].cell.data;
      var text := if token.text.Some? then token.text.value else [];
      var i := 0;
      while i < |text|
        invariant 0 <= i <= |text| && offset == old(offset)
        invariant forall k :: 0 <= k < i ==> text[k] != POINT && text[k] != LOWER_E && text[k] != UPPER_E
      {
        var byte := text[i];
        if byte == POINT || byte == LOWER_E || byte == UPPER_E {
          return false;
        }
        i := i + 1;
      }
      var rendered: Bytes;
      if |text| != 0 && text[0] == MINUS {
        var code, number := document.ValueI64(value, j);
        if !code.Ok? {
          return false;
        }
        rendered := RenderInt(number);
      } else {
        var code, number := document.ValueU64(value, j);
        if !code.Ok? {
          return false;
        }
        rendered := RenderInt(number);
      }
      IntegerReproduced(lexeme);
      ok := Expect(rendered);
    }

    /** Consumes the elements and delimiters of an array. */
    method ExpectArray(value: nat, ghost profile: Profile, ghost j: Json, ghost level: nat) returns (ok: bool)
      requires offset <= |bytes| && document.Valid() && Shows(document.tokens, value, j) && j.Array?
      requires Carried(profile, j)
      modifies this
      ensures offset <= |bytes|
      ensures ok <==> Asks(j) && Occurs(bytes, old(offset), Canon(j, level))
      ensures ok ==> offset == old(offset) + |Canon(j, level)|
      decreases j, 0
    {
      hide Occurs, Canon, Asks, ItemsTail, Cells, Laid, RoseOf, InTable;
      ghost var items, b, from := j.items, bytes, offset;
      ghost var all := Canon(j, level);
      ghost var rest := ItemsTail(items, 0, level);
      ghost var q := TokenShows(document.tokens, value, j);
      ArrayRose(items);
      ArrayText(items, level);
      AsksItems(items);
      OccursSplit(b, from, [OPEN_BRACKET], rest);
      ok := Expect([OPEN_BRACKET]);
      if !ok {
        return;
      }
      var count := document.tokens[value].cell.links.count;
      var i := 0;
      while i < count
        invariant 0 <= i <= count == |items| && offset <= |bytes|
        invariant forall k :: 0 <= k < i ==> Asks(items[k])
        invariant rest == ItemsTail(items, i, level)
        invariant Occurs(b, from, all) <==> Occurs(b, offset, rest)
        invariant offset + |rest| == from + |all|
      {
        ItemsTailAt(items, i, level, b, offset);
        if i != 0 {
          ok := Expect([COMMA]);
          if !ok {
            return;
          }
        }
        var element := document.Child(value, i, j);
        assert ShowsUnder(document.tokens, element, value, items[i]);
        ok := ExpectValue(element, profile, items[i], level + 1);
        if !ok {
          return;
        }
        i := i + 1;
        rest := ItemsTail(items, i, level);
      }
      assert rest == [CLOSE_BRACKET] by {
        ItemsTailEnd(items, level);
      }
      ok := Expect([CLOSE_BRACKET]);
    }

    /** Consumes a key, its colon and its value. */
    method ExpectMember(value: nat, index: nat, ghost profile: Profile, ghost j: Json, ghost level: nat,
                        key: Bytes, child: nat)
      returns (ok: bool)
      requires offset <= |bytes| && document.Valid() && j.Object? && index < |j.members|
      requires key == j.members[index].key && Shows(document.tokens, child, j.members[index].value)
      requires Carried(profile, j)
      modifies this
      ensures offset <= |bytes|
      ensures var m := j.members[index];
              && (ok <==> Asks(m.value) && Occurs(bytes, old(offset), MemberText(m, level)))
              && (ok ==> offset == old(offset) + |MemberText(m, level)|)
      decreases j, 0
    {
      hide Occurs, Canon, Asks, Cells, Laid, Quoted;
      ghost var m := j.members[index];
      OccursSplit(bytes, offset, Quoted(m.key, false), [COLON] + Canon(m.value, level + 1));
      OccursSplit(bytes, offset + |Quoted(m.key, false)|, [COLON], Canon(m.value, level + 1));
      ok := ExpectString(key);
      if !ok {
        return;
      }
      ok := Expect([COLON]);
      if !ok {
        return;
      }
      ok := ExpectValue(child, profile, m.value, level + 1);
    }

    /** Consumes the members and delimiters of an object, keys strictly ascending. */
    method ExpectObject(value: nat, ghost profile: Profile, ghost j: Json, ghost level: nat) returns (ok: bool)
      requires offset <= |bytes| && document.Valid() && Shows(document.tokens, value, j) && j.Object?
      requires Carried(profile, j)
      modifies this
      ensures offset <= |bytes|
      ensures ok <==> Asks(j) && Occurs(bytes, old(offset), Canon(j, level))
      ensures ok ==> offset == old(offset) + |Canon(j, level)|
      decreases j, 1
    {
      hide Occurs, Canon, Asks, MembersTail, Cells, Laid, RoseOf, InTable, KeyCompare, InKeyOrder, MemberText, Valid;
      ghost var ms, b, from := j.members, bytes, offset;
      ghost var all := Canon(j, level);
      ghost var rest := MembersTail(ms, 0, level);
      ghost var q := TokenShows(document.tokens, value, j);
      ObjectRose(ms);
      ObjectText(ms, level);
      AsksMembers(ms);
      CarriedKeys(profile, ms);
      OccursSplit(b, from, [OPEN_BRACE], rest);
      ok := Expect([OPEN_BRACE]);
      if !ok {
        return;
      }
      var members := document.tokens[value].cell.links.count / 2;
      var previous: Option<Bytes> := None;
      var i := 0;
      NoneInOrder(ms);
      while i < members
        invariant 0 <= i <= members == |ms| && offset <= |bytes|
        invariant previous == if i == 0 then None else Some(ms[i - 1].key)
        invariant InKeyOrder(ms[..i])
        invariant forall k :: 0 <= k < i ==> Asks(ms[k].value)
        invariant rest == MembersTail(ms, i, level)
        invariant Occurs(b, from, all) <==> Occurs(b, offset, rest)
        invariant offset + |rest| == from + |all|
      {
        MembersTailAt(ms, i, level, b, offset);
        NextInOrder(ms, i);
        if i != 0 {
          ok := Expect([COMMA]);
          if !ok {
            return;
          }
        }
        var key, child := document.MemberAt(value, i, j);
        if previous.Some? {
          var order := Compare(previous.value, key);
          if order >= 0 {
            ok := false;
            return;
          }
        }
        ok := ExpectMember(value, i, profile, j, level, key, child);
        if !ok {
          return;
        }
        previous := Some(key);
        i := i + 1;
        rest := MembersTail(ms, i, level);
      }
      assert ms[..i] == ms;
      assert rest == [CLOSE_BRACE] by {
        MembersTailEnd(ms, level);
      }
      ok := Expect([CLOSE_BRACE]);
    }

    method ExpectValue(value: nat, ghost profile: Profile, ghost j: Json, ghost level: nat) returns (ok: bool)
      requires offset <= |bytes| && document.Valid() && Shows(document.tokens, value, j) && Carried(profile, j)
      modifies this
      ensures offset <= |bytes|
      ensures ok <==> Asks(j) && Occurs(bytes, old(offset), Canon(j, level))
      ensures ok ==> offset == old(offset) + |Canon(j, level)|
      decreases j, 2
    {
      hide Occurs, Cells, Laid, Quoted, Normal, Integral;
      ghost var q := TokenShows(document.tokens, value, j);
      var token := document.tokens[value].cell.data;
      match token.kind {
        case ObjectKind => ok := ExpectObject(value, profile, j, level);
        case ArrayKind => ok := ExpectArray(value, profile, j, level);
        case StringKind => ok := ExpectString(if token.text.Some? then token.text.value else []);
        case NumberKind => ok := ExpectNumber(value, j.lexeme);
        case BooleanKind => ok := Expect(if token.boolean then TRUE_WORD else FALSE_WORD);
        case NullKind => ok := Expect(NULL_WORD);
      }
    }
  }

  lemma WholeInput(b: Bytes, text: Bytes)
    ensures Occurs(b, 0, text) && |text| == |b| <==> b == text
  {
    if |text| == |b| {
      assert b[0..|b|] == b;
    }
  }

  /** The answer is the one that copying, sorting, printing and comparing would give. */
  method IsCanonical(document: Finished, bytes: Bytes, duplicateCount: int, newline: bool, ghost c: Config)
    returns (canonical: bool)
    requires document.Valid() && ReadText(c, bytes).Parsed?
    requires duplicateCount == Duplicates(ReadText(c, bytes).tree)
    requires Published(document.tokens, document.children[..], Prune(ReadText(c, bytes).tree))
    ensures canonical <==> Streams(bytes, duplicateCount, Prune(ReadText(c, bytes).tree), newline)
    ensures canonical <==> Reference(bytes, Prune(ReadText(c, bytes).tree), newline)
  {
    hide ReadText, Prune, Duplicates, Published, Occurs, Normalized, Laid, Print, Reference, InOrder, IntegersOnly;
    ghost var j := Prune(ReadText(c, bytes).tree);
    StreamsIsReference(c, bytes, newline);
    RootShows(document.tokens, document.children[..], ReadText(c, bytes).tree);
    PublishedIsCarried(c, bytes);
    if duplicateCount != 0 {
      return false;
    }
    ghost var text := Canon(j, 0);
    var cursor := new Cursor(document, bytes);
    canonical := |document.tokens| != 0;
    RootToken(document.tokens, j);
    if canonical {
      canonical := cursor.ExpectValue(0, c.profile, j, 0);
    }
    OccursSplit(bytes, 0, text, [NEWLINE]);
    if canonical && newline {
      canonical := cursor.Expect([NEWLINE]);
    }
    canonical := canonical && cursor.offset == |bytes|;
    WholeInput(bytes, text + [NEWLINE]);
    WholeInput(bytes, text);
    assert Output(Normalized(j), COMPACT, newline) == if newline then text + [NEWLINE] else text;
  }

  lemma PublishedIsCarried(c: Config, b: Bytes)
    requires ReadText(c, b).Parsed?
    ensures Carried(c.profile, Prune(ReadText(c, b).tree))
  {
    hide ReadText, Prune, Carried;
    ParsedIsCarried(c, b);
    PrunedFits(c, ReadText(c, b).tree);
  }

  lemma RootToken(tokens: seq<Token>, j: Json)
    requires Shows(tokens, 0, j)
    ensures |tokens| != 0
  {
    var q := TokenShows(tokens, 0, j);
  }
}
