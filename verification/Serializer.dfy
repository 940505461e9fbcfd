/** Printing a finished node tree into a growing buffer that may not pass maximum_bytes. */
module Serializer {
  import opened Basics
  import opened Utf8
  import opened Numeral
  import opened TextEscape
  import opened Trees
  import opened Printer
  import opened AsciiForm
  import opened Order
  import opened LinkedTable
  import opened TokenTable
  import opened Nodes
  import opened KeySort
  import opened Memory

  const INITIAL_CAPACITY: nat := 128

  /**
    What appending `piece` to `before` may lead to: all of it, LIMIT because the maximum would be passed,
    or MEMORY because a request was refused.
   */
  ghost predicate Appended(before: Bytes, after: Bytes, piece: Bytes, code: Code, maximum: nat, refused: bool) {
    && (code.Ok? || code.Limit? || code.Memory?)
    && (code.Ok? ==> after == before + piece && |after| <= maximum)
    && (code.Limit? ==> |before| + |piece| > maximum)
    && (code.Memory? <==> refused)
  }

  /** A piece after a piece that was appended. */
  lemma Then(a: Bytes, b: Bytes, c: Bytes, p: Bytes, q: Bytes, code: Code, maximum: nat, refused: bool)
    requires Appended(a, b, p, Ok, maximum, false) && Appended(b, c, q, code, maximum, refused)
    ensures Appended(a, c, p + q, code, maximum, refused)
  {
    assert a + p + q == a + (p + q);
  }

  /** What failed on a piece fails on anything that starts with it. */
  lemma Stops(a: Bytes, b: Bytes, p: Bytes, q: Bytes, code: Code, maximum: nat, refused: bool)
    requires Appended(a, b, p, code, maximum, refused) && !code.Ok?
    ensures Appended(a, b, p + q, code, maximum, refused)
  {
  }

  lemma OutOfMemory(a: Bytes, b: Bytes, p: Bytes, maximum: nat)
    ensures Appended(a, b, p, Code.Memory, maximum, true)
  {
  }

  lemma NothingRefused(a: Bytes, b: Bytes, p: Bytes, maximum: nat, refused: bool)
    requires Appended(a, b, p, Ok, maximum, refused)
    ensures !refused
  {
  }

  lemma NoSpaces()
    ensures [NEWLINE] + Spaces(0) == [NEWLINE]
  {
  }

  lemma OneMoreSpace(i: nat)
    ensures ([NEWLINE] + Spaces(i)) + [SPACE] == [NEWLINE] + Spaces(i + 1)
  {
  }

  lemma {:induction false} MoreSpaces(m: nat, n: nat)
    requires m <= n
    ensures |Spaces(m)| <= |Spaces(n)| && Spaces(n)[..m] == Spaces(m)
    ensures ([NEWLINE] + Spaces(m)) + Spaces(n)[m..] == [NEWLINE] + Spaces(n)
  {
    if m < n {
      MoreSpaces(m, n - 1);
    }
  }

  /** What is left of a string after its next byte or code point. */
  lemma NextEscape(t: Bytes, i: nat, ascii: bool)
    requires i < |t| && (ascii ==> PrefixFrom(t, i) == |t|)
    ensures ascii && t[i] >= 0x80 ==>
              && StepAt(t, i) > 0 && IsScalar(PointAt(t, i))
              && EscapeFrom(t, i, ascii) == PointEscape(PointAt(t, i)) + EscapeFrom(t, i + StepAt(t, i), ascii)
              && PrefixFrom(t, i + StepAt(t, i)) == |t|
    ensures !(ascii && t[i] >= 0x80) ==>
              && EscapeFrom(t, i, ascii) == CanonicalEscape(t[i]) + EscapeFrom(t, i + 1, ascii)
              && (ascii ==> PrefixFrom(t, i + 1) == |t|)
  {
    hide PointEscape, CanonicalEscape, PointAt;
    if ascii && t[i] >= 0x80 {
      StepEncodes(t, i);
    }
  }

  lemma NothingToEscape(t: Bytes, ascii: bool)
    ensures EscapeFrom(t, |t|, ascii) == []
  {
  }

  // ----- the sorted tree of a node

  lemma SortedKinds(r: Rose<Data>)
    ensures r.data.kind.ArrayKind? ==> Sorted(TreeOf(r)) == Array(SortedItems(r.kids))
    ensures r.data.kind.ObjectKind? ==> Sorted(TreeOf(r)) == Object(SortMembers(SortedValues(Members(r.kids))))
    ensures !r.data.kind.ArrayKind? && !r.data.kind.ObjectKind? ==> Sorted(TreeOf(r)) == TreeOf(r)
  {
    TreeOfContainer(r);
    if r.data.kind.ObjectKind? {
      SortedObject(Members(r.kids));
    }
    if r.data.kind.ArrayKind? {
      assert Sorted(Array(Items(r.kids))).items == SortedItems(r.kids);
    }
  }

  function SortedItems(kids: seq<Rose<Data>>): (s: seq<Json>)
    ensures |s| == |kids| && forall k :: 0 <= k < |kids| ==> s[k] == Sorted(TreeOf(kids[k]))
  {
    seq(|kids|, k requires 0 <= k < |kids| => Sorted(TreeOf(kids[k])))
  }

  // ----- the children of an object in key order

  function KidIndices(index: nat, kids: seq<Rose<Data>>): (c: seq<nat>)
    ensures |c| == |kids| && forall k :: 0 <= k < |kids| ==> c[k] == KidAt(index, kids, k)
  {
    seq(|kids|, k requires 0 <= k < |kids| => KidAt(index, kids, k))
  }

  lemma KidsIncrease(index: nat, kids: seq<Rose<Data>>)
    ensures Increasing(KidIndices(index, kids))
  {
    hide SizeUpTo;
    var c := KidIndices(index, kids);
    forall i, k | 0 <= i < k < |c| ensures c[i] < c[k] {
      SizeGrows(kids, i, k);
    }
  }

  /** The members below an object node, values sorted, still in document order. */
  function ValuesOf(kids: seq<Rose<Data>>): (ms: seq<Member>)
    ensures |ms| == |kids|
    ensures forall k :: 0 <= k < |kids| ==> ms[k] == Member(NameOf(kids[k].data), Sorted(TreeOf(kids[k])))
  {
    SortedValues(Members(kids))
  }

  lemma ValuesAreSound(profile: Profile, r: Rose<Data>)
    requires Sound(profile, r) && r.data.kind.ObjectKind?
    ensures KeysDistinct(ValuesOf(r.kids)) && ValidKeys(ValuesOf(r.kids))
  {
    hide Printable, Utf8.Valid, TreeOf, Sorted, IsNumber;
    forall k | 0 <= k < |r.kids| ensures Printable(profile, ValuesOf(r.kids)[k].key) {
      assert Sound(profile, r.kids[k]);
    }
    CarriedKeys(profile, ValuesOf(r.kids));
  }

  /** Entry `i` of the sorted indices is the node of entry `i` of the sorted members. */
  lemma SortedEntry(nodes: NodeTable, index: nat, p: nat, profile: Profile, r: Rose<Data>, i: nat) returns (k: nat)
    requires InTable(nodes, index, p, r) && Sound(profile, r) && r.data.kind.ObjectKind? && |nodes| < VALUE_NONE
    requires i < |r.kids|
    ensures var sorted := MergeSort(nodes, KidIndices(index, r.kids));
            && k < |r.kids| && sorted[i] == KidAt(index, r.kids, k) < |nodes|
            && SortMembers(ValuesOf(r.kids))[i] == Member(NameOf(r.kids[k].data), Sorted(TreeOf(r.kids[k])))
            && NameOf(nodes[sorted[i]].data) == NameOf(r.kids[k].data)
            && InTable(nodes, sorted[i], index, r.kids[k]) && Sound(profile, r.kids[k])
  {
    hide InTable, MergeSort, TreeOf, Sorted, SortMembers, Size, Utf8.Valid, DataOk, KidsOk, KidAt, SizeUpTo, KeysDistinct,
         ValidKeys;
    var c, ms := KidIndices(index, r.kids), ValuesOf(r.kids);
    KidsIncrease(index, r.kids);
    ValuesAreSound(profile, r);
    forall j | 0 <= j < |c| ensures KeyAt(nodes, c[j]) == ms[j].key {
      NextLink(nodes, index, p, r, j);
    }
    SortedIndices(nodes, c, ms);
    var sorted := MergeSort(nodes, c);
    k := PositionIn(c, sorted[i]);
    assert Arranged(c, ms, sorted)[i] == ms[k];
    NextLink(nodes, index, p, r, k);
  }

  class Serializer {
    const nodes: NodeTable
    const memory: Allocator
    const maximum: nat
    const style: Style
    var bytes: array<Byte>
    var size: nat
    var capacity: nat

    ghost predicate Valid()
      reads this
    {
      && size <= capacity && size <= maximum < SIZE_MAX / 2
      // One byte more than the capacity, for the terminator.
      && (capacity > 0 ==> bytes.Length == capacity + 1)
      && (capacity <= maximum || capacity == INITIAL_CAPACITY)
    }

    function Content(): Bytes
      reads this, bytes
      requires size <= bytes.Length
    {
      bytes[..size]
    }

    constructor (nodes: NodeTable, maximum: nat, style: Style, memory: Allocator)
      requires 0 < maximum < SIZE_MAX / 2
      ensures Valid() && size <= bytes.Length && Content() == [] && this.memory == memory
      ensures this.nodes == nodes && this.maximum == maximum && this.style == style && fresh(bytes)
    {
      this.nodes, this.memory := nodes, memory;
      this.maximum, this.style := maximum, style;
      bytes := new Byte[0];
      size, capacity := 0, 0;
    }

    /** Room for `extra` more bytes; growth doubles, stops at the maximum and never overflows. */
    method Reserve(extra: nat) returns (code: Code)
      requires Valid() && size <= bytes.Length && extra > 0
      modifies this, memory
      ensures Valid() && size == old(size) <= bytes.Length && Content() == old(Content())
      ensures bytes == old(bytes) || fresh(bytes)
      ensures code == if extra > maximum - size then Code.Limit
              else if memory.refusals > old(memory.refusals) then Code.Memory else Ok
      ensures old(memory.refusals) <= memory.refusals && (code.Memory? <==> memory.refusals > old(memory.refusals))
      ensures code.Ok? ==> size + extra <= capacity && size + extra < bytes.Length
    {
      if extra > maximum - size {
        return Code.Limit;
      }
      var needed := size + extra;
      if needed <= capacity {
        return Ok;
      }
      var larger := if capacity != 0 then capacity else INITIAL_CAPACITY;
      while larger < needed
        invariant 0 < larger && (larger <= maximum || larger == INITIAL_CAPACITY)
        decreases needed - larger
      {
        larger := if larger > maximum / 2 then maximum else larger * 2;
      }
      var granted := memory.Ask();
      if !granted {
        return Code.Memory;
      }
      var grown := new Byte[larger + 1](_ => 0);
      forall k | 0 <= k < size {
        grown[k] := bytes[k];
      }
      bytes, capacity := grown, larger;
      code := Ok;
    }

    method Append(piece: Bytes) returns (code: Code)
      requires Valid() && size <= bytes.Length
      modifies this, bytes, memory
      ensures Valid() && size <= bytes.Length && (bytes == old(bytes) || fresh(bytes))
      ensures memory.refusals >= old(memory.refusals)
      ensures Appended(old(Content()), Content(), piece, code, maximum, memory.refusals > old(memory.refusals))
    {
      if |piece| == 0 {
        return Ok;
      }
      ghost var before := Content();
      code := Reserve(|piece|);
      if !code.Ok? {
        return;
      }
      forall k | 0 <= k < |piece| {
        bytes[size + k] := piece[k];
      }
      size := size + |piece|;
      assert Content() == before + piece;
    }

    /** Newline and indentation; nothing in compact form. */
    method AppendBreak(level: nat) returns (code: Code)
      requires Valid() && size <= bytes.Length
      modifies this, bytes, memory
      ensures Valid() && size <= bytes.Length && (bytes == old(bytes) || fresh(bytes))
      ensures memory.refusals >= old(memory.refusals)
      ensures Appended(old(Content()), Content(), Break(style, level),
                       code, maximum, memory.refusals > old(memory.refusals))
    {
      if !style.indent {
        return Ok;
      }
      hide Appended, Spaces;
      ghost var before := Content();
      ghost var done: Bytes := [NEWLINE];
      code := Append([NEWLINE]);
      var i := 0;
      NoSpaces();
      while code.Ok? && i < level * 2
        invariant Valid() && size <= bytes.Length && (bytes == old(bytes) || fresh(bytes))
        invariant 0 <= i <= level * 2 && memory.refusals >= old(memory.refusals)
        invariant done == [NEWLINE] + Spaces(i)
        invariant Appended(before, Content(), done, code, maximum, memory.refusals > old(memory.refusals))
      {
        ghost var middle, refused := Content(), memory.refusals;
        NothingRefused(before, middle, done, maximum, refused > old(memory.refusals));
        code := Append([SPACE]);
        Then(before, middle, Content(), done, [SPACE], code, maximum, memory.refusals > refused);
        OneMoreSpace(i);
        done := done + [SPACE];
        i := i + 1;
      }
      if !code.Ok? {
        MoreSpaces(i, 2 * level);
        Stops(before, Content(), done, Spaces(2 * level)[i..], code, maximum, memory.refusals > old(memory.refusals));
      }
    }

    method AppendUnicodeEscape(unit: int) returns (code: Code)
      requires Valid() && size <= bytes.Length && 0 <= unit < 0x10000
      modifies this, bytes, memory
      ensures Valid() && size <= bytes.Length && (bytes == old(bytes) || fresh(bytes))
      ensures memory.refusals >= old(memory.refusals)
      ensures Appended(old(Content()), Content(), UnicodeEscape(unit),
                       code, maximum, memory.refusals > old(memory.refusals))
    {
      hide Appended, Hex4Of;
      code := Append([BACKSLASH, LETTER_U] + Hex4Of(unit));
    }

    /** The escapes of one scalar value, a surrogate pair above the basic plane. */
    method AppendPoint(point: Scalar) returns (code: Code)
      requires Valid() && size <= bytes.Length
      modifies this, bytes, memory
      ensures Valid() && size <= bytes.Length && (bytes == old(bytes) || fresh(bytes))
      ensures memory.refusals >= old(memory.refusals)
      ensures Appended(old(Content()), Content(), PointEscape(point),
                       code, maximum, memory.refusals > old(memory.refusals))
    {
      hide Appended, UnicodeEscape;
      if point < 0x10000 {
        code := AppendUnicodeEscape(point);
        return;
      }
      ghost var before := Content();
      var high, low := 0xD800 + (point - 0x10000) / 1024, 0xDC00 + (point - 0x10000) % 1024;
      code := AppendUnicodeEscape(high);
      if !code.Ok? {
        Stops(before, Content(), UnicodeEscape(high), UnicodeEscape(low),
              code, maximum, memory.refusals > old(memory.refusals));
        return;
      }
      ghost var middle, refused := Content(), memory.refusals;
      NothingRefused(before, middle, UnicodeEscape(high), maximum, refused > old(memory.refusals));
      code := AppendUnicodeEscape(low);
      Then(before, middle, Content(), UnicodeEscape(high), UnicodeEscape(low),
           code, maximum, memory.refusals > refused);
    }

    /** The next byte of a literal or, above ASCII and on request, its next code point. */
    method AppendNext(text: Bytes, i: nat) returns (code: Code, next: nat, ghost piece: Bytes)
      requires Valid() && size <= bytes.Length && i < |text| && (style.ascii ==> PrefixFrom(text, i) == |text|)
      modifies this, bytes, memory
      ensures Valid() && size <= bytes.Length && (bytes == old(bytes) || fresh(bytes))
      ensures memory.refusals >= old(memory.refusals) && i < next <= |text|
              && (style.ascii ==> PrefixFrom(text, next) == |text|)
      ensures EscapeFrom(text, i, style.ascii) == piece + EscapeFrom(text, next, style.ascii)
      ensures Appended(old(Content()), Content(), piece, code, maximum, memory.refusals > old(memory.refusals))
    {
      hide Appended, CanonicalEscape, PointEscape, StepAt, PointAt, EscapeFrom, PrefixFrom;
      NextEscape(text, i, style.ascii);
      var byte := text[i];
      if byte >= 0x80 && style.ascii {
        piece := PointEscape(PointAt(text, i));
        code := AppendPoint(PointAt(text, i));
        next := i + StepAt(text, i);
      } else {
        piece := CanonicalEscape(byte);
        code := Append(CanonicalEscape(byte));
        next := i + 1;
      }
    }

    /** A string literal, each byte in canonical spelling or, above ASCII and on request, escaped by code point. */
    method AppendString(text: Bytes) returns (code: Code)
      requires Valid() && size <= bytes.Length && Utf8.Valid(text)
      modifies this, bytes, memory
      ensures Valid() && size <= bytes.Length && (bytes == old(bytes) || fresh(bytes))
      ensures memory.refusals >= old(memory.refusals)
      ensures Appended(old(Content()), Content(), Quoted(text, style.ascii),
                       code, maximum, memory.refusals > old(memory.refusals))
    {
      hide Appended, CanonicalEscape, PointEscape, StepAt, PointAt, EscapeFrom, PrefixFrom;
      ghost var before := Content();
      ghost var all := Quoted(text, style.ascii);
      ghost var done: Bytes := [QUOTE];
      ghost var rest := EscapeFrom(text, 0, style.ascii) + [QUOTE];
      assert all == done + rest;
      code := Append([QUOTE]);
      var i := 0;
      while code.Ok? && i < |text|
        invariant Valid() && size <= bytes.Length && (bytes == old(bytes) || fresh(bytes))
        invariant 0 <= i <= |text| && memory.refusals >= old(memory.refusals)
        invariant style.ascii ==> PrefixFrom(text, i) == |text|
        invariant all == done + rest && rest == EscapeFrom(text, i, style.ascii) + [QUOTE]
        invariant Appended(before, Content(), done, code, maximum, memory.refusals > old(memory.refusals))
      {
        ghost var middle, refused := Content(), memory.refusals;
        NothingRefused(before, middle, done, maximum, refused > old(memory.refusals));
        ghost var piece;
        code, i, piece := AppendNext(text, i);
        Then(before, middle, Content(), done, piece, code, maximum, memory.refusals > refused);
        rest := EscapeFrom(text, i, style.ascii) + [QUOTE];
        done := done + piece;
      }
      if !code.Ok? {
        Stops(before, Content(), done, rest, code, maximum, memory.refusals > old(memory.refusals));
        return;
      }
      ghost var middle, refused := Content(), memory.refusals;
      NothingRefused(before, middle, done, maximum, refused > old(memory.refusals));
      NothingToEscape(text, style.ascii);
      code := Append([QUOTE]);
      Then(before, middle, Content(), done, rest, code, maximum, memory.refusals > refused);
    }

    /** A lexeme as it was given, or an integer rendered. */
    method AppendNumber(data: Data) returns (code: Code)
      requires Valid() && size <= bytes.Length
      modifies this, bytes, memory
      ensures Valid() && size <= bytes.Length && (bytes == old(bytes) || fresh(bytes))
      ensures memory.refusals >= old(memory.refusals)
      ensures Appended(old(Content()), Content(), LexemeOf(data), code, maximum, memory.refusals > old(memory.refusals))
    {
      hide Appended, RenderInt;
      if data.text.Some? {
        code := Append(data.text.value);
        return;
      }
      code := Append(RenderInt(data.number));
    }

    /** What may come before an entry of a container: the comma and the break. */
    method AppendLead(k: nat, level: nat) returns (code: Code)
      requires Valid() && size <= bytes.Length
      modifies this, bytes, memory
      ensures Valid() && size <= bytes.Length && (bytes == old(bytes) || fresh(bytes))
      ensures memory.refusals >= old(memory.refusals)
      ensures Appended(old(Content()), Content(), Lead(style, k, level),
                       code, maximum, memory.refusals > old(memory.refusals))
    {
      hide Appended, Break;
      if k == 0 {
        assert [] + Break(style, level + 1) == Break(style, level + 1);
        code := AppendBreak(level + 1);
        return;
      }
      ghost var before := Content();
      code := Append([COMMA]);
      if !code.Ok? {
        Stops(before, Content(), [COMMA], Break(style, level + 1),
              code, maximum, memory.refusals > old(memory.refusals));
        return;
      }
      ghost var middle, refused := Content(), memory.refusals;
      NothingRefused(before, middle, [COMMA], maximum, refused > old(memory.refusals));
      code := AppendBreak(level + 1);
      Then(before, middle, Content(), [COMMA], Break(style, level + 1), code, maximum, memory.refusals > refused);
    }

    /** The closing delimiter on its own line, when there are lines. */
    method AppendClose(level: nat, closing: Byte) returns (code: Code)
      requires Valid() && size <= bytes.Length
      modifies this, bytes, memory
      ensures Valid() && size <= bytes.Length && (bytes == old(bytes) || fresh(bytes))
      ensures memory.refusals >= old(memory.refusals)
      ensures Appended(old(Content()), Content(), Break(style, level) + [closing], code, maximum,
                       memory.refusals > old(memory.refusals))
    {
      hide Appended, Break;
      ghost var before := Content();
      code := AppendBreak(level);
      if !code.Ok? {
        Stops(before, Content(), Break(style, level), [closing], code, maximum, memory.refusals > old(memory.refusals));
        return;
      }
      ghost var middle, refused := Content(), memory.refusals;
      NothingRefused(before, middle, Break(style, level), maximum, refused > old(memory.refusals));
      code := Append([closing]);
      Then(before, middle, Content(), Break(style, level), [closing], code, maximum, memory.refusals > refused);
    }

    /** A key and the colon after it. */
    method AppendKey(key: Bytes) returns (code: Code)
      requires Valid() && size <= bytes.Length && Utf8.Valid(key)
      modifies this, bytes, memory
      ensures Valid() && size <= bytes.Length && (bytes == old(bytes) || fresh(bytes))
      ensures memory.refusals >= old(memory.refusals)
      ensures Appended(old(Content()), Content(), MemberHead(key, style), code, maximum,
                       memory.refusals > old(memory.refusals))
    {
      hide Appended, Quoted;
      ghost var before := Content();
      ghost var text := Quoted(key, style.ascii);
      var colon: Bytes := if style.indent then [COLON, SPACE] else [COLON];
      assert [COLON] + Gap(style) == colon;
      code := AppendString(key);
      if !code.Ok? {
        Stops(before, Content(), text, colon, code, maximum, memory.refusals > old(memory.refusals));
        return;
      }
      ghost var middle, refused := Content(), memory.refusals;
      NothingRefused(before, middle, text, maximum, refused > old(memory.refusals));
      code := Append(colon);
      Then(before, middle, Content(), text, colon, code, maximum, memory.refusals > refused);
    }

    /** An entry of a container and all below it. */
    method SerializeEntry(child: nat, k: nat, level: nat, key: Option<Bytes>,
                          ghost profile: Profile, ghost p: nat, ghost r: Rose<Data>)
      returns (code: Code)
      requires Valid() && size <= bytes.Length && (key.Some? ==> Utf8.Valid(key.value))
      requires InTable(nodes, child, p, r) && Sound(profile, r) && KeysValid(nodes) && |nodes| < VALUE_NONE
      modifies this, bytes, memory
      ensures Valid() && size <= bytes.Length && (bytes == old(bytes) || fresh(bytes))
      ensures memory.refusals >= old(memory.refusals)
      ensures Appended(old(Content()), Content(), EntryText(style, k, level, key, Sorted(TreeOf(r))), code, maximum,
                       memory.refusals > old(memory.refusals))
      decreases r, 2
    {
      hide Appended, Lead, MemberHead, Print, InTable, Sound, KeysValid, Sorted, TreeOf, Utf8.Valid;
      ghost var before := Content();
      ghost var lead, text := Lead(style, k, level), Print(Sorted(TreeOf(r)), style, level + 1);
      ghost var head := if key.Some? then MemberHead(key.value, style) else [];
      assert lead + (head + text) == lead + head + text;
      code := AppendLead(k, level);
      if !code.Ok? {
        Stops(before, Content(), lead, head + text, code, maximum, memory.refusals > old(memory.refusals));
        return;
      }
      ghost var middle, refused := Content(), memory.refusals;
      NothingRefused(before, middle, lead, maximum, refused > old(memory.refusals));
      if key.Some? {
        code := AppendKey(key.value);
        Then(before, middle, Content(), lead, head, code, maximum, memory.refusals > refused);
        if !code.Ok? {
          Stops(before, Content(), lead + head, text, code, maximum, memory.refusals > old(memory.refusals));
          return;
        }
        middle, refused := Content(), memory.refusals;
        NothingRefused(before, middle, lead + head, maximum, refused > old(memory.refusals));
      } else {
        assert lead + head == lead;
      }
      code := SerializeNode(child, level + 1, profile, p, r);
      Then(before, middle, Content(), lead + head, text, code, maximum, memory.refusals > refused);
    }

    method SerializeArray(index: nat, level: nat, ghost profile: Profile, ghost p: nat, ghost r: Rose<Data>)
      returns (code: Code)
      requires Valid() && size <= bytes.Length && r.data.kind.ArrayKind?
      requires InTable(nodes, index, p, r) && Sound(profile, r) && KeysValid(nodes) && |nodes| < VALUE_NONE
      modifies this, bytes, memory
      ensures Valid() && size <= bytes.Length && (bytes == old(bytes) || fresh(bytes))
      ensures memory.refusals >= old(memory.refusals)
      ensures Appended(old(Content()), Content(), Print(Sorted(TreeOf(r)), style, level), code, maximum,
                       memory.refusals > old(memory.refusals))
      decreases r, 0
    {
      hide Appended, EntryText, Print, InTable, KeysValid, Sorted, TreeOf, ItemsRest, Break, DataOk, KidsOk;
      ghost var before := Content();
      ghost var items := SortedItems(r.kids);
      ghost var all := Print(Sorted(TreeOf(r)), style, level);
      SortedKinds(r);
      FirstLink(nodes, index, p, r);
      if nodes[index].links.count == 0 {
        assert items == [];
        NoEntries(style, level);
        code := Append([OPEN_BRACKET, CLOSE_BRACKET]);
        return;
      }
      ghost var done, rest: Bytes := [OPEN_BRACKET], ItemsRest(items, 0, style, level);
      ArrayPieces(items, style, level);
      code := Append([OPEN_BRACKET]);
      var child, position := nodes[index].links.first, 0;
      while code.Ok? && child != VALUE_NONE
        invariant Valid() && size <= bytes.Length && (bytes == old(bytes) || fresh(bytes))
        invariant memory.refusals >= old(memory.refusals) && position <= |r.kids|
                  && child == KidOrNone(index, r.kids, position)
        invariant all == done + rest && rest == ItemsRest(items, position, style, level)
        invariant Appended(before, Content(), done, code, maximum, memory.refusals > old(memory.refusals))
        decreases |r.kids| - position
      {
        NextLink(nodes, index, p, r, position);
        ghost var middle, refused := Content(), memory.refusals;
        NothingRefused(before, middle, done, maximum, refused > old(memory.refusals));
        ItemsEntry(items, position, style, level);
        ghost var piece := EntryText(style, position, level, None, items[position]);
        code := SerializeEntry(child, position, level, None, profile, index, r.kids[position]);
        Then(before, middle, Content(), done, piece, code, maximum, memory.refusals > refused);
        child := nodes[child].links.next;
        position := position + 1;
        rest := ItemsRest(items, position, style, level);
        assert done + (piece + rest) == (done + piece) + rest;
        done := done + piece;
      }
      if !code.Ok? {
        Stops(before, Content(), done, rest, code, maximum, memory.refusals > old(memory.refusals));
        return;
      }
      NextLink(nodes, index, p, r, position);
      EndOfItems(items, style, level);
      ghost var middle, refused := Content(), memory.refusals;
      NothingRefused(before, middle, done, maximum, refused > old(memory.refusals));
      code := AppendClose(level, CLOSE_BRACKET);
      Then(before, middle, Content(), done, rest, code, maximum, memory.refusals > refused);
    }

    /** The child indices of an object, sorted by key; None when a request is refused. */
    method SortedChildren(index: nat, ghost p: nat, ghost r: Rose<Data>) returns (values: array?<nat>)
      requires Valid() && InTable(nodes, index, p, r) && KeysValid(nodes) && |nodes| < VALUE_NONE
      modifies memory
      ensures memory.refusals >= old(memory.refusals) && (values == null <==> memory.refusals > old(memory.refusals))
      ensures values != null ==>
                fresh(values) && values[..] == MergeSort(nodes, KidIndices(index, r.kids)) && values.Length == |r.kids|
    {
      hide InTable, KeysValid, MergeSort, KidAt;
      FirstLink(nodes, index, p, r);
      var count := nodes[index].links.count;
      var first := memory.Ask();
      var second := memory.Ask();
      if !first || !second {
        return null;
      }
      var list := new nat[count](_ => 0);
      var scratch := new nat[count](_ => 0);
      var position, child := 0, nodes[index].links.first;
      while child != VALUE_NONE
        invariant position <= count == |r.kids| && child == KidOrNone(index, r.kids, position)
        invariant list[..position] == KidIndices(index, r.kids)[..position] && memory.refusals == old(memory.refusals)
        decreases count - position
      {
        NextLink(nodes, index, p, r, position);
        list[position] := child;
        position := position + 1;
        child := nodes[child].links.next;
      }
      NextLink(nodes, index, p, r, position);
      assert list[0..count] == list[..position] == KidIndices(index, r.kids);
      SortKeys(nodes, list, scratch, 0, count);
      assert list[0..count] == list[..];
      values := list;
    }

    method SerializeObject(index: nat, level: nat, ghost profile: Profile, ghost p: nat, ghost r: Rose<Data>)
      returns (code: Code)
      requires Valid() && size <= bytes.Length && r.data.kind.ObjectKind?
      requires InTable(nodes, index, p, r) && Sound(profile, r) && KeysValid(nodes) && |nodes| < VALUE_NONE
      modifies this, bytes, memory
      ensures Valid() && size <= bytes.Length && (bytes == old(bytes) || fresh(bytes))
      ensures memory.refusals >= old(memory.refusals)
      ensures Appended(old(Content()), Content(), Print(Sorted(TreeOf(r)), style, level), code, maximum,
                       memory.refusals > old(memory.refusals))
      decreases r, 0
    {
      hide Appended, EntryText, Print, InTable, Sorted, TreeOf, MembersRest, Break, DataOk, KidsOk, SortMembers, Sound,
           MergeSort, KeysValid, Utf8.Valid;
      ghost var before := Content();
      ghost var members := SortMembers(ValuesOf(r.kids));
      ghost var all := Print(Sorted(TreeOf(r)), style, level);
      SortedKinds(r);
      FirstLink(nodes, index, p, r);
      var count := nodes[index].links.count;
      if count == 0 {
        assert members == [];
        NoEntries(style, level);
        code := Append([OPEN_BRACE, CLOSE_BRACE]);
        return;
      }
      var values := SortedChildren(index, p, r);
      if values == null {
        code := Code.Memory;
        OutOfMemory(before, Content(), all, maximum);
        return;
      }
      ghost var sorted := values[..];
      ghost var done, rest: Bytes := [OPEN_BRACE], MembersRest(members, 0, style, level);
      ObjectPieces(members, style, level);
      code := Append([OPEN_BRACE]);
      var i := 0;
      while code.Ok? && i < count
        invariant Valid() && size <= bytes.Length && (bytes == old(bytes) || fresh(bytes))
        invariant memory.refusals >= old(memory.refusals) && i <= count == |members| && values[..] == sorted
        invariant all == done + rest && rest == MembersRest(members, i, style, level)
        invariant Appended(before, Content(), done, code, maximum, memory.refusals > old(memory.refusals))
        decreases count - i
      {
        ghost var k := SortedEntry(nodes, index, p, profile, r, i);
        ghost var middle, refused := Content(), memory.refusals;
        NothingRefused(before, middle, done, maximum, refused > old(memory.refusals));
        MembersEntry(members, i, style, level);
        ghost var piece := EntryText(style, i, level, Some(members[i].key), members[i].value);
        var child := values[i];
        assert child == sorted[i];
        var key := NameOf(nodes[child].data);
        KeyIsValid(nodes, child);
        code := SerializeEntry(child, i, level, Some(key), profile, index, r.kids[k]);
        Then(before, middle, Content(), done, piece, code, maximum, memory.refusals > refused);
        i := i + 1;
        rest := MembersRest(members, i, style, level);
        assert done + (piece + rest) == (done + piece) + rest;
        done := done + piece;
      }
      if !code.Ok? {
        Stops(before, Content(), done, rest, code, maximum, memory.refusals > old(memory.refusals));
        return;
      }
      EndOfMembers(members, style, level);
      ghost var middle, refused := Content(), memory.refusals;
      NothingRefused(before, middle, done, maximum, refused > old(memory.refusals));
      code := AppendClose(level, CLOSE_BRACE);
      Then(before, middle, Content(), done, rest, code, maximum, memory.refusals > refused);
    }

    method SerializeNode(index: nat, level: nat, ghost profile: Profile, ghost p: nat, ghost r: Rose<Data>)
      returns (code: Code)
      requires Valid() && size <= bytes.Length
      requires InTable(nodes, index, p, r) && Sound(profile, r) && KeysValid(nodes) && |nodes| < VALUE_NONE
      modifies this, bytes, memory
      ensures Valid() && size <= bytes.Length && (bytes == old(bytes) || fresh(bytes))
      ensures memory.refusals >= old(memory.refusals)
      ensures Appended(old(Content()), Content(), Print(Sorted(TreeOf(r)), style, level), code, maximum,
                       memory.refusals > old(memory.refusals))
      decreases r, 1
    {
      hide Appended, InTable, Sound, KeysValid, Quoted, RenderInt, Utf8.Valid;
      FirstLink(nodes, index, p, r);
      SortedKinds(r);
      ScalarText(profile, r, style, level);
      var node := nodes[index].data;
      match node.kind {
        case ObjectKind => code := SerializeObject(index, level, profile, p, r);
        case ArrayKind => code := SerializeArray(index, level, profile, p, r);
        case StringKind => code := AppendString(TextOf(node));
        case NumberKind => code := AppendNumber(node);
        case BooleanKind => code := Append(if node.boolean then TRUE_WORD else FALSE_WORD);
        case NullKind => code := Append(NULL_WORD);
      }
    }
  }

  lemma ScalarText(profile: Profile, r: Rose<Data>, style: Style, level: nat)
    requires Sound(profile, r)
    ensures r.data.kind.StringKind? ==>
              Utf8.Valid(TextOf(r.data)) && Print(TreeOf(r), style, level) == Quoted(TextOf(r.data), style.ascii)
    ensures r.data.kind.NumberKind? ==> Print(TreeOf(r), style, level) == LexemeOf(r.data)
    ensures r.data.kind.BooleanKind? ==>
              Print(TreeOf(r), style, level) == if r.data.boolean then TRUE_WORD else FALSE_WORD
    ensures r.data.kind.NullKind? ==> Print(TreeOf(r), style, level) == NULL_WORD
  {
    hide Quoted, RenderInt, IsNumber;
    if r.data.kind.StringKind? && profile.ContractAscii? {
      AsciiIsValid(TextOf(r.data), 0);
    }
  }

  /** maelys_json_serialize: the sorted text of the whole tree, or LIMIT exactly when it is too long. */
  method Serialize(nodes: NodeTable, maximum: nat, style: Style, newline: bool, ghost profile: Profile,
                   ghost r: Rose<Data>, memory: Allocator)
    returns (code: Code, text: Bytes)
    requires InTable(nodes, 0, VALUE_NONE, r) && Sound(profile, r) && KeysValid(nodes) && |nodes| < VALUE_NONE
    requires 0 < maximum < SIZE_MAX / 2
    modifies memory
    ensures memory.refusals >= old(memory.refusals)
    ensures var output := Output(Sorted(TreeOf(r)), style, newline);
            && code == (if memory.refusals > old(memory.refusals) then Code.Memory
                    else if |output| > maximum then Code.Limit else Ok)
            && (code.Ok? ==> text == output)
    ensures code.Ok? && style.ascii ==> AllAscii(text)
  {
    hide Appended, InTable, Sound, KeysValid, Print, Sorted, TreeOf, Carried, Distinct, AllAscii;
    text := [];
    var s := new Serializer(nodes, maximum, style, memory);
    ghost var body := Print(Sorted(TreeOf(r)), style, 0);
    code := s.SerializeNode(0, 0, profile, VALUE_NONE, r);
    if code.Ok? && newline {
      ghost var middle, refused := s.Content(), memory.refusals;
      NothingRefused([], middle, body, maximum, refused > old(memory.refusals));
      code := s.Append([NEWLINE]);
      Then([], middle, s.Content(), body, [NEWLINE], code, maximum, memory.refusals > refused);
    } else if newline {
      Stops([], s.Content(), body, [NEWLINE], code, maximum, memory.refusals > old(memory.refusals));
    }
    SoundTree(profile, r);
    if style.ascii {
      OutputIsAscii(profile, TreeOf(r), style, newline);
    }
    assert Output(Sorted(TreeOf(r)), style, newline) == if newline then body + [NEWLINE] else body;
    Outcome(s.Content(), Output(Sorted(TreeOf(r)), style, newline), code, maximum,
            memory.refusals > old(memory.refusals));
    if code.Ok? {
      text := s.Content();
    }
  }

  lemma Outcome(after: Bytes, output: Bytes, code: Code, maximum: nat, refused: bool)
    requires Appended([], after, output, code, maximum, refused)
    ensures refused ==> code.Memory?
    ensures !refused ==> code == if |output| > maximum then Code.Limit else Ok
    ensures code.Ok? ==> after == output
  {
  }
}
