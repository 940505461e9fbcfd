/** The recursive-descent parser: one offset over the bytes, a token table, an arena and a key set. */
module Parser {
  import opened Basics
  import opened StringLiteral
  import opened StringDecoder
  import opened Numeral
  import opened Trees
  import opened Reader
  import opened LinkedTable
  import opened Keyset
  import opened TokenTable
  import opened LastWinsTree
  import opened ParserLemmas
  import opened Acceptance

  datatype Fault = Fault(code: Code, offset: nat)

  /** The document being filled: the input, the token table and the space used for decoded text. */
  class Document {
    const profile: Profile
    const bytes: Bytes
    var tokens: seq<Token>
    var tokenCapacity: nat
    var arenaUsed: nat
    var arenaCapacity: nat
    var duplicateCount: nat

    constructor (profile: Profile, bytes: Bytes, tokenCapacity: nat)
      ensures this.profile == profile && this.bytes == bytes && this.tokenCapacity == tokenCapacity
      ensures tokens == [] && arenaUsed == 0 && duplicateCount == 0
      ensures arenaCapacity == |bytes| + tokenCapacity + 1
    {
      this.profile, this.bytes, this.tokenCapacity := profile, bytes, tokenCapacity;
      tokens, arenaUsed, duplicateCount := [], 0, 0;
      arenaCapacity := |bytes| + tokenCapacity + 1;
    }

    /** Hands out arena space; the precondition is the assertion that it never runs out. */
    method ArenaClaim(capacity: nat) returns (text: array<Byte>)
      requires arenaUsed + capacity <= arenaCapacity
      ensures fresh(text) && text.Length == capacity
    {
      text := new Byte[capacity](_ => 0);
    }
  }

  /** Links of a table under construction: parents before children, last children already present. */
  ghost predicate Linked(tokens: seq<Token>) {
    && Ordered(tokens)
    && forall i :: 0 <= i < |tokens| ==>
         && (tokens[i].cell.links.last == VALUE_NONE || tokens[i].cell.links.last < |tokens|)
         && (tokens[i].cell.data.objectKey ==> tokens[i].cell.data.text.Some?)
  }

  predicate ParentOk(parent: nat, size: nat) {
    parent == VALUE_NONE || parent < size
  }

  lemma CellsAppend(tokens: seq<Token>, token: Token)
    ensures Cells(tokens + [token]) == Cells(tokens) + [token.cell]
  {
  }

  /** links_append on the token table. */
  method LinkChild(tokens: seq<Token>, parent: nat, index: nat) returns (linked: seq<Token>)
    requires index == |tokens| < VALUE_NONE && parent < index && Linked(tokens)
    ensures Cells(linked) == Attach(Cells(tokens), parent)
    ensures Extends(tokens, linked) && |linked| == |tokens|
  {
    linked := tokens;
    var container := tokens[parent].cell.links;
    if container.last != VALUE_NONE {
      var last := linked[container.last].cell;
      linked := linked[container.last := linked[container.last].(cell := last.(links := last.links.(next := index)))];
    } else {
      var cell := linked[parent].cell;
      linked := linked[parent := linked[parent].(cell := cell.(links := cell.links.(first := index)))];
    }
    var cell := linked[parent].cell;
    linked := linked[parent := linked[parent].(cell :=
      cell.(links := cell.links.(last := index, count := container.count + 1)))];
  }

  /** Sets the decoded text of the last token. */
  lemma CellsSetText(before: seq<Token>, tokens: seq<Token>, parent: nat, info: Info, text: Bytes)
    requires |tokens| == |before| + 1 && Cells(tokens) == Head(Cells(before), parent, info)
    ensures var last := tokens[|before|];
            var data := last.cell.data.(text := Some(text));
            Cells(tokens[|before| := last.(cell := last.cell.(data := data))]) ==
            Head(Cells(before), parent, info.(text := Some(text)))
  {
    hide Attach;
    var last := tokens[|before|];
    var cell := Cell(LinksInit(parent), info.(text := Some(text)));
    assert Cells(tokens)[|before|] == Cell(LinksInit(parent), info);
    var after := tokens[|before| := last.(cell := last.cell.(data := last.cell.data.(text := Some(text))))];
    forall i | 0 <= i < |after| ensures Cells(after)[i] == (Attach(Cells(before), parent) + [cell])[i] {
      assert i < |before| ==> Cells(tokens)[i] == Attach(Cells(before), parent)[i];
    }
  }

  /** The body of a literal, decoded. */
  function BodyOf(profile: Profile, b: Bytes, start: nat, end: nat): Literal
    requires start <= end <= |b|
  {
    match Decode(profile, b[start..end])
    case Bad(code, at) => Refused(code, start + at)
    case Good(text) => Read(text, end)
  }

  lemma StringAtCases(c: Config, b: Bytes, pos: nat, used: nat)
    ensures var r := StringAt(c, b, pos, used);
            if pos >= |b| || b[pos] != QUOTE then r == Refused(Code.Syntax, pos)
            else
              match ScanBody(c.profile, b, pos + 1)
              case BadByte(at) => r == Refused(Code.Syntax, at)
              case Unterminated => r == Refused(Code.Syntax, pos)
              case Closed(end) =>
                r == if used >= c.capacity then Refused(Code.Limit, pos + 1) else BodyOf(c.profile, b, pos + 1, end)
  {
    hide Decode;
  }

  /** What reading a literal does to the table: a refusal is reported, a text becomes the next token. */
  ghost predicate LiteralStored(r: Literal, before: seq<Token>, after: seq<Token>, parent: nat, objectKey: bool,
                                code: Code, index: nat, error: Option<Fault>)
  {
    match r
    case Refused(c, at) => code == c && !code.Ok? && error == Some(Fault(c, at))
    case Read(text, end) =>
      && code.Ok? && error.None?
      && index == |before| && |after| == index + 1
      && Cells(after) == Head(Cells(before), parent, TextInfo(text, objectKey))
      && Extends(before, after) && !after[index].superseded
  }

  lemma LiteralFails(c: Code, at: nat, before: seq<Token>, after: seq<Token>, parent: nat, objectKey: bool, index: nat)
    requires !c.Ok?
    ensures LiteralStored(Refused(c, at), before, after, parent, objectKey, c, index, Some(Fault(c, at)))
  {
  }

  lemma LiteralCases(r: Literal, before: seq<Token>, after: seq<Token>, parent: nat, objectKey: bool,
                     code: Code, index: nat, error: Option<Fault>)
    requires LiteralStored(r, before, after, parent, objectKey, code, index, error)
    ensures code.Ok? <==> r.Read?
    ensures code.Ok? ==>
              && error.None? && index == |before| && |after| == index + 1
              && Cells(after) == Head(Cells(before), parent, TextInfo(r.text, objectKey))
              && Extends(before, after) && !after[index].superseded
    ensures !code.Ok? ==> code == r.code && error == Some(Fault(code, r.at))
  {
  }

  /** What parsing one value does: the tokens of its tree under `parent`, or the reader's error. */
  ghost predicate ValueStored(r: Parse, before: seq<Token>, after: seq<Token>, parent: nat, code: Code, index: nat,
                              error: Option<Fault>, offset: nat, duplicates: int)
  {
    match r
    case Stopped(c, at, _) => code == c && !code.Ok? && error == Some(Fault(c, at))
    case Parsed(tree, pos, used) =>
      && code.Ok? && index == |before| && offset == pos && |after| == used
      && Cells(after) == Add(Cells(before), parent, RoseOf(tree))
      && duplicates == Duplicates(tree)
  }

  lemma ValueFails(r: Parse, before: seq<Token>, after: seq<Token>, parent: nat, code: Code, index: nat,
                   error: Option<Fault>, offset: nat, duplicates: int)
    requires StopsWith(r, code, if error.Some? then error.value.offset else 0)
    requires !code.Ok? && error.Some? && error.value.code == code
    ensures ValueStored(r, before, after, parent, code, index, error, offset, duplicates)
  {
  }

  lemma ValueCases(r: Parse, before: seq<Token>, after: seq<Token>, parent: nat, code: Code, index: nat,
                   error: Option<Fault>, offset: nat, duplicates: int)
    requires ValueStored(r, before, after, parent, code, index, error, offset, duplicates)
    ensures code.Ok? ==>
              && r == Parsed(r.tree, offset, |after|) && index == |before|
              && Cells(after) == Add(Cells(before), parent, RoseOf(r.tree)) && duplicates == Duplicates(r.tree)
    ensures !code.Ok? ==> error.Some? && error.value.code == code && StopsWith(r, code, error.value.offset)
  {
    hide Cells, Add, RoseOf, Duplicates;
  }

  lemma LeafStored(tree: Json, pos: nat, before: seq<Token>, after: seq<Token>, parent: nat)
    requires !tree.Array? && !tree.Object?
    requires Cells(after) == Head(Cells(before), parent, RoseOf(tree).data)
    ensures ValueStored(Parsed(tree, pos, |after|), before, after, parent, Ok, |before|, None, pos, 0)
  {
    AddLeaf(Cells(before), parent, RoseOf(tree).data);
    assert RoseOf(tree) == Rose(RoseOf(tree).data, []);
  }

  lemma LeafData(lexeme: Bytes, value: Json, info: Info)
    requires Primitive(lexeme) == Some(value) && info == RoseOf(value).data.(text := None)
    ensures !value.Array? && !value.Object? && !info.objectKey
    ensures info.(text := if info.kind.NumberKind? then Some(lexeme) else None) == RoseOf(value).data
  {
  }

  /** What parse_string does: as for the literal, and a key must be new unless later keys win. */
  ghost predicate StringStored(r: Literal, profile: Profile, opening: nat, before: seq<Token>, model: map<Key, nat>,
                               after: seq<Token>, parent: nat, objectKey: bool, code: Code, index: nat,
                               error: Option<Fault>, duplicates: int)
  {
    match r
    case Refused(c, at) => code == c && !code.Ok? && error == Some(Fault(c, at))
    case Read(text, _) =>
      var seen := objectKey && Key(parent, text) in model;
      if seen && !profile.LastWins? then code.DuplicateKey? && error == Some(Fault(code, opening))
      else
        && code.Ok? && index == |before|
        && Cells(after) == Head(Cells(before), parent, TextInfo(text, objectKey))
        && duplicates == if seen then 1 else 0
  }

  lemma StringCases(r: Literal, profile: Profile, opening: nat, before: seq<Token>, model: map<Key, nat>,
                    after: seq<Token>, parent: nat, objectKey: bool, code: Code, index: nat, error: Option<Fault>,
                    duplicates: int)
    requires StringStored(r, profile, opening, before, model, after, parent, objectKey, code, index, error, duplicates)
    ensures code.Ok? ==>
              && r.Read? && index == |before| && Cells(after) == Head(Cells(before), parent, TextInfo(r.text, objectKey))
              && (objectKey && Key(parent, r.text) in model ==> profile.LastWins?)
              && duplicates == if objectKey && Key(parent, r.text) in model then 1 else 0
    ensures !code.Ok? ==>
              && error.Some? && error.value.code == code
              && if r.Refused? then code == r.code && error.value.offset == r.at
                 else objectKey && Key(parent, r.text) in model && !profile.LastWins? && code.DuplicateKey? &&
                      error.value.offset == opening
  {
    hide Cells, Head;
  }

  lemma HeadToken(before: seq<Token>, after: seq<Token>, parent: nat, info: Info)
    requires |after| == |before| + 1 && Cells(after) == Head(Cells(before), parent, info)
    ensures after[|before|].cell == Cell(LinksInit(parent), info)
  {
    assert Cells(after)[|before|] == after[|before|].cell;
  }

  lemma StoredOk(profile: Profile, b: Bytes, start: nat, end: nat, before: seq<Token>, capacity: nat,
                 after: seq<Token>, parent: nat, objectKey: bool, index: nat, error: Option<Fault>)
    requires start <= end <= |b|
    requires LiteralStored(if |before| >= capacity then Refused(Code.Limit, start) else BodyOf(profile, b, start, end),
                           before, after, parent, objectKey, Ok, index, error)
    ensures |before| < capacity && BodyOf(profile, b, start, end).Read? && BodyOf(profile, b, start, end).end == end
  {
    hide Decode, Head;
  }

  /** The table after the earlier holder of a key, if any, was marked. */
  function Marked(tokens: seq<Token>, model: map<Key, nat>, key: Key): seq<Token>
    requires key in model ==> model[key] < |tokens|
  {
    if key in model then tokens[model[key] := tokens[model[key]].(superseded := true)] else tokens
  }

  /** Well-formedness looks at the cells only. */
  lemma SameLinks(before: seq<Token>, after: seq<Token>)
    requires Linked(before) && Cells(before) == Cells(after)
    ensures Linked(after)
  {
    assert |Cells(after)| == |before| == |after|;
    forall i | 0 <= i < |after| ensures after[i].cell == before[i].cell {
      assert Cells(after)[i] == Cells(before)[i];
    }
  }

  /** Links stay well formed when a token is appended. */
  lemma HeadLinked(before: seq<Token>, after: seq<Token>, parent: nat, info: Info)
    requires Linked(before) && ParentOk(parent, |before|) && |after| < VALUE_NONE
    requires Cells(after) == Head(Cells(before), parent, info)
    requires info.objectKey ==> info.text.Some?
    ensures Linked(after)
  {
    assert |Cells(after)| == |after| == |before| + 1;
    forall i | 0 <= i < |after|
      ensures after[i].cell == if i < |before| then Attach(Cells(before), parent)[i] else Cell(LinksInit(parent), info)
    {
      assert after[i].cell == Cells(after)[i];
    }
    hide Cells;
    assert forall i :: 0 <= i < |before| ==> Cells(before)[i] == before[i].cell;
  }

  /** A token that is no key, just appended, leaves links and index in order. */
  lemma PlainAdded(keys: Keys, before: seq<Token>, after: seq<Token>, parent: nat, info: Info)
    requires Linked(before) && ParentOk(parent, |before|) && |after| == |before| + 1 < VALUE_NONE
    requires Indexed(before, keys.model) && keys.Valid(KeyFn(before))
    requires Extends(before, after) && !after[|before|].superseded
    requires Cells(after) == Head(Cells(before), parent, info) && !info.objectKey
    ensures Linked(after) && Indexed(after, keys.model) && keys.Valid(KeyFn(after))
  {
    hide Linked, Indexed, Extends, Head, Cells, Holds, KeyFn;
    HeadLinked(before, after, parent, info);
    HeadToken(before, after, parent, info);
    IndexedPlain(before, after, keys.model);
    ValidFrame(keys, KeyFn(before), KeyFn(after));
  }

  lemma HeadLength(before: seq<Token>, after: seq<Token>, parent: nat, info: Info)
    requires Cells(after) == Head(Cells(before), parent, info)
    ensures |after| == |before| + 1
  {
    assert |Cells(after)| == |after|;
  }

  // ----- an open container

  /** `tokens` is `start` and after it an object, still open, with the members `done`. */
  ghost predicate ObjectOpen(tokens: seq<Token>, start: seq<Token>, parent: nat, done: seq<Member>) {
    Cells(tokens) == OpenObject(Head(Cells(start), parent, OBJECT_INFO), |start|, done)
  }

  ghost predicate ArrayOpen(tokens: seq<Token>, start: seq<Token>, parent: nat, done: seq<Json>) {
    Cells(tokens) == OpenArray(Head(Cells(start), parent, ARRAY_INFO), |start|, done)
  }

  /** The key set answers for the members of the open object. */
  lemma ObjectKeys(tokens: seq<Token>, model: map<Key, nat>, start: seq<Token>, parent: nat, done: seq<Member>)
    requires ObjectOpen(tokens, start, parent, done) && |tokens| < VALUE_NONE
    requires Linked(tokens) && Indexed(tokens, model)
    ensures KeysKnown(model, |start|, done)
  {
    hide OpenObject, Head, Indexed, KeysKnown, MemberRoses, Open;
    OpenObjectLength(Cells(start), parent, done);
    OpenObjectShape(Cells(start), parent, done);
    KeysOfObject(tokens, model, |start|, parent, done);
  }

  lemma ObjectOpens(start: seq<Token>, tokens: seq<Token>, parent: nat)
    requires Cells(tokens) == Head(Cells(start), parent, OBJECT_INFO)
    ensures ObjectOpen(tokens, start, parent, []) && |tokens| == |start| + 1
    ensures tokens[|start|].cell.data == OBJECT_INFO
  {
    ObjectStarts(Cells(start), parent);
    HeadToken(start, tokens, parent, OBJECT_INFO);
  }

  /** A key token and a value's tokens below the object: one more member. */
  lemma ObjectExtends(start: seq<Token>, parent: nat, done: seq<Member>, m: Member,
                      before: seq<Token>, keyed: seq<Token>, after: seq<Token>)
    requires ObjectOpen(before, start, parent, done)
    requires Cells(keyed) == Head(Cells(before), |start|, TextInfo(m.key, true))
    requires Cells(after) == Add(Cells(keyed), |start|, RoseOf(m.value))
    ensures ObjectOpen(after, start, parent, done + [m])
  {
    hide OpenObject, Add, RoseOf, Cells;
    AddLeaf(Cells(before), |start|, TextInfo(m.key, true));
    ObjectGrows(Head(Cells(start), parent, OBJECT_INFO), |start|, done, m);
  }

  lemma ContainerFails(r: Parse, before: seq<Token>, after: seq<Token>, parent: nat, code: Code, index: nat, at: nat,
                       offset: nat, duplicates: int)
    requires r == Stopped(code, at, []) && !code.Ok?
    ensures ValueStored(r, before, after, parent, code, index, Some(Fault(code, at)), offset, duplicates)
  {
  }

  lemma ObjectDone(before: seq<Token>, after: seq<Token>, parent: nat, done: seq<Member>, pos: nat, error: Option<Fault>,
                   duplicates: int)
    requires ObjectOpen(after, before, parent, done) && duplicates == Duplicates(Object(done))
    ensures ValueStored(Parsed(Object(done), pos, |after|), before, after, parent, Ok, |before|, error, pos, duplicates)
  {
    hide Cells, Add, RoseOf, Duplicates, OpenObject, Head;
    ObjectCloses(Cells(before), parent, done);
  }

  lemma ArrayDone(before: seq<Token>, after: seq<Token>, parent: nat, done: seq<Json>, pos: nat, error: Option<Fault>,
                  duplicates: int)
    requires ArrayOpen(after, before, parent, done) && duplicates == Duplicates(Array(done))
    ensures ValueStored(Parsed(Array(done), pos, |after|), before, after, parent, Ok, |before|, error, pos, duplicates)
  {
    hide Cells, Add, RoseOf, Duplicates, OpenArray, Head;
    ArrayCloses(Cells(before), parent, done);
  }

  lemma ArrayOpens(start: seq<Token>, tokens: seq<Token>, parent: nat)
    requires Cells(tokens) == Head(Cells(start), parent, ARRAY_INFO)
    ensures ArrayOpen(tokens, start, parent, []) && |tokens| == |start| + 1
  {
    ArrayStarts(Cells(start), parent);
    HeadToken(start, tokens, parent, ARRAY_INFO);
  }

  lemma ArrayExtends(start: seq<Token>, parent: nat, done: seq<Json>, v: Json, before: seq<Token>, after: seq<Token>)
    requires ArrayOpen(before, start, parent, done)
    requires Cells(after) == Add(Cells(before), |start|, RoseOf(v))
    ensures ArrayOpen(after, start, parent, done + [v])
  {
    hide OpenArray, Add, RoseOf, Cells;
    ArrayGrows(Head(Cells(start), parent, ARRAY_INFO), |start|, done, v);
  }

  lemma TextStored(text: Literal, before: seq<Token>, after: seq<Token>, parent: nat)
    requires text.Read? && Cells(after) == Head(Cells(before), parent, TextInfo(text.text, false))
    ensures ValueStored(Parsed(Text(text.text), text.end + 1, |before| + 1), before, after, parent, Ok, |before|, None,
                        text.end + 1, 0)
  {
    HeadLength(before, after, parent, TextInfo(text.text, false));
    LeafStored(Text(text.text), text.end + 1, before, after, parent);
  }

  class Parser {
    const document: Document
    const maximumDepth: nat
    const keys: Keys
    var offset: nat
    var error: Option<Fault>

    function Config(): Config
      reads this, document
    {
      Reader.Config(document.profile, maximumDepth, document.tokenCapacity)
    }

    /** Holds between any two steps of a parse that has not failed. */
    ghost predicate Valid()
      reads this, document, keys, keys.slots
    {
      && error.None?
      && offset <= |document.bytes|
      && |document.tokens| <= document.tokenCapacity <= SIZE_MAX / 256
      && document.arenaCapacity == |document.bytes| + document.tokenCapacity + 1
      && document.arenaUsed <= offset + |document.tokens|
      && Linked(document.tokens)
      && Indexed(document.tokens, keys.model)
      && keys.Valid(KeyFn(document.tokens))
      // The set was sized for every key the table could hold, so it never grows.
      && keys.slots.Length > document.tokenCapacity
      && 2 * keys.count <= |document.tokens|
    }

    constructor (document: Document, maximumDepth: nat, keys: Keys)
      requires document.tokens == [] && document.tokenCapacity <= SIZE_MAX / 256
      requires document.arenaUsed == 0 && document.arenaCapacity == |document.bytes| + document.tokenCapacity + 1
      requires keys.Valid(KeyFn([])) && keys.model == map[] && keys.slots.Length > document.tokenCapacity
      ensures Valid() && offset == 0
      ensures this.document == document && this.maximumDepth == maximumDepth && this.keys == keys
    {
      this.document, this.maximumDepth, this.keys := document, maximumDepth, keys;
      offset, error := 0, None;
    }

    method Fail(code: Code, at: nat) returns (r: Code)
      modifies this`error
      ensures r == code && error == Some(Fault(code, at))
    {
      error := Some(Fault(code, at));
      r := code;
    }

    method SkipSpace()
      requires offset <= |document.bytes|
      modifies this`offset
      ensures offset == Skip(document.bytes, old(offset)) <= |document.bytes|
    {
      while offset < |document.bytes| && IsSpace(document.bytes[offset])
        invariant offset <= |document.bytes|
        invariant Skip(document.bytes, offset) == Skip(document.bytes, old(offset))
      {
        offset := offset + 1;
      }
    }

    /** Appends a token and links it as the last child of its parent. */
    method AddToken(info: Info, start: nat, parent: nat) returns (code: Code, index: nat)
      requires |document.tokens| <= document.tokenCapacity <= SIZE_MAX / 256
      requires Linked(document.tokens) && ParentOk(parent, |document.tokens|)
      modifies this`error, document`tokens
      ensures code == if |old(document.tokens)| >= document.tokenCapacity then Code.Limit else Ok
      ensures !code.Ok? ==> document.tokens == old(document.tokens) && error == Some(Fault(Code.Limit, start))
      ensures code.Ok? ==>
                && index == |old(document.tokens)| && error == old(error)
                && |document.tokens| == index + 1 <= document.tokenCapacity
                && Cells(document.tokens) == Head(Cells(old(document.tokens)), parent, info)
                && Extends(old(document.tokens), document.tokens)
                && !document.tokens[index].superseded
    {
      index := |document.tokens|;
      if |document.tokens| >= document.tokenCapacity {
        code := Fail(Code.Limit, start);
        return;
      }
      var tokens := document.tokens;
      ghost var before := tokens;
      if parent != VALUE_NONE {
        tokens := LinkChild(tokens, parent, index);
      }
      document.tokens := tokens + [Token(Cell(LinksInit(parent), info), false, 0)];
      CellsAppend(tokens, Token(Cell(LinksInit(parent), info), false, 0));
      code := Ok;
    }

    /** Finds the closing quotation mark; an unterminated literal sets no error. */
    method ScanStringBody() returns (code: Code, end: nat)
      requires offset <= |document.bytes| && error.None?
      modifies this`offset, this`error
      ensures offset <= |document.bytes|
      ensures match ScanBody(document.profile, document.bytes, old(offset))
              case Closed(e) => code.Ok? && end == e && offset == e + 1 && error.None?
              case BadByte(at) => code.Syntax? && error == Some(Fault(Code.Syntax, at))
              case Unterminated => code.Syntax? && error.None?
    {
      end := 0;
      while offset < |document.bytes|
        invariant offset <= |document.bytes| && error.None?
        invariant ScanBody(document.profile, document.bytes, offset) ==
                  ScanBody(document.profile, document.bytes, old(offset))
      {
        var byte := document.bytes[offset];
        if byte == QUOTE {
          end := offset;
          offset := offset + 1;
          return Ok, end;
        }
        if byte < 0x20 {
          code := Fail(Code.Syntax, offset);
          return;
        }
        if document.profile.ContractAscii? && (byte == BACKSLASH || byte > 0x7E) {
          code := Fail(Code.Syntax, offset);
          return;
        }
        if byte == BACKSLASH {
          offset := offset + 1;
          if offset >= |document.bytes| {
            break;
          }
        }
        offset := offset + 1;
      }
      return Code.Syntax, end;
    }

    /** Adds the token of a literal whose body is bytes[start..end] and decodes it. */
    method StoreLiteral(start: nat, end: nat, parent: nat, objectKey: bool) returns (code: Code, index: nat)
      requires |document.tokens| <= document.tokenCapacity <= SIZE_MAX / 256
      requires Linked(document.tokens) && ParentOk(parent, |document.tokens|)
      requires start <= end <= |document.bytes| && error.None?
      requires document.arenaCapacity == |document.bytes| + document.tokenCapacity + 1
      requires document.arenaUsed <= start + |document.tokens|
      modifies this`error, document`tokens, document`arenaUsed
      ensures LiteralStored(
                if |old(document.tokens)| >= document.tokenCapacity then Refused(Code.Limit, start)
                else BodyOf(document.profile, document.bytes, start, end),
                old(document.tokens), document.tokens, parent, objectKey, code, index, error)
      ensures code.Ok? ==>
                |document.tokens| <= document.tokenCapacity && document.arenaUsed <= end + |document.tokens|
    {
      hide DecodeFrom, Attach, Linked;
      ghost var before := document.tokens;
      var info := Info(StringKind, None, objectKey, false);
      code, index := AddToken(info, start, parent);
      if !code.Ok? {
        return;
      }
      var body := document.bytes[start..end];
      var space := document.ArenaClaim(end - start + 1);
      var size, bad;
      code, size, bad := DecodeString(body, document.profile, space);
      if !code.Ok? {
        code := Fail(code, start + bad);
        return;
      }
      DecodeShrinks(document.profile, body, 0);
      var text := space[..size];
      CellsSetText(before, document.tokens, parent, info, text);
      var cell := document.tokens[index].cell;
      document.tokens := document.tokens[index :=
        document.tokens[index].(cell := cell.(data := cell.data.(text := Some(text))))];
      document.arenaUsed := document.arenaUsed + size + 1;
    }

    /** Reads a literal into a new token; keys are not looked up yet. */
    method ReadLiteral(parent: nat, objectKey: bool) returns (code: Code, index: nat)
      requires |document.tokens| <= document.tokenCapacity <= SIZE_MAX / 256
      requires Linked(document.tokens) && ParentOk(parent, |document.tokens|)
      requires offset <= |document.bytes| && error.None?
      requires document.arenaCapacity == |document.bytes| + document.tokenCapacity + 1
      requires document.arenaUsed <= offset + |document.tokens|
      modifies this`offset, this`error, document`tokens, document`arenaUsed
      ensures LiteralStored(StringAt(Config(), document.bytes, old(offset), |old(document.tokens)|),
                            old(document.tokens), document.tokens, parent, objectKey, code, index, error)
      ensures offset <= |document.bytes|
      ensures code.Ok? ==>
                && StringAt(Config(), document.bytes, old(offset), |old(document.tokens)|).Read?
                && offset == StringAt(Config(), document.bytes, old(offset), |old(document.tokens)|).end + 1
                && |document.tokens| <= document.tokenCapacity && document.arenaUsed <= offset + |document.tokens|
    {
      hide ScanBody, Linked, BodyOf, LiteralStored, StringAt;
      var opening := offset;
      index := 0;
      StringAtCases(Config(), document.bytes, opening, |document.tokens|);
      if offset >= |document.bytes| || document.bytes[offset] != QUOTE {
        code := Fail(Code.Syntax, opening);
        LiteralFails(Code.Syntax, opening, document.tokens, document.tokens, parent, objectKey, index);
        return;
      }
      offset := offset + 1;
      var end;
      code, end := ScanStringBody();
      if !code.Ok? {
        if error.None? {
          code := Fail(Code.Syntax, opening);
        }
        LiteralFails(Code.Syntax, error.value.offset, document.tokens, document.tokens, parent, objectKey, index);
        return;
      }
      code, index := StoreLiteral(opening + 1, end, parent, objectKey);
      if code.Ok? {
        StoredOk(document.profile, document.bytes, opening + 1, end, old(document.tokens), document.tokenCapacity,
                 document.tokens, parent, objectKey, index, error);
      }
    }

    /** Enters the key token just read into the key set; an earlier holder of the key is superseded. */
    method IndexKey(index: nat, opening: nat, ghost before: seq<Token>) returns (code: Code)
      requires error.None? && keys.Valid(KeyFn(before)) && Indexed(before, keys.model)
      requires Extends(before, document.tokens) && |before| == index && |document.tokens| == index + 1 < VALUE_NONE
      requires document.tokens[index].cell.data.objectKey && !document.tokens[index].superseded
      requires keys.slots.Length >= |document.tokens| && 2 * keys.count + 2 <= |document.tokens|
      modifies this`error, document`tokens, document`duplicateCount, keys, keys.slots
      ensures var key := TokenKey(old(document.tokens)[index]);
              var seen := key in old(keys.model);
              && code == (if seen && !document.profile.LastWins? then Code.DuplicateKey else Ok)
              && (code.Ok? ==>
                    && Cells(document.tokens) == Cells(old(document.tokens))
                    && document.duplicateCount == old(document.duplicateCount) + (if seen then 1 else 0))
      ensures !code.Ok? ==> error == Some(Fault(code, opening))
      ensures code.Ok? ==>
                && error.None? && Indexed(document.tokens, keys.model) && keys.Valid(KeyFn(document.tokens))
                && keys.slots == old(keys.slots) && 2 * keys.count <= |document.tokens|
    {
      hide Indexed, Extends, Holds, PowerOfTwo, Occupied;
      var tokens := document.tokens;
      ghost var model := keys.model;
      ghost var key := TokenKey(tokens[index]);
      KeysOfIndexed(before, model);
      IndexedKey(before, tokens, Marked(tokens, model, key), model);
      ValidFrame(keys, KeyFn(before), KeyFn(tokens));
      var replace := document.profile.LastWins?;
      var previous;
      code, previous := keys.Insert(index, replace, KeyFn(tokens), false);
      if !code.Ok? {
        code := Fail(code, opening);
        return;
      }
      if replace && previous != VALUE_NONE {
        document.tokens := tokens[previous := tokens[previous].(superseded := true)];
        document.duplicateCount := document.duplicateCount + 1;
      }
      KeysOfIndexed(document.tokens, keys.model);
      ValidFrame(keys, KeyFn(tokens), KeyFn(document.tokens));
    }

    method ParseString(parent: nat, objectKey: bool) returns (code: Code, index: nat)
      requires Valid() && ParentOk(parent, |document.tokens|)
      requires objectKey ==> 2 * keys.count + 1 <= |document.tokens|
      modifies this`offset, this`error, document`tokens, document`arenaUsed, document`duplicateCount, keys, keys.slots
      ensures StringStored(StringAt(Config(), document.bytes, old(offset), |old(document.tokens)|),
                           document.profile, old(offset), old(document.tokens), old(keys.model), document.tokens,
                           parent, objectKey, code, index, error,
                           document.duplicateCount - old(document.duplicateCount))
      ensures code.Ok? ==>
                && Valid() && keys.slots == old(keys.slots)
                && StringAt(Config(), document.bytes, old(offset), |old(document.tokens)|).Read?
                && offset == StringAt(Config(), document.bytes, old(offset), |old(document.tokens)|).end + 1
      ensures code.Ok? && !objectKey ==> keys.count == old(keys.count)
    {
      hide Indexed, Extends, Linked, LiteralStored, StringAt, Head, Cells, Holds, Occupied,
           PowerOfTwo, KeyFn;
      var opening := offset;
      ghost var before := document.tokens;
      ghost var r := StringAt(Config(), document.bytes, opening, |before|);
      code, index := ReadLiteral(parent, objectKey);
      LiteralCases(r, before, document.tokens, parent, objectKey, code, index, error);
      if !code.Ok? {
        return;
      }
      ghost var info := TextInfo(r.text, objectKey);
      HeadLinked(before, document.tokens, parent, info);
      HeadToken(before, document.tokens, parent, info);
      if objectKey {
        ghost var read := document.tokens;
        code := IndexKey(index, opening, before);
        if code.Ok? {
          SameLinks(read, document.tokens);
        }
      } else {
        IndexedPlain(before, document.tokens, keys.model);
        ValidFrame(keys, KeyFn(before), KeyFn(document.tokens));
      }
    }

    /** Consumes a comma and the space after it, or the closing delimiter. */
    method ContainerDelimiter(closing: Byte) returns (closed: bool, code: Code)
      requires offset <= |document.bytes| && error.None?
      modifies this`offset, this`error
      ensures old(offset) <= offset <= |document.bytes|
      ensures match Delimiter(document.bytes, old(offset), closing)
              case Close(pos) => closed && code.Ok? && error.None? && offset == pos
              case Again(pos) => !closed && code.Ok? && error.None? && offset == pos
              case Broken(at) => closed && code.Syntax? && error == Some(Fault(Code.Syntax, at))
    {
      code := Ok;
      SkipSpace();
      if offset >= |document.bytes| {
        code := Fail(Code.Syntax, offset);
        return true, code;
      }
      var at := offset;
      offset := offset + 1;
      var delimiter := document.bytes[at];
      if delimiter == closing {
        return true, Ok;
      }
      if delimiter != COMMA {
        code := Fail(Code.Syntax, at);
        return true, code;
      }
      SkipSpace();
      return false, Ok;
    }

    /** Moves to the next delimiter and tells what the bytes passed over spell. */
    method ScanPrimitive() returns (info: Option<Info>)
      requires offset <= |document.bytes|
      modifies this`offset
      ensures offset == RunEnd(document.bytes, old(offset)) <= |document.bytes|
      ensures var value := Primitive(document.bytes[old(offset)..offset]);
              match value
              case None => info.None?
              case Some(v) => info == Some(RoseOf(v).data.(text := None)) && !v.Array? && !v.Object? && !v.Text?
    {
      var start := offset;
      while offset < |document.bytes| && !IsDelimiter(document.bytes[offset])
        invariant start <= offset <= |document.bytes|
        invariant RunEnd(document.bytes, offset) == RunEnd(document.bytes, start)
      {
        offset := offset + 1;
      }
      var lexeme := document.bytes[start..offset];
      if lexeme == TRUE_WORD {
        return Some(Info(BooleanKind, None, false, true));
      } else if lexeme == FALSE_WORD {
        return Some(Info(BooleanKind, None, false, false));
      } else if lexeme == NULL_WORD {
        return Some(Info(NullKind, None, false, false));
      }
      var number := NumberSyntax(lexeme);
      if number {
        return Some(Info(NumberKind, None, false, false));
      }
      return None;
    }

    /** Adds the token of a primitive that ends at the offset; a number keeps its lexeme. */
    method StorePrimitive(info: Info, start: nat, parent: nat) returns (code: Code, index: nat)
      requires |document.tokens| <= document.tokenCapacity <= SIZE_MAX / 256
      requires Linked(document.tokens) && ParentOk(parent, |document.tokens|)
      requires start <= offset <= |document.bytes| && error.None? && info.text.None?
      requires document.arenaCapacity == |document.bytes| + document.tokenCapacity + 1
      requires document.arenaUsed <= start + |document.tokens|
      modifies this`error, document`tokens, document`arenaUsed
      ensures code == if |old(document.tokens)| >= document.tokenCapacity then Code.Limit else Ok
      ensures !code.Ok? ==> error == Some(Fault(code, start))
      ensures code.Ok? ==>
                && index == |old(document.tokens)| && |document.tokens| == index + 1 <= document.tokenCapacity
                && error.None?
                && Cells(document.tokens) ==
                   Head(Cells(old(document.tokens)), parent,
                        info.(text := if info.kind.NumberKind? then Some(document.bytes[start..offset]) else None))
                && Extends(old(document.tokens), document.tokens) && !document.tokens[index].superseded
                && document.arenaUsed <= offset + |document.tokens|
    {
      hide Attach, Linked;
      ghost var before := document.tokens;
      code, index := AddToken(info, start, parent);
      if !code.Ok? {
        return;
      }
      if info.kind.NumberKind? {
        var size := offset - start;
        var text := document.bytes[start..offset];
        var space := document.ArenaClaim(size + 1);
        CellsSetText(before, document.tokens, parent, info, text);
        var cell := document.tokens[index].cell;
        document.tokens := document.tokens[index :=
          document.tokens[index].(cell := cell.(data := cell.data.(text := Some(text))))];
        document.arenaUsed := document.arenaUsed + size + 1;
      }
    }

    method ParsePrimitive(parent: nat, ghost depth: nat) returns (code: Code, index: nat)
      requires Valid() && ParentOk(parent, |document.tokens|)
      requires offset < |document.bytes| && !IsSpace(document.bytes[offset])
      requires document.bytes[offset] !in {QUOTE, OPEN_BRACE, OPEN_BRACKET}
      modifies this`offset, this`error, document`tokens, document`arenaUsed
      ensures ValueStored(ValueAt(Config(), document.bytes, old(offset), depth, |old(document.tokens)|),
                          old(document.tokens), document.tokens, parent, code, index, error, offset, 0)
      ensures code.Ok? ==> Valid() && 2 * keys.count + 1 <= |document.tokens|
    {
      hide Indexed, Extends, Linked, Head, Cells, Primitive, ValueAt, RunEnd, ValueStored, RoseOf, Holds, Occupied,
           PowerOfTwo, KeyFn, IsNumber, StopsWith;
      var start := offset;
      ghost var before := document.tokens;
      ghost var r := ValueAt(Config(), document.bytes, start, depth, |before|);
      PrimitiveStart(Config(), document.bytes, start, depth, |before|);
      index := 0;
      var info := ScanPrimitive();
      var lexeme := document.bytes[start..offset];
      if info.None? {
        code := Fail(Code.Syntax, start);
        ValueFails(r, before, document.tokens, parent, code, index, error, offset, 0);
        return;
      }
      code, index := StorePrimitive(info.value, start, parent);
      if !code.Ok? {
        ValueFails(r, before, document.tokens, parent, code, index, error, offset, 0);
      } else {
        ghost var value := Primitive(lexeme).value;
        ghost var stored := RoseOf(value).data;
        LeafData(lexeme, value, info.value);
        PlainAdded(keys, before, document.tokens, parent, stored);
        LeafStored(value, offset, before, document.tokens, parent);
      }
    }

    /** A key and the colon after it. */
    method ParseKey(container: nat, ghost depth: nat, ghost start: seq<Token>, ghost parent: nat,
                    ghost done: seq<Member>)
      returns (code: Code, ghost key: Bytes)
      requires Valid() && 2 * keys.count + 1 <= |document.tokens|
      requires container == |start| < |document.tokens| && ObjectOpen(document.tokens, start, parent, done)
      modifies this`offset, this`error, document`tokens, document`arenaUsed, document`duplicateCount, keys, keys.slots
      ensures !code.Ok? ==>
                && error.Some? && error.value.code == code
                && StopsWith(MembersAt(Config(), document.bytes, old(offset), depth, |old(document.tokens)|, done),
                             code, error.value.offset)
      ensures code.Ok? ==>
                && Valid() && keys.slots == old(keys.slots)
                && old(offset) < offset && |document.tokens| == |old(document.tokens)| + 1
                && Cells(document.tokens) == Head(Cells(old(document.tokens)), container, TextInfo(key, true))
                && KeyRead(Config(), document.bytes, old(offset), |old(document.tokens)|, done, key, offset)
                && document.duplicateCount == old(document.duplicateCount) + (if HasKey(done, key) then 1 else 0)
    {
      hide Indexed, Linked, Head, Cells, StringAt, MembersAt, StringStored, Holds, Occupied, PowerOfTwo, KeyFn,
           StopsWith, ObjectOpen, HasKey, ValueAt;
      ghost var c := Config();
      ghost var b := document.bytes;
      ghost var before, turn, model := document.tokens, offset, keys.model;
      ghost var zero := document.duplicateCount;
      ghost var r := StringAt(c, b, turn, |before|);
      key := if r.Read? then r.text else [];
      ObjectKeys(before, model, start, parent, done);
      MembersKeyFails(c, b, turn, depth, |before|, done);
      var index;
      code, index := ParseString(container, true);
      StringCases(r, document.profile, turn, before, model, document.tokens, container, true, code, index, error,
                  document.duplicateCount - zero);
      if !code.Ok? {
        return;
      }
      MembersValueFails(c, b, turn, depth, |before|, done);
      SkipSpace();
      if offset >= |document.bytes| || document.bytes[offset] != COLON {
        code := Fail(Code.Syntax, offset);
        return;
      }
      offset := offset + 1;
      HeadLength(before, document.tokens, container, TextInfo(key, true));
    }

    /** One turn of the member loop: the key, the colon and the value. */
    method ParseMember(container: nat, depth: nat, ghost start: seq<Token>, ghost parent: nat, ghost done: seq<Member>)
      returns (code: Code, ghost member: Member)
      requires Valid() && 2 * keys.count + 1 <= |document.tokens|
      requires container == |start| < |document.tokens| && ObjectOpen(document.tokens, start, parent, done)
      modifies this`offset, this`error, document`tokens, document`arenaUsed, document`duplicateCount, keys, keys.slots
      ensures !code.Ok? ==>
                && error.Some? && error.value.code == code
                && StopsWith(MembersAt(Config(), document.bytes, old(offset), depth, |old(document.tokens)|, done),
                             code, error.value.offset)
      ensures code.Ok? ==>
                && Valid() && 2 * keys.count + 1 <= |document.tokens| && keys.slots == old(keys.slots)
                && |old(document.tokens)| <= |document.tokens|
                && MemberRead(Config(), document.bytes, old(offset), depth, |old(document.tokens)|, done, member,
                              offset, |document.tokens|)
                && ObjectOpen(document.tokens, start, parent, done + [member])
                && document.duplicateCount == old(document.duplicateCount) +
                   Duplicates(Object(done + [member])) - Duplicates(Object(done))
      decreases |document.bytes| - offset, 0
    {
      hide Indexed, Linked, Head, Cells, StringAt, MembersAt, ValueStored, Holds, Occupied, PowerOfTwo, KeyFn,
           StopsWith, ObjectOpen, HasKey, ValueAt, KeyRead, MemberRead, Duplicates, RoseOf, Add;
      ghost var c := Config();
      ghost var b := document.bytes;
      ghost var before, turn := document.tokens, offset;
      ghost var zero := document.duplicateCount;
      member := Member([], Null);
      ghost var key;
      code, key := ParseKey(container, depth, start, parent, done);
      if !code.Ok? {
        return;
      }
      ghost var keyed, from, one := document.tokens, offset, document.duplicateCount;
      ghost var r := ValueAt(c, b, from, depth + 1, |keyed|);
      var index;
      code, index := ParseValue(container, depth + 1);
      ValueCases(r, keyed, document.tokens, container, code, index, error, offset, document.duplicateCount - one);
      if !code.Ok? {
        KeyThenError(c, b, turn, depth, |before|, done, key, from, code, error.value.offset);
        return;
      }
      member := Member(key, r.tree);
      KeyThenValue(c, b, turn, depth, |before|, done, member, from, offset, |document.tokens|);
      ObjectExtends(start, parent, done, member, before, keyed, document.tokens);
      ObjectDuplicatesSnoc(done, member);
    }

    /** The nesting limit, the container's token, its opening delimiter and the space after it. */
    method OpenContainer(info: Info, parent: nat, depth: nat) returns (code: Code, index: nat)
      requires Valid() && ParentOk(parent, |document.tokens|)
      requires offset < |document.bytes| && info in {OBJECT_INFO, ARRAY_INFO}
      modifies this`offset, this`error, document`tokens
      ensures code == if depth >= maximumDepth || |old(document.tokens)| >= document.tokenCapacity then Code.Limit else Ok
      ensures !code.Ok? ==> error == Some(Fault(code, old(offset)))
      ensures code.Ok? ==>
                && Valid() && 2 * keys.count + 1 <= |document.tokens| && index == |old(document.tokens)|
                && |document.tokens| == index + 1 && offset == Skip(document.bytes, old(offset) + 1)
                && Cells(document.tokens) == Head(Cells(old(document.tokens)), parent, info)
    {
      hide Indexed, Extends, Linked, Head, Cells, Holds, Occupied, PowerOfTwo, KeyFn;
      ghost var before := document.tokens;
      index := 0;
      if depth >= maximumDepth {
        code := Fail(Code.Limit, offset);
        return;
      }
      code, index := AddToken(info, offset, parent);
      if !code.Ok? {
        return;
      }
      PlainAdded(keys, before, document.tokens, parent, info);
      offset := offset + 1;
      SkipSpace();
    }

    /** The members of an open object, its closing brace included. */
    method ParseMembers(index: nat, depth: nat, ghost before: seq<Token>, ghost parent: nat)
      returns (code: Code, ghost done: seq<Member>)
      requires Valid() && 2 * keys.count + 1 <= |document.tokens|
      requires index == |before| < |document.tokens| && ObjectOpen(document.tokens, before, parent, [])
      modifies this`offset, this`error, document`tokens, document`arenaUsed, document`duplicateCount, keys, keys.slots
      ensures var r := MembersAt(Config(), document.bytes, old(offset), depth, |old(document.tokens)|, []);
              && (!code.Ok? ==> error.Some? && error.value.code == code && StopsWith(r, code, error.value.offset))
              && (code.Ok? ==> r == Parsed(Object(done), offset, |document.tokens|))
      ensures code.Ok? ==>
                && Valid() && 2 * keys.count + 1 <= |document.tokens| && keys.slots == old(keys.slots)
                && ObjectOpen(document.tokens, before, parent, done)
                && document.duplicateCount == old(document.duplicateCount) + Duplicates(Object(done))
      decreases |document.bytes| - offset, 3
    {
      hide Indexed, Extends, Linked, Head, Cells, ValueAt, MembersAt, RoseOf, Holds, Occupied, PowerOfTwo, KeyFn,
           ObjectOpen, Duplicates, Skip, Delimiter, StopsWith, Add, MemberRead, HasKey, StringAt;
      ghost var zero := document.duplicateCount;
      ghost var c := Config();
      ghost var b := document.bytes;
      ghost var r := MembersAt(c, b, offset, depth, |document.tokens|, []);
      EmptyDuplicates();
      code, done := Ok, [];
      var closed := false;
      while !closed
        invariant old(offset) <= offset <= |b|
        invariant closed && !code.Ok? ==>
                    error.Some? && error.value.code == code && StopsWith(r, code, error.value.offset)
        invariant !closed ==>
                    code.Ok? && r == MembersAt(c, b, offset, depth, |document.tokens|, done)
        invariant closed && code.Ok? ==> r == Parsed(Object(done), offset, |document.tokens|)
        invariant code.Ok? ==>
                    && Valid() && 2 * keys.count + 1 <= |document.tokens| && index < |document.tokens|
                    && ObjectOpen(document.tokens, before, parent, done)
                    && document.duplicateCount == zero + Duplicates(Object(done))
        invariant keys.slots == old(keys.slots)
        decreases |b| - offset, if closed then 0 else 1
      {
        ghost var turn, used := offset, |document.tokens|;
        ghost var member;
        code, member := ParseMember(index, depth, before, parent, done);
        if !code.Ok? {
          return;
        }
        MembersTurn(c, b, turn, depth, used, done, member, offset, |document.tokens|);
        done := done + [member];
        closed, code := ContainerDelimiter(CLOSE_BRACE);
      }
    }

    method ParseObject(parent: nat, depth: nat) returns (code: Code, index: nat)
      requires Valid() && ParentOk(parent, |document.tokens|)
      requires offset < |document.bytes| && document.bytes[offset] == OPEN_BRACE
      modifies this`offset, this`error, document`tokens, document`arenaUsed, document`duplicateCount, keys, keys.slots
      ensures ValueStored(ValueAt(Config(), document.bytes, old(offset), depth, |old(document.tokens)|),
                          old(document.tokens), document.tokens, parent, code, index, error, offset,
                          document.duplicateCount - old(document.duplicateCount))
      ensures code.Ok? ==> Valid() && 2 * keys.count + 1 <= |document.tokens| && keys.slots == old(keys.slots)
      decreases |document.bytes| - offset, 0
    {
      hide Indexed, Extends, Linked, Head, Cells, ValueAt, MembersAt, ValueStored, RoseOf, Holds, Occupied,
           PowerOfTwo, KeyFn, StopsWith, ObjectOpen, MemberRead, Duplicates, Skip, Delimiter, IsSpace, HasKey,
           StringAt;
      ghost var before := document.tokens;
      ghost var zero := document.duplicateCount;
      ghost var c := Config();
      ghost var b := document.bytes;
      ghost var r := ValueAt(c, b, offset, depth, |before|);
      ghost var opening := offset;
      ContainerStart(c, b, offset, depth, |before|);
      code, index := OpenContainer(OBJECT_INFO, parent, depth);
      if !code.Ok? {
        ContainerFails(r, before, document.tokens, parent, code, index, opening, offset, 0);
        return;
      }
      EmptyDuplicates();
      ObjectOpens(before, document.tokens, parent);
      ghost var done: seq<Member> := [];
      if offset < |document.bytes| && document.bytes[offset] == CLOSE_BRACE {
        offset := offset + 1;
      } else {
        code, done := ParseMembers(index, depth, before, parent);
        if !code.Ok? {
          ValueFails(r, before, document.tokens, parent, code, index, error, offset, document.duplicateCount - zero);
          return;
        }
      }
      ObjectDone(before, document.tokens, parent, done, offset, error, document.duplicateCount - zero);
    }

    /** One turn of the element loop. */
    method ParseItem(container: nat, depth: nat, ghost start: seq<Token>, ghost parent: nat, ghost done: seq<Json>)
      returns (code: Code, ghost item: Json)
      requires Valid() && container == |start| < |document.tokens| && ArrayOpen(document.tokens, start, parent, done)
      modifies this`offset, this`error, document`tokens, document`arenaUsed, document`duplicateCount, keys, keys.slots
      ensures !code.Ok? ==>
                && error.Some? && error.value.code == code
                && StopsWith(ItemsAt(Config(), document.bytes, old(offset), depth, |old(document.tokens)|, done),
                             code, error.value.offset)
      ensures code.Ok? ==>
                && Valid() && 2 * keys.count + 1 <= |document.tokens| && keys.slots == old(keys.slots)
                && |old(document.tokens)| <= |document.tokens|
                && ValueAt(Config(), document.bytes, old(offset), depth + 1, |old(document.tokens)|) ==
                   Parsed(item, offset, |document.tokens|)
                && ArrayOpen(document.tokens, start, parent, done + [item])
                && document.duplicateCount == old(document.duplicateCount) +
                   Duplicates(Array(done + [item])) - Duplicates(Array(done))
      decreases |document.bytes| - offset, 2
    {
      hide Indexed, Linked, Head, Cells, ItemsAt, ValueStored, Holds, Occupied, PowerOfTwo, KeyFn, StopsWith,
           ArrayOpen, ValueAt, Duplicates, RoseOf, Add;
      ghost var c := Config();
      ghost var b := document.bytes;
      ghost var before, turn := document.tokens, offset;
      ghost var zero := document.duplicateCount;
      ghost var r := ValueAt(c, b, turn, depth + 1, |before|);
      item := Null;
      var index;
      code, index := ParseValue(container, depth + 1);
      ValueCases(r, before, document.tokens, container, code, index, error, offset, document.duplicateCount - zero);
      if !code.Ok? {
        ItemsFail(c, b, turn, depth, |before|, done, code, error.value.offset);
        return;
      }
      item := r.tree;
      ArrayExtends(start, parent, done, item, before, document.tokens);
      ArrayDuplicatesSnoc(done, item);
    }

    /** The elements of an open array, its closing bracket included. */
    method ParseItems(index: nat, depth: nat, ghost before: seq<Token>, ghost parent: nat)
      returns (code: Code, ghost done: seq<Json>)
      requires Valid() && 2 * keys.count + 1 <= |document.tokens|
      requires index == |before| < |document.tokens| && ArrayOpen(document.tokens, before, parent, [])
      modifies this`offset, this`error, document`tokens, document`arenaUsed, document`duplicateCount, keys, keys.slots
      ensures var r := ItemsAt(Config(), document.bytes, old(offset), depth, |old(document.tokens)|, []);
              && (!code.Ok? ==> error.Some? && error.value.code == code && StopsWith(r, code, error.value.offset))
              && (code.Ok? ==> r == Parsed(Array(done), offset, |document.tokens|))
      ensures code.Ok? ==>
                && Valid() && 2 * keys.count + 1 <= |document.tokens| && keys.slots == old(keys.slots)
                && ArrayOpen(document.tokens, before, parent, done)
                && document.duplicateCount == old(document.duplicateCount) + Duplicates(Array(done))
      decreases |document.bytes| - offset, 3
    {
      hide Indexed, Extends, Linked, Head, Cells, ValueAt, ItemsAt, RoseOf, Holds, Occupied, PowerOfTwo, KeyFn,
           ArrayOpen, Duplicates, Skip, Delimiter, StopsWith, Add;
      ghost var zero := document.duplicateCount;
      ghost var c := Config();
      ghost var b := document.bytes;
      ghost var r := ItemsAt(c, b, offset, depth, |document.tokens|, []);
      EmptyDuplicates();
      code, done := Ok, [];
      var closed := false;
      while !closed
        invariant old(offset) <= offset <= |b|
        invariant closed && !code.Ok? ==>
                    error.Some? && error.value.code == code && StopsWith(r, code, error.value.offset)
        invariant !closed ==>
                    code.Ok? && r == ItemsAt(c, b, offset, depth, |document.tokens|, done)
        invariant closed && code.Ok? ==> r == Parsed(Array(done), offset, |document.tokens|)
        invariant code.Ok? ==>
                    && Valid() && 2 * keys.count + 1 <= |document.tokens| && index < |document.tokens|
                    && ArrayOpen(document.tokens, before, parent, done)
                    && document.duplicateCount == zero + Duplicates(Array(done))
        invariant keys.slots == old(keys.slots)
        decreases |b| - offset, if closed then 0 else 1
      {
        ghost var turn, used := offset, |document.tokens|;
        ghost var item;
        code, item := ParseItem(index, depth, before, parent, done);
        if !code.Ok? {
          return;
        }
        ItemsTurn(c, b, turn, depth, used, done, item, offset, |document.tokens|);
        done := done + [item];
        closed, code := ContainerDelimiter(CLOSE_BRACKET);
      }
    }

    method ParseArray(parent: nat, depth: nat) returns (code: Code, index: nat)
      requires Valid() && ParentOk(parent, |document.tokens|)
      requires offset < |document.bytes| && document.bytes[offset] == OPEN_BRACKET
      modifies this`offset, this`error, document`tokens, document`arenaUsed, document`duplicateCount, keys, keys.slots
      ensures ValueStored(ValueAt(Config(), document.bytes, old(offset), depth, |old(document.tokens)|),
                          old(document.tokens), document.tokens, parent, code, index, error, offset,
                          document.duplicateCount - old(document.duplicateCount))
      ensures code.Ok? ==> Valid() && 2 * keys.count + 1 <= |document.tokens| && keys.slots == old(keys.slots)
      decreases |document.bytes| - offset, 0
    {
      hide Indexed, Extends, Linked, Head, Cells, ValueAt, ItemsAt, ValueStored, RoseOf, Holds, Occupied, PowerOfTwo,
           KeyFn, ArrayOpen, Duplicates, Skip, Delimiter, StopsWith, Add;
      ghost var before := document.tokens;
      ghost var zero := document.duplicateCount;
      ghost var c := Config();
      ghost var b := document.bytes;
      ghost var r := ValueAt(c, b, offset, depth, |before|);
      ghost var opening := offset;
      ContainerStart(c, b, offset, depth, |before|);
      code, index := OpenContainer(ARRAY_INFO, parent, depth);
      if !code.Ok? {
        ContainerFails(r, before, document.tokens, parent, code, index, opening, offset, 0);
        return;
      }
      EmptyDuplicates();
      ArrayOpens(before, document.tokens, parent);
      ghost var done: seq<Json> := [];
      if offset < |document.bytes| && document.bytes[offset] == CLOSE_BRACKET {
        offset := offset + 1;
      } else {
        code, done := ParseItems(index, depth, before, parent);
        if !code.Ok? {
          ValueFails(r, before, document.tokens, parent, code, index, error, offset, document.duplicateCount - zero);
          return;
        }
      }
      ArrayDone(before, document.tokens, parent, done, offset, error, document.duplicateCount - zero);
    }

    method ParseValue(parent: nat, depth: nat) returns (code: Code, index: nat)
      requires Valid() && ParentOk(parent, |document.tokens|)
      modifies this`offset, this`error, document`tokens, document`arenaUsed, document`duplicateCount, keys, keys.slots
      ensures ValueStored(ValueAt(Config(), document.bytes, old(offset), depth, |old(document.tokens)|),
                          old(document.tokens), document.tokens, parent, code, index, error, offset,
                          document.duplicateCount - old(document.duplicateCount))
      ensures code.Ok? ==> Valid() && 2 * keys.count + 1 <= |document.tokens| && keys.slots == old(keys.slots)
      decreases |document.bytes| - offset, 1
    {
      hide Indexed, Extends, Linked, Head, Cells, ValueAt, ValueStored, StringStored, RoseOf, Holds, Occupied,
           PowerOfTwo, KeyFn, StopsWith, Duplicates, StringAt, Add;
      ghost var before := document.tokens;
      ghost var zero := document.duplicateCount;
      ghost var c := Config();
      ghost var b := document.bytes;
      ghost var model := keys.model;
      ValueSkips(c, b, offset, depth, |before|);
      SkipSpace();
      ghost var start := offset;
      SkipIdle(b, start);
      ScalarStart(c, b, start, depth, |before|);
      ghost var r := ValueAt(c, b, start, depth, |before|);
      index := 0;
      if offset >= |document.bytes| {
        code := Fail(Code.Syntax, offset);
        ContainerFails(r, before, document.tokens, parent, code, index, offset, offset, 0);
        return;
      }
      var byte := document.bytes[offset];
      if byte == OPEN_BRACE {
        code, index := ParseObject(parent, depth);
        return;
      }
      if byte == OPEN_BRACKET {
        code, index := ParseArray(parent, depth);
        return;
      }
      if byte == QUOTE {
        ghost var text := StringAt(c, b, start, |before|);
        code, index := ParseString(parent, false);
        StringCases(text, document.profile, start, before, model, document.tokens, parent, false, code, index, error,
                    document.duplicateCount - zero);
        if code.Ok? {
          TextStored(text, before, document.tokens, parent);
        } else {
          ContainerFails(r, before, document.tokens, parent, code, index, error.value.offset, offset,
                         document.duplicateCount - zero);
        }
        return;
      }
      code, index := ParsePrimitive(parent, depth);
    }
  }
}
