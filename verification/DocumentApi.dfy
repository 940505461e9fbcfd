/** Reading a finished document through handles: types, members, elements and integers. */
module DocumentApi {
  import opened Basics
  import opened Numeral
  import opened Trees
  import opened LinkedTable
  import opened TokenTable
  import opened Parser
  import opened ParserLemmas
  import opened LastWinsTree
  import opened Children
  import opened DocumentParse

  /** Handle `i` stands for the value `j`. */
  ghost predicate Shows(tokens: seq<Token>, i: nat, j: Json) {
    exists q :: ShowsUnder(tokens, i, q, j)
  }

  ghost predicate ShowsUnder(tokens: seq<Token>, i: nat, q: nat, j: Json) {
    InTable(Cells(tokens), i, q, RoseOf(j))
  }

  function KindOf(j: Json): Kind {
    match j
    case Null => NullKind
    case Boolean(_) => BooleanKind
    case Number(_) => NumberKind
    case Text(_) => StringKind
    case Array(_) => ArrayKind
    case Object(_) => ObjectKind
  }

  /** What a handle's token says about its value. */
  lemma TokenShows(tokens: seq<Token>, i: nat, j: Json) returns (q: nat)
    requires Shows(tokens, i, j)
    ensures i < |tokens| && tokens[i].cell.data == RoseOf(j).data && tokens[i].cell.data.kind == KindOf(j)
    ensures ShowsUnder(tokens, i, q, j) && tokens[i].cell.links.count == |RoseOf(j).kids|
    ensures j.Number? ==> tokens[i].cell.data.text == Some(j.lexeme)
    ensures j.Text? ==> tokens[i].cell.data.text == Some(j.text)
    ensures j.Boolean? ==> tokens[i].cell.data.boolean == j.b
  {
    hide InTable, Cells;
    q :| ShowsUnder(tokens, i, q, j);
    RootParent(Cells(tokens), i, q, RoseOf(j));
    SameCell(tokens, Cells(tokens), i);
  }

  /** The root handle stands for the published tree, and no object in it repeats a key. */
  lemma RootShows(tokens: seq<Token>, children: seq<nat>, j: Json)
    requires Published(tokens, children, Prune(j))
    ensures Shows(tokens, 0, Prune(j)) && Distinct(Prune(j))
  {
    hide InTable, RoseOf, Cells, Prune;
    assert ShowsUnder(tokens, 0, VALUE_NONE, Prune(j));
    PruneIsDistinct(j);
  }

  class Finished {
    const tokens: seq<Token>
    const children: array<nat>

    ghost predicate Valid()
      reads this, children
    {
      |tokens| < VALUE_NONE && Laid(tokens, children[..])
    }

    constructor (tokens: seq<Token>, children: array<nat>)
      requires |tokens| < VALUE_NONE && Laid(tokens, children[..])
      ensures Valid() && this.tokens == tokens && this.children == children
    {
      this.tokens, this.children := tokens, children;
    }

    /** token_of: ARGUMENT past the table, TYPE for another kind of value. */
    method TokenOf(value: nat, expected: Kind) returns (code: Code)
      ensures code == if value >= |tokens| then Argument
                      else if tokens[value].cell.data.kind != expected then Code.Type else Ok
    {
      if value >= |tokens| {
        return Argument;
      }
      code := if tokens[value].cell.data.kind != expected then Code.Type else Ok;
    }

    /** child_at on a container's handle. */
    method Child(value: nat, position: nat, ghost j: Json) returns (child: nat)
      requires Valid() && Shows(tokens, value, j) && position < |RoseOf(j).kids|
      ensures child < |tokens| && InTable(Cells(tokens), child, value, RoseOf(j).kids[position])
      ensures tokens[child].cell.data == RoseOf(j).kids[position].data
    {
      hide InTable, Cells, RoseOf, Laid;
      ghost var q := TokenShows(tokens, value, j);
      KidsMeanContainer(j);
      child := ChildAt(tokens, children, value, position, q, RoseOf(j));
      RootParent(Cells(tokens), child, value, RoseOf(j).kids[position]);
      SameCell(tokens, Cells(tokens), child);
    }

    /** The value at a position of an array, or RANGE. */
    method ArrayGet(handle: nat, index: nat, ghost j: Json) returns (code: Code, value: nat)
      requires Valid() && (handle < |tokens| ==> Shows(tokens, handle, j))
      ensures code == if handle >= |tokens| then Argument else if !j.Array? then Code.Type
                      else if index >= |j.items| then Code.Range else Ok
      ensures code.Ok? ==> Shows(tokens, value, j.items[index])
    {
      hide InTable, RoseOf, Laid, Cells;
      value := VALUE_NONE;
      code := TokenOf(handle, ArrayKind);
      if handle >= |tokens| {
        return;
      }
      ghost var q := TokenShows(tokens, handle, j);
      if !code.Ok? {
        return;
      }
      ArrayRose(j.items);
      if index >= tokens[handle].cell.links.count {
        return Code.Range, value;
      }
      value := Child(handle, index, j);
      assert ShowsUnder(tokens, value, handle, j.items[index]);
    }

    /** The key and value of a member by position, or RANGE. */
    method ObjectMemberAt(handle: nat, index: nat, ghost j: Json) returns (code: Code, key: Bytes, value: nat)
      requires Valid() && (handle < |tokens| ==> Shows(tokens, handle, j))
      ensures code == if handle >= |tokens| then Argument else if !j.Object? then Code.Type
                      else if index >= |j.members| then Code.Range else Ok
      ensures code.Ok? ==> key == j.members[index].key && Shows(tokens, value, j.members[index].value)
    {
      hide InTable, RoseOf, Laid, Cells, MemberRoses;
      key, value := [], VALUE_NONE;
      code := TokenOf(handle, ObjectKind);
      if handle >= |tokens| {
        return;
      }
      ghost var q := TokenShows(tokens, handle, j);
      if !code.Ok? {
        return;
      }
      ObjectRose(j.members);
      if index >= tokens[handle].cell.links.count / 2 {
        return Code.Range, key, value;
      }
      key, value := MemberAt(handle, index, j);
    }

    /** The key text and the value handle of member `index`. */
    method MemberAt(handle: nat, index: nat, ghost j: Json) returns (key: Bytes, value: nat)
      requires Valid() && Shows(tokens, handle, j) && j.Object? && index < |j.members|
      ensures key == j.members[index].key && Shows(tokens, value, j.members[index].value)
    {
      hide InTable, RoseOf, Laid, Cells, MemberRoses;
      ObjectRose(j.members);
      MemberRoseAt(j.members, index);
      var token := Child(handle, 2 * index, j);
      key := if tokens[token].cell.data.text.Some? then tokens[token].cell.data.text.value else [];
      value := Child(handle, 2 * index + 1, j);
      assert ShowsUnder(tokens, value, handle, j.members[index].value);
    }

    /** object_get_sized: a search by key bytes. */
    method ObjectGet(handle: nat, key: Bytes, ghost j: Json) returns (code: Code, value: nat, ghost at: nat)
      requires Valid() && (handle < |tokens| ==> Shows(tokens, handle, j))
      ensures code == if handle >= |tokens| then Argument else if !j.Object? then Code.Type
                      else if HasKey(j.members, key) then Ok else Code.NotFound
      ensures code.Ok? ==> at < |j.members| && j.members[at].key == key && Shows(tokens, value, j.members[at].value)
      // Where keys do not repeat, the member found is the only one.
      ensures code.Ok? && Distinct(j) ==> forall k :: 0 <= k < |j.members| && j.members[k].key == key ==> k == at
    {
      hide InTable, RoseOf, Laid, Cells, MemberRoses;
      value, at := VALUE_NONE, 0;
      code := TokenOf(handle, ObjectKind);
      if handle >= |tokens| {
        return;
      }
      ghost var q := TokenShows(tokens, handle, j);
      if !code.Ok? {
        return;
      }
      ObjectRose(j.members);
      var members := tokens[handle].cell.links.count / 2;
      var i := 0;
      while i < members
        invariant 0 <= i <= members == |j.members|
        invariant forall k :: 0 <= k < i ==> j.members[k].key != key
      {
        var name, member := MemberAt(handle, i, j);
        if name == key {
          return Ok, member, i;
        }
        i := i + 1;
      }
      code := Code.NotFound;
    }

    /** An unsigned reading of a number value. */
    method ValueU64(handle: nat, ghost j: Json) returns (code: Code, number: nat)
      requires Valid() && (handle < |tokens| ==> Shows(tokens, handle, j))
      ensures handle >= |tokens| ==> code == Argument
      ensures handle < |tokens| && !j.Number? ==> code == Code.Type
      ensures handle < |tokens| && j.Number? ==>
                if code.Ok? then AsU64(j.lexeme) == Value(number) else AsU64(j.lexeme) == Failed(code)
      ensures handle < |tokens| && j.Number? && IsNumber(j.lexeme) ==>
                ReadsAs(j.lexeme, code, number, 0, 0xFFFF_FFFF_FFFF_FFFF)
    {
      hide InTable, RoseOf, Laid, Cells, MagnitudeOf, ReadsAs;
      number := 0;
      if j.Number? && IsNumber(j.lexeme) {
        UnsignedReads(j.lexeme);
      }
      code := TokenOf(handle, NumberKind);
      if handle >= |tokens| {
        return;
      }
      ghost var q := TokenShows(tokens, handle, j);
      if !code.Ok? {
        return;
      }
      var lexeme := if tokens[handle].cell.data.text.Some? then tokens[handle].cell.data.text.value else [];
      var magnitude, negative;
      code, magnitude, negative := ReadMagnitude(lexeme, U64_MAX);
      if !code.Ok? {
        return;
      }
      if negative && magnitude != 0 {
        return Code.Range, number;
      }
      number := magnitude;
    }

    /** A signed reading of a number value. */
    method ValueI64(handle: nat, ghost j: Json) returns (code: Code, number: int)
      requires Valid() && (handle < |tokens| ==> Shows(tokens, handle, j))
      ensures handle >= |tokens| ==> code == Argument
      ensures handle < |tokens| && !j.Number? ==> code == Code.Type
      ensures handle < |tokens| && j.Number? ==>
                if code.Ok? then AsI64(j.lexeme) == Value(number) else AsI64(j.lexeme) == Failed(code)
      ensures handle < |tokens| && j.Number? && IsNumber(j.lexeme) ==>
                ReadsAs(j.lexeme, code, number, -0x8000_0000_0000_0000, 0x7FFF_FFFF_FFFF_FFFF)
    {
      hide InTable, RoseOf, Laid, Cells, MagnitudeOf, ReadsAs;
      number := 0;
      if j.Number? && IsNumber(j.lexeme) {
        SignedReads(j.lexeme);
      }
      code := TokenOf(handle, NumberKind);
      if handle >= |tokens| {
        return;
      }
      ghost var q := TokenShows(tokens, handle, j);
      if !code.Ok? {
        return;
      }
      var lexeme := if tokens[handle].cell.data.text.Some? then tokens[handle].cell.data.text.value else [];
      var magnitude, negative;
      code, magnitude, negative := ReadMagnitude(lexeme, I64_MIN_MAGNITUDE);
      if !code.Ok? {
        return;
      }
      if !negative && magnitude > I64_MAX {
        return Code.Range, number;
      }
      if negative && magnitude == I64_MIN_MAGNITUDE {
        number := -(I64_MIN_MAGNITUDE as int);
      } else {
        number := if negative then -(magnitude as int) else magnitude as int;
      }
    }
  }

  /** An integer within the bounds is read as itself; any other number is refused, a smaller fraction as NOT_INTEGER. */
  predicate ReadsAs(lexeme: Bytes, code: Code, number: int, least: int, most: int) {
    && (code.Ok? <==> Integral(lexeme) && least <= IntegerOf(lexeme) <= most)
    && (code.Ok? ==> number == IntegerOf(lexeme))
    && (code.NotInteger? ==> !Integral(lexeme))
    && (!code.Ok? && Integral(lexeme) ==> code.Range?)
    && (code.Range? && !Integral(lexeme) ==> DecimalValue(LeadingDigits(lexeme)) > most)
  }

  lemma UnsignedReads(lexeme: Bytes)
    requires IsNumber(lexeme)
    ensures AsU64(lexeme).Value? ==> ReadsAs(lexeme, Ok, AsU64(lexeme).n, 0, 0xFFFF_FFFF_FFFF_FFFF)
    ensures AsU64(lexeme).Failed? ==>
              forall n :: ReadsAs(lexeme, AsU64(lexeme).code, n, 0, 0xFFFF_FFFF_FFFF_FFFF)
  {
    hide IsNumber, AsU64, Integral, IntegerOf, DecimalValue, LeadingDigits;
    UnsignedReading(lexeme);
    ReadingFails(lexeme);
  }

  lemma SignedReads(lexeme: Bytes)
    requires IsNumber(lexeme)
    ensures AsI64(lexeme).Value? ==>
              ReadsAs(lexeme, Ok, AsI64(lexeme).n, -0x8000_0000_0000_0000, 0x7FFF_FFFF_FFFF_FFFF)
    ensures AsI64(lexeme).Failed? ==>
              forall n :: ReadsAs(lexeme, AsI64(lexeme).code, n, -0x8000_0000_0000_0000, 0x7FFF_FFFF_FFFF_FFFF)
  {
    hide IsNumber, AsI64, Integral, IntegerOf, DecimalValue, LeadingDigits;
    SignedReading(lexeme);
    ReadingFails(lexeme);
  }

  lemma ReadingFails(lexeme: Bytes)
    ensures AsU64(lexeme).Failed? ==> AsU64(lexeme).code.Range? || AsU64(lexeme).code.NotInteger?
    ensures AsI64(lexeme).Failed? ==> AsI64(lexeme).code.Range? || AsI64(lexeme).code.NotInteger?
  {
    hide MagnitudeOf;
  }

  lemma KidsMeanContainer(j: Json)
    requires |RoseOf(j).kids| > 0
    ensures IsContainer(RoseOf(j).data)
  {
  }
}
