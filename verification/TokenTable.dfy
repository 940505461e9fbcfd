/** The token table of a document: how trees are laid out in it, and how keys are looked up in it. */
module TokenTable {
  import opened Basics
  import opened LinkedTable
  import opened Keyset
  import opened Trees
  import opened LastWinsTree

  datatype Kind = ObjectKind | ArrayKind | StringKind | NumberKind | BooleanKind | NullKind

  /** What a token records about its value: decoded text or number lexeme, key flag, boolean value. */
  datatype Info = Info(kind: Kind, text: Option<Bytes>, objectKey: bool, boolean: bool)

  datatype Token = Token(cell: Cell<Info>, superseded: bool, childrenOffset: nat)

  function Cells(tokens: seq<Token>): (t: Table<Info>)
    ensures |t| == |tokens|
  {
    seq(|tokens|, i requires 0 <= i < |tokens| => tokens[i].cell)
  }

  // ----- trees as token trees

  const OBJECT_INFO := Info(ObjectKind, None, false, false)
  const ARRAY_INFO := Info(ArrayKind, None, false, false)

  function TextInfo(text: Bytes, objectKey: bool): Info {
    Info(StringKind, Some(text), objectKey, false)
  }

  function KeyRose(key: Bytes): Rose<Info> {
    Rose(TextInfo(key, true), [])
  }

  /** A value as tokens: an object's children alternate keys and values. */
  function RoseOf(j: Json): Rose<Info> {
    match j
    case Null => Rose(Info(NullKind, None, false, false), [])
    case Boolean(b) => Rose(Info(BooleanKind, None, false, b), [])
    case Number(lexeme) => Rose(Info(NumberKind, Some(lexeme), false, false), [])
    case Text(t) => Rose(TextInfo(t, false), [])
    case Array(items) => Rose(ARRAY_INFO, seq(|items|, k requires 0 <= k < |items| => RoseOf(items[k])))
    case Object(ms) =>
      Rose(OBJECT_INFO, seq(2 * |ms|, k requires 0 <= k < 2 * |ms| =>
        if k % 2 == 0 then KeyRose(ms[k / 2].key) else RoseOf(ms[k / 2].value)))
  }

  function ItemRoses(items: seq<Json>): (r: seq<Rose<Info>>)
    ensures |r| == |items| && forall k :: 0 <= k < |items| ==> r[k] == RoseOf(items[k])
  {
    seq(|items|, k requires 0 <= k < |items| => RoseOf(items[k]))
  }

  function MemberRoses(ms: seq<Member>): (r: seq<Rose<Info>>)
    ensures |r| == 2 * |ms|
  {
    seq(2 * |ms|, k requires 0 <= k < 2 * |ms| =>
      if k % 2 == 0 then KeyRose(ms[k / 2].key) else RoseOf(ms[k / 2].value))
  }

  lemma MemberRoseAt(ms: seq<Member>, k: nat)
    requires k < |ms|
    ensures MemberRoses(ms)[2 * k] == KeyRose(ms[k].key) && MemberRoses(ms)[2 * k + 1] == RoseOf(ms[k].value)
  {
  }

  lemma ArrayRose(items: seq<Json>)
    ensures RoseOf(Array(items)) == Rose(ARRAY_INFO, ItemRoses(items))
  {
    assert RoseOf(Array(items)).kids == ItemRoses(items);
  }

  lemma ObjectRose(ms: seq<Member>)
    ensures RoseOf(Object(ms)) == Rose(OBJECT_INFO, MemberRoses(ms))
  {
    assert RoseOf(Object(ms)).kids == MemberRoses(ms);
  }

  lemma ItemRosesSnoc(items: seq<Json>, v: Json)
    ensures ItemRoses(items + [v]) == ItemRoses(items) + [RoseOf(v)]
  {
  }

  lemma MemberRosesSnoc(ms: seq<Member>, m: Member)
    ensures MemberRoses(ms + [m]) == MemberRoses(ms) + [KeyRose(m.key)] + [RoseOf(m.value)]
  {
    var all := ms + [m];
    var r := MemberRoses(ms) + [KeyRose(m.key)] + [RoseOf(m.value)];
    forall k | 0 <= k < 2 * |all| ensures MemberRoses(all)[k] == r[k] {
      assert k == 2 * (k / 2) || k == 2 * (k / 2) + 1;
      assert all[k / 2] == if k / 2 < |ms| then ms[k / 2] else m;
    }
  }

  lemma LeafSize(data: Info)
    ensures Size(Rose(data, [])) == 1
  {
    assert Size(Rose(data, [])) == 1 + SizeUpTo<Info>([], 0);
  }

  lemma SizeSnoc(kids: seq<Rose<Info>>, r: Rose<Info>)
    ensures SizeUpTo(kids + [r], |kids| + 1) == SizeUpTo(kids, |kids|) + Size(r)
  {
    hide Size;
    SizePrefix(kids + [r], kids, |kids|);
  }

  /** A value takes as many tokens as the reader charges for it. */
  lemma {:induction false} RoseSize(j: Json)
    ensures Size(RoseOf(j)) == Tokens(j)
    decreases j, 1
  {
    hide SizeUpTo, ItemTokens, MemberTokens;
    match j {
      case Array(items) =>
        ArrayRose(items);
        ItemRosesSize(items, |items|);
        ItemsEnd(items);
      case Object(ms) =>
        ObjectRose(ms);
        MemberRosesSize(ms, |ms|);
        MembersEnd(ms);
      case _ => LeafSize(RoseOf(j).data);
    }
  }

  lemma {:induction false} ItemRosesSize(items: seq<Json>, n: nat)
    requires n <= |items|
    ensures SizeUpTo(ItemRoses(items), n) + ItemTokens(items, n) == ItemTokens(items, 0)
    decreases items, n
  {
    hide Size, RoseOf, Tokens;
    if n > 0 {
      ItemRosesSize(items, n - 1);
      RoseSize(items[n - 1]);
      ItemsEnd(items);
    }
    ItemsEnd(items);
  }

  lemma ItemsEnd(items: seq<Json>)
    ensures ItemTokens(items, |items|) == 0
  {
  }

  lemma {:induction false} MemberRosesSize(ms: seq<Member>, n: nat)
    requires n <= |ms|
    ensures SizeUpTo(MemberRoses(ms), 2 * n) + MemberTokens(ms, n) == MemberTokens(ms, 0)
    decreases ms, n
  {
    hide Size, RoseOf, Tokens, SizeUpTo, KeyRose, MemberRoses;
    if n > 0 {
      MemberRosesSize(ms, n - 1);
      RoseSize(ms[n - 1].value);
      LastTwo(MemberRoses(ms), n - 1);
      KeyRoseSize(ms[n - 1].key);
      MemberRoseAt(ms, n - 1);
    } else {
      NoKids(MemberRoses(ms));
    }
  }

  lemma KeyRoseSize(key: Bytes)
    ensures Size(KeyRose(key)) == 1
  {
    LeafSize(TextInfo(key, true));
  }

  lemma NoKids(kids: seq<Rose<Info>>)
    ensures SizeUpTo(kids, 0) == 0
  {
  }

  lemma LastTwo(kids: seq<Rose<Info>>, n: nat)
    requires 2 * n + 2 <= |kids|
    ensures SizeUpTo(kids, 2 * (n + 1)) == SizeUpTo(kids, 2 * n) + Size(kids[2 * n]) + Size(kids[2 * n + 1])
  {
    hide Size;
    assert SizeUpTo(kids, 2 * n + 1) == SizeUpTo(kids, 2 * n) + Size(kids[2 * n]);
  }

  lemma MembersEnd(ms: seq<Member>)
    ensures MemberTokens(ms, |ms|) == 0
  {
  }

  // ----- keys of the table

  function TokenKey(token: Token): Key {
    Key(token.cell.links.parent, if token.cell.data.text.Some? then token.cell.data.text.value else [])
  }

  /** The callback the key set asks for the key of an index. */
  function KeyFn(tokens: seq<Token>): KeyOf {
    (i: nat) => if i < |tokens| then TokenKey(tokens[i]) else Key(VALUE_NONE, [])
  }

  /** The key set indexes exactly the key tokens, each by its latest occurrence; the earlier ones are superseded. */
  ghost predicate Indexed(tokens: seq<Token>, model: map<Key, nat>) {
    && (forall i :: 0 <= i < |tokens| && tokens[i].cell.data.objectKey ==>
          TokenKey(tokens[i]) in model && i <= model[TokenKey(tokens[i])])
    && (forall k :: k in model ==>
          model[k] < |tokens| && tokens[model[k]].cell.data.objectKey && TokenKey(tokens[model[k]]) == k)
    && (forall i :: 0 <= i < |tokens| ==>
          (tokens[i].superseded <==> tokens[i].cell.data.objectKey && model[TokenKey(tokens[i])] != i))
  }

  /** Parents precede their children. */
  ghost predicate Ordered(tokens: seq<Token>) {
    forall i :: 0 <= i < |tokens| ==>
      tokens[i].cell.links.parent == VALUE_NONE || tokens[i].cell.links.parent < i
  }

  /** Appending a token: links change, but neither keys nor flags of the tokens already there. */
  ghost predicate Extends(before: seq<Token>, after: seq<Token>) {
    && |before| <= |after|
    && forall i :: 0 <= i < |before| ==>
         && after[i].cell.data == before[i].cell.data
         && after[i].cell.links.parent == before[i].cell.links.parent
         && after[i].superseded == before[i].superseded
  }

  lemma AttachKeeps<T>(t: Table<T>, p: nat, i: nat)
    requires i < |t|
    ensures Attach(t, p)[i].data == t[i].data && Attach(t, p)[i].links.parent == t[i].links.parent
  {
  }

  /** A token that is no key leaves the index as it was. */
  lemma IndexedPlain(before: seq<Token>, after: seq<Token>, model: map<Key, nat>)
    requires Indexed(before, model) && Extends(before, after) && |after| == |before| + 1
    requires !after[|before|].cell.data.objectKey && !after[|before|].superseded
    ensures Indexed(after, model)
    ensures forall k :: k in model ==> KeyFn(after)(model[k]) == k
  {
    forall i | 0 <= i < |before| ensures TokenKey(after[i]) == TokenKey(before[i]) {
    }
  }

  /** A key token and its entry, the previous holder of the key being marked. */
  lemma IndexedKey(before: seq<Token>, added: seq<Token>, after: seq<Token>, model: map<Key, nat>)
    requires Indexed(before, model) && Extends(before, added) && |added| == |before| + 1
    requires added[|before|].cell.data.objectKey && !added[|before|].superseded
    requires var key := TokenKey(added[|before|]);
             after == if key in model then added[model[key] := added[model[key]].(superseded := true)] else added
    ensures Indexed(after, model[TokenKey(added[|before|]) := |before|])
    ensures forall k :: k in model ==> KeyFn(added)(model[k]) == k
  {
    var key := TokenKey(added[|before|]);
    forall i | 0 <= i < |before| ensures TokenKey(added[i]) == TokenKey(before[i]) {
    }
    forall i | 0 <= i < |added| ensures TokenKey(after[i]) == TokenKey(added[i]) {
    }
  }

  lemma KeysOfIndexed(tokens: seq<Token>, model: map<Key, nat>)
    requires Indexed(tokens, model)
    ensures forall k :: k in model ==> model[k] < |tokens| && KeyFn(tokens)(model[k]) == k
  {
  }
}
