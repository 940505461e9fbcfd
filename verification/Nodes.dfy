/** The writer's node table: what a node records, and the JSON tree a tree of nodes stands for. */
module Nodes {
  import opened Basics
  import opened Utf8
  import opened Numeral
  import opened Trees
  import opened TextEscape
  import opened LinkedTable
  import opened TokenTable
  import opened Keyset

  /** The value fields of a node; a number is a lexeme, or an integer still to be rendered. */
  datatype Data =
    | Data(kind: Kind, key: Option<Bytes>, text: Option<Bytes>, number: int, boolean: bool)

  function Plain(kind: Kind, key: Option<Bytes>): Data {
    Data(kind, key, None, 0, false)
  }

  function TextOf(data: Data): Bytes {
    if data.text.Some? then data.text.value else []
  }

  function NameOf(data: Data): Bytes {
    if data.key.Some? then data.key.value else []
  }

  /** The lexeme a number node prints. */
  function LexemeOf(data: Data): Bytes {
    if data.text.Some? then data.text.value else RenderInt(data.number)
  }

  function TreeOf(r: Rose<Data>): Json {
    match r.data.kind
    case NullKind => Null
    case BooleanKind => Boolean(r.data.boolean)
    case NumberKind => Number(LexemeOf(r.data))
    case StringKind => Text(TextOf(r.data))
    case ArrayKind => Array(seq(|r.kids|, k requires 0 <= k < |r.kids| => TreeOf(r.kids[k])))
    case ObjectKind =>
      Object(seq(|r.kids|, k requires 0 <= k < |r.kids| => Member(NameOf(r.kids[k].data), TreeOf(r.kids[k]))))
  }

  function Items(kids: seq<Rose<Data>>): (s: seq<Json>)
    ensures |s| == |kids| && forall k :: 0 <= k < |kids| ==> s[k] == TreeOf(kids[k])
  {
    seq(|kids|, k requires 0 <= k < |kids| => TreeOf(kids[k]))
  }

  function Members(kids: seq<Rose<Data>>): (s: seq<Member>)
    ensures |s| == |kids|
    ensures forall k :: 0 <= k < |kids| ==> s[k] == Member(NameOf(kids[k].data), TreeOf(kids[k]))
  {
    seq(|kids|, k requires 0 <= k < |kids| => Member(NameOf(kids[k].data), TreeOf(kids[k])))
  }

  lemma TreeOfContainer(r: Rose<Data>)
    ensures r.data.kind.ArrayKind? ==> TreeOf(r) == Array(Items(r.kids))
    ensures r.data.kind.ObjectKind? ==> TreeOf(r) == Object(Members(r.kids))
  {
    if r.data.kind.ArrayKind? {
      assert TreeOf(r).items == Items(r.kids);
    }
    if r.data.kind.ObjectKind? {
      assert TreeOf(r).members == Members(r.kids);
    }
  }

  /** What each kind of written value is: the argument of the call itself, a number spelled by its value or its lexeme. */
  lemma WrittenScalars(key: Option<Bytes>, t: Bytes, z: int, b: bool)
    ensures TreeOf(Rose(Data(StringKind, key, Some(t), 0, false), [])) == Text(t)
    ensures TreeOf(Rose(Data(NumberKind, key, Some(t), 0, false), [])) == Number(t)
    ensures var n := TreeOf(Rose(Data(NumberKind, key, None, z, false), []));
            n.Number? && IsNumber(n.lexeme) && Integral(n.lexeme) && IntegerOf(n.lexeme) == z
    ensures TreeOf(Rose(Data(BooleanKind, key, None, 0, b), [])) == Boolean(b)
    ensures TreeOf(Rose(Plain(NullKind, key), [])) == Null
  {
    hide IsNumber, RenderInt, Integral, IntegerOf;
    RenderedIsNumber(z);
    RenderedValue(z);
  }

  /** A closed container: its children in the order they were written, under the keys they were given. */
  lemma WrittenContainer(key: Option<Bytes>, kids: seq<Rose<Data>>, r: Rose<Data>)
    ensures TreeOf(Rose(Plain(ArrayKind, key), [])) == Array([])
    ensures TreeOf(Rose(Plain(ObjectKind, key), [])) == Object([])
    ensures var before := TreeOf(Rose(Plain(ArrayKind, key), kids));
            TreeOf(Rose(Plain(ArrayKind, key), kids + [r])) == Array(before.items + [TreeOf(r)])
    ensures var before := TreeOf(Rose(Plain(ObjectKind, key), kids));
            r.data.key.Some? ==>
              TreeOf(Rose(Plain(ObjectKind, key), kids + [r])) ==
              Object(before.members + [Member(r.data.key.value, TreeOf(r))])
  {
    var list, record := Plain(ArrayKind, key), Plain(ObjectKind, key);
    TreeOfContainer(Rose(list, []));
    TreeOfContainer(Rose(record, []));
    TreeOfContainer(Rose(list, kids));
    TreeOfContainer(Rose(record, kids));
    TreeOfContainer(Rose(list, kids + [r]));
    TreeOfContainer(Rose(record, kids + [r]));
    hide TreeOf;
    assert Items(kids + [r]) == Items(kids) + [TreeOf(r)];
    assert Members(kids + [r]) == Members(kids) + [Member(NameOf(r.data), TreeOf(r))];
  }

  /** Text fields of one node that the profile can carry and the grammar allows. */
  predicate DataOk(profile: Profile, data: Data) {
    && (data.kind.StringKind? ==> data.text.Some? && Printable(profile, data.text.value))
    && (data.kind.NumberKind? ==> IsNumber(LexemeOf(data)))
    && (data.key.Some? ==> Printable(profile, data.key.value))
  }

  /** A finished subtree: sound data, keys exactly below objects and not repeated, children only in containers. */
  ghost predicate Sound(profile: Profile, r: Rose<Data>) {
    && DataOk(profile, r.data)
    && (!r.data.kind.ObjectKind? && !r.data.kind.ArrayKind? ==> r.kids == [])
    && KidsOk(r.data, r.kids)
    && forall k :: 0 <= k < |r.kids| ==> Sound(profile, r.kids[k])
  }

  ghost predicate KidsOk(data: Data, kids: seq<Rose<Data>>) {
    && (forall k :: 0 <= k < |kids| ==> (kids[k].data.key.Some? <==> data.kind.ObjectKind?))
    && (data.kind.ObjectKind? ==>
          forall i, k :: 0 <= i < k < |kids| ==> NameOf(kids[i].data) != NameOf(kids[k].data))
  }

  /** The tree of a sound node tree can be printed and read back, and repeats no key. */
  lemma {:induction false} SoundTree(profile: Profile, r: Rose<Data>)
    requires Sound(profile, r)
    ensures Carried(profile, TreeOf(r)) && Distinct(TreeOf(r))
    decreases r
  {
    TreeOfContainer(r);
    hide Printable, IsNumber;
    forall k | 0 <= k < |r.kids| ensures Carried(profile, TreeOf(r.kids[k])) && Distinct(TreeOf(r.kids[k])) {
      SoundTree(profile, r.kids[k]);
    }
    if r.data.kind.ObjectKind? {
      assert KeysDistinct(Members(r.kids));
      forall k | 0 <= k < |r.kids| ensures Printable(profile, NameOf(r.kids[k].data)) {
        assert Sound(profile, r.kids[k]);
      }
    }
  }

  // ----- keys of the table

  type NodeTable = Table<Data>

  function NodeKey(cell: Cell<Data>): Key {
    Key(cell.links.parent, NameOf(cell.data))
  }

  /** The callback the writer's key set asks for the key of a node. */
  function NodeKeyFn(nodes: NodeTable): KeyOf {
    (i: nat) => if i < |nodes| then NodeKey(nodes[i]) else Key(VALUE_NONE, [])
  }

  function KeyAt(nodes: NodeTable, i: nat): Bytes {
    if i < |nodes| then NameOf(nodes[i].data) else []
  }
}
