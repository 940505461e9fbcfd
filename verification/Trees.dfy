/** JSON trees, and the concrete syntax of RFC 8259 as a datatype with its spelling and meaning. */
module Trees {
  import opened Basics
  import opened Utf8
  import opened StringLiteral
  import opened Numeral
  import opened TextEscape

  datatype Json =
    | Null
    | Boolean(b: bool)
    | Number(lexeme: Bytes)
    | Text(text: Bytes)
    | Array(items: seq<Json>)
    | Object(members: seq<Member>)

  datatype Member = Member(key: Bytes, value: Json)

  // ----- measures and predicates on trees

  predicate HasKey(ms: seq<Member>, key: Bytes) {
    exists k :: 0 <= k < |ms| && ms[k].key == key
  }

  predicate KeysDistinct(ms: seq<Member>) {
    forall i, k :: 0 <= i < k < |ms| ==> ms[i].key != ms[k].key
  }

  /** No object of the tree repeats a key. */
  predicate Distinct(j: Json) {
    match j
    case Array(items) => forall k :: 0 <= k < |items| ==> Distinct(items[k])
    case Object(ms) => KeysDistinct(ms) && forall k :: 0 <= k < |ms| ==> Distinct(ms[k].value)
    case _ => true
  }

  /** The tree nests at most `room` containers. */
  predicate Nests(j: Json, room: int) {
    match j
    case Array(items) => room > 0 && forall k :: 0 <= k < |items| ==> Nests(items[k], room - 1)
    case Object(ms) => room > 0 && forall k :: 0 <= k < |ms| ==> Nests(ms[k].value, room - 1)
    case _ => true
  }

  /** Tokens the reader charges: one per value and one per key. */
  function Tokens(j: Json): (n: nat)
    ensures n >= 1
    decreases j, 0
  {
    match j
    case Array(items) => 1 + ItemTokens(items, 0)
    case Object(ms) => 1 + MemberTokens(ms, 0)
    case _ => 1
  }

  function ItemTokens(items: seq<Json>, k: nat): nat
    decreases items, |items| - k
  {
    if k >= |items| then 0 else Tokens(items[k]) + ItemTokens(items, k + 1)
  }

  function MemberTokens(ms: seq<Member>, k: nat): nat
    decreases ms, |ms| - k
  {
    if k >= |ms| then 0 else 1 + Tokens(ms[k].value) + MemberTokens(ms, k + 1)
  }

  /** Lexemes of the grammar and text the profile can carry. */
  predicate Carried(profile: Profile, j: Json) {
    match j
    case Number(lexeme) => IsNumber(lexeme)
    case Text(t) => Printable(profile, t)
    case Array(items) => forall k :: 0 <= k < |items| ==> Carried(profile, items[k])
    case Object(ms) =>
      forall k :: 0 <= k < |ms| ==> Printable(profile, ms[k].key) && Carried(profile, ms[k].value)
    case _ => true
  }

  // ----- concrete syntax (section 2 of RFC 8259)

  datatype Syntax =
    | Word(value: Json)
    | Numeral(lexeme: Bytes)
    | Quote(chars: seq<Char>)
    | List(pad: Bytes, items: seq<Item>)
    | Record(pad: Bytes, pairs: seq<Pair>)

  /** A value between two stretches of whitespace. */
  datatype Item = Item(before: Bytes, value: Syntax, after: Bytes)

  /** `before "key" middle : item` */
  datatype Pair = Pair(before: Bytes, key: seq<Char>, middle: Bytes, item: Item)

  predicate Blank(ws: Bytes) {
    forall k :: 0 <= k < |ws| ==> IsSpace(ws[k])
  }

  predicate SyntaxOk(profile: Profile, s: Syntax)
    decreases s, 1
  {
    match s
    case Word(value) => value.Null? || value.Boolean?
    case Numeral(lexeme) => IsNumber(lexeme)
    case Quote(chars) => CharsOk(profile, chars)
    case List(pad, items) => Blank(pad) && forall k :: 0 <= k < |items| ==> ItemOk(profile, items[k])
    case Record(pad, pairs) =>
      Blank(pad) && forall k :: 0 <= k < |pairs| ==>
        && Blank(pairs[k].before) && CharsOk(profile, pairs[k].key) && Blank(pairs[k].middle)
        && ItemOk(profile, pairs[k].item)
  }

  predicate ItemOk(profile: Profile, item: Item)
    decreases item, 0
  {
    Blank(item.before) && SyntaxOk(profile, item.value) && Blank(item.after)
  }

  function WordBytes(value: Json): Bytes {
    match value
    case Boolean(b) => if b then TRUE_WORD else FALSE_WORD
    case _ => NULL_WORD
  }

  function SpellText(chars: seq<Char>): Bytes {
    [QUOTE] + (SpellAll(chars) + [QUOTE])
  }

  function Spelling(s: Syntax): Bytes
    decreases s, 0
  {
    match s
    case Word(value) => WordBytes(value)
    case Numeral(lexeme) => lexeme
    case Quote(chars) => SpellText(chars)
    case List(pad, items) => [OPEN_BRACKET] + (if items == [] then pad + [CLOSE_BRACKET] else ItemsFrom(items, 0))
    case Record(pad, pairs) => [OPEN_BRACE] + (if pairs == [] then pad + [CLOSE_BRACE] else PairsFrom(pairs, 0))
  }

  /** Items from `k` on, commas included, up to and including the closing bracket. */
  function ItemsFrom(items: seq<Item>, k: nat): Bytes
    requires k < |items|
    decreases items, |items| - k
  {
    items[k].before + (Spelling(items[k].value) + (items[k].after +
      (if k + 1 < |items| then [COMMA] + ItemsFrom(items, k + 1) else [CLOSE_BRACKET])))
  }

  /** Members from `k` on, up to and including the closing brace. */
  function PairsFrom(pairs: seq<Pair>, k: nat): Bytes
    requires k < |pairs|
    decreases pairs, |pairs| - k
  {
    var p := pairs[k];
    p.before + (SpellText(p.key) + (p.middle + ([COLON] + (p.item.before + (Spelling(p.item.value) + (p.item.after +
      (if k + 1 < |pairs| then [COMMA] + PairsFrom(pairs, k + 1) else [CLOSE_BRACE])))))))
  }

  /** The tree a piece of syntax denotes. */
  function Tree(s: Syntax): Json {
    match s
    case Word(value) => value
    case Numeral(lexeme) => Number(lexeme)
    case Quote(chars) => Text(Meaning(chars))
    case List(_, items) => Array(seq(|items|, k requires 0 <= k < |items| => Tree(items[k].value)))
    case Record(_, pairs) =>
      Object(seq(|pairs|, k requires 0 <= k < |pairs| => Member(Meaning(pairs[k].key), Tree(pairs[k].item.value))))
  }
}
