/** The reader on trees: the recursive descent of the parser, with its limits, errors and error path. */
module Reader {
  import opened Basics
  import opened StringLiteral
  import opened Numeral
  import opened Trees

  /** What a parse is run with: profile, nesting limit and token capacity. */
  datatype Config = Config(profile: Profile, depth: nat, capacity: nat)

  /** Where an open container stands when parsing stops. */
  datatype Step = InObject | AtKey(key: Bytes, start: nat, end: nat) | AtIndex(index: nat)

  datatype Parse =
    | Parsed(tree: Json, pos: nat, used: nat)
    | Stopped(code: Code, at: nat, path: seq<Step>)

  datatype Literal =
    | Read(text: Bytes, end: nat)
    | Refused(code: Code, at: nat)

  /** First position at or after `pos` that holds no whitespace. */
  function Skip(b: Bytes, pos: nat): (p: nat)
    ensures pos <= p && (pos <= |b| ==> p <= |b|)
    ensures p < |b| ==> !IsSpace(b[p])
    ensures forall k :: pos <= k < p ==> k < |b| && IsSpace(b[k])
    decreases |b| - pos
  {
    if pos < |b| && IsSpace(b[pos]) then Skip(b, pos + 1) else pos
  }

  /** A literal at `pos`; `end` is the position of its closing quotation mark. */
  function StringAt(c: Config, b: Bytes, pos: nat, used: nat): (r: Literal)
    ensures r.Read? ==> pos < r.end < |b| && used < c.capacity
    ensures r.Refused? ==> r.at <= |b| || r.at == pos
  {
    if pos >= |b| || b[pos] != QUOTE then Refused(Code.Syntax, pos)
    else
      match ScanBody(c.profile, b, pos + 1)
      case BadByte(at) => Refused(Code.Syntax, at)
      case Unterminated => Refused(Code.Syntax, pos)
      case Closed(end) =>
        if used >= c.capacity then Refused(Code.Limit, pos + 1)
        else
          match Decode(c.profile, b[pos + 1..end])
          case Bad(code, at) => Refused(code, pos + 1 + at)
          case Good(text) => Read(text, end)
  }

  predicate IsDelimiter(b: Byte) {
    b == COMMA || b == CLOSE_BRACE || b == CLOSE_BRACKET || IsSpace(b)
  }

  /** End of the run of bytes up to the next delimiter. */
  function RunEnd(b: Bytes, pos: nat): (p: nat)
    ensures pos <= p && (pos <= |b| ==> p <= |b|)
    ensures p < |b| ==> IsDelimiter(b[p])
    ensures forall k :: pos <= k < p ==> k < |b| && !IsDelimiter(b[k])
    decreases |b| - pos
  {
    if pos < |b| && !IsDelimiter(b[pos]) then RunEnd(b, pos + 1) else pos
  }

  /** The value a lexeme spells, if any. */
  function Primitive(lexeme: Bytes): Option<Json> {
    if lexeme == TRUE_WORD then Some(Boolean(true))
    else if lexeme == FALSE_WORD then Some(Boolean(false))
    else if lexeme == NULL_WORD then Some(Null)
    else if IsNumber(lexeme) then Some(Number(lexeme))
    else None
  }

  function PrimitiveAt(c: Config, b: Bytes, pos: nat, used: nat): Parse
    requires pos < |b|
  {
    var end := RunEnd(b, pos);
    match Primitive(b[pos..end])
    case None => Stopped(Code.Syntax, pos, [])
    case Some(value) => if used >= c.capacity then Stopped(Code.Limit, pos, []) else Parsed(value, end, used + 1)
  }

  datatype Next = Close(pos: nat) | Again(pos: nat) | Broken(at: nat)

  /** After an element: the closing delimiter, a comma with the whitespace after it, or an error. */
  function Delimiter(b: Bytes, pos: nat, closing: Byte): (n: Next)
    requires pos <= |b|
    ensures n.Close? ==> pos < n.pos <= |b|
    ensures n.Again? ==> pos < n.pos <= |b|
    ensures n.Broken? ==> pos <= n.at <= |b|
  {
    var p := Skip(b, pos);
    if p >= |b| then Broken(p)
    else if b[p] == closing then Close(p + 1)
    else if b[p] != COMMA then Broken(p)
    else Again(Skip(b, p + 1))
  }

  function Within(step: Step, p: Parse): Parse
    requires p.Stopped?
  {
    p.(path := [step] + p.path)
  }

  function ValueAt(c: Config, b: Bytes, pos: nat, depth: nat, used: nat): (r: Parse)
    requires pos <= |b|
    ensures r.Parsed? ==> pos < r.pos <= |b| && used < r.used <= c.capacity
    ensures r.Stopped? ==> pos <= r.at <= |b|
    decreases |b| - pos, 0
  {
    var p := Skip(b, pos);
    if p >= |b| then Stopped(Code.Syntax, p, [])
    else if b[p] == OPEN_BRACE then
      if depth >= c.depth || used >= c.capacity then Stopped(Code.Limit, p, [])
      else
        var q := Skip(b, p + 1);
        if q < |b| && b[q] == CLOSE_BRACE then Parsed(Object([]), q + 1, used + 1)
        else MembersAt(c, b, q, depth, used + 1, [])
    else if b[p] == OPEN_BRACKET then
      if depth >= c.depth || used >= c.capacity then Stopped(Code.Limit, p, [])
      else
        var q := Skip(b, p + 1);
        if q < |b| && b[q] == CLOSE_BRACKET then Parsed(Array([]), q + 1, used + 1)
        else ItemsAt(c, b, q, depth, used + 1, [])
    else if b[p] == QUOTE then
      match StringAt(c, b, p, used)
      case Refused(code, at) => Stopped(code, at, [])
      case Read(text, end) => Parsed(Text(text), end + 1, used + 1)
    else PrimitiveAt(c, b, p, used)
  }

  /** Elements of an open array from `pos`, after those already read. */
  function ItemsAt(c: Config, b: Bytes, pos: nat, depth: nat, used: nat, done: seq<Json>): (r: Parse)
    requires pos <= |b|
    ensures r.Parsed? ==> pos < r.pos <= |b| && used < r.used <= c.capacity
    ensures r.Stopped? ==> pos <= r.at <= |b|
    decreases |b| - pos, 1
  {
    var r := ValueAt(c, b, pos, depth + 1, used);
    if r.Stopped? then Within(AtIndex(|done|), r)
    else
      match Delimiter(b, r.pos, CLOSE_BRACKET)
      case Broken(at) => Stopped(Code.Syntax, at, [AtIndex(|done|)])
      case Close(next) => Parsed(Array(done + [r.tree]), next, r.used)
      case Again(next) => ItemsAt(c, b, next, depth, r.used, done + [r.tree])
  }

  /** Members of an open object from `pos`, after those already read. */
  function MembersAt(c: Config, b: Bytes, pos: nat, depth: nat, used: nat, done: seq<Member>): (r: Parse)
    requires pos <= |b|
    ensures r.Parsed? ==> pos < r.pos <= |b| && used < r.used <= c.capacity
    ensures r.Stopped? ==> pos <= r.at <= |b|
    decreases |b| - pos, 1
  {
    var key := StringAt(c, b, pos, used);
    if key.Refused? then Stopped(key.code, key.at, [InObject])
    else if !c.profile.LastWins? && HasKey(done, key.text) then Stopped(Code.DuplicateKey, pos, [InObject])
    else
      var colon := Skip(b, key.end + 1);
      if colon >= |b| || b[colon] != COLON then Stopped(Code.Syntax, colon, [InObject])
      else MemberValueAt(c, b, colon + 1, depth, used + 1, done, AtKey(key.text, pos + 1, key.end))
  }

  /** The value of the member whose key `step` names, and the members after it. */
  function MemberValueAt(c: Config, b: Bytes, pos: nat, depth: nat, used: nat, done: seq<Member>, step: Step)
    : (r: Parse)
    requires pos <= |b| && step.AtKey?
    ensures r.Parsed? ==> pos < r.pos <= |b| && used < r.used <= c.capacity
    ensures r.Stopped? ==> pos <= r.at <= |b|
    decreases |b| - pos, 1
  {
    var r := ValueAt(c, b, pos, depth + 1, used);
    if r.Stopped? then Within(step, r)
    else
      var members := done + [Member(step.key, r.tree)];
      match Delimiter(b, r.pos, CLOSE_BRACE)
      case Broken(at) => Stopped(Code.Syntax, at, [step])
      case Close(next) => Parsed(Object(members), next, r.used)
      case Again(next) => MembersAt(c, b, next, depth, r.used, members)
  }

  /** A whole text: one value and nothing but whitespace after it. */
  function ReadText(c: Config, b: Bytes): (r: Parse)
    ensures r.Stopped? ==> r.at <= |b|
  {
    var r := ValueAt(c, b, 0, 0, 0);
    if r.Stopped? then r
    else
      var end := Skip(b, r.pos);
      if end != |b| then Stopped(Code.Syntax, end, []) else r.(pos := end)
  }
}
