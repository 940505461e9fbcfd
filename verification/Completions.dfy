/** Every prefix the reader got through can be completed: what to append, case by case. */
module Completions {
  import opened Basics
  import opened StringLiteral
  import opened Trees
  import opened Reader
  import opened Acceptance
  import opened Grammar
  import opened ParserLemmas
  import opened ReaderLaws
  import opened Prefixes

  /** The tolerant reader with three more tokens. */
  function Lenient(c: Config): Config {
    Reader.Config(LastWins, c.depth, c.capacity + 3)
  }

  /** What may follow a completed value. */
  predicate Ends(rest: Bytes) {
    rest == [] || IsDelimiter(rest[0])
  }

  /** A completion that starts where reading stands does not close or skip anything. */
  predicate Opens(start: nat, pos: nat, tail: Bytes) {
    start == pos ==> tail != [] && tail[0] !in {CLOSE_BRACE, CLOSE_BRACKET} && !IsSpace(tail[0])
  }

  ghost predicate ValueCompleted(c: Config, a: Bytes, pos: nat, depth: nat, used: nat, start: nat, tail: Bytes)
    requires pos <= start <= |a|
  {
    var x := a[..start] + tail;
    && Opens(start, pos, tail)
    && forall rest :: Ends(rest) ==>
         var r := ValueAt(Lenient(c), x + rest, pos, depth, used); r.Parsed? && r.pos == |x|
  }

  ghost predicate ItemsCompleted(c: Config, a: Bytes, pos: nat, depth: nat, used: nat, done: seq<Json>, start: nat,
                                 tail: Bytes)
    requires pos <= start <= |a|
  {
    var x := a[..start] + tail;
    && Opens(start, pos, tail)
    && forall rest :: Ends(rest) ==>
         var r := ItemsAt(Lenient(c), x + rest, pos, depth, used, done); r.Parsed? && r.pos == |x|
  }

  ghost predicate MembersCompleted(c: Config, a: Bytes, pos: nat, depth: nat, used: nat, done: seq<Member>, start: nat,
                                   tail: Bytes)
    requires pos <= start <= |a|
  {
    var x := a[..start] + tail;
    && Opens(start, pos, tail)
    && forall rest :: Ends(rest) ==>
         var r := MembersAt(Lenient(c), x + rest, pos, depth, used, done); r.Parsed? && r.pos == |x|
  }

  /** What a strict reader reads, the lenient one reads alike. */
  lemma ReadAlike(c: Config, b: Bytes, pos: nat, depth: nat, used: nat)
    requires pos <= |b| && ValueAt(c, b, pos, depth, used).Parsed?
    ensures ValueAt(Lenient(c), b, pos, depth, used) == ValueAt(c, b, pos, depth, used)
  {
    hide ValueAt;
    var tolerant := c.(profile := LastWins);
    if !c.profile.LastWins? {
      ValueOvertaken(c, b, pos, depth, used);
    }
    ValueWidens(tolerant, Lenient(c), b, pos, depth, used);
  }

  lemma KeyAlike(c: Config, b: Bytes, pos: nat, used: nat)
    requires StringAt(c, b, pos, used).Read?
    ensures StringAt(Lenient(c), b, pos, used) == StringAt(c, b, pos, used)
  {
    hide StringAt;
    LiteralIgnoresTolerance(c, b, pos, used);
    LiteralWidens(c.(profile := LastWins), Lenient(c), b, pos, used);
  }

  lemma Begins(a: Bytes, start: nat, tail: Bytes, rest: Bytes)
    requires start <= |a|
    ensures Agree(a, a[..start] + tail + rest, start)
    ensures tail != [] ==> (a[..start] + tail + rest)[start] == tail[0]
    ensures forall k :: 0 <= k < |tail| ==> (a[..start] + tail + rest)[start + k] == tail[k]
    ensures rest != [] ==> (a[..start] + tail + rest)[start + |tail|] == rest[0]
  {
  }

  // ----- values

  /** Where nothing of a value could be read, null completes it. */
  lemma LeafCompletes(c: Config, a: Bytes, pos: nat, depth: nat, used: nat)
    requires pos <= |a| && used <= c.capacity
    ensures ValueCompleted(c, a, pos, depth, used, Skip(a, pos), NULL_WORD)
  {
    hide ValueAt, Skip, PrimitiveAt;
    var p := Skip(a, pos);
    forall rest | Ends(rest)
      ensures var x := a[..p] + NULL_WORD;
              var r := ValueAt(Lenient(c), x + rest, pos, depth, used); r.Parsed? && r.pos == |x|
    {
      var b := a[..p] + NULL_WORD + rest;
      Begins(a, p, NULL_WORD, rest);
      SkipAgain(a, b, pos, p);
      ValueSkips(Lenient(c), b, pos, depth, used);
      StartIdle(b, pos);
      NullReads(Lenient(c), b, p, depth, used, a[..p], rest);
    }
  }

  lemma NullReads(c: Config, b: Bytes, p: nat, depth: nat, used: nat, before: Bytes, rest: Bytes)
    requires b == before + NULL_WORD + rest && p == |before| && Ends(rest) && used < c.capacity && Skip(b, p) == p
    ensures ValueAt(c, b, p, depth, used) == Parsed(Null, p + 4, used + 1)
  {
    hide ValueAt, Skip, PrimitiveAt;
    assert b[p..p + 4] == NULL_WORD;
    WordPlain(Null);
    PrimitiveComplete(c, b, p, used, NULL_WORD, Null);
    ScalarStart(c, b, p, depth, used);
  }

  /** A container is entered again, and is no more empty than before. */
  lemma EntersAgain(a: Bytes, p: nat, start: nat, tail: Bytes, rest: Bytes)
    requires p < |a| && Skip(a, p + 1) <= start <= |a| && Opens(start, Skip(a, p + 1), tail)
    ensures var b := a[..start] + tail + rest;
            var q := Skip(a, p + 1);
            && p < |b| && b[p] == a[p] && Skip(b, p + 1) == q
            && (q < |b| && (b[q] == CLOSE_BRACE || b[q] == CLOSE_BRACKET) ==> q < |a| && b[q] == a[q])
  {
    hide Skip;
    var b := a[..start] + tail + rest;
    Begins(a, start, tail, rest);
    AgreeAt(a, b, start);
    SkipAgain(a, b, p + 1, start);
  }

  /** The completion of what is inside completes a container. */
  lemma ObjectCompletes(c: Config, a: Bytes, p: nat, depth: nat, used: nat, start: nat, tail: Bytes)
    requires p < |a| && a[p] == OPEN_BRACE && depth < c.depth && used < c.capacity
    requires Skip(a, p + 1) <= start <= |a| && (Skip(a, p + 1) < |a| ==> a[Skip(a, p + 1)] != CLOSE_BRACE)
    requires MembersCompleted(c, a, Skip(a, p + 1), depth, used + 1, [], start, tail)
    ensures ValueCompleted(c, a, p, depth, used, start, tail)
  {
    hide ValueAt, Skip, MembersAt, Agree;
    forall rest | Ends(rest)
      ensures var x := a[..start] + tail;
              var r := ValueAt(Lenient(c), x + rest, p, depth, used); r.Parsed? && r.pos == |x|
    {
      var b := a[..start] + tail + rest;
      EntersAgain(a, p, start, tail, rest);
      ContainerStart(Lenient(c), b, p, depth, used);
    }
  }

  lemma ArrayCompletes(c: Config, a: Bytes, p: nat, depth: nat, used: nat, start: nat, tail: Bytes)
    requires p < |a| && a[p] == OPEN_BRACKET && depth < c.depth && used < c.capacity
    requires Skip(a, p + 1) <= start <= |a| && (Skip(a, p + 1) < |a| ==> a[Skip(a, p + 1)] != CLOSE_BRACKET)
    requires ItemsCompleted(c, a, Skip(a, p + 1), depth, used + 1, [], start, tail)
    ensures ValueCompleted(c, a, p, depth, used, start, tail)
  {
    hide ValueAt, Skip, ItemsAt, Agree;
    forall rest | Ends(rest)
      ensures var x := a[..start] + tail;
              var r := ValueAt(Lenient(c), x + rest, p, depth, used); r.Parsed? && r.pos == |x|
    {
      var b := a[..start] + tail + rest;
      EntersAgain(a, p, start, tail, rest);
      ContainerStart(Lenient(c), b, p, depth, used);
    }
  }

  /** A value that starts after whitespace completes like the value itself. */
  lemma SpacedCompletes(c: Config, a: Bytes, pos: nat, depth: nat, used: nat, start: nat, tail: Bytes)
    requires pos <= |a| && Skip(a, pos) <= start <= |a|
    requires ValueCompleted(c, a, Skip(a, pos), depth, used, start, tail)
    ensures ValueCompleted(c, a, pos, depth, used, start, tail)
  {
    hide ValueAt, Skip;
    var p := Skip(a, pos);
    forall rest | Ends(rest)
      ensures var x := a[..start] + tail;
              var r := ValueAt(Lenient(c), x + rest, pos, depth, used); r.Parsed? && r.pos == |x|
    {
      var b := a[..start] + tail + rest;
      Begins(a, start, tail, rest);
      AgreeAt(a, b, start);
      SkipAgain(a, b, pos, start);
      ValueSkips(Lenient(c), b, pos, depth, used);
    }
  }

  // ----- elements

  /** After a completed entry the closing delimiter closes the container. */
  lemma ClosesNext(b: Bytes, pos: nat, closing: Byte)
    requires pos < |b| && b[pos] == closing && !IsSpace(closing)
    ensures Delimiter(b, pos, closing) == Close(pos + 1)
  {
    SkipIdle(b, pos);
  }

  lemma ItemCompletes(c: Config, a: Bytes, pos: nat, depth: nat, used: nat, done: seq<Json>, start: nat, tail: Bytes)
    requires pos <= start <= |a| && ValueCompleted(c, a, pos, depth + 1, used, start, tail)
    ensures ItemsCompleted(c, a, pos, depth, used, done, start, tail + [CLOSE_BRACKET])
  {
    hide ValueAt, Delimiter;
    forall rest | Ends(rest)
      ensures var x := a[..start] + (tail + [CLOSE_BRACKET]);
              var r := ItemsAt(Lenient(c), x + rest, pos, depth, used, done); r.Parsed? && r.pos == |x|
    {
      var x := a[..start] + tail;
      var more := [CLOSE_BRACKET] + rest;
      assert a[..start] + (tail + [CLOSE_BRACKET]) + rest == x + more;
      assert Ends(more);
      ClosesNext(x + more, |x|, CLOSE_BRACKET);
    }
  }

  lemma ItemsEndHere(c: Config, a: Bytes, pos: nat, depth: nat, used: nat, done: seq<Json>)
    requires pos <= |a| && ValueAt(c, a, pos, depth + 1, used).Parsed?
    requires Delimiter(a, ValueAt(c, a, pos, depth + 1, used).pos, CLOSE_BRACKET).Broken?
    ensures ItemsCompleted(c, a, pos, depth, used, done,
                           Delimiter(a, ValueAt(c, a, pos, depth + 1, used).pos, CLOSE_BRACKET).at, [CLOSE_BRACKET])
  {
    hide ValueAt, Skip, Terminated;
    var r := ValueAt(c, a, pos, depth + 1, used);
    var start := Delimiter(a, r.pos, CLOSE_BRACKET).at;
    forall rest | Ends(rest)
      ensures var x := a[..start] + [CLOSE_BRACKET];
              var s := ItemsAt(Lenient(c), x + rest, pos, depth, used, done); s.Parsed? && s.pos == |x|
    {
      var b := a[..start] + [CLOSE_BRACKET] + rest;
      Begins(a, start, [CLOSE_BRACKET], rest);
      ReadBefore(c, a, b, pos, depth + 1, used, start, CLOSE_BRACKET);
      SkipAgain(a, b, r.pos, start);
    }
  }

  /** A value read before `start` is read again in a text that goes on there with a delimiter. */
  lemma ReadBefore(c: Config, a: Bytes, b: Bytes, pos: nat, depth: nat, used: nat, start: nat, next: Byte)
    requires pos <= |a| && ValueAt(c, a, pos, depth, used).Parsed? && ValueAt(c, a, pos, depth, used).pos <= start
    requires Agree(a, b, start) && start < |b| && b[start] == next && IsDelimiter(next)
    ensures ValueAt(Lenient(c), b, pos, depth, used) == ValueAt(c, a, pos, depth, used)
  {
    hide ValueAt;
    var r := ValueAt(c, a, pos, depth, used);
    ReadAlike(c, a, pos, depth, used);
    AgreeLess(a, b, start, r.pos);
    if r.pos < start {
      AgreeLess(a, b, start, r.pos + 1);
    }
    ValueAgain(Lenient(c), a, b, pos, depth, used);
  }

  lemma NextItemCompletes(c: Config, a: Bytes, pos: nat, depth: nat, used: nat, done: seq<Json>, start: nat, tail: Bytes)
    requires pos <= |a| && ValueAt(c, a, pos, depth + 1, used).Parsed?
    requires Delimiter(a, ValueAt(c, a, pos, depth + 1, used).pos, CLOSE_BRACKET).Again?
    requires var r := ValueAt(c, a, pos, depth + 1, used);
             var next := Delimiter(a, r.pos, CLOSE_BRACKET).pos;
             next <= start <= |a| && ItemsCompleted(c, a, next, depth, r.used, done + [r.tree], start, tail)
    ensures ItemsCompleted(c, a, pos, depth, used, done, start, tail)
  {
    hide ValueAt, Delimiter, Terminated;
    var r := ValueAt(c, a, pos, depth + 1, used);
    var next := Delimiter(a, r.pos, CLOSE_BRACKET).pos;
    forall rest | Ends(rest)
      ensures var x := a[..start] + tail;
              var s := ItemsAt(Lenient(c), x + rest, pos, depth, used, done); s.Parsed? && s.pos == |x|
    {
      var b := a[..start] + tail + rest;
      Begins(a, start, tail, rest);
      ReadAlike(c, a, pos, depth + 1, used);
      AgreeLess(a, b, start, r.pos);
      AgreeLess(a, b, start, r.pos + 1);
      ValueAgain(Lenient(c), a, b, pos, depth + 1, used);
      CommaAgain(a, b, r.pos, CLOSE_BRACKET, start, tail);
    }
  }

  /** The comma after an entry, and the whitespace up to where reading goes on. */
  lemma CommaAgain(a: Bytes, b: Bytes, pos: nat, closing: Byte, start: nat, tail: Bytes)
    requires pos <= |a| && Delimiter(a, pos, closing).Again? && Delimiter(a, pos, closing).pos <= start
    requires Agree(a, b, start) && Opens(start, Delimiter(a, pos, closing).pos, tail)
    requires tail != [] ==> start < |b| && b[start] == tail[0]
    ensures Delimiter(b, pos, closing) == Delimiter(a, pos, closing)
  {
    hide Skip;
    var p := Skip(a, pos);
    SkipAgain(a, b, pos, start);
    AgreeAt(a, b, start);
    SkipAgain(a, b, p + 1, start);
  }

  // ----- members

  const EMPTY_MEMBER: Bytes := [QUOTE, QUOTE, COLON] + NULL_WORD + [CLOSE_BRACE]
  const COLON_NULL: Bytes := [COLON] + NULL_WORD + [CLOSE_BRACE]

  /** The lenient reader finds the key again, and the colon at `colon`. */
  lemma KeyAgain(c: Config, a: Bytes, b: Bytes, pos: nat, used: nat, done: seq<Member>, n: nat)
    requires pos <= |a| && StringAt(c, a, pos, used).Read? && Agree(a, b, n)
    requires var colon := Skip(a, StringAt(c, a, pos, used).end + 1); colon <= n && colon < |b| && b[colon] == COLON
    ensures var key := StringAt(c, a, pos, used);
            KeyRead(Lenient(c), b, pos, used, done, key.text, Skip(a, key.end + 1) + 1)
  {
    hide StringAt, Skip, HasKey;
    var key := StringAt(c, a, pos, used);
    KeyAlike(c, a, pos, used);
    LiteralAgain(Lenient(c), a, b, pos, used, n);
    SkipAgain(a, b, key.end + 1, n);
  }

  /** A read key and a read value that the closing brace follows. */
  lemma MemberCloses(c: Config, b: Bytes, pos: nat, depth: nat, used: nat, done: seq<Member>, key: Bytes, from: nat)
    requires pos <= |b| && from <= |b| && KeyRead(c, b, pos, used, done, key, from)
    requires var r := ValueAt(c, b, from, depth + 1, used + 1);
             r.Parsed? && Delimiter(b, r.pos, CLOSE_BRACE).Close?
    ensures var r := ValueAt(c, b, from, depth + 1, used + 1);
            var s := MembersAt(c, b, pos, depth, used, done);
            s.Parsed? && s.pos == Delimiter(b, r.pos, CLOSE_BRACE).pos
  {
    hide ValueAt, MembersAt, Delimiter, KeyRead;
    var r := ValueAt(c, b, from, depth + 1, used + 1);
    var m := Member(key, r.tree);
    KeyThenValue(c, b, pos, depth, used, done, m, from, r.pos, r.used);
    MembersTurn(c, b, pos, depth, used, done, m, r.pos, r.used);
  }

  /** After a key and its colon, null and the closing brace complete the object. */
  lemma NullCloses(c: Config, b: Bytes, pos: nat, depth: nat, used: nat, done: seq<Member>, key: Bytes, before: Bytes,
                   rest: Bytes)
    requires b == before + NULL_WORD + ([CLOSE_BRACE] + rest) && pos <= |before| && used + 1 < c.capacity
    requires KeyRead(c, b, pos, used, done, key, |before|)
    ensures var s := MembersAt(c, b, pos, depth, used, done); s.Parsed? && s.pos == |before| + 5
  {
    hide ValueAt, MembersAt, Skip, Delimiter, KeyRead;
    var from := |before|;
    SkipIdle(b, from);
    NullReads(c, b, from, depth + 1, used + 1, before, [CLOSE_BRACE] + rest);
    ClosesNext(b, from + 4, CLOSE_BRACE);
    MemberCloses(c, b, pos, depth, used, done, key, from);
  }

  /** Where a key is due and none can be read, an empty one completes the object. */
  lemma KeyCompletes(c: Config, a: Bytes, pos: nat, depth: nat, used: nat, done: seq<Member>)
    requires pos <= |a| && used <= c.capacity
    ensures MembersCompleted(c, a, pos, depth, used, done, pos, EMPTY_MEMBER)
  {
    hide ValueAt, MembersAt, StringAt, Skip, Delimiter, KeyRead;
    forall rest | Ends(rest)
      ensures var x := a[..pos] + EMPTY_MEMBER;
              var r := MembersAt(Lenient(c), x + rest, pos, depth, used, done); r.Parsed? && r.pos == |x|
    {
      var x := a[..pos] + EMPTY_MEMBER;
      var b := x + rest;
      var more := [CLOSE_BRACE] + rest;
      assert b == (a[..pos] + [QUOTE, QUOTE, COLON]) + NULL_WORD + more;
      EmptyKey(Lenient(c), b, pos, used, done);
      NullCloses(Lenient(c), b, pos, depth, used, done, [], a[..pos] + [QUOTE, QUOTE, COLON], rest);
    }
  }

  lemma EmptyKey(c: Config, b: Bytes, pos: nat, used: nat, done: seq<Member>)
    requires pos + 3 <= |b| && b[pos] == QUOTE && b[pos + 1] == QUOTE && b[pos + 2] == COLON && used < c.capacity
    requires c.profile.LastWins?
    ensures KeyRead(c, b, pos, used, done, [], pos + 3)
  {
    SkipIdle(b, pos + 2);
    assert b[pos + 1..pos + 1] == [];
  }

  lemma ColonLayout(a: Bytes, colon: nat, rest: Bytes)
    requires colon <= |a|
    ensures var b := a[..colon] + COLON_NULL + rest;
            && b == (a[..colon] + [COLON]) + NULL_WORD + ([CLOSE_BRACE] + rest)
            && Agree(a, b, colon) && colon < |b| && b[colon] == COLON && |a[..colon] + COLON_NULL| == colon + 6
  {
  }

  /** Where the colon is missing, a colon and null complete the object. */
  lemma ColonCompletes(c: Config, a: Bytes, pos: nat, depth: nat, used: nat, done: seq<Member>)
    requires pos <= |a| && StringAt(c, a, pos, used).Read?
    ensures MembersCompleted(c, a, pos, depth, used, done, Skip(a, StringAt(c, a, pos, used).end + 1), COLON_NULL)
  {
    hide ValueAt, MembersAt, StringAt, Skip, Delimiter, KeyRead;
    var key := StringAt(c, a, pos, used);
    var colon := Skip(a, key.end + 1);
    forall rest | Ends(rest)
      ensures var x := a[..colon] + COLON_NULL;
              var r := MembersAt(Lenient(c), x + rest, pos, depth, used, done); r.Parsed? && r.pos == |x|
    {
      var b := a[..colon] + COLON_NULL + rest;
      ColonLayout(a, colon, rest);
      KeyAgain(c, a, b, pos, used, done, colon);
      NullCloses(Lenient(c), b, pos, depth, used, done, key.text, a[..colon] + [COLON], rest);
    }
  }

  lemma MemberCompletes(c: Config, a: Bytes, pos: nat, depth: nat, used: nat, done: seq<Member>, start: nat, tail: Bytes)
    requires pos <= |a| && StringAt(c, a, pos, used).Read?
    requires var colon := Skip(a, StringAt(c, a, pos, used).end + 1);
             && colon < |a| && a[colon] == COLON && colon + 1 <= start <= |a|
             && ValueCompleted(c, a, colon + 1, depth + 1, used + 1, start, tail)
    ensures MembersCompleted(c, a, pos, depth, used, done, start, tail + [CLOSE_BRACE])
  {
    hide ValueAt, MembersAt, StringAt, Skip, Delimiter, KeyRead;
    var key := StringAt(c, a, pos, used);
    var colon := Skip(a, key.end + 1);
    forall rest | Ends(rest)
      ensures var x := a[..start] + (tail + [CLOSE_BRACE]);
              var r := MembersAt(Lenient(c), x + rest, pos, depth, used, done); r.Parsed? && r.pos == |x|
    {
      var x := a[..start] + tail;
      var more := [CLOSE_BRACE] + rest;
      var b := x + more;
      assert a[..start] + (tail + [CLOSE_BRACE]) + rest == b;
      assert Ends(more);
      Begins(a, start, tail, more);
      AgreeAt(a, b, start);
      KeyAgain(c, a, b, pos, used, done, start);
      ClosesNext(b, |x|, CLOSE_BRACE);
      MemberCloses(Lenient(c), b, pos, depth, used, done, key.text, colon + 1);
    }
  }

  /** A key and its colon were read, and after them a value. */
  ghost predicate MemberThere(c: Config, a: Bytes, pos: nat, depth: nat, used: nat)
    requires pos <= |a|
  {
    && StringAt(c, a, pos, used).Read?
    && var colon := Skip(a, StringAt(c, a, pos, used).end + 1);
    && colon < |a| && a[colon] == COLON && ValueAt(c, a, colon + 1, depth + 1, used + 1).Parsed?
  }

  function MemberValue(c: Config, a: Bytes, pos: nat, depth: nat, used: nat): Parse
    requires pos <= |a| && MemberThere(c, a, pos, depth, used)
  {
    ValueAt(c, a, Skip(a, StringAt(c, a, pos, used).end + 1) + 1, depth + 1, used + 1)
  }

  lemma MembersEndHere(c: Config, a: Bytes, pos: nat, depth: nat, used: nat, done: seq<Member>)
    requires pos <= |a| && MemberThere(c, a, pos, depth, used)
    requires Delimiter(a, MemberValue(c, a, pos, depth, used).pos, CLOSE_BRACE).Broken?
    ensures var at := Delimiter(a, MemberValue(c, a, pos, depth, used).pos, CLOSE_BRACE).at;
            pos <= at && MembersCompleted(c, a, pos, depth, used, done, at, [CLOSE_BRACE])
  {
    hide ValueAt, MembersAt, StringAt, Skip, KeyRead, Terminated;
    var key := StringAt(c, a, pos, used);
    var colon := Skip(a, key.end + 1);
    var r := ValueAt(c, a, colon + 1, depth + 1, used + 1);
    var start := Delimiter(a, r.pos, CLOSE_BRACE).at;
    forall rest | Ends(rest)
      ensures var x := a[..start] + [CLOSE_BRACE];
              var s := MembersAt(Lenient(c), x + rest, pos, depth, used, done); s.Parsed? && s.pos == |x|
    {
      var b := a[..start] + [CLOSE_BRACE] + rest;
      Begins(a, start, [CLOSE_BRACE], rest);
      AgreeAt(a, b, start);
      KeyAgain(c, a, b, pos, used, done, start);
      ReadBefore(c, a, b, colon + 1, depth + 1, used + 1, start, CLOSE_BRACE);
      SkipAgain(a, b, r.pos, start);
      MemberCloses(Lenient(c), b, pos, depth, used, done, key.text, colon + 1);
    }
  }

  lemma NextMemberCompletes(c: Config, a: Bytes, pos: nat, depth: nat, used: nat, done: seq<Member>, start: nat,
                            tail: Bytes)
    requires pos <= |a| && MemberThere(c, a, pos, depth, used)
    requires Delimiter(a, MemberValue(c, a, pos, depth, used).pos, CLOSE_BRACE).Again?
    requires var r := MemberValue(c, a, pos, depth, used);
             var next := Delimiter(a, r.pos, CLOSE_BRACE).pos;
             var m := Member(StringAt(c, a, pos, used).text, r.tree);
             next <= start <= |a| && MembersCompleted(c, a, next, depth, r.used, done + [m], start, tail)
    ensures MembersCompleted(c, a, pos, depth, used, done, start, tail)
  {
    hide ValueAt, MembersAt, StringAt, Skip, Delimiter, KeyRead, MemberRead, Terminated;
    var key := StringAt(c, a, pos, used);
    var colon := Skip(a, key.end + 1);
    var r := ValueAt(c, a, colon + 1, depth + 1, used + 1);
    var m := Member(key.text, r.tree);
    forall rest | Ends(rest)
      ensures var x := a[..start] + tail;
              var s := MembersAt(Lenient(c), x + rest, pos, depth, used, done); s.Parsed? && s.pos == |x|
    {
      var b := a[..start] + tail + rest;
      Begins(a, start, tail, rest);
      AgreeAt(a, b, start);
      KeyAgain(c, a, b, pos, used, done, start);
      ReadAlike(c, a, colon + 1, depth + 1, used + 1);
      AgreeLess(a, b, start, r.pos);
      AgreeLess(a, b, start, r.pos + 1);
      ValueAgain(Lenient(c), a, b, colon + 1, depth + 1, used + 1);
      CommaAgain(a, b, r.pos, CLOSE_BRACE, start, tail);
      KeyThenValue(Lenient(c), b, pos, depth, used, done, m, colon + 1, r.pos, r.used);
      MembersTurn(Lenient(c), b, pos, depth, used, done, m, r.pos, r.used);
    }
  }
}
