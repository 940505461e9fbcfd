/** The offset of an error: everything before its token can be completed, and no text that repeats the token is
    accepted. */
module ErrorOffset {
  import opened Basics
  import opened StringLiteral
  import opened Trees
  import opened Reader
  import opened Acceptance
  import opened Grammar
  import opened ParserLemmas
  import opened ReaderLaws
  import opened PointerScan
  import opened Prefixes
  import opened Completions

  // ----- a refused value: the token, what stays refused, what completes the text before it

  /** The error at `at` belongs to the token at `start`: it is the token, or lies inside that literal. */
  predicate Located(b: Bytes, start: nat, at: nat) {
    && start <= at <= |b|
    && (start < at ==> b[start] == QUOTE && at <= QuoteFrom(b, start + 1))
  }

  ghost predicate ValuePersists(c: Config, a: Bytes, pos: nat, depth: nat, used: nat, start: nat)
    requires pos <= |a|
  {
    forall b :: Agree(a, b, TokenEnd(a, start)) ==>
      pos <= |b| && ValueAt(c, b, pos, depth, used) == ValueAt(c, a, pos, depth, used)
  }

  ghost predicate ItemsPersist(c: Config, a: Bytes, pos: nat, depth: nat, used: nat, done: seq<Json>, start: nat)
    requires pos <= |a|
  {
    forall b :: Agree(a, b, TokenEnd(a, start)) ==>
      pos <= |b| && ItemsAt(c, b, pos, depth, used, done) == ItemsAt(c, a, pos, depth, used, done)
  }

  ghost predicate MembersPersist(c: Config, a: Bytes, pos: nat, depth: nat, used: nat, done: seq<Member>, start: nat)
    requires pos <= |a|
  {
    forall b :: Agree(a, b, TokenEnd(a, start)) ==>
      pos <= |b| && MembersAt(c, b, pos, depth, used, done) == MembersAt(c, a, pos, depth, used, done)
  }

  lemma TokenHasLength(b: Bytes, start: nat)
    ensures TokenEnd(b, start) > start
  {
  }

  lemma LiteralLocated(c: Config, b: Bytes, pos: nat, used: nat)
    requires pos <= |b| && StringAt(c, b, pos, used).Refused?
    ensures Located(b, pos, StringAt(c, b, pos, used).at)
  {
    hide DecodeFrom, ScanBody, QuoteFrom;
    if pos < |b| && b[pos] == QUOTE {
      LiteralScans(c.profile, b, pos + 1);
      QuoteNotBefore(c.profile, b, pos + 1);
    }
  }

  /** The token a refused value fails at; texts that agree up to its end are refused alike. */
  lemma {:induction false} ValueRefused(c: Config, a: Bytes, pos: nat, depth: nat, used: nat)
    returns (start: nat, tail: Bytes)
    requires pos <= |a| && used <= c.capacity && ValueAt(c, a, pos, depth, used).Stopped?
    ensures pos <= start <= |a| && Located(a, start, ValueAt(c, a, pos, depth, used).at)
    ensures ValueAt(c, a, pos, depth, used).code.DuplicateKey? ==> start == ValueAt(c, a, pos, depth, used).at
    ensures ValuePersists(c, a, pos, depth, used, start)
    ensures ValueCompleted(c, a, pos, depth, used, start, tail)
    decreases |a| - pos, 1
  {
    hide ValueAt, MembersAt, ItemsAt, StringAt, Skip, Primitive, RunEnd, QuoteFrom;
    var p := Skip(a, pos);
    ValueSkips(c, a, pos, depth, used);
    StartIdle(a, pos);
    ScalarStart(c, a, p, depth, used);
    start, tail := p, NULL_WORD;
    LeafCompletes(c, a, pos, depth, used);
    if p < |a| && (a[p] == OPEN_BRACE || a[p] == OPEN_BRACKET) {
      start, tail := ContainerRefused(c, a, p, depth, used);
      SpacedCompletes(c, a, pos, depth, used, start, tail);
    } else if p < |a| && a[p] == QUOTE {
      LiteralLocated(c, a, p, used);
      LiteralCodes(c, a, p, used);
    }
    TokenHasLength(a, start);
    forall b | Agree(a, b, TokenEnd(a, start))
      ensures pos <= |b| && ValueAt(c, b, pos, depth, used) == ValueAt(c, a, pos, depth, used)
    {
      SkipAgain(a, b, pos, TokenEnd(a, start));
      AgreeAt(a, b, TokenEnd(a, start));
      ValueSkips(c, b, pos, depth, used);
      StartIdle(b, pos);
      ScalarRefused(c, a, b, p, depth, used, start);
    }
  }

  lemma ScalarRefused(c: Config, a: Bytes, b: Bytes, p: nat, depth: nat, used: nat, start: nat)
    requires p <= |a| && p <= start && Skip(a, p) == p && Agree(a, b, TokenEnd(a, start)) && Skip(b, p) == p
    requires ValueAt(c, a, p, depth, used).Stopped?
    requires p < |a| && (a[p] == OPEN_BRACE || a[p] == OPEN_BRACKET) ==> ValuePersists(c, a, p, depth, used, start)
    requires p < |a| && !(a[p] == OPEN_BRACE || a[p] == OPEN_BRACKET) ==> p == start
    ensures p < |b| && ValueAt(c, b, p, depth, used) == ValueAt(c, a, p, depth, used)
  {
    hide ValueAt, StringAt, Skip, Primitive, QuoteFrom;
    TokenHasLength(a, start);
    AgreeAt(a, b, TokenEnd(a, start));
    ScalarStart(c, a, p, depth, used);
    ScalarStart(c, b, p, depth, used);
    if a[p] == OPEN_BRACE || a[p] == OPEN_BRACKET {
    } else if a[p] == QUOTE {
      LiteralAgain(c, a, b, p, used, TokenEnd(a, p));
    } else {
      var end := RunEnd(a, p);
      RunAgain(a, b, p, end + 1);
      AgreeSlice(a, b, end + 1, p, end);
    }
  }

  lemma {:induction false} ContainerRefused(c: Config, a: Bytes, p: nat, depth: nat, used: nat)
    returns (start: nat, tail: Bytes)
    requires p < |a| && (a[p] == OPEN_BRACE || a[p] == OPEN_BRACKET) && ValueAt(c, a, p, depth, used).Stopped?
    requires used <= c.capacity
    ensures p <= start <= |a| && Located(a, start, ValueAt(c, a, p, depth, used).at)
    ensures ValueAt(c, a, p, depth, used).code.DuplicateKey? ==> start == ValueAt(c, a, p, depth, used).at
    ensures ValuePersists(c, a, p, depth, used, start)
    ensures ValueCompleted(c, a, p, depth, used, start, tail)
    decreases |a| - p, 0
  {
    hide ValueAt, MembersAt, ItemsAt, Skip, TokenEnd, Located, ValueCompleted, MembersCompleted, ItemsCompleted;
    ContainerStart(c, a, p, depth, used);
    var q := Skip(a, p + 1);
    start, tail := p, NULL_WORD;
    SkipIdle(a, p);
    LocatedThere(a, p);
    LeafCompletes(c, a, p, depth, used);
    if depth < c.depth && used < c.capacity {
      if a[p] == OPEN_BRACE {
        start, tail := MembersRefused(c, a, q, depth, used + 1, []);
        ObjectCompletes(c, a, p, depth, used, start, tail);
      } else {
        start, tail := ItemsRefused(c, a, q, depth, used + 1, []);
        ArrayCompletes(c, a, p, depth, used, start, tail);
      }
    }
    TokenHasLength(a, start);
    forall b | Agree(a, b, TokenEnd(a, start))
      ensures p <= |b| && ValueAt(c, b, p, depth, used) == ValueAt(c, a, p, depth, used)
    {
      AgreeAt(a, b, TokenEnd(a, start));
      ContainerStart(c, b, p, depth, used);
      if start > p {
        SkipAgain(a, b, p + 1, TokenEnd(a, start));
      }
    }
  }

  lemma {:induction false} ItemsRefused(c: Config, a: Bytes, pos: nat, depth: nat, used: nat, done: seq<Json>)
    returns (start: nat, tail: Bytes)
    requires pos <= |a| && used <= c.capacity && ItemsAt(c, a, pos, depth, used, done).Stopped?
    ensures pos <= start <= |a| && Located(a, start, ItemsAt(c, a, pos, depth, used, done).at)
    ensures ItemsAt(c, a, pos, depth, used, done).code.DuplicateKey? ==>
              start == ItemsAt(c, a, pos, depth, used, done).at
    ensures ItemsPersist(c, a, pos, depth, used, done, start)
    ensures ItemsCompleted(c, a, pos, depth, used, done, start, tail)
    decreases |a| - pos, 2
  {
    hide ValueAt, Delimiter, RunEnd, QuoteFrom, Terminated;
    var r := ValueAt(c, a, pos, depth + 1, used);
    if r.Stopped? {
      start, tail := ValueRefused(c, a, pos, depth + 1, used);
      ItemCompletes(c, a, pos, depth, used, done, start, tail);
      tail := tail + [CLOSE_BRACKET];
    } else {
      var next := Delimiter(a, r.pos, CLOSE_BRACKET);
      if next.Again? {
        start, tail := ItemsRefused(c, a, next.pos, depth, r.used, done + [r.tree]);
        NextItemCompletes(c, a, pos, depth, used, done, start, tail);
      } else {
        start, tail := next.at, [CLOSE_BRACKET];
        ItemsEndHere(c, a, pos, depth, used, done);
      }
      TokenHasLength(a, start);
      forall b | Agree(a, b, TokenEnd(a, start))
        ensures pos <= |b| && ItemsAt(c, b, pos, depth, used, done) == ItemsAt(c, a, pos, depth, used, done)
      {
        AgreeLess(a, b, TokenEnd(a, start), r.pos);
        AgreeLess(a, b, TokenEnd(a, start), r.pos + 1);
        ValueAgain(c, a, b, pos, depth + 1, used);
        DelimiterAgain(a, b, r.pos, CLOSE_BRACKET, TokenEnd(a, start));
      }
    }
  }

  lemma {:induction false} MembersRefused(c: Config, a: Bytes, pos: nat, depth: nat, used: nat, done: seq<Member>)
    returns (start: nat, tail: Bytes)
    requires pos <= |a| && used <= c.capacity && MembersAt(c, a, pos, depth, used, done).Stopped?
    ensures pos <= start <= |a| && Located(a, start, MembersAt(c, a, pos, depth, used, done).at)
    ensures MembersAt(c, a, pos, depth, used, done).code.DuplicateKey? ==>
              start == MembersAt(c, a, pos, depth, used, done).at
    ensures MembersPersist(c, a, pos, depth, used, done, start)
    ensures MembersCompleted(c, a, pos, depth, used, done, start, tail)
    decreases |a| - pos, 2
  {
    hide MemberValueAt, MembersAt, StringAt, Skip, HasKey, TokenEnd, Located, MembersPersist, MembersCompleted;
    var key := StringAt(c, a, pos, used);
    var colon := if key.Read? then Skip(a, key.end + 1) else pos;
    if key.Refused? || (!c.profile.LastWins? && HasKey(done, key.text)) {
      start, tail := pos, EMPTY_MEMBER;
      KeyCompletes(c, a, pos, depth, used, done);
      KeyFails(c, a, pos, depth, used, done);
    } else if colon >= |a| || a[colon] != COLON {
      start, tail := colon, COLON_NULL;
      ColonCompletes(c, a, pos, depth, used, done);
      ColonFails(c, a, pos, depth, used, done);
    } else {
      start, tail := MemberRefused(c, a, pos, depth, used, done);
    }
  }

  /** The key itself is refused. */
  lemma KeyFails(c: Config, a: Bytes, pos: nat, depth: nat, used: nat, done: seq<Member>)
    requires pos <= |a|
    requires var key := StringAt(c, a, pos, used); key.Refused? || (!c.profile.LastWins? && HasKey(done, key.text))
    ensures MembersAt(c, a, pos, depth, used, done).Stopped?
    ensures MembersAt(c, a, pos, depth, used, done).code.DuplicateKey? ==>
              pos == MembersAt(c, a, pos, depth, used, done).at
    ensures Located(a, pos, MembersAt(c, a, pos, depth, used, done).at)
    ensures MembersPersist(c, a, pos, depth, used, done, pos)
  {
    hide StringAt, Skip, HasKey, TokenEnd, Located, MemberValueAt;
    if StringAt(c, a, pos, used).Refused? {
      LiteralLocated(c, a, pos, used);
      LiteralCodes(c, a, pos, used);
    } else {
      LocatedThere(a, pos);
    }
    forall b | Agree(a, b, TokenEnd(a, pos))
      ensures pos <= |b| && MembersAt(c, b, pos, depth, used, done) == MembersAt(c, a, pos, depth, used, done)
    {
      TokenHasLength(a, pos);
      KeyRefused(c, a, b, pos, used, pos);
    }
  }

  lemma LocatedThere(a: Bytes, at: nat)
    requires at <= |a|
    ensures Located(a, at, at)
  {
  }

  /** The colon is missing. */
  lemma ColonFails(c: Config, a: Bytes, pos: nat, depth: nat, used: nat, done: seq<Member>)
    requires pos <= |a|
    requires var key := StringAt(c, a, pos, used); key.Read? && (!c.profile.LastWins? ==> !HasKey(done, key.text))
    requires var colon := Skip(a, StringAt(c, a, pos, used).end + 1); colon >= |a| || a[colon] != COLON
    ensures MembersAt(c, a, pos, depth, used, done).Stopped? && MembersAt(c, a, pos, depth, used, done).code.Syntax?
    ensures var colon := Skip(a, StringAt(c, a, pos, used).end + 1);
            && colon <= |a| && Located(a, colon, MembersAt(c, a, pos, depth, used, done).at)
            && MembersPersist(c, a, pos, depth, used, done, colon)
  {
    hide StringAt, Skip, HasKey, TokenEnd, Located, MemberValueAt;
    var key := StringAt(c, a, pos, used);
    var colon := Skip(a, key.end + 1);
    LocatedThere(a, colon);
    forall b | Agree(a, b, TokenEnd(a, colon))
      ensures pos <= |b| && MembersAt(c, b, pos, depth, used, done) == MembersAt(c, a, pos, depth, used, done)
    {
      TokenHasLength(a, colon);
      KeyRefused(c, a, b, pos, used, colon);
      SkipAgain(a, b, key.end + 1, TokenEnd(a, colon));
      AgreeAt(a, b, TokenEnd(a, colon));
    }
  }

  /** Key and colon before the refused token. */
  lemma ColonAgain(c: Config, a: Bytes, b: Bytes, pos: nat, used: nat, start: nat)
    requires pos <= |a| && StringAt(c, a, pos, used).Read? && Agree(a, b, TokenEnd(a, start))
    requires Skip(a, StringAt(c, a, pos, used).end + 1) < start
    ensures var key := StringAt(c, a, pos, used);
            var colon := Skip(a, key.end + 1);
            && pos < |b| && StringAt(c, b, pos, used) == key && Skip(b, key.end + 1) == colon
            && colon < |b| && b[colon] == a[colon]
  {
    hide StringAt, Skip, TokenEnd;
    var key := StringAt(c, a, pos, used);
    TokenHasLength(a, start);
    KeyRefused(c, a, b, pos, used, start);
    SkipAgain(a, b, key.end + 1, TokenEnd(a, start));
    AgreeAt(a, b, TokenEnd(a, start));
  }

  /** An entry before the refused token, and the delimiter after it. */
  lemma EntryAgain(c: Config, a: Bytes, b: Bytes, pos: nat, depth: nat, used: nat, start: nat)
    requires pos <= |a| && ValueAt(c, a, pos, depth, used).Parsed? && Agree(a, b, TokenEnd(a, start))
    requires var d := Delimiter(a, ValueAt(c, a, pos, depth, used).pos, CLOSE_BRACE);
             (d.Again? && d.pos <= start) || (d.Broken? && d.at <= start)
    ensures pos <= |b| && ValueAt(c, b, pos, depth, used) == ValueAt(c, a, pos, depth, used)
    ensures var r := ValueAt(c, a, pos, depth, used);
            r.pos <= |b| && Delimiter(b, r.pos, CLOSE_BRACE) == Delimiter(a, r.pos, CLOSE_BRACE)
  {
    hide ValueAt, Delimiter, TokenEnd, Terminated;
    var r := ValueAt(c, a, pos, depth, used);
    TokenHasLength(a, start);
    AgreeLess(a, b, TokenEnd(a, start), r.pos);
    AgreeLess(a, b, TokenEnd(a, start), r.pos + 1);
    ValueAgain(c, a, b, pos, depth, used);
    DelimiterAgain(a, b, r.pos, CLOSE_BRACE, TokenEnd(a, start));
  }

  /** The value of a member, what follows it, or a later member is refused. */
  lemma {:induction false} MemberRefused(c: Config, a: Bytes, pos: nat, depth: nat, used: nat, done: seq<Member>)
    returns (start: nat, tail: Bytes)
    requires pos <= |a| && used <= c.capacity && MembersAt(c, a, pos, depth, used, done).Stopped?
    requires var key := StringAt(c, a, pos, used); key.Read? && (!c.profile.LastWins? ==> !HasKey(done, key.text))
    requires var colon := Skip(a, StringAt(c, a, pos, used).end + 1); colon < |a| && a[colon] == COLON
    ensures pos <= start <= |a| && Located(a, start, MembersAt(c, a, pos, depth, used, done).at)
    ensures MembersAt(c, a, pos, depth, used, done).code.DuplicateKey? ==>
              start == MembersAt(c, a, pos, depth, used, done).at
    ensures MembersPersist(c, a, pos, depth, used, done, start)
    ensures MembersCompleted(c, a, pos, depth, used, done, start, tail)
    decreases |a| - pos, 1
  {
    hide StringAt, Skip, HasKey, TokenEnd, Located, Delimiter, ValueAt, MembersCompleted, Terminated, Agree;
    var key := StringAt(c, a, pos, used);
    var colon := Skip(a, key.end + 1);
    var r := ValueAt(c, a, colon + 1, depth + 1, used + 1);
    if r.Stopped? {
      start, tail := ValueRefused(c, a, colon + 1, depth + 1, used + 1);
      MemberCompletes(c, a, pos, depth, used, done, start, tail);
      tail := tail + [CLOSE_BRACE];
    } else {
      var next := Delimiter(a, r.pos, CLOSE_BRACE);
      if next.Again? {
        start, tail := MembersRefused(c, a, next.pos, depth, r.used, done + [Member(key.text, r.tree)]);
        NextMemberCompletes(c, a, pos, depth, used, done, start, tail);
      } else {
        start, tail := next.at, [CLOSE_BRACE];
        LocatedThere(a, start);
        MembersEndHere(c, a, pos, depth, used, done);
      }
    }
    forall b | Agree(a, b, TokenEnd(a, start))
      ensures pos <= |b| && MembersAt(c, b, pos, depth, used, done) == MembersAt(c, a, pos, depth, used, done)
    {
      ColonAgain(c, a, b, pos, used, start);
      if r.Parsed? {
        EntryAgain(c, a, b, colon + 1, depth + 1, used + 1, start);
      }
    }
  }

  lemma KeyRefused(c: Config, a: Bytes, b: Bytes, pos: nat, used: nat, start: nat)
    requires pos <= start && Agree(a, b, TokenEnd(a, start))
    requires StringAt(c, a, pos, used).Refused? ==> start == pos
    requires StringAt(c, a, pos, used).Read? ==> start == pos || StringAt(c, a, pos, used).end < start
    ensures StringAt(c, b, pos, used) == StringAt(c, a, pos, used)
  {
    hide StringAt;
    TokenHasLength(a, start);
    LiteralAgain(c, a, b, pos, used, TokenEnd(a, start));
    KeyToken(c, a, pos, used);
  }

  lemma KeyToken(c: Config, b: Bytes, pos: nat, used: nat)
    ensures StringAt(c, b, pos, used).Read? ==> TokenEnd(b, pos) == StringAt(c, b, pos, used).end + 1
  {
    hide DecodeFrom, ScanBody, QuoteFrom;
    LiteralScans(c.profile, b, pos + 1);
  }

  // ----- whole texts

  /** `b` begins some JSON text. */
  ghost predicate BeginsText(b: Bytes) {
    exists tail, j :: Denotes(LastWins, b + tail, j)
  }

  lemma CompletedBegins(c: Config, b: Bytes, tail: Bytes)
    requires ReadText(c, b + tail).Parsed? && c.profile.LastWins?
    ensures BeginsText(b)
  {
    hide ReadText, Denotes;
    AcceptsExactly(c, b + tail, ReadText(c, b + tail).tree);
  }

  /**
    The offset of every refusal. There is a token, at the offset or a literal around it, such that the bytes before
    it begin a JSON text, and every text that repeats the bytes up to the token's end is refused there, too.
   */
  lemma OffsetIsExact(c: Config, b: Bytes) returns (start: nat)
    requires ReadText(c, b).Stopped?
    ensures Located(b, start, ReadText(c, b).at) && start <= |b|
    ensures ReadText(c, b).code.DuplicateKey? ==> start == ReadText(c, b).at
    ensures BeginsText(b[..start])
    ensures forall y :: Agree(b, y, TokenEnd(b, start)) ==> ReadText(c, y) == ReadText(c, b)
  {
    hide ValueAt, Skip, TokenEnd, Located, Terminated;
    var r := ValueAt(c, b, 0, 0, 0);
    if r.Stopped? {
      var tail;
      start, tail := ValueRefused(c, b, 0, 0, 0);
      assert Ends([]);
      var x := b[..start] + tail;
      assert x + [] == x;
      SkipIdle(x, |x|);
      CompletedBegins(Lenient(c), b[..start], tail);
    } else {
      start := Skip(b, r.pos);
      LocatedThere(b, start);
      TrailingBegins(c, b);
      TokenHasLength(b, start);
      forall y | Agree(b, y, TokenEnd(b, start)) ensures ReadText(c, y) == ReadText(c, b) {
        AgreeLess(b, y, TokenEnd(b, start), r.pos);
        AgreeLess(b, y, TokenEnd(b, start), r.pos + 1);
        ValueAgain(c, b, y, 0, 0, 0);
        SkipAgain(b, y, r.pos, TokenEnd(b, start));
      }
    }
  }

  /** Before trailing bytes there is a whole text. */
  lemma TrailingBegins(c: Config, b: Bytes)
    requires ValueAt(c, b, 0, 0, 0).Parsed?
    ensures BeginsText(b[..Skip(b, ValueAt(c, b, 0, 0, 0).pos)])
  {
    hide ValueAt, Skip;
    var r := ValueAt(c, b, 0, 0, 0);
    var end := Skip(b, r.pos);
    var x := b[..end];
    ReadAlike(c, b, 0, 0, 0);
    assert Agree(b, x, end);
    AgreeLess(b, x, end, r.pos);
    if r.pos < end {
      AgreeLess(b, x, end, r.pos + 1);
    }
    ValueAgain(Lenient(c), b, x, 0, 0, 0);
    SkipAgain(b, x, r.pos, end);
    assert x + [] == x;
    CompletedBegins(Lenient(c), x, []);
  }
}
