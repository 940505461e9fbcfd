/** What an error pointer names: in every text that goes on after the error, the value the error lies in. */
module PointerMeaning {
  import opened Basics
  import opened StringLiteral
  import opened Numeral
  import opened Trees
  import opened Reader
  import opened Acceptance
  import opened ParserLemmas
  import opened Prefixes
  import opened Completions
  import opened PointerScan
  import opened Pointer

  // ----- resolving a pointer (section 4 of RFC 6901)

  function FirstWith(ms: seq<Member>, key: Bytes): (k: nat)
    requires HasKey(ms, key)
    ensures k < |ms| && ms[k].key == key
  {
    if ms[0].key == key then 0
    else
      HasKeyLater(ms, key);
      1 + FirstWith(ms[1..], key)
  }

  lemma HasKeyLater(ms: seq<Member>, key: Bytes)
    requires HasKey(ms, key) && ms[0].key != key
    ensures HasKey(ms[1..], key)
  {
    var k :| 0 <= k < |ms| && ms[k].key == key;
    assert ms[1..][k - 1].key == key;
  }

  /** An object member by its key, an array element by its decimal index without leading zeros. */
  function Resolve(j: Json, names: seq<Bytes>): Option<Json>
    decreases |names|
  {
    if names == [] then Some(j)
    else
      match j
      case Object(ms) =>
        if HasKey(ms, names[0]) then Resolve(ms[FirstWith(ms, names[0])].value, names[1..]) else None
      case Array(items) =>
        if WholeOk(names[0]) && DecimalValue(names[0]) < |items| then Resolve(items[DecimalValue(names[0])], names[1..])
        else None
      case _ => None
  }

  lemma ResolveItem(items: seq<Json>, n: nat, names: seq<Bytes>)
    requires n < |items|
    ensures Resolve(Array(items), [Render(n)] + names) == Resolve(items[n], names)
  {
    hide Render, DecimalValue;
    RenderInverts(n);
    assert ([Render(n)] + names)[1..] == names;
  }

  lemma ResolveMember(ms: seq<Member>, n: nat, names: seq<Bytes>)
    requires n < |ms| && KeysDistinct(ms)
    ensures Resolve(Object(ms), [ms[n].key] + names) == Resolve(ms[n].value, names)
  {
    assert HasKey(ms, ms[n].key);
    assert ([ms[n].key] + names)[1..] == names;
    var k := FirstWith(ms, ms[n].key);
    assert k == n;
  }

  // ----- where a value lies

  /** `v` is read in `y` from at or before `at`, and what follows it comes at or after `at`. */
  ghost predicate Spans(c: Config, y: Bytes, v: Json, at: nat) {
    exists h: nat, d: nat, u: nat :: SpansFrom(c, y, v, at, h, d, u)
  }

  ghost predicate SpansFrom(c: Config, y: Bytes, v: Json, at: nat, h: nat, d: nat, u: nat) {
    && h <= at && h <= |y|
    && var r := ValueAt(c, y, h, d, u); r.Parsed? && r.tree == v && at <= Skip(y, r.pos)
  }

  /** The pointer of the path names, in this tree, the value that spans the error. */
  ghost predicate NamesSpan(c: Config, y: Bytes, j: Json, path: seq<Step>, at: nat) {
    Resolve(j, Names(path)).Some? && Spans(c, y, Resolve(j, Names(path)).value, at)
  }

  /** After the error comes no end of an array, so that an element that is due does come. */
  predicate GoesOn(y: Bytes, at: nat) {
    at <= |y| && (Skip(y, at) < |y| ==> y[Skip(y, at)] != CLOSE_BRACKET)
  }

  // ----- reaching at least as far

  lemma {:induction false} QuoteReaches(b: Bytes, y: Bytes, pos: nat, at: nat)
    requires Agree(b, y, at) && at <= QuoteFrom(b, pos)
    ensures at <= QuoteFrom(y, pos)
    decreases |y| - pos
  {
    if pos < at {
      AgreeAt(b, y, at);
      if y[pos] != QUOTE {
        QuoteReaches(b, y, if y[pos] == BACKSLASH then pos + 2 else pos + 1, at);
      }
    }
  }

  lemma LiteralReaches(c: Config, b: Bytes, y: Bytes, pos: nat, used: nat, at: nat)
    requires pos < at && Agree(b, y, at) && b[pos] == QUOTE && at <= QuoteFrom(b, pos + 1)
    ensures StringAt(c, y, pos, used).Read? ==> at <= StringAt(c, y, pos, used).end
  {
    hide ScanBody, DecodeFrom, QuoteFrom;
    QuoteReaches(b, y, pos + 1, at);
    LiteralScans(c.profile, y, pos + 1);
  }

  lemma RunReaches(b: Bytes, y: Bytes, pos: nat, n: nat)
    requires pos <= n && Agree(b, y, n) && n <= RunEnd(b, pos)
    ensures n <= RunEnd(y, pos)
  {
    if RunEnd(y, pos) < n {
      AgreeAt(b, y, n);
    }
  }

  lemma SkipReaches(b: Bytes, y: Bytes, pos: nat, n: nat)
    requires pos <= n && Agree(b, y, n) && n <= Skip(b, pos)
    ensures n <= Skip(y, pos) && Skip(y, pos) == Skip(y, n)
  {
    AgreeAt(b, y, n);
    SkipThrough(y, pos, n);
  }

  lemma {:induction false} SkipThrough(y: Bytes, pos: nat, n: nat)
    requires pos <= n <= |y| && forall k :: pos <= k < n ==> IsSpace(y[k])
    ensures Skip(y, pos) == Skip(y, n)
    decreases n - pos
  {
    if pos < n {
      SkipThrough(y, pos + 1, n);
    }
  }

  /** A value read from a text that agrees with `b` up to the end of the one read there reaches as far. */
  lemma ReadReaches(c: Config, b: Bytes, y: Bytes, pos: nat, depth: nat, used: nat)
    requires pos <= |b| && pos <= |y| && ValueAt(c, b, pos, depth, used).Parsed?
    requires Agree(b, y, ValueAt(c, b, pos, depth, used).pos) && ValueAt(c, y, pos, depth, used).Parsed?
    ensures ValueAt(c, y, pos, depth, used).pos >= ValueAt(c, b, pos, depth, used).pos
  {
    hide ValueAt, StringAt, Skip, Primitive, RunEnd;
    var n := ValueAt(c, b, pos, depth, used).pos;
    var p := Skip(b, pos);
    ValueSkips(c, b, pos, depth, used);
    ValueSkips(c, y, pos, depth, used);
    StartIdle(b, pos);
    StartIdle(y, pos);
    ScalarStart(c, b, p, depth, used);
    SkipAgain(b, y, pos, n);
    AgreeAt(b, y, n);
    ScalarStart(c, y, p, depth, used);
    if b[p] == OPEN_BRACE || b[p] == OPEN_BRACKET {
      ContainerAgain(c, b, y, p, depth, used);
    } else if b[p] == QUOTE {
      LiteralAgain(c, b, y, p, used, n);
    } else {
      RunReaches(b, y, p, n);
    }
  }

  /** An entry that was read, the delimiter after it being wrong at `at`: it still spans `at`. */
  lemma EntrySpans(c: Config, b: Bytes, y: Bytes, pos: nat, depth: nat, used: nat, closing: Byte, at: nat)
    requires pos <= |b| && pos <= |y| && ValueAt(c, b, pos, depth, used).Parsed?
    requires Delimiter(b, ValueAt(c, b, pos, depth, used).pos, closing) == Broken(at)
    requires Agree(b, y, at) && ValueAt(c, y, pos, depth, used).Parsed?
    ensures at <= Skip(y, ValueAt(c, y, pos, depth, used).pos)
    ensures Spans(c, y, ValueAt(c, y, pos, depth, used).tree, at)
  {
    hide ValueAt, Skip, Terminated;
    var r := ValueAt(c, b, pos, depth, used);
    AgreeLess(b, y, at, r.pos);
    if r.pos < at {
      AgreeLess(b, y, at, r.pos + 1);
      ValueAgain(c, b, y, pos, depth, used);
      SkipReaches(b, y, r.pos, at);
    } else {
      ReadReaches(c, b, y, pos, depth, used);
    }
    assert SpansFrom(c, y, ValueAt(c, y, pos, depth, used).tree, at, pos, depth, used);
  }

  // ----- what the readers of containers keep

  lemma {:induction false} ItemsKeep(c: Config, y: Bytes, pos: nat, depth: nat, used: nat, done: seq<Json>)
    requires pos <= |y| && ItemsAt(c, y, pos, depth, used, done).Parsed?
    ensures var s := ItemsAt(c, y, pos, depth, used, done);
            var v := ValueAt(c, y, pos, depth + 1, used);
            && v.Parsed? && s.tree.Array? && |s.tree.items| > |done| && s.tree.items[..|done|] == done
            && s.tree.items[|done|] == v.tree && s.pos > Skip(y, v.pos)
    decreases |y| - pos
  {
    hide ValueAt, Skip;
    var v := ValueAt(c, y, pos, depth + 1, used);
    var next := Delimiter(y, v.pos, CLOSE_BRACKET);
    if next.Again? {
      ItemsKeep(c, y, next.pos, depth, v.used, done + [v.tree]);
      var all := ItemsAt(c, y, pos, depth, used, done).tree.items;
      assert all[..|done|] == all[..|done| + 1][..|done|];
      assert all[|done|] == all[..|done| + 1][|done|];
    }
  }

  /** The object holds the members before, then the one with this key and value, and ends after it. */
  predicate MembersGoOn(s: Parse, y: Bytes, done: seq<Member>, key: Literal, v: Parse) {
    && s.Parsed? && s.tree.Object? && key.Read? && v.Parsed?
    && |s.tree.members| > |done| && s.tree.members[..|done|] == done
    && s.tree.members[|done|] == Member(key.text, v.tree) && s.pos > Skip(y, v.pos)
  }

  lemma {:induction false} MembersKeep(c: Config, y: Bytes, pos: nat, depth: nat, used: nat, done: seq<Member>)
    requires pos <= |y| && MembersAt(c, y, pos, depth, used, done).Parsed?
    ensures MemberThere(c, y, pos, depth, used)
    ensures MembersGoOn(MembersAt(c, y, pos, depth, used, done), y, done, StringAt(c, y, pos, used),
                        MemberValue(c, y, pos, depth, used))
    decreases |y| - pos
  {
    hide ValueAt, Skip, StringAt, HasKey;
    var key := StringAt(c, y, pos, used);
    var v := ValueAt(c, y, Skip(y, key.end + 1) + 1, depth + 1, used + 1);
    var next := Delimiter(y, v.pos, CLOSE_BRACE);
    if next.Again? {
      MembersKeep(c, y, next.pos, depth, v.used, done + [Member(key.text, v.tree)]);
      var all := MembersAt(c, y, pos, depth, used, done).tree.members;
      assert all[..|done|] == all[..|done| + 1][..|done|];
      assert all[|done|] == all[..|done| + 1][|done|];
    }
  }

  /** Reading goes on at the same place, or past whitespace from the error on. */
  predicate Meets(y: Bytes, pos: nat, there: nat, at: nat) {
    at <= |y| && ((pos < at && there == pos) || (pos == at && there == Skip(y, at)))
  }

  /** Whitespace up to where `b` goes on, seen in `y`. */
  lemma SkipMeets(b: Bytes, y: Bytes, pos: nat, at: nat)
    requires pos <= |b| && Skip(b, pos) <= at && Agree(b, y, at)
    ensures Meets(y, Skip(b, pos), Skip(y, pos), at)
  {
    hide Skip;
    if Skip(b, pos) < at {
      SkipAgain(b, y, pos, at);
    } else {
      SkipReaches(b, y, pos, at);
    }
  }

  /** A value that fails where it starts has no path. */
  lemma FailsAtOnce(c: Config, b: Bytes, pos: nat, depth: nat, used: nat)
    requires pos <= |b| && ValueAt(c, b, pos, depth, used).Stopped? && ValueAt(c, b, pos, depth, used).at == pos
    ensures ValueAt(c, b, pos, depth, used).path == []
  {
    hide StringAt, MembersAt, ItemsAt, Primitive, RunEnd;
  }

  // ----- the value under construction

  lemma {:induction false} ValueNames(c: Config, b: Bytes, y: Bytes, pos: nat, depth: nat, used: nat)
    requires pos <= |b| && pos <= |y| && ValueAt(c, b, pos, depth, used).Stopped?
    requires var at := ValueAt(c, b, pos, depth, used).at; Agree(b, y, at) && GoesOn(y, at)
    requires ValueAt(c, y, pos, depth, used).Parsed? && Distinct(ValueAt(c, y, pos, depth, used).tree)
    ensures var r := ValueAt(c, b, pos, depth, used);
            var s := ValueAt(c, y, pos, depth, used);
            s.pos >= r.at && NamesSpan(c, y, s.tree, r.path, r.at)
    decreases |b| - pos, 1
  {
    hide ValueAt, Skip, NamesSpan, StringAt, Primitive, RunEnd, Distinct;
    var r, s := ValueAt(c, b, pos, depth, used), ValueAt(c, y, pos, depth, used);
    var p := Skip(b, pos);
    ValueSkips(c, b, pos, depth, used);
    ValueSkips(c, y, pos, depth, used);
    StartIdle(b, pos);
    StartIdle(y, pos);
    ScalarStart(c, b, p, depth, used);
    SkipMeets(b, y, pos, r.at);
    if p < |b| && (b[p] == OPEN_BRACE || b[p] == OPEN_BRACKET) && r.at > p {
      AgreeAt(b, y, r.at);
      ContainerNames(c, b, y, p, depth, used);
      if r.path == [InObject] || r.path == [] {
        RootSpans(c, y, pos, depth, used, r.path, r.at);
      }
    } else {
      if r.at > p {
        AgreeAt(b, y, r.at);
        ScalarStart(c, y, p, depth, used);
        LiteralLocatedIn(c, b, p, used);
        LiteralReaches(c, b, y, p, used, r.at);
      }
      AtOnce(c, b, p, depth, used);
      RootSpans(c, y, pos, depth, used, r.path, r.at);
    }
  }

  /** Where no container is entered the path is empty. */
  lemma AtOnce(c: Config, b: Bytes, p: nat, depth: nat, used: nat)
    requires p <= |b| && Skip(b, p) == p && ValueAt(c, b, p, depth, used).Stopped?
    requires p < |b| && (b[p] == OPEN_BRACE || b[p] == OPEN_BRACKET) ==> ValueAt(c, b, p, depth, used).at == p
    ensures ValueAt(c, b, p, depth, used).path == []
  {
    hide ValueAt, StringAt, Primitive, RunEnd, Skip;
    if p < |b| && (b[p] == OPEN_BRACE || b[p] == OPEN_BRACKET) {
      FailsAtOnce(c, b, p, depth, used);
    } else {
      ScalarStart(c, b, p, depth, used);
    }
  }

  lemma LiteralLocatedIn(c: Config, b: Bytes, pos: nat, used: nat)
    requires StringAt(c, b, pos, used).Refused? && StringAt(c, b, pos, used).at > pos
    ensures pos < |b| && b[pos] == QUOTE && StringAt(c, b, pos, used).at <= QuoteFrom(b, pos + 1)
  {
    hide DecodeFrom, ScanBody, QuoteFrom;
    LiteralScans(c.profile, b, pos + 1);
    QuoteNotBefore(c.profile, b, pos + 1);
  }

  /** A path that names nothing further names the value itself. */
  lemma RootSpans(c: Config, y: Bytes, pos: nat, depth: nat, used: nat, path: seq<Step>, at: nat)
    requires pos <= |y| && pos <= at && ValueAt(c, y, pos, depth, used).Parsed?
    requires at <= Skip(y, ValueAt(c, y, pos, depth, used).pos) && (path == [] || path == [InObject])
    ensures NamesSpan(c, y, ValueAt(c, y, pos, depth, used).tree, path, at)
  {
    hide ValueAt, Skip;
    assert Names(path) == [];
    assert SpansFrom(c, y, ValueAt(c, y, pos, depth, used).tree, at, pos, depth, used);
  }

  lemma {:induction false} ContainerNames(c: Config, b: Bytes, y: Bytes, p: nat, depth: nat, used: nat)
    requires p < |b| && (b[p] == OPEN_BRACE || b[p] == OPEN_BRACKET) && p < |y| && y[p] == b[p]
    requires ValueAt(c, b, p, depth, used).Stopped? && ValueAt(c, b, p, depth, used).at > p
    requires var at := ValueAt(c, b, p, depth, used).at; Agree(b, y, at) && GoesOn(y, at)
    requires ValueAt(c, y, p, depth, used).Parsed? && Distinct(ValueAt(c, y, p, depth, used).tree)
    ensures var r := ValueAt(c, b, p, depth, used);
            var s := ValueAt(c, y, p, depth, used);
            s.pos >= r.at && (r.path == [InObject] || NamesSpan(c, y, s.tree, r.path, r.at))
    decreases |b| - p, 0
  {
    hide ValueAt, Skip, NamesSpan, MembersAt, ItemsAt, Distinct;
    var at := ValueAt(c, b, p, depth, used).at;
    ContainerStart(c, b, p, depth, used);
    ContainerStart(c, y, p, depth, used);
    var q, there := Skip(b, p + 1), Skip(y, p + 1);
    SkipMeets(b, y, p + 1, at);
    AgreeAt(b, y, at);
    if b[p] == OPEN_BRACE {
      if there < |y| && y[there] == CLOSE_BRACE {
        KeyAtOnce(c, b, q, depth, used + 1, []);
      } else {
        MembersName(c, b, y, q, there, depth, used + 1, []);
      }
    } else {
      ItemsName(c, b, y, q, there, depth, used + 1, []);
    }
  }

  /** Where a key fails at its first byte the path ends in the object. */
  lemma KeyAtOnce(c: Config, b: Bytes, pos: nat, depth: nat, used: nat, done: seq<Member>)
    requires pos <= |b| && MembersAt(c, b, pos, depth, used, done).Stopped?
    ensures MembersAt(c, b, pos, depth, used, done).at == pos ==>
              MembersAt(c, b, pos, depth, used, done).path == [InObject]
  {
    hide StringAt, HasKey, MemberValueAt;
  }

  lemma {:induction false} ItemsName(c: Config, b: Bytes, y: Bytes, pos: nat, there: nat, depth: nat, used: nat,
                                     done: seq<Json>)
    requires pos <= |b| && there <= |y| && ItemsAt(c, b, pos, depth, used, done).Stopped?
    requires var at := ItemsAt(c, b, pos, depth, used, done).at;
             Agree(b, y, at) && GoesOn(y, at) && Meets(y, pos, there, at)
    requires ItemsAt(c, y, there, depth, used, done).Parsed? && Distinct(ItemsAt(c, y, there, depth, used, done).tree)
    ensures var r := ItemsAt(c, b, pos, depth, used, done);
            var s := ItemsAt(c, y, there, depth, used, done);
            s.pos >= r.at && NamesSpan(c, y, s.tree, r.path, r.at)
    decreases |b| - pos, 3
  {
    hide ValueAt, Skip, NamesSpan, Spans;
    var r, s := ItemsAt(c, b, pos, depth, used, done), ItemsAt(c, y, there, depth, used, done);
    ItemsKeep(c, y, there, depth, used, done);
    var v, w := ValueAt(c, b, pos, depth + 1, used), ValueAt(c, y, there, depth + 1, used);
    assert Distinct(s.tree.items[|done|]);
    if v.Stopped? {
      ItemNames(c, b, y, pos, there, depth + 1, used);
      ItemPath(c, y, s.tree, |done|, v.path, r.at);
    } else {
      var next := Delimiter(b, v.pos, CLOSE_BRACKET);
      if next.Broken? {
        EntrySpans(c, b, y, pos, depth + 1, used, CLOSE_BRACKET, r.at);
        ElementItself(c, y, s.tree, |done|, r.at);
      } else {
        NextEntry(c, b, y, pos, depth + 1, used, CLOSE_BRACKET, r.at);
        var again := Delimiter(y, v.pos, CLOSE_BRACKET).pos;
        ItemsName(c, b, y, next.pos, again, depth, v.used, done + [v.tree]);
      }
    }
  }

  /** The element that fails: read on from where it starts, or from the error on. */
  lemma {:induction false} ItemNames(c: Config, b: Bytes, y: Bytes, pos: nat, there: nat, depth: nat, used: nat)
    requires pos <= |b| && there <= |y| && ValueAt(c, b, pos, depth, used).Stopped?
    requires var at := ValueAt(c, b, pos, depth, used).at;
             Agree(b, y, at) && GoesOn(y, at) && Meets(y, pos, there, at)
    requires ValueAt(c, y, there, depth, used).Parsed? && Distinct(ValueAt(c, y, there, depth, used).tree)
    ensures var r := ValueAt(c, b, pos, depth, used);
            var s := ValueAt(c, y, there, depth, used);
            s.pos >= r.at && NamesSpan(c, y, s.tree, r.path, r.at)
    decreases |b| - pos, 2
  {
    hide ValueAt, Skip, NamesSpan, Distinct;
    var at := ValueAt(c, b, pos, depth, used).at;
    if pos < at {
      ValueNames(c, b, y, pos, depth, used);
    } else {
      FailsAtOnce(c, b, pos, depth, used);
      ValueSkips(c, y, at, depth, used);
      RootSpans(c, y, at, depth, used, [], at);
    }
  }

  lemma ItemPath(c: Config, y: Bytes, j: Json, n: nat, path: seq<Step>, at: nat)
    requires j.Array? && n < |j.items| && NamesSpan(c, y, j.items[n], path, at)
    ensures NamesSpan(c, y, j, [AtIndex(n)] + path, at)
  {
    hide Spans, Render;
    assert ([AtIndex(n)] + path)[1..] == path;
    ResolveItem(j.items, n, Names(path));
  }

  lemma MemberPath(c: Config, y: Bytes, j: Json, n: nat, step: Step, path: seq<Step>, at: nat)
    requires j.Object? && n < |j.members| && KeysDistinct(j.members) && step.AtKey? && step.key == j.members[n].key
    requires NamesSpan(c, y, j.members[n].value, path, at)
    ensures NamesSpan(c, y, j, [step] + path, at)
  {
    hide Spans;
    assert ([step] + path)[1..] == path;
    ResolveMember(j.members, n, Names(path));
  }

  lemma ElementItself(c: Config, y: Bytes, j: Json, n: nat, at: nat)
    requires j.Array? && n < |j.items| && Spans(c, y, j.items[n], at)
    ensures NamesSpan(c, y, j, [AtIndex(n)], at)
  {
    hide Spans, Render;
    assert Names([]) == [];
    assert [AtIndex(n)] + [] == [AtIndex(n)];
    ItemPath(c, y, j, n, [], at);
  }

  lemma MemberItself(c: Config, y: Bytes, j: Json, n: nat, step: Step, at: nat)
    requires j.Object? && n < |j.members| && KeysDistinct(j.members) && step.AtKey? && step.key == j.members[n].key
    requires Spans(c, y, j.members[n].value, at)
    ensures NamesSpan(c, y, j, [step], at)
  {
    hide Spans;
    assert Names([]) == [];
    assert [step] + [] == [step];
    MemberPath(c, y, j, n, step, [], at);
  }

  /** A comma before the error. */
  lemma CommaMeets(b: Bytes, y: Bytes, pos: nat, closing: Byte, at: nat)
    requires pos <= |b| && pos <= |y| && Agree(b, y, at)
    requires Delimiter(b, pos, closing).Again? && Delimiter(b, pos, closing).pos <= at
    ensures Delimiter(y, pos, closing).Again?
    ensures Meets(y, Delimiter(b, pos, closing).pos, Delimiter(y, pos, closing).pos, at)
  {
    hide Skip, Meets;
    SkipAgain(b, y, pos, at);
    AgreeAt(b, y, at);
    SkipMeets(b, y, Skip(b, pos) + 1, at);
  }

  /** An entry and the comma after it, both before the error. */
  lemma NextEntry(c: Config, b: Bytes, y: Bytes, pos: nat, depth: nat, used: nat, closing: Byte, at: nat)
    requires pos <= |b| && pos <= |y| && ValueAt(c, b, pos, depth, used).Parsed? && Agree(b, y, at)
    requires var next := Delimiter(b, ValueAt(c, b, pos, depth, used).pos, closing); next.Again? && next.pos <= at
    ensures ValueAt(c, y, pos, depth, used) == ValueAt(c, b, pos, depth, used)
    ensures var v := ValueAt(c, b, pos, depth, used);
            && Delimiter(y, v.pos, closing).Again?
            && Meets(y, Delimiter(b, v.pos, closing).pos, Delimiter(y, v.pos, closing).pos, at)
  {
    hide ValueAt, Terminated, Meets, Delimiter;
    var v := ValueAt(c, b, pos, depth, used);
    AgreeLess(b, y, at, v.pos);
    AgreeLess(b, y, at, v.pos + 1);
    ValueAgain(c, b, y, pos, depth, used);
    CommaMeets(b, y, v.pos, closing, at);
  }

  lemma {:induction false} MembersName(c: Config, b: Bytes, y: Bytes, pos: nat, there: nat, depth: nat, used: nat,
                                       done: seq<Member>)
    requires pos <= |b| && there <= |y| && MembersAt(c, b, pos, depth, used, done).Stopped?
    requires var at := MembersAt(c, b, pos, depth, used, done).at;
             Agree(b, y, at) && GoesOn(y, at) && Meets(y, pos, there, at)
    requires MembersAt(c, y, there, depth, used, done).Parsed?
    requires Distinct(MembersAt(c, y, there, depth, used, done).tree)
    ensures var r := MembersAt(c, b, pos, depth, used, done);
            var s := MembersAt(c, y, there, depth, used, done);
            s.pos >= r.at && (r.path == [InObject] || NamesSpan(c, y, s.tree, r.path, r.at))
    decreases |b| - pos, 3
  {
    hide ValueAt, Skip, NamesSpan, Spans, StringAt, HasKey, MemberValueAt, MemberThere, MemberValue, MembersAt, Distinct;
    var r := MembersAt(c, b, pos, depth, used, done);
    MembersKeep(c, y, there, depth, used, done);
    KeyAtOnce(c, b, pos, depth, used, done);
    if pos < r.at {
      KeyNames(c, b, y, pos, depth, used, done);
    }
  }

  /** A key that starts before the error. */
  lemma {:induction false} KeyNames(c: Config, b: Bytes, y: Bytes, pos: nat, depth: nat, used: nat, done: seq<Member>)
    requires pos <= |b| && pos <= |y| && MembersAt(c, b, pos, depth, used, done).Stopped?
    requires var at := MembersAt(c, b, pos, depth, used, done).at; Agree(b, y, at) && GoesOn(y, at) && pos < at
    requires MembersAt(c, y, pos, depth, used, done).Parsed? && Distinct(MembersAt(c, y, pos, depth, used, done).tree)
    ensures var r := MembersAt(c, b, pos, depth, used, done);
            var s := MembersAt(c, y, pos, depth, used, done);
            s.pos >= r.at && (r.path == [InObject] || NamesSpan(c, y, s.tree, r.path, r.at))
    decreases |b| - pos, 2
  {
    hide ValueAt, Skip, NamesSpan, Spans, StringAt, HasKey, MemberValueAt, Distinct;
    var r, s := MembersAt(c, b, pos, depth, used, done), MembersAt(c, y, pos, depth, used, done);
    MembersKeep(c, y, pos, depth, used, done);
    var key := StringAt(c, b, pos, used);
    AgreeAt(b, y, r.at);
    if key.Refused? {
      LiteralLocatedIn(c, b, pos, used);
      LiteralReaches(c, b, y, pos, used, r.at);
    } else if !c.profile.LastWins? && HasKey(done, key.text) {
      assert false;
    } else {
      var colon := Skip(b, key.end + 1);
      LiteralAgain(c, b, y, pos, used, r.at);
      SkipMeets(b, y, key.end + 1, r.at);
      if colon < |b| && b[colon] == COLON {
        MemberNames(c, b, y, pos, depth, used, done);
      }
    }
  }

  /** A member whose key and colon come before the error. */
  lemma {:induction false} MemberNames(c: Config, b: Bytes, y: Bytes, pos: nat, depth: nat, used: nat, done: seq<Member>)
    requires pos <= |b| && pos <= |y| && MembersAt(c, b, pos, depth, used, done).Stopped?
    requires var at := MembersAt(c, b, pos, depth, used, done).at; Agree(b, y, at) && GoesOn(y, at)
    requires MembersAt(c, y, pos, depth, used, done).Parsed? && Distinct(MembersAt(c, y, pos, depth, used, done).tree)
    requires var key := StringAt(c, b, pos, used);
             && key.Read? && (!c.profile.LastWins? ==> !HasKey(done, key.text)) && StringAt(c, y, pos, used) == key
             && var colon := Skip(b, key.end + 1);
             && colon < |b| && b[colon] == COLON && Skip(y, key.end + 1) == colon
    ensures var r := MembersAt(c, b, pos, depth, used, done);
            var s := MembersAt(c, y, pos, depth, used, done);
            s.pos >= r.at && (r.path == [InObject] || NamesSpan(c, y, s.tree, r.path, r.at))
    decreases |b| - pos, 1
  {
    hide ValueAt, Skip, NamesSpan, Spans, StringAt, HasKey;
    var r, s := MembersAt(c, b, pos, depth, used, done), MembersAt(c, y, pos, depth, used, done);
    MembersKeep(c, y, pos, depth, used, done);
    var key := StringAt(c, b, pos, used);
    var from := Skip(b, key.end + 1) + 1;
    var step := AtKey(key.text, pos + 1, key.end);
    var v, w := ValueAt(c, b, from, depth + 1, used + 1), ValueAt(c, y, from, depth + 1, used + 1);
    assert KeysDistinct(s.tree.members) && Distinct(s.tree.members[|done|].value);
    hide Distinct, KeysDistinct, Meets, GoesOn;
    if v.Stopped? {
      ValueNames(c, b, y, from, depth + 1, used + 1);
      MemberPath(c, y, s.tree, |done|, step, v.path, r.at);
    } else {
      MemberFollows(c, b, y, pos, depth, used, done);
    }
  }

  /** The same when the member's value was read and the error comes after it. */
  lemma {:induction false} MemberFollows(c: Config, b: Bytes, y: Bytes, pos: nat, depth: nat, used: nat,
                                         done: seq<Member>)
    requires pos <= |b| && pos <= |y| && MembersAt(c, b, pos, depth, used, done).Stopped?
    requires var at := MembersAt(c, b, pos, depth, used, done).at; Agree(b, y, at) && GoesOn(y, at)
    requires MembersAt(c, y, pos, depth, used, done).Parsed? && Distinct(MembersAt(c, y, pos, depth, used, done).tree)
    requires var key := StringAt(c, b, pos, used);
             && key.Read? && (!c.profile.LastWins? ==> !HasKey(done, key.text)) && StringAt(c, y, pos, used) == key
             && var colon := Skip(b, key.end + 1);
             && colon < |b| && b[colon] == COLON && Skip(y, key.end + 1) == colon
    requires ValueAt(c, b, Skip(b, StringAt(c, b, pos, used).end + 1) + 1, depth + 1, used + 1).Parsed?
    ensures var r := MembersAt(c, b, pos, depth, used, done);
            var s := MembersAt(c, y, pos, depth, used, done);
            s.pos >= r.at && (r.path == [InObject] || NamesSpan(c, y, s.tree, r.path, r.at))
    decreases |b| - pos, 0
  {
    hide ValueAt, Skip, NamesSpan, Spans, StringAt, HasKey, Delimiter;
    var r, s := MembersAt(c, b, pos, depth, used, done), MembersAt(c, y, pos, depth, used, done);
    MembersKeep(c, y, pos, depth, used, done);
    var key := StringAt(c, b, pos, used);
    var from := Skip(b, key.end + 1) + 1;
    var step := AtKey(key.text, pos + 1, key.end);
    var v := ValueAt(c, b, from, depth + 1, used + 1);
    assert KeysDistinct(s.tree.members);
    hide Distinct, KeysDistinct, Meets, GoesOn;
    hide MembersAt, MembersGoOn;
    var next := Delimiter(b, v.pos, CLOSE_BRACE);
    if next.Broken? {
      EntrySpans(c, b, y, from, depth + 1, used + 1, CLOSE_BRACE, r.at);
      MemberItself(c, y, s.tree, |done|, step, r.at);
    } else {
      NextEntry(c, b, y, from, depth + 1, used + 1, CLOSE_BRACE, r.at);
      var again := Delimiter(y, v.pos, CLOSE_BRACE).pos;
      MembersName(c, b, y, next.pos, again, depth, v.used, done + [Member(key.text, v.tree)]);
    }
  }

  /**
    The pointer of an error names the value the error lies in: in every accepted text that repeats the bytes before
    the error and repeats no key, it resolves to the value that spans the error's offset.
   */
  lemma PointerNamesValue(c: Config, b: Bytes, y: Bytes)
    requires ReadText(c, b).Stopped? && Agree(b, y, ReadText(c, b).at) && GoesOn(y, ReadText(c, b).at)
    requires ReadText(c, y).Parsed? && Distinct(ReadText(c, y).tree)
    ensures NamesSpan(c, y, ReadText(c, y).tree, ReadText(c, b).path, ReadText(c, b).at)
  {
    hide ValueAt, Skip, NamesSpan;
    var v := ValueAt(c, b, 0, 0, 0);
    if v.Stopped? {
      ValueNames(c, b, y, 0, 0, 0);
    } else {
      RootSpans(c, y, 0, 0, 0, [], ReadText(c, b).at);
    }
  }
}
