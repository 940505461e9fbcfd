/** Facts the imperative parser needs about the pure reader and about the token table. */
module ParserLemmas {
  import opened Basics
  import opened LinkedTable
  import opened Keyset
  import opened TokenTable
  import opened LastWinsTree
  import opened Reader
  import opened Trees

  // ----- unfolding the pure reader

  /** What one member must have been for the loop to go on after it. */
  ghost predicate MemberRead(c: Config, b: Bytes, pos: nat, depth: nat, used: nat, done: seq<Member>, m: Member,
                             end: nat, used': nat)
    requires pos <= |b|
  {
    && var key := StringAt(c, b, pos, used);
    && key.Read? && key.text == m.key
    && (!c.profile.LastWins? ==> !HasKey(done, key.text))
    && var colon := Skip(b, key.end + 1);
    && colon < |b| && b[colon] == COLON
    && ValueAt(c, b, colon + 1, depth + 1, used + 1) == Parsed(m.value, end, used')
  }

  /** The key at `pos` may be entered, and its value starts at `from`. */
  ghost predicate KeyRead(c: Config, b: Bytes, pos: nat, used: nat, done: seq<Member>, key: Bytes, from: nat) {
    var r := StringAt(c, b, pos, used);
    && r.Read? && r.text == key
    && (!c.profile.LastWins? ==> !HasKey(done, key))
    && var colon := Skip(b, r.end + 1);
    && colon < |b| && b[colon] == COLON && from == colon + 1
  }

  lemma KeyThenValue(c: Config, b: Bytes, pos: nat, depth: nat, used: nat, done: seq<Member>, m: Member, from: nat,
                     end: nat, used': nat)
    requires pos <= |b| && from <= |b| && KeyRead(c, b, pos, used, done, m.key, from)
    requires ValueAt(c, b, from, depth + 1, used + 1) == Parsed(m.value, end, used')
    ensures MemberRead(c, b, pos, depth, used, done, m, end, used')
  {
    hide StringAt, ValueAt, HasKey, Skip;
  }

  lemma KeyThenError(c: Config, b: Bytes, pos: nat, depth: nat, used: nat, done: seq<Member>, key: Bytes, from: nat,
                     code: Code, at: nat)
    requires pos <= |b| && from <= |b| && KeyRead(c, b, pos, used, done, key, from)
    requires StopsWith(ValueAt(c, b, from, depth + 1, used + 1), code, at)
    ensures StopsWith(MembersAt(c, b, pos, depth, used, done), code, at)
  {
    hide StringAt, ValueAt, HasKey, Skip;
    MembersValueFails(c, b, pos, depth, used, done);
  }

  lemma MembersTurn(c: Config, b: Bytes, pos: nat, depth: nat, used: nat, done: seq<Member>, m: Member,
                    end: nat, used': nat)
    requires pos <= |b| && MemberRead(c, b, pos, depth, used, done, m, end, used')
    ensures pos < end <= |b|
    ensures Delimiter(b, end, CLOSE_BRACE).Close? ==>
              MembersAt(c, b, pos, depth, used, done) ==
              Parsed(Object(done + [m]), Delimiter(b, end, CLOSE_BRACE).pos, used')
    ensures Delimiter(b, end, CLOSE_BRACE).Again? ==>
              MembersAt(c, b, pos, depth, used, done) ==
              MembersAt(c, b, Delimiter(b, end, CLOSE_BRACE).pos, depth, used', done + [m])
    ensures Delimiter(b, end, CLOSE_BRACE).Broken? ==>
              StopsWith(MembersAt(c, b, pos, depth, used, done), Code.Syntax, Delimiter(b, end, CLOSE_BRACE).at)
  {
    hide StringAt, ValueAt, HasKey, Delimiter;
  }

  /** The reader stops with this code at this offset, whatever the path. */
  predicate StopsWith(r: Parse, code: Code, at: nat) {
    r.Stopped? && r.code == code && r.at == at
  }

  lemma MembersKeyFails(c: Config, b: Bytes, pos: nat, depth: nat, used: nat, done: seq<Member>)
    requires pos <= |b|
    ensures var key := StringAt(c, b, pos, used);
            && (key.Refused? ==> StopsWith(MembersAt(c, b, pos, depth, used, done), key.code, key.at))
            && (key.Read? && !c.profile.LastWins? && HasKey(done, key.text) ==>
                  StopsWith(MembersAt(c, b, pos, depth, used, done), Code.DuplicateKey, pos))
  {
    hide StringAt, HasKey;
  }

  lemma MembersValueFails(c: Config, b: Bytes, pos: nat, depth: nat, used: nat, done: seq<Member>)
    requires pos <= |b| && StringAt(c, b, pos, used).Read?
    requires !c.profile.LastWins? ==> !HasKey(done, StringAt(c, b, pos, used).text)
    ensures var key := StringAt(c, b, pos, used);
            var colon := Skip(b, key.end + 1);
            if colon >= |b| || b[colon] != COLON then
              StopsWith(MembersAt(c, b, pos, depth, used, done), Code.Syntax, colon)
            else
              var r := ValueAt(c, b, colon + 1, depth + 1, used + 1);
              r.Stopped? ==> StopsWith(MembersAt(c, b, pos, depth, used, done), r.code, r.at)
  {
    hide StringAt, ValueAt, HasKey;
  }

  lemma ItemsFail(c: Config, b: Bytes, pos: nat, depth: nat, used: nat, done: seq<Json>, code: Code, at: nat)
    requires pos <= |b| && StopsWith(ValueAt(c, b, pos, depth + 1, used), code, at)
    ensures StopsWith(ItemsAt(c, b, pos, depth, used, done), code, at)
  {
    hide ValueAt, Delimiter;
  }

  lemma ItemsTurn(c: Config, b: Bytes, pos: nat, depth: nat, used: nat, done: seq<Json>, v: Json, end: nat, used': nat)
    requires pos <= |b| && ValueAt(c, b, pos, depth + 1, used) == Parsed(v, end, used')
    ensures pos < end <= |b|
    ensures var turn := ItemsAt(c, b, pos, depth, used, done);
            var next := Delimiter(b, end, CLOSE_BRACKET);
            && (next.Broken? ==> StopsWith(turn, Code.Syntax, next.at))
            && (next.Close? ==> turn == Parsed(Array(done + [v]), next.pos, used'))
            && (next.Again? ==> turn == ItemsAt(c, b, next.pos, depth, used', done + [v]))
  {
    hide ValueAt, Delimiter;
  }

  /** The container cases of the reader at an opening delimiter. */
  lemma ContainerStart(c: Config, b: Bytes, p: nat, depth: nat, used: nat)
    requires p < |b| && (b[p] == OPEN_BRACE || b[p] == OPEN_BRACKET)
    ensures var r := ValueAt(c, b, p, depth, used);
            var q := Skip(b, p + 1);
            if depth >= c.depth || used >= c.capacity then r == Stopped(Code.Limit, p, [])
            else if b[p] == OPEN_BRACE then
              r == if q < |b| && b[q] == CLOSE_BRACE then Parsed(Object([]), q + 1, used + 1)
                   else MembersAt(c, b, q, depth, used + 1, [])
            else
              r == if q < |b| && b[q] == CLOSE_BRACKET then Parsed(Array([]), q + 1, used + 1)
                   else ItemsAt(c, b, q, depth, used + 1, [])
  {
    hide MembersAt, ItemsAt;
    SkipStays(b, p);
  }

  lemma ScalarStart(c: Config, b: Bytes, p: nat, depth: nat, used: nat)
    requires p <= |b| && Skip(b, p) == p
    ensures var r := ValueAt(c, b, p, depth, used);
            if p >= |b| then r == Stopped(Code.Syntax, p, [])
            else if b[p] == QUOTE then
              match StringAt(c, b, p, used)
              case Refused(code, at) => r == Stopped(code, at, [])
              case Read(text, end) => r == Parsed(Text(text), end + 1, used + 1)
            else b[p] != OPEN_BRACE && b[p] != OPEN_BRACKET ==> r == PrimitiveAt(c, b, p, used)
  {
    hide StringAt, PrimitiveAt;
  }

  lemma PrimitiveStart(c: Config, b: Bytes, p: nat, depth: nat, used: nat)
    requires p < |b| && !IsSpace(b[p]) && b[p] !in {QUOTE, OPEN_BRACE, OPEN_BRACKET}
    ensures var end := RunEnd(b, p);
            && p <= end <= |b|
            && ValueAt(c, b, p, depth, used) ==
               match Primitive(b[p..end])
               case None => Stopped(Code.Syntax, p, [])
               case Some(value) =>
                 if used >= c.capacity then Stopped(Code.Limit, p, []) else Parsed(value, end, used + 1)
  {
    SkipStays(b, p);
    hide Primitive;
    ScalarStart(c, b, p, depth, used);
  }

  lemma SkipStays(b: Bytes, p: nat)
    requires p < |b| && !IsSpace(b[p])
    ensures Skip(b, p) == p
  {
  }

  // ----- tables under construction

  lemma {:induction false} AddAllPrefix(t: Table<Info>, p: nat, a: seq<Rose<Info>>, b: seq<Rose<Info>>, n: nat)
    requires n <= |a| && n <= |b| && a[..n] == b[..n]
    ensures AddAll(t, p, a, n) == AddAll(t, p, b, n)
  {
    hide Add;
    if n > 0 {
      assert a[..n - 1] == a[..n][..n - 1] && b[..n - 1] == b[..n][..n - 1];
      assert a[n - 1] == a[..n][n - 1] && b[n - 1] == b[..n][n - 1];
      AddAllPrefix(t, p, a, b, n - 1);
    }
  }

  lemma AddAllSnoc(t: Table<Info>, p: nat, rs: seq<Rose<Info>>, r: Rose<Info>)
    ensures AddAll(t, p, rs + [r], |rs| + 1) == Add(AddAll(t, p, rs, |rs|), p, r)
  {
    hide Add;
    assert (rs + [r])[..|rs|] == rs[..|rs|];
    AddAllPrefix(t, p, rs + [r], rs, |rs|);
  }

  /** The table while an object is open, after its members so far. */
  function OpenObject(head: Table<Info>, at: nat, done: seq<Member>): Table<Info> {
    AddAll(head, at, MemberRoses(done), 2 * |done|)
  }

  function OpenArray(head: Table<Info>, at: nat, done: seq<Json>): Table<Info> {
    AddAll(head, at, ItemRoses(done), |done|)
  }

  function Head(t: Table<Info>, parent: nat, info: Info): Table<Info> {
    Attach(t, parent) + [Cell(LinksInit(parent), info)]
  }

  lemma ObjectStarts(t: Table<Info>, parent: nat)
    ensures OpenObject(Head(t, parent, OBJECT_INFO), |t|, []) == Head(t, parent, OBJECT_INFO)
  {
  }

  lemma ArrayStarts(t: Table<Info>, parent: nat)
    ensures OpenArray(Head(t, parent, ARRAY_INFO), |t|, []) == Head(t, parent, ARRAY_INFO)
  {
  }

  lemma ObjectGrows(head: Table<Info>, at: nat, done: seq<Member>, m: Member)
    ensures OpenObject(head, at, done + [m]) ==
            Add(Add(OpenObject(head, at, done), at, KeyRose(m.key)), at, RoseOf(m.value))
  {
    hide Add, AddAll, RoseOf, KeyRose, MemberRoses;
    var rs := MemberRoses(done);
    MemberRosesSnoc(done, m);
    AddAllSnoc(head, at, rs, KeyRose(m.key));
    AddAllSnoc(head, at, rs + [KeyRose(m.key)], RoseOf(m.value));
  }

  lemma ArrayGrows(head: Table<Info>, at: nat, done: seq<Json>, v: Json)
    ensures OpenArray(head, at, done + [v]) == Add(OpenArray(head, at, done), at, RoseOf(v))
  {
    hide Add, AddAll, RoseOf;
    ItemRosesSnoc(done, v);
    AddAllSnoc(head, at, ItemRoses(done), RoseOf(v));
  }

  lemma ObjectCloses(t: Table<Info>, parent: nat, done: seq<Member>)
    ensures OpenObject(Head(t, parent, OBJECT_INFO), |t|, done) == Add(t, parent, RoseOf(Object(done)))
  {
    hide RoseOf, AddAll;
    ObjectRose(done);
  }

  lemma ArrayCloses(t: Table<Info>, parent: nat, done: seq<Json>)
    ensures OpenArray(Head(t, parent, ARRAY_INFO), |t|, done) == Add(t, parent, RoseOf(Array(done)))
  {
    hide RoseOf, AddAll;
    ArrayRose(done);
  }

  // ----- the keys below an open object

  /** The key set knows exactly the keys read so far in the object at `object`. */
  ghost predicate KeysKnown(model: map<Key, nat>, at: nat, done: seq<Member>) {
    forall text :: Key(at, text) in model <==> HasKey(done, text)
  }

  lemma OpenObjectShape(t: Table<Info>, parent: nat, done: seq<Member>)
    requires |t| + 1 + SizeUpTo(MemberRoses(done), 2 * |done|) < VALUE_NONE
    ensures var u := OpenObject(Head(t, parent, OBJECT_INFO), |t|, done);
            Open(u, |t|, parent, OBJECT_INFO, MemberRoses(done)) &&
            |u| == |t| + 1 + SizeUpTo(MemberRoses(done), 2 * |done|)
  {
    hide Add, Open, MemberRoses;
    OpenLeaf(Attach(t, parent), parent, OBJECT_INFO);
    var rs := MemberRoses(done);
    AddAllShape(Head(t, parent, OBJECT_INFO), |t|, parent, OBJECT_INFO, rs, |rs|);
    assert rs[..|rs|] == rs;
  }

  lemma OpenObjectLength(t: Table<Info>, parent: nat, done: seq<Member>)
    ensures |OpenObject(Head(t, parent, OBJECT_INFO), |t|, done)| == |t| + 1 + SizeUpTo(MemberRoses(done), 2 * |done|)
  {
    hide AddAll, SizeUpTo;
    AddAllLength(Head(t, parent, OBJECT_INFO), |t|, MemberRoses(done), 2 * |done|);
  }

  /** Key tokens directly below the object are the keys of its members. */
  lemma KeyTokenIsMember(t: Table<Info>, i: nat, p: nat, done: seq<Member>, j: nat)
    requires Open(t, i, p, OBJECT_INFO, MemberRoses(done)) && i < j < |t|
    requires t[j].links.parent == i && t[j].data.objectKey && t[j].data.text.Some?
    ensures HasKey(done, t[j].data.text.value)
  {
    hide Size, InTable, RoseOf, MemberRoses;
    var r := Rose(OBJECT_INFO, MemberRoses(done));
    OpenBounds(t, i, p, OBJECT_INFO, MemberRoses(done));
    var k := ParentIsExact(t, i, p, r, j);
    KidData(t, i, p, r, k);
    KidOfMember(done, k);
  }

  lemma OpenBounds(t: Table<Info>, i: nat, p: nat, data: Info, kids: seq<Rose<Info>>)
    requires Open(t, i, p, data, kids)
    ensures InTable(t, i, p, Rose(data, kids)) && i + Size(Rose(data, kids)) == |t|
  {
  }

  lemma KidData(t: Table<Info>, i: nat, p: nat, r: Rose<Info>, k: nat)
    requires InTable(t, i, p, r) && k < |r.kids|
    ensures var at := KidAt(i, r.kids, k); i < at < |t| && t[at].data == r.kids[k].data && t[at].links.parent == i
  {
    hide Size, InTable;
    InTableKid(t, i, p, r, k);
    RootParent(t, KidAt(i, r.kids, k), i, r.kids[k]);
    KidBounds(i, r, k);
  }

  lemma KidOfMember(ms: seq<Member>, k: nat)
    requires k < 2 * |ms|
    ensures k % 2 == 0 ==> MemberRoses(ms)[k] == KeyRose(ms[k / 2].key)
    ensures k % 2 == 1 ==> MemberRoses(ms)[k] == RoseOf(ms[k / 2].value) && !MemberRoses(ms)[k].data.objectKey
    ensures MemberRoses(ms)[k].data.objectKey && MemberRoses(ms)[k].data.text.Some? ==>
              HasKey(ms, MemberRoses(ms)[k].data.text.value)
  {
  }

  lemma MemberHasToken(t: Table<Info>, i: nat, p: nat, done: seq<Member>, m: nat)
    requires Open(t, i, p, OBJECT_INFO, MemberRoses(done)) && m < |done|
    ensures exists j :: i < j < |t| && t[j].links.parent == i && t[j].data == TextInfo(done[m].key, true)
  {
    hide Size, InTable, RoseOf, MemberRoses;
    var r := Rose(OBJECT_INFO, MemberRoses(done));
    OpenBounds(t, i, p, OBJECT_INFO, MemberRoses(done));
    KidData(t, i, p, r, 2 * m);
    MemberRoseAt(done, m);
  }

  lemma KeysOfObject(tokens: seq<Token>, model: map<Key, nat>, at: nat, p: nat, done: seq<Member>)
    requires Indexed(tokens, model) && Ordered(tokens)
    requires Open(Cells(tokens), at, p, OBJECT_INFO, MemberRoses(done)) && at < VALUE_NONE
    requires forall i :: 0 <= i < |tokens| && tokens[i].cell.data.objectKey ==> tokens[i].cell.data.text.Some?
    ensures KeysKnown(model, at, done)
  {
    hide Open, MemberRoses;
    forall text ensures Key(at, text) in model <==> HasKey(done, text) {
      var key := Key(at, text);
      if key in model {
        var j := model[key];
        KeyTokenIsMember(Cells(tokens), at, p, done, j);
      }
      if HasKey(done, text) {
        var m :| 0 <= m < |done| && done[m].key == text;
        MemberHasToken(Cells(tokens), at, p, done, m);
        var j :| at < j < |Cells(tokens)| && Cells(tokens)[j].links.parent == at &&
          Cells(tokens)[j].data == TextInfo(text, true);
        assert TokenKey(tokens[j]) == key;
      }
    }
  }

  // ----- duplicates of an object under construction

  lemma {:induction false} MemberDuplicatesSnoc(ms: seq<Member>, m: Member, k: nat)
    requires k <= |ms|
    ensures MemberDuplicates(ms + [m], k) == MemberDuplicates(ms, k) + Duplicates(m.value)
    decreases |ms| - k
  {
    hide Duplicates;
    if k < |ms| {
      MemberDuplicatesSnoc(ms, m, k + 1);
    } else {
      assert MemberDuplicates(ms + [m], k + 1) == 0;
    }
  }

  lemma ObjectDuplicatesSnoc(ms: seq<Member>, m: Member)
    ensures Duplicates(Object(ms + [m])) ==
            Duplicates(Object(ms)) + (if HasKey(ms, m.key) then 1 else 0) + Duplicates(m.value)
  {
    hide HasKey, Repeats, MemberDuplicates;
    RepeatsSnoc(ms, m);
    MemberDuplicatesSnoc(ms, m, 0);
  }

  lemma {:induction false} ItemDuplicatesSnoc(items: seq<Json>, v: Json, k: nat)
    requires k <= |items|
    ensures ItemDuplicates(items + [v], k) == ItemDuplicates(items, k) + Duplicates(v)
    decreases |items| - k
  {
    hide Duplicates;
    if k < |items| {
      ItemDuplicatesSnoc(items, v, k + 1);
    } else {
      assert ItemDuplicates(items + [v], k + 1) == 0;
    }
  }

  lemma ArrayDuplicatesSnoc(items: seq<Json>, v: Json)
    ensures Duplicates(Array(items + [v])) == Duplicates(Array(items)) + Duplicates(v)
  {
    hide ItemDuplicates;
    ItemDuplicatesSnoc(items, v, 0);
  }

  lemma EmptyDuplicates()
    ensures Duplicates(Object([])) == Duplicates(Array([])) == 0
  {
    EmptyKeys();
    assert MemberDuplicates([], 0) == ItemDuplicates([], 0) == 0;
  }
}
