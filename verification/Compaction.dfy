/** Rebuilding the table of a last-wins document without its superseded members. */
module Compaction {
  import opened Basics
  import opened Trees
  import opened LinkedTable
  import opened Keyset
  import opened TokenTable
  import opened LastWinsTree
  import opened Parser
  import opened ParserLemmas

  // ----- trees of flagged tokens

  /** What the walk looks at: the token's content and its superseded flag. */
  datatype Tag = Tag(info: Info, superseded: bool)

  function Tags(tokens: seq<Token>): (t: Table<Tag>)
    ensures |t| == |tokens|
  {
    seq(|tokens|, i requires 0 <= i < |tokens| =>
      Cell(tokens[i].cell.links, Tag(tokens[i].cell.data, tokens[i].superseded)))
  }

  /** The token tree of a source value, every key flagged when a later member repeats it. */
  function TagsOf(j: Json): Rose<Tag> {
    match j
    case Array(items) => Rose(Tag(ARRAY_INFO, false), seq(|items|, k requires 0 <= k < |items| => TagsOf(items[k])))
    case Object(ms) =>
      Rose(Tag(OBJECT_INFO, false), seq(2 * |ms|, k requires 0 <= k < 2 * |ms| =>
        if k % 2 == 0 then KeyTag(ms, k / 2) else TagsOf(ms[k / 2].value)))
    case _ => Rose(Tag(RoseOf(j).data, false), [])
  }

  function KeyTag(ms: seq<Member>, k: nat): Rose<Tag>
    requires k < |ms|
  {
    Rose(Tag(TextInfo(ms[k].key, true), Superseded(ms, k)), [])
  }

  predicate Dropped(r: Rose<Tag>) {
    r.data.info.objectKey && r.data.superseded
  }

  /** The tree without superseded keys and the values that follow them. */
  function Survivor(r: Rose<Tag>): Rose<Info>
    decreases r, 0
  {
    Rose(r.data.info, SurvivorsFrom(r.kids, 0))
  }

  function SurvivorsFrom(kids: seq<Rose<Tag>>, k: nat): (s: seq<Rose<Info>>)
    decreases kids, |kids| - k
  {
    if k >= |kids| then []
    else if Dropped(kids[k]) then SurvivorsFrom(kids, k + 2)
    else [Survivor(kids[k])] + SurvivorsFrom(kids, k + 1)
  }

  /** Every dropped key has a value after it. */
  predicate Paired(r: Rose<Tag>) {
    && (forall k :: 0 <= k < |r.kids| && Dropped(r.kids[k]) ==> k + 1 < |r.kids|)
    && (forall k :: 0 <= k < |r.kids| ==> Paired(r.kids[k]))
  }

  function TagItems(items: seq<Json>): (r: seq<Rose<Tag>>)
    ensures |r| == |items| && forall k :: 0 <= k < |items| ==> r[k] == TagsOf(items[k])
  {
    seq(|items|, k requires 0 <= k < |items| => TagsOf(items[k]))
  }

  function TagMembers(ms: seq<Member>): (r: seq<Rose<Tag>>)
    ensures |r| == 2 * |ms|
  {
    seq(2 * |ms|, k requires 0 <= k < 2 * |ms| =>
      if k % 2 == 0 then KeyTag(ms, k / 2) else TagsOf(ms[k / 2].value))
  }

  lemma TagKids(j: Json)
    ensures j.Array? ==> TagsOf(j) == Rose(Tag(ARRAY_INFO, false), TagItems(j.items))
    ensures j.Object? ==> TagsOf(j) == Rose(Tag(OBJECT_INFO, false), TagMembers(j.members))
    ensures !j.Array? && !j.Object? ==> TagsOf(j) == Rose(Tag(RoseOf(j).data, false), []) && RoseOf(j).kids == []
    ensures !Dropped(TagsOf(j)) && TagsOf(j).data == Tag(RoseOf(j).data, false)
  {
    if j.Array? {
      assert TagsOf(j).kids == TagItems(j.items);
    }
    if j.Object? {
      assert TagsOf(j).kids == TagMembers(j.members);
    }
  }

  lemma TagMemberAt(ms: seq<Member>, k: nat)
    requires k < |ms|
    ensures TagMembers(ms)[2 * k] == KeyTag(ms, k) && TagMembers(ms)[2 * k + 1] == TagsOf(ms[k].value)
  {
  }

  lemma {:induction false} TagsPaired(j: Json)
    ensures Paired(TagsOf(j))
    decreases j
  {
    TagKids(j);
    match j {
      case Array(items) =>
        forall k | 0 <= k < |items| ensures Paired(TagItems(items)[k]) && !Dropped(TagItems(items)[k]) {
          TagsPaired(items[k]);
          TagKids(items[k]);
        }
      case Object(ms) =>
        forall k | 0 <= k < 2 * |ms|
          ensures Paired(TagMembers(ms)[k]) && (Dropped(TagMembers(ms)[k]) ==> k + 1 < 2 * |ms|)
        {
          TagMemberAt(ms, k / 2);
          if k % 2 == 1 {
            TagsPaired(ms[k / 2].value);
          }
        }
      case _ =>
    }
  }

  // ----- the survivors are the pruned tree

  lemma {:induction false} SurvivorIsPruned(j: Json)
    ensures Survivor(TagsOf(j)) == RoseOf(Prune(j))
    decreases j, 1
  {
    hide PruneFrom, RoseOf, SurvivorsFrom;
    TagKids(j);
    match j {
      case Array(items) =>
        SurvivingItems(items, 0);
        PrunedItems(items);
      case Object(ms) =>
        SurvivingMembers(ms, 0);
        ObjectRose(PruneFrom(ms, 0));
      case _ => NoSurvivors();
    }
  }

  lemma NoSurvivors()
    ensures SurvivorsFrom([], 0) == []
  {
  }

  lemma PrunedItems(items: seq<Json>)
    ensures Prune(Array(items)).Array? && |Prune(Array(items)).items| == |items|
    ensures forall k :: 0 <= k < |items| ==> Prune(Array(items)).items[k] == Prune(items[k])
    ensures RoseOf(Prune(Array(items))) == Rose(ARRAY_INFO, ItemRoses(Prune(Array(items)).items))
  {
    hide RoseOf;
    ArrayRose(Prune(Array(items)).items);
  }

  lemma {:induction false} SurvivingItems(items: seq<Json>, k: nat)
    requires k <= |items|
    ensures SurvivorsFrom(TagItems(items), k) == ItemRoses(Prune(Array(items)).items)[k..]
    decreases items, |items| - k
  {
    hide RoseOf, TagsOf, Prune;
    PrunedItems(items);
    if k < |items| {
      SurvivingItems(items, k + 1);
      TagKids(items[k]);
      SurvivorIsPruned(items[k]);
    }
  }

  lemma {:induction false} SurvivingMembers(ms: seq<Member>, k: nat)
    requires k <= |ms|
    ensures SurvivorsFrom(TagMembers(ms), 2 * k) == MemberRoses(PruneFrom(ms, k))
    decreases ms, |ms| - k
  {
    hide RoseOf, TagsOf, Prune, MemberRoses, TagMembers, Superseded, Survivor;
    if k < |ms| {
      SurvivingMembers(ms, k + 1);
      TagMemberAt(ms, k);
      TagKids(ms[k].value);
      SurvivorIsPruned(ms[k].value);
      TwoSurvive(TagMembers(ms), 2 * k);
      if !Superseded(ms, k) {
        KeySurvives(ms, k);
        MemberRosesCons(Member(ms[k].key, Prune(ms[k].value)), PruneFrom(ms, k + 1));
      }
    } else {
      assert MemberRoses([]) == [] by {
        NoMemberRoses();
      }
    }
  }

  lemma NoMemberRoses()
    ensures MemberRoses([]) == []
  {
  }

  lemma TwoSurvive(kids: seq<Rose<Tag>>, k: nat)
    requires k + 2 <= |kids| && !Dropped(kids[k + 1])
    ensures SurvivorsFrom(kids, k) ==
            (if Dropped(kids[k]) then [] else [Survivor(kids[k])] + [Survivor(kids[k + 1])]) + SurvivorsFrom(kids, k + 2)
  {
    hide Survivor, Dropped;
    assert SurvivorsFrom(kids, k + 1) == [Survivor(kids[k + 1])] + SurvivorsFrom(kids, k + 2);
  }

  lemma KeySurvives(ms: seq<Member>, k: nat)
    requires k < |ms| && !Superseded(ms, k)
    ensures Survivor(KeyTag(ms, k)) == KeyRose(ms[k].key)
  {
    assert SurvivorsFrom([], 0) == [];
  }

  lemma MemberRosesCons(m: Member, rest: seq<Member>)
    ensures MemberRoses([m] + rest) == [KeyRose(m.key)] + [RoseOf(m.value)] + MemberRoses(rest)
  {
    hide RoseOf, KeyRose;
    var all := [m] + rest;
    var r := [KeyRose(m.key)] + [RoseOf(m.value)] + MemberRoses(rest);
    forall k | 0 <= k < 2 * |all| ensures MemberRoses(all)[k] == r[k] {
      if k >= 2 {
        assert k / 2 == (k - 2) / 2 + 1 && all[k / 2] == rest[(k - 2) / 2];
      }
    }
  }

  // ----- a parsed table carries these flags

  lemma {:induction false} SizeUpToSame<A, B>(a: seq<Rose<A>>, b: seq<Rose<B>>, n: nat)
    requires |a| == |b| && n <= |a| && forall k :: 0 <= k < n ==> Size(a[k]) == Size(b[k])
    ensures SizeUpTo(a, n) == SizeUpTo(b, n)
  {
    hide Size;
    if n > 0 {
      SizeUpToSame(a, b, n - 1);
    }
  }

  lemma {:induction false} TagSize(j: Json)
    ensures Size(TagsOf(j)) == Size(RoseOf(j))
    decreases j
  {
    hide SizeUpTo, TagsOf, RoseOf;
    TagKids(j);
    match j {
      case Array(items) =>
        ArrayRose(items);
        forall k | 0 <= k < |items| ensures Size(TagItems(items)[k]) == Size(ItemRoses(items)[k]) {
          TagSize(items[k]);
        }
        SizeUpToSame(TagItems(items), ItemRoses(items), |items|);
      case Object(ms) =>
        ObjectRose(ms);
        forall k | 0 <= k < 2 * |ms| ensures Size(TagMembers(ms)[k]) == Size(MemberRoses(ms)[k]) {
          MemberPair(ms, k);
          if k % 2 == 1 {
            TagSize(ms[k / 2].value);
          }
        }
        SizeUpToSame(TagMembers(ms), MemberRoses(ms), 2 * |ms|);
      case _ => LeafSizes(j);
    }
  }

  lemma LeafSizes(j: Json)
    requires !j.Array? && !j.Object?
    ensures Size(TagsOf(j)) == Size(RoseOf(j)) == 1
  {
    assert SizeUpTo<Tag>([], 0) == SizeUpTo<Info>([], 0) == 0;
  }

  /** A key is a leaf either way; values correspond. */
  lemma MemberPair(ms: seq<Member>, k: nat)
    requires k < 2 * |ms|
    ensures k % 2 == 0 ==>
              && TagMembers(ms)[k] == KeyTag(ms, k / 2) && MemberRoses(ms)[k] == KeyRose(ms[k / 2].key)
              && Size(TagMembers(ms)[k]) == Size(MemberRoses(ms)[k]) == 1
    ensures k % 2 == 1 ==>
              TagMembers(ms)[k] == TagsOf(ms[k / 2].value) && MemberRoses(ms)[k] == RoseOf(ms[k / 2].value)
  {
    assert SizeUpTo<Tag>([], 0) == SizeUpTo<Info>([], 0) == 0;
  }

  /** Every cell whose parent lies in the range lies in the range itself. */
  ghost predicate Closed<T>(t: Table<T>, i: nat, n: nat) {
    forall j :: 0 <= j < |t| && i <= t[j].links.parent < i + n ==> i < j < i + n
  }

  lemma KidClosed<T>(t: Table<T>, i: nat, p: nat, r: Rose<T>, k: nat)
    requires InTable(t, i, p, r) && Closed(t, i, Size(r)) && k < |r.kids|
    ensures Closed(t, KidAt(i, r.kids, k), Size(r.kids[k]))
  {
    hide Size, InTable;
    var at := KidAt(i, r.kids, k);
    KidBounds(i, r, k);
    forall j | 0 <= j < |t| && at <= t[j].links.parent < at + Size(r.kids[k]) ensures at < j < at + Size(r.kids[k]) {
      var other := Covering(i, r, j);
      var there := KidAt(i, r.kids, other);
      InTableKid(t, i, p, r, other);
      RootParent(t, there, i, r.kids[other]);
      if there < j {
        InnerParents(t, there, i, r.kids[other], j);
      }
      KidsApart(i, r, k, other);
    }
  }

  lemma KidsApart<T>(i: nat, r: Rose<T>, k: nat, l: nat)
    requires k < |r.kids| && l < |r.kids|
    ensures k < l ==> KidAt(i, r.kids, k) + Size(r.kids[k]) <= KidAt(i, r.kids, l)
    ensures l < k ==> KidAt(i, r.kids, l) + Size(r.kids[l]) <= KidAt(i, r.kids, k)
    ensures i < KidAt(i, r.kids, k)
  {
    KidBounds(i, r, k);
    KidBounds(i, r, l);
    if k < l {
      SizeGrows(r.kids, k + 1, l);
    }
    if l < k {
      SizeGrows(r.kids, l + 1, k);
    }
  }

  /** The flag of a key token says whether a later member repeats the key. */
  lemma KeyFlag(tokens: seq<Token>, model: map<Key, nat>, i: nat, p: nat, ms: seq<Member>, k: nat)
    requires Indexed(tokens, model) && Linked(tokens) && i < VALUE_NONE
    requires InTable(Cells(tokens), i, p, RoseOf(Object(ms)))
    requires Closed(Cells(tokens), i, Size(RoseOf(Object(ms)))) && k < |ms|
    ensures var at := KidAt(i, MemberRoses(ms), 2 * k);
            at < |tokens| && (tokens[at].superseded <==> Superseded(ms, k))
  {
    hide InTable, Size, RoseOf, MemberRoses, Closed;
    var r := RoseOf(Object(ms));
    var t := Cells(tokens);
    ObjectRose(ms);
    var at := KidAt(i, MemberRoses(ms), 2 * k);
    KidData(t, i, p, r, 2 * k);
    MemberRoseAt(ms, k);
    var key := TokenKey(tokens[at]);
    if Superseded(ms, k) {
      var l :| k < l < |ms| && ms[l].key == ms[k].key;
      KidData(t, i, p, r, 2 * l);
      MemberRoseAt(ms, l);
      KidsApart(i, r, 2 * k, 2 * l);
      assert TokenKey(tokens[KidAt(i, MemberRoses(ms), 2 * l)]) == key;
    }
    if tokens[at].superseded {
      LaterHolder(tokens, model, i, p, ms, k, model[key]);
    }
  }

  lemma LaterHolder(tokens: seq<Token>, model: map<Key, nat>, i: nat, p: nat, ms: seq<Member>, k: nat, last: nat)
    requires Indexed(tokens, model) && Linked(tokens) && i < VALUE_NONE
    requires InTable(Cells(tokens), i, p, RoseOf(Object(ms)))
    requires Closed(Cells(tokens), i, Size(RoseOf(Object(ms)))) && k < |ms|
    requires var at := KidAt(i, MemberRoses(ms), 2 * k);
             at < last < |tokens| && tokens[last].cell.data.objectKey && TokenKey(tokens[last]) == Key(i, ms[k].key)
    ensures Superseded(ms, k)
  {
    hide InTable, RoseOf, MemberRoses, Size;
    var r := RoseOf(Object(ms));
    var t := Cells(tokens);
    ObjectRose(ms);
    assert t[last].links.parent == i;
    RootSize(r);
    var l := ParentIsExact(t, i, p, r, last);
    KidData(t, i, p, r, l);
    KidOfMember(ms, l);
    if l <= 2 * k {
      KidsInOrder(i, r, l, 2 * k);
    } else {
      MemberRoseAt(ms, l / 2);
      assert ms[l / 2].key == ms[k].key;
    }
  }

  lemma RootSize<T>(r: Rose<T>)
    ensures Size(r) >= 1
  {
  }

  lemma KidsInOrder<T>(i: nat, r: Rose<T>, l: nat, k: nat)
    requires l <= k < |r.kids|
    ensures KidAt(i, r.kids, l) <= KidAt(i, r.kids, k)
  {
    SizeGrows(r.kids, l, k);
  }

  lemma TagsPrefix(a: seq<Rose<Tag>>, b: seq<Rose<Info>>, i: nat, k: nat)
    requires |a| == |b| && k <= |a| && forall l :: 0 <= l < |a| ==> Size(a[l]) == Size(b[l])
    ensures KidAt(i, a, k) == KidAt(i, b, k)
  {
    hide Size;
    SizeUpToSame(a, b, k);
  }

  /** Storage is the same for the flagged tree when the children are. */
  lemma TagsAssemble(tokens: seq<Token>, i: nat, p: nat, r: Rose<Info>, tags: Rose<Tag>)
    requires InTable(Cells(tokens), i, p, r) && |tags.kids| == |r.kids| && Size(tags) == Size(r)
    requires tags.data == Tag(r.data, tokens[i].superseded)
    requires forall k :: 0 <= k < |r.kids| ==> Size(tags.kids[k]) == Size(r.kids[k])
    requires forall k :: 0 <= k < |r.kids| ==> InTable(Tags(tokens), KidAt(i, r.kids, k), i, tags.kids[k])
    ensures InTable(Tags(tokens), i, p, tags)
  {
    hide Size, KidAt;
    forall k | 0 <= k <= |r.kids| ensures KidAt(i, tags.kids, k) == KidAt(i, r.kids, k) {
      TagsPrefix(tags.kids, r.kids, i, k);
    }
    TagHead(tokens, i, p, r, tags);
    forall k | 0 <= k < |r.kids| ensures KidOk(Tags(tokens), i, tags.kids, k) {
      assert KidOk(Cells(tokens), i, r.kids, k);
      TagKidNext(tokens, i, r, k);
    }
  }

  lemma TagHead(tokens: seq<Token>, i: nat, p: nat, r: Rose<Info>, tags: Rose<Tag>)
    requires i < |tokens| && HeadOk(Cells(tokens)[i], i, p, r.kids) && |tags.kids| == |r.kids|
    requires forall k :: 0 <= k <= |r.kids| ==> KidAt(i, tags.kids, k) == KidAt(i, r.kids, k)
    ensures HeadOk(Tags(tokens)[i], i, p, tags.kids)
  {
    hide KidAt;
  }

  lemma TagKidNext(tokens: seq<Token>, i: nat, r: Rose<Info>, k: nat)
    requires k < |r.kids| && KidOk(Cells(tokens), i, r.kids, k)
    ensures KidAt(i, r.kids, k) < |tokens|
    ensures Tags(tokens)[KidAt(i, r.kids, k)].links.next == NextOf(i, r.kids, k)
  {
    hide KidAt, Size;
  }

  /** The parsed table stores the source tree with every repeated key flagged. */
  lemma {:induction false} TagsInTable(tokens: seq<Token>, model: map<Key, nat>, i: nat, p: nat, j: Json)
    requires Indexed(tokens, model) && Linked(tokens) && |tokens| < VALUE_NONE
    requires InTable(Cells(tokens), i, p, RoseOf(j)) && Closed(Cells(tokens), i, Size(RoseOf(j)))
    requires i < |tokens| && !tokens[i].superseded
    ensures InTable(Tags(tokens), i, p, TagsOf(j))
    decreases j
  {
    hide Size, InTable, RoseOf, TagsOf, Closed, KidAt;
    var r, tags := RoseOf(j), TagsOf(j);
    TagKids(j);
    TagSize(j);
    RootParent(Cells(tokens), i, p, r);
    match j {
      case Array(items) =>
        ArrayRose(items);
        forall k | 0 <= k < |items|
          ensures Size(tags.kids[k]) == Size(r.kids[k])
          ensures InTable(Tags(tokens), KidAt(i, r.kids, k), i, tags.kids[k])
        {
          TagSize(items[k]);
          ValueKid(tokens, model, i, p, r, k, items[k]);
          TagsInTable(tokens, model, KidAt(i, r.kids, k), i, items[k]);
        }
      case Object(ms) =>
        ObjectRose(ms);
        forall k | 0 <= k < 2 * |ms|
          ensures Size(tags.kids[k]) == Size(r.kids[k])
          ensures InTable(Tags(tokens), KidAt(i, r.kids, k), i, tags.kids[k])
        {
          MemberPair(ms, k);
          if k % 2 == 1 {
            TagSize(ms[k / 2].value);
            ValueKid(tokens, model, i, p, r, k, ms[k / 2].value);
            TagsInTable(tokens, model, KidAt(i, r.kids, k), i, ms[k / 2].value);
          } else {
            assert 2 * (k / 2) == k;
            KeyKid(tokens, model, i, p, ms, k / 2);
          }
        }
      case _ =>
    }
    TagsAssemble(tokens, i, p, r, tags);
  }

  lemma ValueKid(tokens: seq<Token>, model: map<Key, nat>, i: nat, p: nat, r: Rose<Info>, k: nat, j: Json)
    requires Indexed(tokens, model) && InTable(Cells(tokens), i, p, r) && Closed(Cells(tokens), i, Size(r))
    requires k < |r.kids| && r.kids[k] == RoseOf(j)
    ensures var at := KidAt(i, r.kids, k);
            && InTable(Cells(tokens), at, i, RoseOf(j)) && Closed(Cells(tokens), at, Size(RoseOf(j)))
            && at < |tokens| && !tokens[at].superseded
  {
    hide Size, InTable, RoseOf, Closed, KidAt;
    InTableKid(Cells(tokens), i, p, r, k);
    KidClosed(Cells(tokens), i, p, r, k);
    RootParent(Cells(tokens), KidAt(i, r.kids, k), i, r.kids[k]);
    ValueIsNoKey(j);
  }

  lemma ValueIsNoKey(j: Json)
    ensures !RoseOf(j).data.objectKey
  {
  }

  lemma KeyKid(tokens: seq<Token>, model: map<Key, nat>, i: nat, p: nat, ms: seq<Member>, k: nat)
    requires Indexed(tokens, model) && Linked(tokens) && i < VALUE_NONE && k < |ms|
    requires InTable(Cells(tokens), i, p, RoseOf(Object(ms))) && Closed(Cells(tokens), i, Size(RoseOf(Object(ms))))
    ensures InTable(Tags(tokens), KidAt(i, MemberRoses(ms), 2 * k), i, KeyTag(ms, k))
  {
    hide Size, InTable, RoseOf, Closed, KidAt, MemberRoses, Superseded;
    var r := RoseOf(Object(ms));
    ObjectRose(ms);
    MemberRoseAt(ms, k);
    KeyFlag(tokens, model, i, p, ms, k);
    InTableKid(Cells(tokens), i, p, r, 2 * k);
    RootParent(Cells(tokens), KidAt(i, r.kids, 2 * k), i, r.kids[2 * k]);
    TagLeaf(tokens, KidAt(i, r.kids, 2 * k), i, KeyRose(ms[k].key).data, Superseded(ms, k));
  }

  lemma TagLeaf(tokens: seq<Token>, i: nat, p: nat, info: Info, superseded: bool)
    requires i < |tokens| && tokens[i].cell.data == info && HeadOk<Info>(tokens[i].cell, i, p, [])
    requires tokens[i].superseded == superseded
    ensures InTable(Tags(tokens), i, p, Rose(Tag(info, superseded), []))
  {
    assert SizeUpTo<Tag>([], 0) == 0;
  }

  // ----- the walk

  /** Bytes of arena the texts below a node take, terminators included. */
  function TextBytes(r: Rose<Info>): nat
    decreases r, 0
  {
    OwnBytes(r.data) + TextBytesUpTo(r.kids, |r.kids|)
  }

  function OwnBytes(info: Info): nat {
    if info.text.Some? then |info.text.value| + 1 else 0
  }

  function TextBytesUpTo(kids: seq<Rose<Info>>, n: nat): nat
    requires n <= |kids|
    decreases kids, n
  {
    if n == 0 then 0 else TextBytesUpTo(kids, n - 1) + TextBytes(kids[n - 1])
  }

  /** The document being packed; while it is only being sized there are no tokens to write. */
  class Packed {
    var tokens: Option<seq<Token>>
    var tokenCount: nat
    var tokenCapacity: nat
    var arenaUsed: nat
    var arenaCapacity: nat

    constructor ()
      ensures tokens == None && tokenCount == arenaUsed == 0
    {
      tokens, tokenCount, tokenCapacity, arenaUsed, arenaCapacity := None, 0, 0, 0, 0;
    }

    ghost predicate Valid()
      reads this
    {
      tokens.Some? ==> |tokens.value| == tokenCount && Linked(tokens.value)
    }

    /** Copies the token to the next free place below `parent`, with fresh links. */
    method Copy(source: Token, parent: nat)
      requires Valid() && tokenCount < VALUE_NONE - 1
      requires tokens.Some? ==> ParentOk(parent, tokenCount)
      // In bounds: the sizing pass counted this token and its text.
      requires tokens.Some? ==>
                 tokenCount < tokenCapacity && arenaUsed + OwnBytes(source.cell.data) <= arenaCapacity
      requires source.cell.data.objectKey ==> source.cell.data.text.Some?
      modifies this`tokens, this`tokenCount, this`arenaUsed
      ensures Valid() && tokenCount == old(tokenCount) + 1
      ensures arenaUsed == old(arenaUsed) + OwnBytes(source.cell.data)
      ensures tokens.Some? == old(tokens.Some?)
      ensures tokens.Some? ==> Cells(tokens.value) == Head(Cells(old(tokens.value)), parent, source.cell.data)
    {
      hide Linked;
      var slot := tokenCount;
      tokenCount := tokenCount + 1;
      if tokens.Some? {
        var table := tokens.value;
        ghost var before := table;
        if parent != VALUE_NONE {
          table := LinkChild(table, parent, slot);
        }
        var token := source.(cell := Cell(LinksInit(parent), source.cell.data));
        CellsAppend(table, token);
        tokens := Some(table + [token]);
        HeadLinked(before, tokens.value, parent, source.cell.data);
      }
      if source.cell.data.text.Some? {
        arenaUsed := arenaUsed + |source.cell.data.text.value| + 1;
      }
    }
  }

  lemma {:induction false} TextPrefix(a: seq<Rose<Info>>, b: seq<Rose<Info>>, n: nat)
    requires n <= |a| && n <= |b| && forall k :: 0 <= k < n ==> a[k] == b[k]
    ensures TextBytesUpTo(a, n) == TextBytesUpTo(b, n)
  {
    hide TextBytes;
    if n > 0 {
      TextPrefix(a, b, n - 1);
    }
  }

  lemma {:induction false} TextGrows(kids: seq<Rose<Info>>, m: nat, n: nat)
    requires m <= n <= |kids|
    ensures TextBytesUpTo(kids, m) <= TextBytesUpTo(kids, n)
    decreases n - m
  {
    hide TextBytes;
    if m < n {
      TextGrows(kids, m, n - 1);
    }
  }

  lemma TextSnoc(done: seq<Rose<Info>>, s: Rose<Info>)
    ensures TextBytesUpTo(done + [s], |done| + 1) == TextBytesUpTo(done, |done|) + TextBytes(s)
  {
    hide TextBytes;
    TextPrefix(done + [s], done, |done|);
  }

  /** One more survivor stays within what the whole node was counted as. */
  lemma SurvivorFits(r: Rose<Tag>, done: seq<Rose<Info>>, s: Rose<Info>, rest: seq<Rose<Info>>)
    requires done + [s] + rest == SurvivorsFrom(r.kids, 0)
    ensures 1 + SizeUpTo(done, |done|) + Size(s) <= Size(Survivor(r))
    ensures OwnBytes(r.data.info) + TextBytesUpTo(done, |done|) + TextBytes(s) <= TextBytes(Survivor(r))
    ensures SizeUpTo(done + [s], |done| + 1) == SizeUpTo(done, |done|) + Size(s)
    ensures TextBytesUpTo(done + [s], |done| + 1) == TextBytesUpTo(done, |done|) + TextBytes(s)
  {
    hide SurvivorsFrom, Size, TextBytes, SizeUpTo, TextBytesUpTo, OwnBytes;
    var all := SurvivorsFrom(r.kids, 0);
    var n := |done| + 1;
    SizeSnoc(done, s);
    SizePrefix(all, done + [s], n);
    SizeGrows(all, n, |all|);
    TextSnoc(done, s);
    TextPrefix(all, done + [s], n);
    TextGrows(all, n, |all|);
    SurvivorTotals(r);
  }

  lemma SurvivorTotals(r: Rose<Tag>)
    ensures var all := SurvivorsFrom(r.kids, 0);
            && Size(Survivor(r)) == 1 + SizeUpTo(all, |all|)
            && TextBytes(Survivor(r)) == OwnBytes(r.data.info) + TextBytesUpTo(all, |all|)
            && Survivor(r) == Rose(r.data.info, all)
  {
    hide SurvivorsFrom, SizeUpTo, TextBytesUpTo, OwnBytes;
  }

  lemma SurvivorBounds(r: Rose<Tag>)
    ensures Size(Survivor(r)) >= 1 && TextBytes(Survivor(r)) >= OwnBytes(r.data.info)
  {
  }

  lemma SourceToken(source: seq<Token>, index: nat, data: Tag)
    requires Linked(source) && index < |source| && Tags(source)[index].data == data
    ensures source[index].cell.data == data.info && source[index].superseded == data.superseded
    ensures data.info.objectKey ==> data.info.text.Some?
  {
  }

  lemma NothingDone(head: Table<Info>, slot: nat)
    ensures SizeUpTo<Info>([], 0) == TextBytesUpTo([], 0) == 0 && AddAll(head, slot, [], 0) == head
  {
  }

  lemma FirstKid(source: seq<Token>, i: nat, p: nat, r: Rose<Tag>)
    requires InTable(Tags(source), i, p, r)
    ensures i < |source| && source[i].cell.links.first == KidOrNone(i, r.kids, 0)
  {
    RootParent(Tags(source), i, p, r);
    hide InTable, Size;
  }

  lemma KidToken(source: seq<Token>, i: nat, p: nat, r: Rose<Tag>, k: nat)
    requires InTable(Tags(source), i, p, r) && Paired(r) && Linked(source) && |source| < VALUE_NONE
    ensures k < |r.kids| ==>
              var at := KidAt(i, r.kids, k);
              && at < |source| && InTable(Tags(source), at, i, r.kids[k]) && Paired(r.kids[k])
              && KidOrNone(i, r.kids, k) == at < VALUE_NONE
              && source[at].cell.links.next == KidOrNone(i, r.kids, k + 1)
              && (Dropped(r.kids[k]) <==> source[at].cell.data.objectKey && source[at].superseded)
  {
    if k < |r.kids| {
      InTableKid(Tags(source), i, p, r, k);
      hide InTable, Size, KidAt;
      RootParent(Tags(source), KidAt(i, r.kids, k), i, r.kids[k]);
    }
  }

  lemma WalkTurn(r: Rose<Tag>, k: nat, done: seq<Rose<Info>>, head: Table<Info>, slot: nat)
    requires k < |r.kids| && Paired(r) && done + SurvivorsFrom(r.kids, k) == SurvivorsFrom(r.kids, 0)
    ensures Dropped(r.kids[k]) ==> k + 1 < |r.kids| && SurvivorsFrom(r.kids, k) == SurvivorsFrom(r.kids, k + 2)
    ensures !Dropped(r.kids[k]) ==>
              var s := Survivor(r.kids[k]);
              && done + [s] + SurvivorsFrom(r.kids, k + 1) == SurvivorsFrom(r.kids, 0)
              && 1 + SizeUpTo(done, |done|) + Size(s) <= Size(Survivor(r))
              && OwnBytes(r.data.info) + TextBytesUpTo(done, |done|) + TextBytes(s) <= TextBytes(Survivor(r))
              && SizeUpTo(done + [s], |done| + 1) == SizeUpTo(done, |done|) + Size(s)
              && TextBytesUpTo(done + [s], |done| + 1) == TextBytesUpTo(done, |done|) + TextBytes(s)
              && AddAll(head, slot, done + [s], |done| + 1) == Add(AddAll(head, slot, done, |done|), slot, s)
  {
    hide Size, TextBytes, SizeUpTo, TextBytesUpTo, Survivor, OwnBytes, Add, AddAll;
    SurvivorsUnfold(r.kids, k);
    if !Dropped(r.kids[k]) {
      var s := Survivor(r.kids[k]);
      assert done + [s] + SurvivorsFrom(r.kids, k + 1) == done + ([s] + SurvivorsFrom(r.kids, k + 1));
      hide SurvivorsFrom;
      SurvivorFits(r, done, s, SurvivorsFrom(r.kids, k + 1));
      AddAllSnoc(head, slot, done, s);
    }
  }

  lemma SurvivorsUnfold(kids: seq<Rose<Tag>>, k: nat)
    requires k < |kids|
    ensures SurvivorsFrom(kids, k) ==
            if Dropped(kids[k]) then SurvivorsFrom(kids, k + 2)
            else [Survivor(kids[k])] + SurvivorsFrom(kids, k + 1)
  {
    hide Survivor, Dropped;
  }

  lemma AllDone(r: Rose<Tag>, done: seq<Rose<Info>>, k: nat)
    requires k >= |r.kids| && done + SurvivorsFrom(r.kids, k) == SurvivorsFrom(r.kids, 0)
    ensures done == SurvivorsFrom(r.kids, 0)
  {
  }

  lemma WholeNode(before: seq<Token>, parent: nat, r: Rose<Tag>, head: Table<Info>)
    requires head == Head(Cells(before), parent, r.data.info)
    ensures var all := SurvivorsFrom(r.kids, 0);
            Add(Cells(before), parent, Survivor(r)) == AddAll(head, |before|, all, |all|)
  {
    hide AddAll, SurvivorsFrom, Attach;
  }

  /** The sizing and the copying pass: both visit the surviving tokens only. */
  method CompactWalk(source: seq<Token>, index: nat, target: Packed, parent: nat, ghost p: nat, ghost r: Rose<Tag>)
    requires InTable(Tags(source), index, p, r) && Paired(r) && Linked(source) && |source| < VALUE_NONE
    requires target.Valid() && target.tokenCount + Size(Survivor(r)) < VALUE_NONE
    requires target.tokens.Some? ==>
               && ParentOk(parent, target.tokenCount)
               && target.tokenCount + Size(Survivor(r)) <= target.tokenCapacity
               && target.arenaUsed + TextBytes(Survivor(r)) <= target.arenaCapacity
    modifies target`tokens, target`tokenCount, target`arenaUsed
    ensures target.Valid() && target.tokens.Some? == old(target.tokens.Some?)
    ensures target.tokenCount == old(target.tokenCount) + Size(Survivor(r))
    ensures target.arenaUsed == old(target.arenaUsed) + TextBytes(Survivor(r))
    ensures target.tokens.Some? ==>
              Cells(target.tokens.value) == Add(Cells(old(target.tokens.value)), parent, Survivor(r))
    decreases r
  {
    hide Size, TextBytes, SizeUpTo, TextBytesUpTo, SurvivorsFrom, Survivor, Linked, InTable, Paired, OwnBytes, Head, Add,
         AddAll, Cells, NextOf, Tags;
    SurvivorTotals(r);
    SurvivorBounds(r);
    RootParent(Tags(source), index, p, r);
    SourceToken(source, index, r.data);
    ghost var all := SurvivorsFrom(r.kids, 0);
    var slot := target.tokenCount;
    ghost var before := if target.tokens.Some? then target.tokens.value else [];
    var used := target.arenaUsed;
    target.Copy(source[index], parent);
    ghost var head := if target.tokens.Some? then Cells(target.tokens.value) else [];
    ghost var k, done := 0, [];
    NothingDone(head, slot);
    FirstKid(source, index, p, r);
    var child := source[index].cell.links.first;
    while child != VALUE_NONE
      invariant k <= |r.kids| && child == KidOrNone(index, r.kids, k)
      invariant done + SurvivorsFrom(r.kids, k) == all
      invariant target.Valid() && target.tokens.Some? == old(target.tokens.Some?)
      invariant target.tokenCount == slot + 1 + SizeUpTo(done, |done|)
      invariant target.arenaUsed == used + OwnBytes(r.data.info) + TextBytesUpTo(done, |done|)
      invariant target.tokens.Some? ==> Cells(target.tokens.value) == AddAll(head, slot, done, |done|)
      decreases |r.kids| - k
    {
      KidToken(source, index, p, r, k);
      WalkTurn(r, k, done, head, slot);
      var entry := source[child];
      if entry.cell.data.objectKey && entry.superseded {
        var value := entry.cell.links.next;
        KidToken(source, index, p, r, k + 1);
        child := source[value].cell.links.next;
        k := k + 2;
      } else {
        CompactWalk(source, child, target, slot, index, r.kids[k]);
        child := entry.cell.links.next;
        done := done + [Survivor(r.kids[k])];
        k := k + 1;
      }
    }
    KidToken(source, index, p, r, k);
    AllDone(r, done, k);
    if target.tokens.Some? {
      WholeNode(before, parent, r, head);
    }
  }
}
