/** When a copy into a writer must succeed: what the target needs to hold a tree, entry by entry. */
module CopyRoom {
  import opened Basics
  import opened Numeral
  import opened Trees
  import opened LinkedTable
  import opened TokenTable
  import opened Nodes
  import opened WriterState
  import opened CanonicalForm

  /** Nodes a writer needs for a tree. */
  function NodesOf(j: Json): (n: nat)
    ensures n >= 1
    decreases j, 0
  {
    match j
    case Array(items) => 1 + ItemNodes(items, |items|)
    case Object(ms) => 1 + MemberNodes(ms, |ms|)
    case _ => 1
  }

  function ItemNodes(items: seq<Json>, n: nat): nat
    requires n <= |items|
    decreases items, n
  {
    if n == 0 then 0 else ItemNodes(items, n - 1) + NodesOf(items[n - 1])
  }

  function MemberNodes(ms: seq<Member>, n: nat): nat
    requires n <= |ms|
    decreases ms, n
  {
    if n == 0 then 0 else MemberNodes(ms, n - 1) + NodesOf(ms[n - 1].value)
  }

  /** No text, key or lexeme of the tree is longer than `n`. */
  predicate TextsWithin(j: Json, n: nat) {
    match j
    case Number(lexeme) => |lexeme| <= n
    case Text(t) => |t| <= n
    case Array(items) => forall k :: 0 <= k < |items| ==> TextsWithin(items[k], n)
    case Object(ms) => forall k :: 0 <= k < |ms| ==> |ms[k].key| <= n && TextsWithin(ms[k].value, n)
    case _ => true
  }

  /** No number of the tree starts with more digits than 64 bits hold. */
  predicate InRange(j: Json) {
    match j
    case Number(lexeme) => CopiedLexeme(lexeme).Some?
    case Array(items) => forall k :: 0 <= k < |items| ==> InRange(items[k])
    case Object(ms) => forall k :: 0 <= k < |ms| ==> InRange(ms[k].value)
    case _ => true
  }

  /** The writer stands where a value may go and its limits leave room for this one. */
  ghost predicate CanHold(s: Snapshot, j: Json, limits: Limits) {
    && Ready(s) && Accepts(s) && s.nodes == TableOf(s.frames, s.root)
    && Nests(j, limits.maximumDepth - |s.frames|)
    && |s.nodes| + NodesOf(j) <= limits.maximumTokens
    && TextsWithin(j, limits.maximumBytes)
    && Distinct(j)
  }

  lemma {:induction false} ItemNodesGrow(items: seq<Json>, m: nat, n: nat)
    requires m <= n <= |items|
    ensures ItemNodes(items, m) <= ItemNodes(items, n)
    decreases n - m
  {
    hide NodesOf;
    if m < n {
      ItemNodesGrow(items, m, n - 1);
    }
  }

  lemma {:induction false} MemberNodesGrow(ms: seq<Member>, m: nat, n: nat)
    requires m <= n <= |ms|
    ensures MemberNodes(ms, m) <= MemberNodes(ms, n)
    decreases n - m
  {
    hide NodesOf;
    if m < n {
      MemberNodesGrow(ms, m, n - 1);
    }
  }

  lemma FilledLength(s: Snapshot, data: Data, done: seq<Rose<Data>>)
    requires s.nodes == TableOf(s.frames, s.root) && (s.frames == [] ==> s.root.None?)
    ensures |Filled(s, data, done).nodes| == |s.nodes| + 1 + SizeUpTo(done, |done|)
  {
    hide AddAll, Attach, Innermost, SizeUpTo;
    var frames := s.frames + [Frame(data, done)];
    assert frames[..|frames| - 1] == s.frames;
    AddAllLength(Fresh(Chain(s.frames), Innermost(s.frames), data), |Chain(s.frames)|, done, |done|);
  }

  /** Done so far: as many nodes as the items copied need. */
  ghost predicate ItemsDone(done: seq<Rose<Data>>, items: seq<Json>) {
    |done| <= |items| && forall k :: 0 <= k < |done| ==> Size(done[k]) == NodesOf(items[k])
  }

  ghost predicate MembersDone(done: seq<Rose<Data>>, ms: seq<Member>) {
    && |done| <= |ms|
    && forall k :: 0 <= k < |done| ==>
         Size(done[k]) == NodesOf(ms[k].value) && done[k].data.key == Some(ms[k].key)
  }

  lemma {:induction false} ItemsDoneSize(done: seq<Rose<Data>>, items: seq<Json>, n: nat)
    requires ItemsDone(done, items) && n <= |done|
    ensures SizeUpTo(done, n) == ItemNodes(items, n)
  {
    hide Size, NodesOf;
    if n > 0 {
      ItemsDoneSize(done, items, n - 1);
    }
  }

  lemma {:induction false} MembersDoneSize(done: seq<Rose<Data>>, ms: seq<Member>, n: nat)
    requires MembersDone(done, ms) && n <= |done|
    ensures SizeUpTo(done, n) == MemberNodes(ms, n)
  {
    hide Size, NodesOf;
    if n > 0 {
      MembersDoneSize(done, ms, n - 1);
    }
  }

  /** A container that fits may be opened. */
  lemma RoomToOpen(s: Snapshot, j: Json, limits: Limits)
    requires CanHold(s, j, limits)
    ensures |s.nodes| < limits.maximumTokens && Accepts(s) && Ready(s)
    ensures j.Array? || j.Object? ==> |s.frames| < limits.maximumDepth
  {
    hide ItemNodes, MemberNodes, Chain, Add;
  }

  /** Room for the whole array is room for its next element. */
  lemma RoomForItem(s: Snapshot, data: Data, j: Json, done: seq<Rose<Data>>, limits: Limits)
    requires CanHold(s, j, limits) && j.Array? && data.kind.ArrayKind? && ItemsDone(done, j.items) && |done| < |j.items|
    ensures CanHold(Filled(s, data, done), j.items[|done|], limits)
  {
    hide Chain, Add, Size, ItemNodes, TextsWithin, Nests, Distinct, SizeUpTo;
    var i := |done|;
    FilledLength(s, data, done);
    ItemsDoneSize(done, j.items, i);
    ItemNodesGrow(j.items, i + 1, |j.items|);
    ItemNodesStep(j.items, i);
    ItemOf(j, i, limits.maximumDepth - |s.frames|, limits.maximumBytes);
  }

  lemma ItemNodesStep(items: seq<Json>, i: nat)
    requires i < |items|
    ensures ItemNodes(items, i + 1) == ItemNodes(items, i) + NodesOf(items[i])
    ensures NodesOf(Array(items)) == 1 + ItemNodes(items, |items|)
  {
  }

  lemma ItemOf(j: Json, i: nat, room: int, n: nat)
    requires j.Array? && i < |j.items| && Nests(j, room) && TextsWithin(j, n) && Distinct(j)
    ensures Nests(j.items[i], room - 1) && TextsWithin(j.items[i], n) && Distinct(j.items[i])
  {
  }

  /** Room for the whole object is room for its next member, whose key is new there. */
  lemma RoomForMember(s: Snapshot, data: Data, j: Json, done: seq<Rose<Data>>, limits: Limits)
    requires CanHold(s, j, limits) && j.Object? && data.kind.ObjectKind?
    requires MembersDone(done, j.members) && |done| < |j.members|
    ensures var m := j.members[|done|];
            && CanHold(Filled(s, data, done).(pending := Some(m.key)), m.value, limits)
            && |m.key| <= limits.maximumBytes && !HasName(done, m.key)
  {
    hide Chain, Add, Size, MemberNodes, TextsWithin, Nests, Distinct, SizeUpTo;
    var i := |done|;
    FilledLength(s, data, done);
    MembersDoneSize(done, j.members, i);
    MemberNodesGrow(j.members, i + 1, |j.members|);
    MemberNodesStep(j.members, i);
    MemberOf(j, i, limits.maximumDepth - |s.frames|, limits.maximumBytes);
    NewName(done, j.members);
  }

  lemma NewName(done: seq<Rose<Data>>, ms: seq<Member>)
    requires MembersDone(done, ms) && |done| < |ms| && KeysDistinct(ms)
    ensures !HasName(done, ms[|done|].key)
  {
    hide Size, NodesOf;
  }

  lemma MemberNodesStep(ms: seq<Member>, i: nat)
    requires i < |ms|
    ensures MemberNodes(ms, i + 1) == MemberNodes(ms, i) + NodesOf(ms[i].value)
    ensures NodesOf(Object(ms)) == 1 + MemberNodes(ms, |ms|)
  {
  }

  lemma MemberOf(j: Json, i: nat, room: int, n: nat)
    requires j.Object? && i < |j.members| && Nests(j, room) && TextsWithin(j, n) && Distinct(j)
    ensures var m := j.members[i];
            Nests(m.value, room - 1) && TextsWithin(m.value, n) && Distinct(m.value) && |m.key| <= n
    ensures KeysDistinct(j.members)
  {
  }

  lemma ArrayDoneSize(r: Rose<Data>, j: Json)
    requires j.Array? && ItemsDone(r.kids, j.items) && |r.kids| == |j.items|
    ensures Size(r) == NodesOf(j)
  {
    hide ItemNodes, SizeUpTo;
    ItemsDoneSize(r.kids, j.items, |r.kids|);
  }

  lemma ObjectDoneSize(r: Rose<Data>, j: Json)
    requires j.Object? && MembersDone(r.kids, j.members) && |r.kids| == |j.members|
    ensures Size(r) == NodesOf(j)
  {
    hide MemberNodes, SizeUpTo;
    MembersDoneSize(r.kids, j.members, |r.kids|);
  }
}
