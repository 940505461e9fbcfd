/** The state of a writer as open containers and finished trees, and how it lies in the node table. */
module WriterState {
  import opened Basics
  import opened Utf8
  import opened Numeral
  import opened Trees
  import opened TextEscape
  import opened LinkedTable
  import opened TokenTable
  import opened Keyset
  import opened Nodes
  import opened KeySort

  /** An open container: its own node and the finished children so far. */
  datatype Frame = Frame(data: Data, kids: seq<Rose<Data>>)

  function Fresh(t: NodeTable, parent: nat, data: Data): NodeTable {
    Attach(t, parent) + [Cell(LinksInit(parent), data)]
  }

  /** The table of a chain of open containers, outermost first. */
  function Chain(frames: seq<Frame>): NodeTable {
    if frames == [] then []
    else
      var t := Chain(frames[..|frames| - 1]);
      var f := frames[|frames| - 1];
      AddAll(Fresh(t, Innermost(frames[..|frames| - 1]), f.data), |t|, f.kids, |f.kids|)
  }

  /** Index of the innermost open container. */
  function Innermost(frames: seq<Frame>): nat {
    if frames == [] then VALUE_NONE else |Chain(frames[..|frames| - 1])|
  }

  /** The whole table: open containers, or the finished root, or nothing yet. */
  function TableOf(frames: seq<Frame>, root: Option<Rose<Data>>): NodeTable {
    if frames == [] && root.Some? then Add([], VALUE_NONE, root.value) else Chain(frames)
  }

  // ----- what one call does

  datatype Snapshot = Snapshot(nodes: NodeTable, frames: seq<Frame>, root: Option<Rose<Data>>, pending: Option<Bytes>,
                               failure: Code, finished: bool)

  predicate Ready(s: Snapshot) {
    s.failure.Ok? && !s.finished
  }

  /** A finished value goes below the innermost container, or becomes the root. */
  function Placed(s: Snapshot, r: Rose<Data>): Snapshot {
    if s.frames == [] then s.(nodes := TableOf([], Some(r)), root := Some(r), pending := None)
    else
      var n := |s.frames| - 1;
      var frames := s.frames[..n] + [s.frames[n].(kids := s.frames[n].kids + [r])];
      s.(nodes := TableOf(frames, s.root), frames := frames, pending := None)
  }

  /** A container is opened. */
  function Opened(s: Snapshot, data: Data): Snapshot {
    var frames := s.frames + [Frame(data, [])];
    s.(nodes := TableOf(frames, s.root), frames := frames, pending := None)
  }

  /** The innermost container is closed and placed. */
  function Closed(s: Snapshot): Snapshot
    requires s.frames != []
  {
    var n := |s.frames| - 1;
    Placed(s.(frames := s.frames[..n]), Rose(s.frames[n].data, s.frames[n].kids))
  }

  /** A call that did not succeed: ARGUMENT and calls on a spent writer change nothing, the rest sticks. */
  predicate Rejected(a: Snapshot, b: Snapshot, code: Code) {
    && !code.Ok?
    && if code.Argument? then b == a
       else if !Ready(a) then code.State? && b == a
       else b.failure == code && !b.finished
  }

  /** Attaching one value: where it may not go, when the table is full, and else what it becomes. */
  predicate Attached(a: Snapshot, b: Snapshot, accepted: Snapshot, code: Code, maximumTokens: nat) {
    if !Ready(a) || !Accepts(a) then code.State? && Rejected(a, b, code)
    else if |a.nodes| >= maximumTokens then code.Limit? && Rejected(a, b, code)
    else (code.Ok? && b == accepted) || (code.Memory? && Rejected(a, b, code))
  }

  /** One call of the interface, copies included, seen from outside. */
  predicate Stepped(a: Snapshot, b: Snapshot, code: Code) {
    if code.Ok? then Ready(a) && b.failure.Ok?
    else if !Ready(a) then (code.State? || code.Argument?) && b == a
    else (code.Argument? && b == a) || (!b.failure.Ok? && !b.finished)
  }

  /** Over any run of calls: a writer that failed or finished never changes again. */
  lemma {:induction false} FailureIsSticky(run: seq<Snapshot>, codes: seq<Code>, i: nat, k: nat)
    requires |run| == |codes| + 1 && forall n :: 0 <= n < |codes| ==> Stepped(run[n], run[n + 1], codes[n])
    requires i <= k < |run| && !Ready(run[i])
    ensures run[k] == run[i]
    ensures forall n :: i <= n < k ==> codes[n].State? || codes[n].Argument?
    decreases k - i
  {
    if i < k {
      assert Stepped(run[i], run[i + 1], codes[i]);
      FailureIsSticky(run, codes, i + 1, k);
    }
  }

  /** A value may be written here: at the top of an empty writer, in an array, or after a key in an object. */
  predicate Accepts(s: Snapshot) {
    if s.frames == [] then s.root.None? && s.pending.None?
    else s.frames[|s.frames| - 1].data.kind.ObjectKind? <==> s.pending.Some?
  }

  // ----- the invariant

  predicate HasName(kids: seq<Rose<Data>>, key: Bytes) {
    exists k :: 0 <= k < |kids| && kids[k].data.key == Some(key)
  }

  ghost predicate FrameOk(profile: Profile, f: Frame) {
    && (f.data.kind.ObjectKind? || f.data.kind.ArrayKind?)
    && DataOk(profile, f.data) && KidsOk(f.data, f.kids)
    && forall k :: 0 <= k < |f.kids| ==> Sound(profile, f.kids[k])
  }

  /** Below `f`, the node of a value carries a key exactly in an object, and a new one. */
  predicate Belongs(f: Frame, data: Data) {
    (data.key.Some? <==> f.data.kind.ObjectKind?) && (data.key.Some? ==> !HasName(f.kids, data.key.value))
  }

  ghost predicate FramesOk(profile: Profile, frames: seq<Frame>) {
    && (forall i :: 0 <= i < |frames| ==> FrameOk(profile, frames[i]))
    && (frames != [] ==> frames[0].data.key.None?)
    && (forall i :: 0 < i < |frames| ==> Belongs(frames[i - 1], frames[i].data))
  }

  predicate PendingOk(profile: Profile, frames: seq<Frame>, pending: Option<Bytes>) {
    pending.Some? ==>
      && frames != [] && frames[|frames| - 1].data.kind.ObjectKind?
      && Printable(profile, pending.value) && !HasName(frames[|frames| - 1].kids, pending.value)
  }

  ghost predicate RootOk(profile: Profile, frames: seq<Frame>, root: Option<Rose<Data>>) {
    root.Some? ==> frames == [] && Sound(profile, root.value) && root.value.data.key.None?
  }

  /** Parents come first, and every key in the table is text the profile carries. */
  predicate NodesOk(profile: Profile, nodes: NodeTable) {
    forall i :: 0 <= i < |nodes| ==>
      && (nodes[i].links.parent == VALUE_NONE || nodes[i].links.parent < i)
      && (nodes[i].data.key.Some? ==> Printable(profile, nodes[i].data.key.value))
  }

  /** The key set holds the key of every keyed node, and nothing else. */
  ghost predicate KeysIndexed(nodes: NodeTable, model: map<Key, nat>) {
    && (forall i :: 0 <= i < |nodes| && nodes[i].data.key.Some? ==>
          NodeKey(nodes[i]) in model && model[NodeKey(nodes[i])] == i)
    && (forall k :: k in model ==> model[k] < |nodes| && nodes[model[k]].data.key.Some? && NodeKey(nodes[model[k]]) == k)
  }

  /** The stack lists the open containers from the root to the current one. */
  predicate StackOk(stack: seq<nat>, frames: seq<Frame>) {
    |stack| == |frames| && forall i :: 0 <= i < |frames| ==> stack[i] == |Chain(frames[..i])|
  }

  /** Everything that holds of a writer that has not failed. */
  ghost predicate Built(profile: Profile, s: Snapshot, stack: seq<nat>, model: map<Key, nat>) {
    && s.nodes == TableOf(s.frames, s.root) && |s.nodes| < VALUE_NONE
    && StackOk(stack, s.frames)
    && FramesOk(profile, s.frames) && RootOk(profile, s.frames, s.root) && PendingOk(profile, s.frames, s.pending)
    && NodesOk(profile, s.nodes) && KeysIndexed(s.nodes, model)
  }

  // ----- the table under the operations

  lemma ChainOpens(frames: seq<Frame>, data: Data)
    ensures Chain(frames + [Frame(data, [])]) == Fresh(Chain(frames), Innermost(frames), data)
    ensures Innermost(frames + [Frame(data, [])]) == |Chain(frames)|
  {
    var all := frames + [Frame(data, [])];
    assert all[..|all| - 1] == frames;
  }

  lemma {:induction false} AddAllSame(t: NodeTable, p: nat, a: seq<Rose<Data>>, b: seq<Rose<Data>>, n: nat)
    requires n <= |a| && n <= |b| && forall k :: 0 <= k < n ==> a[k] == b[k]
    ensures AddAll(t, p, a, n) == AddAll(t, p, b, n)
    decreases n
  {
    hide Add;
    if n > 0 {
      AddAllSame(t, p, a, b, n - 1);
    }
  }

  lemma ChainPlaces(frames: seq<Frame>, r: Rose<Data>)
    requires frames != []
    ensures var n := |frames| - 1;
            var more := frames[..n] + [frames[n].(kids := frames[n].kids + [r])];
            Chain(more) == Add(Chain(frames), Innermost(frames), r) && Innermost(more) == Innermost(frames)
  {
    hide Add, Fresh;
    var n := |frames| - 1;
    var f := frames[n];
    var more := frames[..n] + [f.(kids := f.kids + [r])];
    assert more[..n] == frames[..n];
    AddAllSame(Fresh(Chain(frames[..n]), Innermost(frames[..n]), f.data), |Chain(frames[..n])|, f.kids + [r], f.kids,
               |f.kids|);
  }

  lemma ChainCloses(frames: seq<Frame>)
    requires frames != []
    ensures var n := |frames| - 1;
            Chain(frames) == Add(Chain(frames[..n]), Innermost(frames[..n]), Rose(frames[n].data, frames[n].kids))
  {
    hide AddAll, Attach;
  }

  /** Closing a container changes no node. */
  lemma CloseKeepsTable(s: Snapshot)
    requires s.frames != [] && s.root.None?
    ensures Closed(s).nodes == TableOf(s.frames, s.root)
  {
    hide Chain, Add, Innermost;
    var n := |s.frames| - 1;
    ChainCloses(s.frames);
    if n > 0 {
      ChainPlaces(s.frames[..n], Rose(s.frames[n].data, s.frames[n].kids));
    } else {
      NoChain();
    }
  }

  lemma NoChain()
    ensures Chain([]) == [] && Innermost([]) == VALUE_NONE
  {
  }

  /** A leaf is a fresh node; its table is that of the placed leaf. */
  lemma LeafPlaces(s: Snapshot, data: Data)
    requires s.frames == [] ==> s.root.None?
    ensures Placed(s, Rose(data, [])).nodes == Fresh(TableOf(s.frames, s.root), Innermost(s.frames), data)
  {
    hide Chain, Innermost, Add, Attach;
    AddLeaf(TableOf(s.frames, s.root), Innermost(s.frames), data);
    if s.frames == [] {
      NoChain();
    } else {
      ChainPlaces(s.frames, Rose(data, []));
    }
  }

  // ----- the open containers as the table shows them

  /** The innermost container is open in the table, with exactly its finished children. */
  lemma {:induction false} InnermostOpen(frames: seq<Frame>)
    requires frames != [] && |Chain(frames)| < VALUE_NONE
    ensures var n := |frames| - 1;
            Open(Chain(frames), Innermost(frames), Innermost(frames[..n]), frames[n].data, frames[n].kids)
    ensures Innermost(frames) < |Chain(frames)|
  {
    hide Open;
    var n := |frames| - 1;
    var f := frames[n];
    var t := Chain(frames[..n]);
    var p := Innermost(frames[..n]);
    var head := Fresh(t, p, f.data);
    OpenLeaf(Attach(t, p), p, f.data);
    AddAllLength(head, |t|, f.kids, |f.kids|);
    AddAllShape(head, |t|, p, f.data, f.kids, |f.kids|);
    assert f.kids[..|f.kids|] == f.kids;
    OpenFits(Chain(frames), |t|, p, f.data, f.kids);
  }

  /** In the table, the nodes below the innermost container are its children. */
  lemma NamesKnown(profile: Profile, frames: seq<Frame>, model: map<Key, nat>, key: Bytes)
    requires frames != [] && |Chain(frames)| < VALUE_NONE && FrameOk(profile, frames[|frames| - 1])
    requires NodesOk(profile, Chain(frames)) && KeysIndexed(Chain(frames), model)
    requires frames[|frames| - 1].data.kind.ObjectKind?
    ensures Key(Innermost(frames), key) in model <==> HasName(frames[|frames| - 1].kids, key)
  {
    hide Chain, Innermost, Open, InTable, DataOk, Size, Printable;
    var n := |frames| - 1;
    var t, i, p, f := Chain(frames), Innermost(frames), Innermost(frames[..n]), frames[n];
    var r := Rose(f.data, f.kids);
    InnermostOpen(frames);
    OpenIsStored(t, i, p, f.data, f.kids);
    if Key(i, key) in model {
      var j := model[Key(i, key)];
      var k := ParentIsExact(t, i, p, r, j);
      NextLink(t, i, p, r, k);
      assert f.kids[k].data.key == Some(key);
    }
    if HasName(f.kids, key) {
      var k :| 0 <= k < |f.kids| && f.kids[k].data.key == Some(key);
      NextLink(t, i, p, r, k);
      RootParent(t, KidAt(i, f.kids, k), i, f.kids[k]);
      assert NodeKey(t[KidAt(i, f.kids, k)]) == Key(i, key);
    }
  }

  lemma OpenIsStored(t: NodeTable, i: nat, p: nat, data: Data, kids: seq<Rose<Data>>)
    requires Open(t, i, p, data, kids)
    ensures InTable(t, i, p, Rose(data, kids)) && i + Size(Rose(data, kids)) == |t|
  {
  }

  // ----- every call keeps the invariant

  /** The key set after a node with this key. */
  function Entered(model: map<Key, nat>, parent: nat, data: Data, index: nat): map<Key, nat> {
    if data.key.Some? then model[Key(parent, data.key.value) := index] else model
  }

  lemma FreshCells(t: NodeTable, p: nat, data: Data)
    ensures |Fresh(t, p, data)| == |t| + 1 && Fresh(t, p, data)[|t|] == Cell(LinksInit(p), data)
    ensures forall i :: 0 <= i < |t| ==>
              Fresh(t, p, data)[i].data == t[i].data && Fresh(t, p, data)[i].links.parent == t[i].links.parent
  {
    forall i | 0 <= i < |t|
      ensures Attach(t, p)[i].data == t[i].data && Attach(t, p)[i].links.parent == t[i].links.parent
    {
      AttachKeeps(t, p, i);
    }
  }

  lemma FreshIndexed(t: NodeTable, p: nat, data: Data, model: map<Key, nat>)
    requires KeysIndexed(t, model) && (data.key.Some? ==> Key(p, data.key.value) !in model)
    ensures KeysIndexed(Fresh(t, p, data), Entered(model, p, data, |t|))
    ensures forall k :: k in model ==> NodeKeyFn(Fresh(t, p, data))(model[k]) == k
  {
    hide Fresh;
    FreshCells(t, p, data);
    var u := Fresh(t, p, data);
    forall i | 0 <= i < |t| ensures NodeKey(u[i]) == NodeKey(t[i]) {
    }
  }

  lemma FreshNodesOk(profile: Profile, t: NodeTable, p: nat, data: Data)
    requires NodesOk(profile, t) && DataOk(profile, data) && (p == VALUE_NONE || p < |t|)
    ensures NodesOk(profile, Fresh(t, p, data))
  {
    hide Fresh, Printable;
    FreshCells(t, p, data);
  }

  /** One more finished child of the innermost container. */
  lemma PlacedFramesOk(profile: Profile, frames: seq<Frame>, r: Rose<Data>)
    requires frames != [] && FramesOk(profile, frames) && Sound(profile, r) && Belongs(frames[|frames| - 1], r.data)
    ensures var n := |frames| - 1;
            FramesOk(profile, frames[..n] + [frames[n].(kids := frames[n].kids + [r])])
  {
    hide Sound, DataOk;
    var n := |frames| - 1;
    var f, more := frames[n], frames[..n] + [frames[n].(kids := frames[n].kids + [r])];
    PlacedKids(f.data, f.kids, r);
    assert FrameOk(profile, frames[n]);
    assert FrameOk(profile, more[n]);
    forall i | 0 < i < |more| ensures Belongs(more[i - 1], more[i].data) {
      assert Belongs(frames[i - 1], frames[i].data);
    }
  }

  lemma PlacedKids(data: Data, kids: seq<Rose<Data>>, r: Rose<Data>)
    requires KidsOk(data, kids) && Belongs(Frame(data, kids), r.data)
    ensures KidsOk(data, kids + [r])
  {
    var all := kids + [r];
    forall i, k | 0 <= i < k < |all| && data.kind.ObjectKind? ensures NameOf(all[i].data) != NameOf(all[k].data) {
      if k == |kids| {
        assert kids[i].data.key.Some? && r.data.key.Some?;
        assert kids[i].data.key != Some(r.data.key.value);
      }
    }
  }

  lemma StackFrame(stack: seq<nat>, frames: seq<Frame>, more: seq<Frame>)
    requires StackOk(stack, frames) && |more| == |frames|
    requires forall i :: 0 <= i < |frames| - 1 ==> more[i] == frames[i]
    ensures StackOk(stack, more)
  {
    hide Chain;
    forall i | 0 <= i < |more| ensures stack[i] == |Chain(more[..i])| {
      assert more[..i] == frames[..i];
    }
  }

  /** What a node of a value may look like where the writer stands. */
  predicate Takes(s: Snapshot, data: Data) {
    Accepts(s) && data.key == s.pending
  }

  lemma TakesFits(profile: Profile, s: Snapshot, data: Data)
    requires Takes(s, data) && PendingOk(profile, s.frames, s.pending) && s.frames != []
    ensures Belongs(s.frames[|s.frames| - 1], data)
  {
  }

  /** The key a value brings is not in the key set: the assertion after the insertion never fires. */
  lemma KeyIsNew(profile: Profile, s: Snapshot, stack: seq<nat>, model: map<Key, nat>)
    requires Built(profile, s, stack, model) && s.pending.Some?
    ensures Key(Innermost(s.frames), s.pending.value) !in model
  {
    hide Chain, Innermost, StackOk, KeysIndexed, NodesOk, HasName;
    assert FrameOk(profile, s.frames[|s.frames| - 1]);
    NamesKnown(profile, s.frames, model, s.pending.value);
  }

  lemma InnermostBefore(profile: Profile, s: Snapshot, stack: seq<nat>, model: map<Key, nat>)
    requires Built(profile, s, stack, model)
    ensures Innermost(s.frames) == VALUE_NONE || Innermost(s.frames) < |s.nodes|
    ensures s.frames == [] ==> Innermost(s.frames) == VALUE_NONE
    ensures s.frames != [] ==> stack[|stack| - 1] == Innermost(s.frames) < |s.nodes|
  {
    hide Chain, KeysIndexed, NodesOk, FramesOk;
    if s.frames != [] {
      InnermostOpen(s.frames);
    }
  }

  lemma PlaceKeeps(profile: Profile, s: Snapshot, data: Data, stack: seq<nat>, model: map<Key, nat>)
    requires Built(profile, s, stack, model) && Takes(s, data) && |s.nodes| + 1 < VALUE_NONE
    requires DataOk(profile, data) && !data.kind.ObjectKind? && !data.kind.ArrayKind?
    ensures Built(profile, Placed(s, Rose(data, [])), stack, Entered(model, Innermost(s.frames), data, |s.nodes|))
  {
    hide Chain, Innermost, KeysIndexed, NodesOk, FramesOk, StackOk, PendingOk, Fresh, DataOk, Belongs;
    var r := Rose(data, []);
    LeafPlaces(s, data);
    FreshCells(s.nodes, Innermost(s.frames), data);
    InnermostBefore(profile, s, stack, model);
    if s.pending.Some? {
      KeyIsNew(profile, s, stack, model);
    }
    FreshIndexed(s.nodes, Innermost(s.frames), data, model);
    FreshNodesOk(profile, s.nodes, Innermost(s.frames), data);
    assert Sound(profile, r);
    if s.frames != [] {
      TakesFits(profile, s, data);
      PlacedFramesOk(profile, s.frames, r);
      StackFrame(stack, s.frames, Placed(s, r).frames);
    }
    NothingPending(profile, Placed(s, r).frames);
  }

  lemma NothingPending(profile: Profile, frames: seq<Frame>)
    ensures PendingOk(profile, frames, None)
  {
  }

  lemma OpenKeeps(profile: Profile, s: Snapshot, data: Data, stack: seq<nat>, model: map<Key, nat>)
    requires Built(profile, s, stack, model) && Takes(s, data) && |s.nodes| + 1 < VALUE_NONE
    requires DataOk(profile, data) && (data.kind.ObjectKind? || data.kind.ArrayKind?)
    ensures Built(profile, Opened(s, data), stack + [|s.nodes|], Entered(model, Innermost(s.frames), data, |s.nodes|))
    ensures Opened(s, data).nodes == Fresh(s.nodes, Innermost(s.frames), data)
  {
    hide Chain, Innermost, KeysIndexed, NodesOk, FramesOk, StackOk, PendingOk, Fresh, DataOk, Belongs, FrameOk;
    ChainOpens(s.frames, data);
    FreshCells(s.nodes, Innermost(s.frames), data);
    InnermostBefore(profile, s, stack, model);
    if s.pending.Some? {
      KeyIsNew(profile, s, stack, model);
    }
    FreshIndexed(s.nodes, Innermost(s.frames), data, model);
    FreshNodesOk(profile, s.nodes, Innermost(s.frames), data);
    OpenedFramesOk(profile, s, data);
    OpenedStack(s, data, stack);
    NothingPending(profile, Opened(s, data).frames);
  }

  lemma OpenedFramesOk(profile: Profile, s: Snapshot, data: Data)
    requires FramesOk(profile, s.frames) && Takes(s, data) && PendingOk(profile, s.frames, s.pending)
    requires DataOk(profile, data) && (data.kind.ObjectKind? || data.kind.ArrayKind?)
    ensures FramesOk(profile, s.frames + [Frame(data, [])])
  {
    hide DataOk, Sound;
    var more := s.frames + [Frame(data, [])];
    assert FrameOk(profile, Frame(data, []));
    if s.frames != [] {
      TakesFits(profile, s, data);
    }
    hide Belongs;
    forall i | 0 < i < |more| ensures Belongs(more[i - 1], more[i].data) {
    }
  }

  lemma OpenedStack(s: Snapshot, data: Data, stack: seq<nat>)
    requires StackOk(stack, s.frames) && (s.frames == [] ==> s.root.None?) && s.nodes == TableOf(s.frames, s.root)
    ensures StackOk(stack + [|s.nodes|], s.frames + [Frame(data, [])])
  {
    hide Chain;
    var more := s.frames + [Frame(data, [])];
    forall i | 0 <= i < |more| ensures (stack + [|s.nodes|])[i] == |Chain(more[..i])| {
      assert more[..i] == s.frames[..i];
    }
    assert more[..|s.frames|] == s.frames;
  }

  lemma CloseKeeps(profile: Profile, s: Snapshot, stack: seq<nat>, model: map<Key, nat>)
    requires Built(profile, s, stack, model) && s.frames != [] && s.pending.None?
    ensures Built(profile, Closed(s), stack[..|stack| - 1], model) && Closed(s).nodes == s.nodes
  {
    hide Chain, Innermost, KeysIndexed, NodesOk, StackOk, DataOk, KidsOk, Belongs;
    var n := |s.frames| - 1;
    var f := s.frames[n];
    var r := Rose(f.data, f.kids);
    CloseKeepsTable(s);
    assert FrameOk(profile, f);
    assert Sound(profile, r);
    PrefixStack(stack, s.frames, n);
    if n > 0 {
      assert Belongs(s.frames[n - 1], s.frames[n].data);
      PrefixFramesOk(profile, s.frames, n);
      PlacedFramesOk(profile, s.frames[..n], r);
      StackFrame(stack[..n], s.frames[..n], Closed(s).frames);
    }
    assert s.frames[..0] == [];
    NothingPending(profile, Closed(s).frames);
  }

  lemma PrefixStack(stack: seq<nat>, frames: seq<Frame>, n: nat)
    requires StackOk(stack, frames) && n <= |frames|
    ensures |stack| == |frames| && StackOk(stack[..n], frames[..n])
  {
    hide Chain;
    forall i | 0 <= i < n ensures stack[..n][i] == |Chain(frames[..n][..i])| {
      assert frames[..n][..i] == frames[..i];
    }
  }

  lemma PrefixFramesOk(profile: Profile, frames: seq<Frame>, n: nat)
    requires FramesOk(profile, frames) && n <= |frames|
    ensures FramesOk(profile, frames[..n])
  {
    hide FrameOk, Belongs;
    forall i | 0 < i < n ensures Belongs(frames[..n][i - 1], frames[..n][i].data) {
      assert Belongs(frames[i - 1], frames[i].data);
    }
  }

  /** The key set answers for the members of the innermost container. */
  lemma NamesHere(profile: Profile, s: Snapshot, stack: seq<nat>, model: map<Key, nat>, key: Bytes)
    requires Built(profile, s, stack, model) && s.frames != [] && s.frames[|s.frames| - 1].data.kind.ObjectKind?
    ensures Key(Innermost(s.frames), key) in model <==> HasName(s.frames[|s.frames| - 1].kids, key)
  {
    hide Chain, Innermost, KeysIndexed, NodesOk, HasName, FrameOk;
    NamesKnown(profile, s.frames, model, key);
  }

  /** What the fields of the writer say about where it stands. */
  lemma Where(profile: Profile, s: Snapshot, stack: seq<nat>, model: map<Key, nat>)
    requires Built(profile, s, stack, model)
    ensures |stack| == |s.frames|
    ensures stack == [] ==> Innermost(s.frames) == VALUE_NONE && (s.nodes == [] <==> s.root.None?) && s.pending.None?
    ensures stack != [] ==>
              var at := stack[|stack| - 1];
              && at == Innermost(s.frames) < |s.nodes| && s.nodes[at].data == s.frames[|s.frames| - 1].data
    ensures stack != [] ==> Attachable(s.nodes, stack[|stack| - 1]) && s.root.None?
  {
    hide Chain, KeysIndexed, NodesOk, FramesOk, InTable, Size, Add;
    if s.frames != [] {
      var n := |s.frames| - 1;
      InnermostOpen(s.frames);
      assert s.frames[..n + 1] == s.frames;
      OpenLast(s.nodes, Innermost(s.frames), Innermost(s.frames[..n]), s.frames[n].data, s.frames[n].kids);
    } else {
      NoChain();
      if s.root.Some? {
        AddLength([], VALUE_NONE, s.root.value);
      }
    }
  }

  /** The last child of the container is in the table already. */
  predicate Attachable(t: NodeTable, p: nat) {
    p < |t| && (t[p].links.last == VALUE_NONE || t[p].links.last < |t|)
  }

  lemma OpenLast(t: NodeTable, i: nat, p: nat, data: Data, kids: seq<Rose<Data>>)
    requires Open(t, i, p, data, kids) && |t| < VALUE_NONE
    ensures Attachable(t, i) && t[i].data == data
  {
    LastKid(t, i, p, data, kids);
    OpenHead(t, i, p, data, kids);
  }

  /** No more keys than nodes. */
  lemma KeysWithinNodes(t: NodeTable, model: map<Key, nat>)
    requires KeysIndexed(t, model)
    ensures |model| <= |t|
  {
    ModelSize(model, |t|);
  }

  lemma {:induction false} ModelSize(model: map<Key, nat>, n: nat)
    requires forall k :: k in model ==> model[k] < n
    requires forall k, l :: k in model && l in model && model[k] == model[l] ==> k == l
    ensures |model| <= n
    decreases n
  {
    if n == 0 {
      NoKeys(model);
    } else if k :| k in model && model[k] == n - 1 {
      var rest := model - {k};
      assert model.Keys == rest.Keys + {k};
      assert |model| == |rest| + 1;
      ModelSize(rest, n - 1);
    } else {
      ModelSize(model, n - 1);
    }
  }

  lemma NoKeys(model: map<Key, nat>)
    requires forall k :: k !in model
    ensures |model| == 0
  {
    assert model == map[];
  }

  /** Before the new node is linked, the key set already reads the right keys. */
  lemma UnlinkedKeys(t: NodeTable, p: nat, data: Data, model: map<Key, nat>)
    requires KeysIndexed(t, model)
    ensures var u := t + [Cell(LinksInit(p), data)];
            && (forall k :: k in model ==> NodeKeyFn(u)(model[k]) == k)
            && NodeKeyFn(u)(|t|) == Key(p, NameOf(data))
  {
    var u := t + [Cell(LinksInit(p), data)];
    forall k | k in model ensures NodeKeyFn(u)(model[k]) == k {
      assert u[model[k]] == t[model[k]];
    }
  }

  /** links_append on the node table, the node being there already. */
  method LinkNode(nodes: NodeTable, parent: nat, ghost t: NodeTable, ghost data: Data) returns (linked: NodeTable)
    requires nodes == t + [Cell(LinksInit(parent), data)] && Attachable(t, parent) && |t| < VALUE_NONE
    ensures linked == Fresh(t, parent, data)
  {
    var index := |nodes| - 1;
    var container := nodes[parent].links;
    linked := nodes;
    if container.last != VALUE_NONE {
      linked := linked[container.last := linked[container.last].(links := linked[container.last].links.(next := index))];
    } else {
      linked := linked[parent := linked[parent].(links := linked[parent].links.(first := index))];
    }
    linked := linked[parent := linked[parent].(links :=
      linked[parent].links.(last := index, count := container.count + 1))];
  }

  // ----- a container being filled by a copy

  /** `s` with a container opened below it that already holds `done`. */
  function Filled(s: Snapshot, data: Data, done: seq<Rose<Data>>): Snapshot {
    var frames := s.frames + [Frame(data, done)];
    s.(nodes := TableOf(frames, s.root), frames := frames, pending := None)
  }

  lemma FilledStarts(s: Snapshot, data: Data)
    ensures Opened(s, data) == Filled(s, data, [])
  {
  }

  lemma FilledGrows(s: Snapshot, data: Data, done: seq<Rose<Data>>, r: Rose<Data>, pending: Option<Bytes>)
    ensures Placed(Filled(s, data, done).(pending := pending), r) == Filled(s, data, done + [r])
  {
    hide TableOf;
    assert (s.frames + [Frame(data, done)])[..|s.frames|] == s.frames;
  }

  lemma FilledCloses(s: Snapshot, data: Data, done: seq<Rose<Data>>)
    ensures Closed(Filled(s, data, done)) == Placed(s, Rose(data, done))
  {
    hide TableOf;
    assert (s.frames + [Frame(data, done)])[..|s.frames|] == s.frames;
  }

  // ----- nesting and token counts, as a reader will charge them

  /** Finished children nest no deeper than the limit leaves room for. */
  ghost predicate NestsOk(limit: nat, frames: seq<Frame>, root: Option<Rose<Data>>) {
    && |frames| <= limit
    && (forall i, k :: 0 <= i < |frames| && 0 <= k < |frames[i].kids| ==> Nests(TreeOf(frames[i].kids[k]), limit - i - 1))
    && (root.Some? ==> Nests(TreeOf(root.value), limit))
  }

  lemma ScalarNests(data: Data, room: int)
    requires !data.kind.ObjectKind? && !data.kind.ArrayKind?
    ensures Nests(TreeOf(Rose(data, [])), room)
  {
  }

  lemma PlaceNests(limit: nat, s: Snapshot, r: Rose<Data>)
    requires NestsOk(limit, s.frames, s.root) && Nests(TreeOf(r), limit - |s.frames|)
    ensures NestsOk(limit, Placed(s, r).frames, Placed(s, r).root)
  {
    hide Nests, TreeOf, TableOf;
    var frames := Placed(s, r).frames;
    forall i, k | 0 <= i < |frames| && 0 <= k < |frames[i].kids|
      ensures Nests(TreeOf(frames[i].kids[k]), limit - i - 1)
    {
      if i < |frames| - 1 || k < |s.frames[i].kids| {
        assert frames[i].kids[k] == s.frames[i].kids[k];
      }
    }
  }

  lemma OpenNests(limit: nat, s: Snapshot, data: Data)
    requires NestsOk(limit, s.frames, s.root) && |s.frames| < limit
    ensures NestsOk(limit, Opened(s, data).frames, s.root)
  {
    hide Nests, TreeOf, TableOf;
  }

  lemma CloseNests(limit: nat, s: Snapshot)
    requires NestsOk(limit, s.frames, s.root) && s.frames != []
    ensures NestsOk(limit, Closed(s).frames, Closed(s).root)
  {
    hide TableOf, TreeOf, Nests;
    var n := |s.frames| - 1;
    var f := s.frames[n];
    FrameNests(f, limit - n);
    PlaceNests(limit, s.(frames := s.frames[..n]), Rose(f.data, f.kids));
  }

  lemma FrameNests(f: Frame, room: int)
    requires room > 0 && forall k :: 0 <= k < |f.kids| ==> Nests(TreeOf(f.kids[k]), room - 1)
    ensures Nests(TreeOf(Rose(f.data, f.kids)), room)
  {
    TreeOfContainer(Rose(f.data, f.kids));
    hide TreeOf;
    if !f.data.kind.ObjectKind? && !f.data.kind.ArrayKind? {
      PlainTree(Rose(f.data, f.kids));
    }
  }

  lemma PlainTree(r: Rose<Data>)
    requires !r.data.kind.ObjectKind? && !r.data.kind.ArrayKind?
    ensures !TreeOf(r).Object? && !TreeOf(r).Array? && Tokens(TreeOf(r)) == 1
  {
  }

  /** A reader charges a token for each key too: at most twice the nodes of the writer. */
  lemma {:induction false} TokensWithinNodes(r: Rose<Data>)
    ensures Tokens(TreeOf(r)) <= 2 * Size(r) - 1
    decreases r, |r.kids| + 1
  {
    hide TreeOf, ItemTokens, MemberTokens, SizeUpTo;
    TreeOfContainer(r);
    KidTokens(r, |r.kids|);
    NoKidTokens(r);
    if !r.data.kind.ObjectKind? && !r.data.kind.ArrayKind? {
      PlainTree(r);
    }
  }

  lemma NoKidTokens(r: Rose<Data>)
    ensures ItemTokens(Items(r.kids), |r.kids|) == MemberTokens(Members(r.kids), |r.kids|) == 0
  {
  }

  lemma {:induction false} KidTokens(r: Rose<Data>, n: nat)
    requires n <= |r.kids|
    ensures ItemTokens(Items(r.kids), 0) <= 2 * SizeUpTo(r.kids, n) + ItemTokens(Items(r.kids), n)
    ensures MemberTokens(Members(r.kids), 0) <= 2 * SizeUpTo(r.kids, n) + MemberTokens(Members(r.kids), n)
    decreases r, n
  {
    hide TreeOf, Size, Tokens;
    if n > 0 {
      KidTokens(r, n - 1);
      TokensWithinNodes(r.kids[n - 1]);
    }
  }

  // ----- every call is a step

  lemma AttachedIsStep(a: Snapshot, b: Snapshot, accepted: Snapshot, code: Code, maximumTokens: nat)
    requires Attached(a, b, accepted, code, maximumTokens) && (Ready(a) ==> accepted.failure.Ok?)
    ensures Stepped(a, b, code)
  {
  }

  lemma RejectedIsStep(a: Snapshot, b: Snapshot, code: Code)
    requires Rejected(a, b, code)
    ensures Stepped(a, b, code)
  {
  }
}
