/** Laying out the children of every container contiguously, and finding the child at a position. */
module Children {
  import opened Basics
  import opened Trees
  import opened LinkedTable
  import opened TokenTable
  import opened Parser

  predicate IsContainer(info: Info) {
    info.kind.ObjectKind? || info.kind.ArrayKind?
  }

  /** Only containers have children. */
  predicate LeavesBare(r: Rose<Info>) {
    && (!IsContainer(r.data) ==> r.kids == [])
    && forall k :: 0 <= k < |r.kids| ==> LeavesBare(r.kids[k])
  }

  lemma {:induction false} TreeLeavesBare(j: Json)
    ensures LeavesBare(RoseOf(j))
    decreases j
  {
    match j {
      case Array(items) =>
        ArrayRose(items);
        forall k | 0 <= k < |items| ensures LeavesBare(ItemRoses(items)[k]) {
          TreeLeavesBare(items[k]);
        }
      case Object(ms) =>
        ObjectRose(ms);
        forall k | 0 <= k < 2 * |ms| ensures LeavesBare(MemberRoses(ms)[k]) {
          if k % 2 == 1 {
            TreeLeavesBare(ms[k / 2].value);
          }
        }
      case _ =>
    }
  }

  /** Children of all containers before index `n`. */
  function ChildrenBefore(t: Table<Info>, n: nat): nat
    requires n <= |t|
  {
    if n == 0 then 0 else ChildrenBefore(t, n - 1) + t[n - 1].links.count
  }

  lemma {:induction false} ChildrenGrow(t: Table<Info>, m: nat, n: nat)
    requires m <= n <= |t|
    ensures ChildrenBefore(t, m) <= ChildrenBefore(t, n)
    decreases n - m
  {
    if m < n {
      ChildrenGrow(t, m, n - 1);
    }
  }

  /** A stored tree has one child entry for every cell but its root. */
  lemma {:induction false} ChildrenOfTree(t: Table<Info>, i: nat, p: nat, r: Rose<Info>)
    requires InTable(t, i, p, r)
    ensures i + Size(r) <= |t| && ChildrenBefore(t, i + Size(r)) == ChildrenBefore(t, i) + Size(r) - 1
    decreases r, |r.kids| + 1
  {
    hide InTable, SizeUpTo;
    RootParent(t, i, p, r);
    KidsFit(t, i, p, r);
    ChildrenOfKids(t, i, p, r, |r.kids|);
  }

  lemma KidsFit(t: Table<Info>, i: nat, p: nat, r: Rose<Info>)
    requires InTable(t, i, p, r)
    ensures i + 1 + SizeUpTo(r.kids, |r.kids|) == i + Size(r) <= |t| && SizeUpTo(r.kids, 0) == 0
    ensures ChildrenBefore(t, i + 1) == ChildrenBefore(t, i) + |r.kids|
  {
  }

  lemma {:induction false} ChildrenOfKids(t: Table<Info>, i: nat, p: nat, r: Rose<Info>, n: nat)
    requires InTable(t, i, p, r) && n <= |r.kids|
    ensures KidAt(i, r.kids, n) <= |t|
    ensures ChildrenBefore(t, KidAt(i, r.kids, n)) + n == ChildrenBefore(t, i) + |r.kids| + SizeUpTo(r.kids, n)
    decreases r, n
  {
    hide InTable, Size, ChildrenBefore;
    KidsFit(t, i, p, r);
    if n > 0 {
      ChildrenOfKids(t, i, p, r, n - 1);
      InTableKid(t, i, p, r, n - 1);
      ChildrenOfTree(t, KidAt(i, r.kids, n - 1), i, r.kids[n - 1]);
    }
  }

  /** The tree stored at each index of a stored tree. */
  lemma {:induction false} NodeAt(t: Table<Info>, i: nat, p: nat, r: Rose<Info>, j: nat) returns (q: nat, s: Rose<Info>)
    requires InTable(t, i, p, r) && LeavesBare(r) && i <= j < i + Size(r)
    ensures InTable(t, j, q, s) && LeavesBare(s)
    decreases r
  {
    if i == j {
      q, s := p, r;
    } else {
      hide InTable, Size;
      var k := Covering(i, r, j);
      InTableKid(t, i, p, r, k);
      q, s := NodeAt(t, KidAt(i, r.kids, k), i, r.kids[k], j);
    }
  }

  /** The element at a position of a container's sibling chain. */
  function ChainAt(t: Table<Info>, i: nat, k: nat): nat
    requires i < |t|
  {
    if k == 0 then t[i].links.first
    else
      var before := ChainAt(t, i, k - 1);
      if before < |t| then t[before].links.next else VALUE_NONE
  }

  /** The chain of a stored container lists its children in order and then ends. */
  lemma {:induction false} ChainIsKids(t: Table<Info>, i: nat, p: nat, r: Rose<Info>, k: nat)
    requires InTable(t, i, p, r) && k <= |r.kids| && |t| < VALUE_NONE
    ensures i < |t|
    ensures ChainAt(t, i, k) == if k < |r.kids| then KidAt(i, r.kids, k) else VALUE_NONE
    ensures k < |r.kids| ==> ChainAt(t, i, k) < |t|
    decreases k
  {
    hide InTable, Size;
    RootParent(t, i, p, r);
    if k < |r.kids| {
      InTableKid(t, i, p, r, k);
    }
    if k > 0 {
      ChainIsKids(t, i, p, r, k - 1);
      InTableKid(t, i, p, r, k - 1);
    } else {
      assert SizeUpTo(r.kids, 0) == 0;
    }
  }

  // ----- the array of children

  /** The chain of the container at `i` is laid out where the running count of children says. */
  ghost predicate LaidAt(tokens: seq<Token>, children: seq<nat>, i: nat)
    requires i < |tokens|
  {
    && tokens[i].childrenOffset == ChildrenBefore(Cells(tokens), i)
    && tokens[i].childrenOffset + tokens[i].cell.links.count <= |children|
    && forall k :: 0 <= k < tokens[i].cell.links.count ==>
         children[tokens[i].childrenOffset + k] == ChainAt(Cells(tokens), i, k)
  }

  ghost predicate LaidUpTo(tokens: seq<Token>, children: seq<nat>, n: nat)
    requires n <= |tokens|
  {
    forall i :: 0 <= i < n && IsContainer(tokens[i].cell.data) ==> LaidAt(tokens, children, i)
  }

  ghost predicate Laid(tokens: seq<Token>, children: seq<nat>) {
    LaidUpTo(tokens, children, |tokens|)
  }

  lemma OffsetChangesNoLink(tokens: seq<Token>, i: nat, offset: nat)
    requires i < |tokens|
    ensures Cells(tokens[i := tokens[i].(childrenOffset := offset)]) == Cells(tokens)
  {
    assert Cells(tokens[i := tokens[i].(childrenOffset := offset)]) == Cells(tokens);
  }

  /** One more container laid out, after all earlier ones. */
  lemma LaidMore(tokens: seq<Token>, children: seq<nat>, after: seq<Token>, more: seq<nat>, i: nat)
    requires i < |tokens| && LaidUpTo(tokens, children, i) && |more| == |children|
    requires IsContainer(tokens[i].cell.data)
    requires var cursor := ChildrenBefore(Cells(tokens), i);
             && after == tokens[i := tokens[i].(childrenOffset := cursor)]
             && cursor + tokens[i].cell.links.count <= |more|
             && more[..cursor] == children[..cursor]
             && forall k :: 0 <= k < tokens[i].cell.links.count ==> more[cursor + k] == ChainAt(Cells(tokens), i, k)
    ensures LaidUpTo(after, more, i + 1) && Cells(after) == Cells(tokens)
  {
    var cursor := ChildrenBefore(Cells(tokens), i);
    OffsetChangesNoLink(tokens, i, cursor);
    hide ChildrenBefore, ChainAt, Cells, IsContainer, LaidAt;
    forall j | 0 <= j < i + 1 && IsContainer(after[j].cell.data) ensures LaidAt(after, more, j) {
      if j < i {
        LaidBefore(tokens, children, more, j, i);
        SameLaid(tokens, after, more, j);
      } else {
        LaidHere(tokens, after, more, i);
      }
    }
  }

  lemma SameLaid(tokens: seq<Token>, after: seq<Token>, more: seq<nat>, j: nat)
    requires j < |tokens| == |after| && Cells(after) == Cells(tokens) && after[j] == tokens[j]
    requires LaidAt(tokens, more, j)
    ensures LaidAt(after, more, j)
  {
    hide ChildrenBefore, ChainAt, Cells;
  }

  lemma LaidHere(tokens: seq<Token>, after: seq<Token>, more: seq<nat>, i: nat)
    requires i < |tokens| == |after| && Cells(after) == Cells(tokens) && after[i].cell == tokens[i].cell
    requires var cursor := ChildrenBefore(Cells(tokens), i);
             && after[i].childrenOffset == cursor && cursor + tokens[i].cell.links.count <= |more|
             && forall k :: 0 <= k < tokens[i].cell.links.count ==> more[cursor + k] == ChainAt(Cells(tokens), i, k)
    ensures LaidAt(after, more, i)
  {
    hide ChildrenBefore, ChainAt, Cells;
  }

  lemma LaidBefore(tokens: seq<Token>, children: seq<nat>, more: seq<nat>, j: nat, i: nat)
    requires j < i < |tokens| && LaidAt(tokens, children, j) && |more| == |children|
    requires var cursor := ChildrenBefore(Cells(tokens), i);
             cursor <= |more| && more[..cursor] == children[..cursor]
    ensures LaidAt(tokens, more, j)
  {
    hide ChainAt;
    var cursor := ChildrenBefore(Cells(tokens), i);
    ChildrenGrow(Cells(tokens), j + 1, i);
    forall k | 0 <= k < tokens[j].cell.links.count
      ensures more[tokens[j].childrenOffset + k] == ChainAt(Cells(tokens), j, k)
    {
      var at := tokens[j].childrenOffset + k;
      assert more[..cursor][at] == children[..cursor][at];
    }
  }

  /** What the loop knows about the container at `i` before it walks its chain. */
  lemma NodeCounts(t: Table<Info>, r: Rose<Info>, i: nat) returns (q: nat, s: Rose<Info>)
    requires InTable(t, 0, VALUE_NONE, r) && LeavesBare(r) && Size(r) == |t| && i < |t|
    ensures InTable(t, i, q, s) && LeavesBare(s) && t[i].data == s.data && t[i].links.count == |s.kids|
    ensures ChildrenBefore(t, i + 1) == ChildrenBefore(t, i) + |s.kids| <= ChildrenBefore(t, |t|) == |t| - 1
  {
    hide InTable, LeavesBare, Size;
    q, s := NodeAt(t, 0, VALUE_NONE, r, i);
    RootParent(t, i, q, s);
    ChildrenGrow(t, i + 1, |t|);
    ChildrenOfTree(t, 0, VALUE_NONE, r);
  }

  lemma ChainLinks(tokens: seq<Token>, i: nat, k: nat)
    requires i < |tokens|
    ensures ChainAt(Cells(tokens), i, 0) == tokens[i].cell.links.first
    ensures var at := ChainAt(Cells(tokens), i, k);
            at < |tokens| ==> ChainAt(Cells(tokens), i, k + 1) == tokens[at].cell.links.next
  {
  }

  /** The walk along one chain. */
  method FillChain(tokens: seq<Token>, children: array<nat>, i: nat, from: nat, ghost q: nat, ghost s: Rose<Info>)
    returns (cursor: nat)
    requires i < |tokens| < VALUE_NONE && InTable(Cells(tokens), i, q, s)
    requires from + |s.kids| <= children.Length
    modifies children
    ensures cursor == from + |s.kids| && children[..from] == old(children[..from])
    ensures forall k :: 0 <= k < |s.kids| ==> children[from + k] == ChainAt(Cells(tokens), i, k)
  {
    hide InTable, Cells, ChainAt;
    ghost var t := Cells(tokens);
    cursor := from;
    var child := tokens[i].cell.links.first;
    ChainLinks(tokens, i, 0);
    ChainIsKids(t, i, q, s, 0);
    while child != VALUE_NONE
      invariant from <= cursor <= from + |s.kids|
      invariant child == ChainAt(t, i, cursor - from)
      invariant child == VALUE_NONE <==> cursor - from == |s.kids|
      invariant children[..from] == old(children[..from])
      invariant forall k :: 0 <= k < cursor - from ==> children[from + k] == ChainAt(t, i, k)
      decreases from + |s.kids| - cursor
    {
      ChainIsKids(t, i, q, s, cursor - from);
      ChainIsKids(t, i, q, s, cursor - from + 1);
      ChainLinks(tokens, i, cursor - from);
      children[cursor] := child;
      cursor := cursor + 1;
      child := tokens[child].cell.links.next;
    }
  }

  /** build_children: the loop over all tokens. */
  method BuildChildren(document: Document, ghost r: Rose<Info>) returns (children: array<nat>)
    requires InTable(Cells(document.tokens), 0, VALUE_NONE, r) && LeavesBare(r)
    requires Size(r) == |document.tokens| < VALUE_NONE
    modifies document`tokens
    ensures fresh(children) && children.Length == |document.tokens| == |old(document.tokens)|
    ensures Cells(document.tokens) == Cells(old(document.tokens))
    ensures Laid(document.tokens, children[..])
    // Every entry but the last is used: the assertion that closes the loop.
    ensures ChildrenBefore(Cells(document.tokens), |document.tokens|) + 1 == |document.tokens|
  {
    hide InTable, LeavesBare, Size, Cells, ChainAt, LaidAt, IsContainer, ChildrenBefore;
    ghost var t := Cells(document.tokens);
    var total := |document.tokens|;
    children := new nat[total](_ => 0);
    var cursor, i := 0, 0;
    StartCount(t);
    while i < total
      invariant 0 <= i <= total == |document.tokens| == children.Length && Cells(document.tokens) == t
      invariant cursor == ChildrenBefore(t, i) <= total - 1
      invariant LaidUpTo(document.tokens, children[..], i)
    {
      ghost var q, s := NodeCounts(t, r, i);
      SameCell(document.tokens, t, i);
      var token := document.tokens[i];
      if IsContainer(token.cell.data) {
        ghost var before, slots := document.tokens, children[..];
        ghost var from := cursor;
        document.tokens := document.tokens[i := token.(childrenOffset := cursor)];
        OffsetChangesNoLink(before, i, cursor);
        cursor := FillChain(document.tokens, children, i, cursor, q, s);
        assert children[..][..from] == children[..from] && slots[..from] == slots[..][..from];
        LaidMore(before, slots, document.tokens, children[..], i);
      } else {
        BareLeaf(s);
      }
      i := i + 1;
    }
    ChildrenOfTree(t, 0, VALUE_NONE, r);
  }

  lemma StartCount(t: Table<Info>)
    ensures ChildrenBefore(t, 0) == 0
  {
  }

  lemma SameCell(tokens: seq<Token>, t: Table<Info>, i: nat)
    requires Cells(tokens) == t && i < |tokens|
    ensures tokens[i].cell == t[i]
  {
    assert Cells(tokens)[i] == tokens[i].cell;
  }

  lemma BareLeaf(s: Rose<Info>)
    requires LeavesBare(s) && !IsContainer(s.data)
    ensures |s.kids| == 0
  {
  }

  /** child_at: the entry is the child at the position. */
  method ChildAt(tokens: seq<Token>, children: array<nat>, i: nat, position: nat, ghost q: nat, ghost s: Rose<Info>)
    returns (child: nat)
    requires Laid(tokens, children[..]) && i < |tokens| < VALUE_NONE && IsContainer(tokens[i].cell.data)
    requires InTable(Cells(tokens), i, q, s) && position < tokens[i].cell.links.count
    ensures position < |s.kids| && child == KidAt(i, s.kids, position) < |tokens|
    ensures InTable(Cells(tokens), child, i, s.kids[position])
  {
    hide InTable, Cells, ChainAt, IsContainer;
    assert LaidAt(tokens, children[..], i);
    SameCell(tokens, Cells(tokens), i);
    RootParent(Cells(tokens), i, q, s);
    ChainIsKids(Cells(tokens), i, q, s, position);
    InTableKid(Cells(tokens), i, q, s, position);
    assert children[..][tokens[i].childrenOffset + position] == ChainAt(Cells(tokens), i, position);
    child := children[tokens[i].childrenOffset + position];
  }
}
