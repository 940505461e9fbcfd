/**
  Trees stored as a flat table of cells with parent, first, last and sibling links, appended in
  document order. Parser tokens and writer nodes share this layout and its two operations.
 */
module LinkedTable {
  import opened Basics

  datatype Links = Links(parent: nat, first: nat, last: nat, next: nat, count: nat)

  datatype Cell<T> = Cell(links: Links, data: T)

  type Table<T> = seq<Cell<T>>

  function LinksInit(parent: nat): Links {
    Links(parent, VALUE_NONE, VALUE_NONE, VALUE_NONE, 0)
  }

  /** links_append: the next index to be allocated becomes the last child of `p`, if there is a `p`. */
  function Attach<T>(t: Table<T>, p: nat): (r: Table<T>)
    ensures |r| == |t|
  {
    if p >= |t| then t
    else
      var container := t[p].links;
      if container.last == VALUE_NONE then
        t[p := t[p].(links := container.(first := |t|, last := |t|, count := container.count + 1))]
      else if container.last < |t| then
        var linked := t[container.last := t[container.last].(links := t[container.last].links.(next := |t|))];
        linked[p := linked[p].(links := linked[p].links.(last := |t|, count := container.count + 1))]
      else t
  }

  // ----- the trees a table stores

  datatype Rose<T> = Rose(data: T, kids: seq<Rose<T>>)

  function Size<T>(r: Rose<T>): (n: nat)
    ensures n >= 1
    decreases r, 0
  {
    1 + SizeUpTo(r.kids, |r.kids|)
  }

  function SizeUpTo<T>(kids: seq<Rose<T>>, n: nat): nat
    requires n <= |kids|
    decreases kids, n
  {
    if n == 0 then 0 else SizeUpTo(kids, n - 1) + Size(kids[n - 1])
  }

  /** Index of child `k` of a container stored at `i`. */
  function KidAt<T>(i: nat, kids: seq<Rose<T>>, k: nat): nat
    requires k <= |kids|
  {
    i + 1 + SizeUpTo(kids, k)
  }

  function NextOf<T>(i: nat, kids: seq<Rose<T>>, k: nat): nat
    requires k < |kids|
  {
    if k + 1 < |kids| then KidAt(i, kids, k + 1) else VALUE_NONE
  }

  /** The cell at `i` carries the links of a container with these children. */
  predicate HeadOk<T>(cell: Cell<T>, i: nat, p: nat, kids: seq<Rose<T>>) {
    && cell.links.parent == p
    && cell.links.count == |kids|
    && cell.links.first == (if kids == [] then VALUE_NONE else i + 1)
    && cell.links.last == (if kids == [] then VALUE_NONE else KidAt(i, kids, |kids| - 1))
  }

  /** The tree `r` occupies the cells from `i` on, in preorder, under parent `p`. */
  ghost predicate InTable<T>(t: Table<T>, i: nat, p: nat, r: Rose<T>)
    decreases r, 1
  {
    && i + Size(r) <= |t|
    && t[i].data == r.data
    && HeadOk(t[i], i, p, r.kids)
    && forall k :: 0 <= k < |r.kids| ==> KidOk(t, i, r.kids, k)
  }

  ghost predicate KidOk<T>(t: Table<T>, i: nat, kids: seq<Rose<T>>, k: nat)
    requires k < |kids|
    decreases kids, 0
  {
    InTable(t, KidAt(i, kids, k), i, kids[k]) && t[KidAt(i, kids, k)].links.next == NextOf(i, kids, k)
  }

  /** Appends a whole tree under `p`: the net effect of parsing or writing one value. */
  function Add<T>(t: Table<T>, p: nat, r: Rose<T>): Table<T>
    decreases r, 0
  {
    AddAll(Attach(t, p) + [Cell(LinksInit(p), r.data)], |t|, r.kids, |r.kids|)
  }

  function AddAll<T>(t: Table<T>, p: nat, rs: seq<Rose<T>>, n: nat): Table<T>
    requires n <= |rs|
    decreases rs, n
  {
    if n == 0 then t else Add(AddAll(t, p, rs, n - 1), p, rs[n - 1])
  }

  // ----- sizes

  lemma {:induction false} SizePrefix<T>(a: seq<Rose<T>>, b: seq<Rose<T>>, n: nat)
    requires n <= |a| && n <= |b| && forall k :: 0 <= k < n ==> a[k] == b[k]
    ensures SizeUpTo(a, n) == SizeUpTo(b, n)
  {
    hide Size;
    if n > 0 {
      SizePrefix(a, b, n - 1);
    }
  }

  lemma {:induction false} SizeGrows<T>(kids: seq<Rose<T>>, m: nat, n: nat)
    requires m <= n <= |kids|
    ensures SizeUpTo(kids, m) + (n - m) <= SizeUpTo(kids, n)
    decreases n - m
  {
    hide Size;
    if m < n {
      SizeGrows(kids, m, n - 1);
    }
  }

  /** Child `k` and everything below it ends where child `k + 1` would start. */
  lemma KidBounds<T>(i: nat, r: Rose<T>, k: nat)
    requires k < |r.kids|
    ensures i < KidAt(i, r.kids, k) && KidAt(i, r.kids, k) + Size(r.kids[k]) == KidAt(i, r.kids, k + 1) <= i + Size(r)
  {
    SizeGrows(r.kids, k + 1, |r.kids|);
  }

  lemma AddLeaf<T>(t: Table<T>, p: nat, data: T)
    ensures Add(t, p, Rose(data, [])) == Attach(t, p) + [Cell(LinksInit(p), data)]
  {
    hide Attach;
  }

  /** Appending a tree appends as many cells as it has nodes. */
  lemma {:induction false} AddLength<T>(t: Table<T>, p: nat, r: Rose<T>)
    ensures |Add(t, p, r)| == |t| + Size(r)
    decreases r, 0
  {
    hide Attach, AddAll, SizeUpTo;
    AddAllLength(Attach(t, p) + [Cell(LinksInit(p), r.data)], |t|, r.kids, |r.kids|);
  }

  lemma {:induction false} AddAllLength<T>(t: Table<T>, p: nat, rs: seq<Rose<T>>, n: nat)
    requires n <= |rs|
    ensures |AddAll(t, p, rs, n)| == |t| + SizeUpTo(rs, n)
    decreases rs, n
  {
    hide Add, Size;
    if n > 0 {
      AddAllLength(t, p, rs, n - 1);
      AddLength(AddAll(t, p, rs, n - 1), p, rs[n - 1]);
    }
  }

  // ----- frames

  /** Equal but for the sibling link. */
  predicate SameButNext<T(==)>(a: Cell<T>, b: Cell<T>) {
    a.data == b.data && a.links.(next := 0) == b.links.(next := 0)
  }

  /** Storage of a tree depends on its own cells only, and not on its root's sibling link. */
  lemma {:induction false} InTableFrame<T>(t: Table<T>, u: Table<T>, i: nat, p: nat, r: Rose<T>)
    requires InTable(t, i, p, r) && i + Size(r) <= |u|
    requires SameButNext(t[i], u[i])
    requires forall j :: i < j < i + Size(r) ==> t[j] == u[j]
    ensures InTable(u, i, p, r)
    decreases r
  {
    hide Size, KidAt;
    forall k | 0 <= k < |r.kids| ensures KidOk(u, i, r.kids, k) {
      assert KidOk(t, i, r.kids, k);
      KidBounds(i, r, k);
      InTableFrame(t, u, KidAt(i, r.kids, k), i, r.kids[k]);
    }
  }

  // ----- what appending does

  /** All the facts about the table after a tree was appended to `t`. */
  ghost predicate Added<T>(t: Table<T>, p: nat, r: Rose<T>, u: Table<T>) {
    && |u| == |t| + Size(r)
    && u[..|t|] == Attach(t, p)
    && InTable(u, |t|, p, r)
    && u[|t|].links.next == VALUE_NONE
    && forall j :: |t| < j < |u| ==> |t| <= u[j].links.parent < j
  }

  /** The same for a container at `i`, the last tree of the table, with children still being added. */
  ghost predicate Open<T>(t: Table<T>, i: nat, p: nat, data: T, kids: seq<Rose<T>>) {
    && InTable(t, i, p, Rose(data, kids))
    && i + Size(Rose(data, kids)) == |t|
    && t[i].links.next == VALUE_NONE
    && forall j :: i < j < |t| ==> i <= t[j].links.parent < j
  }

  lemma LastKid<T>(t: Table<T>, i: nat, p: nat, data: T, kids: seq<Rose<T>>)
    requires Open(t, i, p, data, kids) && |t| < VALUE_NONE
    ensures i < |t| && (kids == [] ==> t[i].links.last == VALUE_NONE)
    ensures kids != [] ==>
              var last := KidAt(i, kids, |kids| - 1);
              && i < last < |t| && t[i].links.last == last && t[i].links.first == i + 1
              && last + Size(kids[|kids| - 1]) == |t|
  {
    if kids != [] {
      KidBounds(i, Rose(data, kids), |kids| - 1);
    }
  }

  /** Attaching the next index to an open container. */
  lemma AttachOpen<T>(t: Table<T>, i: nat, p: nat, data: T, kids: seq<Rose<T>>)
    requires Open(t, i, p, data, kids) && |t| < VALUE_NONE
    ensures var u := Attach(t, i);
            && i < |u| == |t|
            && u[i].data == data && u[i].links.next == VALUE_NONE && u[i].links.parent == p
            && u[i].links.count == |kids| + 1 && u[i].links.last == |t| && u[i].links.first == i + 1
            && (forall j :: 0 <= j < |t| && j != i && (kids == [] || j != KidAt(i, kids, |kids| - 1)) ==> u[j] == t[j])
            && (kids != [] ==>
                  var last := KidAt(i, kids, |kids| - 1);
                  i < last < |t| && SameButNext(t[last], u[last]) && u[last].links.next == |t|)
  {
    LastKid(t, i, p, data, kids);
    hide KidAt, Size, InTable;
    OpenHead(t, i, p, data, kids);
  }

  lemma OpenHead<T>(t: Table<T>, i: nat, p: nat, data: T, kids: seq<Rose<T>>)
    requires Open(t, i, p, data, kids)
    ensures i < |t| && t[i].data == data && HeadOk(t[i], i, p, kids) && t[i].links.next == VALUE_NONE
    ensures kids == [] ==> |t| == i + 1
  {
    assert Size(Rose(data, kids)) == 1 + SizeUpTo(kids, |kids|);
  }

  /** One more child: the container stays open, with the child at the end. */
  lemma OpenGrows<T>(t: Table<T>, i: nat, p: nat, data: T, kids: seq<Rose<T>>, r: Rose<T>, u: Table<T>)
    requires Open(t, i, p, data, kids) && Added(t, i, r, u) && |u| < VALUE_NONE
    ensures Open(u, i, p, data, kids + [r]) && u[..i] == t[..i]
  {
    hide Size, InTable, KidOk;
    var all := kids + [r];
    AttachOpen(t, i, p, data, kids);
    OpenHead(t, i, p, data, kids);
    KidsEnd(t, i, p, data, kids, r);
    forall j | 0 <= j < |t| ensures u[j] == Attach(t, i)[j] {
      assert u[..|t|][j] == u[j];
    }
    OpenKids(t, i, p, data, kids, r, u);
    RootParent(u, |t|, i, r);
    forall j | i < j < |u| ensures i <= u[j].links.parent < j {
      if j < |t| {
        assert SameButNext(t[j], Attach(t, i)[j]);
      }
    }
    OpenAssemble(u, i, p, data, all);
  }

  /** Sizes and positions after adding a child. */
  lemma KidsEnd<T>(t: Table<T>, i: nat, p: nat, data: T, kids: seq<Rose<T>>, r: Rose<T>)
    requires Open(t, i, p, data, kids)
    ensures var all := kids + [r];
            && KidAt(i, all, |kids|) == |t|
            && i + Size(Rose(data, all)) == |t| + Size(r)
            && forall k :: 0 <= k <= |kids| ==> KidAt(i, all, k) == KidAt(i, kids, k)
  {
    var all := kids + [r];
    forall k | 0 <= k <= |kids| ensures KidAt(i, all, k) == KidAt(i, kids, k) {
      SizePrefix(all, kids, k);
    }
  }

  lemma OpenKids<T>(t: Table<T>, i: nat, p: nat, data: T, kids: seq<Rose<T>>, r: Rose<T>, u: Table<T>)
    requires Open(t, i, p, data, kids) && Added(t, i, r, u) && |u| < VALUE_NONE
    requires forall j :: 0 <= j < |t| ==> u[j] == Attach(t, i)[j]
    ensures forall k :: 0 <= k <= |kids| ==> KidOk(u, i, kids + [r], k)
  {
    var all := kids + [r];
    KidsEnd(t, i, p, data, kids, r);
    AttachOpen(t, i, p, data, kids);
    hide Size, KidAt, Attach, InTable, Open;
    forall k | 0 <= k <= |kids| ensures KidOk(u, i, all, k) {
      if k < |kids| {
        OldKid(t, i, p, data, kids, u, k);
      }
    }
  }

  lemma OldKid<T>(t: Table<T>, i: nat, p: nat, data: T, kids: seq<Rose<T>>, u: Table<T>, k: nat)
    requires Open(t, i, p, data, kids) && k < |kids| && |t| <= |u| && |t| < VALUE_NONE
    requires forall j :: 0 <= j < |t| && j != i && j != KidAt(i, kids, |kids| - 1) ==> u[j] == t[j]
    requires var last := KidAt(i, kids, |kids| - 1); i < last < |t| && SameButNext(t[last], u[last])
    ensures KidAt(i, kids, k) < |t| && InTable(u, KidAt(i, kids, k), i, kids[k])
    ensures k + 1 < |kids| ==> u[KidAt(i, kids, k)].links.next == KidAt(i, kids, k + 1)
  {
    hide Size, InTable, Attach;
    var at := KidAt(i, kids, k);
    assert KidOk(t, i, kids, k) by {
      OpenKid(t, i, p, data, kids, k);
    }
    KidBounds(i, Rose(data, kids), k);
    LastAfter(i, kids, k);
    InTableFrame(t, u, at, i, kids[k]);
  }

  lemma OpenKid<T>(t: Table<T>, i: nat, p: nat, data: T, kids: seq<Rose<T>>, k: nat)
    requires Open(t, i, p, data, kids) && k < |kids|
    ensures KidOk(t, i, kids, k) && KidAt(i, kids, k) + Size(kids[k]) <= |t|
  {
    KidBounds(i, Rose(data, kids), k);
  }

  lemma LastAfter<T>(i: nat, kids: seq<Rose<T>>, k: nat)
    requires k < |kids|
    ensures k + 1 < |kids| ==> KidAt(i, kids, k) + Size(kids[k]) <= KidAt(i, kids, |kids| - 1)
  {
    if k + 1 < |kids| {
      SizeGrows(kids, k + 1, |kids| - 1);
    }
  }

  lemma OpenAssemble<T>(u: Table<T>, i: nat, p: nat, data: T, kids: seq<Rose<T>>)
    requires i < |u| && i + Size(Rose(data, kids)) == |u| && kids != []
    requires u[i].data == data && HeadOk(u[i], i, p, kids) && u[i].links.next == VALUE_NONE
    requires forall k :: 0 <= k < |kids| ==> KidOk(u, i, kids, k)
    requires forall j :: i < j < |u| ==> i <= u[j].links.parent < j
    ensures Open(u, i, p, data, kids)
  {
  }

  lemma OpenLeaf<T>(t: Table<T>, p: nat, data: T)
    ensures Open(t + [Cell(LinksInit(p), data)], |t|, p, data, [])
  {
    assert Size(Rose(data, [])) == 1 + SizeUpTo<T>([], 0);
  }

  /** Appending a whole tree. */
  lemma {:induction false} AddShape<T>(t: Table<T>, p: nat, r: Rose<T>)
    requires |t| + Size(r) < VALUE_NONE
    ensures Added(t, p, r, Add(t, p, r))
    decreases r, 0
  {
    hide InTable, Attach, AddAll;
    var head := Attach(t, p) + [Cell(LinksInit(p), r.data)];
    OpenLeaf(Attach(t, p), p, r.data);
    AddAllShape(head, |t|, p, r.data, r.kids, |r.kids|);
    assert r.kids[..|r.kids|] == r.kids;
    assert Rose(r.data, r.kids) == r;
    var u := Add(t, p, r);
    assert u[..|t|] == head[..|t|] == Attach(t, p);
  }

  lemma {:induction false} AddAllShape<T>(head: Table<T>, i: nat, p: nat, data: T, rs: seq<Rose<T>>, n: nat)
    requires n <= |rs| && Open(head, i, p, data, []) && |head| + SizeUpTo(rs, n) < VALUE_NONE
    ensures var u := AddAll(head, i, rs, n);
            && Open(u, i, p, data, rs[..n]) && |u| == |head| + SizeUpTo(rs, n) && |u| >= i && u[..i] == head[..i]
    decreases rs, n
  {
    hide Open, InTable, Size;
    if n == 0 {
      assert rs[..0] == [];
      OpenFits(head, i, p, data, []);
    } else {
      AddAllShape(head, i, p, data, rs, n - 1);
      var t := AddAll(head, i, rs, n - 1);
      AddShape(t, i, rs[n - 1]);
      OpenGrows(t, i, p, data, rs[..n - 1], rs[n - 1], Add(t, i, rs[n - 1]));
      assert rs[..n - 1] + [rs[n - 1]] == rs[..n];
      OpenFits(Add(t, i, rs[n - 1]), i, p, data, rs[..n]);
    }
  }

  lemma OpenFits<T>(t: Table<T>, i: nat, p: nat, data: T, kids: seq<Rose<T>>)
    requires Open(t, i, p, data, kids)
    ensures i < |t|
  {
  }

  /** The table built from nothing stores the tree, and every other cell's parent comes before it. */
  lemma BuiltTable<T>(r: Rose<T>)
    requires Size(r) < VALUE_NONE
    ensures var t := Add([], VALUE_NONE, r);
            && |t| == Size(r) && InTable(t, 0, VALUE_NONE, r) && t[0].links.next == VALUE_NONE
            && forall j :: 0 < j < |t| ==> t[j].links.parent < j
  {
    hide InTable, Size, Add;
    AddShape([], VALUE_NONE, r);
  }

  // ----- which cells are children of a container

  /** A cell below a stored container whose parent link names it is one of its children. */
  lemma {:induction false} ParentIsExact<T>(t: Table<T>, i: nat, p: nat, r: Rose<T>, j: nat) returns (k: nat)
    requires InTable(t, i, p, r) && i < j < i + Size(r) && t[j].links.parent == i
    ensures k < |r.kids| && j == KidAt(i, r.kids, k)
  {
    hide Size, InTable;
    k := Covering(i, r, j);
    var at := KidAt(i, r.kids, k);
    InTableKid(t, i, p, r, k);
    if at < j {
      InnerParents(t, at, i, r.kids[k], j);
    }
  }

  lemma InTableKid<T>(t: Table<T>, i: nat, p: nat, r: Rose<T>, k: nat)
    requires InTable(t, i, p, r) && k < |r.kids|
    ensures KidOk(t, i, r.kids, k) && KidAt(i, r.kids, k) < |t|
  {
    KidBounds(i, r, k);
  }

  lemma {:induction false} InnerParents<T>(t: Table<T>, i: nat, p: nat, r: Rose<T>, j: nat)
    requires InTable(t, i, p, r) && i < j < i + Size(r)
    ensures i <= t[j].links.parent < j
    decreases r
  {
    hide Size, InTable;
    var k := Covering(i, r, j);
    var at := KidAt(i, r.kids, k);
    InTableKid(t, i, p, r, k);
    if at < j {
      InnerParents(t, at, i, r.kids[k], j);
    } else {
      RootParent(t, at, i, r.kids[k]);
    }
  }

  lemma RootParent<T>(t: Table<T>, i: nat, p: nat, r: Rose<T>)
    requires InTable(t, i, p, r)
    ensures i < |t| && t[i].links.parent == p && t[i].data == r.data && HeadOk(t[i], i, p, r.kids)
  {
  }

  /** The child whose cells contain index `j`. */
  lemma Covering<T>(i: nat, r: Rose<T>, j: nat) returns (k: nat)
    requires i < j < i + Size(r)
    ensures k < |r.kids| && KidAt(i, r.kids, k) <= j < KidAt(i, r.kids, k) + Size(r.kids[k])
    ensures i < KidAt(i, r.kids, k)
  {
    k := 0;
    while k + 1 < |r.kids| && KidAt(i, r.kids, k + 1) <= j
      invariant k < |r.kids| || |r.kids| == 0
      invariant k <= |r.kids| && KidAt(i, r.kids, k) <= j
    {
      k := k + 1;
    }
    KidBounds(i, r, k);
  }

  // ----- walking the sibling chain

  /** Where a walk along the children stands after `k` of them. */
  function KidOrNone<T>(i: nat, kids: seq<Rose<T>>, k: nat): nat {
    if k < |kids| then KidAt(i, kids, k) else VALUE_NONE
  }

  lemma FirstLink<T>(t: Table<T>, i: nat, p: nat, r: Rose<T>)
    requires InTable(t, i, p, r)
    ensures i < |t| && t[i].links.first == KidOrNone(i, r.kids, 0) && t[i].links.count == |r.kids|
    ensures t[i].data == r.data
  {
    RootParent(t, i, p, r);
    hide InTable, Size;
  }

  lemma NextLink<T>(t: Table<T>, i: nat, p: nat, r: Rose<T>, k: nat)
    requires InTable(t, i, p, r) && |t| < VALUE_NONE
    ensures k < |r.kids| ==>
              var at := KidAt(i, r.kids, k);
              && at < |t| && InTable(t, at, i, r.kids[k]) && KidOrNone(i, r.kids, k) == at < VALUE_NONE
              && t[at].links.next == KidOrNone(i, r.kids, k + 1) && t[at].data == r.kids[k].data
  {
    if k < |r.kids| {
      InTableKid(t, i, p, r, k);
      hide InTable, Size, KidAt;
      RootParent(t, KidAt(i, r.kids, k), i, r.kids[k]);
    }
  }
}
