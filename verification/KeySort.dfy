/** The in-place merge sort of node indices by key. */
module KeySort {
  import opened Basics
  import opened Utf8
  import opened Utf16
  import opened Trees
  import opened Order
  import opened LinkedTable
  import opened Nodes

  function Before(nodes: NodeTable, a: nat, b: nat): bool {
    KeyCompare(KeyAt(nodes, a), KeyAt(nodes, b)) <= 0
  }

  function Merge(nodes: NodeTable, a: seq<nat>, b: seq<nat>): (m: seq<nat>)
    ensures |m| == |a| + |b|
  {
    if a == [] then b
    else if b == [] then a
    else if Before(nodes, a[0], b[0]) then [a[0]] + Merge(nodes, a[1..], b)
    else [b[0]] + Merge(nodes, a, b[1..])
  }

  function MergeSort(nodes: NodeTable, s: seq<nat>): (r: seq<nat>)
    ensures |r| == |s|
    decreases |s|
  {
    if |s| < 2 then s
    else Merge(nodes, MergeSort(nodes, s[..|s| / 2]), MergeSort(nodes, s[|s| / 2..]))
  }

  /** Every key of the table is validated text, as the comparison requires. */
  predicate KeysValid(nodes: NodeTable) {
    forall i :: 0 <= i < |nodes| ==> Valid(NameOf(nodes[i].data))
  }

  lemma KeyIsValid(nodes: NodeTable, i: nat)
    requires KeysValid(nodes)
    ensures Valid(KeyAt(nodes, i))
  {
  }

  lemma {:induction false} MergePermutes(nodes: NodeTable, a: seq<nat>, b: seq<nat>)
    ensures multiset(Merge(nodes, a, b)) == multiset(a) + multiset(b)
    decreases |a| + |b|
  {
    hide Before;
    if a != [] && b != [] {
      assert a == [a[0]] + a[1..] && b == [b[0]] + b[1..];
      if Before(nodes, a[0], b[0]) {
        MergePermutes(nodes, a[1..], b);
      } else {
        MergePermutes(nodes, a, b[1..]);
      }
    }
  }

  /** Sorting moves indices around and does nothing else. */
  lemma {:induction false} SortPermutesIndices(nodes: NodeTable, s: seq<nat>)
    ensures multiset(MergeSort(nodes, s)) == multiset(s)
    decreases |s|
  {
    hide Merge;
    if |s| >= 2 {
      var m := |s| / 2;
      SortPermutesIndices(nodes, s[..m]);
      SortPermutesIndices(nodes, s[m..]);
      MergePermutes(nodes, MergeSort(nodes, s[..m]), MergeSort(nodes, s[m..]));
      assert s == s[..m] + s[m..];
    }
  }

  ghost predicate Ascending(nodes: NodeTable, s: seq<nat>) {
    forall i, k :: 0 <= i < k < |s| ==> Before(nodes, s[i], s[k])
  }

  lemma BeforeTransitive(nodes: NodeTable, a: nat, b: nat, c: nat)
    requires Before(nodes, a, b) && Before(nodes, b, c)
    ensures Before(nodes, a, c)
  {
    KeyOrderTransitive(KeyAt(nodes, a), KeyAt(nodes, b), KeyAt(nodes, c));
  }

  lemma BeforeTotal(nodes: NodeTable, a: nat, b: nat)
    ensures Before(nodes, a, b) || Before(nodes, b, a)
  {
    LexAntisymmetric(Utf16Of(KeyAt(nodes, a)), Utf16Of(KeyAt(nodes, b)));
  }

  lemma ConsAscending(nodes: NodeTable, x: nat, s: seq<nat>)
    requires Ascending(nodes, s) && forall y :: y in s ==> Before(nodes, x, y)
    ensures Ascending(nodes, [x] + s)
  {
    hide Before;
    var all := [x] + s;
    forall i, k | 0 <= i < k < |all| ensures Before(nodes, all[i], all[k]) {
      if i == 0 {
        assert all[k] in s;
      }
    }
  }

  lemma HeadIsLeast(nodes: NodeTable, s: seq<nat>)
    requires Ascending(nodes, s) && s != []
    ensures Ascending(nodes, s[1..]) && forall y :: y in s[1..] ==> Before(nodes, s[0], y)
  {
    hide Before;
  }

  lemma {:induction false} MergeAscends(nodes: NodeTable, a: seq<nat>, b: seq<nat>)
    requires Ascending(nodes, a) && Ascending(nodes, b)
    ensures Ascending(nodes, Merge(nodes, a, b))
    decreases |a| + |b|
  {
    hide Before, Ascending;
    if a != [] && b != [] {
      HeadIsLeast(nodes, a);
      HeadIsLeast(nodes, b);
      BeforeTotal(nodes, a[0], b[0]);
      if Before(nodes, a[0], b[0]) {
        MergeAscends(nodes, a[1..], b);
        HeadBefore(nodes, a[0], a[1..], b);
        ConsAscending(nodes, a[0], Merge(nodes, a[1..], b));
      } else {
        MergeAscends(nodes, a, b[1..]);
        HeadBefore(nodes, b[0], b[1..], a);
        MergeSymmetricMembers(nodes, a, b[1..]);
        ConsAscending(nodes, b[0], Merge(nodes, a, b[1..]));
      }
    }
  }

  lemma MergeSymmetricMembers(nodes: NodeTable, a: seq<nat>, b: seq<nat>)
    ensures forall y :: y in Merge(nodes, a, b) <==> y in a || y in b
  {
    hide Merge;
    MergePermutes(nodes, a, b);
    forall y ensures y in Merge(nodes, a, b) <==> y in a || y in b {
      assert y in Merge(nodes, a, b) <==> y in multiset(Merge(nodes, a, b));
    }
  }

  /** A head that is before the other list's head is before everything still to come. */
  lemma HeadBefore(nodes: NodeTable, x: nat, rest: seq<nat>, other: seq<nat>)
    requires forall y :: y in rest ==> Before(nodes, x, y)
    requires other != [] && Before(nodes, x, other[0]) && Ascending(nodes, other)
    ensures forall y :: y in Merge(nodes, rest, other) ==> Before(nodes, x, y)
    ensures forall y :: y in other ==> Before(nodes, x, y)
  {
    hide Before, Merge;
    HeadIsLeast(nodes, other);
    forall y | y in other ensures Before(nodes, x, y) {
      if y != other[0] {
        BeforeTransitive(nodes, x, other[0], y);
      }
    }
    MergeSymmetricMembers(nodes, rest, other);
  }

  lemma {:induction false} SortAscends(nodes: NodeTable, s: seq<nat>)
    ensures Ascending(nodes, MergeSort(nodes, s))
    decreases |s|
  {
    hide Merge, Before;
    if |s| >= 2 {
      SortAscends(nodes, s[..|s| / 2]);
      SortAscends(nodes, s[|s| / 2..]);
      MergeAscends(nodes, MergeSort(nodes, s[..|s| / 2]), MergeSort(nodes, s[|s| / 2..]));
    }
  }

  // ----- in place

  /** One step of the merge, seen from the parts still to be merged. */
  lemma MergeStep(nodes: NodeTable, v: seq<nat>, left: nat, middle: nat, right: nat, end: nat)
    requires left <= middle <= right <= end <= |v| && (left < middle || right < end)
    ensures var takeLeft := right >= end || (left < middle && Before(nodes, v[left], v[right]));
            Merge(nodes, v[left..middle], v[right..end]) ==
            if takeLeft then [v[left]] + Merge(nodes, v[left + 1..middle], v[right..end])
            else [v[right]] + Merge(nodes, v[left..middle], v[right + 1..end])
  {
    hide Before;
    if left < middle {
      assert v[left..middle][1..] == v[left + 1..middle];
      assert v[left..middle] == [v[left]] + v[left + 1..middle];
    }
    if right < end {
      assert v[right..end][1..] == v[right + 1..end];
      assert v[right..end] == [v[right]] + v[right + 1..end];
    }
  }

  /** key_compare, as the merge asks it. */
  method ComesFirst(nodes: NodeTable, a: nat, b: nat) returns (first: bool)
    requires KeysValid(nodes)
    ensures first == Before(nodes, a, b)
  {
    hide KeyCompare, Valid;
    KeyIsValid(nodes, a);
    KeyIsValid(nodes, b);
    var order := Compare(KeyAt(nodes, a), KeyAt(nodes, b));
    first := order <= 0;
  }

  lemma MoveOver(taken: seq<nat>, x: nat, rest: seq<nat>)
    ensures (taken + [x]) + rest == taken + ([x] + rest)
  {
  }

  method Put(scratch: array<nat>, begin: nat, output: nat, x: nat)
    requires begin <= output < scratch.Length
    modifies scratch
    ensures scratch[begin..output + 1] == old(scratch[begin..output]) + [x]
  {
    scratch[output] := x;
  }

  /** The merge proper: both runs of `values` into `scratch`. */
  method MergeInto(nodes: NodeTable, values: array<nat>, scratch: array<nat>, begin: nat, middle: nat, end: nat)
    requires values != scratch && begin <= middle <= end <= values.Length == scratch.Length && KeysValid(nodes)
    modifies scratch
    ensures scratch[begin..end] == Merge(nodes, values[begin..middle], values[middle..end])
  {
    hide Merge, Before, KeysValid;
    ghost var v := values[..];
    ghost var all := Merge(nodes, v[begin..middle], v[middle..end]);
    assert v[begin..middle] == values[begin..middle] && v[middle..end] == values[middle..end];
    var left, right, output := begin, middle, begin;
    ghost var taken, rest: seq<nat> := [], all;
    while left < middle || right < end
      invariant begin <= left <= middle <= right <= end
      invariant output - begin == (left - begin) + (right - middle)
      invariant taken == scratch[begin..output] && rest == Merge(nodes, v[left..middle], v[right..end])
      invariant taken + rest == all
      decreases end - output
    {
      MergeStep(nodes, v, left, middle, right, end);
      var takeLeft := right >= end;
      if !takeLeft && left < middle {
        takeLeft := ComesFirst(nodes, values[left], values[right]);
      }
      ghost var next := if takeLeft then v[left] else v[right];
      if takeLeft {
        Put(scratch, begin, output, values[left]);
        left := left + 1;
      } else {
        Put(scratch, begin, output, values[right]);
        right := right + 1;
      }
      rest := Merge(nodes, v[left..middle], v[right..end]);
      MoveOver(taken, next, rest);
      taken := taken + [next];
      output := output + 1;
    }
    NothingToMerge(nodes);
    assert v[left..middle] == [] && v[right..end] == [];
  }

  method MergeKeys(nodes: NodeTable, values: array<nat>, scratch: array<nat>, begin: nat, middle: nat, end: nat)
    requires values != scratch && begin <= middle <= end <= values.Length == scratch.Length && KeysValid(nodes)
    modifies values, scratch
    ensures values[begin..end] == Merge(nodes, old(values[begin..middle]), old(values[middle..end]))
    ensures values[..begin] == old(values[..begin]) && values[end..] == old(values[end..])
  {
    hide Merge, KeysValid;
    MergeInto(nodes, values, scratch, begin, middle, end);
    forall k | begin <= k < end {
      values[k] := scratch[k];
    }
    assert values[begin..end] == scratch[begin..end];
  }

  lemma NothingToMerge(nodes: NodeTable)
    ensures Merge(nodes, [], []) == []
  {
  }

  method SortKeys(nodes: NodeTable, values: array<nat>, scratch: array<nat>, begin: nat, end: nat)
    requires values != scratch && begin <= end <= values.Length == scratch.Length && KeysValid(nodes)
    modifies values, scratch
    ensures values[begin..end] == MergeSort(nodes, old(values[begin..end]))
    ensures values[..begin] == old(values[..begin]) && values[end..] == old(values[end..])
    decreases end - begin
  {
    hide Merge, KeysValid;
    ghost var s := values[begin..end];
    if end - begin < 2 {
      return;
    }
    var middle := begin + (end - begin) / 2;
    ghost var v := values[..];
    Halves(v, begin, middle, end);
    assert values[begin..middle] == v[begin..middle];
    SortKeys(nodes, values, scratch, begin, middle);
    SameTail(v, values[..], middle, end);
    assert values[middle..end] == values[..][middle..end];
    SortKeys(nodes, values, scratch, middle, end);
    assert values[begin..middle] == values[..middle][begin..];
    MergeKeys(nodes, values, scratch, begin, middle, end);
  }

  lemma Halves(v: seq<nat>, begin: nat, middle: nat, end: nat)
    requires begin <= middle <= end <= |v|
    ensures v[begin..end][..middle - begin] == v[begin..middle] && v[begin..end][middle - begin..] == v[middle..end]
  {
  }

  lemma SameTail(v: seq<nat>, w: seq<nat>, middle: nat, end: nat)
    requires |v| == |w| && middle <= end <= |v| && v[middle..] == w[middle..]
    ensures v[middle..end] == w[middle..end]
  {
    assert v[middle..][..end - middle] == v[middle..end];
    assert w[middle..][..end - middle] == w[middle..end];
  }

  // ----- the sorted indices are the sorted members

  /** Position of `x` in a list that contains it. */
  function PositionIn(c: seq<nat>, x: nat): (k: nat)
    requires x in c
    ensures k < |c| && c[k] == x
  {
    if c[0] == x then 0 else 1 + PositionIn(c[1..], x)
  }

  /** The members the indices in `s` stand for, member `k` being stored at `c[k]`. */
  function Arranged(c: seq<nat>, ms: seq<Member>, s: seq<nat>): (r: seq<Member>)
    requires |c| == |ms| && forall i :: 0 <= i < |s| ==> s[i] in c
    ensures |r| == |s| && forall i :: 0 <= i < |s| ==> r[i] == ms[PositionIn(c, s[i])]
  {
    seq(|s|, i requires 0 <= i < |s| => ms[PositionIn(c, s[i])])
  }

  predicate Increasing(c: seq<nat>) {
    forall i, k :: 0 <= i < k < |c| ==> c[i] < c[k]
  }

  lemma SortedIn(nodes: NodeTable, c: seq<nat>)
    ensures forall x :: x in MergeSort(nodes, c) <==> x in c
    ensures forall i :: 0 <= i < |c| ==> MergeSort(nodes, c)[i] in c
  {
    hide MergeSort;
    SortPermutesIndices(nodes, c);
    forall x ensures x in MergeSort(nodes, c) <==> x in c {
      assert x in MergeSort(nodes, c) <==> x in multiset(MergeSort(nodes, c));
    }
  }

  lemma TwiceCounts(s: seq<nat>, i: nat, k: nat)
    requires i < k < |s|
    ensures s[i] == s[k] ==> multiset(s)[s[i]] >= 2
  {
    assert s == s[..i] + [s[i]] + s[i + 1..k] + [s[k]] + s[k + 1..];
  }

  lemma DistinctCounts(s: seq<nat>)
    requires forall x :: multiset(s)[x] <= 1
    ensures forall i, k :: 0 <= i < k < |s| ==> s[i] != s[k]
  {
    forall i, k | 0 <= i < k < |s| ensures s[i] != s[k] {
      TwiceCounts(s, i, k);
    }
  }

  lemma {:induction false} IncreasingCounts(c: seq<nat>)
    requires Increasing(c)
    ensures forall x :: multiset(c)[x] <= 1
  {
    if c != [] {
      var init, x := c[..|c| - 1], c[|c| - 1];
      IncreasingCounts(init);
      assert c == init + [x];
      assert x !in init;
    }
  }

  lemma SortedDistinct(nodes: NodeTable, c: seq<nat>)
    requires Increasing(c)
    ensures forall i, k :: 0 <= i < k < |c| ==> MergeSort(nodes, c)[i] != MergeSort(nodes, c)[k]
  {
    hide MergeSort;
    IncreasingCounts(c);
    SortPermutesIndices(nodes, c);
    DistinctCounts(MergeSort(nodes, c));
  }

  /** Keys of the arranged members rise strictly. */
  lemma ArrangedInOrder(nodes: NodeTable, c: seq<nat>, ms: seq<Member>)
    requires |c| == |ms| && Increasing(c) && KeysDistinct(ms) && ValidKeys(ms)
    requires forall k :: 0 <= k < |c| ==> KeyAt(nodes, c[k]) == ms[k].key
    requires forall i :: 0 <= i < |c| ==> MergeSort(nodes, c)[i] in c
    ensures InKeyOrder(Arranged(c, ms, MergeSort(nodes, c)))
  {
    hide MergeSort, KeyCompare, Valid, KeyAt;
    var s := MergeSort(nodes, c);
    var r := Arranged(c, ms, s);
    SortAscends(nodes, c);
    SortedDistinct(nodes, c);
    forall i, k | 0 <= i < k < |r| ensures KeyLess(r[i].key, r[k].key) {
      var a, b := PositionIn(c, s[i]), PositionIn(c, s[k]);
      assert Before(nodes, s[i], s[k]);
      assert a != b;
      assert ms[a].key != ms[b].key;
      KeyOrderTotal(ms[a].key, ms[b].key);
    }
  }

  /** Sorting indices by key in place is sorting members by key. */
  lemma SortedIndices(nodes: NodeTable, c: seq<nat>, ms: seq<Member>)
    requires |c| == |ms| && Increasing(c) && KeysDistinct(ms) && ValidKeys(ms)
    requires forall k :: 0 <= k < |c| ==> KeyAt(nodes, c[k]) == ms[k].key
    ensures forall i :: 0 <= i < |c| ==> MergeSort(nodes, c)[i] in c
    ensures Arranged(c, ms, MergeSort(nodes, c)) == SortMembers(ms)
  {
    hide MergeSort, InKeyOrder, Valid, KeyAt, SortMembers;
    SortedIn(nodes, c);
    var s := MergeSort(nodes, c);
    var r := Arranged(c, ms, s);
    ArrangedInOrder(nodes, c, ms);
    SortOrders(ms);
    forall m ensures m in r <==> m in ms {
      if m in ms {
        var k :| 0 <= k < |ms| && ms[k] == m;
        SamePosition(c, k);
        assert c[k] in s;
        var i :| 0 <= i < |s| && s[i] == c[k];
        assert r[i] == m;
      }
    }
    OrderUnique(r, SortMembers(ms));
  }

  lemma SamePosition(c: seq<nat>, k: nat)
    requires Increasing(c) && k < |c|
    ensures PositionIn(c, c[k]) == k
  {
    var p := PositionIn(c, c[k]);
    assert c[p] == c[k];
  }
}
