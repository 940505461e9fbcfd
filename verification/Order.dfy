/** Canonical member order: sorting trees by UTF-16 keys, and what sorting keeps. */
module Order {
  import opened Basics
  import opened Utf8
  import opened Utf16
  import opened Trees
  import opened TextEscape
  import opened Acceptance
  import opened Reader

  /** Members in strictly ascending key order. */
  ghost predicate InKeyOrder(ms: seq<Member>) {
    forall i, k :: 0 <= i < k < |ms| ==> KeyLess(ms[i].key, ms[k].key)
  }

  function Insert(m: Member, ms: seq<Member>): (r: seq<Member>)
    ensures |r| == |ms| + 1
  {
    if ms == [] || KeyCompare(m.key, ms[0].key) <= 0 then [m] + ms
    else [ms[0]] + Insert(m, ms[1..])
  }

  function SortMembers(ms: seq<Member>): (r: seq<Member>)
    ensures |r| == |ms|
  {
    if ms == [] then [] else Insert(ms[0], SortMembers(ms[1..]))
  }

  /** The tree with the members of every object in key order. */
  function Sorted(j: Json): Json {
    match j
    case Array(items) => Array(seq(|items|, k requires 0 <= k < |items| => Sorted(items[k])))
    case Object(ms) =>
      Object(SortMembers(seq(|ms|, k requires 0 <= k < |ms| => Member(ms[k].key, Sorted(ms[k].value)))))
    case _ => j
  }

  /** Every object of the tree already has its members in key order. */
  ghost predicate InOrder(j: Json) {
    match j
    case Array(items) => forall k :: 0 <= k < |items| ==> InOrder(items[k])
    case Object(ms) => InKeyOrder(ms) && forall k :: 0 <= k < |ms| ==> InOrder(ms[k].value)
    case _ => true
  }

  predicate ValidKeys(ms: seq<Member>) {
    forall k :: 0 <= k < |ms| ==> Valid(ms[k].key)
  }

  lemma {:induction false} InsertPermutes(m: Member, ms: seq<Member>)
    ensures multiset(Insert(m, ms)) == multiset{m} + multiset(ms)
  {
    hide KeyCompare;
    if ms != [] {
      assert ms == [ms[0]] + ms[1..];
      InsertPermutes(m, ms[1..]);
    }
  }

  lemma {:induction false} SortPermutes(ms: seq<Member>)
    ensures multiset(SortMembers(ms)) == multiset(ms)
  {
    hide Insert;
    if ms != [] {
      SortPermutes(ms[1..]);
      InsertPermutes(ms[0], SortMembers(ms[1..]));
      assert ms == [ms[0]] + ms[1..];
    }
  }

  lemma SameMembers(a: seq<Member>, b: seq<Member>, m: Member)
    requires multiset(a) == multiset(b)
    ensures m in a <==> m in b
  {
    assert m in multiset(a) <==> m in multiset(b);
  }

  lemma KeyLessStrict(a: Bytes, b: Bytes)
    requires KeyLess(a, b)
    ensures a != b && !KeyLess(b, a)
  {
    LexAntisymmetric(Utf16Of(a), Utf16Of(b));
    LexZero(Utf16Of(a), Utf16Of(a));
  }

  lemma {:induction false} InsertOrders(m: Member, ms: seq<Member>)
    requires InKeyOrder(ms) && ValidKeys(ms) && Valid(m.key) && !HasKey(ms, m.key)
    ensures InKeyOrder(Insert(m, ms)) && ValidKeys(Insert(m, ms))
    ensures forall x :: x in Insert(m, ms) <==> x == m || x in ms
  {
    hide KeyCompare, Valid;
    if ms == [] {
    } else {
      KeyOrderTotal(m.key, ms[0].key);
      assert ms == [ms[0]] + ms[1..];
      if KeyCompare(m.key, ms[0].key) <= 0 {
        forall k | 0 <= k < |ms| ensures KeyLess(m.key, ms[k].key) {
          if k > 0 {
            KeyOrderTransitive(m.key, ms[0].key, ms[k].key);
          }
        }
      } else {
        InsertOrders(m, ms[1..]);
        InsertAfter(ms[0], m, ms[1..]);
      }
    }
  }

  lemma InsertAfter(head: Member, m: Member, tail: seq<Member>)
    requires InKeyOrder([head] + tail) && KeyLess(head.key, m.key)
    requires InKeyOrder(Insert(m, tail)) && forall x :: x in Insert(m, tail) <==> x == m || x in tail
    ensures InKeyOrder([head] + Insert(m, tail))
  {
    hide KeyLess, Insert;
    var r := Insert(m, tail);
    forall k | 0 <= k < |r| ensures KeyLess(head.key, r[k].key) {
      assert r[k] in r;
      if r[k] != m {
        var i :| 0 <= i < |tail| && tail[i] == r[k];
        assert ([head] + tail)[0] == head && ([head] + tail)[i + 1] == tail[i];
      }
    }
  }

  lemma {:induction false} SortOrders(ms: seq<Member>)
    requires KeysDistinct(ms) && ValidKeys(ms)
    ensures InKeyOrder(SortMembers(ms)) && ValidKeys(SortMembers(ms))
    ensures forall x :: x in SortMembers(ms) <==> x in ms
  {
    hide KeyLess, Insert, Valid;
    if ms != [] {
      var tail := SortMembers(ms[1..]);
      SortOrders(ms[1..]);
      assert ms == [ms[0]] + ms[1..];
      forall k | 0 <= k < |tail| ensures tail[k].key != ms[0].key {
        assert tail[k] in ms[1..];
        var i :| 0 <= i < |ms[1..]| && ms[1..][i] == tail[k];
        assert ms[i + 1] == tail[k];
      }
      InsertOrders(ms[0], tail);
    }
  }

  /** Two strictly ordered member lists with the same members are equal. */
  lemma {:induction false} OrderUnique(a: seq<Member>, b: seq<Member>)
    requires InKeyOrder(a) && InKeyOrder(b)
    requires forall m :: m in a <==> m in b
    ensures a == b
  {
    hide KeyLess;
    assert a != [] ==> a[0] in a;
    assert b != [] ==> b[0] in b;
    if a != [] {
      HeadsAgree(a, b);
      forall m ensures m in a[1..] <==> m in b[1..] {
        TailHas(a, m);
        TailHas(b, m);
      }
      OrderUnique(a[1..], b[1..]);
      assert a == [a[0]] + a[1..] && b == [b[0]] + b[1..];
    }
  }

  lemma HeadsAgree(a: seq<Member>, b: seq<Member>)
    requires InKeyOrder(a) && InKeyOrder(b) && a != [] && b != []
    requires a[0] in b && b[0] in a
    ensures a[0] == b[0]
  {
    hide KeyLess;
    var i :| 0 <= i < |b| && b[i] == a[0];
    var k :| 0 <= k < |a| && a[k] == b[0];
    if i > 0 && k > 0 {
      KeyLessStrict(a[0].key, a[k].key);
    }
  }

  lemma TailHas(a: seq<Member>, m: Member)
    requires InKeyOrder(a) && a != []
    ensures m in a[1..] <==> m in a && m != a[0]
  {
    hide KeyLess;
    assert a == [a[0]] + a[1..];
    if m in a[1..] {
      var k :| 0 <= k < |a[1..]| && a[1..][k] == m;
      assert a[k + 1] == m;
      KeyLessStrict(a[0].key, a[k + 1].key);
    }
  }

  lemma {:induction false} SortFixed(ms: seq<Member>)
    requires InKeyOrder(ms)
    ensures SortMembers(ms) == ms
  {
    if ms != [] {
      SortFixed(ms[1..]);
      assert ms == [ms[0]] + ms[1..];
      if |ms| > 1 {
        assert KeyLess(ms[0].key, ms[1].key);
      }
    }
  }

  // ----- sorting whole trees

  /** The member list that `Sorted` hands to `SortMembers`. */
  function SortedValues(ms: seq<Member>): (r: seq<Member>)
    ensures |r| == |ms| && forall k :: 0 <= k < |ms| ==> r[k] == Member(ms[k].key, Sorted(ms[k].value))
  {
    seq(|ms|, k requires 0 <= k < |ms| => Member(ms[k].key, Sorted(ms[k].value)))
  }

  lemma SortedObject(ms: seq<Member>)
    ensures Sorted(Object(ms)) == Object(SortMembers(SortedValues(ms)))
  {
    assert SortedValues(ms) == seq(|ms|, k requires 0 <= k < |ms| => Member(ms[k].key, Sorted(ms[k].value)));
  }

  lemma CarriedKeys(profile: Profile, ms: seq<Member>)
    requires forall k :: 0 <= k < |ms| ==> Printable(profile, ms[k].key)
    ensures ValidKeys(ms)
  {
    forall k | 0 <= k < |ms| ensures Valid(ms[k].key) {
      if profile.ContractAscii? {
        AsciiIsValid(ms[k].key, 0);
      }
    }
  }

  /** Sorting leaves every object of a tree with distinct keys in order. */
  lemma {:induction false} SortedInOrder(profile: Profile, j: Json)
    requires Carried(profile, j) && Distinct(j)
    ensures InOrder(Sorted(j))
    decreases j
  {
    hide SortMembers, InKeyOrder, Printable, KeysDistinct, SortedValues;
    match j {
      case Array(items) =>
        forall k | 0 <= k < |items| ensures InOrder(Sorted(items[k])) {
          SortedInOrder(profile, items[k]);
        }
      case Object(ms) =>
        var vs := SortedValues(ms);
        forall k | 0 <= k < |ms| ensures InOrder(vs[k].value) {
          SortedInOrder(profile, ms[k].value);
        }
        CarriedKeys(profile, ms);
        SameKeys(ms, vs);
        SortOrders(vs);
        SortedObject(ms);
        AllInOrder(vs, SortMembers(vs));
      case _ =>
    }
  }

  lemma SameKeys(ms: seq<Member>, vs: seq<Member>)
    requires |ms| == |vs| && forall k :: 0 <= k < |ms| ==> vs[k].key == ms[k].key
    ensures KeysDistinct(ms) ==> KeysDistinct(vs)
    ensures ValidKeys(ms) ==> ValidKeys(vs)
  {
    hide Valid;
  }

  lemma AllInOrder(vs: seq<Member>, sorted: seq<Member>)
    requires forall x :: x in sorted <==> x in vs
    requires forall k :: 0 <= k < |vs| ==> InOrder(vs[k].value)
    ensures forall k :: 0 <= k < |sorted| ==> InOrder(sorted[k].value)
  {
    hide InOrder;
    forall k | 0 <= k < |sorted| ensures InOrder(sorted[k].value) {
      assert sorted[k] in sorted;
      var i :| 0 <= i < |vs| && vs[i] == sorted[k];
    }
  }

  /** A tree already in order is its own sorted form; hence sorting is idempotent. */
  lemma {:induction false} InOrderIsSorted(j: Json)
    requires InOrder(j)
    ensures Sorted(j) == j
    decreases j
  {
    hide SortMembers;
    match j {
      case Array(items) =>
        forall k | 0 <= k < |items| ensures Sorted(items[k]) == items[k] {
          InOrderIsSorted(items[k]);
        }
        assert Sorted(j).items == items;
      case Object(ms) =>
        forall k | 0 <= k < |ms| ensures Sorted(ms[k].value) == ms[k].value {
          InOrderIsSorted(ms[k].value);
        }
        SortedObject(ms);
        assert SortedValues(ms) == ms;
        SortFixed(ms);
      case _ =>
    }
  }

  lemma SortIdempotent(profile: Profile, j: Json)
    requires Carried(profile, j) && Distinct(j)
    ensures Sorted(Sorted(j)) == Sorted(j)
  {
    hide Sorted, Carried, Distinct, InOrder;
    SortedInOrder(profile, j);
    InOrderIsSorted(Sorted(j));
  }

  // ----- what sorting keeps

  lemma {:induction false} MemberTokensShift(m: Member, ms: seq<Member>, k: nat)
    ensures MemberTokens([m] + ms, k + 1) == MemberTokens(ms, k)
    decreases |ms| - k
  {
    hide Tokens;
    if k < |ms| {
      MemberTokensShift(m, ms, k + 1);
    }
  }

  lemma {:induction false} InsertTokens(m: Member, ms: seq<Member>)
    ensures MemberTokens(Insert(m, ms), 0) == 1 + Tokens(m.value) + MemberTokens(ms, 0)
    decreases |ms|
  {
    hide Tokens, KeyCompare;
    MemberTokensShift(m, ms, 0);
    if ms != [] {
      InsertTokens(m, ms[1..]);
      MemberTokensShift(ms[0], Insert(m, ms[1..]), 0);
      MemberTokensShift(ms[0], ms[1..], 0);
      assert [ms[0]] + ms[1..] == ms;
    }
  }

  lemma {:induction false} SortTokens(ms: seq<Member>)
    ensures MemberTokens(SortMembers(ms), 0) == MemberTokens(ms, 0)
    decreases |ms|
  {
    hide Tokens, Insert;
    if ms != [] {
      SortTokens(ms[1..]);
      InsertTokens(ms[0], SortMembers(ms[1..]));
      MemberTokensShift(ms[0], ms[1..], 0);
      assert [ms[0]] + ms[1..] == ms;
    }
  }

  lemma {:induction false} SameTokens(ms: seq<Member>, vs: seq<Member>, k: nat)
    requires |ms| == |vs| && forall i :: k <= i < |ms| ==> Tokens(vs[i].value) == Tokens(ms[i].value)
    ensures MemberTokens(ms, k) == MemberTokens(vs, k)
    decreases |ms| - k
  {
    hide Tokens;
    if k < |ms| {
      SameTokens(ms, vs, k + 1);
    }
  }

  lemma {:induction false} SameItemTokens(a: seq<Json>, b: seq<Json>, k: nat)
    requires |a| == |b| && forall i :: k <= i < |a| ==> Tokens(b[i]) == Tokens(a[i])
    ensures ItemTokens(a, k) == ItemTokens(b, k)
    decreases |a| - k
  {
    hide Tokens;
    if k < |a| {
      SameItemTokens(a, b, k + 1);
    }
  }

  lemma {:induction false} SortedTokens(j: Json)
    ensures Tokens(Sorted(j)) == Tokens(j)
    decreases j
  {
    hide SortMembers, ItemTokens, MemberTokens;
    match j {
      case Array(items) =>
        forall k | 0 <= k < |items| ensures Tokens(Sorted(items[k])) == Tokens(items[k]) {
          SortedTokens(items[k]);
        }
        SameItemTokens(items, Sorted(j).items, 0);
      case Object(ms) =>
        forall k | 0 <= k < |ms| ensures Tokens(Sorted(ms[k].value)) == Tokens(ms[k].value) {
          SortedTokens(ms[k].value);
        }
        SortedObject(ms);
        SameTokens(ms, SortedValues(ms), 0);
        SortTokens(SortedValues(ms));
      case _ =>
    }
  }

  /** Members of a sorted object come from the object. */
  lemma SortedFrom(vs: seq<Member>, k: nat) returns (i: nat)
    requires k < |vs|
    ensures i < |vs| && SortMembers(vs)[k] == vs[i]
  {
    SortPermutes(vs);
    assert SortMembers(vs)[k] in SortMembers(vs);
    SameMembers(SortMembers(vs), vs, SortMembers(vs)[k]);
    i :| 0 <= i < |vs| && vs[i] == SortMembers(vs)[k];
  }

  lemma {:induction false} SortedCarried(profile: Profile, j: Json)
    requires Carried(profile, j)
    ensures Carried(profile, Sorted(j))
    decreases j
  {
    hide SortMembers, Printable;
    match j {
      case Array(items) =>
        forall k | 0 <= k < |items| ensures Carried(profile, Sorted(items[k])) {
          SortedCarried(profile, items[k]);
        }
      case Object(ms) =>
        forall k | 0 <= k < |ms| ensures Carried(profile, Sorted(ms[k].value)) {
          SortedCarried(profile, ms[k].value);
        }
        SortedObject(ms);
        var vs := SortedValues(ms);
        forall k | 0 <= k < |ms|
          ensures Printable(profile, SortMembers(vs)[k].key) && Carried(profile, SortMembers(vs)[k].value)
        {
          var i := SortedFrom(vs, k);
        }
      case _ =>
    }
  }

  lemma {:induction false} SortedNests(j: Json, room: int)
    requires Nests(j, room)
    ensures Nests(Sorted(j), room)
    decreases j
  {
    hide SortMembers;
    match j {
      case Array(items) =>
        forall k | 0 <= k < |items| ensures Nests(Sorted(items[k]), room - 1) {
          SortedNests(items[k], room - 1);
        }
      case Object(ms) =>
        forall k | 0 <= k < |ms| ensures Nests(Sorted(ms[k].value), room - 1) {
          SortedNests(ms[k].value, room - 1);
        }
        SortedObject(ms);
        var vs := SortedValues(ms);
        forall k | 0 <= k < |ms| ensures Nests(SortMembers(vs)[k].value, room - 1) {
          var i := SortedFrom(vs, k);
        }
      case _ =>
    }
  }

  lemma {:induction false} InOrderDistinct(j: Json)
    requires InOrder(j)
    ensures Distinct(j)
    decreases j
  {
    hide KeyLess;
    match j {
      case Array(items) =>
        forall k | 0 <= k < |items| ensures Distinct(items[k]) {
          InOrderDistinct(items[k]);
        }
      case Object(ms) =>
        forall k | 0 <= k < |ms| ensures Distinct(ms[k].value) {
          InOrderDistinct(ms[k].value);
        }
        forall i, k | 0 <= i < k < |ms| ensures ms[i].key != ms[k].key {
          KeyLessStrict(ms[i].key, ms[k].key);
        }
      case _ =>
    }
  }

  /** A tree the limits admit is admitted sorted, too. */
  lemma SortedFits(c: Config, j: Json)
    requires Carried(c.profile, j) && Distinct(j) && Fits(c, j, 0, 0)
    ensures Carried(c.profile, Sorted(j)) && Distinct(Sorted(j)) && Fits(c, Sorted(j), 0, 0)
  {
    hide Carried, Distinct, Nests, Tokens, Sorted, InOrder;
    SortedCarried(c.profile, j);
    SortedInOrder(c.profile, j);
    InOrderDistinct(Sorted(j));
    SortedNests(j, c.depth);
    SortedTokens(j);
  }
}
