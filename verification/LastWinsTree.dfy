/** The last-wins profile on trees: which members survive, and how many repeats a source holds. */
module LastWinsTree {
  import opened Basics
  import opened Trees
  import opened Reader
  import opened Acceptance
  import opened Grammar

  /** A later member of the same object repeats the key of member `k`. */
  predicate Superseded(ms: seq<Member>, k: nat)
    requires k < |ms|
  {
    exists i :: k < i < |ms| && ms[i].key == ms[k].key
  }

  /** The published tree: of each key only the last member, in the order of those last members. */
  function Prune(j: Json): Json
    decreases j, 0
  {
    match j
    case Array(items) => Array(seq(|items|, k requires 0 <= k < |items| => Prune(items[k])))
    case Object(ms) => Object(PruneFrom(ms, 0))
    case _ => j
  }

  function PruneFrom(ms: seq<Member>, k: nat): (r: seq<Member>)
    ensures k <= |ms| ==> |r| <= |ms| - k
    decreases ms, |ms| - k
  {
    if k >= |ms| then []
    else if Superseded(ms, k) then PruneFrom(ms, k + 1)
    else [Member(ms[k].key, Prune(ms[k].value))] + PruneFrom(ms, k + 1)
  }

  function KeySet(ms: seq<Member>): set<Bytes> {
    set k | 0 <= k < |ms| :: ms[k].key
  }

  /** Occurrences after the first of each key of one object. */
  function Repeats(ms: seq<Member>): int {
    |ms| - |KeySet(ms)|
  }

  /** Repeats over the whole source tree, discarded values included. */
  function Duplicates(j: Json): int
    decreases j, 0
  {
    match j
    case Array(items) => ItemDuplicates(items, 0)
    case Object(ms) => Repeats(ms) + MemberDuplicates(ms, 0)
    case _ => 0
  }

  function ItemDuplicates(items: seq<Json>, k: nat): int
    decreases items, |items| - k
  {
    if k >= |items| then 0 else Duplicates(items[k]) + ItemDuplicates(items, k + 1)
  }

  function MemberDuplicates(ms: seq<Member>, k: nat): int
    decreases ms, |ms| - k
  {
    if k >= |ms| then 0 else Duplicates(ms[k].value) + MemberDuplicates(ms, k + 1)
  }

  // ----- keys of the pruned object

  lemma {:induction false} PrunedFrom(ms: seq<Member>, k: nat, i: nat) returns (source: nat)
    requires k <= |ms| && i < |PruneFrom(ms, k)|
    ensures k <= source < |ms| && !Superseded(ms, source)
    ensures PruneFrom(ms, k)[i] == Member(ms[source].key, Prune(ms[source].value))
    decreases |ms| - k
  {
    hide Superseded, Prune;
    if Superseded(ms, k) {
      source := PrunedFrom(ms, k + 1, i);
    } else if i == 0 {
      source := k;
    } else {
      source := PrunedFrom(ms, k + 1, i - 1);
    }
  }

  /** The member that survives for a key is the last one with that key, and it is published. */
  lemma {:induction false} LastIsPublished(ms: seq<Member>, k: nat, last: nat)
    requires k <= last < |ms| && !Superseded(ms, last)
    ensures Member(ms[last].key, Prune(ms[last].value)) in PruneFrom(ms, k)
    decreases |ms| - k
  {
    hide Superseded, Prune;
    if k < last {
      LastIsPublished(ms, k + 1, last);
    }
  }

  lemma {:induction false} PruneKeysDistinct(ms: seq<Member>, k: nat)
    requires k <= |ms|
    ensures KeysDistinct(PruneFrom(ms, k))
    decreases |ms| - k
  {
    if k < |ms| {
      PruneKeysDistinct(ms, k + 1);
      if !Superseded(ms, k) {
        var rest := PruneFrom(ms, k + 1);
        forall i | 0 <= i < |rest| ensures rest[i].key != ms[k].key {
          var source := PrunedFrom(ms, k + 1, i);
        }
      }
    }
  }

  /** The published tree repeats no key. */
  lemma {:induction false} PruneIsDistinct(j: Json)
    ensures Distinct(Prune(j))
    decreases j
  {
    hide PruneFrom;
    match j {
      case Array(items) =>
        forall k | 0 <= k < |items| ensures Distinct(Prune(items[k])) {
          PruneIsDistinct(items[k]);
        }
      case Object(ms) =>
        PruneKeysDistinct(ms, 0);
        forall k | 0 <= k < |ms| ensures Distinct(Prune(ms[k].value)) {
          PruneIsDistinct(ms[k].value);
        }
        forall i | 0 <= i < |PruneFrom(ms, 0)| ensures Distinct(PruneFrom(ms, 0)[i].value) {
          var source := PrunedFrom(ms, 0, i);
        }
      case _ =>
    }
  }

  // ----- the same tree by replacement, one member at a time

  function Without(ms: seq<Member>, key: Bytes): (r: seq<Member>)
    ensures |r| <= |ms|
  {
    if ms == [] then [] else if ms[0].key == key then Without(ms[1..], key) else [ms[0]] + Without(ms[1..], key)
  }

  /** Reading members in turn, each replacing the earlier one with its key and going to the end. */
  function Replaced(ms: seq<Member>, n: nat): seq<Member>
    requires n <= |ms|
  {
    if n == 0 then []
    else Without(Replaced(ms, n - 1), ms[n - 1].key) + [Member(ms[n - 1].key, Prune(ms[n - 1].value))]
  }

  /** Survivors among the first `n` members, from `k` on. */
  function PrunePrefix(ms: seq<Member>, k: nat, n: nat): seq<Member>
    requires n <= |ms|
    decreases n - k
  {
    if k >= n then []
    else if exists i :: k < i < n && ms[i].key == ms[k].key then PrunePrefix(ms, k + 1, n)
    else [Member(ms[k].key, Prune(ms[k].value))] + PrunePrefix(ms, k + 1, n)
  }

  lemma {:induction false} PrefixSnoc(ms: seq<Member>, k: nat, n: nat)
    requires k <= n < |ms|
    ensures PrunePrefix(ms, k, n + 1) ==
            Without(PrunePrefix(ms, k, n), ms[n].key) + [Member(ms[n].key, Prune(ms[n].value))]
    decreases n - k
  {
    hide Prune;
    if k < n {
      PrefixSnoc(ms, k + 1, n);
      var rest := PrunePrefix(ms, k + 1, n);
      var head := Member(ms[k].key, Prune(ms[k].value));
      assert ([head] + rest)[1..] == rest;
      if exists i :: k < i < n && ms[i].key == ms[k].key {
        var i :| k < i < n && ms[i].key == ms[k].key;
        assert k < i < n + 1 && ms[i].key == ms[k].key;
      } else if ms[k].key == ms[n].key {
        assert k < n < n + 1 && ms[n].key == ms[k].key;
      } else {
        assert !exists i :: k < i < n + 1 && ms[i].key == ms[k].key;
        assert [head] + (Without(rest, ms[n].key) + [Member(ms[n].key, Prune(ms[n].value))]) ==
               [head] + Without(rest, ms[n].key) + [Member(ms[n].key, Prune(ms[n].value))];
      }
    }
  }

  lemma {:induction false} PrefixIsReplaced(ms: seq<Member>, n: nat)
    requires n <= |ms|
    ensures PrunePrefix(ms, 0, n) == Replaced(ms, n)
  {
    hide Prune, Without;
    if n > 0 {
      PrefixIsReplaced(ms, n - 1);
      PrefixSnoc(ms, 0, n - 1);
    }
  }

  lemma {:induction false} FullPrefix(ms: seq<Member>, k: nat)
    ensures PrunePrefix(ms, k, |ms|) == PruneFrom(ms, k)
    decreases |ms| - k
  {
    hide Prune;
    if k < |ms| {
      FullPrefix(ms, k + 1);
    }
  }

  /** Keeping last occurrences is replacing on every repeat. */
  lemma PruneIsReplacement(ms: seq<Member>)
    ensures PruneFrom(ms, 0) == Replaced(ms, |ms|)
  {
    FullPrefix(ms, 0);
    PrefixIsReplaced(ms, |ms|);
  }

  // ----- counting repeats

  lemma KeySetSnoc(ms: seq<Member>, m: Member)
    ensures KeySet(ms + [m]) == KeySet(ms) + {m.key}
    ensures m.key in KeySet(ms) <==> HasKey(ms, m.key)
  {
    var all := ms + [m];
    forall key | key in KeySet(all) ensures key in KeySet(ms) + {m.key} {
      var k :| 0 <= k < |all| && all[k].key == key;
      if k < |ms| {
        assert ms[k].key == key;
      }
    }
    forall key | key in KeySet(ms) ensures key in KeySet(all) {
      var k :| 0 <= k < |ms| && ms[k].key == key;
      assert all[k].key == key;
    }
    assert all[|ms|].key == m.key;
  }

  /** One more member adds one repeat exactly when its key is already there. */
  lemma RepeatsSnoc(ms: seq<Member>, m: Member)
    ensures Repeats(ms + [m]) == Repeats(ms) + if HasKey(ms, m.key) then 1 else 0
  {
    hide HasKey;
    KeySetSnoc(ms, m);
    if m.key in KeySet(ms) {
      assert KeySet(ms) + {m.key} == KeySet(ms);
    } else {
      assert |KeySet(ms) + {m.key}| == |KeySet(ms)| + 1;
    }
  }

  lemma {:induction false} RepeatsZero(ms: seq<Member>)
    ensures Repeats(ms) >= 0
    ensures Repeats(ms) == 0 <==> KeysDistinct(ms)
  {
    hide KeySet;
    if ms == [] {
      EmptyKeys();
    } else {
      var init, m := ms[..|ms| - 1], ms[|ms| - 1];
      assert ms == init + [m];
      RepeatsZero(init);
      RepeatsSnoc(init, m);
      if KeysDistinct(init) && !HasKey(init, m.key) {
        ExtendDistinct(init, m);
      }
      if KeysDistinct(ms) {
        assert forall i :: 0 <= i < |init| ==> ms[i] == init[i];
      }
    }
  }

  lemma EmptyKeys()
    ensures |KeySet([])| == 0
  {
    assert KeySet([]) == {};
  }

  /** The count is never negative, and zero exactly when no object repeats a key. */
  lemma {:induction false} DuplicatesZero(j: Json)
    ensures Duplicates(j) >= 0
    ensures Duplicates(j) == 0 <==> Distinct(j)
    decreases j, 0
  {
    hide Repeats, KeysDistinct;
    match j {
      case Array(items) => ItemDuplicatesZero(items, 0);
      case Object(ms) =>
        RepeatsZero(ms);
        MemberDuplicatesZero(ms, 0);
      case _ =>
    }
  }

  lemma {:induction false} ItemDuplicatesZero(items: seq<Json>, k: nat)
    ensures ItemDuplicates(items, k) >= 0
    ensures ItemDuplicates(items, k) == 0 <==> forall i :: k <= i < |items| ==> Distinct(items[i])
    decreases items, |items| - k
  {
    hide Duplicates, Distinct;
    if k < |items| {
      DuplicatesZero(items[k]);
      ItemDuplicatesZero(items, k + 1);
    }
  }

  lemma {:induction false} MemberDuplicatesZero(ms: seq<Member>, k: nat)
    ensures MemberDuplicates(ms, k) >= 0
    ensures MemberDuplicates(ms, k) == 0 <==> forall i :: k <= i < |ms| ==> Distinct(ms[i].value)
    decreases ms, |ms| - k
  {
    hide Duplicates, Distinct;
    if k < |ms| {
      DuplicatesZero(ms[k].value);
      MemberDuplicatesZero(ms, k + 1);
    }
  }

  // ----- without repeats

  lemma {:induction false} PruneFromFixed(ms: seq<Member>, k: nat)
    requires KeysDistinct(ms) && forall i :: 0 <= i < |ms| ==> Prune(ms[i].value) == ms[i].value
    requires k <= |ms|
    ensures PruneFrom(ms, k) == ms[k..]
    decreases |ms| - k
  {
    hide Prune;
    if k < |ms| {
      PruneFromFixed(ms, k + 1);
      assert ms[k..] == [ms[k]] + ms[k + 1..];
    }
  }

  lemma {:induction false} PruneFixed(j: Json)
    requires Distinct(j)
    ensures Prune(j) == j
    decreases j
  {
    match j {
      case Array(items) =>
        forall k | 0 <= k < |items| ensures Prune(items[k]) == items[k] {
          PruneFixed(items[k]);
        }
        assert Prune(j).items == items;
      case Object(ms) =>
        forall k | 0 <= k < |ms| ensures Prune(ms[k].value) == ms[k].value {
          PruneFixed(ms[k].value);
        }
        PruneFromFixed(ms, 0);
        assert ms[0..] == ms;
      case _ =>
    }
  }

  /** The tolerant and the strict reader agree on every text without repeated keys. */
  lemma TolerantIsStrict(depth: nat, capacity: nat, b: Bytes, j: Json)
    ensures var tolerant := ReadText(Config(LastWins, depth, capacity), b);
            var strict := ReadText(Config(Rfc8259, depth, capacity), b);
            (tolerant.Parsed? && tolerant.tree == j && Duplicates(j) == 0) <==> (strict.Parsed? && strict.tree == j)
  {
    hide ReadText, Nests, Tokens, Distinct, Duplicates, Tree;
    AcceptsExactly(Config(LastWins, depth, capacity), b, j);
    AcceptsExactly(Config(Rfc8259, depth, capacity), b, j);
    DuplicatesZero(j);
    SameGrammar(b, j);
  }

  lemma SameGrammar(b: Bytes, j: Json)
    ensures Denotes(LastWins, b, j) <==> Denotes(Rfc8259, b, j)
  {
    hide Tree, Spelling;
    if Denotes(LastWins, b, j) {
      var lead, s, trail :| IsTextOf(LastWins, b, lead, s, trail) && Tree(s) == j;
      Tighten(s);
      assert IsTextOf(Rfc8259, b, lead, s, trail);
    }
    if Denotes(Rfc8259, b, j) {
      var lead, s, trail :| IsTextOf(Rfc8259, b, lead, s, trail) && Tree(s) == j;
      Relax(Rfc8259, s);
      assert IsTextOf(LastWins, b, lead, s, trail);
    }
  }

  lemma {:induction false} Tighten(s: Syntax)
    requires SyntaxOk(LastWins, s)
    ensures SyntaxOk(Rfc8259, s)
  {
    match s {
      case List(_, items) =>
        forall k | 0 <= k < |items| ensures ItemOk(Rfc8259, items[k]) {
          Tighten(items[k].value);
        }
      case Record(_, pairs) =>
        forall k | 0 <= k < |pairs| ensures ItemOk(Rfc8259, pairs[k].item) {
          Tighten(pairs[k].item.value);
        }
      case _ =>
    }
  }
}
