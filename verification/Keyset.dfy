/** The set of (parent, key bytes) pairs: open addressing over node indices, refining a map. */
module Keyset {
  import opened Basics

  const MINIMUM_CAPACITY: nat := 8
  /** Bytes of one slot, a size_t. */
  const SLOT_SIZE: nat := 8

  datatype Key = Key(parent: nat, bytes: Bytes)

  // ----- capacities

  predicate PowerOfTwo(n: nat) {
    n == 1 || (n > 1 && n % 2 == 0 && PowerOfTwo(n / 2))
  }

  lemma DoublePower(n: nat)
    requires PowerOfTwo(n)
    ensures PowerOfTwo(2 * n)
  {
    assert 2 * n / 2 == n;
  }

  function CapacityFrom(capacity: nat, expected: nat): (c: nat)
    requires capacity >= 1
    ensures c >= capacity && c >= 2 * expected
    ensures c == capacity || c < 4 * expected
    ensures PowerOfTwo(capacity) ==> PowerOfTwo(c)
    decreases 2 * expected - capacity
  {
    if capacity < 2 * expected then CapacityFrom(2 * capacity, expected) else capacity
  }

  function CapacityFor(expected: nat): nat {
    CapacityFrom(MINIMUM_CAPACITY, expected)
  }

  /** No smaller power of two from eight up is twice the expected keys. */
  lemma LeastCapacity(expected: nat, c: nat)
    requires PowerOfTwo(c) && c >= 8 && c >= 2 * expected
    ensures CapacityFor(expected) <= c
  {
    assert PowerOfTwo(4) && PowerOfTwo(8);
    LeastFrom(MINIMUM_CAPACITY, expected, c);
  }

  lemma {:induction false} LeastFrom(capacity: nat, expected: nat, c: nat)
    requires capacity >= 1 && PowerOfTwo(capacity) && PowerOfTwo(c) && c >= capacity && c >= 2 * expected
    ensures CapacityFrom(capacity, expected) <= c
    decreases 2 * expected - capacity
  {
    if capacity < 2 * expected {
      NextPower(capacity, c);
      DoublePower(capacity);
      LeastFrom(2 * capacity, expected, c);
    }
  }

  lemma {:induction false} NextPower(a: nat, b: nat)
    requires PowerOfTwo(a) && PowerOfTwo(b) && a < b
    ensures 2 * a <= b
  {
    if a > 1 {
      NextPower(a / 2, b / 2);
    }
  }

  method ComputeCapacity(expected: nat) returns (capacity: nat)
    ensures capacity == CapacityFor(expected)
    ensures PowerOfTwo(capacity) && capacity >= MINIMUM_CAPACITY && capacity >= 2 * expected
  {
    capacity := MINIMUM_CAPACITY;
    assert PowerOfTwo(4) && PowerOfTwo(8);
    while capacity < expected * 2
      invariant capacity >= MINIMUM_CAPACITY && PowerOfTwo(capacity)
      invariant CapacityFor(expected) == CapacityFrom(capacity, expected)
      decreases expected * 2 - capacity
    {
      capacity := capacity * 2;
    }
  }

  // ----- probing

  /** The slot `d` steps after the home slot of a hash value; `%` is the source's mask. */
  function Probe(h: nat, capacity: nat, d: nat): (s: nat)
    requires capacity > 0 && d <= capacity
    ensures s < capacity
  {
    var home := h % capacity;
    if home + d < capacity then home + d else home + d - capacity
  }

  function Distance(h: nat, capacity: nat, s: nat): (d: nat)
    requires s < capacity
    ensures d < capacity && Probe(h, capacity, d) == s
  {
    var home := h % capacity;
    if home <= s then s - home else s + capacity - home
  }

  function Occupied(slots: seq<nat>): (n: nat)
    ensures n <= |slots|
  {
    if slots == [] then 0
    else Occupied(slots[..|slots| - 1]) + if slots[|slots| - 1] != VALUE_NONE then 1 else 0
  }

  lemma {:induction false} OccupiedFill(slots: seq<nat>, s: nat, v: nat)
    requires s < |slots| && slots[s] == VALUE_NONE && v != VALUE_NONE
    ensures Occupied(slots[s := v]) == Occupied(slots) + 1
  {
    var init := slots[..|slots| - 1];
    if s == |slots| - 1 {
      assert slots[s := v][..|slots| - 1] == init;
    } else {
      OccupiedFill(init, s, v);
      assert slots[s := v][..|slots| - 1] == init[s := v];
    }
  }

  lemma {:induction false} OccupiedReplace(slots: seq<nat>, s: nat, v: nat)
    requires s < |slots| && slots[s] != VALUE_NONE && v != VALUE_NONE
    ensures Occupied(slots[s := v]) == Occupied(slots)
  {
    var init := slots[..|slots| - 1];
    if s == |slots| - 1 {
      assert slots[s := v][..|slots| - 1] == init;
    } else {
      OccupiedReplace(init, s, v);
      assert slots[s := v][..|slots| - 1] == init[s := v];
    }
  }

  lemma {:induction false} OccupiedFull(slots: seq<nat>)
    requires forall s :: 0 <= s < |slots| ==> slots[s] != VALUE_NONE
    ensures Occupied(slots) == |slots|
  {
    if slots != [] {
      OccupiedFull(slots[..|slots| - 1]);
    }
  }

  lemma {:induction false} OccupiedEmpty(slots: seq<nat>)
    requires forall s :: 0 <= s < |slots| ==> slots[s] == VALUE_NONE
    ensures Occupied(slots) == 0
  {
    if slots != [] {
      OccupiedEmpty(slots[..|slots| - 1]);
    }
  }

  // ----- the table as a map

  type Hash = Key -> nat
  type KeyOf = nat -> Key

  /** `key` is stored `d` steps from home, behind an unbroken run of occupied slots. */
  ghost predicate StoredAt(slots: seq<nat>, hash: Hash, key: Key, index: nat, d: nat) {
    && d < |slots|
    && slots[Probe(hash(key), |slots|, d)] == index
    && forall e :: 0 <= e < d ==> slots[Probe(hash(key), |slots|, e)] != VALUE_NONE
  }

  ghost predicate Reachable(slots: seq<nat>, hash: Hash, key: Key, index: nat) {
    exists d :: StoredAt(slots, hash, key, index, d)
  }

  /** The slots hold exactly the indices of `model`, each reachable from its home, no key twice. */
  ghost predicate Holds(slots: seq<nat>, hash: Hash, keyOf: KeyOf, model: map<Key, nat>) {
    && (forall s :: 0 <= s < |slots| && slots[s] != VALUE_NONE ==>
          keyOf(slots[s]) in model && model[keyOf(slots[s])] == slots[s])
    && (forall s, r :: 0 <= s < r < |slots| && slots[s] != VALUE_NONE && slots[r] != VALUE_NONE ==>
          keyOf(slots[s]) != keyOf(slots[r]))
    && (forall k :: k in model ==> keyOf(model[k]) == k && model[k] != VALUE_NONE)
    && (forall k :: k in model ==> Reachable(slots, hash, k, model[k]))
  }

  /** What a probe that stopped after `d` occupied slots without meeting `key` knows. */
  ghost predicate Passed(slots: seq<nat>, hash: Hash, keyOf: KeyOf, key: Key, d: nat) {
    && d <= |slots|
    && forall e :: 0 <= e < d ==>
         var stored := slots[Probe(hash(key), |slots|, e)]; stored != VALUE_NONE && keyOf(stored) != key
  }

  lemma SomeSlotIsEmpty(slots: seq<nat>, hash: Hash, keyOf: KeyOf, key: Key)
    requires Passed(slots, hash, keyOf, key, |slots|)
    ensures Occupied(slots) == |slots|
  {
    forall s | 0 <= s < |slots| ensures slots[s] != VALUE_NONE {
      var d := Distance(hash(key), |slots|, s);
    }
    OccupiedFull(slots);
  }

  /** An empty slot after such a probe proves the key absent. */
  lemma EmptyMeansAbsent(slots: seq<nat>, hash: Hash, keyOf: KeyOf, model: map<Key, nat>, key: Key, d: nat)
    requires Holds(slots, hash, keyOf, model) && Passed(slots, hash, keyOf, key, d) && d < |slots|
    requires slots[Probe(hash(key), |slots|, d)] == VALUE_NONE
    ensures key !in model
  {
    hide Probe;
    if key in model {
      assert Reachable(slots, hash, key, model[key]);
      var r :| StoredAt(slots, hash, key, model[key], r);
      assert false;
    }
  }

  lemma StillReachable(slots: seq<nat>, hash: Hash, key: Key, index: nat, s: nat, v: nat)
    requires Reachable(slots, hash, key, index) && s < |slots| && v != VALUE_NONE && slots[s] != index
    ensures Reachable(slots[s := v], hash, key, index)
  {
    hide Probe;
    var d :| StoredAt(slots, hash, key, index, d);
    assert StoredAt(slots[s := v], hash, key, index, d);
  }

  /** Filling the empty slot where a probe stopped adds the key. */
  lemma FillHolds(slots: seq<nat>, hash: Hash, keyOf: KeyOf, model: map<Key, nat>, index: nat, d: nat)
    requires Holds(slots, hash, keyOf, model) && index != VALUE_NONE
    requires Passed(slots, hash, keyOf, keyOf(index), d) && d < |slots|
    requires slots[Probe(hash(keyOf(index)), |slots|, d)] == VALUE_NONE
    ensures keyOf(index) !in model
    ensures Holds(slots[Probe(hash(keyOf(index)), |slots|, d) := index], hash, keyOf, model[keyOf(index) := index])
  {
    hide Probe;
    var key := keyOf(index);
    var s := Probe(hash(key), |slots|, d);
    EmptyMeansAbsent(slots, hash, keyOf, model, key, d);
    var after := slots[s := index];
    var model' := model[key := index];
    assert StoredAt(after, hash, key, index, d);
    forall k | k in model' ensures Reachable(after, hash, k, model'[k]) {
      if k != key {
        StillReachable(slots, hash, k, model[k], s, index);
      }
    }
  }

  /** Overwriting the slot of a stored key replaces its index. */
  lemma ReplaceHolds(slots: seq<nat>, hash: Hash, keyOf: KeyOf, model: map<Key, nat>, index: nat, s: nat)
    requires Holds(slots, hash, keyOf, model) && index != VALUE_NONE && s < |slots|
    requires slots[s] != VALUE_NONE && keyOf(slots[s]) == keyOf(index)
    ensures Holds(slots[s := index], hash, keyOf, model[keyOf(index) := index])
  {
    hide Probe;
    var key := keyOf(index);
    var after := slots[s := index];
    var model' := model[key := index];
    forall k | k in model' ensures Reachable(after, hash, k, model'[k]) {
      assert Reachable(slots, hash, k, model[k]);
      if k != key {
        StillReachable(slots, hash, k, model[k], s, index);
      } else {
        var d :| StoredAt(slots, hash, k, model[k], d);
        SlotOfIndex(slots, hash, keyOf, model, s, Probe(hash(k), |slots|, d));
        assert StoredAt(after, hash, k, index, d);
      }
    }
  }

  lemma SlotOfIndex(slots: seq<nat>, hash: Hash, keyOf: KeyOf, model: map<Key, nat>, s: nat, r: nat)
    requires Holds(slots, hash, keyOf, model) && s < |slots| && r < |slots|
    requires slots[s] != VALUE_NONE && slots[r] != VALUE_NONE && keyOf(slots[s]) == keyOf(slots[r])
    ensures s == r
  {
  }

  method FindSlot(slots: array<nat>, hash: Hash, keyOf: KeyOf, key: Key, ghost model: map<Key, nat>)
    returns (slot: nat, found: bool, ghost steps: nat)
    requires Holds(slots[..], hash, keyOf, model) && Occupied(slots[..]) < slots.Length
    ensures slot < slots.Length
    ensures found == (key in model)
    ensures found ==> slots[slot] == model[key] != VALUE_NONE
    ensures !found ==> slots[slot] == VALUE_NONE
    ensures !found ==> Passed(slots[..], hash, keyOf, key, steps) && steps < slots.Length &&
                       slot == Probe(hash(key), slots.Length, steps)
  {
    hide Reachable;
    var capacity := slots.Length;
    slot := hash(key) % capacity;
    steps := 0;
    while true
      invariant steps < capacity && slot == Probe(hash(key), capacity, steps)
      invariant Passed(slots[..], hash, keyOf, key, steps)
      decreases capacity - steps
    {
      var stored := slots[slot];
      if stored == VALUE_NONE {
        EmptyMeansAbsent(slots[..], hash, keyOf, model, key, steps);
        return slot, false, steps;
      }
      if keyOf(stored) == key {
        return slot, true, steps;
      }
      if steps + 1 == capacity {
        SomeSlotIsEmpty(slots[..], hash, keyOf, key);
      }
      slot := if slot + 1 == capacity then 0 else slot + 1;
      steps := steps + 1;
    }
  }

  /** What has been stored again after the first `n` old slots. */
  ghost predicate Moved(slots: seq<nat>, n: nat, keyOf: KeyOf, model: map<Key, nat>, moved: map<Key, nat>)
    requires n <= |slots|
  {
    && (forall k :: k in moved ==> k in model && moved[k] == model[k])
    && (forall s :: 0 <= s < n && slots[s] != VALUE_NONE ==> keyOf(slots[s]) in moved)
    && (forall s :: n <= s < |slots| && slots[s] != VALUE_NONE ==> keyOf(slots[s]) !in moved)
  }

  lemma MovedStart(slots: seq<nat>, empty: seq<nat>, hash: Hash, keyOf: KeyOf, model: map<Key, nat>)
    requires forall s :: 0 <= s < |empty| ==> empty[s] == VALUE_NONE
    ensures Moved(slots, 0, keyOf, model, map[]) && Holds(empty, hash, keyOf, map[]) && Occupied(empty) == 0
    ensures Occupied(slots[..0]) == 0
  {
    OccupiedEmpty(empty);
  }

  lemma MovedStep(slots: seq<nat>, n: nat, hash: Hash, keyOf: KeyOf, model: map<Key, nat>, moved: map<Key, nat>)
    requires Holds(slots, hash, keyOf, model) && n < |slots| && Moved(slots, n, keyOf, model, moved)
    ensures slots[n] == VALUE_NONE ==> Moved(slots, n + 1, keyOf, model, moved)
    ensures slots[n] != VALUE_NONE ==>
              && keyOf(slots[n]) !in moved
              && Moved(slots, n + 1, keyOf, model, moved[keyOf(slots[n]) := slots[n]])
    ensures Occupied(slots[..n + 1]) == Occupied(slots[..n]) + if slots[n] != VALUE_NONE then 1 else 0
  {
    hide Reachable;
    assert slots[..n + 1][..n] == slots[..n];
  }

  lemma MovedAll(slots: seq<nat>, hash: Hash, keyOf: KeyOf, model: map<Key, nat>, moved: map<Key, nat>)
    requires Holds(slots, hash, keyOf, model) && Moved(slots, |slots|, keyOf, model, moved)
    ensures moved == model
  {
    hide Probe;
    forall k | k in model ensures k in moved {
      assert Reachable(slots, hash, k, model[k]);
      var d :| StoredAt(slots, hash, k, model[k], d);
      assert slots[Probe(hash(k), |slots|, d)] == model[k];
    }
  }

  lemma {:induction false} OccupiedPrefix(slots: seq<nat>, n: nat)
    requires n <= |slots|
    ensures Occupied(slots[..n]) <= Occupied(slots)
    decreases |slots|
  {
    if n == |slots| {
      assert slots[..n] == slots;
    } else {
      OccupiedPrefix(slots[..|slots| - 1], n);
      assert slots[..|slots| - 1][..n] == slots[..n];
    }
  }

  /** Stores every index of `slots` in the empty table `larger`. */
  method Rehash(slots: array<nat>, larger: array<nat>, hash: Hash, keyOf: KeyOf, ghost model: map<Key, nat>)
    requires slots != larger && slots.Length < larger.Length
    requires Holds(slots[..], hash, keyOf, model)
    requires forall s :: 0 <= s < larger.Length ==> larger[s] == VALUE_NONE
    modifies larger
    ensures Holds(larger[..], hash, keyOf, model) && Occupied(larger[..]) == Occupied(slots[..])
  {
    hide Holds, Passed, Probe, Moved;
    ghost var moved := map[];
    MovedStart(slots[..], larger[..], hash, keyOf, model);
    var i := 0;
    while i < slots.Length
      invariant 0 <= i <= slots.Length
      invariant Moved(slots[..], i, keyOf, model, moved)
      invariant Holds(larger[..], hash, keyOf, moved)
      invariant Occupied(larger[..]) == Occupied(slots[..i])
    {
      var stored := slots[i];
      MovedStep(slots[..], i, hash, keyOf, model, moved);
      assert slots[..][..i] == slots[..i] && slots[..][..i + 1] == slots[..i + 1];
      OccupiedPrefix(slots[..], i);
      if stored != VALUE_NONE {
        var slot, found, steps := FindSlot(larger, hash, keyOf, keyOf(stored), moved);
        FillHolds(larger[..], hash, keyOf, moved, stored, steps);
        OccupiedFill(larger[..], slot, stored);
        ghost var before := larger[..];
        larger[slot] := stored;
        assert larger[..] == before[slot := stored];
        moved := moved[keyOf(stored) := stored];
      }
      i := i + 1;
    }
    assert slots[..][..slots.Length] == slots[..];
    assert slots[..slots.Length] == slots[..];
    MovedAll(slots[..], hash, keyOf, model, moved);
  }

  // ----- the set

  class Keys {
    const hash: Hash
    var slots: array<nat>
    var count: nat
    /** The map the table refines: from a key to the index stored for it. */
    ghost var model: map<Key, nat>

    ghost predicate Valid(keyOf: KeyOf)
      reads this, slots
    {
      && PowerOfTwo(slots.Length) && slots.Length >= MINIMUM_CAPACITY
      && count == |model| == Occupied(slots[..])
      && 2 * count <= slots.Length
      && Holds(slots[..], hash, keyOf, model)
    }

    /** An empty set sized for `expected` keys. */
    constructor (expected: nat, hash: Hash, ghost keyOf: KeyOf)
      ensures Valid(keyOf) && model == map[] && fresh(slots) && this.hash == hash
      ensures slots.Length == CapacityFor(expected)
    {
      var capacity := ComputeCapacity(expected);
      this.hash := hash;
      slots := new nat[capacity](_ => VALUE_NONE);
      count, model := 0, map[];
      new;
      OccupiedEmpty(slots[..]);
    }

    method Contains(key: Key, keyOf: KeyOf) returns (found: bool)
      requires Valid(keyOf)
      ensures found == (key in model)
    {
      var slot, has, steps := FindSlot(slots, hash, keyOf, key, model);
      found := has;
    }

    /** A table this large is not doubled any more. */
    predicate TooLarge()
      reads this, slots
    {
      slots.Length > SIZE_MAX / 2 / SLOT_SIZE
    }

    /** Doubles the table and stores every index again; `granted` is the allocator's answer. */
    method Grow(keyOf: KeyOf, granted: bool) returns (code: Code)
      requires Valid(keyOf)
      modifies this
      ensures Valid(keyOf) && model == old(model) && count == old(count)
      ensures code == if granted && !old(TooLarge()) then Ok else Code.Memory
      ensures code.Ok? ==> fresh(slots) && slots.Length == 2 * old(slots.Length)
      ensures !code.Ok? ==> slots == old(slots)
    {
      hide Holds, PowerOfTwo, Occupied;
      DoublePower(slots.Length);
      if TooLarge() {
        return Code.Memory;
      }
      var capacity := slots.Length * 2;
      if !granted {
        return Code.Memory;
      }
      var larger := new nat[capacity](_ => VALUE_NONE);
      Rehash(slots, larger, hash, keyOf, model);
      slots := larger;
      code := Ok;
    }

    /** Adds the key of `index`. With `replace` an equal key yields its place; without, it is an error. */
    method Insert(index: nat, replace: bool, keyOf: KeyOf, granted: bool) returns (code: Code, previous: nat)
      requires Valid(keyOf) && index != VALUE_NONE
      modifies this, slots
      ensures Valid(keyOf) && (slots == old(slots) || fresh(slots))
      ensures code == if keyOf(index) in old(model) then (if replace then Ok else Code.DuplicateKey)
                      else if 2 * (old(count) + 1) <= old(slots.Length) || (granted && !old(TooLarge())) then Ok
                      else Code.Memory
      ensures model == if code.Ok? then old(model)[keyOf(index) := index] else old(model)
      ensures code.Ok? ==> previous == if keyOf(index) in old(model) then old(model)[keyOf(index)] else VALUE_NONE
      ensures keyOf(index) in old(model) || 2 * (old(count) + 1) <= old(slots.Length) ==> slots == old(slots)
      ensures count <= old(count) + 1
    {
      hide Holds, Passed, Probe, PowerOfTwo, Occupied;
      var key := keyOf(index);
      previous := VALUE_NONE;
      var slot, found, steps := FindSlot(slots, hash, keyOf, key, model);
      if found {
        if !replace {
          return Code.DuplicateKey, previous;
        }
        previous := slots[slot];
        StoredKey(slots[..], hash, keyOf, model, key);
        ReplaceHolds(slots[..], hash, keyOf, model, index, slot);
        OccupiedReplace(slots[..], slot, index);
        ghost var before := slots[..];
        slots[slot] := index;
        assert slots[..] == before[slot := index];
        model := model[key := index];
        return Ok, previous;
      }
      if (count + 1) * 2 > slots.Length {
        code := Grow(keyOf, granted);
        if !code.Ok? {
          return;
        }
        slot, found, steps := FindSlot(slots, hash, keyOf, key, model);
      }
      FillHolds(slots[..], hash, keyOf, model, index, steps);
      OccupiedFill(slots[..], slot, index);
      ghost var before := slots[..];
      slots[slot] := index;
      assert slots[..] == before[slot := index];
      count := count + 1;
      model := model[key := index];
      code := Ok;
    }
  }

  lemma StoredKey(slots: seq<nat>, hash: Hash, keyOf: KeyOf, model: map<Key, nat>, key: Key)
    requires Holds(slots, hash, keyOf, model) && key in model
    ensures keyOf(model[key]) == key
  {
  }

  /** Validity depends on the keys of the stored indices only, so the owner may grow its own table. */
  lemma ValidFrame(keys: Keys, keyOf: KeyOf, keyOf': KeyOf)
    requires keys.Valid(keyOf)
    requires forall k :: k in keys.model ==> keyOf'(keys.model[k]) == k
    ensures keys.Valid(keyOf')
  {
    HoldsFrame(keys.slots[..], keys.hash, keyOf, keyOf', keys.model);
    hide Holds;
  }

  lemma HoldsFrame(slots: seq<nat>, hash: Hash, keyOf: KeyOf, keyOf': KeyOf, model: map<Key, nat>)
    requires Holds(slots, hash, keyOf, model)
    requires forall k :: k in model ==> keyOf'(model[k]) == k
    ensures Holds(slots, hash, keyOf', model)
  {
    hide Reachable;
    forall s | 0 <= s < |slots| && slots[s] != VALUE_NONE ensures keyOf'(slots[s]) == keyOf(slots[s]) {
      assert model[keyOf(slots[s])] == slots[s];
    }
  }
}
