/** The writer: a state machine over a stack of open containers, a pending key and a sticky failure. */
module Writer {
  import opened Basics
  import opened Utf8
  import opened Numeral
  import opened Trees
  import opened TextEscape
  import opened Printer
  import opened AsciiForm
  import opened LinkedTable
  import opened TokenTable
  import opened Keyset
  import opened Nodes
  import opened KeySort
  import opened WriterState
  import opened Order
  import opened Reader
  import opened Acceptance
  import opened CanonicalForm
  import opened DocumentApi
  import opened CopyRoom
  import opened Memory
  import Children
  import Serializer

  const INITIAL_NODES: nat := 16
  const INITIAL_KEYS: nat := 16

  lemma NodeKeysFound(nodes: NodeTable, model: map<Key, nat>)
    requires KeysIndexed(nodes, model)
    ensures forall k :: k in model ==> NodeKeyFn(nodes)(model[k]) == k
  {
  }

  /** A call answers MEMORY exactly when a request of its was refused. */
  predicate MemoryTells(before: nat, after: nat, code: Code) {
    before <= after && (code.Memory? <==> before < after)
  }

  class Writer {
    const profile: Profile
    const limits: Limits
    const style: Style
    const newline: bool
    const keys: Keys
    const stack: array<nat>
    const memory: Allocator
    var nodes: NodeTable
    var nodeCapacity: nat
    var depth: nat
    var pendingKey: Option<Bytes>
    var finished: bool
    var failure: Code
    /** The open containers and the finished root the nodes stand for. */
    ghost var frames: seq<Frame>
    ghost var root: Option<Rose<Data>>

    ghost function Now(): Snapshot
      reads this
    {
      Snapshot(nodes, frames, root, pendingKey, failure, finished)
    }

    ghost predicate Valid()
      reads this, keys, keys.slots, stack
    {
      && !profile.LastWins? && !failure.Argument?
      && 0 < limits.maximumDepth == stack.Length && 0 < limits.maximumTokens <= SIZE_MAX / 256
      && 0 < limits.maximumBytes < SIZE_MAX / 2
      && stack != keys.slots
      && depth <= stack.Length && |nodes| <= nodeCapacity <= limits.maximumTokens
      && (failure.Ok? ==>
            && Built(profile, Now(), stack[..depth], keys.model) && keys.Valid(NodeKeyFn(nodes))
            && NestsOk(limits.maximumDepth, frames, root))
    }

    constructor (profile: Profile, limits: Limits, style: Style, newline: bool, hash: Hash, memory: Allocator)
      requires !profile.LastWins? && 0 < limits.maximumDepth && 0 < limits.maximumTokens <= SIZE_MAX / 256
      requires 0 < limits.maximumBytes < SIZE_MAX / 2
      ensures Valid() && Now() == Snapshot([], [], None, None, Ok, false)
      ensures this.profile == profile && this.limits == limits && this.style == style && this.newline == newline
      ensures this.memory == memory && fresh(keys) && fresh(keys.slots) && fresh(stack)
    {
      this.profile, this.limits, this.style, this.newline, this.memory := profile, limits, style, newline, memory;
      keys := new Keys(INITIAL_KEYS, hash, NodeKeyFn([]));
      stack := new nat[limits.maximumDepth](_ => 0);
      nodes, nodeCapacity, depth, pendingKey, finished, failure := [], 0, 0, None, false, Ok;
      frames, root := [], None;
      new;
      assert Built(profile, Now(), stack[..depth], keys.model);
    }

    /** Records the first failure and returns this one. */
    method Fail(code: Code) returns (r: Code)
      modifies this`failure
      ensures r == code && failure == if old(failure).Ok? then code else old(failure)
    {
      if failure.Ok? {
        failure := code;
      }
      r := code;
    }

    /** writer_ready. */
    method CheckReady() returns (code: Code)
      ensures code == if Ready(Now()) then Ok else Code.State
    {
      code := if finished || !failure.Ok? then Code.State else Ok;
    }

    /** Room for one more node; capacity doubles up to the token limit. */
    method GrowNodes() returns (code: Code)
      requires |nodes| <= nodeCapacity <= limits.maximumTokens
      modifies this`nodeCapacity, memory
      ensures MemoryTells(old(memory.refusals), memory.refusals, code)
      ensures |nodes| <= nodeCapacity <= limits.maximumTokens && old(nodeCapacity) <= nodeCapacity
      ensures |nodes| >= limits.maximumTokens ==> code.Limit?
      ensures |nodes| < limits.maximumTokens ==> code.Ok? || code.Memory?
      ensures code.Ok? ==> |nodes| < nodeCapacity
    {
      if |nodes| >= limits.maximumTokens {
        return Code.Limit;
      }
      if |nodes| < nodeCapacity {
        return Ok;
      }
      var capacity := if nodeCapacity != 0 then nodeCapacity * 2 else INITIAL_NODES;
      if capacity > limits.maximumTokens {
        capacity := limits.maximumTokens;
      }
      var granted := memory.Ask();
      if !granted {
        return Code.Memory;
      }
      nodeCapacity := capacity;
      code := Ok;
    }

    /** Appends a node below the current container or as the root, taking the pending key. */
    method AttachNode(data: Data) returns (code: Code, index: nat)
      requires Valid() && Ready(Now()) && data.key.None? && DataOk(profile, data)
      modifies this`nodes, this`nodeCapacity, this`pendingKey, this`failure, keys, keys.slots, memory
      ensures MemoryTells(old(memory.refusals), memory.refusals, code)
      ensures keys.slots == old(keys.slots) || fresh(keys.slots)
      ensures |nodes| <= nodeCapacity <= limits.maximumTokens
      ensures !code.Ok? ==> failure == code && !code.Argument?
      ensures !Accepts(old(Now())) ==> code.State?
      ensures Accepts(old(Now())) ==>
                if |old(nodes)| >= limits.maximumTokens then code.Limit? else code.Ok? || code.Memory?
      ensures code.Ok? ==>
                var full := data.(key := old(pendingKey));
                && failure.Ok? && pendingKey.None? && index == |old(nodes)|
                && nodes == Fresh(old(nodes), Innermost(frames), full)
                && keys.model == Entered(old(keys.model), Innermost(frames), full, index)
                && keys.Valid(NodeKeyFn(nodes))
    {
      hide Attach, Fresh, KeysIndexed, NodesOk, StackOk, FramesOk, RootOk, PendingOk, TableOf, Holds, Occupied,
           PowerOfTwo, NestsOk, NodeKeyFn, DataOk, Chain, Innermost;
      ghost var was, model := Now(), keys.model;
      Where(profile, was, stack[..depth], model);
      index := |nodes|;
      var container := if depth > 0 then stack[depth - 1] else VALUE_NONE;
      if depth == 0 && |nodes| > 0 {
        code := Fail(Code.State);
        return;
      }
      var needsKey := depth > 0 && nodes[container].data.kind.ObjectKind?;
      if needsKey != pendingKey.Some? {
        code := Fail(Code.State);
        return;
      }
      code := GrowNodes();
      if !code.Ok? {
        code := Fail(code);
        return;
      }
      ghost var full := data.(key := was.pending);
      nodes := nodes + [Cell(LinksInit(container), data.(key := pendingKey))];
      pendingKey := None;
      UnlinkedKeys(was.nodes, container, full, model);
      ValidFrame(keys, NodeKeyFn(was.nodes), NodeKeyFn(nodes));
      if needsKey {
        KeyIsNew(profile, was, stack[..depth], model);
        KeysWithinNodes(was.nodes, model);
        code := EnterKey(index);
        if !code.Ok? {
          code := Fail(code);
          return;
        }
      }
      LinkAndReindex(was, container, full, model);
    }

    /** Enters the last node's key, which is new. */
    method EnterKey(index: nat) returns (code: Code)
      requires index < VALUE_NONE && keys.Valid(NodeKeyFn(nodes)) && NodeKeyFn(nodes)(index) !in keys.model
      requires |keys.model| <= SIZE_MAX / 256
      modifies keys, keys.slots, memory
      ensures MemoryTells(old(memory.refusals), memory.refusals, code)
      ensures keys.Valid(NodeKeyFn(nodes)) && (keys.slots == old(keys.slots) || fresh(keys.slots))
      ensures code.Ok? || code.Memory?
      ensures keys.model == if code.Ok? then old(keys.model)[NodeKeyFn(nodes)(index) := index] else old(keys.model)
    {
      hide Holds, Occupied, PowerOfTwo, NodeKeyFn;
      // Only growth asks for memory.
      var granted := true;
      if 2 * (keys.count + 1) > keys.slots.Length {
        granted := memory.Ask();
      }
      var previous;
      code, previous := keys.Insert(index, false, NodeKeyFn(nodes), granted);
    }

    /** Links the new node below its container; the key set keeps reading the same keys. */
    method LinkAndReindex(ghost was: Snapshot, container: nat, ghost full: Data, ghost model: map<Key, nat>)
      requires nodes == was.nodes + [Cell(LinksInit(container), full)] && |was.nodes| < VALUE_NONE
      requires if depth == 0 then container == VALUE_NONE else Attachable(was.nodes, container)
      requires keys.Valid(NodeKeyFn(nodes)) && KeysIndexed(was.nodes, model)
      requires full.key.Some? ==> Key(container, full.key.value) !in model
      requires keys.model == Entered(model, container, full, |was.nodes|)
      modifies this`nodes
      ensures nodes == Fresh(was.nodes, container, full) && keys.Valid(NodeKeyFn(nodes))
      ensures |nodes| == |was.nodes| + 1
    {
      hide Attach, KeysIndexed, Holds, Occupied, PowerOfTwo, NestsOk, NodeKeyFn, Entered;
      ghost var unlinked := nodes;
      RootStaysUnlinked(was.nodes, full);
      FreshIndexed(was.nodes, container, full, model);
      if depth > 0 {
        nodes := LinkNode(nodes, container, was.nodes, full);
      }
      NodeKeysFound(nodes, keys.model);
      ValidFrame(keys, NodeKeyFn(unlinked), NodeKeyFn(nodes));
    }

    /** A scalar, with the fields of its node. */
    method AttachScalar(data: Data) returns (code: Code)
      requires Valid() && data.key.None? && DataOk(profile, data) && !data.kind.ObjectKind? && !data.kind.ArrayKind?
      modifies this`nodes, this`nodeCapacity, this`pendingKey, this`failure, this`frames, this`root, keys, keys.slots,
               memory
      ensures MemoryTells(old(memory.refusals), memory.refusals, code)
      ensures Valid() && (keys.slots == old(keys.slots) || fresh(keys.slots))
      ensures Attached(old(Now()), Now(), Placed(old(Now()), Rose(data.(key := old(pendingKey)), [])), code,
                       limits.maximumTokens)
    {
      hide Attach, Fresh, KeysIndexed, NodesOk, StackOk, FramesOk, RootOk, PendingOk, TableOf, Holds, Occupied,
           PowerOfTwo, NestsOk, NodeKeyFn, Innermost, Entered, IsNumber, Printable;
      ghost var was, model, open := Now(), keys.model, stack[..depth];
      code := CheckReady();
      if !code.Ok? {
        return;
      }
      var index;
      code, index := AttachNode(data);
      if !code.Ok? {
        return;
      }
      ghost var full := data.(key := was.pending);
      PendingPrintable(profile, was, open, model);
      LeafPlaces(was, full);
      PlaceKeeps(profile, was, full, open, model);
      ScalarNests(full, limits.maximumDepth - |was.frames|);
      PlaceNests(limits.maximumDepth, was, Rose(full, []));
      root, frames := Placed(was, Rose(full, [])).root, Placed(was, Rose(full, [])).frames;
    }

    method ContainerBegin(kind: Kind) returns (code: Code)
      requires Valid() && (kind.ObjectKind? || kind.ArrayKind?)
      modifies this`nodes, this`nodeCapacity, this`pendingKey, this`failure, this`frames, this`depth, stack,
               keys, keys.slots, memory
      ensures MemoryTells(old(memory.refusals), memory.refusals, code)
      ensures Valid() && (keys.slots == old(keys.slots) || fresh(keys.slots))
      ensures if Ready(old(Now())) && |old(frames)| >= limits.maximumDepth then
                code.Limit? && Rejected(old(Now()), Now(), code)
              else
                Attached(old(Now()), Now(), Opened(old(Now()), Plain(kind, old(pendingKey))), code, limits.maximumTokens)
    {
      hide Attach, Fresh, KeysIndexed, NodesOk, FramesOk, RootOk, PendingOk, TableOf, Holds, Occupied, PowerOfTwo,
           NestsOk, NodeKeyFn, Innermost, Entered, IsNumber, Printable;
      ghost var was, model, open := Now(), keys.model, stack[..depth];
      code := CheckReady();
      if !code.Ok? {
        return;
      }
      Where(profile, was, open, model);
      if depth >= limits.maximumDepth {
        code := Fail(Code.Limit);
        return;
      }
      var index;
      code, index := AttachNode(Plain(kind, None));
      if !code.Ok? {
        return;
      }
      ghost var full := Plain(kind, was.pending);
      PendingPrintable(profile, was, open, model);
      OpenKeeps(profile, was, full, open, model);
      OpenNests(limits.maximumDepth, was, full);
      stack[depth] := index;
      depth := depth + 1;
      assert stack[..depth] == open + [index];
      frames := Opened(was, full).frames;
    }

    method ContainerEnd(kind: Kind) returns (code: Code)
      requires Valid()
      modifies this`failure, this`depth, this`frames, this`root
      ensures Valid()
      ensures if !Ready(old(Now())) then code.State? && Now() == old(Now())
              else if old(frames) == [] || old(frames)[|old(frames)| - 1].data.kind != kind || old(pendingKey).Some? then
                code.State? && Rejected(old(Now()), Now(), code)
              else code.Ok? && Now() == Closed(old(Now()))
    {
      hide Attach, Fresh, KeysIndexed, NodesOk, FramesOk, RootOk, PendingOk, TableOf, Holds, Occupied, PowerOfTwo,
           NestsOk, NodeKeyFn, Accepts, Innermost, StackOk;
      ghost var was, model := Now(), keys.model;
      code := CheckReady();
      if !code.Ok? {
        return;
      }
      Where(profile, was, stack[..depth], model);
      if depth == 0 || nodes[stack[depth - 1]].data.kind != kind || pendingKey.Some? {
        code := Fail(Code.State);
        return;
      }
      CloseKeeps(profile, was, stack[..depth], model);
      CloseNests(limits.maximumDepth, was);
      assert stack[..depth][..depth - 1] == stack[..depth - 1];
      depth := depth - 1;
      root, frames := Closed(was).root, Closed(was).frames;
    }

    method ObjectBegin() returns (code: Code)
      requires Valid()
      modifies this`nodes, this`nodeCapacity, this`pendingKey, this`failure, this`frames, this`depth, stack,
               keys, keys.slots, memory
      ensures MemoryTells(old(memory.refusals), memory.refusals, code)
      ensures Valid() && (keys.slots == old(keys.slots) || fresh(keys.slots))
      ensures if Ready(old(Now())) && |old(frames)| >= limits.maximumDepth then
                code.Limit? && Rejected(old(Now()), Now(), code)
              else
                Attached(old(Now()), Now(), Opened(old(Now()), Plain(ObjectKind, old(pendingKey))), code,
                         limits.maximumTokens)
    {
      code := ContainerBegin(ObjectKind);
    }

    /** valid_text: what the profile can carry. */
    method ValidText(text: Bytes) returns (ok: bool)
      requires !profile.LastWins?
      ensures ok == Printable(profile, text)
    {
      var i := 0;
      if profile.Rfc8259? {
        while i < |text|
          invariant 0 <= i <= |text| && forall k :: 0 <= k < i ==> text[k] != 0
        {
          if text[i] == 0 {
            return false;
          }
          i := i + 1;
        }
        var size := ValidPrefix(text);
        return size == |text|;
      }
      while i < |text|
        invariant 0 <= i <= |text|
        invariant forall k :: 0 <= k < i ==> 0x20 <= text[k] <= 0x7E && text[k] != QUOTE && text[k] != BACKSLASH
      {
        var byte := text[i];
        if byte < 0x20 || byte > 0x7E || byte == QUOTE || byte == BACKSLASH {
          return false;
        }
        i := i + 1;
      }
      return true;
    }

    /** The key of the next member: refused when it is already there, and only then for that reason. */
    method WriteKey(key: Bytes) returns (code: Code)
      requires Valid()
      modifies this`pendingKey, this`failure, memory
      ensures MemoryTells(old(memory.refusals), memory.refusals, code)
      ensures Valid()
      ensures var a := old(Now());
              if !Printable(profile, key) then code.Argument? && Now() == a
              else if !Ready(a) then code.State? && Now() == a
              else if a.frames == [] || !a.frames[|a.frames| - 1].data.kind.ObjectKind? || a.pending.Some? then
                code.State? && Rejected(a, Now(), code)
              else if |key| > limits.maximumBytes then code.Limit? && Rejected(a, Now(), code)
              else if HasName(a.frames[|a.frames| - 1].kids, key) then code.DuplicateKey? && Rejected(a, Now(), code)
              else (code.Ok? && Now() == a.(pending := Some(key))) || (code.Memory? && Rejected(a, Now(), code))
    {
      hide KeysIndexed, NodesOk, RootOk, TableOf, Holds, Occupied, PowerOfTwo, NestsOk, NodeKeyFn, Innermost, StackOk,
           HasName, Printable, FrameOk, Belongs;
      ghost var was, model := Now(), keys.model;
      var valid := ValidText(key);
      if !valid {
        return Argument;
      }
      code := CheckReady();
      if !code.Ok? {
        return;
      }
      Where(profile, was, stack[..depth], model);
      if depth == 0 || !nodes[stack[depth - 1]].data.kind.ObjectKind? || pendingKey.Some? {
        code := Fail(Code.State);
        return;
      }
      if |key| > limits.maximumBytes {
        code := Fail(Code.Limit);
        return;
      }
      NamesHere(profile, was, stack[..depth], model, key);
      var found := keys.Contains(Key(stack[depth - 1], key), NodeKeyFn(nodes));
      if found {
        code := Fail(Code.DuplicateKey);
        return;
      }
      var granted := memory.Ask();
      if !granted {
        code := Fail(Code.Memory);
        return;
      }
      pendingKey := Some(key);
      code := Ok;
    }

    method WriteString(value: Bytes) returns (code: Code)
      requires Valid()
      modifies this`nodes, this`nodeCapacity, this`pendingKey, this`failure, this`frames, this`root, keys, keys.slots,
               memory
      ensures MemoryTells(old(memory.refusals), memory.refusals, code)
      ensures Valid() && (keys.slots == old(keys.slots) || fresh(keys.slots))
      ensures var a := old(Now());
              if !Printable(profile, value) then code.Argument? && Now() == a
              else if Ready(a) && |value| > limits.maximumBytes then code.Limit? && Rejected(a, Now(), code)
              else
                Attached(a, Now(), Placed(a, Rose(Data(StringKind, a.pending, Some(value), 0, false), [])), code,
                         limits.maximumTokens) ||
                (Ready(a) && code.Memory? && Rejected(a, Now(), code))
    {
      hide Built, Holds, Occupied, PowerOfTwo, NestsOk, NodeKeyFn, Printable, Placed, Accepts;
      var valid := ValidText(value);
      if !valid {
        return Argument;
      }
      code := CheckReady();
      if !code.Ok? {
        return;
      }
      if |value| > limits.maximumBytes {
        code := Fail(Code.Limit);
        return;
      }
      var granted := memory.Ask();
      if !granted {
        code := Fail(Code.Memory);
        return;
      }
      code := AttachScalar(Data(StringKind, None, Some(value), 0, false));
    }

    /** A number as an integer of 64 bits, unsigned or signed. */
    method WriteInteger(value: int) returns (code: Code)
      requires Valid() && -(I64_MIN_MAGNITUDE as int) <= value <= U64_MAX
      modifies this`nodes, this`nodeCapacity, this`pendingKey, this`failure, this`frames, this`root, keys, keys.slots,
               memory
      ensures MemoryTells(old(memory.refusals), memory.refusals, code)
      ensures Valid() && (keys.slots == old(keys.slots) || fresh(keys.slots))
      ensures Attached(old(Now()), Now(),
                       Placed(old(Now()), Rose(Data(NumberKind, old(pendingKey), None, value, false), [])), code,
                       limits.maximumTokens)
    {
      hide Built, Holds, Occupied, PowerOfTwo, NestsOk, NodeKeyFn, Placed, Accepts, IsNumber, RenderInt;
      RenderedIsNumber(value);
      code := AttachScalar(Data(NumberKind, None, None, value, false));
    }

    /** A number as a lexeme of at most `maximum` bytes. */
    method WriteLexeme(lexeme: Bytes, maximum: nat) returns (code: Code)
      requires Valid()
      modifies this`nodes, this`nodeCapacity, this`pendingKey, this`failure, this`frames, this`root, keys, keys.slots,
               memory
      ensures MemoryTells(old(memory.refusals), memory.refusals, code)
      ensures Valid() && (keys.slots == old(keys.slots) || fresh(keys.slots))
      ensures var a := old(Now());
              if |lexeme| > maximum || !IsNumber(lexeme) then code.Argument? && Now() == a
              else if Ready(a) && |lexeme| > limits.maximumBytes then code.Limit? && Rejected(a, Now(), code)
              else
                Attached(a, Now(), Placed(a, Rose(Data(NumberKind, a.pending, Some(lexeme), 0, false), [])), code,
                         limits.maximumTokens) ||
                (Ready(a) && code.Memory? && Rejected(a, Now(), code))
    {
      hide Built, Holds, Occupied, PowerOfTwo, NestsOk, NodeKeyFn, Placed, Accepts, IsNumber;
      var number := NumberSyntax(lexeme);
      if |lexeme| > maximum || !number {
        return Argument;
      }
      code := CheckReady();
      if !code.Ok? {
        return;
      }
      if |lexeme| > limits.maximumBytes {
        code := Fail(Code.Limit);
        return;
      }
      var granted := memory.Ask();
      if !granted {
        code := Fail(Code.Memory);
        return;
      }
      code := AttachScalar(Data(NumberKind, None, Some(lexeme), 0, false));
    }

    method WriteNumberText(lexeme: Bytes) returns (code: Code)
      requires Valid()
      modifies this`nodes, this`nodeCapacity, this`pendingKey, this`failure, this`frames, this`root, keys, keys.slots,
               memory
      ensures MemoryTells(old(memory.refusals), memory.refusals, code)
      ensures Valid() && (keys.slots == old(keys.slots) || fresh(keys.slots))
      ensures code.Argument? <==> |lexeme| > 64 || !IsNumber(lexeme)
      ensures code.Argument? ==> Now() == old(Now())
      ensures code.Ok? ==>
                && Ready(old(Now())) && Accepts(old(Now()))
                && Now() == Placed(old(Now()), Rose(Data(NumberKind, old(pendingKey), Some(lexeme), 0, false), []))
      ensures !code.Ok? ==> Rejected(old(Now()), Now(), code)
    {
      hide Built, Holds, Occupied, PowerOfTwo, NestsOk, NodeKeyFn, Placed, Accepts, IsNumber;
      code := WriteLexeme(lexeme, MAXIMUM_NUMBER_TEXT);
    }

    method WriteBoolean(enabled: bool) returns (code: Code)
      requires Valid()
      modifies this`nodes, this`nodeCapacity, this`pendingKey, this`failure, this`frames, this`root, keys, keys.slots,
               memory
      ensures MemoryTells(old(memory.refusals), memory.refusals, code)
      ensures Valid() && (keys.slots == old(keys.slots) || fresh(keys.slots))
      ensures Attached(old(Now()), Now(),
                       Placed(old(Now()), Rose(Data(BooleanKind, old(pendingKey), None, 0, enabled), [])), code,
                       limits.maximumTokens)
    {
      code := AttachScalar(Data(BooleanKind, None, None, 0, enabled));
    }

    method WriteNull() returns (code: Code)
      requires Valid()
      modifies this`nodes, this`nodeCapacity, this`pendingKey, this`failure, this`frames, this`root, keys, keys.slots,
               memory
      ensures MemoryTells(old(memory.refusals), memory.refusals, code)
      ensures Valid() && (keys.slots == old(keys.slots) || fresh(keys.slots))
      ensures Attached(old(Now()), Now(), Placed(old(Now()), Rose(Plain(NullKind, old(pendingKey)), [])), code,
                       limits.maximumTokens)
    {
      code := AttachScalar(Plain(NullKind, None));
    }

    /** The whole text, once: nothing may be open and something must have been written. */
    method Finish() returns (code: Code, text: Bytes)
      requires Valid()
      modifies this`failure, this`finished, memory
      ensures MemoryTells(old(memory.refusals), memory.refusals, code)
      ensures Valid()
      ensures var a := old(Now());
              if !Ready(a) then code.State? && Now() == a
              else if a.frames != [] || a.pending.Some? || a.root.None? then code.State? && Rejected(a, Now(), code)
              else
                var output := Output(Sorted(TreeOf(a.root.value)), style, newline);
                if code.Ok? then Now() == a.(finished := true) && text == output && |output| <= limits.maximumBytes
                else
                  && Rejected(a, Now(), code)
                  && (code.Memory? || (code.Limit? && |output| > limits.maximumBytes))
      ensures code.Ok? ==>
                && Sound(profile, root.value) && Nests(TreeOf(root.value), limits.maximumDepth)
                && Tokens(TreeOf(root.value)) < 2 * limits.maximumTokens
      ensures code.Ok? && style.ascii ==> AllAscii(text)
    {
      hide NodesOk, StackOk, FramesOk, Holds, Occupied, PowerOfTwo, NestsOk, NodeKeyFn, Innermost, Sound, KeysIndexed,
           TableOf, InTable, Output, Sorted, TreeOf, KeysValid, Tokens, Size, Nests;
      ghost var was, model := Now(), keys.model;
      text := [];
      code := CheckReady();
      if !code.Ok? {
        return;
      }
      Where(profile, was, stack[..depth], model);
      if depth > 0 || pendingKey.Some? || |nodes| == 0 {
        code := Fail(Code.State);
        return;
      }
      ReadyToPrint(profile, was, stack[..depth], model);
      RootNests(limits.maximumDepth, was);
      code, text := Serializer.Serialize(nodes, limits.maximumBytes, style, newline, profile, root.value, memory);
      if !code.Ok? {
        code := Fail(code);
        return;
      }
      finished := true;
    }

    // ----- copying from a document

    /** What an unsuccessful step of a copy leaves: not finished, and failed only with this code. */
    ghost predicate Broken(code: Code)
      reads this
    {
      !code.Ok? && !finished && (failure.Ok? || failure == code)
    }

    /** copy_number: an integer by value, anything else by the lexeme the parser kept. */
    method CopyNumber(document: Finished, value: nat, ghost j: Json) returns (code: Code, ghost r: Rose<Data>)
      requires Valid() && Ready(Now()) && document.Valid() && Shows(document.tokens, value, j)
      requires j.Number? && IsNumber(j.lexeme)
      modifies this`nodes, this`nodeCapacity, this`pendingKey, this`failure, this`frames, this`root, keys, keys.slots,
               memory
      ensures MemoryTells(old(memory.refusals), memory.refusals, code)
      ensures Valid() && (keys.slots == old(keys.slots) || fresh(keys.slots))
      ensures code.Ok? ==> Now() == Placed(old(Now()), r)
      ensures code.Ok? ==> TreeOf(r) == Normalized(j) && r.data.key == old(pendingKey)
      ensures !code.Ok? ==> Broken(code)
      // With room for it, a copy fails only for a number out of range or for memory.
      ensures code.Ok? ==> Size(r) == NodesOf(j) && InRange(j)
      ensures CanHold(old(Now()), j, limits) && Carried(profile, j) && !code.Ok? ==> OnlyRange(code, j)
    {
      hide Built, Holds, Occupied, PowerOfTwo, NestsOk, NodeKeyFn, Placed, Accepts, IsNumber, Children.Laid, Cells,
           Normal, RenderInt, AsU64, AsI64, AsInteger;
      ghost var key := pendingKey;
      ghost var q := TokenShows(document.tokens, value, j);
      r := Rose(Plain(NullKind, None), []);
      var text := if document.tokens[value].cell.data.text.Some? then document.tokens[value].cell.data.text.value else [];
      CopyCases(text);
      var number: int;
      if |text| > 0 && text[0] == MINUS {
        code, number := document.ValueI64(value, j);
      } else {
        code, number := document.ValueU64(value, j);
      }
      if !code.NotInteger? {
        if !code.Ok? {
          return;
        }
        r := Rose(Data(NumberKind, key, None, number, false), []);
        code := WriteInteger(number);
        return;
      }
      r := Rose(Data(NumberKind, key, Some(text), 0, false), []);
      code := WriteLexeme(text, limits.maximumBytes);
    }

    /** copy_value: the subtree of the handle, "-0" written as 0. */
    method CopyValue(document: Finished, value: nat, ghost profile': Profile, ghost j: Json)
      returns (code: Code, ghost r: Rose<Data>)
      requires Valid() && Ready(Now()) && document.Valid() && Shows(document.tokens, value, j) && Carried(profile', j)
      requires document.children != stack && document.children != keys.slots
      modifies this`nodes, this`nodeCapacity, this`pendingKey, this`failure, this`frames, this`root, this`depth, stack,
               keys, keys.slots, memory
      ensures MemoryTells(old(memory.refusals), memory.refusals, code)
      ensures Valid() && (keys.slots == old(keys.slots) || fresh(keys.slots))
      ensures code.Ok? ==> Now() == Placed(old(Now()), r)
      ensures code.Ok? ==> TreeOf(r) == Normalized(j) && r.data.key == old(pendingKey)
      ensures !code.Ok? ==> Broken(code)
      // With room for it, a copy fails only for a number out of range or for memory.
      ensures code.Ok? ==> Size(r) == NodesOf(j) && InRange(j)
      ensures CanHold(old(Now()), j, limits) && Carried(profile, j) && !code.Ok? ==> OnlyRange(code, j)
      decreases j, 2
    {
      hide Built, Holds, Occupied, PowerOfTwo, NestsOk, NodeKeyFn, Placed, Accepts, IsNumber, Children.Laid, Cells,
           Printable;
      ghost var q := TokenShows(document.tokens, value, j);
      ghost var key := pendingKey;
      r := Rose(Plain(NullKind, None), []);
      var token := document.tokens[value].cell.data;
      match token.kind {
        case ObjectKind => code, r := CopyObject(document, value, profile', j);
        case ArrayKind => code, r := CopyArray(document, value, profile', j);
        case StringKind =>
          var text := if token.text.Some? then token.text.value else [];
          r := Rose(Data(StringKind, key, Some(text), 0, false), []);
          code := WriteString(text);
        case NumberKind => code, r := CopyNumber(document, value, j);
        case BooleanKind =>
          r := Rose(Data(BooleanKind, key, None, 0, token.boolean), []);
          code := WriteBoolean(token.boolean);
        case NullKind =>
          r := Rose(Plain(NullKind, key), []);
          code := WriteNull();
      }
    }

    method CopyArray(document: Finished, value: nat, ghost profile': Profile, ghost j: Json)
      returns (code: Code, ghost r: Rose<Data>)
      requires Valid() && Ready(Now()) && document.Valid() && Shows(document.tokens, value, j) && Carried(profile', j)
      requires document.children != stack && document.children != keys.slots && j.Array?
      modifies this`nodes, this`nodeCapacity, this`pendingKey, this`failure, this`frames, this`root, this`depth, stack,
               keys, keys.slots, memory
      ensures MemoryTells(old(memory.refusals), memory.refusals, code)
      ensures Valid() && (keys.slots == old(keys.slots) || fresh(keys.slots))
      ensures code.Ok? ==> Now() == Placed(old(Now()), r)
      ensures code.Ok? ==> TreeOf(r) == Normalized(j) && r.data.key == old(pendingKey)
      ensures !code.Ok? ==> Broken(code)
      // With room for it, a copy fails only for a number out of range or for memory.
      ensures code.Ok? ==> Size(r) == NodesOf(j) && InRange(j)
      ensures CanHold(old(Now()), j, limits) && Carried(profile, j) && !code.Ok? ==> OnlyRange(code, j)
      decreases j, 1
    {
      hide Built, Holds, Occupied, PowerOfTwo, NestsOk, NodeKeyFn, Placed, Accepts, Children.Laid, Cells, TableOf,
           TreeOf, Normalized, RoseOf, Filled, Opened, WriterState.Closed, CanHold, ItemsDone, NodesOf, InRange,
           Carried, Size;
      ghost var was := Now();
      ghost var data := Plain(ArrayKind, pendingKey);
      ghost var q := TokenShows(document.tokens, value, j);
      ghost var done: seq<Rose<Data>> := [];
      r := Rose(data, done);
      ArrayRose(j.items);
      ghost var room := CanHold(was, j, limits) && Carried(profile, j);
      if room {
        RoomToOpen(was, j, limits);
      }
      NothingDone(j);
      var count := document.tokens[value].cell.links.count;
      code := ContainerBegin(ArrayKind);
      FilledStarts(was, data);
      var i := 0;
      while code.Ok? && i < count
        invariant Valid() && (keys.slots == old(keys.slots) || fresh(keys.slots))
        invariant i <= count == |j.items| == |RoseOf(j).kids|
        invariant code.Ok? ==> Now() == Filled(was, data, done) && |done| == i
        invariant forall k :: 0 <= k < |done| ==> k < |j.items| && TreeOf(done[k]) == Normalized(j.items[k])
        invariant ItemsDone(done, j.items) && |done| <= |j.items|
        invariant forall k :: 0 <= k < |done| ==> InRange(j.items[k])
        invariant MemoryTells(old(memory.refusals), memory.refusals, code)
        invariant !code.Ok? ==> Broken(code) && (room ==> OnlyRange(code, j))
        decreases count - i
      {
        var element;
        code, element := document.ArrayGet(value, i, j);
        ghost var kid;
        code, kid := CopyElement(document, element, profile', j, i, was, data, done);
        if code.Ok? {
          ItemDone(done, j.items, kid);
          done := done + [kid];
        } else {
          ItemFails(code, j, i);
        }
        i := i + 1;
      }
      if !code.Ok? {
        return;
      }
      r := Rose(data, done);
      FilledIsReady(was, data, done);
      FilledCloses(was, data, done);
      code := ContainerEnd(ArrayKind);
      ArrayNormal(r, j);
      ArrayDoneSize(r, j);
      AllInRange(j);
    }

    method CopyElement(document: Finished, element: nat, ghost profile': Profile, ghost j: Json, ghost at: nat,
                       ghost was: Snapshot, ghost data: Data, ghost done: seq<Rose<Data>>)
      returns (code: Code, ghost kid: Rose<Data>)
      requires Valid() && document.Valid() && Carried(profile', j) && j.Array? && at < |j.items|
      requires Shows(document.tokens, element, j.items[at])
      requires document.children != stack && document.children != keys.slots
      requires Now() == Filled(was, data, done) && Ready(was)
      modifies this`nodes, this`nodeCapacity, this`pendingKey, this`failure, this`frames, this`root, this`depth, stack,
               keys, keys.slots, memory
      ensures MemoryTells(old(memory.refusals), memory.refusals, code)
      ensures Valid() && (keys.slots == old(keys.slots) || fresh(keys.slots))
      ensures code.Ok? ==> Now() == Filled(was, data, done + [kid]) && TreeOf(kid) == Normalized(j.items[at])
      ensures !code.Ok? ==> Broken(code)
      ensures code.Ok? ==> Size(kid) == NodesOf(j.items[at]) && InRange(j.items[at])
      ensures !code.Ok? && CanHold(was, j, limits) && Carried(profile, j) && data.kind.ArrayKind? &&
              ItemsDone(done, j.items) && |done| == at
              ==> OnlyRange(code, j.items[at])
      decreases j, 0
    {
      hide Built, Holds, Occupied, PowerOfTwo, NestsOk, NodeKeyFn, Placed, Accepts, Children.Laid, Cells, TableOf,
           TreeOf, Normalized, Filled, CanHold, ItemsDone, OnlyRange, NodesOf, InRange, Carried;
      FilledIsReady(was, data, done);
      ItemCarried(profile, profile', j, at);
      if CanHold(was, j, limits) && data.kind.ArrayKind? && ItemsDone(done, j.items) && |done| == at {
        RoomForItem(was, data, j, done, limits);
      }
      code, kid := CopyValue(document, element, profile', j.items[at]);
      FilledGrows(was, data, done, kid, None);
    }

    method CopyObject(document: Finished, value: nat, ghost profile': Profile, ghost j: Json)
      returns (code: Code, ghost r: Rose<Data>)
      requires Valid() && Ready(Now()) && document.Valid() && Shows(document.tokens, value, j) && Carried(profile', j)
      requires document.children != stack && document.children != keys.slots && j.Object?
      modifies this`nodes, this`nodeCapacity, this`pendingKey, this`failure, this`frames, this`root, this`depth, stack,
               keys, keys.slots, memory
      ensures MemoryTells(old(memory.refusals), memory.refusals, code)
      ensures Valid() && (keys.slots == old(keys.slots) || fresh(keys.slots))
      ensures code.Ok? ==> Now() == Placed(old(Now()), r)
      ensures code.Ok? ==> TreeOf(r) == Normalized(j) && r.data.key == old(pendingKey)
      ensures !code.Ok? ==> Broken(code)
      // With room for it, a copy fails only for a number out of range or for memory.
      ensures code.Ok? ==> Size(r) == NodesOf(j) && InRange(j)
      ensures CanHold(old(Now()), j, limits) && Carried(profile, j) && !code.Ok? ==> OnlyRange(code, j)
      decreases j, 1
    {
      hide Built, Holds, Occupied, PowerOfTwo, NestsOk, NodeKeyFn, Placed, Accepts, Children.Laid, Cells, TableOf,
           TreeOf, Normalized, RoseOf, Filled, Opened, WriterState.Closed, MemberRoses, CanHold, MembersDone, NodesOf,
           InRange, Carried, Size;
      ghost var was := Now();
      ghost var data := Plain(ObjectKind, pendingKey);
      ghost var q := TokenShows(document.tokens, value, j);
      ghost var done: seq<Rose<Data>> := [];
      r := Rose(data, done);
      ObjectRose(j.members);
      ghost var room := CanHold(was, j, limits) && Carried(profile, j);
      if room {
        RoomToOpen(was, j, limits);
      }
      NothingDone(j);
      var count := document.tokens[value].cell.links.count / 2;
      code := ObjectBegin();
      FilledStarts(was, data);
      var i := 0;
      while code.Ok? && i < count
        invariant Valid() && (keys.slots == old(keys.slots) || fresh(keys.slots)) && i <= count == |j.members|
        invariant code.Ok? ==> Now() == Filled(was, data, done) && |done| == i
        invariant forall k :: 0 <= k < |done| ==> k < |j.members| && CopiedMember(done[k], j.members[k])
        invariant MembersDone(done, j.members) && |done| <= |j.members|
        invariant forall k :: 0 <= k < |done| ==> InRange(j.members[k].value)
        invariant MemoryTells(old(memory.refusals), memory.refusals, code)
        invariant !code.Ok? ==> Broken(code) && (room ==> OnlyRange(code, j))
        decreases count - i
      {
        var key, member;
        code, key, member := document.ObjectMemberAt(value, i, j);
        ghost var kid;
        code, kid := CopyMember(document, key, member, profile', j, i, was, data, done);
        if code.Ok? {
          MemberDone(done, j.members, kid);
          done := done + [kid];
        } else {
          MemberFails(code, j, i);
        }
        i := i + 1;
      }
      if !code.Ok? {
        return;
      }
      r := Rose(data, done);
      FilledIsReady(was, data, done);
      FilledCloses(was, data, done);
      code := ContainerEnd(ObjectKind);
      ObjectNormal(r, j);
      ObjectDoneSize(r, j);
      AllInRange(j);
    }

    /** A key and the copy of its value, inside an object being filled. */
    method CopyMember(document: Finished, key: Bytes, member: nat, ghost profile': Profile, ghost j: Json, ghost at: nat,
                      ghost was: Snapshot, ghost data: Data, ghost done: seq<Rose<Data>>)
      returns (code: Code, ghost kid: Rose<Data>)
      requires Valid() && document.Valid() && Carried(profile', j) && j.Object? && at < |j.members|
      requires key == j.members[at].key && Shows(document.tokens, member, j.members[at].value)
      requires document.children != stack && document.children != keys.slots
      requires Now() == Filled(was, data, done) && Ready(was) && data.kind.ObjectKind?
      modifies this`nodes, this`nodeCapacity, this`pendingKey, this`failure, this`frames, this`root, this`depth, stack,
               keys, keys.slots, memory
      ensures MemoryTells(old(memory.refusals), memory.refusals, code)
      ensures Valid() && (keys.slots == old(keys.slots) || fresh(keys.slots))
      ensures code.Ok? ==> Now() == Filled(was, data, done + [kid]) && CopiedMember(kid, j.members[at])
      ensures !code.Ok? ==> Broken(code)
      ensures code.Ok? ==> Size(kid) == NodesOf(j.members[at].value) && InRange(j.members[at].value)
      ensures !code.Ok? && CanHold(was, j, limits) && Carried(profile, j) && MembersDone(done, j.members) && |done| == at
              ==> OnlyRange(code, j.members[at].value)
      decreases j, 0
    {
      hide Built, Holds, Occupied, PowerOfTwo, NestsOk, NodeKeyFn, Placed, Accepts, Children.Laid, Cells, TableOf,
           TreeOf, Normalized, Filled, HasName, Printable, CanHold, MembersDone, NodesOf, InRange, Carried;
      FilledIsReady(was, data, done);
      MemberCarried(profile, profile', j, at);
      if CanHold(was, j, limits) && MembersDone(done, j.members) && |done| == at {
        RoomForMember(was, data, j, done, limits);
      }
      kid := Rose(Plain(NullKind, None), []);
      code := WriteKey(key);
      if !code.Ok? {
        return;
      }
      code, kid := CopyValue(document, member, profile', j.members[at].value);
      FilledGrows(was, data, done, kid, Some(key));
    }

    /** writer_value: a copy that breaks off leaves the writer failed, an ARGUMENT included. */
    method WriteValue(document: Finished, value: nat, ghost profile': Profile, ghost j: Json)
      returns (code: Code, ghost r: Rose<Data>)
      requires Valid() && document.Valid() && Carried(profile', j)
      requires value < |document.tokens| ==> Shows(document.tokens, value, j)
      requires document.children != stack && document.children != keys.slots
      modifies this`nodes, this`nodeCapacity, this`pendingKey, this`failure, this`frames, this`root, this`depth, stack,
               keys, keys.slots, memory
      ensures MemoryTells(old(memory.refusals), memory.refusals, code)
      ensures Valid() && (keys.slots == old(keys.slots) || fresh(keys.slots))
      ensures value >= |document.tokens| ==> code.Argument? && Now() == old(Now())
      ensures value < |document.tokens| && !Ready(old(Now())) ==> code.State? && Now() == old(Now())
      ensures code.Ok? ==>
                && Ready(old(Now())) && Now() == Placed(old(Now()), r)
                && TreeOf(r) == Normalized(j) && r.data.key == old(pendingKey)
      ensures value < |document.tokens| && Ready(old(Now())) && !code.Ok? ==>
                !finished && failure == if code.Argument? then Code.State else code
      ensures Stepped(old(Now()), Now(), code)
      // With room for it, it succeeds exactly when every number is in range, memory aside.
      ensures value < |document.tokens| && CanHold(old(Now()), j, limits) && Carried(profile, j) ==>
                code.Memory? || (if InRange(j) then code.Ok? else code.Range?)
    {
      hide Built, Holds, Occupied, PowerOfTwo, NestsOk, NodeKeyFn, Placed, Accepts, Children.Laid, Cells, TreeOf,
           Normalized, Printable;
      r := Rose(Plain(NullKind, None), []);
      if value >= |document.tokens| {
        return Argument, r;
      }
      code := CheckReady();
      if !code.Ok? {
        return;
      }
      code, r := CopyValue(document, value, profile', j);
      if !code.Ok? {
        code := CopyFailed(code);
      } else {
        PlacedIsReady(old(Now()), r);
      }
    }

    /** copy_failed. */
    method CopyFailed(code: Code) returns (r: Code)
      requires Valid() && Broken(code)
      modifies this`failure
      ensures Valid() && r == code && failure == if code.Argument? then Code.State else code
    {
      hide Built, Holds, Occupied, PowerOfTwo, NestsOk;
      if code.Argument? {
        var state := Fail(Code.State);
        return code;
      }
      r := Fail(code);
    }

    /** Opens an object and copies the members of another whose keys are not excluded. */
    method ObjectBeginExcept(document: Finished, value: nat, excluded: seq<Bytes>, ghost profile': Profile, ghost j: Json)
      returns (code: Code, ghost done: seq<Rose<Data>>)
      requires Valid() && document.Valid() && Carried(profile', j)
      requires value < |document.tokens| ==> Shows(document.tokens, value, j)
      requires document.children != stack && document.children != keys.slots
      modifies this`nodes, this`nodeCapacity, this`pendingKey, this`failure, this`frames, this`root, this`depth, stack,
               keys, keys.slots, memory
      ensures MemoryTells(old(memory.refusals), memory.refusals, code)
      ensures Valid() && (keys.slots == old(keys.slots) || fresh(keys.slots))
      ensures value >= |document.tokens| || !j.Object? ==> code.Argument? && Now() == old(Now())
      ensures code.Ok? ==>
                && j.Object? && Ready(old(Now()))
                && Now() == Filled(old(Now()), Plain(ObjectKind, old(pendingKey)), done)
                && Members(done) == Kept(j.members, excluded, |j.members|)
      ensures value < |document.tokens| && j.Object? && !Ready(old(Now())) ==> code.State? && Now() == old(Now())
      ensures value < |document.tokens| && j.Object? && Ready(old(Now())) && !code.Ok? ==>
                !finished && failure == if code.Argument? then Code.State else code
    {
      hide Built, Holds, Occupied, PowerOfTwo, NestsOk, NodeKeyFn, Placed, Accepts, Children.Laid, Cells, TableOf,
           TreeOf, Normalized, RoseOf, Filled, Opened, WriterState.Closed, MemberRoses, Kept;
      ghost var was := Now();
      ghost var data := Plain(ObjectKind, pendingKey);
      done := [];
      if value >= |document.tokens| {
        return Argument, done;
      }
      ghost var q := TokenShows(document.tokens, value, j);
      if !document.tokens[value].cell.data.kind.ObjectKind? {
        return Argument, done;
      }
      ObjectRose(j.members);
      var count := document.tokens[value].cell.links.count / 2;
      code := ObjectBegin();
      if !code.Ok? {
        return;
      }
      FilledStarts(was, data);
      NothingKept(j.members, excluded);
      var i := 0;
      while code.Ok? && i < count
        invariant Valid() && (keys.slots == old(keys.slots) || fresh(keys.slots)) && i <= count == |j.members|
        invariant code.Ok? ==> Now() == Filled(was, data, done) && Members(done) == Kept(j.members, excluded, i)
        invariant MemoryTells(old(memory.refusals), memory.refusals, code)
        invariant !code.Ok? ==> Broken(code)
        decreases count - i
      {
        var key, member;
        code, key, member := document.ObjectMemberAt(value, i, j);
        KeptStep(j.members, excluded, i);
        if key !in excluded {
          ghost var kid;
          code, kid := CopyMember(document, key, member, profile', j, i, was, data, done);
          if code.Ok? {
            MembersGrow(done, kid);
            done := done + [kid];
          }
        }
        i := i + 1;
      }
      if !code.Ok? {
        code := CopyFailed(code);
      }
    }
  }

  /** How copy_number reads a lexeme, and why what it writes is the normal form. */
  lemma CopyCases(s: Bytes)
    requires IsNumber(s)
    ensures s != [] && AsInteger(s) == if s[0] == MINUS then AsI64(s) else AsU64(s)
    ensures AsInteger(s).Value? ==>
              && RenderInt(AsInteger(s).n) == Normal(s)
              && -(I64_MIN_MAGNITUDE as int) <= AsInteger(s).n <= U64_MAX
    ensures AsInteger(s) == Failed(Code.NotInteger) ==> Normal(s) == s
  {
    hide IsNumber, AsU64, AsI64, RenderInt, DecimalValue, LeadingDigits, Integral;
    CopyKeepsLexeme(s);
    IntegerReading(s);
    if AsInteger(s).Value? {
      IntegerReproduced(s);
    }
    NumberBegins(s);
  }

  /** The normalized members whose keys are not excluded, among the first `n`. */
  function Kept(ms: seq<Member>, excluded: seq<Bytes>, n: nat): seq<Member>
    requires n <= |ms|
  {
    if n == 0 then []
    else
      Kept(ms, excluded, n - 1) +
      if ms[n - 1].key in excluded then [] else [Member(ms[n - 1].key, Normalized(ms[n - 1].value))]
  }

  lemma NothingKept(ms: seq<Member>, excluded: seq<Bytes>)
    ensures Members([]) == Kept(ms, excluded, 0)
  {
  }

  lemma KeptStep(ms: seq<Member>, excluded: seq<Bytes>, i: nat)
    requires i < |ms|
    ensures Kept(ms, excluded, i + 1) ==
            Kept(ms, excluded, i) +
            if ms[i].key in excluded then [] else [Member(ms[i].key, Normalized(ms[i].value))]
  {
    hide Normalized;
  }

  /** The two reasons a copy with room for it may fail. */
  predicate OnlyRange(code: Code, j: Json) {
    code.Memory? || (code.Range? && !InRange(j))
  }

  lemma NothingDone(j: Json)
    ensures j.Array? ==> ItemsDone([], j.items)
    ensures j.Object? ==> MembersDone([], j.members)
  {
  }

  lemma ItemDone(done: seq<Rose<Data>>, items: seq<Json>, kid: Rose<Data>)
    requires ItemsDone(done, items) && |done| < |items| && Size(kid) == NodesOf(items[|done|])
    ensures ItemsDone(done + [kid], items)
  {
    hide Size, NodesOf;
  }

  lemma MemberDone(done: seq<Rose<Data>>, ms: seq<Member>, kid: Rose<Data>)
    requires MembersDone(done, ms) && |done| < |ms| && Size(kid) == NodesOf(ms[|done|].value)
    requires kid.data.key == Some(ms[|done|].key)
    ensures MembersDone(done + [kid], ms)
  {
    hide Size, NodesOf;
  }

  lemma ItemFails(code: Code, j: Json, i: nat)
    requires j.Array? && i < |j.items|
    ensures OnlyRange(code, j.items[i]) ==> OnlyRange(code, j)
  {
  }

  lemma MemberFails(code: Code, j: Json, i: nat)
    requires j.Object? && i < |j.members|
    ensures OnlyRange(code, j.members[i].value) ==> OnlyRange(code, j)
  {
  }

  lemma AllInRange(j: Json)
    ensures j.Array? ==> (InRange(j) <==> forall k :: 0 <= k < |j.items| ==> InRange(j.items[k]))
    ensures j.Object? ==> (InRange(j) <==> forall k :: 0 <= k < |j.members| ==> InRange(j.members[k].value))
  {
  }

  lemma ItemCarried(profile: Profile, profile': Profile, j: Json, i: nat)
    requires j.Array? && i < |j.items|
    ensures Carried(profile, j) ==> Carried(profile, j.items[i])
    ensures Carried(profile', j) ==> Carried(profile', j.items[i])
  {
  }

  lemma MemberCarried(profile: Profile, profile': Profile, j: Json, i: nat)
    requires j.Object? && i < |j.members|
    ensures Carried(profile, j) ==> Printable(profile, j.members[i].key) && Carried(profile, j.members[i].value)
    ensures Carried(profile', j) ==> Carried(profile', j.members[i].value)
  {
  }

  ghost predicate CopiedMember(kid: Rose<Data>, m: Member) {
    kid.data.key == Some(m.key) && TreeOf(kid) == Normalized(m.value)
  }

  lemma MembersGrow(done: seq<Rose<Data>>, kid: Rose<Data>)
    ensures Members(done + [kid]) == Members(done) + [Member(NameOf(kid.data), TreeOf(kid))]
  {
    hide TreeOf;
  }

  lemma ObjectNormal(r: Rose<Data>, j: Json)
    requires j.Object? && r.data.kind.ObjectKind? && |r.kids| == |j.members|
    requires forall k :: 0 <= k < |r.kids| ==> CopiedMember(r.kids[k], j.members[k])
    ensures TreeOf(r) == Normalized(j)
  {
    TreeOfContainer(r);
    hide TreeOf;
    assert Normalized(j).members == Members(r.kids);
  }

  lemma PlacedIsReady(s: Snapshot, r: Rose<Data>)
    ensures Placed(s, r).failure == s.failure && Placed(s, r).finished == s.finished
  {
  }

  lemma FilledIsReady(s: Snapshot, data: Data, done: seq<Rose<Data>>)
    ensures var t := Filled(s, data, done);
            && t.failure == s.failure && t.finished == s.finished && t.pending.None?
            && t.frames != [] && t.frames[|t.frames| - 1].data.kind == data.kind && t.root == s.root
            && t.frames[|t.frames| - 1].kids == done
  {
  }

  lemma ArrayNormal(r: Rose<Data>, j: Json)
    requires j.Array? && r.data.kind.ArrayKind? && |r.kids| == |j.items|
    requires forall k :: 0 <= k < |r.kids| ==> TreeOf(r.kids[k]) == Normalized(j.items[k])
    ensures TreeOf(r) == Normalized(j)
  {
    TreeOfContainer(r);
    assert Normalized(j).items == Items(r.kids);
  }

  lemma ReadyToPrint(profile: Profile, s: Snapshot, stack: seq<nat>, model: map<Key, nat>)
    requires Built(profile, s, stack, model) && s.root.Some?
    ensures InTable(s.nodes, 0, VALUE_NONE, s.root.value) && Sound(profile, s.root.value) && KeysValid(s.nodes)
    ensures Tokens(TreeOf(s.root.value)) < 2 * |s.nodes|
  {
    TokensWithinNodes(s.root.value);
    hide InTable, Sound, Add, Size, Printable, Valid, Tokens, TreeOf;
    AddLength([], VALUE_NONE, s.root.value);
    BuiltTable(s.root.value);
    forall i | 0 <= i < |s.nodes| ensures Valid(NameOf(s.nodes[i].data)) {
      if s.nodes[i].data.key.Some? {
        PrintableIsValid(profile, s.nodes[i].data.key.value);
      } else {
        PrintableIsValid(profile, []);
      }
    }
  }

  lemma RootNests(limit: nat, s: Snapshot)
    requires NestsOk(limit, s.frames, s.root) && s.root.Some?
    ensures Nests(TreeOf(s.root.value), limit)
  {
  }

  lemma PrintableIsValid(profile: Profile, text: Bytes)
    ensures Printable(profile, text) ==> Valid(text)
    ensures Printable(profile, [])
  {
    if Printable(profile, text) && profile.ContractAscii? {
      AsciiIsValid(text, 0);
    }
  }

  /**
    What a writer prints, any reader with the same profile, the same depth and twice the tokens reads back
    as the same tree with its members in key order.
   */
  lemma FinishedReadsBack(profile: Profile, r: Rose<Data>, style: Style, newline: bool, c: Config)
    requires Sound(profile, r) && c.profile == profile && Nests(TreeOf(r), c.depth) && Tokens(TreeOf(r)) <= c.capacity
    ensures var text := Output(Sorted(TreeOf(r)), style, newline);
            ReadText(c, text) == Parsed(Sorted(TreeOf(r)), |text|, Tokens(TreeOf(r)))
    ensures InOrder(Sorted(TreeOf(r)))
  {
    hide Sound, ReadText, Output, Sorted, Tokens, Nests, Carried, Distinct, TreeOf;
    SoundTree(profile, r);
    RoundTrip(c, TreeOf(r), style, newline);
    SortedInOrder(profile, TreeOf(r));
  }

  lemma PendingPrintable(profile: Profile, s: Snapshot, stack: seq<nat>, model: map<Key, nat>)
    requires Built(profile, s, stack, model)
    ensures s.pending.Some? ==> Printable(profile, s.pending.value)
  {
  }

  lemma RootStaysUnlinked(t: NodeTable, data: Data)
    requires |t| < VALUE_NONE
    ensures Fresh(t, VALUE_NONE, data) == t + [Cell(LinksInit(VALUE_NONE), data)]
  {
  }
}
