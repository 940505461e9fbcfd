/** Parsing a whole document: allocation, the parse itself, compaction and the layout of children. */
module DocumentParse {
  import opened Basics
  import opened Trees
  import opened LinkedTable
  import opened Keyset
  import opened TokenTable
  import opened LastWinsTree
  import opened Reader
  import opened Grammar
  import opened Parser
  import opened ParserLemmas
  import opened Compaction
  import opened Children
  import opened Memory
  import opened ParseBudget

  /** The heap blocks a document owns, zero where there is none. */
  class Blocks {
    var self_: nat
    var input: nat
    var table: nat
    var arena: nat
    var children: nat

    constructor ()
      ensures self_ == DOCUMENT_SIZE && input == table == arena == children == 0
    {
      self_, input, table, arena, children := DOCUMENT_SIZE, 0, 0, 0, 0;
    }

    function Held(): nat
      reads this
    {
      self_ + input + table + arena + children
    }

    /** maelys_json_document_release. */
    method ReleaseAll(heap: Heap)
      requires Held() <= heap.live
      modifies heap
      ensures heap.live == old(heap.live) - Held()
      ensures heap.peak == old(heap.peak) && heap.refusals == old(heap.refusals)
    {
      heap.Release(children);
      heap.Release(arena);
      heap.Release(table);
      heap.Release(input);
      heap.Release(self_);
    }
  }

  method Request(heap: Heap, bytes: nat) returns (granted: nat)
    modifies heap
    ensures granted == (if heap.refusals == old(heap.refusals) then bytes else 0)
    ensures heap.live == old(heap.live) + granted && heap.peak <= Max(old(heap.peak), heap.live)
    ensures old(heap.refusals) <= heap.refusals <= old(heap.refusals) + 1
  {
    var ok := heap.Allocate(bytes);
    granted := if ok then bytes else 0;
  }

  /** The document record and its first three blocks; all or nothing. */
  method AllocateDocument(size: nat, tokenCapacity: nat, heap: Heap) returns (code: Code, blocks: Blocks?)
    requires tokenCapacity > 0
    modifies heap
    ensures code.Ok? <==> heap.refusals == old(heap.refusals)
    ensures heap.refusals >= old(heap.refusals)
    ensures !code.Ok? ==> code.Memory? && heap.live == old(heap.live)
    ensures code.Ok? ==>
              && blocks != null && fresh(blocks) && heap.live == old(heap.live) + blocks.Held()
              && blocks.self_ == DOCUMENT_SIZE && blocks.input == size + 1
              && blocks.table == tokenCapacity * TOKEN_SIZE && blocks.arena == size + tokenCapacity + 1
              && blocks.children == 0
    ensures heap.peak <= Max(old(heap.peak),
                             old(heap.live) + DOCUMENT_SIZE + (size + 1) + tokenCapacity * TOKEN_SIZE +
                             (size + tokenCapacity + 1))
  {
    var self_ := Request(heap, DOCUMENT_SIZE);
    if self_ == 0 {
      return Code.Memory, null;
    }
    blocks := new Blocks();
    blocks.input := Request(heap, size + 1);
    blocks.table := Request(heap, tokenCapacity * TOKEN_SIZE);
    blocks.arena := Request(heap, size + tokenCapacity + 1);
    if blocks.input == 0 || blocks.table == 0 || blocks.arena == 0 {
      blocks.ReleaseAll(heap);
      return Code.Memory, null;
    }
    code := Ok;
  }

  /** The root value, the space after it and nothing more. */
  method ParseText(parser: Parser) returns (code: Code)
    requires parser.Valid() && parser.offset == 0 && parser.document.tokens == [] && parser.document.duplicateCount == 0
    modifies parser`offset, parser`error, parser.document`tokens, parser.document`arenaUsed,
             parser.document`duplicateCount, parser.keys, parser.keys.slots
    ensures parser.keys.slots == old(parser.keys.slots) || !code.Ok?
    ensures var r := ReadText(parser.Config(), parser.document.bytes);
            && (r.Stopped? ==> code == r.code && !code.Ok? && parser.error == Some(Fault(code, r.at)))
            && (r.Parsed? ==>
                  && code.Ok? && parser.Valid() && |parser.document.tokens| == r.used
                  && Cells(parser.document.tokens) == Add([], VALUE_NONE, RoseOf(r.tree))
                  && parser.document.duplicateCount == Duplicates(r.tree))
  {
    hide Indexed, Linked, Cells, ValueAt, ValueStored, RoseOf, Holds, Occupied, PowerOfTwo, KeyFn, Duplicates, Add,
         Skip;
    var document := parser.document;
    ghost var r := ValueAt(parser.Config(), document.bytes, 0, 0, 0);
    var root;
    code, root := parser.ParseValue(VALUE_NONE, 0);
    ValueCases(r, [], document.tokens, VALUE_NONE, code, root, parser.error, parser.offset, document.duplicateCount);
    NoCells();
    if !code.Ok? {
      return;
    }
    parser.SkipSpace();
    if parser.offset != |document.bytes| {
      code := parser.Fail(Code.Syntax, parser.offset);
    }
  }

  lemma NoCells()
    ensures Cells([]) == []
  {
  }

  // ----- compaction

  /** Arena bytes of the compacted document. */
  function PackedArena(j: Json): nat {
    Max(TextBytes(RoseOf(Prune(j))), 1)
  }

  /** A freshly parsed table, ready for the walk. */
  lemma {:induction false} ReadyToWalk(tokens: seq<Token>, model: map<Key, nat>, j: Json)
    requires Cells(tokens) == Add([], VALUE_NONE, RoseOf(j)) && |tokens| < VALUE_NONE
    requires Linked(tokens) && Indexed(tokens, model)
    ensures InTable(Tags(tokens), 0, VALUE_NONE, TagsOf(j)) && Paired(TagsOf(j))
    ensures Survivor(TagsOf(j)) == RoseOf(Prune(j)) && Size(RoseOf(Prune(j))) == Tokens(Prune(j)) <= Tokens(j) == |tokens|
  {
    hide Add, InTable, Size, RoseOf, TagsOf, Paired, Tags, Prune, Survivor, Tokens;
    var t := Cells(tokens);
    AddLength([], VALUE_NONE, RoseOf(j));
    BuiltTable(RoseOf(j));
    RootParent(t, 0, VALUE_NONE, RoseOf(j));
    ValueIsNoKey(j);
    assert t[0] == tokens[0].cell;
    WholeIsClosed(t);
    TagsInTable(tokens, model, 0, VALUE_NONE, j);
    TagsPaired(j);
    SurvivorIsPruned(j);
    PrunedTexts(j);
    RoseSize(j);
    RoseSize(Prune(j));
  }

  lemma WholeIsClosed(t: Table<Info>)
    requires |t| > 0 && t[0].links.parent == VALUE_NONE > |t|
    ensures Closed(t, 0, |t|)
  {
  }

  /** The sizing pass. */
  method SizePacked(document: Document, ghost j: Json, ghost model: map<Key, nat>) returns (packed: Packed)
    requires Cells(document.tokens) == Add([], VALUE_NONE, RoseOf(j)) && |document.tokens| < VALUE_NONE - 1
    requires Linked(document.tokens) && Indexed(document.tokens, model)
    ensures fresh(packed) && packed.tokens == None
    ensures packed.tokenCapacity == Tokens(Prune(j)) > 0 && packed.arenaCapacity == PackedArena(j) > 0
  {
    hide Add, InTable, Size, RoseOf, TagsOf, Paired, Tags, Prune, Survivor, Tokens, Cells, Linked, Indexed, TextBytes,
         PackedArena;
    ReadyToWalk(document.tokens, model, j);
    PackedArenaIs(j);
    packed := new Packed();
    CompactWalk(document.tokens, 0, packed, VALUE_NONE, VALUE_NONE, TagsOf(j));
    packed.tokenCapacity := packed.tokenCount;
    packed.arenaCapacity := if packed.arenaUsed > 0 then packed.arenaUsed else 1;
  }

  /** The copying pass, into exactly the room the sizing pass counted. */
  method FillPacked(document: Document, packed: Packed, ghost j: Json, ghost model: map<Key, nat>)
    requires Cells(document.tokens) == Add([], VALUE_NONE, RoseOf(j)) && |document.tokens| < VALUE_NONE - 1
    requires Linked(document.tokens) && Indexed(document.tokens, model)
    requires packed.tokenCapacity == Tokens(Prune(j)) && packed.arenaCapacity == PackedArena(j)
    modifies packed
    ensures packed.tokens.Some? && |packed.tokens.value| == packed.tokenCount == packed.tokenCapacity
    ensures packed.tokenCapacity == old(packed.tokenCapacity) && packed.arenaUsed <= packed.arenaCapacity
    ensures Cells(packed.tokens.value) == Add([], VALUE_NONE, RoseOf(Prune(j)))
  {
    hide Add, InTable, Size, RoseOf, TagsOf, Paired, Tags, Prune, Survivor, Tokens, Cells, Linked, Indexed, TextBytes;
    ReadyToWalk(document.tokens, model, j);
    NoCells();
    NothingLinked();
    packed.tokenCount, packed.arenaUsed, packed.tokens := 0, 0, Some([]);
    CompactWalk(document.tokens, 0, packed, VALUE_NONE, VALUE_NONE, TagsOf(j));
  }

  /** compact_document: sized first, then copied into blocks of exactly that size. */
  method CompactDocument(document: Document, blocks: Blocks, heap: Heap, ghost j: Json, ghost model: map<Key, nat>)
    returns (code: Code)
    requires Cells(document.tokens) == Add([], VALUE_NONE, RoseOf(j)) && |document.tokens| < VALUE_NONE - 1
    requires Linked(document.tokens) && Indexed(document.tokens, model)
    requires blocks.Held() <= heap.live
    modifies document`tokens, document`tokenCapacity, document`arenaUsed, document`arenaCapacity,
             blocks`table, blocks`arena, heap
    ensures code == if heap.refusals == old(heap.refusals) then Ok else Code.Memory
    ensures heap.refusals >= old(heap.refusals)
    ensures heap.live == old(heap.live) + blocks.Held() - old(blocks.Held())
    ensures heap.peak <= Max(old(heap.peak),
                             old(heap.live) + Tokens(Prune(j)) * TOKEN_SIZE + PackedArena(j))
    ensures code.Ok? ==> Cells(document.tokens) == Add([], VALUE_NONE, RoseOf(Prune(j)))
    ensures code.Ok? ==> |document.tokens| == Tokens(Prune(j))
    ensures code.Ok? ==> blocks.table == Tokens(Prune(j)) * TOKEN_SIZE && blocks.arena == PackedArena(j)
  {
    hide Add, InTable, Size, RoseOf, TagsOf, Paired, Tags, Prune, Survivor, Tokens, Cells, Linked, Indexed, TextBytes;
    hide PackedArena;
    var packed := SizePacked(document, j, model);
    var table := Request(heap, packed.tokenCapacity * TOKEN_SIZE);
    var arena := Request(heap, packed.arenaCapacity);
    if table == 0 || arena == 0 {
      heap.Release(table);
      heap.Release(arena);
      return Code.Memory;
    }
    FillPacked(document, packed, j, model);
    heap.Release(blocks.table);
    heap.Release(blocks.arena);
    blocks.table, blocks.arena := table, arena;
    document.tokens := packed.tokens.value;
    document.tokenCapacity := packed.tokenCapacity;
    document.arenaUsed, document.arenaCapacity := packed.arenaUsed, packed.arenaCapacity;
    code := Ok;
  }

  lemma PackedArenaIs(j: Json)
    ensures var n := TextBytes(RoseOf(Prune(j))); PackedArena(j) == if n > 0 then n else 1
  {
  }

  lemma NothingLinked()
    ensures Linked([])
  {
  }

  // ----- the whole parse

  /** A finished document holds the tree in preorder from token 0, with every child list laid out. */
  ghost predicate Published(tokens: seq<Token>, children: seq<nat>, j: Json) {
    && InTable(Cells(tokens), 0, VALUE_NONE, RoseOf(j))
    && |tokens| == |children| == Tokens(j) < VALUE_NONE
    && Laid(tokens, children)
  }

  lemma BuiltIsPublished(tokens: seq<Token>, j: Json)
    requires Cells(tokens) == Add([], VALUE_NONE, RoseOf(j)) && |tokens| == Tokens(j) < VALUE_NONE
    ensures InTable(Cells(tokens), 0, VALUE_NONE, RoseOf(j)) && LeavesBare(RoseOf(j))
    ensures Size(RoseOf(j)) == |tokens|
  {
    hide Add, InTable, Size, RoseOf, Tokens, LeavesBare, Cells;
    RoseSize(j);
    BuiltTable(RoseOf(j));
    TreeLeavesBare(j);
  }

  /** Without a repeated key there is nothing to compact. */
  lemma NothingToPrune(j: Json)
    requires Duplicates(j) == 0
    ensures Prune(j) == j
  {
    DuplicatesZero(j);
    PruneFixed(j);
  }

  /** After the parse proper: compaction if a key was repeated, then the children. */
  method FinishDocument(document: Document, blocks: Blocks, heap: Heap, ghost j: Json, ghost model: map<Key, nat>)
    returns (code: Code, children: array?<nat>)
    requires Cells(document.tokens) == Add([], VALUE_NONE, RoseOf(j)) && |document.tokens| == Tokens(j) < VALUE_NONE - 1
    requires Linked(document.tokens) && Indexed(document.tokens, model)
    requires document.duplicateCount == Duplicates(j)
    requires blocks.Held() <= heap.live && blocks.children == 0
    requires Tokens(Prune(j)) * TOKEN_SIZE <= blocks.table && PackedArena(j) <= blocks.arena
    modifies document`tokens, document`tokenCapacity, document`arenaUsed, document`arenaCapacity, blocks, heap
    ensures code == if heap.refusals == old(heap.refusals) then Ok else Code.Memory
    ensures heap.refusals >= old(heap.refusals)
    ensures code.Ok? ==>
              children != null && fresh(children) && Published(document.tokens, children[..], Prune(j))
    ensures heap.live == old(heap.live) + blocks.Held() - old(blocks.Held())
    ensures heap.peak <= Max(old(heap.peak),
                             old(heap.live) +
                             (if Duplicates(j) > 0 then Tokens(Prune(j)) * TOKEN_SIZE + PackedArena(j) else 0) +
                             Tokens(j) * WORD_SIZE)
  {
    hide Cells, Add, RoseOf, Linked, Indexed, Duplicates, Tokens, Prune, TextBytes, InTable, Laid, LeavesBare, PackedArena,
         Size;
    code, children := Ok, null;
    DuplicatesZero(j);
    PrunedTexts(j);
    if document.duplicateCount != 0 {
      code := CompactDocument(document, blocks, heap, j, model);
      if !code.Ok? {
        return;
      }
    } else {
      NothingToPrune(j);
    }
    ghost var live := heap.live;
    BuiltIsPublished(document.tokens, Prune(j));
    blocks.children := Request(heap, |document.tokens| * WORD_SIZE);
    if blocks.children == 0 {
      return Code.Memory, null;
    }
    children := BuildChildren(document, RoseOf(Prune(j)));
  }

  /** What the arguments and the text decide, the allocator apart. */
  datatype Verdict = Rejected(code: Code) | Reads(limits: Limits, text: Parse)

  function VerdictOn(bytes: Bytes, profile: Profile, requested: Limits): Verdict {
    match ResolveLimits(requested)
    case None => Rejected(Argument)
    case Some(limits) =>
      if |bytes| == SIZE_MAX then Rejected(Argument)
      else if |bytes| > limits.maximumBytes then Rejected(Code.Limit)
      else if AllocationBound(|bytes|, profile, limits).None? then Rejected(Code.Limit)
      else
        var capacity := Grammar.CapacityFor(|bytes|, limits.maximumTokens);
        Reads(limits, ReadText(Reader.Config(profile, limits.maximumDepth, capacity), bytes))
  }

  /** Zero limits are the documented figures. */
  lemma DefaultLimits(bytes: Bytes, profile: Profile)
    ensures VerdictOn(bytes, profile, Limits(0, 0, 0)) == VerdictOn(bytes, profile, Limits(65535, 32, 8192))
  {
    hide ReadText, AllocationBound, ResolveLimits;
  }

  /** The limits a request asks for, in figures. */
  function Asked(requested: Limits): Limits {
    Limits(if requested.maximumBytes == 0 then 65535 else requested.maximumBytes,
           if requested.maximumDepth == 0 then 32 else requested.maximumDepth,
           if requested.maximumTokens == 0 then 8192 else requested.maximumTokens)
  }

  /** Limits the library serves at all. */
  predicate Served(requested: Limits) {
    && requested.maximumDepth <= 256 && requested.maximumBytes < 0xFFFF_FFFF_FFFF_FFFF / 2
    && requested.maximumTokens <= 0xFFFF_FFFF_FFFF_FFFF / 256
  }

  /**
    The verdict before any reading: ARGUMENT for limits not served or a size of SIZE_MAX, LIMIT for a longer input
    than asked for or a bound that no size_t holds, and otherwise the reader's under those limits.
   */
  lemma VerdictMeans(bytes: Bytes, profile: Profile, requested: Limits)
    ensures var v := VerdictOn(bytes, profile, requested);
            var asked := Asked(requested);
            if !Served(requested) || |bytes| == 0xFFFF_FFFF_FFFF_FFFF then v == Rejected(Argument)
            else if |bytes| > asked.maximumBytes then v == Rejected(Code.Limit)
            else if Budget(|bytes|, profile, asked.maximumTokens) > 0xFFFF_FFFF_FFFF_FFFF then v == Rejected(Code.Limit)
            else v.Reads? && v.limits == asked
  {
    hide ReadText, Budget, ResolveLimits;
  }

  /**
    Which documents parse: served limits, an input within them, and a text the grammar derives whose height and
    entries they admit, keys not repeated in the strict profiles.
   */
  lemma ParseAccepts(bytes: Bytes, profile: Profile, requested: Limits, j: Json)
    ensures var v := VerdictOn(bytes, profile, requested);
            var asked := Asked(requested);
            v.Reads? && v.text.Parsed? && v.text.tree == j <==>
            && Served(requested) && |bytes| <= asked.maximumBytes
            && Budget(|bytes|, profile, asked.maximumTokens) <= 0xFFFF_FFFF_FFFF_FFFF
            && Denotes(profile, bytes, j) && Height(j) <= asked.maximumDepth && Entries(j) <= asked.maximumTokens
            && (!profile.LastWins? ==> Distinct(j))
  {
    hide ReadText, Budget, Denotes, Height, Entries, Distinct, ResolveLimits, Nests, Tokens;
    VerdictMeans(bytes, profile, requested);
    var asked := Asked(requested);
    AcceptsWithin(Reader.Config(profile, asked.maximumDepth, Grammar.CapacityFor(|bytes|, asked.maximumTokens)), bytes, j);
    NestsIsHeight(j, asked.maximumDepth);
    TokensAreEntries(j);
    if Denotes(profile, bytes, j) {
      CapacityIsExact(profile, asked.maximumDepth, asked.maximumTokens, bytes, j);
    }
  }

  /** The sizes compaction needs fit the blocks of the first parse. */
  lemma PackedFits(c: Config, b: Bytes)
    requires ReadText(c, b).Parsed?
    ensures var j := ReadText(c, b).tree;
            && Tokens(Prune(j)) <= Tokens(j) == ReadText(c, b).used <= c.capacity
            && PackedArena(j) <= |b| + c.capacity + 1
            && (Duplicates(j) > 0 ==> c.profile.LastWins?)
  {
    hide ReadText, Prune, Tokens, Distinct, Denotes, Nests, RoseOf, TextBytes;
    var j := ReadText(c, b).tree;
    AcceptsExactly(c, b, j);
    var lead, s, trail := TextSound(c, b);
    TextsFit(c.profile, b, j);
    PrunedTexts(j);
    DuplicatesZero(j);
  }

  /** The outcome when no request is refused. */
  ghost predicate Faithful(text: Parse, code: Code, error: Option<Fault>, tokens: seq<Token>, children: seq<nat>,
                           duplicates: int)
  {
    if text.Stopped? then code == text.code && !code.Ok? && error == Some(Fault(code, text.at))
    else
      && code.Ok? && error == None && duplicates == Duplicates(text.tree)
      && Published(tokens, children, Prune(text.tree))
  }

  /** What the phases after the first allocations may add: the key set, a second table and arena, the children. */
  function Later(size: nat, profile: Profile, tokens: nat): nat {
    SlotsFor(tokens) * SLOT_SIZE +
    (if profile.LastWins? then tokens * TOKEN_SIZE + (size + tokens + 1) else 0) + tokens * WORD_SIZE
  }

  lemma LaterCovers(size: nat, profile: Profile, tokens: nat, packed: nat, arena: nat, listed: nat, repeats: bool)
    requires packed <= tokens && listed <= tokens && arena <= size + tokens + 1 && (repeats ==> profile.LastWins?)
    ensures (if repeats then packed * TOKEN_SIZE + arena else 0) + listed * WORD_SIZE <= Later(size, profile, tokens)
    ensures SlotsFor(tokens) * SLOT_SIZE <= Later(size, profile, tokens)
  {
    hide SlotsFor;
  }

  /** The parse proper, with a key set of its own. */
  method ReadDocument(filled: Document, maximumDepth: nat, hash: Hash)
    returns (code: Code, error: Option<Fault>, ghost model: map<Key, nat>)
    requires |filled.bytes| < SIZE_MAX / 2 && 0 < filled.tokenCapacity <= SIZE_MAX / 256
    requires filled.tokens == [] && filled.arenaUsed == 0 && filled.duplicateCount == 0
    requires filled.arenaCapacity == |filled.bytes| + filled.tokenCapacity + 1
    modifies filled`tokens, filled`arenaUsed, filled`duplicateCount
    ensures var r := ReadText(Reader.Config(filled.profile, maximumDepth, filled.tokenCapacity), filled.bytes);
            && (r.Stopped? ==> code == r.code && !code.Ok? && error == Some(Fault(code, r.at)))
            && (r.Parsed? ==>
                  && code.Ok? && error == None && Linked(filled.tokens) && Indexed(filled.tokens, model)
                  && |filled.tokens| == r.used <= filled.tokenCapacity
                  && Cells(filled.tokens) == Add([], VALUE_NONE, RoseOf(r.tree))
                  && filled.duplicateCount == Duplicates(r.tree))
  {
    hide ReadText, Duplicates, Cells, Add, Linked, Indexed, RoseOf, Holds, Occupied, PowerOfTwo, KeyFn,
         Keyset.CapacityFor;
    SlotsExceed(filled.tokenCapacity);
    var keys := new Keys(filled.tokenCapacity / 2 + 1, hash, KeyFn([]));
    NothingParsed();
    var parser := new Parser(filled, maximumDepth, keys);
    code := ParseText(parser);
    error, model := parser.error, keys.model;
  }

  /** The block of the key set around the parse proper; it is gone again afterwards. */
  method ReadInto(bytes: Bytes, profile: Profile, maximumDepth: nat, capacity: nat, hash: Hash, heap: Heap)
    returns (code: Code, filled: Document, error: Option<Fault>, ghost model: map<Key, nat>)
    requires |bytes| < SIZE_MAX / 2 && 0 < capacity <= SIZE_MAX / 256
    modifies heap
    ensures fresh(filled) && heap.live == old(heap.live) && heap.refusals >= old(heap.refusals)
    ensures heap.peak <= Max(old(heap.peak), old(heap.live) + SlotsFor(capacity) * SLOT_SIZE)
    ensures heap.refusals != old(heap.refusals) ==> code.Memory? && error == None
    ensures heap.refusals == old(heap.refusals) ==>
              var r := ReadText(Reader.Config(profile, maximumDepth, capacity), bytes);
              && (r.Stopped? ==> code == r.code && !code.Ok? && error == Some(Fault(code, r.at)))
              && (r.Parsed? ==>
                    && code.Ok? && error == None && Linked(filled.tokens) && Indexed(filled.tokens, model)
                    && |filled.tokens| == r.used <= capacity
                    && Cells(filled.tokens) == Add([], VALUE_NONE, RoseOf(r.tree))
                    && filled.duplicateCount == Duplicates(r.tree))
  {
    hide ReadText, Duplicates, Cells, Add, Linked, Indexed, RoseOf, PowerOfTwo, Keyset.CapacityFor;
    SlotsExceed(capacity);
    error, model := None, map[];
    filled := new Document(profile, bytes, capacity);
    var slots := ComputeCapacity(capacity / 2 + 1);
    var words := Request(heap, slots * SLOT_SIZE);
    if words == 0 {
      code := Code.Memory;
      return;
    }
    code, error, model := ReadDocument(filled, maximumDepth, hash);
    heap.Release(words);
  }

  /** The key set, the parse and the layout, inside a document whose blocks are already there. */
  method ParseInto(bytes: Bytes, profile: Profile, limits: Limits, capacity: nat, hash: Hash, heap: Heap, owned: Blocks)
    returns (code: Code, document: Document?, children: array?<nat>, error: Option<Fault>)
    requires |bytes| < SIZE_MAX / 2 && 0 < capacity <= SIZE_MAX / 256
    requires owned.Held() <= heap.live && owned.children == 0
    requires owned.table == capacity * TOKEN_SIZE && owned.arena == |bytes| + capacity + 1
    modifies heap, owned
    ensures heap.refusals >= old(heap.refusals)
    ensures code.Ok? <==> document != null && children != null
    ensures code.Ok? ==> fresh(document) && fresh(children)
    ensures owned.Held() <= heap.live == old(heap.live) + owned.Held() - old(owned.Held())
    ensures heap.peak <= Max(old(heap.peak), old(heap.live) + Later(|bytes|, profile, capacity))
    ensures heap.refusals != old(heap.refusals) ==> code.Memory? && error == None
    ensures !code.Ok? && heap.refusals == old(heap.refusals) ==> error.Some?
    ensures heap.refusals == old(heap.refusals) ==>
              Faithful(ReadText(Reader.Config(profile, limits.maximumDepth, capacity), bytes), code, error,
                       if document != null then document.tokens else [],
                       if children != null then children[..] else [],
                       if document != null then document.duplicateCount else 0)
  {
    hide ReadText, Duplicates, Prune, Published, Cells, Add, Linked, Indexed, RoseOf, Tokens, PackedArena, Holds, Occupied,
         PowerOfTwo, TextBytes, Keyset.CapacityFor, Keyset.CapacityFrom, Later;
    document, children := null, null;
    ghost var c := Reader.Config(profile, limits.maximumDepth, capacity);
    ghost var r := ReadText(c, bytes);
    LaterCovers(|bytes|, profile, capacity, 0, 0, 0, false);
    var filled;
    ghost var model;
    code, filled, error, model := ReadInto(bytes, profile, limits.maximumDepth, capacity, hash, heap);
    if !code.Ok? {
      return;
    }
    PackedFits(c, bytes);
    LaterCovers(|bytes|, profile, capacity, Tokens(Prune(r.tree)), PackedArena(r.tree), Tokens(r.tree),
                Duplicates(r.tree) > 0);
    code, children := FinishDocument(filled, owned, heap, r.tree, model);
    if !code.Ok? {
      children := null;
      return;
    }
    document := filled;
  }

  /** Once the arguments are accepted: the blocks, the key set, the parse, the layout. */
  method ParseAdmitted(bytes: Bytes, profile: Profile, limits: Limits, hash: Hash, heap: Heap)
    returns (code: Code, document: Document?, children: array?<nat>, blocks: Blocks?, error: Option<Fault>)
    requires |bytes| <= limits.maximumBytes < SIZE_MAX / 2 && 0 < limits.maximumTokens <= SIZE_MAX / 256
    modifies heap
    ensures heap.refusals >= old(heap.refusals)
    ensures code.Ok? <==> document != null && children != null && blocks != null
    ensures code.Ok? ==> fresh(document) && fresh(children) && fresh(blocks)
    ensures heap.live == old(heap.live) + if code.Ok? then blocks.Held() else 0
    ensures heap.peak <= Max(old(heap.peak), old(heap.live) + Budget(|bytes|, profile, limits.maximumTokens))
    ensures heap.refusals != old(heap.refusals) ==> code.Memory? && error == Some(Fault(code, 0))
    ensures heap.refusals == old(heap.refusals) ==>
              Faithful(ReadText(Reader.Config(profile, limits.maximumDepth,
                                              Grammar.CapacityFor(|bytes|, limits.maximumTokens)), bytes),
                       code, error,
                       if document != null then document.tokens else [],
                       if children != null then children[..] else [],
                       if document != null then document.duplicateCount else 0)
  {
    hide ReadText, Faithful, Keyset.CapacityFor;
    document, children, blocks, error := null, null, null, None;
    var capacity := if |bytes| < limits.maximumTokens then |bytes| else limits.maximumTokens;
    if capacity == 0 {
      capacity := 1;
    }
    var owned;
    code, owned := AllocateDocument(|bytes|, capacity, heap);
    if !code.Ok? {
      error := Some(Fault(code, 0));
      return;
    }
    code, document, children, error := ParseInto(bytes, profile, limits, capacity, hash, heap, owned);
    if !code.Ok? {
      if error.None? {
        error := Some(Fault(code, 0));
      }
      owned.ReleaseAll(heap);
      return;
    }
    blocks := owned;
  }

  lemma NothingParsed()
    ensures Indexed([], map[]) && Linked([])
  {
  }

  method Parse(bytes: Bytes, profile: Profile, requested: Limits, hash: Hash, heap: Heap)
    returns (code: Code, document: Document?, children: array?<nat>, blocks: Blocks?, error: Option<Fault>)
    requires |bytes| <= SIZE_MAX
    modifies heap
    ensures heap.refusals >= old(heap.refusals)
    // Whatever the allocator does: nothing is kept on failure, and the peak stays within the announced bound.
    ensures code.Ok? <==> document != null && children != null && blocks != null
    ensures code.Ok? ==> fresh(document) && fresh(children) && fresh(blocks)
    ensures heap.live == old(heap.live) + if code.Ok? then blocks.Held() else 0
    ensures var v := VerdictOn(bytes, profile, requested);
            if v.Rejected? then
              code == v.code && !code.Ok? && heap.peak == old(heap.peak) && error == Some(Fault(code, 0))
            else
              heap.peak <= Max(old(heap.peak), old(heap.live) + Budget(|bytes|, profile, v.limits.maximumTokens))
    // The outcome is the reader's unless a request was refused.
    ensures heap.refusals != old(heap.refusals) ==> code.Memory? && error == Some(Fault(code, 0))
    ensures var v := VerdictOn(bytes, profile, requested);
            v.Reads? && heap.refusals == old(heap.refusals) ==>
              Faithful(v.text, code, error,
                       if document != null then document.tokens else [],
                       if children != null then children[..] else [],
                       if document != null then document.duplicateCount else 0)
  {
    document, children, blocks, error := null, null, null, None;
    var resolved := ResolveLimits(requested);
    if |bytes| == SIZE_MAX || resolved.None? {
      return Argument, null, null, null, Some(Fault(Argument, 0));
    }
    var limits := resolved.value;
    if |bytes| > limits.maximumBytes {
      return Code.Limit, null, null, null, Some(Fault(Code.Limit, 0));
    }
    var bounded, bound := ParseAllocationBound(|bytes|, profile, requested);
    if !bounded.Ok? {
      return bounded, null, null, null, Some(Fault(bounded, 0));
    }
    code, document, children, blocks, error := ParseAdmitted(bytes, profile, limits, hash, heap);
  }
}
