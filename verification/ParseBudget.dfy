/** How much memory a parse can need: the bound computed before it starts, and why texts fit the arena. */
module ParseBudget {
  import opened Basics
  import opened Trees
  import opened LinkedTable
  import opened Keyset
  import opened TokenTable
  import opened LastWinsTree
  import opened CanonicalSize
  import opened Compaction
  import opened TextEscape
  import opened Grammar

  /** sizeof(maelys_json_document_t), sizeof(maelys_json_token_t) and sizeof(size_t) of a 64-bit build. */
  const DOCUMENT_SIZE: nat := 88
  const TOKEN_SIZE: nat := 96
  const WORD_SIZE: nat := 8

  // ----- the bound

  function SlotsFor(tokens: nat): nat {
    Keyset.CapacityFor(tokens / 2 + 1)
  }

  function Copies(profile: Profile): nat {
    if profile.LastWins? then 2 else 1
  }

  /** What is summed: the blocks of the document, with a second table and arena where compaction may run. */
  function Budget(size: nat, profile: Profile, maximumTokens: nat): nat {
    var tokens := Grammar.CapacityFor(size, maximumTokens);
    DOCUMENT_SIZE + (size + 1) + Copies(profile) * (tokens * TOKEN_SIZE) + Copies(profile) * (size + tokens + 1) +
    SlotsFor(tokens) * SLOT_SIZE + tokens * WORD_SIZE
  }

  function AllocationBound(size: nat, profile: Profile, limits: Limits): (r: Option<nat>)
  {
    var total := Budget(size, profile, limits.maximumTokens);
    if total > SIZE_MAX then None else Some(total)
  }

  /** The announced bound in figures: a record, the input, tables and arenas, the least slots, the child list. */
  lemma BudgetFigures(size: nat, profile: Profile, maximumTokens: nat)
    ensures var least := if size < maximumTokens then size else maximumTokens;
            var tokens := if least == 0 then 1 else least;
            var copies := if profile.LastWins? then 2 else 1;
            Budget(size, profile, maximumTokens) ==
            88 + (size + 1) + copies * (96 * tokens) + copies * (size + tokens + 1) + 8 * SlotsFor(tokens) + 8 * tokens
    ensures forall tokens: nat, c: nat :: PowerOfTwo(c) && c >= 8 && c >= 2 * (tokens / 2 + 1) ==> SlotsFor(tokens) <= c
    ensures forall tokens: nat :: SlotsFor(tokens) >= 8 && SlotsFor(tokens) > tokens
  {
    hide Keyset.CapacityFor;
    forall tokens: nat, c: nat | PowerOfTwo(c) && c >= 8 && c >= 2 * (tokens / 2 + 1) ensures SlotsFor(tokens) <= c {
      LeastCapacity(tokens / 2 + 1, c);
    }
    forall tokens: nat ensures SlotsFor(tokens) >= 8 && SlotsFor(tokens) > tokens {
      SlotsExceed(tokens);
    }
  }

  lemma SlotsExceed(tokens: nat)
    ensures SlotsFor(tokens) >= 8 && SlotsFor(tokens) > tokens
  {
  }

  function SumOf(sizes: seq<nat>, n: nat): nat
    requires n <= |sizes|
  {
    if n == 0 then 0 else SumOf(sizes, n - 1) + sizes[n - 1]
  }

  lemma {:induction false} SumGrows(sizes: seq<nat>, m: nat, n: nat)
    requires m <= n <= |sizes|
    ensures SumOf(sizes, m) <= SumOf(sizes, n)
    decreases n - m
  {
    if m < n {
      SumGrows(sizes, m, n - 1);
    }
  }

  /** The sum with its overflow check: LIMIT exactly when the total does not fit. */
  method SumSizes(sizes: seq<nat>) returns (code: Code, total: nat)
    requires forall i :: 0 <= i < |sizes| ==> sizes[i] <= SIZE_MAX
    ensures code == if SumOf(sizes, |sizes|) > SIZE_MAX then Code.Limit else Ok
    ensures code.Ok? ==> total == SumOf(sizes, |sizes|)
  {
    total := 0;
    var i := 0;
    while i < |sizes|
      invariant 0 <= i <= |sizes| && total == SumOf(sizes, i) <= SIZE_MAX
    {
      SumGrows(sizes, i + 1, |sizes|);
      if sizes[i] > SIZE_MAX - total {
        return Code.Limit, 0;
      }
      total := total + sizes[i];
      i := i + 1;
    }
    code := Ok;
  }

  method ParseAllocationBound(size: nat, profile: Profile, requested: Limits) returns (code: Code, bytes: nat)
    requires size <= SIZE_MAX
    ensures var limits := ResolveLimits(requested);
            if size == SIZE_MAX || limits.None? then code == Argument
            else if size > limits.value.maximumBytes then code == Code.Limit
            else
              && code == (if AllocationBound(size, profile, limits.value).None? then Code.Limit else Ok)
              && (code.Ok? ==> AllocationBound(size, profile, limits.value) == Some(bytes))
  {
    hide Keyset.CapacityFor, Budget, SumOf;
    bytes := 0;
    var resolved := ResolveLimits(requested);
    if size == SIZE_MAX || resolved.None? {
      return Argument, bytes;
    }
    var limits := resolved.value;
    if size > limits.maximumBytes {
      return Code.Limit, bytes;
    }
    var tokens := if size < limits.maximumTokens then size else limits.maximumTokens;
    if tokens == 0 {
      tokens := 1;
    }
    var slots := ComputeCapacity(tokens / 2 + 1);
    var table, arena := tokens * TOKEN_SIZE, size + tokens + 1;
    // Entries 2 and 3 count twice where a compacted copy may exist beside the original.
    var sizes := [DOCUMENT_SIZE, size + 1, table] + (if profile.LastWins? then [table, arena, arena] else [arena]) +
                 [slots * SLOT_SIZE, tokens * WORD_SIZE];
    assert sizes == SizeList(size, profile, tokens);
    SizesFit(size, limits, profile, tokens);
    SumIsBudget(size, profile, limits.maximumTokens);
    code, bytes := SumSizes(sizes);
  }

  lemma SizesFit(size: nat, limits: Limits, profile: Profile, tokens: nat)
    requires size < SIZE_MAX / 2 && 1 <= tokens <= SIZE_MAX / 256
    ensures forall i :: 0 <= i < |SizeList(size, profile, tokens)| ==> SizeList(size, profile, tokens)[i] <= SIZE_MAX
  {
  }

  function SizeList(size: nat, profile: Profile, tokens: nat): seq<nat> {
    var table, arena := tokens * TOKEN_SIZE, size + tokens + 1;
    [DOCUMENT_SIZE, size + 1, table] + (if profile.LastWins? then [table, arena, arena] else [arena]) +
    [SlotsFor(tokens) * SLOT_SIZE, tokens * WORD_SIZE]
  }

  lemma SumIsBudget(size: nat, profile: Profile, maximumTokens: nat)
    ensures var tokens := Grammar.CapacityFor(size, maximumTokens);
            var sizes := SizeList(size, profile, tokens);
            SumOf(sizes, |sizes|) == Budget(size, profile, maximumTokens)
  {
    hide SlotsFor;
    var sizes := SizeList(size, profile, Grammar.CapacityFor(size, maximumTokens));
    assert SumOf(sizes, 0) == 0;
    assert SumOf(sizes, 1) == sizes[0];
    assert SumOf(sizes, 2) == SumOf(sizes, 1) + sizes[1];
    assert SumOf(sizes, 3) == SumOf(sizes, 2) + sizes[2];
    assert SumOf(sizes, 4) == SumOf(sizes, 3) + sizes[3];
    assert SumOf(sizes, 5) == SumOf(sizes, 4) + sizes[4];
    assert SumOf(sizes, 6) == SumOf(sizes, 5) + sizes[5];
    if profile.LastWins? {
      assert SumOf(sizes, 7) == SumOf(sizes, 6) + sizes[6];
      assert SumOf(sizes, 8) == SumOf(sizes, 7) + sizes[7];
    }
  }

  // ----- texts of a tree

  /** Arena bytes of the texts, keys and lexemes of a tree, terminators included. */
  function Texts(j: Json): nat
    decreases j, 0
  {
    match j
    case Number(lexeme) => |lexeme| + 1
    case Text(t) => |t| + 1
    case Array(items) => ItemTexts(items, |items|)
    case Object(ms) => MemberTexts(ms, 0)
    case _ => 0
  }

  function ItemTexts(items: seq<Json>, n: nat): nat
    requires n <= |items|
    decreases items, n
  {
    if n == 0 then 0 else ItemTexts(items, n - 1) + Texts(items[n - 1])
  }

  function MemberTexts(ms: seq<Member>, k: nat): nat
    decreases ms, |ms| - k
  {
    if k >= |ms| then 0 else |ms[k].key| + 1 + Texts(ms[k].value) + MemberTexts(ms, k + 1)
  }

  lemma {:induction false} TextsOfRose(j: Json)
    ensures TextBytes(RoseOf(j)) == Texts(j)
    decreases j, 0
  {
    hide TextBytesUpTo, ItemTexts, MemberTexts;
    match j {
      case Array(items) =>
        ArrayRose(items);
        TextsOfItems(items, |items|);
      case Object(ms) =>
        ObjectRose(ms);
        TextsOfMembers(ms, |ms|);
        NoMoreTexts(ms);
      case _ => NoKidTexts();
    }
  }

  lemma NoKidTexts()
    ensures TextBytesUpTo([], 0) == 0
  {
  }

  lemma NoMoreTexts(ms: seq<Member>)
    ensures MemberTexts(ms, |ms|) == 0
  {
  }

  lemma {:induction false} TextsOfItems(items: seq<Json>, n: nat)
    requires n <= |items|
    ensures TextBytesUpTo(ItemRoses(items), n) == ItemTexts(items, n)
    decreases items, n
  {
    hide TextBytes, RoseOf, Texts;
    if n > 0 {
      TextsOfItems(items, n - 1);
      TextsOfRose(items[n - 1]);
    }
  }

  lemma {:induction false} TextsOfMembers(ms: seq<Member>, n: nat)
    requires n <= |ms|
    ensures TextBytesUpTo(MemberRoses(ms), 2 * n) + MemberTexts(ms, n) == MemberTexts(ms, 0)
    decreases ms, n
  {
    hide TextBytes, RoseOf, Texts, MemberRoses, KeyRose;
    if n > 0 {
      TextsOfMembers(ms, n - 1);
      TextsOfRose(ms[n - 1].value);
      MemberRoseAt(ms, n - 1);
      TwoTexts(MemberRoses(ms), n - 1);
      KeyTexts(ms[n - 1].key);
    }
  }

  lemma KeyTexts(key: Bytes)
    ensures TextBytes(KeyRose(key)) == |key| + 1
  {
    NoKidTexts();
  }

  lemma TwoTexts(kids: seq<Rose<Info>>, n: nat)
    requires 2 * n + 2 <= |kids|
    ensures TextBytesUpTo(kids, 2 * (n + 1)) ==
            TextBytesUpTo(kids, 2 * n) + TextBytes(kids[2 * n]) + TextBytes(kids[2 * n + 1])
  {
    hide TextBytes;
    assert TextBytesUpTo(kids, 2 * n + 1) == TextBytesUpTo(kids, 2 * n) + TextBytes(kids[2 * n]);
  }

  /** Dropping members never needs more room. */
  lemma {:induction false} PrunedTexts(j: Json)
    ensures Texts(Prune(j)) <= Texts(j) && Tokens(Prune(j)) <= Tokens(j)
    decreases j
  {
    hide ItemTexts, MemberTexts, PruneFrom, ItemTokens, MemberTokens;
    match j {
      case Array(items) =>
        var kept := Prune(j).items;
        forall k | 0 <= k < |items|
          ensures Texts(kept[k]) <= Texts(items[k]) && Tokens(kept[k]) <= Tokens(items[k])
        {
          PrunedTexts(items[k]);
        }
        ItemTextsBound(kept, items, |items|);
        ItemTokensBound(kept, items, 0);
      case Object(ms) =>
        forall k | 0 <= k < |ms|
          ensures Texts(Prune(ms[k].value)) <= Texts(ms[k].value) && Tokens(Prune(ms[k].value)) <= Tokens(ms[k].value)
        {
          PrunedTexts(ms[k].value);
        }
        PrunedMemberTexts(ms, 0);
        PrunedTokens(ms, 0);
      case _ =>
    }
  }

  lemma {:induction false} ItemTextsBound(a: seq<Json>, b: seq<Json>, n: nat)
    requires |a| == |b| && n <= |a| && forall k :: 0 <= k < |a| ==> Texts(a[k]) <= Texts(b[k])
    ensures ItemTexts(a, n) <= ItemTexts(b, n)
  {
    hide Texts;
    if n > 0 {
      ItemTextsBound(a, b, n - 1);
    }
  }

  lemma {:induction false} MemberTextsShift(m: Member, ms: seq<Member>, k: nat)
    ensures MemberTexts([m] + ms, k + 1) == MemberTexts(ms, k)
    decreases |ms| - k
  {
    hide Texts;
    if k < |ms| {
      MemberTextsShift(m, ms, k + 1);
    }
  }

  lemma {:induction false} PrunedMemberTexts(ms: seq<Member>, k: nat)
    requires forall i :: 0 <= i < |ms| ==> Texts(Prune(ms[i].value)) <= Texts(ms[i].value)
    ensures MemberTexts(PruneFrom(ms, k), 0) <= MemberTexts(ms, k)
    decreases |ms| - k
  {
    hide Texts, Prune, Superseded;
    if k < |ms| {
      PrunedMemberTexts(ms, k + 1);
      if !Superseded(ms, k) {
        MemberTextsShift(Member(ms[k].key, Prune(ms[k].value)), PruneFrom(ms, k + 1), 0);
      }
    }
  }

  /** Every text is at least as long printed as stored. */
  lemma {:induction false} EscapedIsLonger(t: Bytes)
    ensures EscapedSize(t) >= |t|
  {
    if t != [] {
      EscapedIsLonger(t[1..]);
    }
  }

  lemma {:induction false} TextsArePrinted(j: Json)
    ensures Texts(j) <= CompactSize(j) + Tokens(j)
    decreases j, 0
  {
    hide ItemTexts, MemberTexts, ItemSizes, MemberSizes, ItemTokens, MemberTokens;
    match j {
      case Text(t) => QuotedIsLonger(t);
      case Array(items) =>
        ItemTextsPrinted(items, |items|);
        NoMoreItems(items);
      case Object(ms) =>
        MemberTextsPrinted(ms, 0);
        NoMoreTexts(ms);
      case _ =>
    }
  }

  lemma QuotedIsLonger(t: Bytes)
    ensures |Quoted(t, false)| >= |t| + 2
  {
    hide EscapeFrom, EscapedSize;
    EscapeIsSized(t, 0);
    assert t[0..] == t;
    EscapedIsLonger(t);
  }

  lemma NoMoreItems(items: seq<Json>)
    ensures ItemSizes(items, |items|) == ItemTokens(items, |items|) == ItemTexts(items, 0) == 0
    ensures items == [] ==> ItemTexts(items, |items|) == 0
  {
  }

  lemma {:induction false} ItemTextsPrinted(items: seq<Json>, n: nat)
    requires n <= |items|
    ensures ItemTexts(items, n) + ItemSizes(items, n) + ItemTokens(items, n) <= ItemSizes(items, 0) + ItemTokens(items, 0)
    decreases items, n
  {
    hide Texts, CompactSize, Tokens;
    if n > 0 {
      ItemTextsPrinted(items, n - 1);
      TextsArePrinted(items[n - 1]);
    }
  }

  lemma {:induction false} MemberTextsPrinted(ms: seq<Member>, k: nat)
    ensures MemberTexts(ms, k) <= MemberSizes(ms, k) + MemberTokens(ms, k)
    decreases ms, |ms| - k
  {
    hide Texts, CompactSize, Tokens, Quoted;
    if k < |ms| {
      MemberTextsPrinted(ms, k + 1);
      TextsArePrinted(ms[k].value);
      QuotedIsLonger(ms[k].key);
    }
  }

  /** The published texts fit an arena of one byte per input byte and one per token. */
  lemma TextsFit(profile: Profile, b: Bytes, j: Json)
    requires Denotes(profile, b, j)
    ensures TextBytes(RoseOf(Prune(j))) <= |b| + Tokens(j)
  {
    hide SyntaxOk, Spelling, Tree, Tokens, CompactSize, Texts, Prune, RoseOf, TextBytes;
    var lead, s, trail :| IsTextOf(profile, b, lead, s, trail) && Tree(s) == j;
    SourceIsLonger(profile, s);
    TextsArePrinted(j);
    PrunedTexts(j);
    TextsOfRose(Prune(j));
  }
}
