/** The slow canonical check: copy the document, serialize the copy, compare the bytes. */
module ReferenceCheck {
  import opened Basics
  import opened TextEscape
  import opened Numeral
  import opened Trees
  import opened Reader
  import opened Acceptance
  import opened Grammar
  import opened Printer
  import opened Order
  import opened LinkedTable
  import opened TokenTable
  import opened LastWinsTree
  import opened CanonicalForm
  import opened CanonicalSize
  import opened Keyset
  import opened DocumentParse
  import opened DocumentApi
  import opened ParseBudget
  import opened WriterState
  import opened Nodes
  import opened CopyRoom
  import opened Writer
  import opened Memory
  import Children

  /** No number of the tree has a fraction or an exponent. */
  predicate WholeNumbers(j: Json) {
    match j
    case Number(lexeme) => Integral(lexeme)
    case Array(items) => forall k :: 0 <= k < |items| ==> WholeNumbers(items[k])
    case Object(ms) => forall k :: 0 <= k < |ms| ==> WholeNumbers(ms[k].value)
    case _ => true
  }

  /** The canonical numeric domain is the whole numbers a copy can carry. */
  lemma {:induction false} IntegersAreWhole(profile: Profile, j: Json)
    requires Carried(profile, j)
    ensures IntegersOnly(j) <==> WholeNumbers(j) && InRange(j)
    decreases j
  {
    hide Printable, IsNumber, LeadingDigits, DecimalValue;
    match j {
      case Number(lexeme) => IntegerReading(lexeme);
      case Array(items) =>
        forall k | 0 <= k < |items| ensures IntegersOnly(items[k]) <==> WholeNumbers(items[k]) && InRange(items[k]) {
          IntegersAreWhole(profile, items[k]);
        }
      case Object(ms) =>
        forall k | 0 <= k < |ms|
          ensures IntegersOnly(ms[k].value) <==> WholeNumbers(ms[k].value) && InRange(ms[k].value)
        {
          IntegersAreWhole(profile, ms[k].value);
        }
      case _ =>
    }
  }

  // ----- the input bounds what the copy needs

  lemma {:induction false} NodesWithinTokens(j: Json)
    ensures NodesOf(j) <= Tokens(j)
    decreases j, 0
  {
    hide ItemNodes, MemberNodes, ItemTokens, MemberTokens;
    match j {
      case Array(items) =>
        ItemNodesWithin(items, |items|);
        ItemsEnd(items);
      case Object(ms) =>
        MemberNodesWithin(ms, |ms|);
        MembersEnd(ms);
      case _ =>
    }
  }

  lemma {:induction false} ItemNodesWithin(items: seq<Json>, n: nat)
    requires n <= |items|
    ensures ItemNodes(items, n) + ItemTokens(items, n) <= ItemTokens(items, 0)
    decreases items, n
  {
    hide NodesOf, Tokens;
    if n > 0 {
      ItemNodesWithin(items, n - 1);
      NodesWithinTokens(items[n - 1]);
    }
  }

  lemma {:induction false} MemberNodesWithin(ms: seq<Member>, n: nat)
    requires n <= |ms|
    ensures MemberNodes(ms, n) + MemberTokens(ms, n) <= MemberTokens(ms, 0)
    decreases ms, n
  {
    hide NodesOf, Tokens;
    if n > 0 {
      MemberNodesWithin(ms, n - 1);
      NodesWithinTokens(ms[n - 1].value);
    }
  }

  lemma {:induction false} LongerWithin(j: Json, m: nat, n: nat)
    requires TextsWithin(j, m) && m <= n
    ensures TextsWithin(j, n)
    decreases j
  {
    match j {
      case Array(items) =>
        forall k | 0 <= k < |items| ensures TextsWithin(items[k], n) {
          LongerWithin(items[k], m, n);
        }
      case Object(ms) =>
        forall k | 0 <= k < |ms| ensures TextsWithin(ms[k].value, n) {
          LongerWithin(ms[k].value, m, n);
        }
      case _ =>
    }
  }

  lemma {:induction false} ItemSizeWithin(items: seq<Json>, k: nat, i: nat)
    requires k <= i < |items|
    ensures CompactSize(items[i]) <= ItemSizes(items, k)
    decreases i - k
  {
    hide CompactSize;
    if k < i {
      ItemSizeWithin(items, k + 1, i);
    }
  }

  lemma {:induction false} MemberSizeWithin(ms: seq<Member>, k: nat, i: nat)
    requires k <= i < |ms|
    ensures CompactSize(ms[i].value) <= MemberSizes(ms, k) && |Quoted(ms[i].key, false)| <= MemberSizes(ms, k)
    decreases i - k
  {
    hide CompactSize, Quoted;
    if k < i {
      MemberSizeWithin(ms, k + 1, i);
    }
  }

  /** No text of a tree is longer than its compact print. */
  lemma {:induction false} TextsArePrintedWhole(j: Json)
    ensures TextsWithin(j, CompactSize(j))
    decreases j
  {
    hide ItemSizes, MemberSizes, Quoted;
    match j {
      case Text(t) => QuotedIsLonger(t);
      case Array(items) =>
        forall k | 0 <= k < |items| ensures TextsWithin(items[k], CompactSize(j)) {
          TextsArePrintedWhole(items[k]);
          ItemSizeWithin(items, 0, k);
          LongerWithin(items[k], CompactSize(items[k]), CompactSize(j));
        }
      case Object(ms) =>
        forall k | 0 <= k < |ms| ensures |ms[k].key| <= CompactSize(j) && TextsWithin(ms[k].value, CompactSize(j)) {
          TextsArePrintedWhole(ms[k].value);
          MemberSizeWithin(ms, 0, k);
          QuotedIsLonger(ms[k].key);
          LongerWithin(ms[k].value, CompactSize(ms[k].value), CompactSize(j));
        }
      case _ =>
    }
  }

  lemma {:induction false} PrunedWithin(j: Json, n: nat)
    requires TextsWithin(j, n)
    ensures TextsWithin(Prune(j), n)
    decreases j
  {
    hide PruneFrom;
    match j {
      case Array(items) =>
        forall k | 0 <= k < |items| ensures TextsWithin(Prune(items[k]), n) {
          PrunedWithin(items[k], n);
        }
      case Object(ms) =>
        forall k | 0 <= k < |ms| ensures TextsWithin(Prune(ms[k].value), n) {
          PrunedWithin(ms[k].value, n);
        }
        forall k | 0 <= k < |PruneFrom(ms, 0)|
          ensures |PruneFrom(ms, 0)[k].key| <= n && TextsWithin(PruneFrom(ms, 0)[k].value, n)
        {
          var source := PrunedFrom(ms, 0, k);
        }
      case _ =>
    }
  }

  lemma {:induction false} NestsMore(j: Json, m: int, n: int)
    requires Nests(j, m) && m <= n
    ensures Nests(j, n)
    decreases j
  {
    match j {
      case Array(items) =>
        forall k | 0 <= k < |items| ensures Nests(items[k], n - 1) {
          NestsMore(items[k], m - 1, n - 1);
        }
      case Object(ms) =>
        forall k | 0 <= k < |ms| ensures Nests(ms[k].value, n - 1) {
          NestsMore(ms[k].value, m - 1, n - 1);
        }
      case _ =>
    }
  }

  /** The tolerant reader's text is the strict profile's. */
  function WriterProfile(profile: Profile): (p: Profile)
    ensures !p.LastWins?
  {
    if profile.LastWins? then Rfc8259 else profile
  }

  lemma {:induction false} StrictlyCarried(profile: Profile, j: Json)
    requires Carried(profile, j)
    ensures Carried(WriterProfile(profile), j)
    decreases j
  {
    match j {
      case Array(items) =>
        forall k | 0 <= k < |items| ensures Carried(WriterProfile(profile), items[k]) {
          StrictlyCarried(profile, items[k]);
        }
      case Object(ms) =>
        forall k | 0 <= k < |ms| ensures Carried(WriterProfile(profile), ms[k].value) {
          StrictlyCarried(profile, ms[k].value);
        }
      case _ =>
    }
  }

  lemma InputBounds(c: Config, b: Bytes)
    requires ReadText(c, b).Parsed?
    ensures var j := Prune(ReadText(c, b).tree);
            TextsWithin(j, |b|) && NodesOf(j) <= |b| && |b| > 0
  {
    hide ReadText, IsTextOf, Tree, Tokens, NodesOf, TextsWithin, CompactSize, Prune, Fits, SyntaxOk, Spelling;
    var lead, s, trail := TextSound(c, b);
    var tree := Tree(s);
    TextSize(c.profile, b, lead, s, trail);
    TokensSpanBytes(c.profile, s);
    SourceIsLonger(c.profile, s);
    PrunedTexts(tree);
    NodesWithinTokens(Prune(tree));
    TextsArePrintedWhole(tree);
    PrunedWithin(tree, CompactSize(tree));
    LongerWithin(Prune(tree), CompactSize(tree), |b|);
  }

  lemma TextSize(profile: Profile, b: Bytes, lead: Bytes, s: Syntax, trail: Bytes)
    requires IsTextOf(profile, b, lead, s, trail)
    ensures SyntaxOk(profile, s) && |Spelling(s)| <= |b|
  {
    hide SyntaxOk, Spelling;
  }

  /** A fresh writer with the reference's limits has room for the published tree. */
  lemma FreshRoom(c: Config, b: Bytes, limits: Limits, s: Snapshot)
    requires ReadText(c, b).Parsed? && c.depth <= MAXIMUM_DEPTH
    requires limits == Limits(|b|, MAXIMUM_DEPTH, |b| + 1) && s == Snapshot([], [], None, None, Ok, false)
    ensures var j := Prune(ReadText(c, b).tree);
            CanHold(s, j, limits) && Carried(c.profile, j) && Carried(WriterProfile(c.profile), j)
  {
    hide ReadText, Tokens, NodesOf, TextsWithin, Prune, Distinct, Carried, Nests;
    var tree := ReadText(c, b).tree;
    InputBounds(c, b);
    ParsedIsCarried(c, b);
    PrunedFits(c, tree);
    StrictlyCarried(c.profile, Prune(tree));
    PruneIsDistinct(tree);
    NestsMore(Prune(tree), c.depth, MAXIMUM_DEPTH);
    NoChain();
  }

  // ----- the check

  method HoldsNonIntegralNumber(document: Finished, value: nat, ghost j: Json) returns (found: bool)
    requires document.Valid() && Shows(document.tokens, value, j)
    ensures found == !WholeNumbers(j)
    decreases j
  {
    hide Children.Laid, Cells, RoseOf, MemberRoses;
    ghost var q := TokenShows(document.tokens, value, j);
    var token := document.tokens[value].cell;
    found := false;
    match token.data.kind {
      case NumberKind =>
        var text := if token.data.text.Some? then token.data.text.value else [];
        found := exists k :: 0 <= k < |text| && (text[k] == POINT || text[k] == LOWER_E || text[k] == UPPER_E);
      case ArrayKind =>
        ArrayRose(j.items);
        var i := 0;
        while i < token.links.count && !found
          invariant i <= |j.items| == token.links.count
          invariant !found ==> forall k :: 0 <= k < i ==> WholeNumbers(j.items[k])
          invariant found ==> !WholeNumbers(j)
        {
          var code, element := document.ArrayGet(value, i, j);
          found := HoldsNonIntegralNumber(document, element, j.items[i]);
          i := i + 1;
        }
      case ObjectKind =>
        ObjectRose(j.members);
        var i := 0;
        while i < token.links.count / 2 && !found
          invariant i <= |j.members| == token.links.count / 2
          invariant !found ==> forall k :: 0 <= k < i ==> WholeNumbers(j.members[k].value)
          invariant found ==> !WholeNumbers(j)
        {
          var code, key, member := document.ObjectMemberAt(value, i, j);
          found := HoldsNonIntegralNumber(document, member, j.members[i].value);
          i := i + 1;
        }
      case _ =>
    }
  }

  /** reference_is_canonical; memory aside it answers for every text a reader of legal depth accepts. */
  method ReferenceIsCanonical(document: Finished, text: Bytes, profile: Profile, newline: bool, hash: Hash,
                              memory: Allocator, ghost c: Config)
    returns (code: Code, canonical: bool)
    requires document.Valid() && ReadText(c, text).Parsed? && c.profile == profile && c.depth <= 256
    requires Published(document.tokens, document.children[..], Prune(ReadText(c, text).tree))
    modifies memory
    ensures code.Memory? <==> memory.refusals > old(memory.refusals)
    ensures code.Ok? || code.Memory? || (code.Argument? && |text| + 1 > SIZE_MAX / 256)
    ensures code.Ok? ==> canonical == Reference(text, Prune(ReadText(c, text).tree), newline)
  {
    hide ReadText, Prune, Published, Children.Laid, Printer.Output, Sorted, Normalized, WholeNumbers, IntegersOnly, InRange,
         CanHold, Carried, Distinct, TableOf, Sound, Nests, Tokens, TreeOf, Stepped, Cells;
    ghost var j := Prune(ReadText(c, text).tree);
    RootShows(document.tokens, document.children[..], ReadText(c, text).tree);
    code, canonical := Ok, false;
    InputBounds(c, text);
    var resolved := ResolveLimits(Limits(|text|, MAXIMUM_DEPTH, |text| + 1));
    FreshRoom(c, text, Limits(|text|, MAXIMUM_DEPTH, |text| + 1), Snapshot([], [], None, None, Ok, false));
    IntegersAreWhole(profile, j);
    var nonIntegral := HoldsNonIntegralNumber(document, 0, j);
    if nonIntegral {
      return Ok, false;
    }
    if resolved.None? {
      return Argument, false;
    }
    var granted := memory.Ask();
    if !granted {
      return Code.Memory, false;
    }
    var writer := new Writer(WriterProfile(profile), resolved.value, COMPACT, newline, hash, memory);
    RootToken(document.tokens, j);
    ghost var r;
    code, r := writer.WriteValue(document, 0, profile, j);
    var bytes: Bytes := [];
    if code.Ok? {
      code, bytes := writer.Finish();
    }
    if code.Ok? {
      return Ok, bytes == text;
    }
    if code.Range? || code.Limit? {
      return Ok, false;
    }
  }

  lemma RootToken(tokens: seq<Token>, j: Json)
    requires Shows(tokens, 0, j)
    ensures |tokens| != 0
  {
    var q := TokenShows(tokens, 0, j);
  }
}
