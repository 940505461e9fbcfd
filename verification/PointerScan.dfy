/** The rescan behind error pointers, and why it rediscovers the path the reader was on. */
module PointerScan {
  import opened Basics
  import opened StringLiteral
  import opened Numeral
  import opened Trees
  import opened Reader
  import opened Acceptance
  import opened ParserLemmas

  /** What the rescan remembers of an open container. */
  datatype Frame = Frame(isObject: bool, index: nat, keyStart: nat, keyEnd: nat, hasKey: bool, inValue: bool)

  datatype Spot = Spot(pos: nat, frames: seq<Frame>)

  function TopOf(frames: seq<Frame>): Option<Frame> {
    if frames == [] then None else Some(frames[|frames| - 1])
  }

  function WithTop(frames: seq<Frame>, top: Frame): (r: seq<Frame>)
    requires frames != []
    ensures |r| == |frames|
  {
    frames[..|frames| - 1] + [top]
  }

  /** The first unescaped quotation mark at or after `pos`, or a position past the end. */
  function QuoteFrom(b: Bytes, pos: nat): (p: nat)
    ensures p >= pos && (p < |b| ==> b[p] == QUOTE)
    decreases |b| - pos
  {
    if pos < |b| && b[pos] != QUOTE then QuoteFrom(b, if b[pos] == BACKSLASH then pos + 2 else pos + 1) else pos
  }

  /** Just past the literal that opens at `pos`. */
  function LiteralEnd(b: Bytes, pos: nat): nat {
    if QuoteFrom(b, pos + 1) < |b| then QuoteFrom(b, pos + 1) + 1 else |b|
  }

  predicate IsBreak(b: Byte) {
    b == COMMA || b == CLOSE_BRACE || b == CLOSE_BRACKET || b == COLON || IsSpace(b)
  }

  function WordEnd(b: Bytes, pos: nat): (p: nat)
    ensures p >= pos && (pos <= |b| ==> p <= |b|)
    ensures pos < |b| && !IsBreak(b[pos]) ==> p > pos
    decreases |b| - pos
  {
    if pos < |b| && !IsBreak(b[pos]) then WordEnd(b, pos + 1) else pos
  }

  function KeyEnd(b: Bytes, pos: nat, end: nat): nat
    requires end <= |b|
  {
    if end > pos + 1 && b[end - 1] == QUOTE && end - 1 > pos then end - 1 else end
  }

  /** One turn of the scan at `pos`. */
  function Advance(b: Bytes, pos: nat, frames: seq<Frame>): (r: Spot)
    requires pos < |b|
    ensures r.pos > pos
  {
    var byte := b[pos];
    if IsSpace(byte) then Spot(pos + 1, frames)
    else if byte == OPEN_BRACE || byte == OPEN_BRACKET then
      var f := Frame(byte == OPEN_BRACE, 0, 0, 0, false, false);
      Spot(pos + 1, if |frames| < MAXIMUM_DEPTH then frames + [f] else frames)
    else if byte == CLOSE_BRACE || byte == CLOSE_BRACKET then
      Spot(pos + 1, if frames != [] then frames[..|frames| - 1] else frames)
    else if byte == COMMA then
      Spot(pos + 1, if frames == [] then frames else WithTop(frames, AfterComma(TopOf(frames).value)))
    else if byte == COLON then
      Spot(pos + 1, if frames == [] then frames else WithTop(frames, AfterColon(TopOf(frames).value)))
    else if byte == QUOTE then
      var end := LiteralEnd(b, pos);
      Spot(end, if frames == [] then frames else WithTop(frames, AfterLiteral(b, pos, TopOf(frames).value)))
    else Spot(WordEnd(b, pos), frames)
  }

  function AfterComma(f: Frame): Frame {
    if f.isObject then f.(hasKey := false, inValue := false) else f.(index := f.index + 1)
  }

  function AfterColon(f: Frame): Frame {
    if f.isObject && f.hasKey then f.(inValue := true) else f
  }

  /** A literal in an object, before the colon, is taken for the key. */
  function AfterLiteral(b: Bytes, pos: nat, f: Frame): Frame
    requires pos < |b|
  {
    var end := LiteralEnd(b, pos);
    if f.isObject && !f.inValue then f.(keyStart := pos + 1, keyEnd := KeyEnd(b, pos, end), hasKey := true) else f
  }

  /** The frames when the scan has reached `limit`. */
  function ScanFrom(b: Bytes, limit: nat, pos: nat, frames: seq<Frame>): seq<Frame>
    requires limit <= |b|
    decreases limit - pos
  {
    if pos >= limit then frames
    else
      var r := Advance(b, pos, frames);
      ScanFrom(b, limit, r.pos, r.frames)
  }

  // ----- frames against the reader's path

  predicate FrameIs(f: Frame, step: Step) {
    match step
    case AtIndex(n) => !f.isObject && f.index == n
    case AtKey(_, start, end) => f.isObject && f.hasKey && f.inValue && f.keyStart == start && f.keyEnd == end
    case InObject => f.isObject && !f.inValue
  }

  /** `found` is `base` and then one frame for each step of the path. */
  ghost predicate Rediscovers(found: seq<Frame>, base: seq<Frame>, path: seq<Step>) {
    && |found| == |base| + |path| && found[..|base|] == base
    && forall i :: 0 <= i < |path| ==> FrameIs(found[|base| + i], path[i])
  }

  /** A value may start here without being taken for a key. */
  predicate ValueNext(frames: seq<Frame>) {
    frames != [] ==> var top := frames[|frames| - 1]; top.isObject ==> top.hasKey && top.inValue
  }

  // ----- single turns

  lemma {:induction false} SpaceScans(b: Bytes, limit: nat, pos: nat, frames: seq<Frame>)
    requires pos <= Skip(b, pos) <= limit <= |b|
    ensures ScanFrom(b, limit, pos, frames) == ScanFrom(b, limit, Skip(b, pos), frames)
    decreases |b| - pos
  {
    if pos < |b| && IsSpace(b[pos]) {
      SpaceScans(b, limit, pos + 1, frames);
    }
  }

  lemma Turn(b: Bytes, limit: nat, pos: nat, frames: seq<Frame>)
    requires pos < limit <= |b|
    ensures ScanFrom(b, limit, pos, frames) ==
            ScanFrom(b, limit, Advance(b, pos, frames).pos, Advance(b, pos, frames).frames)
  {
    hide Advance;
  }

  /** The scan of a closed literal ends where the reader's does. */
  lemma {:induction false} LiteralScans(profile: Profile, b: Bytes, pos: nat)
    ensures var r := ScanBody(profile, b, pos); r.Closed? ==> QuoteFrom(b, pos) == r.end
    decreases |b| - pos
  {
    if pos < |b| && b[pos] != QUOTE {
      LiteralScans(profile, b, if b[pos] == BACKSLASH then pos + 2 else pos + 1);
    }
  }

  lemma {:induction false} WordScans(b: Bytes, pos: nat)
    requires pos <= |b| && forall k :: pos <= k < RunEnd(b, pos) ==> b[k] != COLON
    ensures WordEnd(b, pos) == RunEnd(b, pos)
    decreases |b| - pos
  {
    if pos < |b| && !IsDelimiter(b[pos]) {
      WordScans(b, pos + 1);
    }
  }

  /** A parsed primitive is one word of the scan. */
  lemma PrimitiveScans(c: Config, b: Bytes, pos: nat, used: nat, frames: seq<Frame>, limit: nat)
    requires pos < |b| && !IsSpace(b[pos]) && b[pos] !in {OPEN_BRACE, OPEN_BRACKET, QUOTE}
    requires PrimitiveAt(c, b, pos, used).Parsed? && PrimitiveAt(c, b, pos, used).pos <= limit <= |b|
    ensures ScanFrom(b, limit, pos, frames) == ScanFrom(b, limit, PrimitiveAt(c, b, pos, used).pos, frames)
  {
    var end := RunEnd(b, pos);
    var lexeme := b[pos..end];
    PlainLexeme(lexeme);
    forall k | pos <= k < end ensures b[k] != COLON {
      assert b[k] == lexeme[k - pos];
    }
    WordScans(b, pos);
    assert !IsDelimiter(b[pos]) && b[pos] != COLON by {
      assert b[pos] == lexeme[0];
    }
    hide PrimitiveAt, WordEnd;
    Turn(b, limit, pos, frames);
  }

  lemma PlainLexeme(lexeme: Bytes)
    requires Primitive(lexeme).Some?
    ensures lexeme != [] && forall k :: 0 <= k < |lexeme| ==> lexeme[k] != COLON && !IsDelimiter(lexeme[k])
  {
    hide IsNumber;
    if IsNumber(lexeme) {
      NumberBegins(lexeme);
    }
  }

  // ----- literals

  lemma {:induction false} QuoteNotBefore(profile: Profile, b: Bytes, pos: nat)
    ensures var r := ScanBody(profile, b, pos); r.BadByte? ==> r.at <= QuoteFrom(b, pos)
    decreases |b| - pos
  {
    var r := ScanBody(profile, b, pos);
    if pos < |b| && b[pos] != QUOTE && r != BadByte(pos) {
      QuoteNotBefore(profile, b, if b[pos] == BACKSLASH then pos + 2 else pos + 1);
    }
  }

  /** An error inside a literal lies before the end of what the scan skips. */
  lemma ErrorInLiteral(c: Config, b: Bytes, pos: nat, used: nat)
    requires StringAt(c, b, pos, used).Refused?
    ensures var at := StringAt(c, b, pos, used).at;
            && pos <= at && (pos <= |b| ==> at <= |b|)
            && (at > pos ==> pos < |b| && b[pos] == QUOTE && at <= LiteralEnd(b, pos))
  {
    hide DecodeFrom, ScanBody, QuoteFrom;
    if pos < |b| && b[pos] == QUOTE {
      QuoteNotBefore(c.profile, b, pos + 1);
      LiteralScans(c.profile, b, pos + 1);
    }
  }

  lemma TopKept(frames: seq<Frame>)
    requires frames != []
    ensures WithTop(frames, TopOf(frames).value) == frames
  {
  }

  lemma TurnAtLiteral(b: Bytes, limit: nat, pos: nat, frames: seq<Frame>)
    requires pos < limit <= |b| && b[pos] == QUOTE
    ensures ScanFrom(b, limit, pos, frames) ==
            ScanFrom(b, limit, LiteralEnd(b, pos),
                     if frames == [] then frames else WithTop(frames, AfterLiteral(b, pos, TopOf(frames).value)))
  {
    hide LiteralEnd, WithTop, AfterLiteral, ScanFrom;
    Turn(b, limit, pos, frames);
  }

  lemma ScanStops(b: Bytes, limit: nat, pos: nat, frames: seq<Frame>)
    requires limit <= |b| && pos >= limit
    ensures ScanFrom(b, limit, pos, frames) == frames
  {
  }

  /** A literal where a value is due leaves the frames alone, read or refused. */
  lemma TextScans(c: Config, b: Bytes, pos: nat, used: nat, frames: seq<Frame>, limit: nat)
    requires pos < |b| && b[pos] == QUOTE && ValueNext(frames) && limit <= |b|
    ensures var r := StringAt(c, b, pos, used);
            && (r.Read? && r.end + 1 <= limit ==>
                  ScanFrom(b, limit, pos, frames) == ScanFrom(b, limit, r.end + 1, frames))
            && (r.Refused? && limit == r.at ==> ScanFrom(b, limit, pos, frames) == frames)
  {
    hide StringAt, ScanFrom, LiteralEnd, WithTop;
    LiteralEnds(c, b, pos, used);
    if frames != [] {
      TopKept(frames);
    }
    if pos < limit {
      TurnAtLiteral(b, limit, pos, frames);
    }
    var r := StringAt(c, b, pos, used);
    if r.Refused? && limit == r.at {
      ErrorInLiteral(c, b, pos, used);
      ScanStops(b, limit, if pos < limit then LiteralEnd(b, pos) else pos, frames);
    }
  }

  lemma LiteralEnds(c: Config, b: Bytes, pos: nat, used: nat)
    ensures var r := StringAt(c, b, pos, used);
            r.Read? ==>
              LiteralEnd(b, pos) == r.end + 1 <= |b| && KeyEnd(b, pos, LiteralEnd(b, pos)) == r.end &&
              pos < |b| && b[pos] == QUOTE
  {
    hide Decode, ScanBody, QuoteFrom;
    LiteralScans(c.profile, b, pos + 1);
  }

  /** A literal where a key is due is remembered as the key. */
  lemma KeyScans(c: Config, b: Bytes, pos: nat, used: nat, base: seq<Frame>, f: Frame, limit: nat)
    requires f.isObject && !f.inValue && pos <= |b| && limit <= |b|
    ensures var r := StringAt(c, b, pos, used);
            && (r.Read? && r.end + 1 <= limit ==>
                  ScanFrom(b, limit, pos, base + [f]) ==
                  ScanFrom(b, limit, r.end + 1, base + [f.(keyStart := pos + 1, keyEnd := r.end, hasKey := true)]))
            && (r.Refused? && limit == r.at ==> Rediscovers(ScanFrom(b, limit, pos, base + [f]), base, [InObject]))
  {
    hide StringAt, ScanFrom, LiteralEnd, KeyEnd;
    var frames := base + [f];
    LiteralEnds(c, b, pos, used);
    assert frames[..|base|] == base;
    if pos < limit && b[pos] == QUOTE {
      TurnAtLiteral(b, limit, pos, frames);
    }
    var r := StringAt(c, b, pos, used);
    if r.Refused? && limit == r.at {
      ErrorInLiteral(c, b, pos, used);
      if pos < limit {
        ScanStops(b, limit, LiteralEnd(b, pos), base + [AfterLiteral(b, pos, f)]);
      } else {
        ScanStops(b, limit, pos, frames);
      }
    }
  }

  // ----- values

  /** What the scan does with a value the reader met at `pos`. */
  ghost predicate ValueTraced(c: Config, b: Bytes, pos: nat, depth: nat, used: nat, frames: seq<Frame>, limit: nat)
    requires pos <= |b| && limit <= |b|
  {
    Traced(ValueAt(c, b, pos, depth, used), b, pos, frames, frames, limit)
  }

  /**
    A result read from `pos` on: past it the scan stands with `left`; where it stopped, the scan
    has `left` and the frames of the path.
   */
  ghost predicate Traced(r: Parse, b: Bytes, pos: nat, frames: seq<Frame>, left: seq<Frame>, limit: nat)
    requires limit <= |b|
  {
    && (r.Parsed? && r.pos <= limit ==> ScanFrom(b, limit, pos, frames) == ScanFrom(b, limit, r.pos, left))
    && (r.Stopped? && limit == r.at ==> Rediscovers(ScanFrom(b, limit, pos, frames), left, r.path))
  }

  lemma NoPath(frames: seq<Frame>)
    ensures Rediscovers(frames, frames, [])
  {
  }

  /** One frame deeper, one step longer. */
  lemma Deeper(found: seq<Frame>, base: seq<Frame>, f: Frame, step: Step, path: seq<Step>)
    requires Rediscovers(found, base + [f], path) && FrameIs(f, step)
    ensures Rediscovers(found, base, [step] + path)
  {
    var all := [step] + path;
    assert found[..|base|] == found[..|base| + 1][..|base|] == base;
    assert found[|base|] == found[..|base| + 1][|base|] == f;
    forall i | 0 <= i < |all| ensures FrameIs(found[|base| + i], all[i]) {
      if i > 0 {
        assert found[|base| + i] == found[|base| + 1 + (i - 1)];
      }
    }
  }

  lemma OneStep(base: seq<Frame>, f: Frame, step: Step)
    requires FrameIs(f, step)
    ensures Rediscovers(base + [f], base, [step])
  {
  }

  /** After an entry of a container, up to the next entry or past its end. */
  lemma DelimiterScans(b: Bytes, pos: nat, closing: Byte, base: seq<Frame>, f: Frame, limit: nat)
    requires pos <= |b| && limit <= |b| && (closing == CLOSE_BRACE || closing == CLOSE_BRACKET)
    ensures var n := Delimiter(b, pos, closing);
            && (n.Close? && n.pos <= limit ==>
                  ScanFrom(b, limit, pos, base + [f]) == ScanFrom(b, limit, n.pos, base))
            && (n.Again? && n.pos <= limit ==>
                  ScanFrom(b, limit, pos, base + [f]) == ScanFrom(b, limit, n.pos, base + [AfterComma(f)]))
            && (n.Broken? && limit == n.at ==> ScanFrom(b, limit, pos, base + [f]) == base + [f])
  {
    hide ScanFrom, Skip, WithTop;
    var frames := base + [f];
    var p := Skip(b, pos);
    assert frames[..|base|] == base;
    if p <= limit {
      SpaceScans(b, limit, pos, frames);
      if p < limit && (b[p] == closing || b[p] == COMMA) {
        Turn(b, limit, p, frames);
        LastOf(base, f);
      }
    }
    if Delimiter(b, pos, closing).Again? && Skip(b, p + 1) <= limit {
      SpaceScans(b, limit, p + 1, base + [AfterComma(f)]);
    }
    if p >= limit {
      ScanStops(b, limit, p, frames);
    }
  }

  lemma LastOf(base: seq<Frame>, f: Frame)
    ensures TopOf(base + [f]) == Some(f) && forall g :: WithTop(base + [f], g) == base + [g]
  {
  }

  const OBJECT_FRAME := Frame(true, 0, 0, 0, false, false)
  const ARRAY_FRAME := Frame(false, 0, 0, 0, false, false)

  lemma TurnAtOpening(b: Bytes, limit: nat, pos: nat, frames: seq<Frame>)
    requires pos < limit <= |b| && (b[pos] == OPEN_BRACE || b[pos] == OPEN_BRACKET) && |frames| < MAXIMUM_DEPTH
    ensures ScanFrom(b, limit, pos, frames) ==
            ScanFrom(b, limit, pos + 1, frames + [if b[pos] == OPEN_BRACE then OBJECT_FRAME else ARRAY_FRAME])
  {
    hide ScanFrom;
    Turn(b, limit, pos, frames);
  }

  lemma TurnAtClosing(b: Bytes, limit: nat, pos: nat, base: seq<Frame>, f: Frame)
    requires pos < limit <= |b| && (b[pos] == CLOSE_BRACE || b[pos] == CLOSE_BRACKET)
    ensures ScanFrom(b, limit, pos, base + [f]) == ScanFrom(b, limit, pos + 1, base)
  {
    hide ScanFrom;
    Turn(b, limit, pos, base + [f]);
    assert (base + [f])[..|base|] == base;
  }

  lemma TurnAtColon(b: Bytes, limit: nat, pos: nat, base: seq<Frame>, f: Frame)
    requires pos < limit <= |b| && b[pos] == COLON && f.isObject && f.hasKey
    ensures ScanFrom(b, limit, pos, base + [f]) == ScanFrom(b, limit, pos + 1, base + [f.(inValue := true)])
  {
    hide ScanFrom, WithTop;
    Turn(b, limit, pos, base + [f]);
    LastOf(base, f);
  }

  lemma {:induction false} ValueTrace(c: Config, b: Bytes, pos: nat, depth: nat, used: nat, frames: seq<Frame>, limit: nat)
    requires pos <= |b| && limit <= |b| && depth == |frames| && c.depth <= MAXIMUM_DEPTH && ValueNext(frames)
    ensures ValueTraced(c, b, pos, depth, used, frames, limit)
    decreases |b| - pos, 1
  {
    hide ScanFrom, ValueAt, Skip, PrimitiveAt, StringAt, Rediscovers;
    var p := Skip(b, pos);
    ValueSkips(c, b, pos, depth, used);
    if p <= limit {
      SpaceScans(b, limit, pos, frames);
      StartIdle(b, pos);
      ScalarStart(c, b, p, depth, used);
      NoPath(frames);
      ScanStops(b, p, p, frames);
      if p < |b| && (b[p] == OPEN_BRACE || b[p] == OPEN_BRACKET) {
        ContainerTrace(c, b, p, depth, used, frames, limit);
      } else if p < |b| && b[p] == QUOTE {
        TextScans(c, b, p, used, frames, limit);
      } else if p < |b| {
        PrimitiveTrace(c, b, p, used, frames, limit);
      }
    }
  }

  lemma PrimitiveTrace(c: Config, b: Bytes, p: nat, used: nat, frames: seq<Frame>, limit: nat)
    requires p < |b| && !IsSpace(b[p]) && b[p] !in {OPEN_BRACE, OPEN_BRACKET, QUOTE} && limit <= |b|
    ensures Traced(PrimitiveAt(c, b, p, used), b, p, frames, frames, limit)
  {
    hide ScanFrom, Rediscovers, Primitive, RunEnd;
    NoPath(frames);
    ScanStops(b, p, p, frames);
    var r := PrimitiveAt(c, b, p, used);
    if r.Parsed? && r.pos <= limit {
      PrimitiveScans(c, b, p, used, frames, limit);
    }
  }

  lemma {:induction false} ContainerTrace(c: Config, b: Bytes, p: nat, depth: nat, used: nat, frames: seq<Frame>,
                                          limit: nat)
    requires p < |b| && limit <= |b| && depth == |frames| && c.depth <= MAXIMUM_DEPTH && p <= limit
    requires b[p] == OPEN_BRACE || b[p] == OPEN_BRACKET
    ensures ValueTraced(c, b, p, depth, used, frames, limit)
    decreases |b| - p, 0
  {
    hide ScanFrom, ValueAt, Skip, MembersAt, ItemsAt, Rediscovers;
    ContainerStart(c, b, p, depth, used);
    NoPath(frames);
    ScanStops(b, p, p, frames);
    if depth < c.depth && used < c.capacity && p < limit {
      var q := Skip(b, p + 1);
      var f := if b[p] == OPEN_BRACE then OBJECT_FRAME else ARRAY_FRAME;
      TurnAtOpening(b, limit, p, frames);
      if q <= limit {
        SpaceScans(b, limit, p + 1, frames + [f]);
        if q < limit && b[q] == (if b[p] == OPEN_BRACE then CLOSE_BRACE else CLOSE_BRACKET) {
          TurnAtClosing(b, limit, q, frames, f);
        }
        if b[p] == OPEN_BRACE {
          MembersTrace(c, b, q, depth, used + 1, [], frames, f, limit);
        } else {
          ItemsTrace(c, b, q, depth, used + 1, [], frames, f, limit);
        }
      }
    }
  }

  lemma {:induction false} ItemsTrace(c: Config, b: Bytes, pos: nat, depth: nat, used: nat, done: seq<Json>,
                                      base: seq<Frame>, f: Frame, limit: nat)
    requires pos <= |b| && limit <= |b| && depth == |base| && c.depth <= MAXIMUM_DEPTH
    requires !f.isObject && f.index == |done|
    ensures Traced(ItemsAt(c, b, pos, depth, used, done), b, pos, base + [f], base, limit)
    decreases |b| - pos, 2
  {
    hide ScanFrom, ValueAt, Rediscovers, Delimiter;
    var r := ValueAt(c, b, pos, depth + 1, used);
    ValueTrace(c, b, pos, depth + 1, used, base + [f], limit);
    if r.Stopped? && limit == r.at {
      Deeper(ScanFrom(b, limit, pos, base + [f]), base, f, AtIndex(|done|), r.path);
    }
    if r.Parsed? {
      DelimiterScans(b, r.pos, CLOSE_BRACKET, base, f, limit);
      OneStep(base, f, AtIndex(|done|));
      var next := Delimiter(b, r.pos, CLOSE_BRACKET);
      if next.Again? {
        ItemsTrace(c, b, next.pos, depth, r.used, done + [r.tree], base, AfterComma(f), limit);
      }
    }
  }

  lemma {:induction false} MembersTrace(c: Config, b: Bytes, pos: nat, depth: nat, used: nat, done: seq<Member>,
                                        base: seq<Frame>, f: Frame, limit: nat)
    requires pos <= |b| && limit <= |b| && depth == |base| && c.depth <= MAXIMUM_DEPTH
    requires f.isObject && !f.inValue
    ensures Traced(MembersAt(c, b, pos, depth, used, done), b, pos, base + [f], base, limit)
    decreases |b| - pos, 2
  {
    hide ScanFrom, Rediscovers, StringAt, HasKey, Skip, MemberValueAt;
    var key := StringAt(c, b, pos, used);
    KeyScans(c, b, pos, used, base, f, limit);
    OneStep(base, f, InObject);
    ScanStops(b, pos, pos, base + [f]);
    if key.Read? {
      var g := f.(keyStart := pos + 1, keyEnd := key.end, hasKey := true);
      var colon := Skip(b, key.end + 1);
      OneStep(base, g, InObject);
      if colon <= limit {
        SpaceScans(b, limit, key.end + 1, base + [g]);
        ScanStops(b, colon, colon, base + [g]);
        if colon < limit && b[colon] == COLON {
          TurnAtColon(b, limit, colon, base, g);
          MemberValueTrace(c, b, colon + 1, depth, used + 1, done, AtKey(key.text, pos + 1, key.end), base,
                           g.(inValue := true), limit);
        }
      }
    }
  }

  lemma {:induction false} MemberValueTrace(c: Config, b: Bytes, pos: nat, depth: nat, used: nat, done: seq<Member>,
                                            step: Step, base: seq<Frame>, f: Frame, limit: nat)
    requires pos <= |b| && limit <= |b| && depth == |base| && c.depth <= MAXIMUM_DEPTH
    requires step.AtKey? && FrameIs(f, step)
    ensures Traced(MemberValueAt(c, b, pos, depth, used, done, step), b, pos, base + [f], base, limit)
    decreases |b| - pos, 2
  {
    hide ScanFrom, ValueAt, Rediscovers, Delimiter;
    var r := ValueAt(c, b, pos, depth + 1, used);
    ValueTrace(c, b, pos, depth + 1, used, base + [f], limit);
    if r.Stopped? && limit == r.at {
      Deeper(ScanFrom(b, limit, pos, base + [f]), base, f, step, r.path);
    }
    if r.Parsed? {
      DelimiterScans(b, r.pos, CLOSE_BRACE, base, f, limit);
      OneStep(base, f, step);
      var next := Delimiter(b, r.pos, CLOSE_BRACE);
      if next.Again? {
        MembersTrace(c, b, next.pos, depth, r.used, done + [Member(step.key, r.tree)], base, AfterComma(f), limit);
      }
    }
  }

  /**
    Rescanning the bytes before an error gives one frame for each open container of the reader:
    with the current element's index, the current member's key, or no key before its colon.
   */
  lemma ScanRediscovers(c: Config, b: Bytes)
    requires c.depth <= 256 && ReadText(c, b).Stopped?
    ensures var r := ReadText(c, b);
            var found := ScanFrom(b, r.at, 0, []);
            && |found| == |r.path|
            && forall i :: 0 <= i < |found| ==> FrameIs(found[i], r.path[i])
  {
    hide ScanFrom, ValueAt, Skip;
    var v, r := ValueAt(c, b, 0, 0, 0), ReadText(c, b);
    ValueTrace(c, b, 0, 0, 0, [], r.at);
    if v.Parsed? {
      SpaceScans(b, r.at, v.pos, []);
      ScanStops(b, r.at, r.at, []);
    }
  }
}
