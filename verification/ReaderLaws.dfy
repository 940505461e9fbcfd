/** What the codes of a refused text mean, apart from how the reader finds them. */
module ReaderLaws {
  import opened Basics
  import opened Utf8
  import opened StringLiteral
  import opened Trees
  import opened Reader
  import opened Acceptance
  import opened Grammar
  import opened ParserLemmas

  // ----- LIMIT: a matter of the limits only

  /** Depth and tokens for any text of this size. */
  predicate Roomy(c: Config, b: Bytes) {
    c.depth >= |b| && c.capacity >= |b|
  }

  ghost predicate Unlimited(r: Parse) {
    && (r.Stopped? ==> !r.code.Limit?)
    && (r.Parsed? ==> r.used <= r.pos)
  }

  lemma LiteralHasRoom(c: Config, b: Bytes, pos: nat, used: nat)
    requires Roomy(c, b) && used <= pos
    ensures StringAt(c, b, pos, used).Refused? ==> !StringAt(c, b, pos, used).code.Limit?
    ensures StringAt(c, b, pos, used).Refused? ==>
              StringAt(c, b, pos, used).code.Syntax? || StringAt(c, b, pos, used).code.Utf8?
  {
    hide ScanBody, DecodeFrom;
  }

  /** Every container and every token takes a byte, so with room for each byte no value is refused for its size. */
  lemma {:induction false} ValueHasRoom(c: Config, b: Bytes, pos: nat, depth: nat, used: nat)
    requires Roomy(c, b) && depth <= pos <= |b| && used <= pos
    ensures Unlimited(ValueAt(c, b, pos, depth, used))
    decreases |b| - pos, 1
  {
    hide ValueAt, MembersAt, ItemsAt, StringAt, Primitive, RunEnd, Skip;
    var p := Skip(b, pos);
    ValueSkips(c, b, pos, depth, used);
    StartIdle(b, pos);
    ScalarStart(c, b, p, depth, used);
    if p < |b| && (b[p] == OPEN_BRACE || b[p] == OPEN_BRACKET) {
      ContainerStart(c, b, p, depth, used);
      var q := Skip(b, p + 1);
      if b[p] == OPEN_BRACE {
        MembersHaveRoom(c, b, q, depth, used + 1, []);
      } else {
        ItemsHaveRoom(c, b, q, depth, used + 1, []);
      }
    } else if p < |b| {
      LiteralHasRoom(c, b, p, used);
    }
  }

  lemma {:induction false} ItemsHaveRoom(c: Config, b: Bytes, pos: nat, depth: nat, used: nat, done: seq<Json>)
    requires Roomy(c, b) && depth < pos <= |b| && used <= pos
    ensures Unlimited(ItemsAt(c, b, pos, depth, used, done))
    decreases |b| - pos, 2
  {
    hide ValueAt, Delimiter;
    var r := ValueAt(c, b, pos, depth + 1, used);
    ValueHasRoom(c, b, pos, depth + 1, used);
    if r.Parsed? && Delimiter(b, r.pos, CLOSE_BRACKET).Again? {
      ItemsHaveRoom(c, b, Delimiter(b, r.pos, CLOSE_BRACKET).pos, depth, r.used, done + [r.tree]);
    }
  }

  lemma {:induction false} MembersHaveRoom(c: Config, b: Bytes, pos: nat, depth: nat, used: nat, done: seq<Member>)
    requires Roomy(c, b) && depth < pos <= |b| && used <= pos
    ensures Unlimited(MembersAt(c, b, pos, depth, used, done))
    decreases |b| - pos, 2
  {
    hide ValueAt, Delimiter, StringAt, HasKey, Skip;
    var key := StringAt(c, b, pos, used);
    LiteralHasRoom(c, b, pos, used);
    if key.Read? {
      var colon := Skip(b, key.end + 1);
      if colon < |b| && b[colon] == COLON {
        var r := ValueAt(c, b, colon + 1, depth + 1, used + 1);
        ValueHasRoom(c, b, colon + 1, depth + 1, used + 1);
        if r.Parsed? && Delimiter(b, r.pos, CLOSE_BRACE).Again? {
          MembersHaveRoom(c, b, Delimiter(b, r.pos, CLOSE_BRACE).pos, depth, r.used, done + [Member(key.text, r.tree)]);
        }
      }
    }
  }

  /** With depth and tokens for every byte no text is refused with LIMIT. */
  lemma NeverLimit(c: Config, b: Bytes)
    requires Roomy(c, b)
    ensures ReadText(c, b).Stopped? ==> !ReadText(c, b).code.Limit?
  {
    hide ValueAt, Skip;
    ValueHasRoom(c, b, 0, 0, 0);
  }

  /** `wide` reads under the same profile with at least the limits of `c`. */
  predicate Wider(c: Config, wide: Config) {
    wide.profile == c.profile && wide.depth >= c.depth && wide.capacity >= c.capacity
  }

  /** The same result, unless the narrower limits stopped it. */
  ghost predicate SameOrLimit(r: Parse, w: Parse) {
    r == w || (r.Stopped? && r.code.Limit?)
  }

  lemma LiteralWidens(c: Config, wide: Config, b: Bytes, pos: nat, used: nat)
    requires Wider(c, wide)
    ensures var r := StringAt(c, b, pos, used);
            r == StringAt(wide, b, pos, used) || (r.Refused? && r.code.Limit?)
  {
    hide ScanBody, Decode;
  }

  lemma {:induction false} ValueWidens(c: Config, wide: Config, b: Bytes, pos: nat, depth: nat, used: nat)
    requires Wider(c, wide) && pos <= |b|
    ensures SameOrLimit(ValueAt(c, b, pos, depth, used), ValueAt(wide, b, pos, depth, used))
    decreases |b| - pos, 1
  {
    hide ValueAt, MembersAt, ItemsAt, StringAt, Primitive, RunEnd, Skip;
    var p := Skip(b, pos);
    ValueSkips(c, b, pos, depth, used);
    ValueSkips(wide, b, pos, depth, used);
    StartIdle(b, pos);
    ScalarStart(c, b, p, depth, used);
    ScalarStart(wide, b, p, depth, used);
    if p < |b| && (b[p] == OPEN_BRACE || b[p] == OPEN_BRACKET) {
      ContainerStart(c, b, p, depth, used);
      ContainerStart(wide, b, p, depth, used);
      var q := Skip(b, p + 1);
      if b[p] == OPEN_BRACE {
        MembersWiden(c, wide, b, q, depth, used + 1, []);
      } else {
        ItemsWiden(c, wide, b, q, depth, used + 1, []);
      }
    } else if p < |b| {
      LiteralWidens(c, wide, b, p, used);
    }
  }

  lemma {:induction false} ItemsWiden(c: Config, wide: Config, b: Bytes, pos: nat, depth: nat, used: nat, done: seq<Json>)
    requires Wider(c, wide) && pos <= |b|
    ensures SameOrLimit(ItemsAt(c, b, pos, depth, used, done), ItemsAt(wide, b, pos, depth, used, done))
    decreases |b| - pos, 2
  {
    hide ValueAt, Delimiter;
    var r := ValueAt(c, b, pos, depth + 1, used);
    ValueWidens(c, wide, b, pos, depth + 1, used);
    if r.Parsed? && Delimiter(b, r.pos, CLOSE_BRACKET).Again? {
      ItemsWiden(c, wide, b, Delimiter(b, r.pos, CLOSE_BRACKET).pos, depth, r.used, done + [r.tree]);
    }
  }

  lemma {:induction false} MembersWiden(c: Config, wide: Config, b: Bytes, pos: nat, depth: nat, used: nat,
                                        done: seq<Member>)
    requires Wider(c, wide) && pos <= |b|
    ensures SameOrLimit(MembersAt(c, b, pos, depth, used, done), MembersAt(wide, b, pos, depth, used, done))
    decreases |b| - pos, 2
  {
    hide ValueAt, Delimiter, StringAt, HasKey, Skip, MemberValueAt;
    var key := StringAt(c, b, pos, used);
    LiteralWidens(c, wide, b, pos, used);
    if key.Read? {
      var colon := Skip(b, key.end + 1);
      if colon < |b| && b[colon] == COLON {
        MemberWidens(c, wide, b, colon + 1, depth, used + 1, done, AtKey(key.text, pos + 1, key.end));
      }
    }
  }

  lemma {:induction false} MemberWidens(c: Config, wide: Config, b: Bytes, pos: nat, depth: nat, used: nat,
                                        done: seq<Member>, step: Step)
    requires Wider(c, wide) && pos <= |b| && step.AtKey?
    ensures SameOrLimit(MemberValueAt(c, b, pos, depth, used, done, step),
                        MemberValueAt(wide, b, pos, depth, used, done, step))
    decreases |b| - pos, 2
  {
    hide ValueAt, Delimiter, MembersAt;
    var r := ValueAt(c, b, pos, depth + 1, used);
    ValueWidens(c, wide, b, pos, depth + 1, used);
    if r.Parsed? && Delimiter(b, r.pos, CLOSE_BRACE).Again? {
      MembersWiden(c, wide, b, Delimiter(b, r.pos, CLOSE_BRACE).pos, depth, r.used,
                   done + [Member(step.key, r.tree)]);
    }
  }

  /** Limits matter through LIMIT alone: any other outcome is the same under all wider limits. */
  lemma LimitsOnlyLimit(c: Config, wide: Config, b: Bytes)
    requires Wider(c, wide)
    ensures SameOrLimit(ReadText(c, b), ReadText(wide, b))
  {
    hide ValueAt, Skip;
    ValueWidens(c, wide, b, 0, 0, 0);
  }

  /** The same reader with depth and tokens for every byte. */
  function Unbounded(c: Config, b: Bytes): Config {
    c.(depth := if c.depth >= |b| then c.depth else |b|, capacity := if c.capacity >= |b| then c.capacity else |b|)
  }

  /** A text is refused with LIMIT exactly when wider limits would change its outcome. */
  lemma LimitIsExact(c: Config, b: Bytes)
    ensures var r := ReadText(c, b);
            (r.Stopped? && r.code.Limit?) <==> r != ReadText(Unbounded(c, b), b)
  {
    hide ReadText;
    LimitsOnlyLimit(c, Unbounded(c, b), b);
    NeverLimit(Unbounded(c, b), b);
  }

  // ----- DUPLICATE_KEY: a matter of the profile only

  lemma {:induction false} ScanIgnoresTolerance(b: Bytes, pos: nat)
    ensures ScanBody(Rfc8259, b, pos) == ScanBody(LastWins, b, pos)
    decreases |b| - pos
  {
    if pos < |b| && b[pos] != QUOTE {
      ScanIgnoresTolerance(b, if b[pos] == BACKSLASH then pos + 2 else pos + 1);
    }
  }

  lemma {:induction false} DecodeIgnoresTolerance(s: Bytes, i: nat)
    ensures DecodeFrom(Rfc8259, s, i) == DecodeFrom(LastWins, s, i)
    decreases |s| - i
  {
    hide StepAt, EscapePoint, EscapeSize, Encode, ShortMeaning;
    if i < |s| {
      if s[i] != BACKSLASH {
        if StepAt(s, i) > 0 {
          DecodeIgnoresTolerance(s, i + StepAt(s, i));
        }
      } else if i + 1 < |s| {
        if s[i + 1] == LETTER_U {
          if EscapePoint(s, i + 2) != 0 {
            DecodeIgnoresTolerance(s, i + 2 + EscapeSize(s, i + 2));
          }
        } else {
          DecodeIgnoresTolerance(s, i + 2);
        }
      }
    }
  }

  /** The tolerant reader reads every literal of a strict one; under RFC8259 it also refuses the same ones. */
  lemma LiteralIgnoresTolerance(c: Config, b: Bytes, pos: nat, used: nat)
    ensures var tolerant := c.(profile := LastWins);
            var r := StringAt(c, b, pos, used);
            && (r.Read? ==> StringAt(tolerant, b, pos, used) == r)
            && (!c.profile.ContractAscii? ==> StringAt(tolerant, b, pos, used) == r)
  {
    hide ScanBody, DecodeFrom, SpellAll, Meaning, CharsOk, Occurs;
    var tolerant := c.(profile := LastWins);
    var r := StringAt(c, b, pos, used);
    if c.profile.Rfc8259? {
      ScanIgnoresTolerance(b, pos + 1);
      SlicesDecodeAlike(b);
    } else if c.profile.ContractAscii? && r.Read? {
      var chars := StringSound(c, b, pos, used);
      RelaxChars(c.profile, chars);
      LiteralOccurs(b, pos, r.end, chars);
      StringComplete(tolerant, b, pos, used, chars);
    }
  }

  lemma LiteralOccurs(b: Bytes, pos: nat, end: nat, chars: seq<StringLiteral.Char>)
    requires pos < end < |b| && SpellText(chars) == b[pos..end + 1]
    ensures Occurs(b, pos, SpellText(chars)) && end == pos + 1 + |SpellAll(chars)|
  {
    hide SpellAll;
  }

  lemma SlicesDecodeAlike(b: Bytes)
    ensures forall i, k :: 0 <= i <= k <= |b| ==> Decode(Rfc8259, b[i..k]) == Decode(LastWins, b[i..k])
  {
    forall i, k | 0 <= i <= k <= |b| ensures Decode(Rfc8259, b[i..k]) == Decode(LastWins, b[i..k]) {
      DecodeIgnoresTolerance(b[i..k], 0);
    }
  }

  /** Where the strict reader stops for a repeated key the tolerant one goes on; what it accepts they read alike. */
  ghost predicate Overtaken(strict: Parse, tolerant: Parse, ascii: bool) {
    && (strict.Parsed? ==> tolerant == strict)
    && (strict.Stopped? && strict.code.DuplicateKey? ==> EndOf(tolerant) > strict.at)
    && (strict.Stopped? && !strict.code.DuplicateKey? && !ascii ==> tolerant == strict)
  }

  function EndOf(r: Parse): nat {
    if r.Parsed? then r.pos else r.at
  }

  lemma {:induction false} ValueOvertaken(c: Config, b: Bytes, pos: nat, depth: nat, used: nat)
    requires !c.profile.LastWins? && pos <= |b|
    ensures Overtaken(ValueAt(c, b, pos, depth, used), ValueAt(c.(profile := LastWins), b, pos, depth, used),
                      c.profile.ContractAscii?)
    decreases |b| - pos, 1
  {
    hide ValueAt, MembersAt, ItemsAt, StringAt, Primitive, RunEnd, Skip;
    var tolerant := c.(profile := LastWins);
    var p := Skip(b, pos);
    ValueSkips(c, b, pos, depth, used);
    ValueSkips(tolerant, b, pos, depth, used);
    StartIdle(b, pos);
    ScalarStart(c, b, p, depth, used);
    ScalarStart(tolerant, b, p, depth, used);
    if p < |b| && (b[p] == OPEN_BRACE || b[p] == OPEN_BRACKET) {
      ContainerStart(c, b, p, depth, used);
      ContainerStart(tolerant, b, p, depth, used);
      var q := Skip(b, p + 1);
      if b[p] == OPEN_BRACE {
        MembersOvertaken(c, b, q, depth, used + 1, []);
      } else {
        ItemsOvertaken(c, b, q, depth, used + 1, []);
      }
    } else if p < |b| {
      LiteralIgnoresTolerance(c, b, p, used);
      LiteralCodes(c, b, p, used);
    }
  }

  lemma LiteralCodes(c: Config, b: Bytes, pos: nat, used: nat)
    ensures StringAt(c, b, pos, used).Refused? ==>
              var code := StringAt(c, b, pos, used).code; code.Syntax? || code.Utf8? || code.Limit?
  {
    hide ScanBody, DecodeFrom;
  }

  lemma {:induction false} ItemsOvertaken(c: Config, b: Bytes, pos: nat, depth: nat, used: nat, done: seq<Json>)
    requires !c.profile.LastWins? && pos <= |b|
    ensures Overtaken(ItemsAt(c, b, pos, depth, used, done),
                      ItemsAt(c.(profile := LastWins), b, pos, depth, used, done), c.profile.ContractAscii?)
    decreases |b| - pos, 2
  {
    hide ValueAt, Delimiter;
    var r := ValueAt(c, b, pos, depth + 1, used);
    ValueOvertaken(c, b, pos, depth + 1, used);
    if r.Parsed? && Delimiter(b, r.pos, CLOSE_BRACKET).Again? {
      ItemsOvertaken(c, b, Delimiter(b, r.pos, CLOSE_BRACKET).pos, depth, r.used, done + [r.tree]);
    }
  }

  lemma {:induction false} MembersOvertaken(c: Config, b: Bytes, pos: nat, depth: nat, used: nat, done: seq<Member>)
    requires !c.profile.LastWins? && pos <= |b|
    ensures Overtaken(MembersAt(c, b, pos, depth, used, done),
                      MembersAt(c.(profile := LastWins), b, pos, depth, used, done), c.profile.ContractAscii?)
    decreases |b| - pos, 2
  {
    hide ValueAt, Delimiter, StringAt, HasKey, Skip, MemberValueAt;
    var key := StringAt(c, b, pos, used);
    LiteralIgnoresTolerance(c, b, pos, used);
    LiteralCodes(c, b, pos, used);
    if key.Read? {
      var colon := Skip(b, key.end + 1);
      if colon < |b| && b[colon] == COLON {
        MemberOvertaken(c, b, colon + 1, depth, used + 1, done, AtKey(key.text, pos + 1, key.end));
      }
    }
  }

  lemma {:induction false} MemberOvertaken(c: Config, b: Bytes, pos: nat, depth: nat, used: nat, done: seq<Member>,
                                           step: Step)
    requires !c.profile.LastWins? && pos <= |b| && step.AtKey?
    ensures Overtaken(MemberValueAt(c, b, pos, depth, used, done, step),
                      MemberValueAt(c.(profile := LastWins), b, pos, depth, used, done, step), c.profile.ContractAscii?)
    decreases |b| - pos, 2
  {
    hide ValueAt, Delimiter, MembersAt;
    var r := ValueAt(c, b, pos, depth + 1, used);
    ValueOvertaken(c, b, pos, depth + 1, used);
    if r.Parsed? && Delimiter(b, r.pos, CLOSE_BRACE).Again? {
      MembersOvertaken(c, b, Delimiter(b, r.pos, CLOSE_BRACE).pos, depth, r.used, done + [Member(step.key, r.tree)]);
    }
  }

  /** DUPLICATE_KEY comes only where the tolerant reader gets past; everything else both readers see alike. */
  lemma DuplicateIsOvertaken(c: Config, b: Bytes)
    requires !c.profile.LastWins?
    ensures Overtaken(ReadText(c, b), ReadText(c.(profile := LastWins), b), c.profile.ContractAscii?)
  {
    hide ValueAt, Skip;
    ValueOvertaken(c, b, 0, 0, 0);
  }

  /** Under RFC8259 a text is refused with DUPLICATE_KEY exactly when the tolerant reader sees it differently. */
  lemma DuplicateIsExact(c: Config, b: Bytes)
    requires c.profile.Rfc8259?
    ensures var r := ReadText(c, b);
            (r.Stopped? && r.code.DuplicateKey?) <==> r != ReadText(c.(profile := LastWins), b)
  {
    hide ReadText;
    DuplicateIsOvertaken(c, b);
  }

  // ----- UTF8 and SYNTAX

  /** Inside a literal UTF8 marks a byte where no well-formed sequence starts, SYNTAX a backslash that escapes nothing. */
  lemma {:induction false} DecodeCodes(profile: Profile, s: Bytes, i: nat)
    ensures var d := DecodeFrom(profile, s, i);
            d.Bad? ==>
              && (d.code.Utf8? ==> s[d.at] != BACKSLASH && StepAt(s, d.at) == 0 && !profile.ContractAscii?)
              && (d.code.Syntax? && !profile.ContractAscii? ==> s[d.at] == BACKSLASH)
    decreases |s| - i
  {
    hide StepAt, EscapePoint, EscapeSize, Encode, ShortMeaning;
    if i < |s| {
      if profile.ContractAscii? {
        DecodeCodes(profile, s, i + 1);
      } else if s[i] != BACKSLASH {
        if StepAt(s, i) > 0 {
          DecodeCodes(profile, s, i + StepAt(s, i));
        }
      } else if i + 1 < |s| {
        if s[i + 1] == LETTER_U {
          if EscapePoint(s, i + 2) != 0 {
            DecodeCodes(profile, s, i + 2 + EscapeSize(s, i + 2));
          }
        } else {
          DecodeCodes(profile, s, i + 2);
        }
      }
    }
  }

  /** A sequence cut short by the closing mark is not continued by it. */
  lemma StepBeforeQuote(b: Bytes, start: nat, end: nat, i: nat)
    requires start + i < end < |b| && b[end] == QUOTE
    ensures StepAt(b[start..end], i) == 0 <==> StepAt(b, start + i) == 0
    ensures StepAt(b[start..end], i) > 0 ==> StepAt(b[start..end], i) == StepAt(b, start + i)
  {
    var s := b[start..end];
    assert forall k :: 0 <= k < |s| ==> s[k] == b[start + k];
  }

  /** `i` is the start of a sequence, or the end, of well-formed text. */
  predicate Boundary(b: Bytes, i: nat) {
    i <= |b| && PrefixFrom(b, i) == |b|
  }

  /** In well-formed text every byte after an ASCII byte starts a sequence. */
  lemma {:induction false} AfterAscii(b: Bytes, j: nat, i: nat)
    requires Boundary(b, j) && j < i <= |b| && b[i - 1] <= 0x7F
    ensures Boundary(b, i)
    decreases |b| - j
  {
    WideBytes(b, j);
    hide StepAt;
    if j + StepAt(b, j) < i {
      AfterAscii(b, j + StepAt(b, j), i);
    }
  }

  lemma WideBytes(b: Bytes, j: nat)
    requires j < |b| && PrefixFrom(b, j) == |b|
    ensures StepAt(b, j) > 0 && Boundary(b, j + StepAt(b, j))
    ensures forall k :: j < k < j + StepAt(b, j) ==> b[k] >= 0x80
    ensures b[j] <= 0x7F ==> StepAt(b, j) == 1
  {
    StepTail(b, j);
    hide StepAt;
  }

  lemma StepTail(b: Bytes, j: nat)
    requires j < |b|
    ensures forall k :: j < k < j + StepAt(b, j) ==> b[k] >= 0x80
    ensures b[j] <= 0x7F ==> StepAt(b, j) == 1
  {
  }

  /** After a hexadecimal escape a sequence starts. */
  lemma EscapeBoundary(b: Bytes, start: nat, end: nat, i: nat)
    requires Valid(b) && start <= end < |b| && EscapePoint(b[start..end], i) != 0
    ensures var next := start + i + EscapeSize(b[start..end], i); next <= end && Boundary(b, next)
  {
    hide PrefixFrom, EscapePoint, EscapeSize;
    var s := b[start..end];
    var next := i + EscapeSize(s, i);
    EscapeEnds(s, i);
    assert s[next - 1] == b[start + next - 1];
    AfterAscii(b, 0, start + next);
  }

  /** Well-formed input decodes without UTF8. */
  lemma {:induction false} ValidDecodes(profile: Profile, b: Bytes, start: nat, end: nat, i: nat)
    requires Valid(b) && start + i <= end < |b| && b[end] == QUOTE && Boundary(b, start + i)
    ensures var d := DecodeFrom(profile, b[start..end], i); d.Bad? ==> !d.code.Utf8?
    decreases end - i
  {
    var s := b[start..end];
    hide StepAt, Encode, ShortMeaning, PrefixFrom, EscapePoint, EscapeSize, Boundary;
    if profile.ContractAscii? {
      DecodeCodes(profile, s, i);
    } else if start + i < end {
      assert s[i] == b[start + i];
      if s[i] != BACKSLASH {
        StepBoundary(b, start, end, i);
        ValidDecodes(profile, b, start, end, i + StepAt(s, i));
      } else if i + 1 < |s| {
        if s[i + 1] == LETTER_U {
          if EscapePoint(s, i + 2) != 0 {
            EscapeBoundary(b, start, end, i + 2);
            ValidDecodes(profile, b, start, end, i + 2 + EscapeSize(s, i + 2));
          }
        } else if ShortMeaning(s[i + 1]) != 0 {
          ShortBoundary(b, start, end, i + 2);
          ValidDecodes(profile, b, start, end, i + 2);
        }
      }
    }
  }

  lemma StepBoundary(b: Bytes, start: nat, end: nat, i: nat)
    requires start + i < end < |b| && b[end] == QUOTE && Boundary(b, start + i)
    ensures var k := StepAt(b[start..end], i); k > 0 && start + i + k <= end && Boundary(b, start + i + k)
  {
    hide StepAt, PrefixFrom;
    WideBytes(b, start + i);
    StepBeforeQuote(b, start, end, i);
  }

  lemma ShortBoundary(b: Bytes, start: nat, end: nat, i: nat)
    requires Valid(b) && 0 < i && start + i <= end < |b| && ShortMeaning(b[start..end][i - 1]) != 0
    ensures Boundary(b, start + i)
  {
    hide PrefixFrom;
    var s := b[start..end];
    assert s[i - 1] == b[start + i - 1];
    ShortIsAscii(s[i - 1]);
    AfterAscii(b, 0, start + i);
  }

  lemma ShortIsAscii(letter: Byte)
    requires ShortMeaning(letter) != 0
    ensures letter <= 0x7F
  {
  }

  lemma EscapeEnds(s: Bytes, i: nat)
    requires EscapePoint(s, i) != 0
    ensures s[i + EscapeSize(s, i) - 1] <= 0x7F
  {
    hide Joined, Hex4;
    var n := EscapeSize(s, i);
    assert s[i..i + 4][3] == s[i + 3];
    if n == 10 {
      assert IsHexAt(s, i + 6);
      assert s[i + 6..i + 10][3] == s[i + 9];
    }
  }

  /**
    The offset of a refused literal: its opening mark when there is none or the literal never ends, its first byte
    for LIMIT, else a control, an escape or a byte the profile forbids.
   */
  lemma LiteralOffset(c: Config, b: Bytes, pos: nat, used: nat)
    requires StringAt(c, b, pos, used).Refused?
    ensures var r := StringAt(c, b, pos, used);
            && (r.code.Limit? ==> r.at == pos + 1)
            && (r.at == pos <==> pos >= |b| || b[pos] != QUOTE || ScanBody(c.profile, b, pos + 1).Unterminated?)
            && (r.code.Syntax? && r.at > pos ==>
                  && r.at < |b|
                  && (b[r.at] < 0x20 || b[r.at] == BACKSLASH || (c.profile.ContractAscii? && b[r.at] > 0x7E)))
  {
    hide DecodeFrom;
    if pos < |b| && b[pos] == QUOTE {
      if ScanBody(c.profile, b, pos + 1).Closed? {
        var end := ScanBody(c.profile, b, pos + 1).end;
        DecodeCodes(c.profile, b[pos + 1..end], 0);
        if c.profile.ContractAscii? {
          AsciiBodyDecodes(c.profile, b, pos + 1, end, 0);
        }
      } else {
        BadByteIs(c.profile, b, pos + 1);
      }
    }
  }

  lemma {:induction false} BadByteIs(profile: Profile, b: Bytes, pos: nat)
    ensures var r := ScanBody(profile, b, pos);
            r.BadByte? ==> b[r.at] < 0x20 || (profile.ContractAscii? && (b[r.at] == BACKSLASH || b[r.at] > 0x7E))
    decreases |b| - pos
  {
    if pos < |b| && b[pos] != QUOTE {
      BadByteIs(profile, b, if b[pos] == BACKSLASH then pos + 2 else pos + 1);
    }
  }

  /** A scanned CONTRACT_ASCII body always decodes. */
  lemma {:induction false} AsciiBodyDecodes(profile: Profile, b: Bytes, start: nat, end: nat, i: nat)
    requires profile.ContractAscii? && start + i <= end < |b| && ScanBody(profile, b, start + i) == Closed(end)
    ensures DecodeFrom(profile, b[start..end], i).Good?
    decreases end - i
  {
    var s := b[start..end];
    if start + i < end {
      assert s[i] == b[start + i];
      AsciiBodyDecodes(profile, b, start, end, i + 1);
    }
  }

  // ----- all codes of the reader

  /** The codes there are, and where UTF8 and DUPLICATE_KEY may come from. */
  ghost predicate Coded(c: Config, b: Bytes, r: Parse) {
    r.Stopped? ==>
      && (r.code.Syntax? || r.code.Utf8? || r.code.Limit? || r.code.DuplicateKey?)
      && (r.code.DuplicateKey? ==> !c.profile.LastWins?)
      && (r.code.Utf8? ==> r.at < |b| && StepAt(b, r.at) == 0 && !Valid(b) && !c.profile.ContractAscii?)
  }

  lemma LiteralCoded(c: Config, b: Bytes, pos: nat, used: nat)
    ensures var r := StringAt(c, b, pos, used);
            r.Refused? ==>
              && (r.code.Syntax? || r.code.Utf8? || r.code.Limit?)
              && (r.code.Utf8? ==> r.at < |b| && StepAt(b, r.at) == 0 && !Valid(b) && !c.profile.ContractAscii?)
  {
    hide ScanBody, DecodeFrom, StepAt, PrefixFrom;
    LiteralCodes(c, b, pos, used);
    var r := StringAt(c, b, pos, used);
    if r.Refused? && r.code.Utf8? {
      var end := ScanBody(c.profile, b, pos + 1).end;
      DecodeCodes(c.profile, b[pos + 1..end], 0);
      StepBeforeQuote(b, pos + 1, end, r.at - (pos + 1));
      if Valid(b) {
        AfterAscii(b, 0, pos + 1);
        ValidDecodes(c.profile, b, pos + 1, end, 0);
      }
    }
  }

  lemma {:induction false} ValueCoded(c: Config, b: Bytes, pos: nat, depth: nat, used: nat)
    requires pos <= |b|
    ensures Coded(c, b, ValueAt(c, b, pos, depth, used))
    decreases |b| - pos, 1
  {
    hide ValueAt, MembersAt, ItemsAt, StringAt, Primitive, RunEnd, Skip, StepAt, Valid;
    var p := Skip(b, pos);
    ValueSkips(c, b, pos, depth, used);
    StartIdle(b, pos);
    ScalarStart(c, b, p, depth, used);
    if p < |b| && (b[p] == OPEN_BRACE || b[p] == OPEN_BRACKET) {
      ContainerStart(c, b, p, depth, used);
      var q := Skip(b, p + 1);
      if b[p] == OPEN_BRACE {
        MembersCoded(c, b, q, depth, used + 1, []);
      } else {
        ItemsCoded(c, b, q, depth, used + 1, []);
      }
    } else if p < |b| {
      LiteralCoded(c, b, p, used);
    }
  }

  lemma {:induction false} ItemsCoded(c: Config, b: Bytes, pos: nat, depth: nat, used: nat, done: seq<Json>)
    requires pos <= |b|
    ensures Coded(c, b, ItemsAt(c, b, pos, depth, used, done))
    decreases |b| - pos, 2
  {
    hide ValueAt, Delimiter, StepAt, Valid;
    var r := ValueAt(c, b, pos, depth + 1, used);
    ValueCoded(c, b, pos, depth + 1, used);
    if r.Parsed? && Delimiter(b, r.pos, CLOSE_BRACKET).Again? {
      ItemsCoded(c, b, Delimiter(b, r.pos, CLOSE_BRACKET).pos, depth, r.used, done + [r.tree]);
    }
  }

  lemma {:induction false} MembersCoded(c: Config, b: Bytes, pos: nat, depth: nat, used: nat, done: seq<Member>)
    requires pos <= |b|
    ensures Coded(c, b, MembersAt(c, b, pos, depth, used, done))
    decreases |b| - pos, 2
  {
    hide ValueAt, Delimiter, StringAt, HasKey, Skip, StepAt, Valid;
    var key := StringAt(c, b, pos, used);
    LiteralCoded(c, b, pos, used);
    if key.Read? {
      var colon := Skip(b, key.end + 1);
      if colon < |b| && b[colon] == COLON {
        var r := ValueAt(c, b, colon + 1, depth + 1, used + 1);
        ValueCoded(c, b, colon + 1, depth + 1, used + 1);
        if r.Parsed? && Delimiter(b, r.pos, CLOSE_BRACE).Again? {
          MembersCoded(c, b, Delimiter(b, r.pos, CLOSE_BRACE).pos, depth, r.used, done + [Member(key.text, r.tree)]);
        }
      }
    }
  }

  /**
    What a refusal's code says, without the reader's steps: LIMIT exactly when wider limits change the outcome;
    DUPLICATE_KEY only where the tolerant reader gets past; UTF8 only in text that is not well-formed UTF-8, at a
    byte where no sequence starts; SYNTAX otherwise.
   */
  lemma CodesMean(c: Config, b: Bytes)
    requires ReadText(c, b).Stopped?
    ensures var r := ReadText(c, b);
            && (r.code.Limit? <==> r != ReadText(Unbounded(c, b), b))
            && (r.code.DuplicateKey? ==>
                  !c.profile.LastWins? && EndOf(ReadText(c.(profile := LastWins), b)) > r.at)
            && (r.code.Utf8? ==> r.at < |b| && StepAt(b, r.at) == 0 && !Valid(b))
            && (!r.code.Limit? && !r.code.DuplicateKey? && !r.code.Utf8? ==> r.code.Syntax?)
  {
    hide ValueAt, Skip, StepAt, Valid;
    LimitIsExact(c, b);
    ValueCoded(c, b, 0, 0, 0);
    if !c.profile.LastWins? {
      DuplicateIsOvertaken(c, b);
    }
  }
}
