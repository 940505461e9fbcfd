/** The reader on texts that begin alike: what it has read stays read, and what it refused stays refused. */
module Prefixes {
  import opened Basics
  import opened StringLiteral
  import opened Trees
  import opened Reader
  import opened Acceptance
  import opened ParserLemmas
  import opened ReaderLaws
  import opened PointerScan

  /** The first `n` bytes are the same. */
  predicate Agree(a: Bytes, b: Bytes, n: nat) {
    n <= |a| && n <= |b| && a[..n] == b[..n]
  }

  lemma AgreeAt(a: Bytes, b: Bytes, n: nat)
    requires Agree(a, b, n)
    ensures forall k :: 0 <= k < n ==> a[k] == b[k]
  {
    forall k | 0 <= k < n ensures a[k] == b[k] {
      assert a[k] == a[..n][k];
    }
  }

  lemma AgreeLess(a: Bytes, b: Bytes, n: nat, m: nat)
    requires Agree(a, b, n) && m <= n
    ensures Agree(a, b, m)
  {
    assert a[..m] == a[..n][..m] && b[..m] == b[..n][..m];
  }

  lemma AgreeSlice(a: Bytes, b: Bytes, n: nat, i: nat, k: nat)
    requires Agree(a, b, n) && i <= k <= n
    ensures a[i..k] == b[i..k]
  {
    assert a[i..k] == a[..n][i..k] && b[i..k] == b[..n][i..k];
  }

  // ----- the pieces

  lemma {:induction false} SkipTo(b: Bytes, pos: nat, p: nat)
    requires pos <= p <= |b| && (forall k :: pos <= k < p ==> IsSpace(b[k])) && (p < |b| ==> !IsSpace(b[p]))
    ensures Skip(b, pos) == p
    decreases p - pos
  {
    if pos < p {
      SkipTo(b, pos + 1, p);
    }
  }

  /** Whitespace ends where it ended, if what ends it is still there or something else does. */
  lemma SkipAgain(a: Bytes, b: Bytes, pos: nat, n: nat)
    requires Agree(a, b, n) && pos <= Skip(a, pos) <= n
    requires Skip(a, pos) < n || Skip(a, pos) == |b| || !IsSpace(b[Skip(a, pos)])
    ensures Skip(b, pos) == Skip(a, pos)
  {
    AgreeAt(a, b, n);
    SkipTo(b, pos, Skip(a, pos));
  }

  lemma {:induction false} RunTo(b: Bytes, pos: nat, p: nat)
    requires pos <= p <= |b| && (forall k :: pos <= k < p ==> !IsDelimiter(b[k])) && Terminated(b, p)
    ensures RunEnd(b, pos) == p
    decreases p - pos
  {
    if pos < p {
      RunTo(b, pos + 1, p);
    }
  }

  lemma RunAgain(a: Bytes, b: Bytes, pos: nat, n: nat)
    requires Agree(a, b, n) && pos <= RunEnd(a, pos) <= n && Terminated(b, RunEnd(a, pos))
    ensures RunEnd(b, pos) == RunEnd(a, pos)
  {
    AgreeAt(a, b, n);
    RunTo(b, pos, RunEnd(a, pos));
  }

  lemma {:induction false} ScanAgain(profile: Profile, a: Bytes, b: Bytes, pos: nat, n: nat)
    requires Agree(a, b, n)
    ensures var r := ScanBody(profile, a, pos);
            && (r.Closed? && r.end < n ==> ScanBody(profile, b, pos) == r)
            && (r.BadByte? && r.at < n ==> ScanBody(profile, b, pos) == r)
    decreases |a| - pos
  {
    AgreeAt(a, b, n);
    var r := ScanBody(profile, a, pos);
    if pos < |a| && a[pos] != QUOTE && r != BadByte(pos) {
      ScanAgain(profile, a, b, if a[pos] == BACKSLASH then pos + 2 else pos + 1, n);
    }
  }

  /** Where the token that starts at `start` ends: past the mark of a literal, or past the delimiter of a run. */
  function TokenEnd(b: Bytes, start: nat): nat {
    if start < |b| && b[start] == QUOTE then QuoteFrom(b, start + 1) + 1 else RunEnd(b, start) + 1
  }

  lemma LiteralAgain(c: Config, a: Bytes, b: Bytes, pos: nat, used: nat, n: nat)
    requires Agree(a, b, n)
    ensures var r := StringAt(c, a, pos, used);
            && (r.Read? && r.end < n ==> StringAt(c, b, pos, used) == r)
            && (r.Refused? && pos < |a| && TokenEnd(a, pos) <= n ==> StringAt(c, b, pos, used) == r)
  {
    hide DecodeFrom, ScanBody, QuoteFrom;
    if pos < |a| && a[pos] == QUOTE {
      ScanAgain(c.profile, a, b, pos + 1, n);
      LiteralScans(c.profile, a, pos + 1);
      QuoteNotBefore(c.profile, a, pos + 1);
      QuoteUnterminated(c.profile, a, pos + 1);
      if pos < n {
        AgreeAt(a, b, n);
      }
      var r := ScanBody(c.profile, a, pos + 1);
      if r.Closed? && r.end < n {
        AgreeSlice(a, b, n, pos + 1, r.end);
      }
    } else if pos < n {
      AgreeAt(a, b, n);
    }
  }

  lemma {:induction false} QuoteUnterminated(profile: Profile, b: Bytes, pos: nat)
    ensures ScanBody(profile, b, pos).Unterminated? ==> QuoteFrom(b, pos) >= |b|
    decreases |b| - pos
  {
    if pos < |b| && b[pos] != QUOTE && !ScanBody(profile, b, pos).BadByte? {
      QuoteUnterminated(profile, b, if b[pos] == BACKSLASH then pos + 2 else pos + 1);
    }
  }

  // ----- what was read stays read

  /** `b` goes on after `p` so that what ended there ends there again. */
  predicate EndsAgain(a: Bytes, b: Bytes, p: nat) {
    Agree(a, b, p) && (Terminated(b, p) || Agree(a, b, p + 1))
  }

  lemma PrimitiveAgain(c: Config, a: Bytes, b: Bytes, pos: nat, used: nat)
    requires pos < |a| && PrimitiveAt(c, a, pos, used).Parsed? && EndsAgain(a, b, PrimitiveAt(c, a, pos, used).pos)
    ensures pos < |b| && PrimitiveAt(c, b, pos, used) == PrimitiveAt(c, a, pos, used)
  {
    hide Primitive;
    var end := RunEnd(a, pos);
    RunIsSomething(a, pos);
    if end < |a| && end < |b| && Agree(a, b, end + 1) {
      AgreeAt(a, b, end + 1);
    }
    RunAgain(a, b, pos, end);
    AgreeSlice(a, b, end, pos, end);
  }

  lemma RunIsSomething(b: Bytes, pos: nat)
    requires pos < |b| && Primitive(b[pos..RunEnd(b, pos)]).Some?
    ensures pos < RunEnd(b, pos)
  {
    PlainLexeme(b[pos..RunEnd(b, pos)]);
  }

  /** The delimiter after an entry, whatever follows it. */
  lemma DelimiterAgain(a: Bytes, b: Bytes, pos: nat, closing: Byte, n: nat)
    requires pos <= |a| && pos <= n && Agree(a, b, n)
    ensures var d := Delimiter(a, pos, closing);
            && (d.Close? && d.pos <= n ==> Delimiter(b, pos, closing) == d)
            && (d.Again? && d.pos < n ==> Delimiter(b, pos, closing) == d)
            && (d.Broken? && d.at < n ==> Delimiter(b, pos, closing) == d)
  {
    hide Skip;
    var p := Skip(a, pos);
    if p < n {
      SkipAgain(a, b, pos, n);
      AgreeAt(a, b, n);
      if Skip(a, p + 1) < n {
        SkipAgain(a, b, p + 1, n);
      }
    }
  }

  /** A value read from `a` is read alike from every text that agrees up to its end and ends it there again. */
  lemma {:induction false} ValueAgain(c: Config, a: Bytes, b: Bytes, pos: nat, depth: nat, used: nat)
    requires pos <= |a| && ValueAt(c, a, pos, depth, used).Parsed?
    requires EndsAgain(a, b, ValueAt(c, a, pos, depth, used).pos)
    ensures pos <= |b| && ValueAt(c, b, pos, depth, used) == ValueAt(c, a, pos, depth, used)
    decreases |a| - pos, 1
  {
    hide ValueAt, MembersAt, ItemsAt, StringAt, PrimitiveAt, Skip, Terminated;
    var r := ValueAt(c, a, pos, depth, used);
    var p := Skip(a, pos);
    ValueSkips(c, a, pos, depth, used);
    StartIdle(a, pos);
    ScalarStart(c, a, p, depth, used);
    SkipAgain(a, b, pos, r.pos);
    AgreeAt(a, b, r.pos);
    ValueSkips(c, b, pos, depth, used);
    StartIdle(b, pos);
    ScalarStart(c, b, p, depth, used);
    if a[p] == OPEN_BRACE || a[p] == OPEN_BRACKET {
      ContainerAgain(c, a, b, p, depth, used);
    } else if a[p] == QUOTE {
      LiteralAgain(c, a, b, p, used, r.pos);
    } else {
      PrimitiveAgain(c, a, b, p, used);
    }
  }

  lemma {:induction false} ContainerAgain(c: Config, a: Bytes, b: Bytes, p: nat, depth: nat, used: nat)
    requires p < |a| && (a[p] == OPEN_BRACE || a[p] == OPEN_BRACKET) && ValueAt(c, a, p, depth, used).Parsed?
    requires Agree(a, b, ValueAt(c, a, p, depth, used).pos)
    ensures p < |b| && ValueAt(c, b, p, depth, used) == ValueAt(c, a, p, depth, used)
    decreases |a| - p, 0
  {
    hide ValueAt, MembersAt, ItemsAt, Skip, Terminated;
    var r := ValueAt(c, a, p, depth, used);
    ContainerStart(c, a, p, depth, used);
    AgreeAt(a, b, r.pos);
    ContainerStart(c, b, p, depth, used);
    var q := Skip(a, p + 1);
    SkipAgain(a, b, p + 1, r.pos);
    if a[q] == (if a[p] == OPEN_BRACE then CLOSE_BRACE else CLOSE_BRACKET) {
    } else if a[p] == OPEN_BRACE {
      MembersAgain(c, a, b, q, depth, used + 1, []);
    } else {
      ItemsAgain(c, a, b, q, depth, used + 1, []);
    }
  }

  lemma {:induction false} ItemsAgain(c: Config, a: Bytes, b: Bytes, pos: nat, depth: nat, used: nat, done: seq<Json>)
    requires pos <= |a| && ItemsAt(c, a, pos, depth, used, done).Parsed?
    requires Agree(a, b, ItemsAt(c, a, pos, depth, used, done).pos)
    ensures pos <= |b| && ItemsAt(c, b, pos, depth, used, done) == ItemsAt(c, a, pos, depth, used, done)
    decreases |a| - pos, 2
  {
    hide ValueAt, Delimiter, Terminated;
    var n := ItemsAt(c, a, pos, depth, used, done).pos;
    var r := ValueAt(c, a, pos, depth + 1, used);
    var next := Delimiter(a, r.pos, CLOSE_BRACKET);
    AgreeLess(a, b, n, r.pos);
    AgreeLess(a, b, n, r.pos + 1);
    ValueAgain(c, a, b, pos, depth + 1, used);
    DelimiterAgain(a, b, r.pos, CLOSE_BRACKET, n);
    if next.Again? {
      ItemsAgain(c, a, b, next.pos, depth, r.used, done + [r.tree]);
    }
  }

  lemma {:induction false} MembersAgain(c: Config, a: Bytes, b: Bytes, pos: nat, depth: nat, used: nat, done: seq<Member>)
    requires pos <= |a| && MembersAt(c, a, pos, depth, used, done).Parsed?
    requires Agree(a, b, MembersAt(c, a, pos, depth, used, done).pos)
    ensures pos <= |b| && MembersAt(c, b, pos, depth, used, done) == MembersAt(c, a, pos, depth, used, done)
    decreases |a| - pos, 2
  {
    hide MemberValueAt, StringAt, Skip, HasKey, Terminated;
    var n := MembersAt(c, a, pos, depth, used, done).pos;
    var key := StringAt(c, a, pos, used);
    var colon := Skip(a, key.end + 1);
    LiteralAgain(c, a, b, pos, used, n);
    SkipAgain(a, b, key.end + 1, n);
    AgreeAt(a, b, n);
    MemberAgain(c, a, b, colon + 1, depth, used + 1, done, AtKey(key.text, pos + 1, key.end));
  }

  lemma {:induction false} MemberAgain(c: Config, a: Bytes, b: Bytes, pos: nat, depth: nat, used: nat, done: seq<Member>,
                                       step: Step)
    requires pos <= |a| && step.AtKey? && MemberValueAt(c, a, pos, depth, used, done, step).Parsed?
    requires Agree(a, b, MemberValueAt(c, a, pos, depth, used, done, step).pos)
    ensures pos <= |b| && MemberValueAt(c, b, pos, depth, used, done, step) ==
                          MemberValueAt(c, a, pos, depth, used, done, step)
    decreases |a| - pos, 2
  {
    hide ValueAt, Delimiter, Terminated, MembersAt;
    var n := MemberValueAt(c, a, pos, depth, used, done, step).pos;
    var r := ValueAt(c, a, pos, depth + 1, used);
    var next := Delimiter(a, r.pos, CLOSE_BRACE);
    AgreeLess(a, b, n, r.pos);
    AgreeLess(a, b, n, r.pos + 1);
    ValueAgain(c, a, b, pos, depth + 1, used);
    DelimiterAgain(a, b, r.pos, CLOSE_BRACE, n);
    if next.Again? {
      MembersAgain(c, a, b, next.pos, depth, r.used, done + [Member(step.key, r.tree)]);
    }
  }
}
