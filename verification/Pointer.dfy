/** The JSON Pointer of an error: scan, emit with RFC 6901 escaping, and what the result names. */
module Pointer {
  import opened Basics
  import opened StringLiteral
  import opened StringDecoder
  import opened Numeral
  import opened Trees
  import opened Reader
  import opened Acceptance
  import opened Grammar
  import opened PointerScan
  import opened Parser
  import opened Alphabet

  const SLASH: Byte := 0x2F
  const TILDE: Byte := 0x7E

  // ----- reference tokens (sections 3 and 4 of RFC 6901)

  function EscapeByte(b: Byte): (s: Bytes)
    ensures 1 <= |s| <= 2 && forall k :: 0 <= k < |s| ==> s[k] != SLASH
  {
    if b == TILDE then [TILDE, 0x30] else if b == SLASH then [TILDE, 0x31] else [b]
  }

  function EscapeToken(t: Bytes): Bytes {
    if t == [] then [] else EscapeByte(t[0]) + EscapeToken(t[1..])
  }

  /** The reference token an escaped one stands for. */
  function Unescape(s: Bytes): Bytes {
    if s == [] then []
    else if s[0] == TILDE && |s| > 1 && s[1] == 0x31 then [SLASH] + Unescape(s[2..])
    else if s[0] == TILDE && |s| > 1 && s[1] == 0x30 then [TILDE] + Unescape(s[2..])
    else [s[0]] + Unescape(s[1..])
  }

  function NextSlash(p: Bytes, i: nat): (e: nat)
    requires i <= |p|
    ensures i <= e <= |p|
    decreases |p| - i
  {
    if i < |p| && p[i] != SLASH then NextSlash(p, i + 1) else i
  }

  /** The reference tokens of a pointer. */
  function References(p: Bytes): seq<Bytes> {
    if p == [] then []
    else
      var e := NextSlash(p, 1);
      [Unescape(p[1..e])] + References(p[e..])
  }

  lemma {:induction false} UnescapeInverts(t: Bytes)
    ensures Unescape(EscapeToken(t)) == t
    ensures forall k :: 0 <= k < |EscapeToken(t)| ==> EscapeToken(t)[k] != SLASH
  {
    if t != [] {
      UnescapeInverts(t[1..]);
      var head, rest := EscapeByte(t[0]), EscapeToken(t[1..]);
      assert (head + rest)[|head|..] == rest;
    }
  }

  lemma {:induction false} DigitsUnescaped(d: Bytes)
    requires Digits(d)
    ensures Unescape(d) == d && forall k :: 0 <= k < |d| ==> d[k] != SLASH
  {
    if d != [] {
      DigitsUnescaped(d[1..]);
    }
  }

  lemma {:induction false} SlashAfter(p: Bytes, i: nat, e: nat)
    requires i <= e <= |p| && (forall k :: i <= k < e ==> p[k] != SLASH) && (e < |p| ==> p[e] == SLASH)
    ensures NextSlash(p, i) == e
    decreases e - i
  {
    if i < e {
      SlashAfter(p, i + 1, e);
    }
  }

  lemma FirstReference(token: Bytes, rest: Bytes)
    requires (forall k :: 0 <= k < |token| ==> token[k] != SLASH) && (rest != [] ==> rest[0] == SLASH)
    ensures References([SLASH] + (token + rest)) == [Unescape(token)] + References(rest)
  {
    hide Unescape;
    var p := [SLASH] + (token + rest);
    SlashAfter(p, 1, 1 + |token|);
    assert p[1..1 + |token|] == token && p[1 + |token|..] == rest;
  }

  /** The examples of section 5: a slash is written `~1`, a tilde `~0`. */
  lemma EscapedNames()
    ensures EscapeToken(Ascii("a/b")) == Ascii("a~1b") && EscapeToken(Ascii("m~n")) == Ascii("m~0n")
    ensures References(Ascii("/a~1b/0")) == [Ascii("a/b"), Ascii("0")]
  {
    SplitExample();
    TildeExample();
    SlashExample();
  }

  lemma SlashExample()
    ensures EscapeToken(Ascii("a/b")) == Ascii("a~1b") && Unescape(Ascii("a~1b")) == Ascii("a/b")
  {
    var t: Bytes := [0x61, SLASH, 0x62];
    var e: Bytes := [0x61, TILDE, 0x31, 0x62];
    assert Ascii("a/b") == t && Ascii("a~1b") == e;
    assert t[1..] == [SLASH, 0x62] && t[1..][1..] == [0x62];
    assert e[1..][2..] == [0x62];
  }

  lemma TildeExample()
    ensures EscapeToken(Ascii("m~n")) == Ascii("m~0n") && Unescape(Ascii("0")) == Ascii("0")
  {
    var t: Bytes := [0x6D, TILDE, 0x6E];
    assert Ascii("m~n") == t && Ascii("m~0n") == [0x6D, TILDE, 0x30, 0x6E];
    assert t[1..] == [TILDE, 0x6E] && t[1..][1..] == [0x6E];
    assert Ascii("0") == [0x30];
  }

  lemma SplitExample()
    ensures References(Ascii("/a~1b/0")) == [Unescape(Ascii("a~1b")), Unescape(Ascii("0"))]
  {
    hide Unescape;
    assert Ascii("/a~1b/0") == [SLASH] + (Ascii("a~1b") + ([SLASH] + (Ascii("0") + [])));
    FirstReference(Ascii("0"), []);
    FirstReference(Ascii("a~1b"), [SLASH] + (Ascii("0") + []));
    NoReferences();
  }

  // ----- the text of a path

  /** The pointer of a path: keys and indices of the open containers, down to a member without its colon. */
  function PathText(path: seq<Step>): (p: Bytes)
    ensures p != [] ==> p[0] == SLASH
  {
    if path == [] then []
    else
      match path[0]
      case InObject => []
      case AtKey(key, _, _) => [SLASH] + (EscapeToken(key) + PathText(path[1..]))
      case AtIndex(n) => [SLASH] + (Render(n) + PathText(path[1..]))
  }

  function Names(path: seq<Step>): seq<Bytes> {
    if path == [] then []
    else
      match path[0]
      case InObject => []
      case AtKey(key, _, _) => [key] + Names(path[1..])
      case AtIndex(n) => [Render(n)] + Names(path[1..])
  }

  /** Read by the rules of RFC 6901, the text gives back every key and index of the path. */
  lemma {:induction false} PathIsNamed(path: seq<Step>)
    ensures References(PathText(path)) == Names(path)
  {
    hide References, Unescape, Render;
    if path != [] {
      PathIsNamed(path[1..]);
      match path[0] {
        case InObject => NoReferences();
        case AtKey(key, _, _) =>
          UnescapeInverts(key);
          FirstReference(EscapeToken(key), PathText(path[1..]));
        case AtIndex(n) =>
          DigitsUnescaped(Render(n));
          FirstReference(Render(n), PathText(path[1..]));
      }
    } else {
      NoReferences();
    }
  }

  lemma NoReferences()
    ensures References([]) == []
  {
  }

  // ----- the text the emitter produces from frames

  function RawKey(b: Bytes, f: Frame): Bytes {
    if f.keyStart <= f.keyEnd <= |b| then b[f.keyStart..f.keyEnd] else []
  }

  /** A key is decoded where it can be, and shown as it stands where it cannot. */
  function ShownKey(b: Bytes, f: Frame): Bytes {
    match Decode(Rfc8259, RawKey(b, f))
    case Good(text) => text
    case Bad(_, _) => RawKey(b, f)
  }

  function FramesText(b: Bytes, frames: seq<Frame>): Bytes {
    if frames == [] then []
    else if !frames[0].isObject then [SLASH] + (Render(frames[0].index) + FramesText(b, frames[1..]))
    else if !frames[0].hasKey || !frames[0].inValue then []
    else [SLASH] + (EscapeToken(ShownKey(b, frames[0])) + FramesText(b, frames[1..]))
  }

  /** A key step of the path carries the decoded text of the bytes it points at. */
  predicate StepSpelled(b: Bytes, step: Step) {
    step.AtKey? ==>
      step.start <= step.end <= |b| && Decode(Rfc8259, b[step.start..step.end]) == Good(step.key)
  }

  predicate PathSpelled(b: Bytes, path: seq<Step>) {
    forall i :: 0 <= i < |path| ==> StepSpelled(b, path[i])
  }

  lemma KeySpelled(c: Config, b: Bytes, pos: nat, used: nat)
    ensures var r := StringAt(c, b, pos, used);
            r.Read? ==> StepSpelled(b, AtKey(r.text, pos + 1, r.end))
  {
    hide ScanBody, DecodeFrom, SpellAll, Meaning, CharsOk, Decode;
    var r := StringAt(c, b, pos, used);
    if r.Read? {
      var cs := LiteralSound(c.profile, b, pos + 1, r.end);
      CharsAnywhere(c.profile, cs);
      LiteralDecodes(cs);
    }
  }

  lemma CharsAnywhere(profile: Profile, cs: seq<Char>)
    requires CharsOk(profile, cs)
    ensures CharsOk(Rfc8259, cs)
  {
    forall k | 0 <= k < |cs| ensures CharOk(Rfc8259, cs[k]) {
      assert CharOk(profile, cs[k]);
    }
  }

  lemma LiteralDecodes(cs: seq<Char>)
    requires CharsOk(Rfc8259, cs)
    ensures Decode(Rfc8259, SpellAll(cs)) == Good(Meaning(cs))
  {
    hide ScanBody, SpellAll, Meaning, CharsOk, DecodeFrom;
    var b := SpellAll(cs) + [QUOTE];
    assert b[0..0 + |b|] == b;
    LiteralComplete(Rfc8259, b, 0, cs);
  }

  lemma {:induction false} ValuePathSpelled(c: Config, b: Bytes, pos: nat, depth: nat, used: nat)
    requires pos <= |b|
    ensures var r := ValueAt(c, b, pos, depth, used); r.Stopped? ==> PathSpelled(b, r.path)
    decreases |b| - pos, 1
  {
    hide StringAt, StepSpelled, MembersAt, ItemsAt, Primitive, RunEnd;
    var p := Skip(b, pos);
    if p < |b| && depth < c.depth && used < c.capacity {
      var q := Skip(b, p + 1);
      if b[p] == OPEN_BRACE {
        MembersPathSpelled(c, b, q, depth, used + 1, []);
      } else if b[p] == OPEN_BRACKET {
        ItemsPathSpelled(c, b, q, depth, used + 1, []);
      }
    }
  }

  lemma {:induction false} ItemsPathSpelled(c: Config, b: Bytes, pos: nat, depth: nat, used: nat, done: seq<Json>)
    requires pos <= |b|
    ensures var r := ItemsAt(c, b, pos, depth, used, done); r.Stopped? ==> PathSpelled(b, r.path)
    decreases |b| - pos, 2
  {
    hide ValueAt, Delimiter, Decode;
    var r := ValueAt(c, b, pos, depth + 1, used);
    ValuePathSpelled(c, b, pos, depth + 1, used);
    if r.Parsed? && Delimiter(b, r.pos, CLOSE_BRACKET).Again? {
      ItemsPathSpelled(c, b, Delimiter(b, r.pos, CLOSE_BRACKET).pos, depth, r.used, done + [r.tree]);
    }
  }

  lemma {:induction false} MembersPathSpelled(c: Config, b: Bytes, pos: nat, depth: nat, used: nat, done: seq<Member>)
    requires pos <= |b|
    ensures var r := MembersAt(c, b, pos, depth, used, done); r.Stopped? ==> PathSpelled(b, r.path)
    decreases |b| - pos, 2
  {
    hide ValueAt, Delimiter, Decode, StringAt, Skip, HasKey;
    var key := StringAt(c, b, pos, used);
    if key.Read? {
      var colon := Skip(b, key.end + 1);
      KeySpelled(c, b, pos, used);
      if colon < |b| && b[colon] == COLON {
        var r := ValueAt(c, b, colon + 1, depth + 1, used + 1);
        ValuePathSpelled(c, b, colon + 1, depth + 1, used + 1);
        if r.Parsed? && Delimiter(b, r.pos, CLOSE_BRACE).Again? {
          MembersPathSpelled(c, b, Delimiter(b, r.pos, CLOSE_BRACE).pos, depth, r.used,
                             done + [Member(key.text, r.tree)]);
        }
      }
    }
  }

  lemma {:induction false} FramesTellPath(b: Bytes, frames: seq<Frame>, path: seq<Step>)
    requires |frames| == |path| && PathSpelled(b, path) && forall i :: 0 <= i < |path| ==> FrameIs(frames[i], path[i])
    ensures FramesText(b, frames) == PathText(path)
  {
    hide Decode, EscapeToken, Render;
    if path != [] {
      assert StepSpelled(b, path[0]) && FrameIs(frames[0], path[0]);
      forall i | 0 <= i < |path[1..]| ensures StepSpelled(b, path[1..][i]) && FrameIs(frames[1..][i], path[1..][i]) {
        assert path[1..][i] == path[i + 1] && frames[1..][i] == frames[i + 1];
      }
      FramesTellPath(b, frames[1..], path[1..]);
    }
  }

  /** For every text the reader refuses, the emitted pointer is the text of the reader's path. */
  lemma PointerNamesError(c: Config, b: Bytes)
    requires c.depth <= 256 && ReadText(c, b).Stopped?
    ensures var r := ReadText(c, b);
            && FramesText(b, ScanFrom(b, r.at, 0, [])) == PathText(r.path)
            && References(FramesText(b, ScanFrom(b, r.at, 0, []))) == Names(r.path)
  {
    hide ScanFrom, ValueAt, FramesText, PathText, References, Names, Skip;
    ScanRediscovers(c, b);
    ValuePathSpelled(c, b, 0, 0, 0);
    var r := ReadText(c, b);
    FramesTellPath(b, ScanFrom(b, r.at, 0, []), r.path);
    PathIsNamed(r.path);
  }
}
