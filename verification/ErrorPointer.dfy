/** The error pointer as it is computed: a frame stack scanned in place and a bounded output buffer. */
module ErrorPointer {
  import opened Basics
  import opened StringLiteral
  import opened StringDecoder
  import opened Numeral
  import opened Reader
  import opened PointerScan
  import opened Pointer
  import opened Parser
  import opened Memory

  // ----- the scan

  method SkipString(bytes: Bytes, pos: nat) returns (end: nat)
    requires pos < |bytes|
    ensures end == LiteralEnd(bytes, pos)
  {
    var at := pos + 1;
    while at < |bytes| && bytes[at] != QUOTE
      invariant QuoteFrom(bytes, at) == QuoteFrom(bytes, pos + 1)
      decreases |bytes| - at
    {
      at := at + if bytes[at] == BACKSLASH then 2 else 1;
    }
    end := if at < |bytes| then at + 1 else |bytes|;
  }

  method SkipWord(bytes: Bytes, pos: nat) returns (end: nat)
    requires pos <= |bytes|
    ensures end == WordEnd(bytes, pos)
  {
    end := pos;
    while end < |bytes| && !IsBreak(bytes[end])
      invariant pos <= end <= |bytes| && WordEnd(bytes, end) == WordEnd(bytes, pos)
    {
      end := end + 1;
    }
  }

  lemma TopIs(frames: seq<Frame>, depth: nat)
    requires 0 < depth <= |frames|
    ensures TopOf(frames[..depth]) == Some(frames[depth - 1])
    ensures forall g :: WithTop(frames[..depth], g) == frames[depth - 1 := g][..depth]
    ensures frames[..depth][..depth - 1] == frames[..depth - 1]
  {
  }

  /** One turn of the scan on the stack of frames. */
  method ScanTurn(bytes: Bytes, pos: nat, frames: array<Frame>, depth: nat) returns (next: nat, deeper: nat)
    requires pos < |bytes| && depth <= frames.Length == MAXIMUM_DEPTH
    modifies frames
    ensures deeper <= frames.Length
    ensures Spot(next, frames[..deeper]) == Advance(bytes, pos, old(frames[..depth]))
  {
    hide LiteralEnd, WordEnd, KeyEnd;
    var byte := bytes[pos];
    deeper := depth;
    next := pos + 1;
    ghost var was := frames[..];
    assert was[..depth] == frames[..depth];
    if depth > 0 {
      TopIs(was, depth);
    }
    if IsSpace(byte) {
    } else if byte == OPEN_BRACE || byte == OPEN_BRACKET {
      if depth < MAXIMUM_DEPTH {
        frames[depth] := Frame(byte == OPEN_BRACE, 0, 0, 0, false, false);
        deeper := depth + 1;
      }
    } else if byte == CLOSE_BRACE || byte == CLOSE_BRACKET {
      if depth > 0 {
        deeper := depth - 1;
      }
    } else if byte == COMMA {
      if depth > 0 && frames[depth - 1].isObject {
        frames[depth - 1] := frames[depth - 1].(hasKey := false, inValue := false);
      } else if depth > 0 {
        frames[depth - 1] := frames[depth - 1].(index := frames[depth - 1].index + 1);
      }
      assert depth > 0 ==> frames[..depth] == was[depth - 1 := frames[depth - 1]][..depth];
    } else if byte == COLON {
      if depth > 0 && frames[depth - 1].isObject && frames[depth - 1].hasKey {
        frames[depth - 1] := frames[depth - 1].(inValue := true);
      }
      assert depth > 0 ==> frames[..depth] == was[depth - 1 := frames[depth - 1]][..depth];
    } else if byte == QUOTE {
      var end := SkipString(bytes, pos);
      LiteralEndInside(bytes, pos);
      if depth > 0 && frames[depth - 1].isObject && !frames[depth - 1].inValue {
        frames[depth - 1] := frames[depth - 1].(keyStart := pos + 1, keyEnd := KeyEnd(bytes, pos, end), hasKey := true);
      }
      assert depth > 0 ==> frames[..depth] == was[depth - 1 := frames[depth - 1]][..depth];
      next := end;
    } else {
      next := SkipWord(bytes, pos);
    }
  }

  lemma LiteralEndInside(b: Bytes, pos: nat)
    ensures LiteralEnd(b, pos) <= |b|
  {
  }

  method Scan(bytes: Bytes, limit: nat, frames: array<Frame>) returns (depth: nat)
    requires limit <= |bytes| && frames.Length == MAXIMUM_DEPTH
    modifies frames
    ensures depth <= frames.Length && frames[..depth] == ScanFrom(bytes, limit, 0, [])
  {
    hide Advance;
    depth := 0;
    var pos := 0;
    assert frames[..depth] == [];
    while pos < limit
      invariant depth <= frames.Length
      invariant ScanFrom(bytes, limit, pos, frames[..depth]) == ScanFrom(bytes, limit, 0, [])
      decreases limit - pos
    {
      ghost var was := frames[..depth];
      pos, depth := ScanTurn(bytes, pos, frames, depth);
    }
  }

  // ----- the output

  /** The buffer is cut where it ends; the length goes on counting. */
  class Emitter {
    const buffer: array<Byte>
    var length: nat
    /** Everything emitted so far, what did not fit included. */
    ghost var text: Bytes

    ghost predicate Valid()
      reads this, buffer
    {
      length == |text| && forall i :: 0 <= i < length && i + 1 < buffer.Length ==> buffer[i] == text[i]
    }

    constructor (buffer: array<Byte>)
      ensures Valid() && text == [] && this.buffer == buffer
    {
      this.buffer, length, text := buffer, 0, [];
    }

    method EmitByte(byte: Byte)
      requires Valid()
      modifies this, buffer
      ensures Valid() && text == old(text) + [byte]
    {
      if length + 1 < buffer.Length {
        buffer[length] := byte;
      }
      length := length + 1;
      text := text + [byte];
    }

    method EmitEscaped(byte: Byte)
      requires Valid()
      modifies this, buffer
      ensures Valid() && text == old(text) + EscapeByte(byte)
    {
      if byte == TILDE {
        EmitByte(TILDE);
        EmitByte(0x30);
      } else if byte == SLASH {
        EmitByte(TILDE);
        EmitByte(0x31);
      } else {
        EmitByte(byte);
      }
    }

    method EmitToken(token: Bytes)
      requires Valid()
      modifies this, buffer
      ensures Valid() && text == old(text) + [SLASH] + EscapeToken(token)
    {
      hide EscapeByte;
      EmitByte(SLASH);
      ghost var rest := EscapeToken(token);
      var i := 0;
      assert token[0..] == token;
      while i < |token|
        invariant Valid() && i <= |token| && rest == EscapeToken(token[i..])
        invariant text + rest == old(text) + [SLASH] + EscapeToken(token)
      {
        assert token[i..][1..] == token[i + 1..];
        EmitEscaped(token[i]);
        rest := EscapeToken(token[i + 1..]);
        i := i + 1;
      }
    }

    method DigitsOf(index: nat) returns (digits: Bytes)
      ensures Backwards(digits) == Render(index)
    {
      hide Render, Higher, Backwards;
      digits := [ZERO + index % 10];
      var rest: nat := index / 10;
      FirstDigit(index);
      while rest != 0
        invariant Render(index) == Higher(rest) + Backwards(digits)
      {
        NextDigit(rest, digits);
        digits := digits + [ZERO + rest % 10];
        rest := rest / 10;
      }
      NoDigits();
    }

    /** Digits are produced from the last to the first. */
    method EmitIndex(index: nat)
      requires Valid()
      modifies this, buffer
      ensures Valid() && text == old(text) + [SLASH] + Render(index)
    {
      hide Render;
      var digits := DigitsOf(index);
      EmitByte(SLASH);
      var count := |digits|;
      assert digits[..count] == digits;
      while count > 0
        invariant Valid() && count <= |digits|
        invariant text + Backwards(digits[..count]) == old(text) + [SLASH] + Render(index)
      {
        assert digits[..count][..count - 1] == digits[..count - 1];
        EmitByte(digits[count - 1]);
        count := count - 1;
      }
    }

    /** The terminator, wherever the buffer has room for it. */
    method EmitFinish()
      requires Valid()
      modifies buffer
      ensures text == old(text) && length == old(length)
      ensures Cut(buffer[..], text)
    {
      if buffer.Length > 0 {
        var end := if length < buffer.Length then length else buffer.Length - 1;
        buffer[end] := 0;
      }
    }
  }

  /** The digits of what is left of an index, none for zero. */
  function Higher(rest: nat): Bytes {
    if rest == 0 then [] else Render(rest)
  }

  lemma FirstDigit(index: nat)
    ensures Render(index) == Higher(index / 10) + Backwards([ZERO + index % 10])
  {
    assert Backwards([ZERO + index % 10]) == [ZERO + index % 10] + Backwards([]);
  }

  lemma NextDigit(rest: nat, digits: Bytes)
    requires rest != 0
    ensures Higher(rest) + Backwards(digits) == Higher(rest / 10) + Backwards(digits + [ZERO + rest % 10])
  {
    assert (digits + [ZERO + rest % 10])[..|digits|] == digits;
    assert Higher(rest) == Higher(rest / 10) + [ZERO + rest % 10];
    hide Higher, Render;
  }

  lemma NoDigits()
    ensures Higher(0) == []
  {
  }

  function Backwards(s: Bytes): Bytes {
    if s == [] then [] else [s[|s| - 1]] + Backwards(s[..|s| - 1])
  }

  /** The buffer holds as much of the text as fits before its terminator. */
  predicate Cut(buffer: Bytes, text: Bytes) {
    |buffer| > 0 ==>
      var n := if |text| < |buffer| then |text| else |buffer| - 1;
      buffer[n] == 0 && buffer[..n] == text[..n]
  }

  /** Decodes the key, or shows its bytes; a refused request also shows them. */
  method EmitKey(emitter: Emitter, bytes: Bytes, frame: Frame, memory: Allocator)
    requires emitter.Valid() && frame.keyStart <= frame.keyEnd <= |bytes|
    modifies emitter, emitter.buffer, memory
    ensures emitter.Valid() && memory.refusals >= old(memory.refusals)
    ensures var refused := memory.refusals > old(memory.refusals);
            emitter.text ==
            old(emitter.text) + [SLASH] + EscapeToken(if refused then RawKey(bytes, frame) else ShownKey(bytes, frame))
  {
    hide Decode, EscapeToken;
    var raw := bytes[frame.keyStart..frame.keyEnd];
    var granted := memory.Ask();
    if granted {
      var out := new Byte[|raw| + 1](_ => 0);
      var code, size, bad := DecodeString(raw, Rfc8259, out);
      if code.Ok? {
        emitter.EmitToken(out[..size]);
        return;
      }
    }
    emitter.EmitToken(raw);
  }

  /** Every remembered key lies inside the input. */
  predicate KeysInside(b: Bytes, frames: seq<Frame>) {
    forall i :: 0 <= i < |frames| ==> frames[i].keyStart <= frames[i].keyEnd <= |b|
  }

  lemma AdvanceInside(b: Bytes, pos: nat, frames: seq<Frame>)
    requires pos < |b| && KeysInside(b, frames)
    ensures KeysInside(b, Advance(b, pos, frames).frames)
  {
    LiteralEndAfter(b, pos);
    hide LiteralEnd, WordEnd;
  }

  lemma LiteralEndAfter(b: Bytes, pos: nat)
    requires pos < |b|
    ensures pos < LiteralEnd(b, pos) <= |b|
  {
  }

  lemma {:induction false} ScanInside(b: Bytes, limit: nat, pos: nat, frames: seq<Frame>)
    requires limit <= |b| && KeysInside(b, frames)
    ensures KeysInside(b, ScanFrom(b, limit, pos, frames))
    decreases limit - pos
  {
    hide Advance;
    if pos < limit {
      AdvanceInside(b, pos, frames);
      ScanInside(b, limit, Advance(b, pos, frames).pos, Advance(b, pos, frames).frames);
    }
  }

  /** The pointer of every frame up to the first object without its colon. */
  method EmitFrames(emitter: Emitter, bytes: Bytes, frames: seq<Frame>, memory: Allocator)
    requires emitter.Valid() && KeysInside(bytes, frames)
    modifies emitter, emitter.buffer, memory
    ensures emitter.Valid() && memory.refusals >= old(memory.refusals)
    ensures memory.refusals == old(memory.refusals) ==>
              emitter.text == old(emitter.text) + FramesText(bytes, frames)
  {
    hide EscapeToken, Render, ShownKey;
    var i := 0;
    assert frames[0..] == frames;
    while i < |frames|
      invariant emitter.Valid() && i <= |frames| && memory.refusals >= old(memory.refusals)
      invariant memory.refusals == old(memory.refusals) ==>
                  emitter.text + FramesText(bytes, frames[i..]) == old(emitter.text) + FramesText(bytes, frames)
    {
      var frame := frames[i];
      assert frames[i..][1..] == frames[i + 1..];
      if frame.isObject {
        if !frame.hasKey || !frame.inValue {
          return;
        }
        EmitKey(emitter, bytes, frame, memory);
      } else {
        emitter.EmitIndex(frame.index);
      }
      i := i + 1;
    }
  }

  /** The pointer of an error of the reader, cut to the buffer; the length is that of the whole pointer. */
  method ComputeErrorPointer(bytes: Bytes, error: Option<Fault>, buffer: array<Byte>, memory: Allocator)
    returns (length: nat)
    modifies buffer, memory
    ensures memory.refusals >= old(memory.refusals)
    ensures error.None? || bytes == [] ==> length == 0 && Cut(buffer[..], [])
    ensures error.Some? && bytes != [] && memory.refusals == old(memory.refusals) ==>
              var limit := if error.value.offset < |bytes| then error.value.offset else |bytes|;
              var text := FramesText(bytes, ScanFrom(bytes, limit, 0, []));
              length == |text| && Cut(buffer[..], text)
  {
    hide FramesText, ScanFrom, Cut, KeysInside;
    NoFrames(bytes);
    var emitter := new Emitter(buffer);
    if error.None? || bytes == [] {
      emitter.EmitFinish();
      return 0;
    }
    var limit := if error.value.offset < |bytes| then error.value.offset else |bytes|;
    var granted := memory.Ask();
    if !granted {
      emitter.EmitFinish();
      return 0;
    }
    var frames := new Frame[MAXIMUM_DEPTH](_ => OBJECT_FRAME);
    var depth := Scan(bytes, limit, frames);
    ScanInside(bytes, limit, 0, []);
    EmitFrames(emitter, bytes, frames[..depth], memory);
    assert [] + FramesText(bytes, frames[..depth]) == FramesText(bytes, frames[..depth]);
    emitter.EmitFinish();
    length := emitter.length;
  }

  lemma NoFrames(b: Bytes)
    ensures KeysInside(b, [])
  {
  }

  /** For an error the parser reported, the buffer holds the RFC 6901 pointer of the value under construction. */
  method PointerOfParseError(bytes: Bytes, ghost c: Config, error: Fault, buffer: array<Byte>,
                             memory: Allocator)
    returns (length: nat)
    requires c.depth <= 256 && ReadText(c, bytes).Stopped?
    requires error == Fault(ReadText(c, bytes).code, ReadText(c, bytes).at)
    modifies buffer, memory
    ensures memory.refusals == old(memory.refusals) ==>
              var text := PathText(ReadText(c, bytes).path);
              length == |text| && Cut(buffer[..], text) && References(text) == Names(ReadText(c, bytes).path)
  {
    hide ScanFrom, ReadText, FramesText, PathText, References, Names;
    PointerNamesError(c, bytes);
    EmptyText(c, bytes);
    length := ComputeErrorPointer(bytes, Some(error), buffer, memory);
  }

  lemma EmptyText(c: Config, b: Bytes)
    requires ReadText(c, b).Stopped?
    ensures ReadText(c, b).at <= |b|
    ensures b == [] ==> PathText(ReadText(c, b).path) == []
  {
  }
}
