/** The in-place string decoder: runs are validated and copied whole, escapes are encoded one by one. */
module StringDecoder {
  import opened Basics
  import opened Utf8
  import opened StringLiteral

  method ReadU16(bytes: Bytes, at: nat) returns (ok: bool, value: int)
    requires at + 4 <= |bytes|
    ensures ok == IsHex4(bytes[at..at + 4])
    ensures ok ==> value == Hex4(bytes[at..at + 4])
  {
    ghost var d := bytes[at..at + 4];
    value := 0;
    var i := 0;
    while i < 4
      invariant 0 <= i <= 4
      invariant forall k :: 0 <= k < i ==> HexValue(d[k]) >= 0
      invariant value == HexPrefix(d, i)
    {
      var digit := HexValue(bytes[at + i]);
      assert d[i] == bytes[at + i];
      if digit < 0 {
        return false, 0;
      }
      value := value * 16 + digit;
      i := i + 1;
    }
    assert HexPrefix(d, 4) == Hex4(d) by {
      assert HexPrefix(d, 2) == HexValue(d[0]) * 16 + HexValue(d[1]);
    }
    ok := true;
  }

  ghost function HexPrefix(d: Bytes, n: nat): int
    requires n <= |d|
  {
    if n == 0 then 0 else HexPrefix(d, n - 1) * 16 + HexValue(d[n - 1])
  }

  /** Reads the digits after `\u`, and the low surrogate when one is needed; 0 reports a syntax error. */
  method ReadEscapePoint(bytes: Bytes, input: nat) returns (point: int, next: nat)
    requires input <= |bytes|
    ensures point == EscapePoint(bytes, input)
    ensures point != 0 ==> next == input + EscapeSize(bytes, input)
  {
    hide IsHex4, Hex4;
    next := input;
    if next + 4 > |bytes| {
      return 0, next;
    }
    var ok, unit := ReadU16(bytes, next);
    if !ok {
      return 0, next;
    }
    next := next + 4;
    if 0xD800 <= unit <= 0xDBFF {
      if next + 6 > |bytes| || bytes[next] != BACKSLASH || bytes[next + 1] != LETTER_U {
        return 0, next;
      }
      var low;
      ok, low := ReadU16(bytes, next + 2);
      if !ok || low < 0xDC00 || low > 0xDFFF {
        return 0, next;
      }
      next := next + 6;
      return 0x10000 + (unit - 0xD800) * 1024 + (low - 0xDC00), next;
    }
    if 0xDC00 <= unit <= 0xDFFF {
      return 0, next;
    }
    point := unit;
  }

  /** A maximal run without backslashes ends where no continuation byte can follow. */
  ghost predicate Run(s: Bytes, start: nat, end: nat) {
    && start <= end <= |s|
    && (end < |s| ==> s[end] == BACKSLASH)
    && forall k :: start <= k < end ==> s[k] != BACKSLASH
  }

  lemma StepInRun(s: Bytes, start: nat, end: nat, i: nat)
    requires Run(s, start, end) && start <= i < end
    ensures StepAt(s[start..end], i - start) == StepAt(s, i)
  {
  }

  /** Validating a run at once gives the same answer as decoding it character by character. */
  lemma {:induction false} RunDecodes(profile: Profile, s: Bytes, start: nat, end: nat, i: nat)
    requires Run(s, start, end) && start <= i <= end && !profile.ContractAscii?
    ensures var v := PrefixFrom(s[start..end], i - start);
            DecodeFrom(profile, s, i) ==
            if v == end - start then Prepend(s[i..end], DecodeFrom(profile, s, end))
            else Bad(Code.Utf8, start + v)
    decreases end - i
  {
    hide StepAt, Encode, EscapePoint, ShortMeaning;
    if i == end {
      PrependTwice([], [], DecodeFrom(profile, s, end));
      assert s[end..end] == [];
    } else {
      StepInRun(s, start, end, i);
      var k := StepAt(s, i);
      if k > 0 {
        RunDecodes(profile, s, start, end, i + k);
        PrependTwice(s[i..i + k], s[i + k..end], DecodeFrom(profile, s, end));
        assert s[i..i + k] + s[i + k..end] == s[i..end];
      }
    }
  }

  /** Copies `part` into `out` at `at`, as memcpy does. */
  method CopyInto(out: array<Byte>, at: nat, part: Bytes)
    requires at + |part| <= out.Length
    modifies out
    ensures out[..at + |part|] == old(out[..at]) + part
  {
    forall k | 0 <= k < |part| {
      out[at + k] := part[k];
    }
  }

  /** Decodes a literal's body into `out`, which a terminating zero must also fit. */
  method DecodeString(bytes: Bytes, profile: Profile, out: array<Byte>)
    returns (code: Code, size: nat, bad: nat)
    requires |bytes| + 1 <= out.Length
    modifies out
    ensures code.Ok? <==> Decode(profile, bytes).Good?
    ensures code.Ok? ==>
              && size <= |bytes| && out[..size] == Decode(profile, bytes).text && out[size] == 0
    ensures !code.Ok? ==> Decode(profile, bytes) == Bad(code, bad)
  {
    hide DecodeFrom, StepAt, Encode, EscapePoint, ShortMeaning;
    var input, output := 0, 0;
    bad := 0;
    PrependTwice([], [], Decode(profile, bytes));
    while input < |bytes|
      invariant output <= input <= |bytes|
      invariant Decode(profile, bytes) == Prepend(out[..output], DecodeFrom(profile, bytes, input))
    {
      ghost var soFar := out[..output];
      ghost var here := input;
      ghost var part: Bytes;
      if profile.ContractAscii? {
        DecodeStepAscii(profile, bytes, input);
        if bytes[input] < 0x20 || bytes[input] > 0x7E || bytes[input] == BACKSLASH {
          return Code.Syntax, output, input;
        }
        part := [bytes[input]];
        CopyInto(out, output, [bytes[input]]);
        output := output + 1;
        input := input + 1;
      } else if bytes[input] != BACKSLASH {
        var start := input;
        while input < |bytes| && bytes[input] != BACKSLASH
          invariant start <= input <= |bytes|
          invariant forall k :: start <= k < input ==> bytes[k] != BACKSLASH
          invariant here < |bytes| && bytes[here] != BACKSLASH
        {
          input := input + 1;
        }
        RunDecodes(profile, bytes, start, input, start);
        var valid := ValidPrefix(bytes[start..input]);
        if valid != input - start {
          return Code.Utf8, output, start + valid;
        }
        part := bytes[start..input];
        CopyInto(out, output, bytes[start..input]);
        output := output + (input - start);
      } else {
        DecodeStepEscape(profile, bytes, input);
        if input + 1 >= |bytes| {
          return Code.Syntax, output, input;
        }
        var escape := bytes[input + 1];
        if escape == LETTER_U {
          var point, next := ReadEscapePoint(bytes, input + 2);
          if point == 0 {
            return Code.Syntax, output, input;
          }
          var encoded := Encode(point);
          part := encoded;
          CopyInto(out, output, encoded);
          output := output + |encoded|;
          input := next;
        } else if ShortMeaning(escape) == 0 {
          return Code.Syntax, output, input;
        } else {
          part := [ShortMeaning(escape)];
          CopyInto(out, output, [ShortMeaning(escape)]);
          output := output + 1;
          input := input + 2;
        }
      }
      PrependTwice(soFar, part, DecodeFrom(profile, bytes, input));
      assert out[..output] == soFar + part;
    }
    DecodeEnd(profile, bytes);
    out[output] := 0;
    assert out[..output] + [] == out[..output];
    return Ok, output, 0;
  }

  lemma DecodeEnd(profile: Profile, s: Bytes)
    ensures DecodeFrom(profile, s, |s|) == Good([])
  {
  }

  lemma DecodeStepAscii(profile: Profile, s: Bytes, i: nat)
    requires i < |s| && profile.ContractAscii?
    ensures DecodeFrom(profile, s, i) ==
            if s[i] < 0x20 || s[i] > 0x7E || s[i] == BACKSLASH then Bad(Code.Syntax, i)
            else Prepend([s[i]], DecodeFrom(profile, s, i + 1))
  {
  }

  lemma DecodeStepEscape(profile: Profile, s: Bytes, i: nat)
    requires i < |s| && !profile.ContractAscii? && s[i] == BACKSLASH
    ensures DecodeFrom(profile, s, i) ==
            if i + 1 >= |s| then Bad(Code.Syntax, i)
            else if s[i + 1] == LETTER_U then
              if EscapePoint(s, i + 2) == 0 then Bad(Code.Syntax, i)
              else Prepend(Encode(EscapePoint(s, i + 2)), DecodeFrom(profile, s, i + 2 + EscapeSize(s, i + 2)))
            else if ShortMeaning(s[i + 1]) == 0 then Bad(Code.Syntax, i)
            else Prepend([ShortMeaning(s[i + 1])], DecodeFrom(profile, s, i + 2))
  {
  }
}
