/** Bytes, result codes, profiles and the limits shared by every part of the model. */
module Basics {

  type Byte = b: int | 0 <= b < 256
  type Bytes = seq<Byte>

  /** SIZE_MAX of a 64-bit build; it doubles as the "no such index" sentinel. */
  const SIZE_MAX: nat := 0xFFFF_FFFF_FFFF_FFFF
  const VALUE_NONE: nat := SIZE_MAX

  const MAXIMUM_DEPTH: nat := 256
  const DEFAULT_MAXIMUM_BYTES: nat := 65535
  const DEFAULT_MAXIMUM_DEPTH: nat := 32
  const DEFAULT_MAXIMUM_TOKENS: nat := 8192
  const MAXIMUM_NUMBER_TEXT: nat := 64

  const TAB: Byte := 0x09
  const NEWLINE: Byte := 0x0A
  const RETURN: Byte := 0x0D
  const SPACE: Byte := 0x20
  const QUOTE: Byte := 0x22
  const COMMA: Byte := 0x2C
  const COLON: Byte := 0x3A
  const BACKSLASH: Byte := 0x5C
  const LETTER_U: Byte := 0x75
  const OPEN_BRACKET: Byte := 0x5B
  const CLOSE_BRACKET: Byte := 0x5D
  const OPEN_BRACE: Byte := 0x7B
  const CLOSE_BRACE: Byte := 0x7D

  const TRUE_WORD: Bytes := [0x74, 0x72, 0x75, 0x65]
  const FALSE_WORD: Bytes := [0x66, 0x61, 0x6C, 0x73, 0x65]
  const NULL_WORD: Bytes := [0x6E, 0x75, 0x6C, 0x6C]

  datatype Code =
    | Ok | Argument | Memory | Limit | Syntax | Utf8 | DuplicateKey | Type
    | Range | State | NotFound | NotInteger

  datatype Profile = Rfc8259 | ContractAscii | LastWins

  datatype Option<+T> = None | Some(value: T)

  datatype Limits = Limits(maximumBytes: nat, maximumDepth: nat, maximumTokens: nat)

  function OrDefault(requested: nat, default: nat): nat {
    if requested == 0 then default else requested
  }

  /** Replaces zero fields by their defaults and refuses sizes the arithmetic could not carry. */
  function ResolveLimits(requested: Limits): (r: Option<Limits>)
    // Refused exactly for a depth above 256, half of SIZE_MAX bytes, or more tokens than SIZE_MAX / 256.
    ensures r.None? <==>
              || requested.maximumDepth > 256
              || requested.maximumBytes >= 0xFFFF_FFFF_FFFF_FFFF / 2
              || requested.maximumTokens > 0xFFFF_FFFF_FFFF_FFFF / 256
    // Else a zero field is 65535 bytes, a depth of 32, 8192 tokens, and any other field is kept.
    ensures r.Some? ==>
              && r.value.maximumBytes == (if requested.maximumBytes == 0 then 65535 else requested.maximumBytes)
              && r.value.maximumDepth == (if requested.maximumDepth == 0 then 32 else requested.maximumDepth)
              && r.value.maximumTokens == (if requested.maximumTokens == 0 then 8192 else requested.maximumTokens)
    ensures r.Some? ==>
              && 0 < r.value.maximumBytes < SIZE_MAX / 2
              && 0 < r.value.maximumDepth <= MAXIMUM_DEPTH
              && 0 < r.value.maximumTokens <= SIZE_MAX / 256
  {
    var limits := Limits(OrDefault(requested.maximumBytes, DEFAULT_MAXIMUM_BYTES),
                         OrDefault(requested.maximumDepth, DEFAULT_MAXIMUM_DEPTH),
                         OrDefault(requested.maximumTokens, DEFAULT_MAXIMUM_TOKENS));
    if limits.maximumDepth > MAXIMUM_DEPTH || limits.maximumBytes >= SIZE_MAX / 2 ||
       limits.maximumTokens > SIZE_MAX / 256
    then None
    else Some(limits)
  }

  predicate IsSpace(b: Byte) {
    b == SPACE || b == TAB || b == RETURN || b == NEWLINE
  }

  predicate IsDigit(b: Byte) {
    0x30 <= b <= 0x39
  }

  /** Whether `part` occurs in `s` at `at`. */
  predicate Occurs(s: Bytes, at: nat, part: Bytes) {
    at + |part| <= |s| && s[at..at + |part|] == part
  }

  lemma OccursSplit(s: Bytes, at: nat, a: Bytes, b: Bytes)
    ensures Occurs(s, at, a + b) <==> Occurs(s, at, a) && Occurs(s, at + |a|, b)
  {
    if Occurs(s, at, a + b) {
      assert s[at..at + |a|] == s[at..at + |a + b|][..|a|] == a;
      assert s[at + |a|..at + |a| + |b|] == s[at..at + |a + b|][|a|..] == b;
    }
    if Occurs(s, at, a) && Occurs(s, at + |a|, b) {
      assert s[at..at + |a + b|] == s[at..at + |a|] + s[at + |a|..at + |a| + |b|];
    }
  }

  lemma OccursFits(s: Bytes, at: nat, part: Bytes)
    requires Occurs(s, at, part)
    ensures at + |part| <= |s|
  {
  }

  lemma OccursAt(s: Bytes, at: nat, part: Bytes, k: nat)
    requires Occurs(s, at, part) && k < |part|
    ensures s[at + k] == part[k]
  {
    assert s[at..at + |part|][k] == s[at + k];
  }
}
