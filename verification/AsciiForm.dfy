/** The ASCII presentation: whatever the tree, nothing above U+007F is printed. */
module AsciiForm {
  import opened Basics
  import opened Utf8
  import opened TextEscape
  import opened Numeral
  import opened Trees
  import opened Order
  import opened Printer
  import opened Alphabet

  predicate AllAscii(b: Bytes) {
    forall k :: 0 <= k < |b| ==> b[k] <= 0x7F
  }

  lemma {:induction false} EscapeIsAscii(t: Bytes, i: nat)
    requires i <= |t| && PrefixFrom(t, i) == |t|
    ensures AllAscii(EscapeFrom(t, i, true))
    decreases |t| - i
  {
    hide StepAt, PointAt, PointEscape, CanonicalEscape;
    if i < |t| {
      StepEncodes(t, i);
      StepShape(t, i);
      EscapeIsAscii(t, i + StepAt(t, i));
      if t[i] >= 0x80 {
        PointSpelling(PointAt(t, i));
      } else {
        ByteIsAscii(t[i]);
      }
    }
  }

  lemma ByteIsAscii(b: Byte)
    requires b <= 0x7F
    ensures AllAscii(CanonicalEscape(b))
  {
    hide CanonicalEscape;
    CanonicalSpelling(b);
    if b < 0x20 && b !in {0x08, 0x09, 0x0A, 0x0C, 0x0D} {
      var e := CanonicalEscape(b);
      assert e == e[..4] + [e[4], e[5]];
      assert Ascii("\\u00") == [0x5C, 0x75, 0x30, 0x30];
    }
  }

  lemma QuotedIsAscii(profile: Profile, t: Bytes)
    requires Printable(profile, t)
    ensures AllAscii(Quoted(t, true))
  {
    if profile.ContractAscii? {
      AsciiIsValid(t, 0);
    }
    hide EscapeFrom, PrefixFrom;
    EscapeIsAscii(t, 0);
  }

  lemma NumberIsAscii(lexeme: Bytes)
    requires IsNumber(lexeme)
    ensures AllAscii(lexeme)
  {
    var n := PartsOf(lexeme);
    hide IsNumber;
    PartsAreAscii(n);
  }

  lemma PartsAreAscii(n: Parts)
    requires PartsOk(n)
    ensures AllAscii(SpellParts(n))
  {
    DigitsAreAscii(n.whole);
    DigitsAreAscii(n.fraction);
    if n.exponent.Exponent? {
      DigitsAreAscii(n.exponent.digits);
      assert AllAscii(n.exponent.sign);
    }
    hide Digits;
    assert AllAscii(SpellExponent(n.exponent)) && AllAscii(SpellFraction(n));
  }

  lemma DigitsAreAscii(d: Bytes)
    requires Digits(d)
    ensures AllAscii(d)
  {
  }

  lemma LayoutIsAscii(style: Style, level: nat)
    ensures AllAscii(Break(style, level)) && AllAscii(Gap(style))
  {
    hide Spaces;
    assert Blank(Break(style, level)) && Blank(Gap(style));
    hide Break, Gap;
  }

  lemma WordsAreAscii(j: Json)
    ensures AllAscii(WordBytes(j))
  {
  }

  /** Under the ASCII flag every printed byte is at most 0x7F. */
  lemma {:induction false} PrintIsAscii(profile: Profile, j: Json, style: Style, level: nat)
    requires Carried(profile, j) && style.ascii
    ensures AllAscii(Print(j, style, level))
    decreases j, 0
  {
    hide Printable, IsNumber, Quoted, PrintItems, PrintMembers, WordBytes;
    WordsAreAscii(j);
    match j {
      case Number(lexeme) => NumberIsAscii(lexeme);
      case Text(t) => QuotedIsAscii(profile, t);
      case Array(items) =>
        if items != [] {
          ItemsAreAscii(profile, items, 0, style, level);
        }
      case Object(ms) =>
        if ms != [] {
          MembersAreAscii(profile, ms, 0, style, level);
        }
      case _ =>
    }
  }

  lemma Joined(a: Bytes, b: Bytes)
    requires AllAscii(a) && AllAscii(b)
    ensures AllAscii(a + b)
  {
  }

  lemma MarksAreAscii()
    ensures AllAscii([COMMA]) && AllAscii([COLON]) && AllAscii([CLOSE_BRACE])
  {
  }

  lemma {:induction false} ItemsAreAscii(profile: Profile, items: seq<Json>, k: nat, style: Style, level: nat)
    requires k < |items| && style.ascii && forall i :: 0 <= i < |items| ==> Carried(profile, items[i])
    ensures AllAscii(PrintItems(items, k, style, level))
    decreases items, |items| - k
  {
    hide Print, Break, Carried;
    PrintIsAscii(profile, items[k], style, level + 1);
    LayoutIsAscii(style, level);
    LayoutIsAscii(style, level + 1);
    if k + 1 < |items| {
      ItemsAreAscii(profile, items, k + 1, style, level);
    }
  }

  lemma {:induction false} MembersAreAscii(profile: Profile, ms: seq<Member>, k: nat, style: Style, level: nat)
    requires k < |ms| && style.ascii
    requires forall i :: 0 <= i < |ms| ==> Printable(profile, ms[i].key) && Carried(profile, ms[i].value)
    ensures AllAscii(PrintMembers(ms, k, style, level))
    decreases ms, |ms| - k
  {
    hide Print, Break, Gap, Carried, Printable, Quoted, AllAscii;
    PrintIsAscii(profile, ms[k].value, style, level + 1);
    QuotedIsAscii(profile, ms[k].key);
    LayoutIsAscii(style, level);
    LayoutIsAscii(style, level + 1);
    var last := Break(style, level) + [CLOSE_BRACE];
    MarksAreAscii();
    Joined(Break(style, level), [CLOSE_BRACE]);
    if k + 1 < |ms| {
      MembersAreAscii(profile, ms, k + 1, style, level);
      last := [COMMA] + PrintMembers(ms, k + 1, style, level);
      Joined([COMMA], PrintMembers(ms, k + 1, style, level));
    }
    var value := Print(ms[k].value, style, level + 1) + last;
    Joined(Print(ms[k].value, style, level + 1), last);
    Joined(Gap(style), value);
    Joined([COLON], Gap(style) + value);
    Joined(Quoted(ms[k].key, style.ascii), [COLON] + (Gap(style) + value));
    Joined(Break(style, level + 1), Quoted(ms[k].key, style.ascii) + ([COLON] + (Gap(style) + value)));
  }

  /** The whole serialization of a sorted tree. */
  lemma OutputIsAscii(profile: Profile, j: Json, style: Style, newline: bool)
    requires Carried(profile, j) && style.ascii
    ensures AllAscii(Output(Sorted(j), style, newline))
  {
    hide Carried, Print, Sorted;
    SortedCarried(profile, j);
    PrintIsAscii(profile, Sorted(j), style, 0);
  }
}
