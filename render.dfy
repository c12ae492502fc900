/** The line renderer: the connector prefix drawn in front of an entry, the
    size label of a file, and the two line formats. */
module Render {
  import opened Wrappers
  import opened Sequences

  /** The entry's own connector: "└───" for the last sibling, "├───" otherwise. */
  function Glyph(isLastElement: bool): string {
    (if isLastElement then "└" else "├") + "───"
  }

  /** The continuation drawn for one ancestor: a bar while that ancestor still
      has later siblings, only a tab once it was the last one. */
  function Bar(isLastParent: bool): string {
    if isLastParent then "\t" else "│\t"
  }

  /** The continuations for a sequence of ancestors, shallowest first. */
  function Bars(flags: seq<bool>): string {
    if flags == [] then "" else Bars(flags[..|flags| - 1]) + Bar(flags[|flags| - 1])
  }

  /** The prefix of an entry at the given level: the continuations of the
      first `level` ancestors, then the entry's own connector. */
  function Indent(level: int, isLastElement: bool, isLastParents: seq<bool>): (indent: string)
    requires level <= |isLastParents|
  {
    (if level > 0 then Bars(isLastParents[..level]) else "") + Glyph(isLastElement)
  }

  /** getIndent: builds the continuations one ancestor at a time. Indexing
      isLastParents beyond its length would panic, hence the requires. */
  method GetIndent(level: int, isLastElement: bool, isLastParents: seq<bool>) returns (indent: string)
    requires level <= |isLastParents|
    ensures indent == Indent(level, isLastElement, isLastParents)
    ensures level <= 0 ==> indent == Glyph(isLastElement)
  {
    var spacer := "───";
    var lineBeginner := "├";
    if isLastElement {
      lineBeginner := "└";
    }
    var ownIndent := lineBeginner + spacer;
    var combinedSpacers := "";
    var i := 0;
    if level > 0 {
      combinedSpacers := "";
      while i < level
        invariant 0 <= i <= level
        invariant combinedSpacers == Bars(isLastParents[..i])
      {
        if !isLastParents[i] {
          combinedSpacers := combinedSpacers + "│\t";
        } else {
          combinedSpacers := combinedSpacers + "\t";
        }
        assert isLastParents[..i + 1][..i] == isLastParents[..i];
        i := i + 1;
      }
    }
    indent := combinedSpacers + ownIndent;
  }

  /** Only the flags of the first `level` ancestors affect the prefix. */
  lemma IndentReadsOnlyPrefix(level: int, isLastElement: bool, flags: seq<bool>, other: seq<bool>)
    requires level <= |flags| && level <= |other|
    requires forall i | 0 <= i < level :: flags[i] == other[i]
    ensures Indent(level, isLastElement, flags) == Indent(level, isLastElement, other)
  {
    if level > 0 {
      assert flags[..level] == other[..level];
    }
  }

  lemma {:induction false} BarsPrepend(b: bool, flags: seq<bool>)
    ensures Bars([b] + flags) == Bar(b) + Bars(flags)
    decreases |flags|
  {
    if flags != [] {
      var f := [b] + flags;
      assert f[..|f| - 1] == [b] + flags[..|flags| - 1];
      BarsPrepend(b, flags[..|flags| - 1]);
    } else {
      assert Bars([b]) == Bars([]) + Bar(b);
    }
  }

  /** Reads the continuations off the front of a prefix; returns the flags and what follows. */
  function ParseBars(s: string): (r: (seq<bool>, string))
    ensures |r.1| <= |s|
  {
    if |s| >= 2 && s[0] == '│' && s[1] == '\t' then
      var (flags, rest) := ParseBars(s[2..]); ([false] + flags, rest)
    else if |s| >= 1 && s[0] == '\t' then
      var (flags, rest) := ParseBars(s[1..]); ([true] + flags, rest)
    else ([], s)
  }

  /** Reads a whole prefix back into the ancestors' flags and the last-sibling flag. */
  function ParseIndent(s: string): Option<(seq<bool>, bool)> {
    var (flags, rest) := ParseBars(s);
    if rest == Glyph(true) then Some((flags, true))
    else if rest == Glyph(false) then Some((flags, false))
    else None
  }

  /** One continuation read off the front. */
  lemma ParseBarsAfterBar(b: bool, rest: string)
    ensures ParseBars(Bar(b) + rest) == ([b] + ParseBars(rest).0, ParseBars(rest).1)
  {
    var s := Bar(b) + rest;
    if b {
      assert s[0] == '\t' && s[1..] == rest;
    } else {
      assert s[0] == '│' && s[1] == '\t' && s[2..] == rest;
    }
  }

  lemma {:induction false} ParseBarsOfBars(flags: seq<bool>, tail: string)
    requires tail == [] || (tail[0] != '│' && tail[0] != '\t')
    ensures ParseBars(Bars(flags) + tail) == (flags, tail)
    decreases |flags|
  {
    if flags != [] {
      BarsPrepend(flags[0], flags[1..]);
      assert [flags[0]] + flags[1..] == flags;
      ParseBarsOfBars(flags[1..], tail);
      AppendAssociative(Bar(flags[0]), Bars(flags[1..]), tail);
      ParseBarsAfterBar(flags[0], Bars(flags[1..]) + tail);
    } else {
      assert Bars(flags) + tail == tail;
    }
  }

  /** The prefix determines the flags it was drawn from: reading it back gives
      the first `level` ancestor flags and the entry's own last-sibling flag. */
  lemma IndentRoundTrip(level: int, isLastElement: bool, isLastParents: seq<bool>)
    requires level <= |isLastParents|
    ensures ParseIndent(Indent(level, isLastElement, isLastParents))
            == Some((if level > 0 then isLastParents[..level] else [], isLastElement))
  {
    var flags := if level > 0 then isLastParents[..level] else [];
    assert Bars([]) == "";
    ParseBarsOfBars(flags, Glyph(isLastElement));
    assert Glyph(true) != Glyph(false);
  }

  /** The decimal digit for d. */
  function DigitChar(d: nat): char
    requires d < 10
  {
    "0123456789"[d]
  }

  function DigitValue(c: char): nat {
    if '0' <= c <= '9' then (c as int - '0' as int) as nat else 0
  }

  lemma DigitCharValue(d: nat)
    requires d < 10
    ensures '0' <= DigitChar(d) <= '9'
    ensures DigitValue(DigitChar(d)) == d
    ensures DigitChar(d) == '0' <==> d == 0
  {
  }

  /** Decimal rendering of a byte count, as Go's %d writes it. */
  function Decimal(n: nat): (s: string)
    ensures |s| >= 1
    decreases n
  {
    if n < 10 then [DigitChar(n)] else Decimal(n / 10) + [DigitChar(n % 10)]
  }

  /** The number a string of decimal digits stands for. */
  function ParseDecimal(s: string): nat {
    if s == [] then 0 else ParseDecimal(s[..|s| - 1]) * 10 + DigitValue(s[|s| - 1])
  }

  lemma {:induction false} DecimalRoundTrip(n: nat)
    ensures ParseDecimal(Decimal(n)) == n
    decreases n
  {
    var s := Decimal(n);
    if n < 10 {
      DigitCharValue(n);
      assert s[..0] == [];
    } else {
      DecimalRoundTrip(n / 10);
      DigitCharValue(n % 10);
      assert s[..|s| - 1] == Decimal(n / 10);
    }
  }

  /** Decimal writes only digits, and starts with '0' only for zero. */
  lemma {:induction false} DecimalDigits(n: nat)
    ensures forall i | 0 <= i < |Decimal(n)| :: '0' <= Decimal(n)[i] <= '9'
    ensures Decimal(n)[0] == '0' <==> n == 0
    decreases n
  {
    if n < 10 {
      DigitCharValue(n);
    } else {
      DecimalDigits(n / 10);
      DigitCharValue(n % 10);
      var s := Decimal(n);
      assert s[0] == Decimal(n / 10)[0];
      forall i | 0 <= i < |s| ensures '0' <= s[i] <= '9' {
        if i < |s| - 1 {
          assert s[i] == Decimal(n / 10)[i];
        }
      }
    }
  }

  lemma DecimalIsZeroOnlyForZero(n: nat)
    ensures Decimal(n) == "0" <==> n == 0
  {
    DecimalDigits(n);
    if n >= 10 {
      assert |Decimal(n)| >= 2;
    }
  }

  /** The size label of a file as the program builds it: the byte count in
      parentheses with a "b" suffix, replaced by "(empty)" when it reads "(0b)". */
  function SizeLabel(size: nat): (text: string) {
    var formatted := "(" + Decimal(size) + "b)";
    if formatted == "(0b)" then "(empty)" else formatted
  }

  /** "(empty)" exactly for zero bytes, "(<size>b)" for every other size. */
  lemma SizeLabelCases(size: nat)
    ensures SizeLabel(size) == "(empty)" <==> size == 0
    ensures size > 0 ==> SizeLabel(size) == "(" + Decimal(size) + "b)"
  {
    DecimalIsZeroOnlyForZero(size);
    var formatted := "(" + Decimal(size) + "b)";
    if formatted == "(0b)" {
      assert |Decimal(size)| == 1;
      assert Decimal(size)[0] == formatted[1];
      assert Decimal(size) == "0";
    }
    if size > 0 {
      assert formatted[|formatted| - 2] == 'b';
      assert "(empty)"[5] == 'y';
    }
  }

  /** Reads the byte count back out of a size label. */
  function ParseSizeLabel(text: string): Option<nat> {
    if text == "(empty)" then Some(0)
    else if |text| >= 3 && text[0] == '(' && text[|text| - 2..] == "b)" then
      Some(ParseDecimal(text[1..|text| - 2]))
    else None
  }

  /** The size text loses nothing: the byte count can be read back from it. */
  lemma SizeLabelRoundTrip(size: nat)
    ensures ParseSizeLabel(SizeLabel(size)) == Some(size)
  {
    SizeLabelCases(size);
    if size > 0 {
      var text := "(" + Decimal(size) + "b)";
      assert text[1..|text| - 2] == Decimal(size);
      assert text[|text| - 2..] == "b)";
      DecimalRoundTrip(size);
    }
  }

  lemma SizeLabelExamples()
    ensures SizeLabel(0) == "(empty)"
    ensures SizeLabel(5) == "(5b)"
  {
    assert DigitChar(5) == '5';
    assert Decimal(5) == "5";
    assert "(" + "5" + "b)" == "(5b)";
  }

  /** A directory line: prefix, name, newline. */
  function DirLine(indent: string, name: string): string {
    indent + name + "\n"
  }

  /** A file line: prefix, name, a space, the size label, newline. */
  function FileLine(indent: string, name: string, size: nat): string {
    indent + name + " " + SizeLabel(size) + "\n"
  }
}
