/** Single-line text approved for the terminal, with the stretches that wrapping must keep
    whole (src/presentation.rs). */
module Presentation {
  import opened Text

  // ------------------------------------------------------------ sanitizing

  /** Unicode control characters: the C0 and C1 ranges and DEL. */
  predicate IsControl(c: char)
  {
    c as int < 0x20 || 0x7f <= c as int <= 0x9f
  }

  predicate Clean(text: string)
  {
    forall i :: 0 <= i < |text| ==> !IsControl(text[i])
  }

  function HexDigit(n: nat): (c: char)
    requires n < 16
    ensures !IsControl(c)
  {
    "0123456789abcdef"[n]
  }

  function Hex(n: nat): (s: string)
    ensures Clean(s)
  {
    if n < 16 then [HexDigit(n)] else Hex(n / 16) + [HexDigit(n % 16)]
  }

  /** The printable escape of one control character. */
  function Escape(c: char): (s: string)
    ensures |s| > 1 && Clean(s)
  {
    if c == '\t' then "\\t"
    else if c == '\r' then "\\r"
    else if c == '\n' then "\\n"
    else "\\u{" + Hex(c as int) + "}"
  }

  function Sanitized(text: string): (r: string)
    ensures Clean(r)
    ensures |text| <= |r|
    ensures r == text <==> Clean(text)
  {
    if text == "" then ""
    else
      var init, last := text[..|text| - 1], text[|text| - 1];
      var r := Sanitized(init);
      assert text == init + [last];
      if IsControl(last) then r + Escape(last)
      else assert r + [last] == text ==> r == init by { assert (r + [last])[..|r|] == r; }
           r + [last]
  }

  lemma {:induction false} SanitizedStep(text: string, i: nat)
    requires i < |text|
    ensures Sanitized(text[..i + 1]) ==
            Sanitized(text[..i]) + (if IsControl(text[i]) then Escape(text[i]) else [text[i]])
  {
    hide Escape, IsControl;
    assert text[..i + 1][..i] == text[..i];
  }

  method SanitizeLine(text: string) returns (out: string)
    ensures out == Sanitized(text)
  {
    hide Escape, IsControl, Clean, Sanitized;
    out := "";
    assert Sanitized("") == "" by { SanitizedNothing(); }
    for i := 0 to |text|
      invariant out == Sanitized(text[..i])
    {
      SanitizedStep(text, i);
      if IsControl(text[i]) {
        out := out + Escape(text[i]);
      } else {
        out := out + [text[i]];
      }
    }
    assert text[..|text|] == text;
  }

  lemma {:induction false} SanitizedNothing()
    ensures Sanitized("") == ""
  {
  }

  // -------------------------------------------------- reading escapes back

  /** The value of a lower-case hexadecimal digit. */
  function DigitValue(c: char): (r: Option<nat>)
  {
    if '0' <= c <= '9' then Some(c as int - '0' as int)
    else if 'a' <= c <= 'f' then Some(c as int - 'a' as int + 10)
    else None
  }

  function NumberOf(digits: string): Option<nat>
  {
    if digits == "" then Some(0)
    else
      match (NumberOf(digits[..|digits| - 1]), DigitValue(digits[|digits| - 1]))
      case (Some(n), Some(d)) => Some(n * 16 + d)
      case _ => None
  }

  /** The character that an escape at the start of `text` stands for, and how long it is. */
  function ReadEscape(text: string): Option<(char, nat)>
  {
    if "\\t" <= text then Some(('\t', 2))
    else if "\\n" <= text then Some(('\n', 2))
    else if "\\r" <= text then Some(('\r', 2))
    else if "\\u{" <= text then
      match IndexOf(text[3..], '}')
      case None => None
      case Some(n) =>
        match NumberOf(text[3..][..n])
        case Some(value) => if value < 0xd800 then Some((value as char, n + 4)) else None
        case None => None
    else None
  }

  /** A text with every escape in it replaced by its character. */
  function ReadBack(text: string): string
    decreases |text|
  {
    if text == "" then ""
    else
      match ReadEscape(text)
      case Some((c, n)) => [c] + if 0 < n <= |text| then ReadBack(text[n..]) else ""
      case None => [text[0]] + ReadBack(text[1..])
  }

  /** Digits are spelled in lower case, without leading zeros. */
  lemma {:induction false} HexSpells(n: nat)
    ensures NumberOf(Hex(n)) == Some(n) && '}' !in Hex(n)
    ensures Hex(n) != "" && (n > 0 ==> Hex(n)[0] != '0')
  {
    HexUnfolds(n);
    hide *;
    HexDigitValue(n % 16);
    if n < 16 {
      NumberSnoc("", HexDigit(n));
      assert "" + [HexDigit(n)] == [HexDigit(n)];
    } else {
      HexSpells(n / 16);
      NumberSnoc(Hex(n / 16), HexDigit(n % 16));
    }
  }

  lemma {:induction false} HexUnfolds(n: nat)
    ensures Hex(n) == if n < 16 then [HexDigit(n)] else Hex(n / 16) + [HexDigit(n % 16)]
    ensures n == n / 16 * 16 + n % 16
  {
  }

  lemma {:induction false} NumberSnoc(digits: string, c: char)
    ensures NumberOf("") == Some(0)
    ensures NumberOf(digits).Some? && DigitValue(c).Some? ==>
              NumberOf(digits + [c]) == Some(NumberOf(digits).value * 16 + DigitValue(c).value)
  {
    assert (digits + [c])[..|digits|] == digits;
  }

  lemma {:induction false} HexDigitValue(n: nat)
    requires n < 16
    ensures DigitValue(HexDigit(n)) == Some(n) && HexDigit(n) != '}' && (n > 0 ==> HexDigit(n) != '0')
  {
  }

  /** The escape of a control character is read back as that character. */
  lemma {:induction false} EscapeReadsBack(c: char, rest: string)
    requires IsControl(c)
    ensures ReadEscape(Escape(c) + rest) == Some((c, |Escape(c)|))
  {
    if c != '\t' && c != '\r' && c != '\n' {
      HexSpells(c as int);
      NumberReadsBack(Hex(c as int), c, rest);
      hide Hex, ReadEscape;
      assert Escape(c) == "\\u{" + Hex(c as int) + "}";
    } else {
      LetterReadsBack(c, rest);
    }
  }

  lemma {:induction false} LetterReadsBack(c: char, rest: string)
    requires c == '\t' || c == '\r' || c == '\n'
    ensures ReadEscape(Escape(c) + rest) == Some((c, |Escape(c)|))
  {
    hide NumberOf, IndexOf;
    assert (Escape(c) + rest)[1] == Escape(c)[1];
  }

  lemma {:induction false} NumberReadsBack(digits: string, c: char, rest: string)
    requires NumberOf(digits) == Some(c as int) && '}' !in digits && c as int < 0xd800
    ensures ReadEscape("\\u{" + digits + "}" + rest) == Some((c, |digits| + 4))
  {
    hide NumberOf, IndexOf;
    var text := "\\u{" + digits + "}" + rest;
    var tail := text[3..];
    assert tail == digits + "}" + rest && tail[..|digits|] == digits && tail[|digits|] == '}';
    IndexOfIs(tail, '}', |digits|);
    assert text[..3] == "\\u{" && text[1] == 'u';
  }

  /** Sanitizing loses nothing: a text without backslashes is read back whole. */
  lemma {:induction false} SanitizedReadsBack(text: string)
    requires '\\' !in text
    ensures ReadBack(Sanitized(text)) == text
  {
    SanitizedThen(text, "");
    assert Sanitized(text) + "" == Sanitized(text) && text + "" == text;
  }

  lemma {:induction false} SanitizedThen(text: string, rest: string)
    requires '\\' !in text
    ensures ReadBack(Sanitized(text) + rest) == text + ReadBack(rest)
  {
    hide *;
    if text == "" {
      SanitizedNothing();
      assert "" + rest == rest && "" + ReadBack(rest) == ReadBack(rest);
    } else {
      var init, last := text[..|text| - 1], text[|text| - 1];
      var piece := if IsControl(last) then Escape(last) else [last];
      SanitizedStep(text, |init|);
      assert text[..|init| + 1] == text == init + [last];
      SanitizedThen(init, piece + rest);
      assert Sanitized(init) + (piece + rest) == Sanitized(init) + piece + rest;
      PieceReadsBack(last, rest);
      assert init + ([last] + ReadBack(rest)) == init + [last] + ReadBack(rest);
    }
  }

  lemma {:induction false} PieceReadsBack(c: char, rest: string)
    requires c != '\\'
    ensures ReadBack((if IsControl(c) then Escape(c) else [c]) + rest) == [c] + ReadBack(rest)
  {
    if IsControl(c) {
      EscapeReadsBack(c, rest);
      var text := Escape(c) + rest;
      assert text[|Escape(c)|..] == rest;
      hide ReadEscape, Escape;
    } else {
      var text := [c] + rest;
      assert text[0] == c && text[1..] == rest;
      assert ReadEscape(text) == None;
    }
  }

  /** Where the control characters begin and end. */
  lemma {:induction false} ControlBounds()
    ensures IsControl('\0') && IsControl('\t') && IsControl('\n') && IsControl('\r')
    ensures IsControl(' ' - 1 as char) && !IsControl(' ') && !IsControl('~')
    ensures IsControl('~' + 1 as char) && IsControl('\U{80}') && IsControl('\U{9F}') && !IsControl('\U{A0}')
  {
  }

  // ------------------------------------------------------------- user lines

  /** A stretch of bytes from `lo` up to but not including `hi`. */
  datatype Range = Range(lo: nat, hi: nat)

  datatype UserLine =
    | Prose(prose: string)
    | Identity(identity: string)
    | Mixed(mixed: string, ranges: seq<Range>)

  function TextOf(line: UserLine): string
  {
    match line
    case Prose(text) => text
    case Identity(text) => text
    case Mixed(text, _) => text
  }

  function Ranges(line: UserLine): seq<Range>
  {
    match line
    case Prose(_) => []
    case Identity(text) => if text == "" then [] else [Range(0, ByteLen(text))]
    case Mixed(_, ranges) => ranges
  }

  function Authored(text: string): UserLine
  {
    Prose(Sanitized(text))
  }

  function Raw(text: string): UserLine
  {
    Identity(Sanitized(text))
  }

  function Unbroken(line: UserLine): UserLine
  {
    Identity(TextOf(line))
  }

  // ------------------------------------------------------------ composition

  function Shift(ranges: seq<Range>, offset: nat): (r: seq<Range>)
    ensures |r| == |ranges|
  {
    seq(|ranges|, k requires 0 <= k < |ranges| => Range(ranges[k].lo + offset, ranges[k].hi + offset))
  }

  function CatText(parts: seq<UserLine>): string
  {
    if parts == [] then "" else CatText(parts[..|parts| - 1]) + TextOf(parts[|parts| - 1])
  }

  function CatRanges(parts: seq<UserLine>): seq<Range>
  {
    if parts == [] then []
    else
      var init := parts[..|parts| - 1];
      CatRanges(init) + Shift(Ranges(parts[|parts| - 1]), ByteLen(CatText(init)))
  }

  /** The smallest storage for a text and its ranges. */
  function Pack(text: string, ranges: seq<Range>): UserLine
  {
    if ranges == [] then Prose(text)
    else if |ranges| == 1 && ranges[0].lo == 0 && ranges[0].hi == ByteLen(text) then Identity(text)
    else Mixed(text, ranges)
  }

  function Composed(parts: seq<UserLine>): UserLine
  {
    Pack(CatText(parts), CatRanges(parts))
  }

  method Compose(parts: seq<UserLine>) returns (line: UserLine)
    ensures line == Composed(parts)
  {
    hide ByteLen;
    var out: string := "";
    var guarded: seq<Range> := [];
    for i := 0 to |parts|
      invariant out == CatText(parts[..i]) && guarded == CatRanges(parts[..i])
    {
      assert parts[..i + 1][..i] == parts[..i];
      var offset := ByteLen(out);
      guarded := guarded + Shift(Ranges(parts[i]), offset);
      out := out + TextOf(parts[i]);
    }
    assert parts[..|parts|] == parts;
    if guarded == [] {
      line := Prose(out);
    } else if |guarded| == 1 && guarded[0].lo == 0 && guarded[0].hi == ByteLen(out) {
      line := Identity(out);
    } else {
      line := Mixed(out, guarded);
    }
  }

  /** A separator in front of every part, empty in front of the first. */
  function Separated(parts: seq<UserLine>, separator: string): seq<UserLine>
  {
    if parts == [] then []
    else
      var init := parts[..|parts| - 1];
      Separated(init, separator) + [Authored(if init == [] then "" else separator), parts[|parts| - 1]]
  }

  function Joined(parts: seq<UserLine>, separator: string): UserLine
  {
    Composed(Separated(parts, separator))
  }

  // ---------------------------------------------------------- valid ranges

  /** An offset between two characters, or at an end, of a text. */
  ghost predicate Boundary(text: string, offset: nat)
  {
    exists i :: 0 <= i <= |text| && ByteLen(text[..i]) == offset
  }

  ghost predicate GoodRange(text: string, range: Range)
  {
    range.lo < range.hi && Boundary(text, range.lo) && Boundary(text, range.hi)
  }

  predicate Ascending(ranges: seq<Range>)
  {
    forall k, l :: 0 <= k < l < |ranges| ==> ranges[k].hi <= ranges[l].lo
  }

  /** Ranges are non-empty, on character boundaries, disjoint and in order. */
  ghost predicate GoodRanges(text: string, ranges: seq<Range>)
  {
    Ascending(ranges) && forall k :: 0 <= k < |ranges| ==> GoodRange(text, ranges[k])
  }

  ghost predicate Valid(line: UserLine)
  {
    Clean(TextOf(line)) && GoodRanges(TextOf(line), Ranges(line))
  }

  lemma {:induction false} ByteLenMonotone(text: string, i: nat, j: nat)
    requires i <= j <= |text|
    ensures ByteLen(text[..i]) + (j - i) <= ByteLen(text[..j])
  {
    ByteLenConcat(text[..i], text[i..j]);
    assert text[..i] + text[i..j] == text[..j];
  }

  lemma {:induction false} BoundaryInside(text: string, offset: nat)
    requires Boundary(text, offset)
    ensures offset <= ByteLen(text)
  {
    var i :| 0 <= i <= |text| && ByteLen(text[..i]) == offset;
    ByteLenMonotone(text, i, |text|);
    assert text[..|text|] == text;
  }

  lemma {:induction false} BoundaryBefore(a: string, b: string, offset: nat)
    requires Boundary(a, offset)
    ensures Boundary(a + b, offset)
  {
    var i :| 0 <= i <= |a| && ByteLen(a[..i]) == offset;
    assert (a + b)[..i] == a[..i];
  }

  lemma {:induction false} BoundaryAfter(a: string, b: string, offset: nat)
    requires Boundary(b, offset)
    ensures Boundary(a + b, offset + ByteLen(a))
  {
    var i :| 0 <= i <= |b| && ByteLen(b[..i]) == offset;
    assert (a + b)[..|a| + i] == a + b[..i];
    ByteLenConcat(a, b[..i]);
  }

  lemma {:induction false} GoodRangesConcat(a: string, ra: seq<Range>, b: string, rb: seq<Range>)
    requires GoodRanges(a, ra) && GoodRanges(b, rb)
    ensures GoodRanges(a + b, ra + Shift(rb, ByteLen(a)))
  {
    hide Boundary, ByteLen;
    var all := ra + Shift(rb, ByteLen(a));
    forall k | 0 <= k < |all| ensures GoodRange(a + b, all[k]) && (k < |ra| ==> all[k].hi <= ByteLen(a)) {
      if k < |ra| {
        BoundaryBefore(a, b, ra[k].lo);
        BoundaryBefore(a, b, ra[k].hi);
        BoundaryInside(a, ra[k].hi);
      } else {
        BoundaryAfter(a, b, rb[k - |ra|].lo);
        BoundaryAfter(a, b, rb[k - |ra|].hi);
      }
    }
  }

  lemma {:induction false} WholeRange(text: string)
    ensures Ranges(Identity(text)) == [] || GoodRanges(text, Ranges(Identity(text)))
  {
    if text != "" {
      assert text[..0] == "" && text[..|text|] == text;
      assert Boundary(text, 0) && Boundary(text, ByteLen(text));
    }
  }

  lemma {:induction false} CatIsGood(parts: seq<UserLine>)
    requires forall k :: 0 <= k < |parts| ==> Valid(parts[k])
    ensures Clean(CatText(parts)) && GoodRanges(CatText(parts), CatRanges(parts))
  {
    if parts != [] {
      var init := parts[..|parts| - 1];
      hide ByteLen, GoodRanges, Shift;
      CatIsGood(init);
      assert Valid(parts[|parts| - 1]);
      GoodRangesConcat(CatText(init), CatRanges(init), TextOf(parts[|parts| - 1]), Ranges(parts[|parts| - 1]));
    }
  }

  lemma {:induction false} PackKeeps(text: string, ranges: seq<Range>)
    requires GoodRanges(text, ranges)
    ensures TextOf(Pack(text, ranges)) == text && Ranges(Pack(text, ranges)) == ranges
  {
    if |ranges| == 1 && ranges[0].lo == 0 && ranges[0].hi == ByteLen(text) {
      assert GoodRange(text, ranges[0]);
      assert ranges == [Range(0, ByteLen(text))];
    }
  }

  // ---------------------------------------------------- nesting compositions

  lemma {:induction false} ShiftConcat(a: seq<Range>, b: seq<Range>, offset: nat)
    ensures Shift(a + b, offset) == Shift(a, offset) + Shift(b, offset)
  {
  }

  lemma {:induction false} ShiftTwice(a: seq<Range>, i: nat, j: nat)
    ensures Shift(Shift(a, i), j) == Shift(a, i + j)
  {
  }

  lemma {:induction false} CatConcat(a: seq<UserLine>, b: seq<UserLine>)
    ensures CatText(a + b) == CatText(a) + CatText(b)
    ensures CatRanges(a + b) == CatRanges(a) + Shift(CatRanges(b), ByteLen(CatText(a)))
  {
    hide ByteLen, Shift, TextOf, Ranges;
    if b == [] {
      assert a + b == a;
      ShiftNothing(ByteLen(CatText(a)));
    } else {
      var init, last := b[..|b| - 1], b[|b| - 1];
      assert (a + b)[..|a + b| - 1] == a + init;
      CatConcat(a, init);
      ByteLenConcat(CatText(a), CatText(init));
      ShiftTwice(Ranges(last), ByteLen(CatText(init)), ByteLen(CatText(a)));
      ShiftConcat(CatRanges(init), Shift(Ranges(last), ByteLen(CatText(init))), ByteLen(CatText(a)));
    }
  }

  lemma {:induction false} ShiftNothing(offset: nat)
    ensures Shift([], offset) == []
  {
  }

  /** A single part contributes its text and its ranges as they are. */
  lemma {:induction false} CatOne(line: UserLine)
    ensures CatText([line]) == TextOf(line) && CatRanges([line]) == Ranges(line)
  {
    assert [line][..0] == [];
    assert Shift(Ranges(line), 0) == Ranges(line);
  }

  /** Composing a composition is composing its parts in place. */
  lemma {:induction false} NestedIsFlat(before: seq<UserLine>, inner: seq<UserLine>, after: seq<UserLine>)
    requires forall k :: 0 <= k < |inner| ==> Valid(inner[k])
    ensures Composed(before + [Composed(inner)] + after) == Composed(before + inner + after)
  {
    CatIsGood(inner);
    PackKeeps(CatText(inner), CatRanges(inner));
    CatOne(Composed(inner));
    hide *;
    SameCat(before, [Composed(inner)], inner, after);
  }

  lemma {:induction false} SameCat(before: seq<UserLine>, one: seq<UserLine>, other: seq<UserLine>,
                                   after: seq<UserLine>)
    requires CatText(one) == CatText(other) && CatRanges(one) == CatRanges(other)
    ensures Composed(before + one + after) == Composed(before + other + after)
  {
    hide CatText, CatRanges, Pack, Shift, ByteLen;
    CatConcat(before, one);
    CatConcat(before, other);
    CatConcat(before + one, after);
    CatConcat(before + other, after);
  }
}
