/** What a user line means: its characters, each marked as protected from wrapping or not.
    Every way of building a line is compositional in this meaning (src/presentation.rs). */
module ProtectedText {
  import opened Text
  import opened Presentation

  datatype Mark = Mark(letter: char, guarded: bool)

  /** Some range holds the byte at `at`. */
  predicate Covered(ranges: seq<Range>, at: nat)
  {
    exists k :: 0 <= k < |ranges| && ranges[k].lo <= at < ranges[k].hi
  }

  function Marked(text: string, ranges: seq<Range>): (r: seq<Mark>)
    ensures |r| == |text|
    ensures Chars(r) == text
  {
    var r := seq(|text|, i requires 0 <= i < |text| => Mark(text[i], Covered(ranges, ByteLen(text[..i]))));
    assert Chars(r) == text;
    r
  }

  function Marks(line: UserLine): (r: seq<Mark>)
    ensures Chars(r) == TextOf(line)
  {
    Marked(TextOf(line), Ranges(line))
  }

  function Chars(marks: seq<Mark>): (r: string)
    ensures |r| == |marks|
  {
    seq(|marks|, i requires 0 <= i < |marks| => marks[i].letter)
  }

  /** All of a text, with one protection. */
  function Uniform(text: string, guarded: bool): (r: seq<Mark>)
    ensures |r| == |text|
  {
    seq(|text|, i requires 0 <= i < |text| => Mark(text[i], guarded))
  }

  function Concat<T>(parts: seq<seq<T>>): seq<T>
  {
    if parts == [] then [] else Concat(parts[..|parts| - 1]) + parts[|parts| - 1]
  }

  lemma {:induction false} CoveredConcat(a: seq<Range>, b: seq<Range>, at: nat)
    ensures Covered(a + b, at) <==> Covered(a, at) || Covered(b, at)
  {
    if k :| 0 <= k < |a| && a[k].lo <= at < a[k].hi {
      assert (a + b)[k] == a[k];
    }
    if k :| 0 <= k < |b| && b[k].lo <= at < b[k].hi {
      assert (a + b)[|a| + k] == b[k];
    }
  }

  lemma {:induction false} CoveredShift(ranges: seq<Range>, offset: nat, at: nat)
    ensures Covered(Shift(ranges, offset), at + offset) <==> Covered(ranges, at)
    ensures at < offset ==> !Covered(Shift(ranges, offset), at)
  {
    var moved := Shift(ranges, offset);
    assert forall k :: 0 <= k < |ranges| ==>
           moved[k].lo == ranges[k].lo + offset && moved[k].hi == ranges[k].hi + offset;
    if k :| 0 <= k < |ranges| && ranges[k].lo <= at < ranges[k].hi {
      assert moved[k].lo <= at + offset < moved[k].hi;
    }
  }

  lemma {:induction false} CoveredInside(text: string, ranges: seq<Range>, at: nat)
    requires GoodRanges(text, ranges) && Covered(ranges, at)
    ensures at < ByteLen(text)
  {
    var k :| 0 <= k < |ranges| && ranges[k].lo <= at < ranges[k].hi;
    assert GoodRange(text, ranges[k]);
    BoundaryInside(text, ranges[k].hi);
  }

  /** Marks of a concatenation: each side keeps its own protection. */
  lemma {:induction false} MarkedConcat(a: string, ra: seq<Range>, b: string, rb: seq<Range>)
    requires GoodRanges(a, ra)
    ensures Marked(a + b, ra + Shift(rb, ByteLen(a))) == Marked(a, ra) + Marked(b, rb)
  {
    hide Covered, Shift, ByteLen, GoodRanges, Chars;
    var got, want := Marked(a + b, ra + Shift(rb, ByteLen(a))), Marked(a, ra) + Marked(b, rb);
    forall i | 0 <= i < |a + b| ensures got[i] == want[i] {
      if i < |a| {
        LeftMark(a, ra, b, rb, i);
      } else {
        RightMark(a, ra, b, rb, i - |a|);
      }
    }
  }

  lemma {:induction false} LeftMark(a: string, ra: seq<Range>, b: string, rb: seq<Range>, i: nat)
    requires i < |a|
    ensures Covered(ra + Shift(rb, ByteLen(a)), ByteLen((a + b)[..i])) == Covered(ra, ByteLen(a[..i]))
  {
    hide Covered, Shift, ByteLen;
    var at := ByteLen(a[..i]);
    assert (a + b)[..i] == a[..i];
    ByteLenMonotone(a, i, |a|);
    assert a[..|a|] == a;
    CoveredConcat(ra, Shift(rb, ByteLen(a)), at);
    CoveredShift(rb, ByteLen(a), at);
  }

  lemma {:induction false} RightMark(a: string, ra: seq<Range>, b: string, rb: seq<Range>, i: nat)
    requires GoodRanges(a, ra) && i < |b|
    ensures Covered(ra + Shift(rb, ByteLen(a)), ByteLen((a + b)[..|a| + i])) == Covered(rb, ByteLen(b[..i]))
  {
    hide Covered, Shift, ByteLen, GoodRanges;
    var at := ByteLen(b[..i]);
    assert (a + b)[..|a| + i] == a + b[..i];
    ByteLenConcat(a, b[..i]);
    CoveredConcat(ra, Shift(rb, ByteLen(a)), at + ByteLen(a));
    CoveredShift(rb, ByteLen(a), at);
    if Covered(ra, at + ByteLen(a)) {
      CoveredInside(a, ra, at + ByteLen(a));
    }
  }

  // ------------------------------------------------- meaning of each builder

  lemma {:induction false} ProseMarks(text: string)
    ensures Marks(Prose(text)) == Uniform(text, false)
  {
  }

  lemma {:induction false} IdentityMarks(text: string)
    ensures Marks(Identity(text)) == Uniform(text, true)
  {
    forall i | 0 <= i < |text| ensures Covered([Range(0, ByteLen(text))], ByteLen(text[..i])) {
      ByteLenMonotone(text, i, |text|);
      assert text[..|text|] == text;
      assert [Range(0, ByteLen(text))][0].lo <= ByteLen(text[..i]);
    }
  }

  function AllMarks(parts: seq<UserLine>): (r: seq<seq<Mark>>)
    ensures |r| == |parts|
  {
    seq(|parts|, i requires 0 <= i < |parts| => Marks(parts[i]))
  }

  lemma {:induction false} CatMarks(parts: seq<UserLine>)
    requires forall k :: 0 <= k < |parts| ==> Valid(parts[k])
    ensures Marked(CatText(parts), CatRanges(parts)) == Concat(AllMarks(parts))
  {
    hide Marked, ByteLen, Shift, GoodRanges;
    if parts == [] {
      MarkedNothing();
    } else {
      var init, last := parts[..|parts| - 1], parts[|parts| - 1];
      assert AllMarks(parts)[..|init|] == AllMarks(init);
      CatMarks(init);
      CatIsGood(init);
      MarkedConcat(CatText(init), CatRanges(init), TextOf(last), Ranges(last));
    }
  }

  lemma {:induction false} MarkedNothing()
    ensures Marked("", []) == []
  {
  }

  /** Composing concatenates meanings and keeps ranges sorted, disjoint and non-empty. */
  lemma {:induction false} ComposedMarks(parts: seq<UserLine>)
    requires forall k :: 0 <= k < |parts| ==> Valid(parts[k])
    ensures Valid(Composed(parts))
    ensures Marks(Composed(parts)) == Concat(AllMarks(parts))
  {
    hide Marked, CatText, CatRanges, Pack, GoodRanges, Clean;
    CatIsGood(parts);
    PackKeeps(CatText(parts), CatRanges(parts));
    CatMarks(parts);
  }

  /** Plain storage is used exactly when nothing is protected, and storage as one identity only
      when everything is. */
  lemma {:induction false} StorageTells(parts: seq<UserLine>)
    requires forall k :: 0 <= k < |parts| ==> Valid(parts[k])
    ensures var line := Composed(parts);
            && (line.Prose? <==> forall i :: 0 <= i < |Marks(line)| ==> !Marks(line)[i].guarded)
            && (line.Identity? ==> forall i :: 0 <= i < |Marks(line)| ==> Marks(line)[i].guarded)
  {
    hide CatText, CatRanges, GoodRanges, Clean, ByteLen, Covered;
    CatIsGood(parts);
    var text, ranges := CatText(parts), CatRanges(parts);
    PackKeeps(text, ranges);
    var line := Composed(parts);
    assert Marks(line) == Marked(text, ranges);
    if ranges == [] {
      NothingCovered();
    } else {
      var i := SomeProtected(text, ranges);
      assert Marks(line)[i].guarded;
    }
    if line.Identity? {
      WholeIsProtected(text);
      forall i | 0 <= i < |Marks(line)| ensures Marks(line)[i].guarded {
        assert Covered(Ranges(line), ByteLen(text[..i]));
      }
    }
  }

  lemma {:induction false} NothingCovered()
    ensures forall at :: !Covered([], at)
  {
  }

  lemma {:induction false} SomeProtected(text: string, ranges: seq<Range>) returns (i: nat)
    requires GoodRanges(text, ranges) && ranges != []
    ensures i < |text| && Covered(ranges, ByteLen(text[..i]))
  {
    hide ByteLen;
    assert ranges[0].lo <= ranges[0].lo < ranges[0].hi by { assert GoodRange(text, ranges[0]); }
    var lo, hi := ranges[0].lo, ranges[0].hi;
    assert GoodRange(text, ranges[0]);
    i :| 0 <= i <= |text| && ByteLen(text[..i]) == lo;
    BoundaryInside(text, hi);
    assert text[..|text|] == text;
  }

  lemma {:induction false} WholeIsProtected(text: string)
    ensures forall i :: 0 <= i < |text| ==> Covered(Ranges(Identity(text)), ByteLen(text[..i]))
  {
    hide ByteLen;
    forall i | 0 <= i < |text| ensures Covered(Ranges(Identity(text)), ByteLen(text[..i])) {
      ByteLenMonotone(text, i, |text|);
      assert text[..|text|] == text && Ranges(Identity(text))[0].lo <= ByteLen(text[..i]);
    }
  }

  lemma {:induction false} IdentityIsValid(text: string)
    requires Clean(text)
    ensures Valid(Identity(text)) && Valid(Prose(text))
  {
    WholeRange(text);
  }

  // -------------------------------------------------- every way of building

  /** How the program builds lines, to any depth. */
  datatype Expr =
    | AuthoredText(text: string)
    | RawText(text: string)
    | UnbrokenLine(line: Expr)
    | ComposedOf(parts: seq<Expr>)
    | JoinedBy(parts: seq<Expr>, separator: string)

  function Build(e: Expr): UserLine
  {
    match e
    case AuthoredText(text) => Authored(text)
    case RawText(text) => Raw(text)
    case UnbrokenLine(line) => Unbroken(Build(line))
    case ComposedOf(parts) => Composed(seq(|parts|, i requires 0 <= i < |parts| => Build(parts[i])))
    case JoinedBy(parts, separator) => Joined(seq(|parts|, i requires 0 <= i < |parts| => Build(parts[i])), separator)
  }

  /** What each expression should show, with no ranges or offsets. */
  function Meaning(e: Expr): seq<Mark>
  {
    match e
    case AuthoredText(text) => Uniform(Sanitized(text), false)
    case RawText(text) => Uniform(Sanitized(text), true)
    case UnbrokenLine(line) => Uniform(Chars(Meaning(line)), true)
    case ComposedOf(parts) => Concat(seq(|parts|, i requires 0 <= i < |parts| => Meaning(parts[i])))
    case JoinedBy(parts, separator) =>
      Interleaved(Uniform(Sanitized(separator), false), seq(|parts|, i requires 0 <= i < |parts| => Meaning(parts[i])))
  }

  function Interleaved(separator: seq<Mark>, parts: seq<seq<Mark>>): seq<Mark>
  {
    if parts == [] then []
    else if |parts| == 1 then parts[0]
    else Interleaved(separator, parts[..|parts| - 1]) + separator + parts[|parts| - 1]
  }

  lemma {:induction false} SeparatedValid(parts: seq<UserLine>, separator: string)
    requires forall k :: 0 <= k < |parts| ==> Valid(parts[k])
    ensures forall k :: 0 <= k < |Separated(parts, separator)| ==> Valid(Separated(parts, separator)[k])
  {
    if parts != [] {
      SeparatedValid(parts[..|parts| - 1], separator);
      IdentityIsValid(Sanitized(""));
      IdentityIsValid(Sanitized(separator));
      assert Valid(parts[|parts| - 1]);
    }
  }

  lemma {:induction false} SeparatedMarks(parts: seq<UserLine>, separator: string)
    ensures Concat(AllMarks(Separated(parts, separator))) ==
            Interleaved(Uniform(Sanitized(separator), false), AllMarks(parts))
  {
    hide *;
    NoMarks(separator);
    if parts != [] {
      var init, last := parts[..|parts| - 1], parts[|parts| - 1];
      var gap := Authored(if init == [] then "" else separator);
      var front := Separated(init, separator);
      SeparatedMarks(init, separator);
      SeparatedSnoc(parts, init, last, gap, separator);
      AllMarksSnoc(init, last);
      AllMarksSnoc(front, gap);
      AllMarksSnoc(front + [gap], last);
      ConcatTwo(AllMarks(front), Marks(gap), Marks(last));
      GapMarks(init, separator);
      InterleavedSnoc(Uniform(Sanitized(separator), false), AllMarks(init), Marks(last));
      assert init == [] <==> AllMarks(init) == [];
    }
  }

  lemma {:induction false} SeparatedSnoc(parts: seq<UserLine>, init: seq<UserLine>, last: UserLine, gap: UserLine,
                                         separator: string)
    requires parts != [] && init == parts[..|parts| - 1] && last == parts[|parts| - 1]
    requires gap == Authored(if init == [] then "" else separator)
    ensures parts == init + [last]
    ensures Separated(parts, separator) == Separated(init, separator) + [gap] + [last]
  {
    hide Authored;
    assert Separated(init, separator) + [gap, last] == Separated(init, separator) + [gap] + [last];
  }

  lemma {:induction false} InterleavedSnoc(separator: seq<Mark>, parts: seq<seq<Mark>>, last: seq<Mark>)
    ensures Interleaved(separator, parts + [last]) ==
            Interleaved(separator, parts) + (if parts == [] then [] else separator) + last
  {
    assert (parts + [last])[..|parts|] == parts;
  }

  lemma {:induction false} NoMarks(separator: string)
    ensures AllMarks([]) == [] && Separated([], separator) == []
    ensures Concat<Mark>([]) == [] && forall s :: Interleaved(s, []) == []
  {
  }

  lemma {:induction false} AllMarksSnoc(parts: seq<UserLine>, last: UserLine)
    ensures AllMarks(parts + [last]) == AllMarks(parts) + [Marks(last)]
  {
    hide Marks;
  }

  lemma {:induction false} GapMarks(init: seq<UserLine>, separator: string)
    ensures Marks(Authored("")) == []
    ensures Marks(Authored(separator)) == Uniform(Sanitized(separator), false)
  {
    ProseMarks("");
    ProseMarks(Sanitized(separator));
  }

  lemma {:induction false} ConcatTwo<T>(front: seq<seq<T>>, a: seq<T>, b: seq<T>)
    ensures Concat(front + [a] + [b]) == Concat(front) + a + b
  {
    assert (front + [a] + [b])[..|front| + 1] == front + [a];
    assert (front + [a])[..|front|] == front;
  }

  lemma {:induction false} JoinedMarks(parts: seq<UserLine>, separator: string)
    requires forall k :: 0 <= k < |parts| ==> Valid(parts[k])
    ensures Valid(Joined(parts, separator))
    ensures Marks(Joined(parts, separator)) == Interleaved(Uniform(Sanitized(separator), false), AllMarks(parts))
  {
    hide *;
    SeparatedValid(parts, separator);
    ComposedMarks(Separated(parts, separator));
    SeparatedMarks(parts, separator);
    JoinedIs(parts, separator);
  }

  lemma {:induction false} JoinedIs(parts: seq<UserLine>, separator: string)
    ensures Joined(parts, separator) == Composed(Separated(parts, separator))
  {
    hide Separated, Composed;
  }

  /** Whatever way a line is built, it shows what it should and its ranges are sound. */
  lemma {:induction false} BuildMeans(e: Expr)
    ensures Valid(Build(e)) && Marks(Build(e)) == Meaning(e)
  {
    hide Marks, Uniform, Sanitized, Composed, Joined, Concat, Interleaved, Valid, Unbroken;
    match e
    case AuthoredText(text) =>
      IdentityIsValid(Sanitized(text));
      ProseMarks(Sanitized(text));
    case RawText(text) =>
      IdentityIsValid(Sanitized(text));
      IdentityMarks(Sanitized(text));
    case UnbrokenLine(line) =>
      BuildMeans(line);
      UnbrokenMarks(Build(line));
    case ComposedOf(parts) =>
      var built := PartsMean(e, parts);
      ComposedMarks(built);
    case JoinedBy(parts, separator) =>
      var built := PartsMean(e, parts);
      JoinedMarks(built, separator);
  }

  lemma {:induction false} UnbrokenMarks(line: UserLine)
    requires Valid(line)
    ensures Valid(Unbroken(line)) && Marks(Unbroken(line)) == Uniform(Chars(Marks(line)), true)
  {
    IdentityIsValid(TextOf(line));
    IdentityMarks(TextOf(line));
  }

  lemma {:induction false} PartsMean(e: Expr, parts: seq<Expr>) returns (built: seq<UserLine>)
    requires (e.ComposedOf? && parts == e.parts) || (e.JoinedBy? && parts == e.parts)
    ensures built == seq(|parts|, i requires 0 <= i < |parts| => Build(parts[i]))
    ensures forall k :: 0 <= k < |built| ==> Valid(built[k])
    ensures AllMarks(built) == seq(|parts|, i requires 0 <= i < |parts| => Meaning(parts[i]))
    decreases e, 0
  {
    hide Marks, Valid;
    built := seq(|parts|, i requires 0 <= i < |parts| => Build(parts[i]));
    forall i | 0 <= i < |parts| ensures Valid(built[i]) && Marks(built[i]) == Meaning(parts[i]) {
      BuildMeans(parts[i]);
    }
  }
}
