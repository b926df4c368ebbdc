/** Cutting a user line into words for wrapping: the iterator over its characters and its
    protected ranges yields the pieces of the line between unprotected white space
    (src/presentation.rs). */
module Wrapping {
  import opened Text
  import opened Presentation
  import opened ProtectedText

  /** Characters with the Unicode White_Space property. */
  predicate IsWhitespace(c: char)
  {
    var n := c as int;
    9 <= n <= 13 || n == 0x20 || n == 0x85 || n == 0xa0 || n == 0x1680 || 0x2000 <= n <= 0x200a ||
    n == 0x2028 || n == 0x2029 || n == 0x202f || n == 0x205f || n == 0x3000
  }

  /** Where the runs of white space begin and end. */
  lemma {:induction false} WhitespaceBounds()
    ensures IsWhitespace('\t') && IsWhitespace('\n') && IsWhitespace('\r') && IsWhitespace(' ')
    ensures !IsWhitespace('\U{8}') && !IsWhitespace('\U{E}') && !IsWhitespace('!') && !IsWhitespace('\U{200B}')
    ensures IsWhitespace('\U{85}') && IsWhitespace('\U{A0}') && IsWhitespace('\U{1680}') && IsWhitespace('\U{3000}')
    ensures IsWhitespace('\U{2000}') && IsWhitespace('\U{200A}') && !IsWhitespace('\U{1FFF}')
    ensures IsWhitespace('\U{2028}') && IsWhitespace('\U{2029}') && !IsWhitespace('\U{2027}')
    ensures IsWhitespace('\U{202F}') && IsWhitespace('\U{205F}') && !IsWhitespace('\U{FEFF}')
  {
  }

  predicate Breaks(mark: Mark)
  {
    IsWhitespace(mark.letter) && !mark.guarded
  }

  function NonEmpty(pieces: seq<seq<Mark>>): seq<string>
  {
    if pieces == [] then []
    else
      var last := pieces[|pieces| - 1];
      NonEmpty(pieces[..|pieces| - 1]) + if last == [] then [] else [Chars(last)]
  }

  /** The words of a line: its non-empty pieces between unprotected white space. */
  function Words(marks: seq<Mark>): seq<string>
  {
    NonEmpty(Split(Breaks, marks))
  }

  lemma {:induction false} NonEmptyConcat(a: seq<seq<Mark>>, b: seq<seq<Mark>>)
    ensures NonEmpty(a + b) == NonEmpty(a) + NonEmpty(b)
  {
    hide Chars;
    if b == [] {
      assert a + b == a;
    } else {
      assert (a + b)[..|a + b| - 1] == a + b[..|b| - 1];
      NonEmptyConcat(a, b[..|b| - 1]);
    }
  }

  lemma {:induction false} NonEmptyOne(piece: seq<Mark>)
    ensures NonEmpty([piece]) == if piece == [] then [] else [Chars(piece)]
  {
    assert [piece][..0] == [];
  }

  /** A stretch without breaks is one word, or none when empty. */
  lemma {:induction false} WordsFree(marks: seq<Mark>)
    requires Free(Breaks, marks)
    ensures Words(marks) == if marks == [] then [] else [Chars(marks)]
  {
    hide Breaks, Split, NonEmpty, Chars;
    SplitFree(Breaks, marks);
    NonEmptyOne(marks);
  }

  lemma {:induction false} WordsAtBreak(a: seq<Mark>, m: Mark, rest: seq<Mark>)
    requires Free(Breaks, a) && Breaks(m)
    ensures Words(a + [m] + rest) == (if a == [] then [] else [Chars(a)]) + Words(rest)
  {
    WordsFree(a);
    hide Split, NonEmpty, Chars, Breaks;
    SplitAtSeparator(Breaks, a, m, rest);
    NonEmptyConcat(Split(Breaks, a), Split(Breaks, rest));
  }

  // ---------------------------------------------------------- byte slices

  /** The number of characters that fit before a byte offset. */
  function CharAt(text: string, offset: nat): (i: nat)
    ensures i <= |text|
  {
    if text == "" || ByteLen(text) <= offset then |text| else CharAt(text[..|text| - 1], offset)
  }

  function SliceBytes(text: string, lo: nat, hi: nat): string
    requires CharAt(text, lo) <= CharAt(text, hi)
  {
    text[CharAt(text, lo)..CharAt(text, hi)]
  }

  lemma {:induction false} CharAtBoundary(text: string, i: nat)
    requires i <= |text|
    ensures CharAt(text, ByteLen(text[..i])) == i
  {
    if i < |text| {
      ByteLenMonotone(text, i, |text|);
      assert text[..|text|] == text && text[..|text| - 1][..i] == text[..i];
      CharAtBoundary(text[..|text| - 1], i);
    } else {
      assert text[..i] == text;
    }
  }

  lemma {:induction false} SliceIs(text: string, i: nat, j: nat)
    requires i <= j <= |text|
    ensures CharAt(text, ByteLen(text[..i])) <= CharAt(text, ByteLen(text[..j]))
    ensures SliceBytes(text, ByteLen(text[..i]), ByteLen(text[..j])) == text[i..j]
  {
    CharAtBoundary(text, i);
    CharAtBoundary(text, j);
  }

  // -------------------------------------------------------- the range cursor

  /** All ranges before the cursor end at or before `at`. */
  predicate Passed(ranges: seq<Range>, cursor: nat, at: nat)
  {
    cursor <= |ranges| && forall k :: 0 <= k < cursor ==> ranges[k].hi <= at
  }

  /** Once the cursor has passed all ranges that end by `at`, it alone tells whether a range
      holds `at`. */
  lemma {:induction false} CursorDecides(ranges: seq<Range>, cursor: nat, at: nat)
    requires Ascending(ranges) && Passed(ranges, cursor, at)
    requires cursor < |ranges| ==> at < ranges[cursor].hi
    ensures Covered(ranges, at) <==> cursor < |ranges| && ranges[cursor].lo <= at < ranges[cursor].hi
  {
    if Covered(ranges, at) {
      var k :| 0 <= k < |ranges| && ranges[k].lo <= at < ranges[k].hi;
    }
  }

  lemma {:induction false} MarkAt(text: string, ranges: seq<Range>, i: nat)
    requires i < |text|
    ensures Breaks(Marked(text, ranges)[i]) <==> IsWhitespace(text[i]) && !Covered(ranges, ByteLen(text[..i]))
  {
    hide Covered, ByteLen, IsWhitespace, Chars;
  }

  lemma {:induction false} CharsSlice(text: string, ranges: seq<Range>, i: nat, j: nat)
    requires i <= j <= |text|
    ensures Chars(Marked(text, ranges)[i..j]) == text[i..j]
  {
    assert Chars(Marked(text, ranges))[i..j] == text[i..j];
  }

  lemma {:induction false} NextOffset(text: string, i: nat)
    requires i < |text|
    ensures ByteLen(text[..i + 1]) == ByteLen(text[..i]) + Width(text[i])
  {
    assert text[..i + 1][..i] == text[..i];
  }

  // ------------------------------------------------------------ the iterator

  /** Where the iteration stands between two characters: the word under way starts at
      character `from`, and what is left from there is `todo`. */
  ghost predicate Under(marks: seq<Mark>, from: nat, consumed: nat, todo: seq<string>)
  {
    from <= consumed <= |marks| && Free(Breaks, marks[from..consumed]) && Words(marks[from..]) == todo
  }

  lemma {:induction false} UnderStart(marks: seq<Mark>, at: nat)
    requires at <= |marks|
    ensures Under(marks, at, at, Words(marks[at..]))
  {
    hide Words;
  }

  lemma {:induction false} UnderBreak(marks: seq<Mark>, from: nat, at: nat, todo: seq<string>)
    requires Under(marks, from, at, todo) && at < |marks| && Breaks(marks[at])
    ensures todo == if from == at then Words(marks[at + 1..]) else [Chars(marks[from..at])] + Words(marks[at + 1..])
  {
    hide Words, Breaks, Chars;
    assert [] + Words(marks[at + 1..]) == Words(marks[at + 1..]);
    WordsAtBreak(marks[from..at], marks[at], marks[at + 1..]);
    assert marks[from..at] + [marks[at]] + marks[at + 1..] == marks[from..];
  }

  lemma {:induction false} UnderMore(marks: seq<Mark>, from: nat, at: nat, todo: seq<string>)
    requires Under(marks, from, at, todo) && at < |marks| && !Breaks(marks[at])
    ensures Under(marks, from, at + 1, todo)
  {
    hide Words, Breaks;
    assert marks[from..at + 1] == marks[from..at] + [marks[at]];
  }

  lemma {:induction false} UnderEnd(marks: seq<Mark>, from: nat, todo: seq<string>)
    requires Under(marks, from, |marks|, todo)
    ensures todo == if from == |marks| then [] else [Chars(marks[from..])]
    ensures Words(marks[|marks|..]) == []
  {
    hide Words, Breaks, Chars;
    assert marks[from..|marks|] == marks[from..] && marks[|marks|..] == [];
    WordsFree(marks[from..]);
    WordsFree([]);
  }

  /** The words still to come after `consumed` characters. */
  ghost function Left(text: string, ranges: seq<Range>, consumed: nat): seq<string>
    requires consumed <= |text|
  {
    Words(Marked(text, ranges)[consumed..])
  }

  lemma {:induction false} UnderWay(text: string, ranges: seq<Range>, at: nat)
    requires at <= |text|
    ensures Under(Marked(text, ranges), at, at, Left(text, ranges, at))
  {
    hide Words, Marked;
    UnderStart(Marked(text, ranges), at);
  }

  lemma {:induction false} PassedLater(ranges: seq<Range>, cursor: nat, at: nat, later: nat)
    requires Passed(ranges, cursor, at) && at <= later
    ensures Passed(ranges, cursor, later)
  {
  }

  /** One character: a break ends the word under way, anything else lengthens it. */
  lemma {:induction false} StepUnder(text: string, ranges: seq<Range>, from: nat, i: nat, todo: seq<string>)
    requires from <= i < |text| && Under(Marked(text, ranges), from, i, todo)
    ensures CharAt(text, ByteLen(text[..from])) <= CharAt(text, ByteLen(text[..i]))
    ensures var word := SliceBytes(text, ByteLen(text[..from]), ByteLen(text[..i]));
            if IsWhitespace(text[i]) && !Covered(ranges, ByteLen(text[..i])) then
              if word == "" then Under(Marked(text, ranges), i + 1, i + 1, todo)
              else
                todo == [word] + Left(text, ranges, i + 1) && todo[0] == word && todo[1..] == Left(text, ranges, i + 1)
            else Under(Marked(text, ranges), from, i + 1, todo)
  {
    hide Words, Marked, Breaks, Covered, SliceBytes, CharAt, ByteLen, IsWhitespace, Chars, Under;
    var marks := Marked(text, ranges);
    SliceIs(text, from, i);
    MarkAt(text, ranges, i);
    if Breaks(marks[i]) {
      CharsSlice(text, ranges, from, i);
      UnderBreak(marks, from, i, todo);
      UnderWay(text, ranges, i + 1);
      assert ([text[from..i]] + Left(text, ranges, i + 1))[1..] == Left(text, ranges, i + 1);
    } else {
      UnderMore(marks, from, i, todo);
    }
  }

  lemma {:induction false} EndUnder(text: string, ranges: seq<Range>, from: nat, todo: seq<string>)
    requires from <= |text| && Under(Marked(text, ranges), from, |text|, todo)
    ensures text[..|text|] == text
    ensures CharAt(text, ByteLen(text[..from])) <= CharAt(text, ByteLen(text))
    ensures var word := SliceBytes(text, ByteLen(text[..from]), ByteLen(text));
            todo == if word == "" then [] else [word]
    ensures Left(text, ranges, |text|) == []
  {
    hide Words, Marked, Breaks, Covered, SliceBytes, CharAt, ByteLen, IsWhitespace, Chars, Under;
    assert text[..|text|] == text && Marked(text, ranges)[from..|text|] == Marked(text, ranges)[from..];
    SliceIs(text, from, |text|);
    CharsSlice(text, ranges, from, |text|);
    UnderEnd(Marked(text, ranges), from, todo);
  }

  class WordIterator {
    const text: string
    const ranges: seq<Range>
    var start: nat // byte offset of the word under way
    var consumed: nat // characters read so far
    var index: nat // byte offset of the next character
    var cursor: nat // the first range not yet passed

    ghost predicate Valid()
      reads this
    {
      && GoodRanges(text, ranges)
      && consumed <= |text| && index == ByteLen(text[..consumed]) && start == index
      && Passed(ranges, cursor, index)
    }

    ghost function Remaining(): seq<string>
      reads this
      requires Valid()
    {
      Left(text, ranges, consumed)
    }

    constructor (line: UserLine)
      requires Presentation.Valid(line)
      ensures Valid() && Remaining() == Words(Marks(line))
    {
      text, ranges := TextOf(line), Ranges(line);
      start, consumed, index, cursor := 0, 0, 0, 0;
      new;
      hide Words, GoodRanges, Covered, Marked;
      assert text[..0] == "";
      assert Marked(text, ranges)[0..] == Marked(text, ranges);
    }

    /** Moves the cursor past the ranges that end by `at`; whether a range holds `at`. */
    method Guarded(at: nat) returns (guarded: bool)
      requires Ascending(ranges) && Passed(ranges, cursor, at)
      modifies this`cursor
      ensures Passed(ranges, cursor, at)
      ensures guarded <==> Covered(ranges, at)
    {
      while cursor < |ranges| && ranges[cursor].hi <= at
        invariant Passed(ranges, cursor, at)
        decreases |ranges| - cursor
      {
        cursor := cursor + 1;
      }
      CursorDecides(ranges, cursor, at);
      guarded := cursor < |ranges| && ranges[cursor].lo <= at < ranges[cursor].hi;
    }

    /** Inside `Next`: the word under way starts at character `from`, and `todo` are the words
        from there on. */
    ghost predicate MidWord(from: nat, todo: seq<string>)
      reads this
    {
      && GoodRanges(text, ranges)
      && from <= consumed <= |text|
      && index == ByteLen(text[..consumed]) && start == ByteLen(text[..from])
      && Passed(ranges, cursor, index)
      && Under(Marked(text, ranges), from, consumed, todo)
    }

    /** Reads one character; a break yields the word under way, which may be empty. */
    method ReadChar(ghost from: nat, ghost todo: seq<string>) returns (cut: Option<string>)
      requires MidWord(from, todo) && consumed < |text|
      modifies this
      ensures consumed == old(consumed) + 1 <= |text|
      ensures match cut
              case None => MidWord(from, todo)
              case Some(word) =>
                if word == "" then MidWord(consumed, todo)
                else Valid() && todo != [] && todo[0] == word && todo[1..] == Remaining()
    {
      hide Words, Marked, Ascending, ByteLen, Covered, Passed, CharAt, SliceBytes, IsWhitespace, Under, Left, Width;
      assert Ascending(ranges);
      hide GoodRanges;
      ghost var i: nat := consumed;
      var at, ch := index, text[consumed];
      NextOffset(text, i);
      StepUnder(text, ranges, from, i, todo);
      consumed, index := consumed + 1, index + Width(ch);
      var guarded := Guarded(at);
      PassedLater(ranges, cursor, at, index);
      if IsWhitespace(ch) && !guarded {
        cut := Some(SliceBytes(text, start, at));
        start := at + Width(ch);
      } else {
        cut := None;
      }
    }

    /** The next word; `None` from the end of the line on, however often it is asked. */
    method Next() returns (word: Option<string>)
      requires Valid()
      modifies this
      ensures Valid()
      ensures old(Remaining()) == [] ==> word == None && Remaining() == []
      ensures old(Remaining()) != [] ==> word == Some(old(Remaining())[0]) && Remaining() == old(Remaining())[1..]
    {
      hide Words, Marked, GoodRanges, ByteLen, Passed, CharAt, SliceBytes, Under, Left;
      ghost var todo := Remaining();
      ghost var from: nat := consumed;
      UnderWay(text, ranges, consumed);
      while consumed < |text|
        invariant MidWord(from, todo)
        decreases |text| - consumed
      {
        word := ReadChar(from, todo);
        if word.Some? {
          if word.value != "" {
            return;
          }
          from := consumed;
        }
      }
      EndUnder(text, ranges, from, todo);
      word := Some(SliceBytes(text, start, ByteLen(text)));
      start := ByteLen(text);
      if word.value == "" {
        word := None;
      }
    }
  }

  method CollectWords(line: UserLine) returns (words: seq<string>)
    requires Valid(line)
    ensures words == Words(Marks(line))
  {
    hide Words, Marks, Marked, GoodRanges, Presentation.Valid;
    var it := new WordIterator(line);
    words := [];
    ghost var all := Words(Marks(line));
    var word := it.Next();
    while word.Some?
      invariant it.Valid() && fresh(it)
      invariant word.Some? ==> words + [word.value] + it.Remaining() == all
      invariant word.None? ==> words == all
      decreases |all| - |words|, word.Some?
    {
      words := words + [word.value];
      word := it.Next();
    }
  }

  // ------------------------------------------------- what wrapping cannot do

  /** Everything but the breaks. */
  function Kept(marks: seq<Mark>): string
  {
    if marks == [] then ""
    else
      var last := marks[|marks| - 1];
      Kept(marks[..|marks| - 1]) + if Breaks(last) then "" else [last.letter]
  }

  /** The words hold every character that is not a break, once and in order. */
  lemma {:induction false} WordsKeepText(marks: seq<Mark>)
    ensures Concat(Words(marks)) == Kept(marks)
  {
    hide Breaks, Chars;
    if marks == [] {
      NonEmptyOne([]);
    } else {
      var init, last := marks[..|marks| - 1], marks[|marks| - 1];
      var pieces := Split(Breaks, init);
      WordsKeepText(init);
      hide Concat, NonEmpty;
      if Breaks(last) {
        NonEmptyConcat(pieces, [[]]);
        NonEmptyOne([]);
        assert Words(marks) == Words(init);
      } else {
        LongerPiece(pieces, last);
      }
    }
  }

  lemma {:induction false} LongerPiece(pieces: seq<seq<Mark>>, m: Mark)
    requires pieces != []
    ensures Concat(NonEmpty(pieces[..|pieces| - 1] + [pieces[|pieces| - 1] + [m]])) ==
            Concat(NonEmpty(pieces)) + [m.letter]
  {
    var init, last := pieces[..|pieces| - 1], pieces[|pieces| - 1];
    hide *;
    CharsSnoc(last, m);
    assert pieces == init + [last];
    LastPiece(init, last);
    LastPiece(init, last + [m]);
    assert Concat(NonEmpty(init)) + (Chars(last) + [m.letter]) == Concat(NonEmpty(init)) + Chars(last) + [m.letter];
  }

  lemma {:induction false} LastPiece(init: seq<seq<Mark>>, last: seq<Mark>)
    ensures Concat(NonEmpty(init + [last])) == Concat(NonEmpty(init)) + Chars(last)
  {
    hide *;
    NonEmptyConcat(init, [last]);
    NonEmptyOne(last);
    ConcatSnoc(NonEmpty(init), Chars(last));
    NoChars(last);
    assert NonEmpty(init) + [] == NonEmpty(init);
  }

  lemma {:induction false} NoChars(marks: seq<Mark>)
    ensures marks == [] ==> Chars(marks) == ""
  {
  }

  lemma {:induction false} CharsSnoc(marks: seq<Mark>, m: Mark)
    ensures Chars(marks + [m]) == Chars(marks) + [m.letter]
    ensures marks == [] ==> Chars(marks) == ""
  {
  }

  lemma {:induction false} ConcatSnoc<T>(parts: seq<seq<T>>, last: seq<T>)
    ensures Concat(parts + [last]) == Concat(parts) + last
  {
    assert (parts + [last])[..|parts|] == parts;
  }

  /** A run of protected characters lies within one word. */
  lemma {:induction false} RunStaysWhole(marks: seq<Mark>, i: nat, j: nat) returns (n: nat, before: string,
                                         after: string)
    requires i < j <= |marks|
    requires forall k :: i <= k < j ==> marks[k].guarded
    ensures n < |Words(marks)| && Words(marks)[n] == before + Chars(marks[i..j]) + after
  {
    var left, run, right := marks[..i], marks[i..j], marks[j..];
    assert Free(Breaks, run) by {
      assert forall k :: 0 <= k < |run| ==> run[k] == marks[i + k];
    }
    assert marks == left + run + right;
    hide Breaks, NonEmpty, Split;
    var p, q := Split(Breaks, left), Split(Breaks, right);
    SplitConcat(Breaks, left, run);
    SplitConcat(Breaks, left + run, right);
    SplitFree(Breaks, run);
    GlueMiddle(p, run, q);
    var whole := p[|p| - 1] + run + q[0];
    NonEmptyConcat(p[..|p| - 1], [whole]);
    NonEmptyConcat(p[..|p| - 1] + [whole], q[1..]);
    NonEmptyOne(whole);
    n, before, after := |NonEmpty(p[..|p| - 1])|, Chars(p[|p| - 1]), Chars(q[0]);
    CharsThree(p[|p| - 1], run, q[0]);
  }

  lemma {:induction false} GlueMiddle<T>(p: seq<seq<T>>, run: seq<T>, q: seq<seq<T>>)
    requires p != [] && q != []
    ensures Glue(Glue(p, [run]), q) == p[..|p| - 1] + [p[|p| - 1] + run + q[0]] + q[1..]
  {
  }

  lemma {:induction false} CharsThree(a: seq<Mark>, b: seq<Mark>, c: seq<Mark>)
    ensures Chars(a + b + c) == Chars(a) + Chars(b) + Chars(c)
  {
  }

  /** No protected range is ever split: its text stands inside one word. */
  lemma {:induction false} RangeStaysWhole(line: UserLine, k: nat) returns (n: nat, before: string, after: string)
    requires Valid(line) && k < |Ranges(line)|
    ensures CharAt(TextOf(line), Ranges(line)[k].lo) <= CharAt(TextOf(line), Ranges(line)[k].hi)
    ensures n < |Words(Marks(line))|
    ensures Words(Marks(line))[n] == before + SliceBytes(TextOf(line), Ranges(line)[k].lo, Ranges(line)[k].hi) + after
  {
    var text, ranges := TextOf(line), Ranges(line);
    var i, j := RangeChars(text, ranges, k);
    hide Words, SliceBytes, CharAt, ByteLen, Presentation.Valid, GoodRanges, Ranges, TextOf, Marked;
    SliceIs(text, i, j);
    CharsSlice(text, ranges, i, j);
    n, before, after := RunStaysWhole(Marks(line), i, j);
  }

  lemma {:induction false} RangeChars(text: string, ranges: seq<Range>, k: nat) returns (i: nat, j: nat)
    requires GoodRanges(text, ranges) && k < |ranges|
    ensures i < j <= |text| && ByteLen(text[..i]) == ranges[k].lo && ByteLen(text[..j]) == ranges[k].hi
    ensures forall c :: i <= c < j ==> Marked(text, ranges)[c].guarded
  {
    assert GoodRange(text, ranges[k]);
    i :| 0 <= i <= |text| && ByteLen(text[..i]) == ranges[k].lo;
    j :| 0 <= j <= |text| && ByteLen(text[..j]) == ranges[k].hi;
    if j <= i {
      ByteLenMonotone(text, j, i);
      assert false;
    }
    forall c | i <= c < j ensures Marked(text, ranges)[c].guarded {
      ByteLenMonotone(text, i, c);
      ByteLenMonotone(text, c, j);
      assert ranges[k].lo <= ByteLen(text[..c]) < ranges[k].hi;
    }
  }
}
