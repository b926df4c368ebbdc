/** What editing a marked block promises: reading back what was written, removing exactly
    what was added, and writing twice like writing once, with the exact inputs on which
    each holds (gat-core/src/managed_block.rs). */
module ManagedBlockLaws {
  import opened Text
  import opened ManagedBlock

  /** Markers that can stand alone on a line under either line ending. */
  predicate Proper(m: Markers)
  {
    && !Degenerate(m)
    && '\n' !in m.begin && m.begin[|m.begin| - 1] != '\r'
    && '\n' !in m.end && m.end[|m.end| - 1] != '\r'
  }

  /** A body as the callers build it: LF line ends only, the last line ended too. */
  predicate LfBody(body: string)
  {
    Terminated(body) && forall i :: 0 <= i < |body| - 1 && body[i] == '\r' ==> body[i + 1] != '\n'
  }

  predicate HasMarkerLine(m: Markers, body: string)
  {
    m.begin in Contents(Lines(body)) || m.end in Contents(Lines(body))
  }

  /** Terminating the last line does not complete a pair: a guard on the append branch. */
  predicate AppendIsClear(m: Markers, existing: string)
  {
    MarkerOffsets(m, existing).Some? || MarkerOffsets(m, AppendBase(existing)).None?
  }

  /** The block written does not change what line ending is detected. */
  predicate EolSettled(m: Markers, existing: string)
  {
    MarkerOffsets(m, existing).Some? || '\n' in existing || existing == "" || existing[|existing| - 1] != '\r'
  }

  // --------------------------------------------------- lines of an edit

  /** A text and a line break are one line, and strip back to the text. */
  lemma {:induction false} PlainLine(text: string, eol: Eol)
    requires '\n' !in text && (text != "" ==> text[|text| - 1] != '\r')
    ensures Lines(text + EolText(eol)) == [text + EolText(eol)]
    ensures StripTerminator(text + EolText(eol)) == text
    ensures Terminated(text + EolText(eol))
  {
    StripBreakOf(text, eol);
    hide StripTerminator;
    var init := if eol == Lf then text else text + "\r";
    SingleLine(init, '\n');
    assert init + ['\n'] == text + EolText(eol);
  }

  lemma {:induction false} FirstLineOfBody(body: string, i: nat)
    requires LfBody(body) && i < |body| && body[i] == '\n' && '\n' !in body[..i]
    ensures LfBody(body[i + 1..])
    ensures i > 0 ==> body[..i][i - 1] != '\r'
    ensures body == body[..i] + EolText(Lf) + body[i + 1..]
  {
    assert body[..i] + EolText(Lf) + body[i + 1..] == body[..i] + [body[i]] + body[i + 1..];
  }

  /** Changing a body's line ends changes none of its lines' contents. */
  lemma {:induction false} BodyContents(body: string, eol: Eol)
    requires LfBody(body)
    ensures Terminated(ToEol(body, eol))
    ensures Contents(Lines(ToEol(body, eol))) == Contents(Lines(body))
    decreases |body|
  {
    if body != "" {
      assert body[|body| - 1] in body;
      var i := IndexOf(body, '\n').value;
      FirstLineOfBody(body, i);
      BodyContents(body[i + 1..], eol);
      ToEolLine(body, i, eol);
      SameFirstLine(body[..i], body[i + 1..], ToEol(body[i + 1..], eol), eol);
    }
  }

  lemma {:induction false} SameFirstLine(text: string, rest: string, restEol: string, eol: Eol)
    requires '\n' !in text && (text != "" ==> text[|text| - 1] != '\r')
    requires Terminated(restEol) && Contents(Lines(restEol)) == Contents(Lines(rest))
    ensures Contents(Lines(text + EolText(eol) + restEol)) == Contents(Lines(text + EolText(Lf) + rest))
    ensures Terminated(text + EolText(eol) + restEol)
  {
    FirstLineContents(text, rest, Lf);
    FirstLineContents(text, restEol, eol);
  }

  lemma {:induction false} FirstLineContents(text: string, rest: string, eol: Eol)
    requires '\n' !in text && (text != "" ==> text[|text| - 1] != '\r')
    ensures Contents(Lines(text + EolText(eol) + rest)) == [text] + Contents(Lines(rest))
    ensures Terminated(rest) ==> Terminated(text + EolText(eol) + rest)
  {
    PlainLine(text, eol);
    LinesConcat(text + EolText(eol), rest);
    ContentsConcat([text + EolText(eol)], Lines(rest));
  }

  /** The lines of a text with a block in it. */
  ghost function BlockLines(m: Markers, body: string, eol: Eol): seq<string>
  {
    [m.begin + EolText(eol)] + Lines(ToEol(body, eol)) + [m.end + EolText(eol)]
  }

  lemma {:induction false} LinesOfBlock(m: Markers, body: string, eol: Eol)
    requires Proper(m) && LfBody(body)
    ensures Terminated(Block(m, body, eol)) && Lines(Block(m, body, eol)) == BlockLines(m, body, eol)
  {
    hide Lines, ToEol, Contents, StripTerminator, LfBody;
    var opening, inner, closing := m.begin + EolText(eol), ToEol(body, eol), m.end + EolText(eol);
    PlainLine(m.begin, eol);
    PlainLine(m.end, eol);
    BodyContents(body, eol);
    LinesConcat(opening, inner);
    LinesConcat(opening + inner, closing);
  }

  lemma {:induction false} LinesAround(before: string, block: string, after: string)
    requires Terminated(before) && Terminated(block)
    ensures Lines(before + block + after) == Lines(before) + Lines(block) + Lines(after)
  {
    hide Lines;
    LinesConcat(before, block);
    LinesConcat(before + block, after);
  }

  lemma {:induction false} BlockContents(m: Markers, body: string, eol: Eol)
    requires Proper(m) && LfBody(body)
    ensures Contents(BlockLines(m, body, eol)) == [m.begin] + Contents(Lines(body)) + [m.end]
  {
    PlainLine(m.begin, eol);
    PlainLine(m.end, eol);
    BodyContents(body, eol);
    ThreeContents(m.begin + EolText(eol), Lines(ToEol(body, eol)), m.end + EolText(eol));
  }

  lemma {:induction false} ThreeContents(first: string, inner: seq<string>, last: string)
    ensures Contents([first] + inner + [last]) == [StripTerminator(first)] + Contents(inner) + [StripTerminator(last)]
  {
    ContentsConcat([first], inner);
    ContentsConcat([first] + inner, [last]);
    assert Contents([first]) == [StripTerminator(first)] by { assert [first][..0] == []; }
    assert Contents([last]) == [StripTerminator(last)] by { assert [last][..0] == []; }
  }

  // ------------------------------------------------- scanning over a block

  /** From an open state, the body of a block leaves its opening marker pending exactly when
      it has no marker line. */
  lemma {:induction false} ScanInner(m: Markers, before: seq<string>, inner: seq<string>)
    requires !Degenerate(m) && Scan(m, before).Open?
    ensures match Scan(m, before + [m.begin] + inner)
            case Open(None) => false
            case Open(Some(b)) => |before| <= b < |before| + 1 + |inner| &&
                                  (b == |before| <==> m.begin !in inner && m.end !in inner)
            case Found(b, e) => |before| <= b < e < |before| + 1 + |inner| && (m.begin in inner || m.end in inner)
  {
    var head := before + [m.begin];
    if inner == [] {
      assert head + inner == head && head[..|head| - 1] == before;
    } else {
      var short, last := inner[..|inner| - 1], inner[|inner| - 1];
      assert (head + inner)[..|head + inner| - 1] == head + short;
      assert inner == short + [last];
      ScanInner(m, before, short);
    }
  }

  lemma {:induction false} ScanBlock(m: Markers, before: seq<string>, inner: seq<string>, after: seq<string>)
    requires !Degenerate(m) && Scan(m, before).Open?
    ensures match Scan(m, before + ([m.begin] + inner + [m.end]) + after)
            case Open(_) => false
            case Found(b, e) =>
              && |before| <= b < e <= |before| + 1 + |inner|
              && (b == |before| && e == |before| + 1 + |inner| <==> m.begin !in inner && m.end !in inner)
  {
    ScanInner(m, before, inner);
    var head := before + [m.begin] + inner;
    var closed := head + [m.end];
    assert closed[..|head|] == head;
    var all := before + ([m.begin] + inner + [m.end]) + after;
    assert all[..|closed|] == closed;
    ScanStops(m, all, |closed|);
  }

  // --------------------------------------------------- around the block

  lemma {:induction false} FlatTerminated(ls: seq<string>)
    requires ls != [] ==> ls[|ls| - 1] != "" && Terminated(ls[|ls| - 1])
    ensures Terminated(Flat(ls))
  {
  }

  lemma {:induction false} LinesOfFlat(ls: seq<string>)
    requires WellCut(ls)
    ensures Lines(Flat(ls)) == ls
  {
    if ls != [] {
      var init, last := ls[..|ls| - 1], ls[|ls| - 1];
      FlatTerminated(init);
      LinesOfFlat(init);
      AddLine(Flat(init), init, last);
    }
  }

  lemma {:induction false} AddLine(text: string, ls: seq<string>, line: string)
    requires Terminated(text) && Lines(text) == ls
    requires line != "" && '\n' !in line[..|line| - 1]
    ensures Lines(text + line) == ls + [line]
  {
    SingleLine(line[..|line| - 1], line[|line| - 1]);
    assert line[..|line| - 1] + [line[|line| - 1]] == line;
    LinesConcat(text, line);
  }

  /** What `Around` and `ExtractBody` are, in lines, once a pair is found. */
  lemma {:induction false} AroundLines(m: Markers, existing: string, b: nat, e: nat)
    requires Pair(m, existing) == Found(b, e)
    ensures b < e < |Lines(existing)|
    ensures Around(m, existing) == (Flat(Lines(existing)[..b]), Flat(Lines(existing)[e + 1..]))
    ensures ExtractBody(m, existing) == Some(Flat(Lines(existing)[b + 1..e]))
  {
    hide Lines, Flat, StripLeadingTerminator, StripTerminator;
    PairShape(m, existing);
    OffsetsAreLines(m, existing, b, e, |Flat(Lines(existing)[..b])|, |Flat(Lines(existing)[..e])|);
  }

  /** The part kept in front of a block is whole lines with no pair in them. */
  lemma {:induction false} FrontIsClear(m: Markers, existing: string)
    requires AppendIsClear(m, existing) && !Degenerate(m)
    ensures Terminated(Around(m, existing).0)
    ensures Scan(m, Contents(Lines(Around(m, existing).0))).Open?
  {
    match Pair(m, existing)
    case Open(_) =>
    case Found(b, e) =>
      AroundLines(m, existing, b, e);
      LinesShape(existing);
      ClearBefore(m, Lines(existing), b);
  }

  lemma {:induction false} ClearBefore(m: Markers, ls: seq<string>, b: nat)
    requires WellCut(ls) && b < |ls|
    requires Scan(m, Contents(ls)).Found? && Scan(m, Contents(ls)).start == b
    ensures Terminated(Flat(ls[..b])) && Scan(m, Contents(Lines(Flat(ls[..b])))).Open?
  {
    LinesOfFlat(ls[..b]);
    FlatTerminated(ls[..b]);
    ScanShape(m, Contents(ls));
    ContentsAt(ls, b);
  }

  /** An edit finds its own block again, or a shorter stretch of it when the body has marker
      lines of its own. */
  lemma {:induction false} BlockFound(m: Markers, front: string, body: string, eol: Eol, after: string, out: string)
    requires Proper(m) && LfBody(body) && Terminated(front) && Scan(m, Contents(Lines(front))).Open?
    requires out == front + Block(m, body, eol) + after
    ensures FoundInBlock(Pair(m, out), |Lines(front)|, |BlockLines(m, body, eol)|, !HasMarkerLine(m, body))
  {
    var lf, lk, la := Lines(front), BlockLines(m, body, eol), Lines(after);
    LinesOfBlock(m, body, eol);
    LinesAround(front, Block(m, body, eol), after);
    BlockContents(m, body, eol);
    ContentsConcat(lf, lk);
    ContentsConcat(lf + lk, la);
    BodyContents(body, eol);
    ScanBlock(m, Contents(lf), Contents(Lines(body)), Contents(la));
  }

  /** A pair found within the `size` lines from line `from` on: all of them exactly when
      `whole`. */
  predicate FoundInBlock(found: Scanned, from: nat, size: nat, whole: bool)
  {
    match found
    case Open(_) => false
    case Found(b, e) => from <= b < e < from + size && (b == from && e == from + size - 1 <==> whole)
  }

  lemma {:induction false} CleanBlockLines(m: Markers, front: string, body: string, eol: Eol, after: string,
                                           out: string)
    requires Proper(m) && LfBody(body) && Terminated(front) && Scan(m, Contents(Lines(front))).Open?
    requires !HasMarkerLine(m, body) && out == front + Block(m, body, eol) + after
    ensures Pair(m, out) == Found(|Lines(front)|, |Lines(front)| + 1 + |Lines(ToEol(body, eol))|)
    ensures |Lines(front)| + 1 + |Lines(ToEol(body, eol))| < |Lines(out)|
    ensures Lines(out)[..|Lines(front)|] == Lines(front)
    ensures Lines(out)[|Lines(front)| + 1..|Lines(front)| + 1 + |Lines(ToEol(body, eol))|] == Lines(ToEol(body, eol))
    ensures Lines(out)[|Lines(front)| + 1 + |Lines(ToEol(body, eol))| + 1..] == Lines(after)
  {
    hide Scan, Lines, Flat, Contents, ToEol;
    BlockFound(m, front, body, eol, after, out);
    LinesOfBlock(m, body, eol);
    LinesAround(front, Block(m, body, eol), after);
    ThreeParts(Lines(front), m.begin + EolText(eol), Lines(ToEol(body, eol)), m.end + EolText(eol),
               Lines(after), Lines(out));
  }

  lemma {:induction false} LinesFlat(text: string)
    ensures Flat(Lines(text)) == text
  {
    LinesShape(text);
  }

  /** Around a block with a clean body stands the text it was written into. */
  lemma {:induction false} CleanBlockAround(m: Markers, front: string, body: string, eol: Eol, after: string,
                                            out: string)
    requires Proper(m) && LfBody(body) && Terminated(front) && Scan(m, Contents(Lines(front))).Open?
    requires !HasMarkerLine(m, body) && out == front + Block(m, body, eol) + after
    ensures MarkerOffsets(m, out).Some?
    ensures Around(m, out) == (front, after)
    ensures ExtractBody(m, out) == Some(ToEol(body, eol))
  {
    hide Scan, Lines, Flat, Contents, ToEol;
    CleanBlockLines(m, front, body, eol, after, out);
    AroundLines(m, out, |Lines(front)|, |Lines(front)| + 1 + |Lines(ToEol(body, eol))|);
    LinesFlat(front);
    LinesFlat(after);
    LinesFlat(ToEol(body, eol));
  }

  lemma {:induction false} ThreeParts(a: seq<string>, first: string, b: seq<string>, last: string, c: seq<string>,
                                      all: seq<string>)
    requires all == a + ([first] + b + [last]) + c
    ensures all[..|a|] == a
    ensures all[|a| + 1..|a| + 1 + |b|] == b
    ensures all[|a| + 1 + |b| + 1..] == c
  {
  }

  // ------------------------------------------------------- line endings

  lemma {:induction false} DetectFirstBreak(text: string, eol: Eol, rest: string)
    requires '\n' !in text && (text != "" ==> text[|text| - 1] != '\r')
    ensures Detect(text + EolText(eol) + rest) == eol
  {
    var line := text + EolText(eol);
    var i := |line| - 1;
    assert line[i] == '\n';
    assert line[..i] == if eol == Lf then text else text + "\r";
    IndexOfIs(line, '\n', i);
    DetectOfConcat(line, rest);
  }

  /** Writing the block keeps the line ending, except that a file of one unfinished line
      ending in a carriage return turns from LF to CRLF. */
  lemma {:induction false} DetectAfterUpsert(m: Markers, existing: string, body: string)
    requires Proper(m)
    ensures if EolSettled(m, existing) then Detect(Upsert(m, existing, body)) == Detect(existing)
            else Detect(existing) == Lf && Detect(Upsert(m, existing, body)) == Crlf
  {
    hide MarkerOffsets, Detect, EolSettled;
    var (front, after) := Around(m, existing);
    var eol := Detect(existing);
    var block := Block(m, body, eol);
    AroundIsOutside(m, existing);
    assert front + block + after == front + (block + after);
    if '\n' in front {
      DetectOfConcat(front, block + after);
      DetectOfFront(m, existing, front);
    } else {
      assert front == "";
      var rest := ToEol(body, eol) + (m.end + EolText(eol)) + after;
      assert front + block + after == m.begin + EolText(eol) + rest;
      DetectFirstBreak(m.begin, eol, rest);
      EmptyFrontSettled(m, existing);
    }
  }

  lemma {:induction false} EmptyFrontSettled(m: Markers, existing: string)
    requires Around(m, existing).0 == ""
    ensures EolSettled(m, existing)
  {
  }

  lemma {:induction false} DetectOfFront(m: Markers, existing: string, front: string)
    requires front == Around(m, existing).0 && '\n' in front
    requires MarkerOffsets(m, existing).Some? ==> front <= existing
    ensures if EolSettled(m, existing) then Detect(front) == Detect(existing)
            else Detect(existing) == Lf && Detect(front) == Crlf
  {
    hide MarkerOffsets, StripLeadingTerminator, Detect;
    if MarkerOffsets(m, existing).Some? {
      assert existing == front + existing[|front|..];
      DetectOfConcat(front, existing[|front|..]);
    } else if '\n' in existing {
      DetectOfConcat(existing, EolText(Detect(existing)));
    } else {
      FirstBreakAppended(existing);
    }
  }

  lemma {:induction false} FirstBreakAppended(existing: string)
    requires '\n' !in existing && existing != ""
    ensures Detect(existing) == Lf
    ensures Detect(existing + "\n") == if existing[|existing| - 1] == '\r' then Crlf else Lf
  {
    var line := existing + "\n";
    assert line[..|existing|] == existing;
    IndexOfIs(line, '\n', |existing|);
  }

  // ------------------------------------------------------------- the laws

  /** The text kept is a prefix and a suffix of the file, cut at whole lines. */
  lemma {:induction false} AroundIsOutside(m: Markers, existing: string)
    ensures Terminated(Around(m, existing).0)
    ensures match MarkerOffsets(m, existing)
            case None => Around(m, existing) == (AppendBase(existing), "")
            case Some(_) =>
              && Around(m, existing).0 <= existing
              && |Around(m, existing).0| + |Around(m, existing).1| <= |existing|
              && existing[|existing| - |Around(m, existing).1|..] == Around(m, existing).1
  {
    hide Lines, Flat, Contents, Scan, StripLeadingTerminator, StripTerminator;
    match Pair(m, existing)
    case Open(_) =>
      assert MarkerOffsets(m, existing) == None;
    case Found(b, e) =>
      PairInText(m, existing, b, e);
  }

  lemma {:induction false} PairInText(m: Markers, existing: string, b: nat, e: nat)
    requires Pair(m, existing) == Found(b, e)
    ensures Terminated(Around(m, existing).0)
    ensures Around(m, existing).0 <= existing
    ensures |Around(m, existing).0| + |Around(m, existing).1| <= |existing|
    ensures existing[|existing| - |Around(m, existing).1|..] == Around(m, existing).1
    ensures b < e < |Lines(existing)|
    ensures existing == Around(m, existing).0 + Flat(Lines(existing)[b..e + 1]) + Around(m, existing).1
    ensures m.begin <= Flat(Lines(existing)[b..e + 1])
  {
    hide Lines, Flat, Around, Pair, StripTerminator;
    var ls := Lines(existing);
    AroundLines(m, existing, b, e);
    LinesShape(existing);
    PairShape(m, existing);
    FlatTerminated(ls[..b]);
    FlatPrefixSuffix(ls, b, e + 1);
    StartsWithMarker(ls, b, e, m.begin);
  }

  lemma {:induction false} FlatPrefixSuffix(ls: seq<string>, b: nat, e: nat)
    requires b <= e <= |ls|
    ensures Flat(ls) == Flat(ls[..b]) + Flat(ls[b..e]) + Flat(ls[e..])
    ensures Flat(ls[..b]) <= Flat(ls) && |Flat(ls[..b])| + |Flat(ls[e..])| <= |Flat(ls)|
    ensures Flat(ls)[|Flat(ls)| - |Flat(ls[e..])|..] == Flat(ls[e..])
  {
    hide Flat;
    assert ls[..b] + ls[b..e] == ls[..e];
    assert ls[..e] + ls[e..] == ls;
    FlatConcat(ls[..b], ls[b..e]);
    FlatConcat(ls[..e], ls[e..]);
  }

  /** Text outside the block is unchanged: an edit replaces one stretch that starts with the
      opening marker, or appends. */
  lemma {:induction false} EditsOnlyTheBlock(m: Markers, existing: string, body: string) returns (was: string)
    ensures var (front, after) := Around(m, existing);
            && Upsert(m, existing, body) == front + Block(m, body, Detect(existing)) + after
            && (MarkerOffsets(m, existing).Some? ==>
                  existing == front + was + after && m.begin <= was && Remove(m, existing) == Some(front + after))
            && (MarkerOffsets(m, existing).None? ==>
                  existing <= front && after == "" && Remove(m, existing) == None)
  {
    hide Lines, Flat, Contents, Scan, StripLeadingTerminator, StripTerminator, Block;
    AroundIsOutside(m, existing);
    was := "";
    if MarkerOffsets(m, existing).Some? {
      var Found(b, e) := Pair(m, existing);
      PairInText(m, existing, b, e);
      was := Flat(Lines(existing)[b..e + 1]);
    }
  }

  lemma {:induction false} StartsWithMarker(ls: seq<string>, b: nat, e: nat, marker: string)
    requires b < e < |ls| && WellCut(ls) && StripTerminator(ls[b]) == marker
    ensures marker <= Flat(ls[b..e + 1])
  {
    var part := ls[b..e + 1];
    assert part == [ls[b]] + part[1..];
    FlatConcat([ls[b]], part[1..]);
    assert Flat([ls[b]]) == ls[b] by { assert [ls[b]][..0] == []; }
    MarkerLineForm(ls[b], marker, "");
  }

  /** A pair found in whole lines stays the first pair when more text follows. */
  lemma {:induction false} PairStays(m: Markers, base: string, tail: string)
    requires Terminated(base) && Pair(m, base).Found?
    ensures Pair(m, base + tail) == Pair(m, base)
    ensures Lines(base + tail) == Lines(base) + Lines(tail)
  {
    LinesConcat(base, tail);
    ContentsConcat(Lines(base), Lines(tail));
    var all := Contents(Lines(base)) + Contents(Lines(tail));
    assert all[..|Lines(base)|] == Contents(Lines(base));
    hide Lines, Contents, Scan;
    ScanStops(m, all, |Lines(base)|);
  }

  /** The line ending is CRLF exactly when the first line break has a carriage return before it. */
  lemma {:induction false} DetectIsFirstBreak(text: string)
    ensures Detect(text) == Crlf <==>
            exists i :: 0 < i < |text| && text[i] == '\n' && '\n' !in text[..i] && text[i - 1] == '\r'
  {
    forall i | 0 < i < |text| && text[i] == '\n' && '\n' !in text[..i] ensures IndexOf(text, '\n') == Some(i) {
      IndexOfIs(text, '\n', i);
    }
  }

  /** A file without a line break holds no block; what is written behind it, or into a new file,
      has LF line ends, and the body as given. */
  lemma {:induction false} NewFileGetsLf(m: Markers, existing: string, body: string)
    requires '\n' !in existing
    ensures Upsert(m, existing, body) ==
            (if existing == "" then "" else existing + "\n") + m.begin + "\n" + body + m.end + "\n"
  {
    NoPairInOneLine(m, existing);
    ToEolLf(body);
    assert Detect(existing) == Lf by { DetectIsFirstBreak(existing); }
    hide MarkerOffsets, Detect;
    assert existing != "" ==> !Terminated(existing);
    Regroup(AppendBase(existing), m.begin, "\n", body, m.end, "");
    var text := AppendBase(existing) + m.begin + "\n" + body + m.end + "\n";
    assert text + "" == text;
  }

  lemma {:induction false} NoPairInOneLine(m: Markers, existing: string)
    requires '\n' !in existing
    ensures MarkerOffsets(m, existing) == None
  {
    OneLine(existing);
    PairShape(m, existing);
    hide Lines, Pair;
  }

  lemma {:induction false} OneLine(text: string)
    requires '\n' !in text
    ensures Lines(text) == if text == "" then [] else [text]
  {
    if text != "" {
      var init, last := text[..|text| - 1], text[|text| - 1];
      OneLine(init);
      assert text == init + [last];
      assert init != "" ==> init[|init| - 1] in text;
    }
  }

  /** What was written is what is read back, in the file's own line ending; otherwise the
      old lines that the appended break turned into a block are read instead. */
  lemma {:induction false} ExtractAfterUpsert(m: Markers, existing: string, body: string)
    requires Proper(m) && LfBody(body) && !HasMarkerLine(m, body)
    ensures ExtractBody(m, Upsert(m, existing, body)) ==
            if AppendIsClear(m, existing) then Some(ToEol(body, Detect(existing)))
            else ExtractBody(m, AppendBase(existing))
    ensures ExtractBody(m, Upsert(m, existing, body)) == Some(ToEol(body, Detect(existing))) <==>
            AppendIsClear(m, existing) || ExtractBody(m, AppendBase(existing)) == Some(ToEol(body, Detect(existing)))
  {
    var (front, after) := Around(m, existing);
    var out := Upsert(m, existing, body);
    if AppendIsClear(m, existing) {
      FrontIsClear(m, existing);
      hide Around, Block, Scan, Lines, Contents;
      CleanBlockAround(m, front, body, Detect(existing), after, out);
    } else {
      StaleBlock(m, existing, body);
    }
  }

  lemma {:induction false} StaleBlock(m: Markers, existing: string, body: string)
    requires !AppendIsClear(m, existing)
    ensures var base := AppendBase(existing);
            && Pair(m, base).Found?
            && Upsert(m, existing, body) == base + Block(m, body, Detect(existing))
            && ExtractBody(m, Upsert(m, existing, body)) == ExtractBody(m, base)
            && Around(m, Upsert(m, existing, body)) ==
                 (Around(m, base).0, Around(m, base).1 + Block(m, body, Detect(existing)))
  {
    var base, block := AppendBase(existing), Block(m, body, Detect(existing));
    assert base + block + "" == base + block;
    var Found(b, e) := Pair(m, base);
    hide Block, Lines, Contents, Scan, Flat, ExtractBody;
    PairStays(m, base, block);
    AroundLines(m, base, b, e);
    AroundLines(m, base + block, b, e);
    SplitTail(Lines(base), Lines(block), b, e);
    FlatConcat(Lines(base)[e + 1..], Lines(block));
    LinesFlat(block);
  }

  lemma {:induction false} SplitTail(a: seq<string>, c: seq<string>, b: nat, e: nat)
    requires b < e < |a|
    ensures (a + c)[..b] == a[..b] && (a + c)[b + 1..e] == a[b + 1..e] && (a + c)[e + 1..] == a[e + 1..] + c
  {
  }

  // ------------------------------------------ where the append branch errs

  /** An unfinished last line, and the same file with that line ended. */
  lemma {:induction false} UnfinishedLine(existing: string, eol: Eol) returns (init: seq<string>, last: string)
    requires !Terminated(existing)
    ensures last != "" && last[|last| - 1] == existing[|existing| - 1]
    ensures '\n' !in last
    ensures init != [] ==> '\n' in existing
    ensures Lines(existing) == init + [last]
    ensures Lines(existing + EolText(eol)) == init + [last + EolText(eol)]
  {
    hide *;
    init, last := LastPart(existing);
    EndedLine(last, eol);
    LinesOfFlat(init);
    AddLine(Flat(init), init, last + EolText(eol));
    assert Flat(init) + (last + EolText(eol)) == existing + EolText(eol);
    BreakInside(init);
    assert forall c :: c in Flat(init) ==> c in existing;
  }

  lemma {:induction false} LastPart(existing: string) returns (init: seq<string>, last: string)
    requires !Terminated(existing)
    ensures Lines(existing) == init + [last] && existing == Flat(init) + last
    ensures WellCut(init) && Terminated(Flat(init)) &&
            (init != [] ==> init[|init| - 1] != "" && Terminated(init[|init| - 1]))
    ensures last != "" && last[|last| - 1] == existing[|existing| - 1] && '\n' !in last
  {
    var ls := Lines(existing);
    LinesShape(existing);
    LastLine(existing);
    SomeText(existing);
    hide *;
    init, last := ls[..|ls| - 1], ls[|ls| - 1];
    LastCut(ls, init, last);
    FlatConcat(init, [last]);
    FlatOne(last);
    FlatTerminated(init);
  }

  lemma {:induction false} SomeText(existing: string)
    requires !Terminated(existing)
    ensures existing != ""
  {
  }

  lemma {:induction false} LastCut(ls: seq<string>, init: seq<string>, last: string)
    requires WellCut(ls) && ls != [] && init == ls[..|ls| - 1] && last == ls[|ls| - 1] && !Terminated(last)
    ensures ls == init + [last] && WellCut(init) && last != "" && '\n' !in last
    ensures init != [] ==> init[|init| - 1] != "" && Terminated(init[|init| - 1])
  {
    assert last == last[..|last| - 1] + [last[|last| - 1]];
    assert forall i :: 0 <= i < |init| ==> init[i] == ls[i];
  }

  lemma {:induction false} EndedLine(line: string, eol: Eol)
    requires '\n' !in line
    ensures var ended := line + EolText(eol); ended != "" && '\n' !in ended[..|ended| - 1]
  {
    var ended := line + EolText(eol);
    assert ended[..|ended| - 1] == line + EolText(eol)[..|EolText(eol)| - 1];
  }

  lemma {:induction false} FlatNothing()
    ensures Flat([]) == ""
  {
  }

  lemma {:induction false} FlatOne(line: string)
    ensures Flat([line]) == line
  {
    assert [line][..0] == [];
  }

  lemma {:induction false} BreakInside(ls: seq<string>)
    requires ls != [] ==> ls[|ls| - 1] != "" && Terminated(ls[|ls| - 1])
    ensures ls != [] ==> '\n' in Flat(ls)
  {
    if ls != [] {
      var last := ls[|ls| - 1];
      assert last[|last| - 1] in last;
    }
  }

  lemma {:induction false} StripUnfinished(line: string, eol: Eol)
    requires line != "" && '\n' !in line
    ensures StripTerminator(line) == line
    ensures StripTerminator(line + EolText(eol)) == line || (eol == Lf && line[|line| - 1] == '\r')
  {
    if eol == Crlf || line[|line| - 1] != '\r' {
      StripBreakOf(line, eol);
    }
    assert line[|line| - 1] in line;
  }

  lemma {:induction false} StripBreakOf(line: string, eol: Eol)
    requires eol == Crlf || (line != "" ==> line[|line| - 1] != '\r')
    ensures StripTerminator(line + EolText(eol)) == line
  {
    var all := line + EolText(eol);
    assert all[..|all| - 1] == if eol == Lf then line else line + "\r";
    assert eol == Crlf ==> all[..|all| - 1][..|all| - 2] == line;
  }

  /** An LF file whose unfinished last line is the end marker and a carriage return, behind an
      opening marker and no complete pair. */
  predicate StrayEnding(m: Markers, existing: string)
  {
    var ls := Lines(existing);
    && ls != [] && ls[|ls| - 1] == m.end + "\r" && Detect(existing) == Lf
    && match Scan(m, Contents(ls[..|ls| - 1])) case Open(pending) => pending.Some? case Found(_, _) => false
  }

  /** What the append branch can go wrong on: the unfinished last line is the end marker and a
      carriage return, in a file with LF line ends. The pair it completes ends the file. */
  lemma {:induction false} HazardShape(m: Markers, existing: string)
    requires !AppendIsClear(m, existing) && !Degenerate(m)
    ensures Detect(existing) == Lf && '\n' in existing
    ensures !Terminated(existing) && existing[|existing| - 1] == '\r' && AppendBase(existing) == existing + "\n"
    ensures Pair(m, AppendBase(existing)).Found? &&
            Pair(m, AppendBase(existing)).endAt == |Lines(AppendBase(existing))| - 1
    ensures StrayEnding(m, existing)
  {
    NotClear(m, existing);
    var eol := Detect(existing);
    var init, last := UnfinishedLine(existing, eol);
    StripUnfinished(last, eol);
    AppendShape(existing);
    hide *;
    LastContent(m, init, last);
    LastContent(m, init, last + EolText(eol));
    CompletedPair(m, Scan(m, Contents(init)), last, StripTerminator(last + EolText(eol)), |init|);
    ScanSingleton(m, init, last + EolText(eol));
  }

  /** Ending the last line completes a pair on exactly those files. */
  lemma {:induction false} AppendIsClearUnlessStray(m: Markers, existing: string)
    ensures !AppendIsClear(m, existing) <==> !Degenerate(m) && StrayEnding(m, existing)
  {
    if !Degenerate(m) && StrayEnding(m, existing) {
      StrayCompletes(m, existing);
    } else if !Degenerate(m) && !AppendIsClear(m, existing) {
      HazardShape(m, existing);
    }
  }

  lemma {:induction false} StrayCompletes(m: Markers, existing: string)
    requires !Degenerate(m) && StrayEnding(m, existing)
    ensures !AppendIsClear(m, existing)
  {
    var lines := Lines(existing);
    var before, stray := lines[..|lines| - 1], m.end + "\r";
    StrayUnfinished(m, existing);
    StrayStrips(m.end, stray);
    AppendShape(existing);
    hide *;
    var init, last := UnfinishedLine(existing, Lf);
    assert init == before && last == stray;
    LastContent(m, init, last);
    LastContent(m, init, last + EolText(Lf));
    StrayScans(m, Scan(m, Contents(init)), stray, stray + EolText(Lf), |init|);
    ScanTells(m, existing);
    ScanTells(m, AppendBase(existing));
    ClearUnless(m, existing);
  }

  lemma {:induction false} StrayUnfinished(m: Markers, existing: string)
    requires StrayEnding(m, existing)
    ensures !Terminated(existing) && Detect(existing) == Lf
    ensures Scan(m, Contents(Lines(existing)[..|Lines(existing)| - 1])).Open?
    ensures Scan(m, Contents(Lines(existing)[..|Lines(existing)| - 1])).pending.Some?
  {
    LastLine(existing);
    hide Lines, Contents, Scan, Detect;
  }

  lemma {:induction false} StrayStrips(end: string, stray: string)
    requires stray == end + "\r"
    ensures StripTerminator(stray) != end && StripTerminator(stray + EolText(Lf)) == end
  {
    assert stray[|stray| - 1] == '\r';
    assert stray + EolText(Lf) == end + EolText(Crlf);
    StripBreakOf(end, Crlf);
  }

  lemma {:induction false} StrayScans(m: Markers, state: Scanned, stray: string, ended: string, at: nat)
    requires !Degenerate(m) && StripTerminator(stray) != m.end && StripTerminator(ended) == m.end
    requires state.Open? && state.pending.Some?
    ensures Step(m, state, StripTerminator(stray), at).Open?
    ensures Step(m, state, StripTerminator(ended), at).Found?
  {
    hide StripTerminator;
  }

  lemma {:induction false} ScanTells(m: Markers, text: string)
    requires !Degenerate(m)
    ensures MarkerOffsets(m, text).None? <==> Scan(m, Contents(Lines(text))).Open?
  {
    hide Scan, Lines, Contents;
  }

  lemma {:induction false} ClearUnless(m: Markers, existing: string)
    requires MarkerOffsets(m, existing).None? && MarkerOffsets(m, AppendBase(existing)).Some?
    ensures !AppendIsClear(m, existing)
  {
    hide MarkerOffsets, AppendBase;
  }

  lemma {:induction false} NotClear(m: Markers, existing: string)
    requires !AppendIsClear(m, existing) && !Degenerate(m)
    ensures !Terminated(existing)
    ensures Scan(m, Contents(Lines(existing))).Open?
    ensures Scan(m, Contents(Lines(AppendBase(existing)))).Found?
    ensures Pair(m, AppendBase(existing)) == Scan(m, Contents(Lines(AppendBase(existing))))
  {
    hide Scan, Lines, Contents, Detect, Terminated;
  }

  lemma {:induction false} AppendShape(existing: string)
    requires !Terminated(existing)
    ensures AppendBase(existing) == existing + EolText(Detect(existing)) && EolText(Lf) == "\n"
  {
    hide Detect;
  }

  /** If ending the last line completes a pair, its content changed and it is the pair's end. */
  lemma {:induction false} CompletedPair(m: Markers, state: Scanned, line: string, ended: string, at: nat)
    requires Step(m, state, line, at).Open?
    ensures Step(m, state, ended, at).Found? ==>
              && line != ended && ended == m.end && Step(m, state, ended, at).endAt == at
              && state.Open? && state.pending.Some?
  {
  }

  lemma {:induction false} LastContent(m: Markers, init: seq<string>, last: string)
    ensures Scan(m, Contents(init + [last])) == Step(m, Scan(m, Contents(init)), StripTerminator(last), |init|)
  {
    assert (init + [last])[..|init|] == init;
    assert Contents(init + [last])[..|init|] == Contents(init);
  }

  lemma {:induction false} ScanSingleton(m: Markers, init: seq<string>, last: string)
    ensures init == [] ==> Scan(m, Contents(init + [last])).Open?
  {
    LastContent(m, init, last);
  }

  // --------------------------------------------------- removing, rewriting

  lemma {:induction false} ToEolGrows(body: string)
    ensures |ToEol(body, Lf)| <= |ToEol(body, Crlf)|
  {
    if body != "" {
      ToEolGrows(body[1..]);
    }
  }

  lemma {:induction false} BlockGrows(m: Markers, body: string)
    ensures |Block(m, body, Lf)| < |Block(m, body, Crlf)|
  {
    ToEolGrows(body);
  }

  predicate EndsInCrlf(text: string)
  {
    |text| >= 2 && text[|text| - 2..] == "\r\n"
  }

  /** A block never ends like the line `END\r` that the append branch ended by mistake. */
  lemma {:induction false} BlockEnd(m: Markers, body: string, x: string, base: string)
    requires Proper(m) && EndsInCrlf(base)
    ensures x + Block(m, body, Lf) != base
  {
    hide ToEol;
    var all := x + Block(m, body, Lf);
    var k := |m.end| - 1;
    assert all == (x + (m.begin + "\n") + ToEol(body, Lf) + m.end[..k]) + [m.end[k]] + "\n";
    assert all[|all| - 2] == m.end[k] != '\r';
  }

  /** Removing a block leaves what the edit was given: the file, its last line ended, when it
      had no block, and otherwise the file without that block. It fails exactly when ending
      the last line made a pair of old lines into a block. */
  lemma {:induction false} RemoveAfterUpsert(m: Markers, existing: string, body: string)
    requires Proper(m) && LfBody(body) && !HasMarkerLine(m, body)
    ensures Remove(m, Upsert(m, existing, body)) ==
              (if MarkerOffsets(m, existing).Some? then Remove(m, existing) else Some(AppendBase(existing)))
            <==> AppendIsClear(m, existing)
  {
    var (front, after) := Around(m, existing);
    var out := Upsert(m, existing, body);
    if AppendIsClear(m, existing) {
      FrontIsClear(m, existing);
      hide Block, Scan, Lines, Contents;
      CleanBlockAround(m, front, body, Detect(existing), after, out);
      assert MarkerOffsets(m, existing).None? ==> front + after == AppendBase(existing);
    } else {
      RemoveStale(m, existing, body);
    }
  }

  lemma {:induction false} RemoveStale(m: Markers, existing: string, body: string)
    requires Proper(m) && !AppendIsClear(m, existing)
    ensures Remove(m, Upsert(m, existing, body)) != Some(AppendBase(existing))
  {
    hide Lines, Flat, Contents, Scan, StripTerminator, StripLeadingTerminator, Detect;
    var base, block := AppendBase(existing), Block(m, body, Detect(existing));
    HazardShape(m, existing);
    StaleBlock(m, existing, body);
    hide Around, Block, AppendIsClear, Upsert;
    var (front, after) := Around(m, base);
    BlockEnd(m, body, front + after, base);
    assert front + (after + block) == front + after + block;
  }

  /** The last write wins: a block written over a clean one is as if written first, unless
      the first write changed the line ending. */
  lemma {:induction false} LastWriteWins(m: Markers, existing: string, first: string, second: string)
    requires Proper(m) && LfBody(first) && !HasMarkerLine(m, first) && AppendIsClear(m, existing)
    ensures Upsert(m, Upsert(m, existing, first), second) == Upsert(m, existing, second) <==> EolSettled(m, existing)
  {
    hide Lines, Flat, Contents, Scan, StripTerminator, StripLeadingTerminator, Detect, Block, Around, MarkerOffsets,
      HasMarkerLine;
    var (front, after) := Around(m, existing);
    var out := Upsert(m, existing, first);
    FrontIsClear(m, existing);
    CleanBlockAround(m, front, first, Detect(existing), after, out);
    DetectAfterUpsert(m, existing, first);
    BlockGrows(m, second);
  }

  lemma {:induction false} FlatGrows(ls: seq<string>)
    requires forall i :: 0 <= i < |ls| ==> ls[i] != ""
    ensures |ls| <= |Flat(ls)|
  {
    if ls != [] {
      FlatGrows(ls[..|ls| - 1]);
    }
  }

  /** A shorter stretch of lines is a shorter text. */
  lemma {:induction false} ShorterStretch(front: seq<string>, ks: seq<string>, after: seq<string>, b: nat, e: nat)
    requires WellCut(front + ks + after)
    requires |front| <= b <= e <= |front| + |ks| && e - b < |ks|
    ensures |Flat((front + ks + after)[..b])| + |Flat(ks)| + |Flat((front + ks + after)[e..])| >
            |Flat(front + ks + after)|
  {
    hide *;
    var i, j := b - |front|, e - |front|;
    StretchCut(front, ks, after, i, j);
    NonEmptyLines(front + ks + after, front, ks, after);
    FlatLength(front, ks[..i]);
    FlatLength(ks[j..], after);
    FlatLength(front + ks, after);
    FlatLength(front, ks);
    FlatGrows(ks[..i]);
    FlatGrows(ks[j..]);
  }

  lemma {:induction false} StretchCut(front: seq<string>, ks: seq<string>, after: seq<string>, i: nat, j: nat)
    requires i <= j <= |ks|
    ensures (front + ks + after)[..|front| + i] == front + ks[..i]
    ensures (front + ks + after)[|front| + j..] == ks[j..] + after
  {
  }

  lemma {:induction false} FlatLength(a: seq<string>, b: seq<string>)
    ensures |Flat(a + b)| == |Flat(a)| + |Flat(b)|
  {
    hide *;
    FlatConcat(a, b);
  }

  lemma {:induction false} NonEmptyLines(all: seq<string>, front: seq<string>, ks: seq<string>, after: seq<string>)
    requires WellCut(all) && all == front + ks + after
    ensures forall k :: 0 <= k < |ks| ==> ks[k] != ""
  {
    assert forall k :: 0 <= k < |ks| ==> ks[k] == all[|front| + k];
  }

  /** A body with marker lines of its own grows the file at every write. */
  lemma {:induction false} DirtyBodyGrows(m: Markers, existing: string, body: string)
    requires Proper(m) && LfBody(body) && HasMarkerLine(m, body) && AppendIsClear(m, existing)
    ensures |Upsert(m, Upsert(m, existing, body), body)| > |Upsert(m, existing, body)|
  {
    NotDegenerate(m);
    hide *;
    var (front, after) := Around(m, existing);
    var eol, out := Detect(existing), Upsert(m, existing, body);
    FrontIsClear(m, existing);
    UpsertParts(m, existing, body);
    AroundShrinks(m, front, body, eol, after, out);
    UpsertParts(m, out, body);
    DetectAfterUpsert(m, existing, body);
    BlockGrows(m, body);
  }

  /** What a second edit keeps around a block whose body has marker lines. */
  lemma {:induction false} AroundShrinks(m: Markers, front: string, body: string, eol: Eol, after: string, out: string)
    requires Proper(m) && LfBody(body) && HasMarkerLine(m, body)
    requires Terminated(front) && Scan(m, Contents(Lines(front))).Open?
    requires out == front + Block(m, body, eol) + after
    ensures |Around(m, out).0| + |Block(m, body, eol)| + |Around(m, out).1| > |out|
  {
    hide *;
    BlockFound(m, front, body, eol, after, out);
    LinesOfBlock(m, body, eol);
    LinesAround(front, Block(m, body, eol), after);
    LinesShape(out);
    LinesFlat(Block(m, body, eol));
    var Found(b, e) := Pair(m, out);
    ShorterStretch(Lines(front), BlockLines(m, body, eol), Lines(after), b, e + 1);
    AroundLines(m, out, b, e);
  }

  lemma {:induction false} StaleRewrite(m: Markers, existing: string, body: string)
    requires Proper(m) && !AppendIsClear(m, existing)
    ensures Upsert(m, Upsert(m, existing, body), body) != Upsert(m, existing, body)
  {
    hide *;
    var base, out := AppendBase(existing), Upsert(m, existing, body);
    var (front, after) := Around(m, base);
    StaleEol(m, existing, body);
    var block := Block(m, body, Lf);
    StaleBlock(m, existing, body);
    BaseEndsInBlock(m, existing);
    BlockEnd(m, body, front, base);
    UpsertParts(m, out, body);
    assert front + block + ("" + block) == (front + block) + block;
    CancelRight(front + block, base, block);
  }

  lemma {:induction false} CancelRight(a: string, b: string, tail: string)
    ensures a + tail == b + tail ==> a == b
  {
    if a + tail == b + tail {
      assert |a| == |b|;
      assert a == (a + tail)[..|a|] && b == (b + tail)[..|b|];
    }
  }

  lemma {:induction false} UpsertParts(m: Markers, existing: string, body: string)
    ensures Upsert(m, existing, body) ==
            Around(m, existing).0 + Block(m, body, Detect(existing)) + Around(m, existing).1
  {
    hide Around, Block, Detect;
  }

  lemma {:induction false} StaleEol(m: Markers, existing: string, body: string)
    requires Proper(m) && !AppendIsClear(m, existing)
    ensures Detect(existing) == Lf && Detect(Upsert(m, existing, body)) == Lf
    ensures EndsInCrlf(AppendBase(existing))
  {
    NotDegenerate(m);
    BrokenIsSettled(m, existing);
    hide *;
    HazardShape(m, existing);
    DetectAfterUpsert(m, existing, body);
    EndedInCrlf(existing);
  }

  lemma {:induction false} NotDegenerate(m: Markers)
    requires Proper(m)
    ensures !Degenerate(m)
  {
  }

  lemma {:induction false} BrokenIsSettled(m: Markers, existing: string)
    ensures '\n' in existing ==> EolSettled(m, existing)
  {
    hide MarkerOffsets;
  }

  lemma {:induction false} EndedInCrlf(text: string)
    requires !Terminated(text) && text[|text| - 1] == '\r'
    ensures EndsInCrlf(text + "\n")
  {
    assert (text + "\n")[|text| - 1..] == "\r\n";
  }

  lemma {:induction false} BaseEndsInBlock(m: Markers, existing: string)
    requires Proper(m) && !AppendIsClear(m, existing)
    ensures Around(m, AppendBase(existing)).1 == ""
  {
    HazardShape(m, existing);
    hide *;
    var base := AppendBase(existing);
    var Found(b, e) := Pair(m, base);
    AroundLines(m, base, b, e);
    assert Lines(base)[e + 1..] == [];
    FlatNothing();
  }

  /** Writing the same block twice is writing it once, exactly when the body holds no marker
      line, the append did not complete a pair of old lines, and the line ending is settled. */
  lemma {:induction false} UpsertIdempotent(m: Markers, existing: string, body: string)
    requires Proper(m) && LfBody(body)
    ensures Upsert(m, Upsert(m, existing, body), body) == Upsert(m, existing, body)
            <==> !HasMarkerLine(m, body) && AppendIsClear(m, existing) && EolSettled(m, existing)
  {
    hide *;
    if !AppendIsClear(m, existing) {
      StaleRewrite(m, existing, body);
    } else if HasMarkerLine(m, body) {
      DirtyBodyGrows(m, existing, body);
    } else {
      LastWriteWins(m, existing, body, body);
    }
  }

  // ----------------------------------------- which files the guards exclude

  /** A file not ending in a bare carriage return is on the safe side of both guards. */
  lemma {:induction false} NoBareReturn(m: Markers, existing: string)
    requires Proper(m) && (existing == "" || existing[|existing| - 1] != '\r')
    ensures AppendIsClear(m, existing) && EolSettled(m, existing)
  {
    NotDegenerate(m);
    if !AppendIsClear(m, existing) {
      hide MarkerOffsets, Detect, Terminated, AppendBase, Pair, Lines;
      HazardShape(m, existing);
      assert false;
    }
  }

  /** The appended line break can end `END\r` and so turn two stray markers into a block: a
      marker line read under CRLF, in a file of LF lines. Then removing what was written does not
      give the file back, and a second write changes the file again. */
  lemma {:induction false} StrayMarkersBecomeABlock(m: Markers, existing: string, body: string)
    requires Proper(m) && existing == m.begin + "\n" + m.end + "\r"
    ensures !AppendIsClear(m, existing)
    ensures Remove(m, Upsert(m, existing, body)) != Some(AppendBase(existing))
    ensures Upsert(m, Upsert(m, existing, body), body) != Upsert(m, existing, body)
  {
    StrayAppendCompletes(m, existing);
    hide *;
    RemoveStale(m, existing, body);
    StaleRewrite(m, existing, body);
  }

  lemma {:induction false} StrayAppendCompletes(m: Markers, existing: string)
    requires Proper(m) && existing == m.begin + "\n" + m.end + "\r"
    ensures !AppendIsClear(m, existing)
  {
    NotDegenerate(m);
    var opening, stray := m.begin + EolText(Lf), m.end + "\r";
    assert existing == opening + stray;
    hide *;
    BeginIsPlain(m);
    StrayLines(m, opening, stray);
    DetectFirstBreak(m.begin, Lf, stray);
    OpeningPending(m, opening);
    assert [opening, stray][..1] == [opening];
    StrayIs(m, existing, opening, stray);
    StrayCompletes(m, existing);
  }

  lemma {:induction false} StrayIs(m: Markers, existing: string, opening: string, stray: string)
    requires Lines(existing) == [opening, stray] && stray == m.end + "\r" && Detect(existing) == Lf
    requires Scan(m, Contents([opening])) == Open(Some(0))
    ensures StrayEnding(m, existing)
  {
    hide Lines, Contents, Scan, Detect;
    assert [opening, stray][..1] == [opening];
  }

  lemma {:induction false} StrayLines(m: Markers, opening: string, stray: string)
    requires Proper(m) && opening == m.begin + EolText(Lf) && stray == m.end + "\r"
    ensures Lines(opening + stray) == [opening, stray] && StripTerminator(opening) == m.begin
  {
    BeginIsPlain(m);
    assert '\n' !in m.end;
    hide *;
    PlainLine(m.begin, Lf);
    SingleLine(m.end, '\r');
    LinesConcat(opening, stray);
  }

  lemma {:induction false} BeginIsPlain(m: Markers)
    requires Proper(m)
    ensures m.begin != "" && '\n' !in m.begin && m.begin[|m.begin| - 1] != '\r'
  {
  }

  lemma {:induction false} OpeningPending(m: Markers, opening: string)
    requires !Degenerate(m) && StripTerminator(opening) == m.begin
    ensures Scan(m, Contents([opening])) == Open(Some(0))
  {
    hide StripTerminator;
    assert [opening] == [] + [opening];
    LastContent(m, [], opening);
  }

  /** One unfinished line ending in a carriage return: the block makes it a CRLF file. */
  lemma {:induction false} UnfinishedReturnTurnsCrlf(m: Markers, line: string, body: string)
    requires Proper(m) && '\n' !in line && LfBody(body) && !HasMarkerLine(m, body)
    ensures Detect(line + "\r") == Lf && Detect(Upsert(m, line + "\r", body)) == Crlf
    ensures Upsert(m, Upsert(m, line + "\r", body), body) != Upsert(m, line + "\r", body)
  {
    var existing := line + "\r";
    NotDegenerate(m);
    OneLineNoPair(m, existing);
    UnfinishedUnsettled(m, existing);
    hide *;
    DetectAfterUpsert(m, existing, body);
    UpsertIdempotent(m, existing, body);
  }

  lemma {:induction false} UnfinishedUnsettled(m: Markers, existing: string)
    requires MarkerOffsets(m, existing).None? && '\n' !in existing && existing != "" && existing[|existing| - 1] == '\r'
    ensures !EolSettled(m, existing)
  {
    hide MarkerOffsets;
  }

  lemma {:induction false} OneLineNoPair(m: Markers, existing: string)
    requires !Degenerate(m) && existing != "" && '\n' !in existing
    ensures MarkerOffsets(m, existing).None?
  {
    SingleLine(existing[..|existing| - 1], existing[|existing| - 1]);
    assert existing[..|existing| - 1] + [existing[|existing| - 1]] == existing;
    hide Lines, Flat, StripTerminator;
    assert Lines(existing) == [] + [existing];
    ScanSingleton(m, [], existing);
  }
}
