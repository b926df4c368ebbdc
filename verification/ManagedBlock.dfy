/** The marked block that gat keeps inside a file it does not own: finding, writing,
    reading back and removing it, with the file's own line endings
    (gat-core/src/managed_block.rs, gat-core/src/newline.rs).

    The edits are functions on texts, described by lines; the methods find the markers by
    offsets and fill a buffer, as the program does, and are shown to agree. */
module ManagedBlock {
  import opened Text

  datatype Eol = Lf | Crlf

  datatype Markers = Markers(begin: string, end: string)

  function EolText(eol: Eol): (s: string)
    ensures s != "" && s[|s| - 1] == '\n' && '\n' !in s[..|s| - 1]
  {
    match eol case Lf => "\n" case Crlf => "\r\n"
  }

  /** The style of the first line break; LF when there is none. */
  function Detect(text: string): Eol
  {
    match IndexOf(text, '\n')
    case Some(i) => if i > 0 && text[i - 1] == '\r' then Crlf else Lf
    case None => Lf
  }

  function StripTerminator(line: string): string
  {
    if line == "" || line[|line| - 1] != '\n' then line
    else
      var rest := line[..|line| - 1];
      if rest != "" && rest[|rest| - 1] == '\r' then rest[..|rest| - 1] else rest
  }

  function StripLeadingTerminator(s: string): string
  {
    if "\r\n" <= s then s[2..] else if "\n" <= s then s[1..] else s
  }

  // --------------------------------------------------------------- lines

  predicate Terminated(text: string)
  {
    text == "" || text[|text| - 1] == '\n'
  }

  /** One more character goes to the last line while that line is open. */
  function AddChar(lines: seq<string>, c: char): (r: seq<string>)
    ensures r != []
  {
    if lines == [] || Terminated(lines[|lines| - 1]) then lines + [[c]]
    else lines[..|lines| - 1] + [lines[|lines| - 1] + [c]]
  }

  /** The lines of a text, each with its terminator; only the last may lack one. */
  function Lines(text: string): (r: seq<string>)
  {
    if text == "" then [] else AddChar(Lines(text[..|text| - 1]), text[|text| - 1])
  }

  function Flat(lines: seq<string>): string
  {
    if lines == [] then "" else Flat(lines[..|lines| - 1]) + lines[|lines| - 1]
  }

  /** The lines without their terminators: all that marker recognition looks at. */
  function Contents(lines: seq<string>): (r: seq<string>)
    ensures |r| == |lines|
  {
    if lines == [] then [] else Contents(lines[..|lines| - 1]) + [StripTerminator(lines[|lines| - 1])]
  }

  lemma {:induction false} ContentsConcat(a: seq<string>, b: seq<string>)
    ensures Contents(a + b) == Contents(a) + Contents(b)
  {
    if b == [] {
      assert a + b == a;
    } else {
      assert (a + b)[..|a + b| - 1] == a + b[..|b| - 1];
      ContentsConcat(a, b[..|b| - 1]);
    }
  }

  lemma {:induction false} ContentsAt(lines: seq<string>, i: nat)
    requires i < |lines|
    ensures Contents(lines)[i] == StripTerminator(lines[i])
    ensures Contents(lines)[..i] == Contents(lines[..i])
    ensures Contents(lines)[..i + 1] == Contents(lines[..i]) + [StripTerminator(lines[i])]
  {
    assert lines == lines[..i + 1] + lines[i + 1..];
    assert lines[..i + 1][..i] == lines[..i];
    ContentsConcat(lines[..i + 1], lines[i + 1..]);
  }

  /** Lines are non-empty, break only at their ends, and all but the last are terminated. */
  predicate WellCut(lines: seq<string>)
  {
    && (forall i :: 0 <= i < |lines| ==> lines[i] != "" && '\n' !in lines[i][..|lines[i]| - 1])
    && (forall i :: 0 <= i < |lines| - 1 ==> Terminated(lines[i]))
  }

  lemma {:induction false} AddCharShape(lines: seq<string>, c: char)
    requires WellCut(lines)
    ensures WellCut(AddChar(lines, c)) && Flat(AddChar(lines, c)) == Flat(lines) + [c]
  {
    AddCharCut(lines, c);
    if lines == [] || Terminated(lines[|lines| - 1]) {
      FlatSnoc(lines, [c]);
    } else {
      var short, last := lines[..|lines| - 1], lines[|lines| - 1];
      assert lines == short + [last];
      FlatSnoc(short, last);
      FlatSnoc(short, last + [c]);
      hide WellCut, Flat;
      assert Flat(short) + (last + [c]) == Flat(short) + last + [c];
    }
  }

  lemma {:induction false} FlatSnoc(lines: seq<string>, last: string)
    ensures Flat(lines + [last]) == Flat(lines) + last
  {
    assert (lines + [last])[..|lines|] == lines;
  }

  lemma {:induction false} AddCharCut(lines: seq<string>, c: char)
    requires WellCut(lines)
    ensures WellCut(AddChar(lines, c))
  {
  }

  lemma {:induction false} LinesShape(text: string)
    ensures Flat(Lines(text)) == text && WellCut(Lines(text))
  {
    if text != "" {
      LinesShape(text[..|text| - 1]);
      assert text == text[..|text| - 1] + [text[|text| - 1]];
      AddCharShape(Lines(text[..|text| - 1]), text[|text| - 1]);
    }
  }

  lemma {:induction false} LastLine(text: string)
    ensures Lines(text) == [] <==> text == ""
    ensures text != "" ==> Terminated(Lines(text)[|Lines(text)| - 1]) == Terminated(text)
  {
  }

  lemma {:induction false} AddCharAfter(p: seq<string>, q: seq<string>, c: char)
    requires q == [] ==> p == [] || Terminated(p[|p| - 1])
    ensures AddChar(p + q, c) == p + AddChar(q, c)
  {
    if q == [] {
      assert p + q == p;
    } else {
      assert (p + q)[..|p + q| - 1] == p + q[..|q| - 1];
    }
  }

  lemma {:induction false} LinesConcat(a: string, b: string)
    requires Terminated(a)
    ensures Lines(a + b) == Lines(a) + Lines(b)
  {
    if b == "" {
      assert a + b == a;
    } else {
      var b', c := b[..|b| - 1], b[|b| - 1];
      assert (a + b)[..|a + b| - 1] == a + b';
      LinesConcat(a, b');
      LastLine(a);
      LastLine(b');
      AddCharAfter(Lines(a), Lines(b'), c);
    }
  }

  /** A text without a line break, but perhaps for its last character, is one line. */
  lemma {:induction false} SingleLine(init: string, c: char)
    requires '\n' !in init
    ensures Lines(init + [c]) == [init + [c]]
  {
    assert (init + [c])[..|init|] == init;
    if init != "" {
      var k := |init| - 1;
      assert init == init[..k] + [init[k]];
      SingleLine(init[..k], init[k]);
      assert init[k] in init && !Terminated(init);
    }
  }

  lemma {:induction false} FlatConcat(a: seq<string>, b: seq<string>)
    ensures Flat(a + b) == Flat(a) + Flat(b)
  {
    if b == [] {
      assert a + b == a;
    } else {
      var init, last := b[..|b| - 1], b[|b| - 1];
      assert (a + b)[..|a + b| - 1] == a + init && (a + b)[|a + b| - 1] == last;
      FlatConcat(a, init);
      assert Flat(a) + Flat(init) + last == Flat(a) + (Flat(init) + last);
    }
  }

  lemma {:induction false} FlatSplit(lines: seq<string>, i: nat)
    requires i < |lines|
    ensures Flat(lines) == Flat(lines[..i]) + lines[i] + Flat(lines[i + 1..])
  {
    assert lines == lines[..i + 1] + lines[i + 1..];
    assert lines[..i + 1][..i] == lines[..i];
    FlatConcat(lines[..i + 1], lines[i + 1..]);
  }

  // ------------------------------------------------------------- scanning

  /** Where a scan of whole lines stands: the last opening marker, or the first pair; as
      line numbers. */
  datatype Scanned = Open(pending: Option<nat>) | Found(start: nat, endAt: nat)

  function Step(m: Markers, state: Scanned, line: string, at: nat): Scanned
  {
    match state
    case Found(_, _) => state
    case Open(pending) =>
      if line == m.begin then Open(Some(at))
      else if line == m.end && pending.Some? then Found(pending.value, at)
      else state
  }

  function Scan(m: Markers, contents: seq<string>): (r: Scanned)
  {
    if contents == [] then Open(None)
    else Step(m, Scan(m, contents[..|contents| - 1]), contents[|contents| - 1], |contents| - 1)
  }

  predicate Degenerate(m: Markers)
  {
    m.begin == "" || m.end == "" || m.begin == m.end
  }

  /** The first complete pair of marker lines, as line numbers. */
  function Pair(m: Markers, existing: string): Scanned
  {
    if Degenerate(m) then Open(None) else Scan(m, Contents(Lines(existing)))
  }

  /** The first complete pair of marker lines, as offsets. */
  function MarkerOffsets(m: Markers, existing: string): Option<(nat, nat)>
  {
    match Pair(m, existing)
    case Open(_) => None
    case Found(b, e) =>
      PairShape(m, existing);
      Some((|Flat(Lines(existing)[..b])|, |Flat(Lines(existing)[..e])|))
  }

  /** A pair found: nothing is found before its end line, its opening line is the last
      begin marker before that, and nothing was open-and-closed before the opening line. */
  lemma {:induction false} ScanShape(m: Markers, contents: seq<string>)
    ensures match Scan(m, contents)
            case Open(None) => true
            case Open(Some(b)) => b < |contents| && contents[b] == m.begin && Scan(m, contents[..b]).Open?
            case Found(b, e) => b < e < |contents| && contents[b] == m.begin && contents[e] == m.end &&
                                Scan(m, contents[..b]).Open?
  {
    if contents != [] {
      var init := contents[..|contents| - 1];
      ScanShape(m, init);
      assert forall k :: 0 <= k <= |init| ==> contents[..k] == init[..k];
    }
  }

  lemma {:induction false} PairShape(m: Markers, existing: string)
    ensures match Pair(m, existing)
            case Open(_) => true
            case Found(b, e) =>
              b < e < |Lines(existing)| &&
              StripTerminator(Lines(existing)[b]) == m.begin && StripTerminator(Lines(existing)[e]) == m.end
  {
    var ls := Lines(existing);
    ScanShape(m, Contents(ls));
    match Pair(m, existing)
    case Open(_) =>
    case Found(b, e) =>
      ContentsAt(ls, b);
      ContentsAt(ls, e);
  }

  /** The loop of `FindMarkers` before line `i`: the offset reached, and where the pending
      opening marker, if any, begins. */
  ghost predicate Reached(m: Markers, lines: seq<string>, i: nat, offset: nat, pending: Option<nat>, start: Option<nat>)
    requires i <= |lines|
  {
    && offset == |Flat(lines[..i])|
    && Scan(m, Contents(lines[..i])) == Open(pending)
    && (pending.Some? ==> pending.value < i)
    && start == (if pending.Some? then Some(|Flat(lines[..pending.value])|) else None)
  }

  lemma {:induction false} ReachNext(m: Markers, lines: seq<string>, i: nat, offset: nat, pending: Option<nat>,
                                     start: Option<nat>)
    requires i < |lines| && Reached(m, lines, i, offset, pending, start) && m.begin != m.end
    ensures var text, next := StripTerminator(lines[i]), offset + |lines[i]|;
            if text == m.begin then Reached(m, lines, i + 1, next, Some(i), Some(offset))
            else if text == m.end && pending.Some? then Scan(m, Contents(lines[..i + 1])) == Found(pending.value, i)
            else Reached(m, lines, i + 1, next, pending, start)
  {
    hide StripTerminator;
    assert lines[..i + 1][..i] == lines[..i];
  }

  lemma {:induction false} ReachStart(m: Markers, lines: seq<string>)
    ensures Reached(m, lines, 0, 0, None, None)
  {
  }

  lemma {:induction false} ReachFound(m: Markers, existing: string, lines: seq<string>, i: nat, offset: nat,
                                      pending: nat, start: nat)
    requires lines == Lines(existing) && i < |lines| && !Degenerate(m)
    requires Reached(m, lines, i, offset, Some(pending), Some(start))
    requires Scan(m, Contents(lines[..i + 1])) == Found(pending, i)
    ensures MarkerOffsets(m, existing) == Some((start, offset))
  {
    hide Flat, StripTerminator, Lines, Scan;
    ContentsAt(lines, i);
    assert lines[..i + 1][..i] == lines[..i];
    assert Contents(lines[..i + 1]) == Contents(lines)[..i + 1];
    ScanStops(m, Contents(lines), i + 1);
  }

  lemma {:induction false} ReachEnd(m: Markers, existing: string, lines: seq<string>, offset: nat,
                                    pending: Option<nat>, start: Option<nat>)
    requires lines == Lines(existing) && Reached(m, lines, |lines|, offset, pending, start)
    ensures MarkerOffsets(m, existing) == None
  {
    assert lines[..|lines|] == lines;
  }

  method FindMarkers(existing: string, begin: string, end: string) returns (r: Option<(nat, nat)>)
    ensures r == MarkerOffsets(Markers(begin, end), existing)
  {
    if begin == "" || end == "" || begin == end {
      return None;
    }
    hide StripTerminator, Lines, Reached, MarkerOffsets;
    ghost var m := Markers(begin, end);
    var lines := Lines(existing);
    ghost var pending: Option<nat> := None;
    var start: Option<nat> := None;
    var offset: nat := 0;
    ReachStart(m, lines);
    for i := 0 to |lines|
      invariant Reached(m, lines, i, offset, pending, start)
      invariant pending.Some? <==> start.Some?
    {
      var text := StripTerminator(lines[i]);
      ReachNext(m, lines, i, offset, pending, start);
      if text == begin {
        start := Some(offset);
        pending := Some(i);
      } else if text == end && start.Some? {
        ReachFound(m, existing, lines, i, offset, pending.value, start.value);
        return Some((start.value, offset));
      }
      offset := offset + |lines[i]|;
    }
    ReachEnd(m, existing, lines, offset, pending, start);
    return None;
  }

  lemma {:induction false} ScanStops(m: Markers, contents: seq<string>, k: nat)
    requires k <= |contents| && Scan(m, contents[..k]).Found?
    ensures Scan(m, contents) == Scan(m, contents[..k])
  {
    if k < |contents| {
      assert contents[..|contents| - 1][..k] == contents[..k];
      ScanStops(m, contents[..|contents| - 1], k);
    } else {
      assert contents[..k] == contents;
    }
  }

  /** An opening and an end marker with no marker between them. */
  predicate IsPair(m: Markers, contents: seq<string>, b: nat, e: nat)
  {
    && b < e < |contents| && contents[b] == m.begin && contents[e] == m.end
    && forall k :: b < k < e ==> contents[k] != m.begin && contents[k] != m.end
  }

  /** The scan finds the first pair, told from the lines alone; without one it is open. */
  lemma {:induction false} ScanFindsFirstPair(m: Markers, contents: seq<string>)
    requires m.begin != m.end
    ensures match Scan(m, contents)
            case Found(b, e) =>
              IsPair(m, contents, b, e) && forall c: nat, d: nat :: IsPair(m, contents, c, d) ==> e <= d
            case Open(pending) =>
              && (forall c: nat, d: nat :: !IsPair(m, contents, c, d))
              && match pending
                 case None => forall k :: 0 <= k < |contents| ==> contents[k] != m.begin
                 case Some(b) =>
                   b < |contents| && contents[b] == m.begin &&
                   forall k :: b < k < |contents| ==> contents[k] != m.begin && contents[k] != m.end
  {
    if contents != [] {
      var init := contents[..|contents| - 1];
      ScanFindsFirstPair(m, init);
      forall c: nat, d: nat | d < |init| ensures IsPair(m, contents, c, d) <==> IsPair(m, init, c, d) {
      }
    }
  }

  /** Markers that are empty or the same find nothing anywhere. */
  lemma {:induction false} DegenerateFindsNothing(begin: string, end: string, text: string)
    requires begin == "" || end == "" || begin == end
    ensures MarkerOffsets(Markers(begin, end), text) == None
  {
  }

  // -------------------------------------------------------------- editing

  function ToEol(body: string, eol: Eol): string
  {
    if body == "" then ""
    else (if body[0] == '\n' then EolText(eol) else [body[0]]) + ToEol(body[1..], eol)
  }

  function Block(m: Markers, body: string, eol: Eol): string
  {
    (m.begin + EolText(eol)) + ToEol(body, eol) + (m.end + EolText(eol))
  }

  /** An unterminated file gets a line break before the block is appended. */
  function AppendBase(existing: string): string
  {
    if Terminated(existing) then existing else existing + EolText(Detect(existing))
  }

  /** The text kept before and after the block that an edit writes. */
  function Around(m: Markers, existing: string): (string, string)
  {
    match MarkerOffsets(m, existing)
    case None => (AppendBase(existing), "")
    case Some((start, endAt)) =>
      OffsetsInBounds(m, existing);
      (existing[..start], StripLeadingTerminator(existing[endAt + |m.end|..]))
  }

  function Upsert(m: Markers, existing: string, body: string): string
  {
    var (before, after) := Around(m, existing);
    before + Block(m, body, Detect(existing)) + after
  }

  function Remove(m: Markers, existing: string): Option<string>
  {
    if MarkerOffsets(m, existing).None? then None
    else var (before, after) := Around(m, existing); Some(before + after)
  }

  function ExtractBody(m: Markers, existing: string): Option<string>
  {
    match MarkerOffsets(m, existing)
    case None => None
    case Some((start, endAt)) =>
      OffsetsInBounds(m, existing);
      Some(StripLeadingTerminator(existing[start + |m.begin|..endAt]))
  }

  method PushBodyWithEol(out: string, body: string, eol: Eol) returns (r: string)
    ensures r == out + ToEol(body, eol)
  {
    if eol == Lf {
      ToEolLf(body);
      return out + body;
    }
    r := out;
    var rest := body;
    while '\n' in rest
      invariant out + ToEol(body, eol) == r + ToEol(rest, eol)
      decreases |rest|
    {
      var idx := IndexOf(rest, '\n').value;
      ToEolLine(rest, idx, eol);
      r := r + rest[..idx] + "\r\n";
      rest := rest[idx + 1..];
    }
    ToEolPlain(rest, eol);
    r := r + rest;
  }

  method UpsertText(existing: string, begin: string, end: string, body: string) returns (out: string)
    ensures out == Upsert(Markers(begin, end), existing, body)
  {
    hide Detect, ToEol, MarkerOffsets, StripLeadingTerminator;
    var eol := Detect(existing);
    var nl := EolText(eol);
    var found := FindMarkers(existing, begin, end);
    var before, after, append := existing, "", true;
    if found.Some? {
      OffsetsInBounds(Markers(begin, end), existing);
      var (start, endAt) := found.value;
      before, after, append := existing[..start], StripLeadingTerminator(existing[endAt + |end|..]), false;
    }
    out := before;
    if append && before != "" && before[|before| - 1] != '\n' {
      out := out + nl;
    }
    Regroup(out, begin, nl, ToEol(body, eol), end, after);
    out := out + begin;
    out := out + nl;
    out := PushBodyWithEol(out, body, eol);
    out := out + end;
    out := out + nl;
    out := out + after;
  }

  lemma {:induction false} Regroup(base: string, begin: string, nl: string, body: string, end: string, after: string)
    ensures base + begin + nl + body + end + nl + after == base + ((begin + nl) + body + (end + nl)) + after
  {
  }

  // ---------------------------------------------------- line break lemmas

  lemma {:induction false} ToEolLf(body: string)
    ensures ToEol(body, Lf) == body
  {
    if body != "" {
      ToEolLf(body[1..]);
    }
  }

  lemma {:induction false} ToEolPlain(s: string, eol: Eol)
    requires '\n' !in s
    ensures ToEol(s, eol) == s
  {
    if s != "" {
      ToEolPlain(s[1..], eol);
    }
  }

  lemma {:induction false} ToEolLine(s: string, i: nat, eol: Eol)
    requires i < |s| && s[i] == '\n' && '\n' !in s[..i]
    ensures ToEol(s, eol) == s[..i] + EolText(eol) + ToEol(s[i + 1..], eol)
  {
    if i > 0 {
      assert s[..i] == [s[0]] + s[1..][..i - 1];
      assert s[1..][i..] == s[i + 1..];
      ToEolLine(s[1..], i - 1, eol);
    }
  }

  /** The first line break decides, whatever follows it. */
  lemma {:induction false} DetectOfConcat(a: string, b: string)
    requires '\n' in a
    ensures Detect(a + b) == Detect(a)
  {
    var i := IndexOf(a, '\n').value;
    assert (a + b)[..i] == a[..i];
    IndexOfIs(a + b, '\n', i);
  }

  /** A marker line is the marker and nothing, or one terminator, after it. */
  lemma {:induction false} MarkerLineForm(line: string, marker: string, rest: string)
    requires StripTerminator(line) == marker && line != ""
    requires Terminated(line) || rest == ""
    ensures |marker| <= |line| && line[..|marker|] == marker
    ensures StripLeadingTerminator((line + rest)[|marker|..]) == rest
  {
    var tail := (line + rest)[|marker|..];
    if line != "" && line[|line| - 1] == '\n' {
      if |marker| == |line| - 1 {
        assert tail == "\n" + rest && tail[1..] == rest && tail[0] == '\n';
        assert "\n" <= tail && !("\r\n" <= tail);
      } else {
        assert line == marker + "\r\n";
        assert tail == "\r\n" + rest && tail[2..] == rest && tail[..2] == "\r\n";
        assert "\r\n" <= tail;
      }
    } else {
      assert tail == "";
    }
  }

  lemma {:induction false} OffsetsInBounds(m: Markers, existing: string)
    ensures match MarkerOffsets(m, existing)
            case None => true
            case Some((start, endAt)) => start + |m.begin| <= endAt && endAt + |m.end| <= |existing|
  {
    if Pair(m, existing).Found? {
      var Found(b, e) := Pair(m, existing);
      var ls := Lines(existing);
      PairShape(m, existing);
      OffsetsAreLines(m, existing, b, e, |Flat(ls[..b])|, |Flat(ls[..e])|);
    }
  }

  /** The slices the edits take, in terms of lines. */
  lemma {:induction false} OffsetsAreLines(m: Markers, existing: string, b: nat, e: nat, start: nat, endAt: nat)
    requires Pair(m, existing) == Found(b, e) && b < e < |Lines(existing)|
    requires start == |Flat(Lines(existing)[..b])| && endAt == |Flat(Lines(existing)[..e])|
    ensures start + |m.begin| <= endAt && endAt + |m.end| <= |existing|
    ensures existing[..start] == Flat(Lines(existing)[..b])
    ensures StripLeadingTerminator(existing[endAt + |m.end|..]) == Flat(Lines(existing)[e + 1..])
    ensures StripLeadingTerminator(existing[start + |m.begin|..endAt]) == Flat(Lines(existing)[b + 1..e])
  {
    PairShape(m, existing);
    LinesShape(existing);
    SlicesAreLines(m, existing, Lines(existing), b, e, start, endAt);
  }

  lemma {:induction false} SlicesAreLines(m: Markers, text: string, ls: seq<string>, b: nat, e: nat, start: nat,
                                          endAt: nat)
    requires b < e < |ls| && WellCut(ls) && text == Flat(ls)
    requires StripTerminator(ls[b]) == m.begin && StripTerminator(ls[e]) == m.end
    requires start == |Flat(ls[..b])| && endAt == |Flat(ls[..e])|
    ensures start + |m.begin| <= endAt && endAt + |m.end| <= |text|
    ensures text[..start] == Flat(ls[..b])
    ensures StripLeadingTerminator(text[endAt + |m.end|..]) == Flat(ls[e + 1..])
    ensures StripLeadingTerminator(text[start + |m.begin|..endAt]) == Flat(ls[b + 1..e])
  {
    FlatSplit(ls, e);
    FlatSplit(ls[..e], b);
    assert ls[..e][..b] == ls[..b] && ls[..e][b + 1..] == ls[b + 1..e];
    assert e == |ls| - 1 ==> ls[e + 1..] == [];
    var before, body, after := Flat(ls[..b]), Flat(ls[b + 1..e]), Flat(ls[e + 1..]);
    var head := before + ls[b] + body;
    EditSlices(m, before, ls[b], body, head, ls[e], after, text, start, endAt);
  }

  /** The same on five consecutive parts of a text. */
  lemma {:induction false} EditSlices(m: Markers, before: string, opening: string, body: string, head: string,
                   closing: string, after: string, text: string, start: nat, endAt: nat)
    requires StripTerminator(opening) == m.begin && opening != "" && Terminated(opening)
    requires StripTerminator(closing) == m.end && closing != "" && (Terminated(closing) || after == "")
    requires head == before + opening + body && text == head + closing + after
    requires start == |before| && endAt == |head|
    ensures start + |m.begin| <= endAt && endAt + |m.end| <= |text|
    ensures text[..start] == before
    ensures StripLeadingTerminator(text[endAt + |m.end|..]) == after
    ensures StripLeadingTerminator(text[start + |m.begin|..endAt]) == body
  {
    hide StripTerminator, StripLeadingTerminator, Terminated;
    MarkerSlice(head, closing, after, m.end);
    MarkerSlice(before, opening, body, m.begin);
    assert text[start + |m.begin|..endAt] == head[start + |m.begin|..];
  }

  /** Behind a marker line's text stands one terminator and then the following lines. */
  lemma {:induction false} MarkerSlice(before: string, line: string, after: string, marker: string)
    requires StripTerminator(line) == marker && line != "" && (Terminated(line) || after == "")
    ensures |before| + |marker| <= |before + line + after|
    ensures (before + line + after)[..|before|] == before
    ensures StripLeadingTerminator((before + line + after)[|before| + |marker|..]) == after
  {
    var s := before + line + after;
    MarkerLineForm(line, marker, after);
    assert s[|before| + |marker|..] == (line + after)[|marker|..];
  }
}
