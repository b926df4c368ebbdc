/** What patterns mean, told from their text: which texts compile, and which names and paths
    they match. */
module GlobMeaning {
  import opened Text
  import opened LexicalPath
  import opened PathAlgebra
  import opened Globs

  function Glued<T>(parts: seq<seq<T>>): seq<T>
  {
    if parts == [] then [] else parts[0] + Glued(parts[1..])
  }

  // --------------------------------------------------------------- matching

  /** What one piece may stand for. */
  predicate Fits(piece: Piece, part: string)
  {
    match piece
    case Lit(c) => part == [c]
    case AnyChar => |part| == 1
    case AnySeq => true
    case Class(negated, spans) => |part| == 1 && (if negated then !InSpans(spans, part[0]) else InSpans(spans, part[0]))
  }

  predicate Fill(pieces: seq<Piece>, parts: seq<string>)
  {
    |parts| == |pieces| && forall i :: 0 <= i < |pieces| ==> Fits(pieces[i], parts[i])
  }

  lemma {:induction false} FilledMatches(pieces: seq<Piece>, parts: seq<string>)
    requires Fill(pieces, parts)
    ensures MatchPieces(pieces, Glued(parts))
    decreases |pieces|, |Glued(parts)|
  {
    hide InSpans;
    if pieces != [] {
      var s, rest := Glued(parts), Glued(parts[1..]);
      if pieces[0].AnySeq? && parts[0] != "" {
        var shorter := [parts[0][1..]] + parts[1..];
        assert shorter[1..] == parts[1..];
        assert s == [parts[0][0]] + Glued(shorter);
        FilledMatches(pieces, shorter);
        assert s[1..] == Glued(shorter);
      } else {
        FilledMatches(pieces[1..], parts[1..]);
        assert s == parts[0] + rest;
        assert parts[0] == "" ==> s == rest;
        assert |parts[0]| == 1 ==> s[1..] == rest && s[0] == parts[0][0];
      }
    }
  }

  lemma {:induction false} MatchedIsFilled(pieces: seq<Piece>, s: string) returns (parts: seq<string>)
    requires MatchPieces(pieces, s)
    ensures Fill(pieces, parts) && Glued(parts) == s
    decreases |pieces|, |s|
  {
    hide InSpans;
    if pieces == [] {
      parts := [];
    } else if pieces[0].AnySeq? && !MatchPieces(pieces[1..], s) {
      var longer := MatchedIsFilled(pieces, s[1..]);
      parts := [[s[0]] + longer[0]] + longer[1..];
      assert parts[1..] == longer[1..];
      assert s == [s[0]] + (longer[0] + Glued(longer[1..]));
    } else {
      var n := if pieces[0].AnySeq? then 0 else 1;
      var rest := MatchedIsFilled(pieces[1..], s[n..]);
      parts := [s[..n]] + rest;
      assert parts[1..] == rest && s == s[..n] + s[n..];
    }
  }

  /** A name matches a component exactly when it is cut into parts that the pieces allow. */
  lemma {:induction false} PiecesMean(pieces: seq<Piece>, s: string)
    ensures MatchPieces(pieces, s) <==> exists parts :: Fill(pieces, parts) && Glued(parts) == s
  {
    hide Fill, Glued, MatchPieces;
    if MatchPieces(pieces, s) {
      var parts := MatchedIsFilled(pieces, s);
    }
    if parts :| Fill(pieces, parts) && Glued(parts) == s {
      FilledMatches(pieces, parts);
    }
  }

  /** What the component at `i` may span: one name, or for `**` any number, but at the end of
      the pattern at least one. */
  predicate Spanned(comps: seq<Comp>, i: nat, part: seq<string>)
    requires i < |comps|
  {
    match comps[i]
    case Plain(pieces) => |part| == 1 && MatchPieces(pieces, part[0])
    case Recursive => i == |comps| - 1 ==> part != []
  }

  predicate SpanAll(comps: seq<Comp>, parts: seq<seq<string>>)
  {
    |parts| == |comps| && forall i :: 0 <= i < |comps| ==> Spanned(comps, i, parts[i])
  }

  lemma {:induction false} SpannedMatches(comps: seq<Comp>, parts: seq<seq<string>>)
    requires SpanAll(comps, parts)
    ensures MatchComps(comps, Glued(parts))
    decreases |comps|, |Glued(parts)|
  {
    hide MatchPieces;
    if comps != [] {
      var path, rest := Glued(parts), Glued(parts[1..]);
      if comps[0].Recursive? && |comps| > 1 && parts[0] != [] {
        var shorter := [parts[0][1..]] + parts[1..];
        assert shorter[1..] == parts[1..];
        assert path == [parts[0][0]] + Glued(shorter);
        SpannedMatches(comps, shorter);
        assert path[1..] == Glued(shorter);
      } else if comps[0].Plain? || |comps| > 1 {
        assert forall i :: 0 <= i < |comps| - 1 && Spanned(comps, i + 1, parts[i + 1]) ==>
                 Spanned(comps[1..], i, parts[1..][i]);
        SpannedMatches(comps[1..], parts[1..]);
        assert parts[0] == [] ==> path == rest;
        assert |parts[0]| == 1 ==> path[1..] == rest && path[0] == parts[0][0];
      }
    }
  }

  lemma {:induction false} MatchedIsSpanned(comps: seq<Comp>, path: seq<string>) returns (parts: seq<seq<string>>)
    requires MatchComps(comps, path)
    ensures SpanAll(comps, parts) && Glued(parts) == path
    decreases |comps|, |path|
  {
    hide MatchPieces;
    if comps == [] {
      parts := [];
    } else if comps == [Recursive] {
      parts := [path];
      assert parts[1..] == [] && path + [] == path;
    } else if comps[0].Recursive? && !MatchComps(comps[1..], path) {
      var longer := MatchedIsSpanned(comps, path[1..]);
      parts := [[path[0]] + longer[0]] + longer[1..];
      assert parts[1..] == longer[1..];
      assert path == [path[0]] + (longer[0] + Glued(longer[1..]));
    } else {
      var n := if comps[0].Recursive? then 0 else 1;
      var rest := MatchedIsSpanned(comps[1..], path[n..]);
      parts := [path[..n]] + rest;
      assert parts[1..] == rest && path == path[..n] + path[n..];
      forall i | 0 <= i < |comps| ensures Spanned(comps, i, parts[i]) {
        assert i > 0 ==> Spanned(comps[1..], i - 1, rest[i - 1]);
      }
    }
  }

  /** A path matches exactly when its components are cut into stretches that the components of
      the pattern span. */
  lemma {:induction false} CompsMean(comps: seq<Comp>, path: seq<string>)
    ensures MatchComps(comps, path) <==> exists parts :: SpanAll(comps, parts) && Glued(parts) == path
  {
    hide SpanAll, Glued, MatchComps;
    if MatchComps(comps, path) {
      var parts := MatchedIsSpanned(comps, path);
    }
    if parts :| SpanAll(comps, parts) && Glued(parts) == path {
      SpannedMatches(comps, parts);
    }
  }

  // ---------------------------------------------------------------- spelling

  /** What stands between the brackets; the first character may be a closing bracket itself. */
  predicate IsBody(body: string)
  {
    body != "" && ']' !in body[1..]
  }

  predicate IsClass(unit: string, negated: bool, body: string)
  {
    IsBody(body) && (!negated ==> body[0] != '!') && unit == (if negated then "[!" else "[") + body + "]"
  }

  /** Whether a character is one of those listed, singly or by the ends of a range. */
  predicate Lists(body: string, c: char)
  {
    body != "" &&
    if |body| >= 3 && body[1] == '-' then body[0] <= c <= body[2] || Lists(body[3..], c)
    else c == body[0] || Lists(body[1..], c)
  }

  /** The text of a pattern that one piece was compiled from. */
  ghost predicate Spells(unit: string, piece: Piece)
  {
    match piece
    case Lit(c) => unit == [c] && c != '*' && c != '?' && c != '['
    case AnyChar => unit == "?"
    case AnySeq => unit == "*"
    case Class(negated, spans) =>
      exists body :: IsClass(unit, negated, body) && forall c :: InSpans(spans, c) <==> Lists(body, c)
  }

  ghost predicate SpellAll(units: seq<string>, pieces: seq<Piece>)
  {
    && |units| == |pieces| && (forall i :: 0 <= i < |units| ==> Spells(units[i], pieces[i]))
    && forall i :: 0 <= i < |pieces| - 1 ==> !(pieces[i].AnySeq? && pieces[i + 1].AnySeq?)
  }

  lemma {:induction false} SpansList(body: string, c: char)
    ensures InSpans(Spans(body), c) <==> Lists(body, c)
    decreases |body|
  {
    if body != "" {
      var n := if |body| >= 3 && body[1] == '-' then 3 else 1;
      var first, rest := CharSpan(body[0], body[n - 1]), Spans(body[n..]);
      SpansList(body[n..], c);
      assert Spans(body) == [first] + rest;
      InSpansCons(first, rest, c);
      hide InSpans, Spans;
    }
  }

  lemma {:induction false} InSpansCons(first: CharSpan, rest: seq<CharSpan>, c: char)
    ensures InSpans([first] + rest, c) <==> first.lo <= c <= first.hi || InSpans(rest, c)
  {
    var all := [first] + rest;
    assert all[0] == first;
    if i :| 0 <= i < |rest| && rest[i].lo <= c <= rest[i].hi {
      assert all[i + 1] == rest[i];
    }
    assert forall i :: 0 < i < |all| ==> all[i] == rest[i - 1];
  }

  /** What the reader takes for a bracket expression at the start of a text is one. */
  lemma {:induction false} ParsedIsClass(text: string) returns (body: string)
    requires text != "" && text[0] == '[' && ParseClass(text).Some?
    ensures var (piece, n) := ParseClass(text).value;
            piece.Class? && n <= |text| && IsClass(text[..n], piece.negated, body) && piece.spans == Spans(body)
  {
    hide Spans;
    var from := if |text| >= 4 && text[1] == '!' then 3 else 2;
    var j := IndexOf(text[from..], ']').value;
    body := text[from - 1..from + j];
    assert body[1..] == text[from..][..j];
    var n := from + j + 1;
    assert text[n - 1] == text[from..][j] == ']';
    assert text[..n] == text[..from - 1] + body + "]";
    assert text[..from - 1] == if from == 3 then "[!" else "[";
  }

  /** And every bracket expression is read whole, whatever follows. */
  lemma {:induction false} ClassIsParsed(unit: string, negated: bool, body: string, rest: string)
    requires IsClass(unit, negated, body)
    ensures unit[0] == '[' && ParseClass(unit + rest) == Some((Class(negated, Spans(body)), |unit|))
  {
    hide Spans;
    var text := unit + rest;
    var from := if negated then 3 else 2;
    var j := |body| - 1;
    assert text == (if negated then "[!" else "[") + body + "]" + rest;
    assert text[from - 1..from + j] == body;
    assert text[from..] == body[1..] + "]" + rest;
    assert text[from..][..j] == body[1..] && text[from..][j] == ']';
    IndexOfIs(text[from..], ']', j);
  }

  /** Compiling reads one unit after the other. */
  lemma {:induction false} UnitSpelled(text: string)
    requires text != "" && CompilePieces(text).Some?
    ensures var rest := text[Unit(text)..];
            && CompilePieces(rest).Some? && CompilePieces(text).value != []
            && CompilePieces(text).value == [CompilePieces(text).value[0]] + CompilePieces(rest).value
    ensures Spells(text[..Unit(text)], CompilePieces(text).value[0])
    ensures CompilePieces(text).value[0].AnySeq? ==> Unit(text) == 1 && (|text| > 1 ==> text[1] != '*')
  {
    hide ParseClass, Spans, InSpans, Lists, IsClass;
    if text[0] == '[' {
      ClassSpelled(text);
      hide Spells;
    }
  }

  lemma {:induction false} ClassSpelled(text: string)
    requires text != "" && text[0] == '[' && ParseClass(text).Some?
    ensures Spells(text[..ParseClass(text).value.1], ParseClass(text).value.0) && ParseClass(text).value.0.Class?
  {
    hide ParseClass, Spans, InSpans, Lists, IsClass;
    var body := ParsedIsClass(text);
    forall c ensures InSpans(Spans(body), c) <==> Lists(body, c) {
      SpansList(body, c);
    }
  }

  lemma {:induction false} StarFirst(text: string)
    requires CompilePieces(text).Some?
    ensures var pieces := CompilePieces(text).value;
            pieces != [] && pieces[0].AnySeq? <==> text != "" && text[0] == '*'
  {
    if text != "" && text[0] == '[' {
      ClassSpelled(text);
    }
    hide ParseClass;
  }

  lemma {:induction false} CompiledIsSpelled(text: string) returns (units: seq<string>)
    requires CompilePieces(text).Some?
    ensures SpellAll(units, CompilePieces(text).value) && Glued(units) == text
    decreases |text|
  {
    hide *;
    if text == "" {
      NothingCompiles();
      NothingSpelled();
      units := [];
    } else {
      var n := Unit(text);
      UnitSpelled(text);
      StarFirst(text[n..]);
      var rest := CompiledIsSpelled(text[n..]);
      units := [text[..n]] + rest;
      GluedCons(text[..n], rest);
      assert text == text[..n] + text[n..];
      SpellCons(text[..n], rest, CompilePieces(text).value[0], CompilePieces(text[n..]).value);
    }
  }

  lemma {:induction false} NothingSpelled()
    ensures SpellAll([], []) && Glued<char>([]) == ""
  {
  }

  lemma {:induction false} GluedCons<T>(first: seq<T>, rest: seq<seq<T>>)
    ensures Glued([first] + rest) == first + Glued(rest)
  {
    assert ([first] + rest)[1..] == rest;
  }

  lemma {:induction false} SpellCons(unit: string, units: seq<string>, piece: Piece, pieces: seq<Piece>)
    requires Spells(unit, piece) && SpellAll(units, pieces)
    requires piece.AnySeq? && pieces != [] ==> !pieces[0].AnySeq?
    ensures SpellAll([unit] + units, [piece] + pieces)
  {
    hide Spells;
    var us, ps := [unit] + units, [piece] + pieces;
    assert forall i :: 0 < i < |us| ==> us[i] == units[i - 1] && ps[i] == pieces[i - 1];
    forall i | 0 <= i < |ps| - 1 ensures !(ps[i].AnySeq? && ps[i + 1].AnySeq?) {
      assert ps[i + 1] == pieces[i];
    }
  }

  /** The same names fit. */
  ghost predicate Alike(a: seq<Piece>, b: seq<Piece>)
  {
    |a| == |b| && forall i, part :: 0 <= i < |a| ==> (Fits(a[i], part) <==> Fits(b[i], part))
  }

  /** A unit is read as a piece like the one it spells, whatever follows; stars must not meet. */
  lemma {:induction false} UnitIsRead(unit: string, piece: Piece, rest: string)
    requires Spells(unit, piece) && CompilePieces(rest).Some?
    requires piece.AnySeq? ==> rest == "" || rest[0] != '*'
    ensures CompilePieces(unit + rest).Some?
    ensures var pieces := CompilePieces(unit + rest).value;
            && pieces != [] && pieces[1..] == CompilePieces(rest).value
            && forall part :: Fits(pieces[0], part) <==> Fits(piece, part)
  {
    hide ParseClass, Spans, InSpans, Lists, IsClass;
    var text := unit + rest;
    if piece.Class? {
      var body :| IsClass(unit, piece.negated, body) && forall c :: InSpans(piece.spans, c) <==> Lists(body, c);
      ClassIsParsed(unit, piece.negated, body, rest);
      assert text[|unit|..] == rest && text[0] == '[';
      forall c ensures InSpans(Spans(body), c) <==> InSpans(piece.spans, c) {
        SpansList(body, c);
      }
    } else {
      assert text[0] == unit[0] && text[1..] == rest && (|text| > 1 ==> text[1] == rest[0]);
    }
  }

  lemma {:induction false} SpelledCompiles(units: seq<string>, pieces: seq<Piece>)
    requires SpellAll(units, pieces)
    ensures CompilePieces(Glued(units)).Some? && Alike(CompilePieces(Glued(units)).value, pieces)
  {
    hide Spells, CompilePieces, Fits;
    if units == [] {
      NothingCompiles();
    } else {
      var rest := Glued(units[1..]);
      SpelledRest(units, pieces);
      SpelledCompiles(units[1..], pieces[1..]);
      if pieces[0].AnySeq? && rest != "" {
        StarFirst(rest);
        NoStarBehind(units, pieces);
      }
      UnitIsRead(units[0], pieces[0], rest);
      AlikeCons(CompilePieces(Glued(units)).value, pieces);
    }
  }

  lemma {:induction false} NothingCompiles()
    ensures CompilePieces("") == Some([])
  {
  }

  lemma {:induction false} SpelledRest(units: seq<string>, pieces: seq<Piece>)
    requires SpellAll(units, pieces) && units != []
    ensures SpellAll(units[1..], pieces[1..]) && Spells(units[0], pieces[0])
  {
    hide Spells;
    forall i | 0 <= i < |pieces| - 2 ensures !(pieces[1..][i].AnySeq? && pieces[1..][i + 1].AnySeq?) {
      assert !(pieces[i + 1].AnySeq? && pieces[i + 2].AnySeq?);
    }
  }

  /** Behind a star no star is spelled. */
  lemma {:induction false} NoStarBehind(units: seq<string>, pieces: seq<Piece>)
    requires SpellAll(units, pieces) && units != [] && pieces[0].AnySeq? && Glued(units[1..]) != ""
    ensures Glued(units[1..])[0] != '*'
  {
    var rest := units[1..];
    assert rest != [] && rest[0] == units[1] && Spells(units[1], pieces[1]);
    SpelledStart(units[1], pieces[1]);
    hide Spells;
    assert Glued(rest)[0] == units[1][0];
  }

  lemma {:induction false} SpelledStart(unit: string, piece: Piece)
    requires Spells(unit, piece)
    ensures unit != "" && (unit[0] == '*' <==> piece.AnySeq?)
  {
  }

  lemma {:induction false} AlikeCons(a: seq<Piece>, b: seq<Piece>)
    requires a != [] && b != [] && Alike(a[1..], b[1..]) && forall part :: Fits(a[0], part) <==> Fits(b[0], part)
    ensures Alike(a, b)
  {
    hide Fits;
    forall i, part | 0 <= i < |a| ensures Fits(a[i], part) <==> Fits(b[i], part) {
      if i > 0 {
        assert Fits(a[1..][i - 1], part) <==> Fits(b[1..][i - 1], part);
      }
    }
  }

  /** A component compiles exactly when it is spelled from units without two stars meeting. */
  lemma {:induction false} CompilesExactly(text: string)
    ensures CompilePieces(text).Some? <==> exists units, pieces :: SpellAll(units, pieces) && Glued(units) == text
  {
    hide SpellAll, Glued, CompilePieces;
    if CompilePieces(text).Some? {
      var units := CompiledIsSpelled(text);
    }
    if units, pieces :| SpellAll(units, pieces) && Glued(units) == text {
      SpelledCompiles(units, pieces);
    }
  }

  /** However a component is spelled from units, it matches just the names cut into parts that
      fit them. */
  lemma {:induction false} ComponentMeans(text: string, units: seq<string>, pieces: seq<Piece>, s: string)
    requires SpellAll(units, pieces) && Glued(units) == text
    ensures CompilePieces(text).Some?
    ensures MatchPieces(CompilePieces(text).value, s) <==> exists parts :: Fill(pieces, parts) && Glued(parts) == s
  {
    hide Glued, SpellAll, CompilePieces, MatchPieces, Fits;
    SpelledCompiles(units, pieces);
    PiecesMean(CompilePieces(text).value, s);
    forall parts ensures Fill(CompilePieces(text).value, parts) <==> Fill(pieces, parts) {
    }
    hide Alike, Fill;
  }

  // ---------------------------------------------------------- metacharacters

  /** The metacharacters are the characters that do not stand for themselves. */
  lemma {:induction false} MetaIsSpecial(c: char)
    ensures IsMeta(c) <==> CompilePieces([c]) != Some([Lit(c)])
  {
    assert [c][1..] == "";
    NothingCompiles();
    assert CompilePieces([c][1..]) == Some([]);
    assert forall piece: Piece :: [piece] + [] == [piece];
    assert forall piece: Piece :: [piece][0] == piece;
  }

  /** The bound is the whole text without metacharacters, otherwise the text before the first. */
  lemma {:induction false} BoundIsLiteralStart(glob: Glob)
    requires ValidGlob(glob)
    ensures glob.firstMeta.Some? ==> glob.firstMeta.value < |glob.text|
    ensures match BoundOf(glob)
            case Exact(p) => p == glob.text && Free(IsMeta, p)
            case Prefix(p) => p != "" && p < glob.text && Free(IsMeta, p) && IsMeta(glob.text[|p|])
            case AnyPath => glob.text != "" && IsMeta(glob.text[0])
  {
    hide Compile, Canonical;
    assert glob.text[..|glob.text|] == glob.text;
  }

  // -------------------------------------------------- patterns without any

  lemma {:induction false} LiteralCompiles(text: string)
    requires Free(IsMeta, text)
    ensures CompileComp(text).Some? && CompileComp(text).value.Plain?
    ensures MatchPieces(CompileComp(text).value.pieces, text)
  {
    if text == "" {
      NothingCompiles();
    } else {
      assert !IsMeta(text[0]);
      LiteralCompiles(text[1..]);
      var rest := CompilePieces(text[1..]).value;
      assert CompilePieces(text) == Some([Lit(text[0])] + rest);
      assert ([Lit(text[0])] + rest)[1..] == rest;
    }
  }

  lemma {:induction false} LiteralsMatch(cs: seq<string>)
    requires forall i :: 0 <= i < |cs| ==> Free(IsMeta, cs[i])
    ensures CompileAll(cs).Some? && MatchComps(CompileAll(cs).value, cs)
  {
    hide CompileComp, MatchPieces, Free;
    if cs != [] {
      LiteralCompiles(cs[0]);
      LiteralsMatch(cs[1..]);
      var first, rest := CompileComp(cs[0]).value, CompileAll(cs[1..]).value;
      assert ([first] + rest)[1..] == rest;
    }
  }

  lemma {:induction false} FreeParts(a: string, b: string)
    ensures Free(IsMeta, a + b) <==> Free(IsMeta, a) && Free(IsMeta, b)
  {
    assert forall i :: 0 <= i < |a| ==> (a + b)[i] == a[i];
    assert forall i :: 0 <= i < |b| ==> (a + b)[|a| + i] == b[i];
  }

  /** Cutting text without brackets is cutting at every separator. */
  lemma {:induction false} CutWithoutBrackets(text: string)
    requires Free(IsMeta, text)
    ensures Cut(text) == Components(text)
    ensures forall i :: 0 <= i < |Cut(text)| ==> Free(IsMeta, Cut(text)[i])
  {
    CutPieces(text);
    CutJoins(text);
    hide Cut, Free;
    SplitOfJoin(IsSlash, '/', Cut(text));
  }

  lemma {:induction false} CutPieces(text: string)
    requires Free(IsMeta, text)
    ensures forall i :: 0 <= i < |Cut(text)| ==> Free(IsSlash, Cut(text)[i]) && Free(IsMeta, Cut(text)[i])
    decreases |text|
  {
    if text != "" {
      assert !IsMeta(text[0]) && text == [text[0]] + text[1..];
      FreeParts([text[0]], text[1..]);
      CutPieces(text[1..]);
      var rest := Cut(text[1..]);
      assert Unit(text) == 1 && text[..1] == [text[0]];
      if text[0] != '/' {
        FreeParts([text[0]], rest[0]);
        assert Free(IsSlash, [text[0]] + rest[0]);
      }
    }
  }

  /** A pattern without metacharacters matches its own text and nothing else. */
  lemma {:induction false} ExactMatchesItself(glob: Glob, path: string)
    requires ValidGlob(glob) && glob.firstMeta.None?
    ensures Matches(glob, path) <==> path == glob.text
  {
    hide Compile, Canonical, Cut, Components, CompileAll, MatchComps, Free;
    if Matches(glob, path) {
      BoundIsSound(glob, path);
    }
    if path == glob.text {
      CutWithoutBrackets(path);
      LiteralsMatch(Cut(path));
      CompileIs(path);
    }
  }

  lemma {:induction false} CompileIs(text: string)
    ensures Compile(text) == CompileAll(Cut(text))
  {
  }

  // ------------------------------------------------- the directory to walk

  lemma {:induction false} LiteralIsClosed(text: string)
    requires Free(IsMeta, text)
    ensures Closed(text)
  {
    if text != "" {
      assert !IsMeta(text[0]) && text == [text[0]] + text[1..];
      FreeParts([text[0]], text[1..]);
      LiteralIsClosed(text[1..]);
    }
  }

  /** The first component reaches over plain text to the first metacharacter or the end. */
  lemma {:induction false} FirstReaches(text: string, n: nat)
    requires n <= |text| && Free(IsMeta, text[..n]) && '/' !in text[..n]
    requires n < |text| ==> IsMeta(text[n])
    ensures n == |text| ==> Cut(text) == [text]
    ensures n < |text| ==> !Free(IsMeta, Cut(text)[0])
  {
    if n > 0 {
      var rest := text[1..];
      assert !IsMeta(text[..n][0]) && text[..n][0] != '/';
      assert text[..n] == [text[0]] + rest[..n - 1];
      FreeParts([text[0]], rest[..n - 1]);
      FirstReaches(rest, n - 1);
      assert Unit(text) == 1 && text == [text[0]] + rest;
      FreeParts([text[0]], Cut(rest)[0]);
      assert text[..1] == [text[0]];
    } else if text != "" {
      assert Cut(text)[0][0] == text[0];
    }
  }

  /** `dir` is the first `k` components, none with a metacharacter; the next has one, or is the
      last. */
  predicate DeepestFixed(cs: seq<string>, dir: string, k: nat)
  {
    && k < |cs| && dir == FromComponents(cs[..k])
    && (forall i :: 0 <= i < k ==> Free(IsMeta, cs[i]))
    && (k == |cs| - 1 || !Free(IsMeta, cs[k]))
  }

  lemma {:induction false} NoneFixed(text: string)
    requires |Cut(text)| == 1 || !Free(IsMeta, Cut(text)[0])
    ensures DeepestFixed(Cut(text), "", 0)
  {
  }

  /** The directory walked is the deepest that the pattern fixes: all components before the
      first with a metacharacter, without the last. */
  lemma {:induction false} TraversalDirIsDeepest(glob: Glob) returns (k: nat)
    requires ValidGlob(glob)
    ensures glob.firstMeta.Some? ==> glob.firstMeta.value <= |glob.text|
    ensures DeepestFixed(Cut(glob.text), TraversalDir(glob), k)
  {
    BoundIsLiteralStart(glob);
    TextAsBound(glob);
    hide *;
    var text := glob.text;
    var n := match glob.firstMeta case Some(m) => m case None => |text|;
    match LastIndexOf(text[..n], '/')
    case None =>
      k := 0;
      FirstReaches(text, n);
      OneCut(text);
      NoneFixed(text);
    case Some(i) =>
      SlashInBound(text, n, i);
      k := |Cut(text[..i])|;
  }

  lemma {:induction false} TextAsBound(glob: Glob)
    requires ValidGlob(glob) && (glob.firstMeta.Some? ==> glob.firstMeta.value < |glob.text|)
    ensures var n := match glob.firstMeta case Some(m) => m case None => |glob.text|;
            && Free(IsMeta, glob.text[..n]) && (n < |glob.text| ==> IsMeta(glob.text[n]))
            && match LastIndexOf(glob.text[..n], '/')
               case None => TraversalDir(glob) == "" && '/' !in glob.text[..n]
               case Some(i) => i < n && TraversalDir(glob) == glob.text[..n][..i]
  {
    hide Compile, Canonical;
    assert glob.text[..|glob.text|] == glob.text;
  }

  lemma {:induction false} SlashInBound(text: string, n: nat, i: nat)
    requires i < n <= |text| && Free(IsMeta, text[..n]) && (n < |text| ==> IsMeta(text[n]))
    requires LastIndexOf(text[..n], '/') == Some(i)
    ensures text[..n][..i] == text[..i] && DeepestFixed(Cut(text), text[..i], |Cut(text[..i])|)
  {
    hide *;
    var head, rest := text[..i], text[i + 1..];
    SlashParts(text, n, i);
    LiteralIsClosed(head);
    CutAtOuter(text, i);
    CutJoins(head);
    CutWithoutBrackets(head);
    FirstReaches(rest, n - i - 1);
    OneCut(rest);
    DeepestIs(Cut(head), Cut(rest), head);
  }

  lemma {:induction false} OneCut(text: string)
    ensures Cut(text) == [text] ==> |Cut(text)| == 1
  {
  }

  lemma {:induction false} SlashParts(text: string, n: nat, i: nat)
    requires i < n <= |text| && Free(IsMeta, text[..n]) && (n < |text| ==> IsMeta(text[n]))
    requires LastIndexOf(text[..n], '/') == Some(i)
    ensures text[..n][..i] == text[..i] && text[i] == '/' && Free(IsMeta, text[..i])
    ensures var rest := text[i + 1..];
            && Free(IsMeta, rest[..n - i - 1]) && '/' !in rest[..n - i - 1]
            && (n - i - 1 < |rest| ==> IsMeta(rest[n - i - 1]))
  {
    hide Free, LastIndexOf;
    var p, head, rest := text[..n], text[..i], text[i + 1..];
    assert p == head + (['/'] + p[i + 1..]) && p[i + 1..] == rest[..n - i - 1];
    FreeParts(head, ['/'] + p[i + 1..]);
    FreeParts(['/'], p[i + 1..]);
  }

  lemma {:induction false} DeepestIs(a: seq<string>, b: seq<string>, dir: string)
    requires b != [] && FromComponents(a) == dir && forall i :: 0 <= i < |a| ==> Free(IsMeta, a[i])
    requires |b| == 1 || !Free(IsMeta, b[0])
    ensures DeepestFixed(a + b, dir, |a|)
  {
    hide Free, Join;
    assert (a + b)[..|a|] == a;
  }

  // ------------------------------------------------------------- cutting

  /** A pattern is not cut inside a bracket expression, whatever stands in it. */
  lemma {:induction false} ClassIsNotCut(unit: string, negated: bool, body: string, rest: string)
    requires IsClass(unit, negated, body)
    ensures Cut(unit + rest) == [unit + Cut(rest)[0]] + Cut(rest)[1..]
  {
    hide ParseClass, IsClass;
    var text := unit + rest;
    ClassIsParsed(unit, negated, body, rest);
    assert text[0] == unit[0];
    assert text[..|unit|] == unit && text[|unit|..] == rest;
  }

  /** Outside brackets it is cut at every separator, and nowhere else. */
  lemma {:induction false} CutsAtSeparators(c: char, rest: string)
    requires c != '['
    ensures Cut([c] + rest) ==
            if c == '/' then [""] + Cut(rest) else [[c] + Cut(rest)[0]] + Cut(rest)[1..]
  {
    var text := [c] + rest;
    assert text[1..] == rest && text[..1] == [c];
  }
}
