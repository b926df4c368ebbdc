/** Path patterns: compiling them by component, matching, and the two shortcuts that must
    agree with matching, the lexical bound and the directory prefixes
    (gat-core/src/globs.rs). */
module Globs {
  import opened Text
  import opened LexicalPath
  import opened PathAlgebra

  // ---------------------------------------------------------------- syntax

  datatype CharSpan = CharSpan(lo: char, hi: char)

  datatype Piece = Lit(c: char) | AnyChar | AnySeq | Class(negated: bool, spans: seq<CharSpan>)

  /** `**`, or the pieces of an ordinary component. */
  datatype Comp = Recursive | Plain(pieces: seq<Piece>)

  /** Single characters and `a-b` ranges of a bracket expression. */
  function Spans(text: string): seq<CharSpan>
  {
    if text == "" then []
    else if |text| >= 3 && text[1] == '-' then [CharSpan(text[0], text[2])] + Spans(text[3..])
    else [CharSpan(text[0], text[0])] + Spans(text[1..])
  }

  /** A bracket expression at the start of `text`, and how long it is. */
  function ParseClass(text: string): (r: Option<(Piece, nat)>)
    requires text != ""
    ensures r.Some? ==> 0 < r.value.1 <= |text| && r.value.0.Class?
  {
    if |text| >= 4 && text[1] == '!' then
      match IndexOf(text[3..], ']')
      case None => None
      case Some(j) => Some((Class(true, Spans(text[2..3 + j])), j + 4))
    else if |text| >= 3 && text[1] != '!' then
      match IndexOf(text[2..], ']')
      case None => None
      case Some(j) => Some((Class(false, Spans(text[1..2 + j])), j + 3))
    else None
  }

  /** The pieces of one component; two stars in a row stand only as a whole component. */
  function CompilePieces(text: string): Option<seq<Piece>>
    decreases |text|
  {
    if text == "" then Some([])
    else if text[0] == '*' then
      if |text| > 1 && text[1] == '*' then None else Prepend(AnySeq, CompilePieces(text[1..]))
    else if text[0] == '?' then Prepend(AnyChar, CompilePieces(text[1..]))
    else if text[0] == '[' then
      match ParseClass(text)
      case None => None
      case Some((piece, n)) => Prepend(piece, CompilePieces(text[n..]))
    else Prepend(Lit(text[0]), CompilePieces(text[1..]))
  }

  function Prepend<T>(first: T, rest: Option<seq<T>>): Option<seq<T>>
  {
    match rest
    case None => None
    case Some(r) => Some([first] + r)
  }

  function CompileComp(text: string): Option<Comp>
  {
    if text == "**" then Some(Recursive)
    else
      match CompilePieces(text)
      case None => None
      case Some(pieces) => Some(Plain(pieces))
  }

  function CompileAll(cs: seq<string>): (r: Option<seq<Comp>>)
    ensures r.Some? ==> |r.value| == |cs|
  {
    if cs == [] then Some([])
    else
      match CompileComp(cs[0])
      case None => None
      case Some(first) => Prepend(first, CompileAll(cs[1..]))
  }

  /** How much of `text` stands together at its start: a whole bracket expression, or one
      character. */
  function Unit(text: string): (n: nat)
    requires text != ""
    ensures 0 < n <= |text|
  {
    if text[0] == '[' && ParseClass(text).Some? then ParseClass(text).value.1 else 1
  }

  /** The components of a pattern: it is cut at the separators outside bracket expressions. */
  function Cut(text: string): (r: seq<string>)
    ensures r != []
    decreases |text|
  {
    if text == "" then [""]
    else if text[0] == '/' then [""] + Cut(text[1..])
    else
      var n := Unit(text);
      var rest := Cut(text[n..]);
      [text[..n] + rest[0]] + rest[1..]
  }

  function Compile(text: string): (r: Option<seq<Comp>>)
    ensures r.Some? ==> |r.value| == |Cut(text)|
  {
    CompileAll(Cut(text))
  }

  // -------------------------------------------------------------- matching

  predicate InSpans(spans: seq<CharSpan>, c: char)
  {
    exists i :: 0 <= i < |spans| && spans[i].lo <= c <= spans[i].hi
  }

  predicate MatchPieces(pieces: seq<Piece>, s: string)
    decreases |pieces|, |s|
  {
    if pieces == [] then s == ""
    else
      match pieces[0]
      case Lit(c) => s != "" && s[0] == c && MatchPieces(pieces[1..], s[1..])
      case AnyChar => s != "" && MatchPieces(pieces[1..], s[1..])
      case AnySeq => MatchPieces(pieces[1..], s) || (s != "" && MatchPieces(pieces, s[1..]))
      case Class(negated, spans) => s != "" && InSpans(spans, s[0]) != negated && MatchPieces(pieces[1..], s[1..])
  }

  /** `**` spans zero or more components, but a trailing one at least one. */
  predicate MatchComps(pattern: seq<Comp>, path: seq<string>)
    decreases |pattern|, |path|
  {
    if pattern == [] then path == []
    else
      match pattern[0]
      case Recursive =>
        if |pattern| == 1 then path != []
        else MatchComps(pattern[1..], path) || (path != [] && MatchComps(pattern, path[1..]))
      case Plain(pieces) =>
        path != [] && MatchPieces(pieces, path[0]) && MatchComps(pattern[1..], path[1..])
  }

  /** A parsed pattern: its normalized text, first metacharacter and compiled form. */
  datatype Glob = Glob(text: string, firstMeta: Option<nat>, comps: seq<Comp>)

  predicate ValidGlob(glob: Glob)
  {
    && (glob.text == "" || Canonical(glob.text))
    && glob.firstMeta == FirstMetaIndex(glob.text)
    && Compile(glob.text) == Some(glob.comps)
  }

  predicate Matches(glob: Glob, path: string)
  {
    MatchComps(glob.comps, Components(path))
  }

  datatype GlobError = InvalidLexicalSyntax(pattern: string, source: LexicalError) | InvalidGlobSyntax(pattern: string)

  function FromNormalized(text: string, firstMeta: Option<nat>): Result<Glob, GlobError>
  {
    match Compile(text)
    case None => Err(InvalidGlobSyntax(text))
    case Some(comps) => Ok(Glob(text, firstMeta, comps))
  }

  /** Compiles a canonical path as a pattern; its first metacharacter is looked up again. */
  function FromPath(path: GatPath): (r: Result<Glob, GlobError>)
    ensures r.Ok? ==> ValidGlob(r.value) && r.value.text == path
  {
    FromNormalized(path, FirstMetaIndex(path))
  }

  method ParseGlob(pattern: string) returns (r: Result<Glob, GlobError>)
    ensures r.Ok? ==> ValidGlob(r.value) && r.value.text == NormalForm(pattern)
    ensures r.Ok? <==> !Rooted(pattern) && !Escapes(pattern) && Compile(NormalForm(pattern)).Some?
    ensures Canonical(pattern) ==> r == FromPath(pattern)
  {
    hide FirstMetaIndex, Compile, NormalForm, Rooted, Escapes, Canonical;
    if Canonical(pattern) {
      NormalFormOfCanonical(pattern);
    }
    var normalized := NormalizeLexical(pattern, pattern, true);
    if normalized.Err? {
      return Err(InvalidLexicalSyntax(pattern, normalized.error));
    }
    NormalFormCanonical(pattern);
    r := FromNormalized(normalized.value.pattern, normalized.value.firstMeta);
  }

  // ------------------------------------------------------- the lexical bound

  datatype Bound = AnyPath | Prefix(prefix: string) | Exact(path: string)

  function BoundOf(glob: Glob): Bound
    requires glob.firstMeta.Some? ==> glob.firstMeta.value <= |glob.text|
  {
    match glob.firstMeta
    case None => Exact(glob.text)
    case Some(n) => if n == 0 then AnyPath else Prefix(glob.text[..n])
  }

  predicate InBound(bound: Bound, path: string)
  {
    match bound
    case AnyPath => true
    case Prefix(prefix) => prefix <= path
    case Exact(exact) => path == exact
  }

  /** Text before the first metacharacter compiles to itself. */
  lemma {:induction false} LiteralHead(text: string, n: nat, pieces: seq<Piece>, s: string)
    requires n <= |text| && Free(IsMeta, text[..n])
    requires CompilePieces(text) == Some(pieces) && MatchPieces(pieces, s)
    ensures text[..n] <= s
    ensures n == |text| ==> s == text
  {
    hide ParseClass, InSpans;
    if n > 0 {
      assert !IsMeta(text[..n][0]);
      assert text[1..][..n - 1] == text[..n][1..];
      assert pieces[0] == Lit(text[0]);
      LiteralHead(text[1..], n - 1, pieces[1..], s[1..]);
      assert text == [text[0]] + text[1..] && s == [s[0]] + s[1..];
    }
  }

  lemma {:induction false} JoinCons(first: string, rest: seq<string>)
    ensures FromComponents([first] + rest) == if rest == [] then first else first + "/" + FromComponents(rest)
  {
    if rest == [] {
      assert [first] + rest == [first];
    } else {
      JoinConcat('/', [first], rest);
    }
  }

  /** What the first component says about where the first metacharacter is. */
  lemma {:induction false} MetaOfJoined(first: string, rest: seq<string>)
    ensures FirstMetaIndex(FromComponents([first] + rest)) ==
            if FirstMetaIndex(first).Some? then FirstMetaIndex(first)
            else if rest != [] && FirstMetaIndex(FromComponents(rest)).Some?
                 then Some(|first| + 1 + FirstMetaIndex(FromComponents(rest)).value)
            else None
  {
    hide FirstMetaIndex, Join;
    JoinCons(first, rest);
    if rest != [] {
      FirstMetaOfConcat(first + "/", FromComponents(rest));
      MetaStep(first, '/');
    }
  }

  /** A matching path agrees with the pattern up to the first metacharacter, and altogether
      when there is none. */
  lemma {:induction false} MatchKeepsPrefix(cs: seq<string>, comps: seq<Comp>, path: seq<string>)
    requires cs != [] && CompileAll(cs) == Some(comps) && MatchComps(comps, path)
    ensures match FirstMetaIndex(FromComponents(cs))
            case None => FromComponents(path) == FromComponents(cs)
            case Some(n) => n <= |FromComponents(cs)| && FromComponents(cs)[..n] <= FromComponents(path)
    decreases |cs|
  {
    hide *;
    var first, rest := cs[0], cs[1..];
    assert cs == [first] + rest;
    MetaOfJoined(first, rest);
    FirstComponent(first, rest, comps, path);
    var m := FirstMetaIndex(first);
    if m.Some? {
      HeadOfJoined(first, rest, path, m.value);
    } else if rest == [] {
      assert path == [first] == cs;
    } else {
      assert path == [first] + path[1..];
      JoinCons(first, rest);
      JoinCons(first, path[1..]);
      MatchKeepsPrefix(rest, comps[1..], path[1..]);
      SlashPrefix(first, FromComponents(rest), FromComponents(path[1..]));
    }
  }

  /** The first component of a match, by whether the pattern's first component has a
      metacharacter. */
  lemma {:induction false} FirstComponent(first: string, rest: seq<string>, comps: seq<Comp>, path: seq<string>)
    requires CompileAll([first] + rest) == Some(comps) && MatchComps(comps, path)
    ensures comps != [] && CompileAll(rest) == Some(comps[1..])
    ensures match FirstMetaIndex(first)
            case None =>
              && path != [] && path[0] == first && MatchComps(comps[1..], path[1..])
              && (rest == [] <==> path[1..] == [])
            case Some(n) => n == 0 || (path != [] && first[..n] <= path[0])
  {
    assert ([first] + rest)[1..] == rest;
    assert first == "**" ==> IsMeta(first[0]);
    hide FirstMetaIndex, ParseClass, InSpans;
    match FirstMetaIndex(first)
    case None =>
      assert first[..|first|] == first;
      LiteralHead(first, |first|, comps[0].pieces, path[0]);
      assert rest == [] ==> comps[1..] == [];
      NoMatchOfNothing(rest, comps[1..]);
    case Some(n) =>
      if comps[0].Plain? {
        LiteralHead(first, n, comps[0].pieces, path[0]);
      }
  }

  /** Only the empty pattern matches the empty list of components. */
  lemma {:induction false} NoMatchOfNothing(cs: seq<string>, comps: seq<Comp>)
    requires CompileAll(cs) == Some(comps)
    ensures MatchComps(comps, []) ==> cs == []
  {
    if cs != [] {
      NoMatchOfNothing(cs[1..], comps[1..]);
    }
  }

  lemma {:induction false} HeadOfJoined(first: string, rest: seq<string>, path: seq<string>, n: nat)
    requires n <= |first| && (n == 0 || (path != [] && first[..n] <= path[0]))
    ensures n <= |FromComponents([first] + rest)| && FromComponents([first] + rest)[..n] <= FromComponents(path)
  {
    JoinCons(first, rest);
    var text := FromComponents([first] + rest);
    assert text[..n] == first[..n];
    if n > 0 {
      assert path == [path[0]] + path[1..];
      JoinCons(path[0], path[1..]);
    }
  }

  lemma {:induction false} SlashPrefix(first: string, a: string, b: string)
    ensures forall n :: 0 <= n <= |a| && a[..n] <= b ==> (first + "/" + a)[..|first| + 1 + n] <= first + "/" + b
  {
    forall n | 0 <= n <= |a| && a[..n] <= b ensures (first + "/" + a)[..|first| + 1 + n] <= first + "/" + b {
      assert (first + "/" + a)[..|first| + 1 + n] == first + "/" + a[..n];
      SharedPrefix(first + "/", a[..n], b);
    }
  }

  /** Cutting a pattern loses nothing. */
  lemma {:induction false} CutJoins(text: string)
    ensures FromComponents(Cut(text)) == text
    decreases |text|
  {
    hide Unit, Join;
    if text == "" {
      JoinCons("", []);
      assert [""] + [] == [""];
    } else if text[0] == '/' {
      CutJoins(text[1..]);
      JoinCons("", Cut(text[1..]));
      assert text == "" + "/" + text[1..];
    } else {
      var n := Unit(text);
      CutJoins(text[n..]);
      JoinStart(text[..n], Cut(text[n..]));
      assert text == text[..n] + text[n..];
    }
  }

  lemma {:induction false} JoinStart(start: string, cs: seq<string>)
    requires cs != []
    ensures FromComponents([start + cs[0]] + cs[1..]) == start + FromComponents(cs)
  {
    hide Join;
    assert cs == [cs[0]] + cs[1..];
    JoinCons(cs[0], cs[1..]);
    JoinCons(start + cs[0], cs[1..]);
    var rest := FromComponents(cs[1..]);
    assert start + cs[0] + "/" + rest == start + (cs[0] + "/" + rest);
  }

  /** Every path a pattern matches lies inside its bound; an exact bound decides the match. */
  lemma {:induction false} BoundIsSound(glob: Glob, path: string)
    requires ValidGlob(glob) && Matches(glob, path)
    ensures glob.firstMeta.Some? ==> glob.firstMeta.value < |glob.text|
    ensures InBound(BoundOf(glob), path)
  {
    hide FirstMetaIndex, MatchComps, CompileAll, Join, Cut;
    CutJoins(glob.text);
    ComponentsRoundTrip(path);
    MatchKeepsPrefix(Cut(glob.text), glob.comps, Components(path));
  }

  // --------------------------------------------------- directory prefixes

  /** Whether something below a directory could match: some prefix of the pattern ending at a
      separator matches the directory, or the whole pattern does and ends in `**`. */
  ghost predicate CanMatchDescendant(glob: Glob, directory: string)
  {
    || directory == ""
    || (exists i: nat :: PrefixMatches(glob.text, i, directory))
    || (Components(glob.text)[|Components(glob.text)| - 1] == "**" && Matches(glob, directory))
  }

  /** The pattern text before its separator at `i` compiles and matches the directory. */
  predicate PrefixMatches(text: string, i: nat, directory: string)
  {
    && i < |text| && text[i] == '/'
    && Compile(text[..i]).Some? && MatchComps(Compile(text[..i]).value, Components(directory))
  }

  /** The same on compiled components. */
  ghost predicate CompsAdmit(comps: seq<Comp>, directory: seq<string>)
  {
    || (exists k :: 0 < k < |comps| && MatchComps(comps[..k], directory))
    || (comps != [] && comps[|comps| - 1].Recursive? && MatchComps(comps, directory))
  }

  lemma {:induction false} CompilePrefix(cs: seq<string>, comps: seq<Comp>, k: nat)
    requires CompileAll(cs) == Some(comps) && k <= |cs|
    ensures CompileAll(cs[..k]) == Some(comps[..k])
  {
    hide CompileComp;
    if k > 0 {
      CompilePrefix(cs[1..], comps[1..], k - 1);
      assert cs[..k][1..] == cs[1..][..k - 1];
      assert comps[..k] == [comps[0]] + comps[1..][..k - 1];
    } else {
      assert comps[..0] == [];
    }
  }

  lemma {:induction false} CompileAt(cs: seq<string>, comps: seq<Comp>, i: nat)
    requires CompileAll(cs) == Some(comps) && i < |cs|
    ensures CompileComp(cs[i]) == Some(comps[i])
  {
    hide CompileComp;
    if i > 0 {
      CompileAt(cs[1..], comps[1..], i - 1);
    }
  }

  /** Cutting a text at a separator cuts its components there. */
  lemma {:induction false} CutAtSeparator(text: string, i: nat)
    requires i < |text| && text[i] == '/'
    ensures var k := |Components(text[..i])|;
            0 < k < |Components(text)| && Components(text[..i]) == Components(text)[..k]
  {
    assert text == text[..i] + "/" + text[i + 1..];
    ComponentsOfConcat(text[..i], text[i + 1..]);
  }

  // ------------------------------------------- separators outside brackets

  /** Every bracket expression of the text ends inside it. */
  predicate Closed(text: string)
    decreases |text|
  {
    text != "" ==> (text[0] == '[' ==> ParseClass(text).Some?) && Closed(text[Unit(text)..])
  }

  lemma {:induction false} ClassEnds(text: string)
    requires text != "" && text[0] == '[' && ParseClass(text).Some?
    ensures var n := ParseClass(text).value.1; n >= 3 && text[n - 1] == ']'
  {
    hide Spans;
  }

  /** A bracket expression is the same in every text that starts with it. */
  lemma {:induction false} ClassStays(text: string, head: string)
    requires head != "" && head <= text && head[0] == '['
    ensures ParseClass(head).Some? ==> ParseClass(text) == ParseClass(head)
    ensures ParseClass(text).Some? && ParseClass(text).value.1 <= |head| ==> ParseClass(head) == ParseClass(text)
  {
    hide Spans;
    var from := if |text| >= 2 && text[1] == '!' then 3 else 2;
    if |head| > from {
      FirstStays(text[from..], head[from..], ']');
      var found := IndexOf(text[from..], ']');
      if found.Some? && from + found.value <= |head| {
        assert head[from - 1..from + found.value] == text[from - 1..from + found.value];
      }
    }
  }

  lemma {:induction false} FirstStays(text: string, head: string, c: char)
    requires head <= text
    ensures IndexOf(head, c).Some? ==> IndexOf(text, c) == IndexOf(head, c)
    ensures IndexOf(text, c).Some? && IndexOf(text, c).value < |head| ==> IndexOf(head, c) == IndexOf(text, c)
  {
    if IndexOf(head, c).Some? {
      var i := IndexOf(head, c).value;
      assert text[..i] == head[..i];
      IndexOfIs(text, c, i);
    }
    if IndexOf(text, c).Some? && IndexOf(text, c).value < |head| {
      var i := IndexOf(text, c).value;
      assert head[..i] == text[..i];
      IndexOfIs(head, c, i);
    }
  }

  lemma {:induction false} UnitStays(text: string, i: nat)
    requires text != "" && Unit(text) <= i <= |text|
    requires text[0] == '[' ==> ParseClass(text).Some?
    ensures Unit(text[..i]) == Unit(text) && (text[0] == '[' ==> ParseClass(text[..i]).Some?)
  {
    hide ParseClass;
    if text[0] == '[' {
      ClassStays(text, text[..i]);
    }
  }

  /** A unit never reaches over the end of a closed beginning of the text. */
  lemma {:induction false} UnitFits(text: string, i: nat)
    requires 0 < i <= |text| && (text[0] == '[' ==> ParseClass(text[..i]).Some?)
    ensures Unit(text[..i]) == Unit(text) <= i
  {
    hide ParseClass;
    if text[0] == '[' {
      ClassStays(text, text[..i]);
    }
  }

  lemma {:induction false} CutUnfolds(text: string)
    requires text != ""
    ensures text[0] == '/' ==> Cut(text) == [""] + Cut(text[1..])
    ensures text[0] != '/' ==>
              var rest := Cut(text[Unit(text)..]); Cut(text) == [text[..Unit(text)] + rest[0]] + rest[1..]
  {
    hide Unit;
  }

  lemma {:induction false} ClosedUnfolds(text: string)
    requires text != "" && Closed(text)
    ensures text[0] == '[' ==> ParseClass(text).Some?
    ensures Closed(text[Unit(text)..])
    ensures text[0] == '/' ==> Unit(text) == 1
  {
    hide ParseClass;
  }

  /** A cut of the rest of a text in two gives a cut of the text. */
  lemma {:induction false} CutBehindUnit(text: string, head: string, rest: seq<string>)
    requires text != "" && head != "" && text[0] == head[0]
    requires Unit(head) == Unit(text) && head[..Unit(head)] == text[..Unit(text)]
    requires text[0] == '/' ==> Unit(text) == 1
    requires Cut(text[Unit(text)..]) == Cut(head[Unit(head)..]) + rest
    ensures Cut(text) == Cut(head) + rest
  {
    CutUnfolds(text);
    CutUnfolds(head);
    hide *;
    var first := Cut(head[Unit(head)..]);
    if text[0] == '/' {
      assert [""] + first + rest == [""] + (first + rest);
    } else {
      FirstOfConcat(text[..Unit(text)], first, rest);
    }
  }

  lemma {:induction false} SlicesBehind(text: string, i: nat, n: nat)
    requires n <= i < |text|
    ensures text[n..][..i - n] == text[..i][n..] && text[..i][..n] == text[..n]
    ensures text[n..][i - n] == text[i] && text[n..][i - n + 1..] == text[i + 1..]
  {
  }

  /** A separator behind a closed beginning is one the pattern is cut at. */
  lemma {:induction false} CutAtOuter(text: string, i: nat)
    requires i < |text| && text[i] == '/' && Closed(text[..i])
    ensures Cut(text) == Cut(text[..i]) + Cut(text[i + 1..])
    decreases |text|
  {
    if i == 0 {
      CutUnfolds(text);
      assert Cut(text[..0]) == [""];
    } else {
      var head := text[..i];
      ClosedUnfolds(head);
      UnitFits(text, i);
      hide *;
      var n := Unit(text);
      SlicesBehind(text, i, n);
      CutAtOuter(text[n..], i - n);
      CutBehindUnit(text, head, Cut(text[i + 1..]));
    }
  }

  lemma {:induction false} FirstOfConcat(start: string, a: seq<string>, b: seq<string>)
    requires a != []
    ensures [start + (a + b)[0]] + (a + b)[1..] == [start + a[0]] + a[1..] + b
  {
  }

  lemma {:induction false} SlashUnit(text: string)
    requires text != "" && text[0] == '/'
    ensures Unit(text) == 1
  {
    hide ParseClass;
  }

  /** Behind each component but the last stands a separator, and what is before it is closed. */
  lemma {:induction false} SeparatorBehind(text: string, k: nat) returns (i: nat)
    requires 0 < k < |Cut(text)| && Closed(text)
    ensures i < |text| && text[i] == '/' && Closed(text[..i]) && Cut(text[..i]) == Cut(text)[..k]
    decreases |text|
  {
    hide Unit, ParseClass;
    if text[0] == '/' {
      SlashUnit(text);
      if k == 1 {
        i := 0;
      } else {
        i := SeparatorBehind(text[1..], k - 1);
        i := i + 1;
        assert text[..i][1..] == text[1..][..i - 1];
        SlashUnit(text[..i]);
      }
    } else {
      var n := Unit(text);
      i := SeparatorBehind(text[n..], k);
      i := i + n;
      UnitStays(text, i);
      assert text[..i][n..] == text[n..][..i - n] && text[..i][..n] == text[..n];
    }
  }

  /** What compiles is closed. */
  lemma {:induction false} CompiledIsClosed(text: string)
    requires FirstCompiles(Cut(text)[0]) && CompileAll(Cut(text)[1..]).Some?
    ensures Closed(text)
    decreases |text|
  {
    hide Unit, ParseClass, CompilePieces, CompileComp;
    if text != "" {
      if text[0] == '/' {
        SlashUnit(text);
        var rest := Cut(text[1..]);
        assert Cut(text)[1..] == rest;
        CompCompiles(rest[0]);
        CompiledIsClosed(text[1..]);
      } else {
        var n := Unit(text);
        var rest := Cut(text[n..]);
        var first := text[..n] + rest[0];
        assert Cut(text)[1..] == rest[1..] && Cut(text)[0] == first;
        CutStarts(text);
        FirstUnit(text, first, n);
        assert first[n..] == rest[0];
        CompiledIsClosed(text[n..]);
      }
    }
  }

  /** The rest of a component, which may be that of `**`, compiles. */
  predicate FirstCompiles(c: string)
  {
    c == "**" || CompilePieces(c).Some?
  }

  lemma {:induction false} CompCompiles(c: string)
    ensures CompileComp(c).Some? <==> FirstCompiles(c)
  {
    hide CompilePieces;
  }

  lemma {:induction false} CutStarts(text: string)
    ensures Cut(text)[0] <= text
    decreases |text|
  {
    hide Unit;
    if text != "" && text[0] != '/' {
      CutStarts(text[Unit(text)..]);
      assert text == text[..Unit(text)] + text[Unit(text)..];
    }
  }

  /** The unit at the start of a component that compiles, and what is left of the component. */
  lemma {:induction false} FirstUnit(text: string, c: string, n: nat)
    requires text != "" && n == Unit(text) && n <= |c| && c <= text && FirstCompiles(c)
    ensures text[0] == '[' ==> ParseClass(text).Some?
    ensures FirstCompiles(c[n..])
  {
    hide ParseClass;
    if text[0] == '[' {
      ClassStays(text, c);
    } else if c == "**" {
      assert c[1..] == "*" && "*"[1..] == "";
      assert CompilePieces("").Some?;
    }
  }

  /** A separator with no closing bracket behind it stands outside brackets. */
  lemma {:induction false} OuterWithoutBracket(text: string, i: nat)
    requires i <= |text| && Closed(text) && ']' !in text[i..]
    ensures Closed(text[..i])
    decreases |text|
  {
    hide ParseClass;
    if i > 0 {
      var n := Unit(text);
      if text[0] == '[' {
        ClassEnds(text);
        assert forall k :: i <= k < |text| ==> text[k] == text[i..][k - i] && text[k] != ']';
      }
      UnitStays(text, i);
      hide Unit;
      assert text[n..][i - n..] == text[i..] && text[..i][n..] == text[n..][..i - n];
      OuterWithoutBracket(text[n..], i - n);
    }
  }

  lemma {:induction false} LastOf(init: seq<string>, last: string)
    ensures FromComponents(init + [last]) == if init == [] then last else FromComponents(init) + "/" + last
  {
    if init == [] {
      assert init + [last] == [last];
    } else {
      JoinSnoc('/', init, last);
    }
  }

  lemma {:induction false} StarsAlone()
    ensures Cut("**") == ["**"] && Components("**") == ["**"]
  {
    SplitFree(IsSlash, "**");
    assert "**"[1..] == "*" && "*"[1..] == "";
    assert Cut("") == [""] && Unit("*") == 1 && Unit("**") == 1;
    assert "*"[..1] + "" == "*" && "**"[..1] + "*" == "**" && [""][1..] == [] && ["*"][1..] == [];
    assert Cut("*") == ["*"];
  }

  /** A pattern ends in `**` behind its last separator exactly when that is its last component. */
  lemma {:induction false} LastStars(text: string)
    requires Closed(text)
    ensures Components(text)[|Components(text)| - 1] == "**" <==> Cut(text)[|Cut(text)| - 1] == "**"
  {
    hide Split, Cut, Join, Closed;
    StarsAlone();
    var cs, ks := Components(text), Cut(text);
    ComponentsRoundTrip(text);
    CutJoins(text);
    LastOf(cs[..|cs| - 1], cs[|cs| - 1]);
    LastOf(ks[..|ks| - 1], ks[|ks| - 1]);
    assert cs == cs[..|cs| - 1] + [cs[|cs| - 1]] && ks == ks[..|ks| - 1] + [ks[|ks| - 1]];
    if text != "**" && (cs[|cs| - 1] == "**" || ks[|ks| - 1] == "**") {
      var before := if cs[|cs| - 1] == "**" then cs[..|cs| - 1] else ks[..|ks| - 1];
      StarsBehind(text, FromComponents(before));
    }
  }

  lemma {:induction false} StarsBehind(text: string, front: string)
    requires Closed(text) && text == front + "/" + "**"
    ensures Components(text)[|Components(text)| - 1] == "**" && Cut(text)[|Cut(text)| - 1] == "**"
  {
    hide Split, Cut, Closed;
    var i := |front|;
    StarsAlone();
    assert text[..i] == front && text[i..] == "/**" && text[i + 1..] == "**" && text[i] == '/';
    OuterWithoutBracket(text, i);
    CutAtOuter(text, i);
    ComponentsOfConcat(front, "**");
  }

  lemma {:induction false} RecursiveIs(text: string, comp: Comp)
    requires CompileComp(text) == Some(comp)
    ensures comp.Recursive? <==> text == "**"
  {
    hide CompilePieces;
  }

  lemma {:induction false} ValidIsClosed(text: string, comps: seq<Comp>)
    requires Compile(text) == Some(comps)
    ensures Closed(text)
  {
    hide Cut, Closed, CompileComp;
    CompCompiles(Cut(text)[0]);
    CompiledIsClosed(text);
  }

  /** The prefixes of the text that compile are the prefixes of the compiled pattern: cut inside
      brackets, a prefix does not compile. */
  lemma {:induction false} PrefixesAgree(glob: Glob, directory: string)
    requires ValidGlob(glob) && directory != ""
    ensures CanMatchDescendant(glob, directory) <==> CompsAdmit(glob.comps, Components(directory))
  {
    hide Split, MatchComps, CompileAll, CompileComp, FirstMetaIndex, Cut, Closed;
    var cs, D := Cut(glob.text), Components(directory);
    ValidIsClosed(glob.text, glob.comps);
    LastStars(glob.text);
    CompileAt(cs, glob.comps, |cs| - 1);
    RecursiveIs(cs[|cs| - 1], glob.comps[|cs| - 1]);
    if i: nat :| PrefixMatches(glob.text, i, directory) {
      ValidIsClosed(glob.text[..i], Compile(glob.text[..i]).value);
      CutAtOuter(glob.text, i);
      var k := |Cut(glob.text[..i])|;
      assert cs[..k] == Cut(glob.text[..i]);
      CompilePrefix(cs, glob.comps, k);
    }
    if k :| 0 < k < |glob.comps| && MatchComps(glob.comps[..k], D) {
      var i := SeparatorBehind(glob.text, k);
      CompilePrefix(cs, glob.comps, k);
      assert PrefixMatches(glob.text, i, directory);
    }
  }

  /** A match below a directory goes through a prefix that matches the directory. */
  lemma {:induction false} MatchGoesThrough(pattern: seq<Comp>, dir: seq<string>, below: seq<string>) returns (k: nat)
    requires MatchComps(pattern, dir + below) && dir != [] && below != []
    ensures 0 < k <= |pattern| && MatchComps(pattern[..k], dir)
    ensures k == |pattern| ==> pattern[k - 1].Recursive?
    decreases |pattern|, |dir|
  {
    hide MatchPieces;
    var rest, all := pattern[1..], dir + below;
    assert all[0] == dir[0] && all[1..] == dir[1..] + below;
    match pattern[0]
    case Plain(pieces) =>
      if dir[1..] == [] {
        k := 1;
        assert dir[1..] + below == below;
        assert pattern[..1][1..] == [];
      } else {
        k := MatchGoesThrough(rest, dir[1..], below);
        k := k + 1;
        assert pattern[..k][1..] == rest[..k - 1];
      }
    case Recursive =>
      if rest == [] {
        k := 1;
        assert pattern[..1] == pattern;
      } else if MatchComps(rest, all) {
        k := MatchGoesThrough(rest, dir, below);
        k := k + 1;
        assert pattern[..k][1..] == rest[..k - 1];
      } else if dir[1..] == [] {
        k := 1;
      } else {
        k := MatchGoesThrough(pattern, dir[1..], below);
      }
  }

  /** Strictly below a directory; everything is below the root. */
  predicate StrictlyBelow(path: string, directory: string)
  {
    directory == "" || (IsOrUnder(path, directory) && path != directory)
  }

  /** Pruning never loses a match: where something below a directory matches, the directory
      is visited. */
  lemma {:induction false} PruningIsSound(glob: Glob, directory: string, path: string)
    requires ValidGlob(glob) && Matches(glob, path) && StrictlyBelow(path, directory)
    ensures CanMatchDescendant(glob, directory)
  {
    hide Split, CompileAll, FirstMetaIndex, IsOrUnder, MatchComps;
    if directory != "" {
      var D, P := Components(directory), Components(path);
      UnderMeansComponentPrefix(path, directory);
      ComponentsRoundTrip(path);
      ComponentsRoundTrip(directory);
      var below := P[|D|..];
      assert P == D + below;
      assert below == [] ==> D + below == D;
      var k := MatchGoesThrough(glob.comps, D, below);
      assert glob.comps[..|glob.comps|] == glob.comps;
      PrefixesAgree(glob, directory);
    }
  }

  // ------------------------------------------------- pruning prunes enough

  ghost predicate Satisfiable(comp: Comp)
  {
    comp.Plain? ==> exists c :: GoodComponent(c) && MatchPieces(comp.pieces, c)
  }

  lemma {:induction false} MatchConcat(a: seq<Comp>, b: seq<Comp>, x: seq<string>, y: seq<string>)
    requires b != [] && MatchComps(a, x) && MatchComps(b, y)
    ensures MatchComps(a + b, x + y)
    decreases |a|, |x|
  {
    hide MatchPieces;
    if a == [] {
      assert a + b == b && x + y == y;
    } else {
      assert (a + b)[1..] == a[1..] + b;
      assert x != [] ==> (x + y)[1..] == x[1..] + y && (x + y)[0] == x[0];
      match a[0]
      case Plain(pieces) =>
        MatchConcat(a[1..], b, x[1..], y);
      case Recursive =>
        if |a| == 1 {
          RecursiveTakes(b, x, y);
          assert a + b == [Recursive] + b;
        } else if MatchComps(a[1..], x) {
          MatchConcat(a[1..], b, x, y);
        } else {
          MatchConcat(a, b, x[1..], y);
        }
    }
  }

  lemma {:induction false} RecursiveTakes(b: seq<Comp>, x: seq<string>, y: seq<string>)
    requires b != [] && MatchComps(b, y)
    ensures MatchComps([Recursive] + b, x + y)
  {
    hide MatchPieces;
    assert ([Recursive] + b)[1..] == b;
    if x == [] {
      assert x + y == y;
    } else {
      RecursiveTakes(b, x[1..], y);
      assert (x + y)[1..] == x[1..] + y;
    }
  }

  /** Satisfiable components match some canonical components, as many as there are. */
  lemma {:induction false} SomeMatch(comps: seq<Comp>) returns (path: seq<string>)
    requires forall i :: 0 <= i < |comps| ==> Satisfiable(comps[i])
    ensures |path| == |comps| && GoodComponents(path) && MatchComps(comps, path)
  {
    hide MatchPieces, GoodComponent;
    if comps == [] {
      path := [];
    } else {
      var rest := SomeMatch(comps[1..]);
      assert Satisfiable(comps[0]);
      match comps[0]
      case Plain(pieces) =>
        var c :| GoodComponent(c) && MatchPieces(pieces, c);
        path := [c] + rest;
        assert path[1..] == rest;
      case Recursive =>
        SimpleComponent();
        path := ["a"] + rest;
        assert path[1..] == rest;
        if |comps| > 1 {
          RecursiveTakes(comps[1..], ["a"], rest);
          assert [Recursive] + comps[1..] == comps;
        }
    }
  }

  lemma {:induction false} SimpleComponent()
    ensures GoodComponent("a")
  {
  }

  /** A pattern ending in `**` that matches a path matches below it. */
  lemma {:induction false} RecursiveGoesOn(pattern: seq<Comp>, path: seq<string>, more: seq<string>)
    requires pattern != [] && pattern[|pattern| - 1].Recursive? && MatchComps(pattern, path)
    ensures MatchComps(pattern, path + more)
    decreases |pattern|, |path|
  {
    hide MatchPieces;
    assert path != [] ==> (path + more)[1..] == path[1..] + more && (path + more)[0] == path[0];
    if |pattern| > 1 {
      match pattern[0]
      case Plain(pieces) =>
        RecursiveGoesOn(pattern[1..], path[1..], more);
      case Recursive =>
        if MatchComps(pattern[1..], path) {
          RecursiveGoesOn(pattern[1..], path, more);
        } else {
          RecursiveGoesOn(pattern, path[1..], more);
        }
    }
  }

  lemma {:induction false} AdmittedHasMatch(comps: seq<Comp>, dir: seq<string>) returns (below: seq<string>)
    requires forall i :: 0 <= i < |comps| ==> Satisfiable(comps[i])
    requires CompsAdmit(comps, dir)
    ensures below != [] && GoodComponents(below) && MatchComps(comps, dir + below)
  {
    hide MatchComps, GoodComponent, Satisfiable;
    if k :| 0 < k < |comps| && MatchComps(comps[..k], dir) {
      below := SomeMatch(comps[k..]);
      MatchConcat(comps[..k], comps[k..], dir, below);
      assert comps[..k] + comps[k..] == comps;
    } else {
      below := ["a"];
      SimpleComponent();
      RecursiveGoesOn(comps, dir, below);
    }
  }

  /** Something canonical strictly below the directory matches. */
  ghost predicate SomethingBelowMatches(glob: Glob, directory: string)
  {
    exists path :: Canonical(path) && StrictlyBelow(path, directory) && Matches(glob, path)
  }

  /** A visited directory has something matching below it when each component of the pattern
      can match something. */
  lemma {:induction false} VisitedHasMatch(glob: Glob, directory: GatPath)
    requires ValidGlob(glob) && forall i :: 0 <= i < |glob.comps| ==> Satisfiable(glob.comps[i])
    ensures CanMatchDescendant(glob, directory) ==> SomethingBelowMatches(glob, directory)
  {
    CanonicalShape(directory);
    hide MatchComps, Satisfiable, FirstMetaIndex, Compile, IsOrUnder, Split;
    if CanMatchDescendant(glob, directory) {
      PrefixesAgree(glob, directory);
      var below := AdmittedHasMatch(glob.comps, Components(directory));
      var path := PathBelow(directory, below);
      assert Matches(glob, path);
    }
  }

  lemma {:induction false} MatchIsVisited(glob: Glob, directory: string)
    requires ValidGlob(glob)
    ensures SomethingBelowMatches(glob, directory) ==> CanMatchDescendant(glob, directory)
  {
    hide ValidGlob, CanMatchDescendant, Matches, StrictlyBelow, Canonical;
    if SomethingBelowMatches(glob, directory) {
      var path :| Canonical(path) && StrictlyBelow(path, directory) && Matches(glob, path);
      PruningIsSound(glob, directory, path);
    }
  }

  /** A component that can match no canonical name keeps the whole pattern from matching. */
  lemma {:induction false} UnsatisfiableMatchesNone(comps: seq<Comp>, path: seq<string>, k: nat)
    requires k < |comps| && !Satisfiable(comps[k]) && GoodComponents(path)
    ensures !MatchComps(comps, path)
    decreases |comps|, |path|
  {
    hide MatchPieces, GoodComponent;
    if path != [] {
      assert GoodComponents(path[1..]) && GoodComponent(path[0]);
      if k > 0 {
        UnsatisfiableMatchesNone(comps[1..], path[1..], k - 1);
      }
      if comps[0].Recursive? {
        UnsatisfiableMatchesNone(comps, path[1..], k);
      }
    }
    if k > 0 && comps[0].Recursive? {
      UnsatisfiableMatchesNone(comps[1..], path, k - 1);
    }
  }

  lemma {:induction false} NothingMatchesBelow(glob: Glob, k: nat, directory: string)
    requires k < |glob.comps| && !Satisfiable(glob.comps[k])
    ensures !SomethingBelowMatches(glob, directory)
  {
    hide MatchComps, Satisfiable, StrictlyBelow, Split;
    forall path | Canonical(path) ensures !Matches(glob, path) {
      UnsatisfiableMatchesNone(glob.comps, Components(path), k);
    }
  }

  /** With an unsatisfiable first component no directory is visited. */
  lemma {:induction false} NothingIsVisited(glob: Glob, directory: GatPath)
    requires ValidGlob(glob) && glob.comps != [] && !Satisfiable(glob.comps[0])
    ensures !CanMatchDescendant(glob, directory)
  {
    CanonicalShape(directory);
    PrefixesAgree(glob, directory);
    hide MatchComps, Satisfiable, Split, ValidGlob, CanMatchDescendant;
    forall k | 0 < k <= |glob.comps| ensures !MatchComps(glob.comps[..k], Components(directory)) {
      UnsatisfiableMatchesNone(glob.comps[..k], Components(directory), 0);
    }
    assert glob.comps[..|glob.comps|] == glob.comps;
  }

  /** The components before the first unsatisfiable one match a directory, which is visited in
      vain. */
  lemma {:induction false} VisitedInVain(glob: Glob, k: nat) returns (directory: GatPath)
    requires ValidGlob(glob) && 0 < k < |glob.comps| && !Satisfiable(glob.comps[k])
    requires forall i :: 0 <= i < k ==> Satisfiable(glob.comps[i])
    ensures CanMatchDescendant(glob, directory) && !SomethingBelowMatches(glob, directory)
  {
    var dir := SomeMatch(glob.comps[..k]);
    ComponentsOfJoined(dir);
    directory := FromComponents(dir);
    hide MatchComps, Satisfiable, Split, Join, ValidGlob;
    PrefixesAgree(glob, directory);
    NothingMatchesBelow(glob, k, directory);
    hide CanMatchDescendant;
    assert CompsAdmit(glob.comps, Components(directory));
  }

  ghost predicate VisitsExactly(glob: Glob)
  {
    forall directory: GatPath :: CanMatchDescendant(glob, directory) <==> SomethingBelowMatches(glob, directory)
  }

  ghost predicate AllSatisfiable(comps: seq<Comp>)
  {
    forall i :: 0 <= i < |comps| ==> Satisfiable(comps[i])
  }

  lemma {:induction false} FirstUnsatisfiable(comps: seq<Comp>) returns (k: nat)
    requires !AllSatisfiable(comps)
    ensures k < |comps| && !Satisfiable(comps[k]) && forall i :: 0 <= i < k ==> Satisfiable(comps[i])
  {
    hide Satisfiable;
    k := 0;
    while Satisfiable(comps[k])
      invariant k < |comps| && forall i :: 0 <= i < k ==> Satisfiable(comps[i])
      invariant exists i :: k <= i < |comps| && !Satisfiable(comps[i])
      decreases |comps| - k
    {
      k := k + 1;
    }
  }

  /** The directories visited are exactly those with something matching below them if and only
      if every component of the pattern can match some canonical name, or the first cannot. */
  lemma {:induction false} PruningIsExact(glob: Glob)
    requires ValidGlob(glob)
    ensures glob.comps != []
    ensures VisitsExactly(glob) <==> AllSatisfiable(glob.comps) || !Satisfiable(glob.comps[0])
  {
    assert |glob.comps| == |Cut(glob.text)|;
    hide ValidGlob, Satisfiable, CanMatchDescendant, SomethingBelowMatches;
    if AllSatisfiable(glob.comps) {
      forall directory: GatPath
        ensures CanMatchDescendant(glob, directory) <==> SomethingBelowMatches(glob, directory)
      {
        VisitedHasMatch(glob, directory);
        MatchIsVisited(glob, directory);
      }
    } else if !Satisfiable(glob.comps[0]) {
      forall directory: GatPath
        ensures CanMatchDescendant(glob, directory) <==> SomethingBelowMatches(glob, directory)
      {
        NothingIsVisited(glob, directory);
        NothingMatchesBelow(glob, 0, directory);
      }
    } else {
      var k := FirstUnsatisfiable(glob.comps);
      var directory := VisitedInVain(glob, k);
      assert !(CanMatchDescendant(glob, directory) <==> SomethingBelowMatches(glob, directory));
    }
  }

  lemma {:induction false} PathBelow(directory: GatPath, below: seq<string>) returns (path: string)
    requires below != [] && GoodComponents(below)
    ensures Canonical(path) && StrictlyBelow(path, directory) && Components(path) == Components(directory) + below
  {
    ComponentsOfJoined(below);
    path := JoinRel(directory, FromComponents(below));
    JoinThenStrip(directory, FromComponents(below));
  }

  // ------------------------------------------------- the directory to walk

  /** The part of the bound before its last separator. */
  function TraversalDir(glob: Glob): string
    requires glob.firstMeta.Some? ==> glob.firstMeta.value <= |glob.text|
  {
    match BoundOf(glob)
    case AnyPath => ""
    case Prefix(p) => BeforeLastSlash(p)
    case Exact(p) => BeforeLastSlash(p)
  }

  function BeforeLastSlash(p: string): string
  {
    match LastIndexOf(p, '/')
    case None => ""
    case Some(i) => p[..i]
  }

  /** A prefix of a canonical text cut at its last separator is canonical. */
  lemma {:induction false} CutIsCanonical(text: string, p: string)
    requires p <= text && Canonical(text) && BeforeLastSlash(p) != ""
    ensures Canonical(BeforeLastSlash(p)) && BeforeLastSlash(p) + "/" <= p
  {
    var i := LastIndexOf(p, '/').value;
    assert text[i] == '/' && text[..i] == p[..i];
    CutAtSeparator(text, i);
    assert p[..i + 1] == p[..i] + "/";
  }

  /** The directory walked for a pattern holds every match and is canonical as it stands. */
  lemma {:induction false} TraversalDirIsSound(glob: Glob)
    requires ValidGlob(glob)
    ensures glob.firstMeta.Some? ==> glob.firstMeta.value <= |glob.text|
    ensures var dir := TraversalDir(glob);
            && (dir == "" || Canonical(dir))
            && forall path :: Matches(glob, path) ==> StrictlyBelow(path, dir)
  {
    hide Matches, Compile, Canonical, FirstMetaIndex;
    var dir := TraversalDir(glob);
    if dir != "" {
      var p := match BoundOf(glob) case AnyPath => "" case Prefix(q) => q case Exact(q) => q;
      NoDirOfNothing();
      CutIsCanonical(glob.text, p);
      forall path | Matches(glob, path) ensures StrictlyBelow(path, dir) {
        BoundIsSound(glob, path);
        SlashMeansBelow(path, dir);
      }
    }
  }

  lemma {:induction false} NoDirOfNothing()
    ensures BeforeLastSlash("") == ""
  {
  }

  lemma {:induction false} SlashMeansBelow(path: string, dir: string)
    requires dir + "/" <= path
    ensures StrictlyBelow(path, dir)
  {
    assert path[..|dir|] == dir;
  }

  // ------------------------------------------------------- an over-visit

  const DOT := Plain([Class(false, [CharSpan('.', '.')])])

  const EXAMPLE := Glob("a/[.]", Some(2), [Plain([Lit('a')]), DOT])

  /** A pattern whose last component can match no canonical name: the directory is visited
      although nothing below it can match. */
  lemma {:induction false} UnsatisfiableIsVisited()
    ensures ValidGlob(EXAMPLE) && CanMatchDescendant(EXAMPLE, "a") && !SomethingBelowMatches(EXAMPLE, "a")
  {
    ExampleIsValid();
    ExampleMatchesA();
    assert EXAMPLE.comps[..1] == [Plain([Lit('a')])];
    hide *;
    PrefixesAgree(EXAMPLE, "a");
    ExampleAdmitsA(EXAMPLE.comps);
    forall path ensures !(Canonical(path) && Matches(EXAMPLE, path)) {
      ExampleMatchesNone(path);
    }
    NothingMatches(EXAMPLE, "a");
  }

  lemma {:induction false} NothingMatches(glob: Glob, directory: string)
    requires forall path :: !(Canonical(path) && Matches(glob, path))
    ensures !SomethingBelowMatches(glob, directory)
  {
    hide Canonical, Matches, StrictlyBelow;
  }

  lemma {:induction false} ExampleAdmitsA(comps: seq<Comp>)
    requires |comps| == 2 && MatchComps(comps[..1], Components("a"))
    ensures CompsAdmit(comps, Components("a"))
  {
    hide MatchComps, Split;
  }

  lemma {:induction false} ExampleMatchesA()
    ensures MatchComps([Plain([Lit('a')])], Components("a"))
  {
    SplitFree(IsSlash, "a");
    var pieces, comps: seq<Comp> := [Lit('a')], [Plain([Lit('a')])];
    assert pieces[1..] == [] && "a"[1..] == "" && comps[1..] == [] && ["a"][1..] == [];
    assert MatchPieces(pieces, "a");
    assert MatchComps(comps[1..], ["a"][1..]);
  }

  lemma {:induction false} DotCompiles()
    ensures CompileComp("a") == Some(Plain([Lit('a')])) && CompileComp("[.]") == Some(DOT)
  {
    var text := "[.]";
    assert text[1..2] == "." && text[2..] == "]" && text[3..] == "";
    assert Spans(".") == [CharSpan('.', '.')];
    assert IndexOf("]", ']') == Some(0);
    assert ParseClass(text) == Some((Class(false, [CharSpan('.', '.')]), 3));
    assert CompilePieces("") == Some([]);
    assert "a"[1..] == "" && [Lit('a')] + [] == [Lit('a')];
    assert [Class(false, [CharSpan('.', '.')])] + [] == [Class(false, [CharSpan('.', '.')])];
  }

  lemma {:induction false} ExampleIsValid()
    ensures ValidGlob(EXAMPLE)
  {
    ExampleComponents();
    ExampleCut();
    ExampleMeta();
    ExampleCompiles();
    hide CompileAll, Split, Cut, FirstMetaIndex;
  }

  lemma {:induction false} ExampleComponents()
    ensures Components("a/[.]") == ["a", "[.]"] && Canonical("a/[.]")
  {
    SplitFree(IsSlash, "a");
    SplitFree(IsSlash, "[.]");
    hide Split;
    assert "a/[.]" == "a" + "/" + "[.]";
    ComponentsOfConcat("a", "[.]");
    assert ["a"] + ["[.]"] == ["a", "[.]"];
    assert GoodComponent("a") && GoodComponent("[.]");
  }

  lemma {:induction false} ExampleCut()
    ensures Cut("a/[.]") == ["a", "[.]"]
  {
    var text, tail := "a/[.]", "[.]";
    assert text[..1] == "a" && text[2..] == tail && tail[2..] == "]" && tail[3..] == "";
    assert IndexOf("]", ']') == Some(0);
    assert Unit(tail) == 3 && Cut("") == [""] && [""][1..] == [];
    assert tail[..3] + "" == tail;
    assert Cut(tail) == [tail];
    assert Unit("a") == 1 && "a"[1..] == "" && "a"[..1] + "" == "a";
    assert Cut("a") == ["a"];
    hide Cut;
    ExampleOuter(text);
    assert ["a"] + [tail] == ["a", tail];
  }

  lemma {:induction false} ExampleOuter(text: string)
    requires text == "a/[.]"
    ensures Cut(text) == Cut("a") + Cut("[.]")
  {
    assert text[..1] == "a" && text[1 + 1..] == "[.]" && "a"[1..] == "";
    assert Closed("");
    assert Closed("a");
    CutAtOuter(text, 1);
  }

  lemma {:induction false} ExampleMeta()
    ensures FirstMetaIndex("a/[.]") == Some(2)
  {
    var head, tail := "a/", "[.]";
    assert "a/[.]" == head + tail;
    FirstMetaOfConcat(head, tail);
    assert IsMeta(tail[0]);
    hide FirstMetaIndex;
    assert Free(IsMeta, head);
  }

  lemma {:induction false} ExampleCompiles()
    ensures CompileAll(["a", "[.]"]) == Some([Plain([Lit('a')]), DOT])
  {
    DotCompiles();
    assert CompileAll([]) == Some([]);
    hide *;
    assert ["a"] + ["[.]"] == ["a", "[.]"] && ["[.]"] + [] == ["[.]"] && [DOT] + [] == [DOT];
    CompilesTo("[.]", [], DOT, []);
    CompilesTo("a", ["[.]"], Plain([Lit('a')]), [DOT]);
    assert [Plain([Lit('a')])] + [DOT] == [Plain([Lit('a')]), DOT];
  }

  lemma {:induction false} CompilesTo(first: string, rest: seq<string>, comp: Comp, comps: seq<Comp>)
    requires CompileComp(first) == Some(comp) && CompileAll(rest) == Some(comps)
    ensures CompileAll([first] + rest) == Some([comp] + comps)
  {
    hide CompileComp;
    assert ([first] + rest)[1..] == rest;
  }

  lemma {:induction false} ExampleMatchesNone(path: string)
    ensures !(Canonical(path) && Matches(EXAMPLE, path))
  {
    if Matches(EXAMPLE, path) {
      MatchesDot(Components(path));
      assert !GoodComponent(".");
    }
  }

  lemma {:induction false} MatchesDot(path: seq<string>)
    requires MatchComps([Plain([Lit('a')]), DOT], path)
    ensures |path| == 2 && path[1] == "."
  {
    var pattern := [Plain([Lit('a')]), DOT];
    var rest: seq<Comp> := [DOT];
    assert pattern[1..] == rest && rest[1..] == [];
    assert MatchComps(rest, path[1..]);
    assert MatchComps([], path[1..][1..]);
    var s := path[1];
    assert MatchPieces(DOT.pieces, s) && DOT.pieces[1..] == [];
    assert MatchPieces([], s[1..]);
    assert s == [s[0]] + s[1..];
  }
}
