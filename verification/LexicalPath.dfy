/** Canonical root-relative paths: the one-pass normalizer, the strict validator, and the
    prefix algebra built on them (gat-core/src/lexical_path.rs). */
module LexicalPath {
  import opened Text

  datatype LexicalError =
    | EmptyPath(input: string)
    | NotRelative(input: string)
    | ParentTraversal(input: string)

  predicate IsSlash(c: char) { c == '/' }

  predicate IsAnySlash(c: char) { c == '/' || c == '\\' }

  predicate IsMeta(c: char) { c == '*' || c == '?' || c == '[' }

  function Components(path: string): (r: seq<string>)
    ensures r != []
  {
    Split(IsSlash, path)
  }

  function FromComponents(components: seq<string>): string
  {
    Join('/', components)
  }

  /** A component a canonical path may have. */
  predicate GoodComponent(c: string)
  {
    c != "" && c != "." && c != ".." && Free(IsAnySlash, c)
  }

  predicate GoodComponents(cs: seq<string>)
  {
    forall i :: 0 <= i < |cs| ==> GoodComponent(cs[i])
  }

  predicate Canonical(path: string)
  {
    GoodComponents(Components(path))
  }

  lemma {:induction false} SimplePathCanonical()
    ensures Canonical("a")
  {
    SplitFree(IsSlash, "a");
    assert GoodComponent("a");
  }

  type GatPath = p: string | Canonical(p) ghost witness (SimplePathCanonical(); "a")

  // ------------------------------------------------------- component view

  lemma {:induction false} ComponentsRoundTrip(path: string)
    ensures FromComponents(Components(path)) == path
    ensures forall i :: 0 <= i < |Components(path)| ==> Free(IsSlash, Components(path)[i])
  {
    JoinOfSplit(IsSlash, '/', path);
    PiecesAreFree(IsSlash, path);
  }

  lemma {:induction false} ComponentsOfJoined(cs: seq<string>)
    requires cs != [] && GoodComponents(cs)
    ensures Components(FromComponents(cs)) == cs
    ensures Canonical(FromComponents(cs))
    ensures FromComponents(cs) != ""
  {
    forall i | 0 <= i < |cs| ensures Free(IsSlash, cs[i]) {
      assert GoodComponent(cs[i]);
      assert forall j :: 0 <= j < |cs[i]| ==> !IsAnySlash(cs[i][j]);
    }
    SplitOfJoin(IsSlash, '/', cs);
    assert GoodComponent(cs[0]) && Components("") == [""];
  }

  lemma {:induction false} ComponentsOfConcat(a: string, b: string)
    ensures Components(a + "/" + b) == Components(a) + Components(b)
  {
    SplitAtSeparator(IsSlash, a, '/', b);
  }

  lemma {:induction false} CanonicalShape(path: GatPath)
    ensures path != "" && path[0] != '/' && path[|path| - 1] != '/' && '\\' !in path
  {
    ComponentsRoundTrip(path);
    var cs := Components(path);
    ComponentsOfJoined(cs);
    JoinEnds(cs);
    NoBackslash(cs);
  }

  lemma {:induction false} JoinEnds(cs: seq<string>)
    requires cs != [] && GoodComponents(cs)
    ensures var p := FromComponents(cs);
            p != "" && p[0] == cs[0][0] && p[|p| - 1] == cs[|cs| - 1][|cs[|cs| - 1]| - 1]
    ensures !IsAnySlash(cs[0][0]) && !IsAnySlash(cs[|cs| - 1][|cs[|cs| - 1]| - 1])
  {
    assert GoodComponent(cs[0]) && GoodComponent(cs[|cs| - 1]);
    if |cs| > 1 {
      JoinEnds(cs[..|cs| - 1]);
    }
  }

  lemma {:induction false} NoBackslash(cs: seq<string>)
    requires GoodComponents(cs)
    ensures '\\' !in FromComponents(cs)
  {
    if cs != [] {
      var last := cs[|cs| - 1];
      NoBackslash(cs[..|cs| - 1]);
      assert GoodComponent(last);
      assert forall j :: 0 <= j < |last| ==> !IsAnySlash(last[j]);
    }
  }

  // ----------------------------------------------------------- validation

  /** The first component that keeps `cs` from being canonical, if any. */
  function FirstBad(cs: seq<string>): (r: Option<nat>)
    ensures r.None? <==> GoodComponents(cs)
    ensures r.Some? ==> r.value < |cs| && !GoodComponent(cs[r.value]) && GoodComponents(cs[..r.value])
  {
    if cs == [] then None
    else if !GoodComponent(cs[0]) then assert !GoodComponents(cs); Some(0)
    else
      var rest := FirstBad(cs[1..]);
      assert cs == [cs[0]] + cs[1..];
      match rest
      case None => assert GoodComponents(cs); None
      case Some(i) =>
        assert cs[..i + 1] == [cs[0]] + cs[1..][..i];
        assert cs[i + 1] == cs[1..][i];
        Some(i + 1)
  }

  /** Strict validation accepts exactly the canonical texts; the error names the first
      offending component. */
  method ValidateCanonicalStr(raw: string) returns (r: Result<(), LexicalError>)
    ensures r.Ok? <==> Canonical(raw)
    ensures r.Err? && raw == "" ==> r.error == EmptyPath(raw)
    ensures r.Err? && raw != "" ==>
              var cs := Components(raw);
              r.error == if cs[FirstBad(cs).value] == ".." then ParentTraversal(raw) else NotRelative(raw)
  {
    var cs := Components(raw);
    if raw == "" {
      assert !GoodComponent(cs[0]);
      return Err(EmptyPath(raw));
    }
    if raw[0] == '/' {
      LeadingSlash(raw);
      return Err(NotRelative(raw));
    }
    PiecesAreFree(IsSlash, raw);
    for i := 0 to |cs|
      invariant GoodComponents(cs[..i])
    {
      var component := cs[i];
      assert Free(IsSlash, component);
      if component == "" || component == "." {
        FirstBadIs(cs, i);
        return Err(NotRelative(raw));
      }
      if component == ".." {
        FirstBadIs(cs, i);
        return Err(ParentTraversal(raw));
      }
      if '\\' in component {
        var k :| 0 <= k < |component| && component[k] == '\\';
        assert IsAnySlash(component[k]);
        FirstBadIs(cs, i);
        return Err(NotRelative(raw));
      }
      assert GoodComponent(component);
      assert cs[..i + 1] == cs[..i] + [component];
    }
    assert cs[..|cs|] == cs;
    return Ok(());
  }

  lemma {:induction false} LeadingSlash(raw: string)
    requires raw != "" && raw[0] == '/'
    ensures Components(raw)[0] == "" && FirstBad(Components(raw)) == Some(0)
  {
    assert raw == "" + "/" + raw[1..];
    ComponentsOfConcat("", raw[1..]);
    assert Components("") == [""];
    assert !GoodComponent("");
  }

  lemma {:induction false} FirstBadIs(cs: seq<string>, i: nat)
    requires i < |cs| && GoodComponents(cs[..i]) && !GoodComponent(cs[i])
    ensures FirstBad(cs) == Some(i)
    ensures !GoodComponents(cs)
  {
    hide GoodComponent, FirstBad;
    assert !GoodComponents(cs);
    var j := FirstBad(cs).value;
    assert forall k :: 0 <= k < i ==> cs[..i][k] == cs[k] && GoodComponent(cs[k]);
    assert forall k :: 0 <= k < j ==> cs[..j][k] == cs[k] && GoodComponent(cs[k]);
  }

  // -------------------------------------------------------- normalization

  /** What normalization keeps of a list of raw components. */
  function Kept(cs: seq<string>): (r: seq<string>)
  {
    if cs == [] then []
    else
      var last := cs[|cs| - 1];
      if last == "" || last == "." then Kept(cs[..|cs| - 1]) else Kept(cs[..|cs| - 1]) + [last]
  }

  /** The split specification: cut at either separator, drop empty and `.` pieces, join. */
  function NormalForm(raw: string): string
  {
    FromComponents(Kept(Split(IsAnySlash, raw)))
  }

  predicate Rooted(raw: string)
  {
    raw != "" && IsAnySlash(raw[0])
  }

  predicate Escapes(raw: string)
  {
    ".." in Split(IsAnySlash, raw)
  }

  function FirstMetaIndex(s: string): (r: Option<nat>)
    ensures r.Some? ==> r.value < |s| && IsMeta(s[r.value]) && Free(IsMeta, s[..r.value])
    ensures r.None? <==> Free(IsMeta, s)
  {
    if s == "" then None
    else
      match FirstMetaIndex(s[..|s| - 1])
      case Some(i) => assert s[..i] == s[..|s| - 1][..i]; Some(i)
      case None => if IsMeta(s[|s| - 1]) then Some(|s| - 1) else None
  }

  lemma {:induction false} FirstMetaOfConcat(a: string, b: string)
    ensures FirstMetaIndex(a + b) ==
            if FirstMetaIndex(a).Some? then FirstMetaIndex(a)
            else if FirstMetaIndex(b).Some? then Some(|a| + FirstMetaIndex(b).value)
            else None
  {
    if b == "" {
      assert a + b == a;
    } else {
      assert (a + b)[..|a + b| - 1] == a + b[..|b| - 1];
      FirstMetaOfConcat(a, b[..|b| - 1]);
    }
  }

  datatype Normalized = Normalized(pattern: string, firstMeta: Option<nat>)

  /** `closed` are the components ended before `idx`; the current one began at `from`. */
  ghost predicate Scanned(raw: string, idx: nat, closed: seq<string>, from: nat)
  {
    from <= idx <= |raw| && Split(IsAnySlash, raw[..idx]) == closed + [raw[from..idx]]
  }

  lemma {:induction false} ScanStep(raw: string, idx: nat, closed: seq<string>, from: nat)
    requires idx < |raw| && Scanned(raw, idx, closed, from)
    ensures IsAnySlash(raw[idx]) ==> Scanned(raw, idx + 1, closed + [raw[from..idx]], idx + 1)
    ensures !IsAnySlash(raw[idx]) ==> Scanned(raw, idx + 1, closed, from)
  {
    assert raw[..idx + 1][..idx] == raw[..idx];
    assert raw[from..idx + 1] == raw[from..idx] + [raw[idx]];
    assert raw[idx + 1..idx + 1] == [];
    var init := closed + [raw[from..idx]];
    assert init[..|init| - 1] == closed;
  }

  /** Each closed component is a component of the whole. */
  lemma {:induction false} ScannedClosed(raw: string, idx: nat, closed: seq<string>, from: nat)
    requires Scanned(raw, idx, closed, from) && (idx == |raw| || IsAnySlash(raw[idx]))
    ensures raw[from..idx] in Split(IsAnySlash, raw)
  {
    var init := closed + [raw[from..idx]];
    assert init[|closed|] == raw[from..idx];
    if idx == |raw| {
      assert raw[..idx] == raw;
    } else {
      assert raw == raw[..idx] + [raw[idx]] + raw[idx + 1..];
      SplitAtSeparator(IsAnySlash, raw[..idx], raw[idx], raw[idx + 1..]);
      var rest := Split(IsAnySlash, raw[idx + 1..]);
      assert (init + rest)[|closed|] == raw[from..idx];
    }
  }

  lemma {:induction false} CharKinds(c: char)
    ensures IsAnySlash(c) <==> c == '/' || c == '\\'
    ensures IsMeta(c) <==> c == '*' || c == '?' || c == '['
  {
  }

  lemma {:induction false} ScanStart(raw: string, trackMeta: bool)
    ensures Reading(raw, 0, [], 0, Normalized("", None), None, trackMeta)
  {
    assert raw[..0] == [] && raw[0..0] == "";
  }

  lemma {:induction false} ScanEnd(raw: string, closed: seq<string>, from: nat, acc: Normalized, trackMeta: bool)
    requires Scanned(raw, |raw|, closed, from) && Tracks(acc, closed + [raw[from..]], trackMeta)
    requires ".." !in closed && raw[from..] != ".."
    ensures !Escapes(raw)
    ensures acc == Normalized(NormalForm(raw), if trackMeta then FirstMetaIndex(NormalForm(raw)) else None)
  {
    assert raw[..|raw|] == raw && raw[from..|raw|] == raw[from..];
  }

  lemma {:induction false} EmptyHasNoMeta(raw: string, at: nat)
    requires at <= |raw|
    ensures FirstMetaIndex(raw[at..at]) == None
  {
    assert raw[at..at] == "";
  }

  lemma {:induction false} MetaStep(component: string, ch: char)
    ensures FirstMetaIndex(component + [ch]) ==
            if FirstMetaIndex(component).Some? then FirstMetaIndex(component)
            else if IsMeta(ch) then Some(|component|) else None
  {
    assert (component + [ch])[..|component|] == component;
  }

  /** A component behind the separator it needs. */
  function Appended(text: string, component: string): string
  {
    if text == "" then component else text + "/" + component
  }

  function AppendStart(text: string): nat
  {
    if text == "" then 0 else |text| + 1
  }

  /** What closing one more component does to the components kept so far. */
  lemma {:induction false} KeptStep(closed: seq<string>, component: string)
    ensures FromComponents(Kept(closed + [component])) ==
            if component == "" || component == "." then FromComponents(Kept(closed))
            else Appended(FromComponents(Kept(closed)), component)
  {
    var kept := Kept(closed);
    assert (closed + [component])[..|closed|] == closed;
    KeptJoinEmpty(closed);
    assert (kept + [component])[..|kept|] == kept;
  }

  /** Where the first metacharacter goes when a component is appended. */
  lemma {:induction false} MetaOfAppended(text: string, component: string)
    ensures FirstMetaIndex(Appended(text, component)) ==
            if FirstMetaIndex(text).Some? then FirstMetaIndex(text)
            else if FirstMetaIndex(component).Some? then Some(AppendStart(text) + FirstMetaIndex(component).value)
            else None
  {
    if text != "" {
      var start := text + ['/'];
      MetaStep(text, '/');
      FirstMetaOfConcat(start, component);
      assert start + component == text + "/" + component;
    }
  }

  /** One scan over `raw`: the accumulated text is the normal form of the components closed
      so far, and the carried offset is that of its first glob metacharacter. */
  method NormalizeLexical(raw: string, display: string, trackMeta: bool)
    returns (r: Result<Normalized, LexicalError>)
    ensures Rooted(raw) ==> r == Err(NotRelative(display))
    ensures !Rooted(raw) && Escapes(raw) ==> r == Err(ParentTraversal(display))
    ensures !Rooted(raw) && !Escapes(raw) ==>
              r == Ok(Normalized(NormalForm(raw),
                                 if trackMeta then FirstMetaIndex(NormalForm(raw)) else None))
  {
    if raw != "" && (raw[0] == '/' || raw[0] == '\\') {
      return Err(NotRelative(display));
    }
    assert !Rooted(raw);
    hide *;
    var acc := Normalized("", None);
    var componentStart := 0;
    var pendingMeta: Option<nat> := None;
    ghost var closed: seq<string> := [];
    ScanStart(raw, trackMeta);
    for idx := 0 to |raw|
      invariant componentStart <= idx
      invariant Reading(raw, idx, closed, componentStart, acc, pendingMeta, trackMeta)
    {
      var ch := raw[idx];
      CharKinds(ch);
      if ch == '/' || ch == '\\' {
        var component := raw[componentStart..idx];
        ComponentEnds(raw, idx, closed, componentStart, acc, pendingMeta, trackMeta);
        acc :- PushComponent(component, display, pendingMeta, acc, trackMeta, closed);
        ReadSeparator(raw, idx, closed, componentStart, acc, trackMeta);
        closed := closed + [component];
        componentStart := idx + 1;
        pendingMeta := None;
      } else {
        ReadOther(raw, idx, closed, componentStart, acc, pendingMeta, trackMeta);
        if (ch == '*' || ch == '?' || ch == '[') && trackMeta && acc.firstMeta.None? && pendingMeta.None? {
          pendingMeta := Some(idx - componentStart);
        }
      }
    }
    var component := raw[componentStart..];
    assert component == raw[componentStart..|raw|];
    ComponentEnds(raw, |raw|, closed, componentStart, acc, pendingMeta, trackMeta);
    acc :- PushComponent(component, display, pendingMeta, acc, trackMeta, closed);
    ScanEnd(raw, closed, componentStart, acc, trackMeta);
    return Ok(acc);
  }

  /** The scan before position `idx`: the components closed, the start of the current one, and
      the first metacharacter seen in it while none is known yet. */
  ghost predicate Reading(raw: string, idx: nat, closed: seq<string>, from: nat, acc: Normalized,
                          pending: Option<nat>, trackMeta: bool)
  {
    && from <= idx <= |raw| && Scanned(raw, idx, closed, from) && ".." !in closed && Tracks(acc, closed, trackMeta)
    && pending == if trackMeta && acc.firstMeta.None? then FirstMetaIndex(raw[from..idx]) else None
  }

  lemma {:induction false} ReadOther(raw: string, idx: nat, closed: seq<string>, from: nat, acc: Normalized,
                                     pending: Option<nat>, trackMeta: bool)
    requires idx < |raw| && Reading(raw, idx, closed, from, acc, pending, trackMeta) && !IsAnySlash(raw[idx])
    ensures from <= idx
    ensures Reading(raw, idx + 1, closed, from, acc,
                    if IsMeta(raw[idx]) && trackMeta && acc.firstMeta.None? && pending.None? then Some(idx - from)
                    else pending, trackMeta)
  {
    hide Scanned, Tracks, FirstMetaIndex, IsMeta, IsAnySlash;
    ScanStep(raw, idx, closed, from);
    assert raw[from..idx + 1] == raw[from..idx] + [raw[idx]];
    MetaStep(raw[from..idx], raw[idx]);
  }

  lemma {:induction false} ComponentEnds(raw: string, idx: nat, closed: seq<string>, from: nat, acc: Normalized,
                                         pending: Option<nat>, trackMeta: bool)
    requires Reading(raw, idx, closed, from, acc, pending, trackMeta) && (idx == |raw| || IsAnySlash(raw[idx]))
    ensures from <= idx <= |raw| && Scanned(raw, idx, closed, from) && ".." !in closed && Tracks(acc, closed, trackMeta)
    ensures pending == if trackMeta && acc.firstMeta.None? then FirstMetaIndex(raw[from..idx]) else None
    ensures raw[from..idx] == ".." ==> Escapes(raw)
  {
    hide Scanned, Tracks, FirstMetaIndex, IsAnySlash;
    ScannedClosed(raw, idx, closed, from);
  }

  lemma {:induction false} ReadSeparator(raw: string, idx: nat, closed: seq<string>, from: nat, acc: Normalized,
                                         trackMeta: bool)
    requires from <= idx < |raw| && IsAnySlash(raw[idx]) && Scanned(raw, idx, closed, from)
    requires ".." !in closed && raw[from..idx] != ".." && Tracks(acc, closed + [raw[from..idx]], trackMeta)
    ensures Reading(raw, idx + 1, closed + [raw[from..idx]], idx + 1, acc, None, trackMeta)
  {
    hide Scanned, Tracks, FirstMetaIndex, IsAnySlash;
    ScanStep(raw, idx, closed, from);
    EmptyHasNoMeta(raw, idx + 1);
  }

  /** The accumulator stands for the components closed so far. */
  ghost predicate Tracks(acc: Normalized, closed: seq<string>, trackMeta: bool)
  {
    && acc.pattern == FromComponents(Kept(closed))
    && acc.firstMeta == if trackMeta then FirstMetaIndex(acc.pattern) else None
  }

  /** Close one raw component: drop it, refuse it, or append it behind a separator. */
  method PushComponent(component: string, display: string, pendingMeta: Option<nat>, acc: Normalized,
                       ghost trackMeta: bool, ghost closed: seq<string>)
    returns (r: Result<Normalized, LexicalError>)
    requires Tracks(acc, closed, trackMeta)
    requires pendingMeta == if trackMeta && acc.firstMeta.None? then FirstMetaIndex(component) else None
    ensures component == ".." ==> r == Err(ParentTraversal(display))
    ensures component != ".." ==> r.Ok? && Tracks(r.value, closed + [component], trackMeta)
  {
    hide FirstMetaIndex, Tracks;
    PushTracks(component, pendingMeta, acc, trackMeta, closed);
    if component == "" || component == "." {
      return Ok(acc);
    }
    if component == ".." {
      return Err(ParentTraversal(display));
    }
    var pattern := acc.pattern;
    if pattern != "" {
      pattern := pattern + "/";
    }
    var start := |pattern|;
    pattern := pattern + component;
    assert pattern == Appended(acc.pattern, component);
    var firstMeta := acc.firstMeta;
    if firstMeta.None? && pendingMeta.Some? {
      firstMeta := Some(start + pendingMeta.value);
    }
    return Ok(Normalized(pattern, firstMeta));
  }

  /** The step `PushComponent` takes keeps the accumulator in step with the closed list. */
  lemma {:induction false} PushTracks(component: string, pendingMeta: Option<nat>, acc: Normalized,
                                      trackMeta: bool, closed: seq<string>)
    requires Tracks(acc, closed, trackMeta)
    requires pendingMeta == if trackMeta && acc.firstMeta.None? then FirstMetaIndex(component) else None
    ensures component == "" || component == "." ==> Tracks(acc, closed + [component], trackMeta)
    ensures component != "" && component != "." ==>
              Tracks(Normalized(Appended(acc.pattern, component),
                                if acc.firstMeta.None? && pendingMeta.Some?
                                then Some(AppendStart(acc.pattern) + pendingMeta.value) else acc.firstMeta),
                     closed + [component], trackMeta)
  {
    hide Kept, Join, FirstMetaIndex, Appended, AppendStart;
    KeptStep(closed, component);
    MetaOfAppended(acc.pattern, component);
  }

  /** What starts with a separator is rooted, and nothing canonical is. */
  lemma {:induction false} RootedExactly(rest: string, path: GatPath)
    ensures Rooted("/" + rest) && Rooted("\\" + rest) && !Rooted("") && !Rooted(path)
  {
    CanonicalShape(path);
    assert path[0] in path;
  }

  /** Two normal forms side by side. */
  function Beside(a: string, b: string): string
  {
    if a == "" then b else if b == "" then a else a + "/" + b
  }

  /** Normalizing works on the two sides of any separator by themselves. */
  lemma {:induction false} NormalizesPiecewise(a: string, b: string, separator: char)
    requires separator == '/' || separator == '\\'
    ensures NormalForm(a + [separator] + b) == Beside(NormalForm(a), NormalForm(b))
    ensures Escapes(a + [separator] + b) <==> Escapes(a) || Escapes(b)
  {
    SplitAtSeparator(IsAnySlash, a, separator, b);
    var p, q := Split(IsAnySlash, a), Split(IsAnySlash, b);
    hide Split, Join, Kept;
    KeptConcat(p, q);
    KeptJoinEmpty(p);
    KeptJoinEmpty(q);
    if Kept(p) != [] && Kept(q) != [] {
      JoinConcat('/', Kept(p), Kept(q));
    } else {
      assert Kept(p) + [] == Kept(p) && [] + Kept(q) == Kept(q);
    }
  }

  /** A piece without separators is left as it is, or dropped if it says nothing. */
  lemma {:induction false} NormalFormOfPiece(piece: string)
    requires Free(IsAnySlash, piece)
    ensures NormalForm(piece) == if piece == "." then "" else piece
    ensures Escapes(piece) <==> piece == ".."
  {
    SplitFree(IsAnySlash, piece);
    assert [piece][..0] == [];
    assert Kept([piece]) == if piece == "" || piece == "." then [] else [piece];
  }

  lemma {:induction false} KeptConcat(a: seq<string>, b: seq<string>)
    ensures Kept(a + b) == Kept(a) + Kept(b)
  {
    if b == [] {
      assert a + b == a;
    } else {
      assert (a + b)[..|a + b| - 1] == a + b[..|b| - 1];
      KeptConcat(a, b[..|b| - 1]);
    }
  }

  lemma {:induction false} KeptAreNonEmpty(cs: seq<string>)
    ensures forall i :: 0 <= i < |Kept(cs)| ==> Kept(cs)[i] != "" && Kept(cs)[i] != "." && Kept(cs)[i] in cs
  {
    if cs != [] {
      KeptAreNonEmpty(cs[..|cs| - 1]);
    }
  }

  lemma {:induction false} KeptJoinEmpty(cs: seq<string>)
    ensures FromComponents(Kept(cs)) == "" <==> Kept(cs) == []
  {
    KeptAreNonEmpty(cs);
    var kept := Kept(cs);
    if kept != [] {
      assert kept[|kept| - 1] != "";
    }
  }

  /** Every accepted input normalizes to nothing or to a canonical path. */
  lemma {:induction false} NormalFormCanonical(raw: string)
    requires !Escapes(raw)
    ensures NormalForm(raw) == "" || Canonical(NormalForm(raw))
  {
    var pieces := Split(IsAnySlash, raw);
    var kept := Kept(pieces);
    KeptAreNonEmpty(pieces);
    PiecesAreFree(IsAnySlash, raw);
    assert GoodComponents(kept) by {
      forall i | 0 <= i < |kept| ensures GoodComponent(kept[i]) {
        var j :| 0 <= j < |pieces| && pieces[j] == kept[i];
      }
    }
    if kept != [] {
      ComponentsOfJoined(kept);
    }
  }

  /** Canonical text is a fixed point: it is accepted and left as it is. */
  lemma {:induction false} NormalFormOfCanonical(path: GatPath)
    ensures !Rooted(path) && !Escapes(path) && NormalForm(path) == path
  {
    var cs := Components(path);
    CanonicalShape(path);
    ComponentsRoundTrip(path);
    SplitWithoutBackslash(path);
    KeptAll(cs);
    assert forall i :: 0 <= i < |cs| ==> GoodComponent(cs[i]) && cs[i] != "..";
  }

  lemma {:induction false} SplitWithoutBackslash(s: string)
    requires '\\' !in s
    ensures Split(IsAnySlash, s) == Split(IsSlash, s)
  {
    if s != "" {
      assert s[|s| - 1] in s;
      assert forall c :: c in s[..|s| - 1] ==> c in s;
      SplitWithoutBackslash(s[..|s| - 1]);
    }
  }

  lemma {:induction false} KeptAll(cs: seq<string>)
    requires GoodComponents(cs)
    ensures Kept(cs) == cs
  {
    if cs != [] {
      assert GoodComponent(cs[|cs| - 1]);
      KeptAll(cs[..|cs| - 1]);
    }
  }

  lemma {:induction false} NormalFormIdempotent(raw: string)
    requires !Escapes(raw)
    ensures !Rooted(NormalForm(raw)) && !Escapes(NormalForm(raw))
    ensures NormalForm(NormalForm(raw)) == NormalForm(raw)
  {
    NormalFormCanonical(raw);
    if NormalForm(raw) == "" {
      assert Split(IsAnySlash, "") == [""];
      assert Kept([""]) == [];
    } else {
      NormalFormOfCanonical(NormalForm(raw));
    }
  }
}
