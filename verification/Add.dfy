/** Adding files: selectors are resolved in order, new candidates gather in a bounded window,
    and each full window is turned into entries (gat-command/src/add.rs).

    The file system, Git, ignore rules, discovery, reuse and hashing are given as functions;
    `World` says which. What the result owes to the window is only the order of the entries and
    which of several faults is reported. */
module Add {
  import opened Text
  import opened LexicalPath
  import opened PathAlgebra
  import opened Globs

  // ------------------------------------------------------------- the outside

  datatype Kind = Symlink | Directory | File | Other | Missing

  datatype GitStatus = GitStatus(tracked: bool, gitignored: bool)

  datatype Candidate = Candidate(path: GatPath, desiredOid: Option<string>)

  datatype Entry = Entry(path: GatPath, oid: string)

  /** Candidates found, and how many files and directories were excluded on the way. */
  datatype Discovery = Discovery(candidates: seq<Candidate>, excluded: nat)

  type Fault = string

  type pos = n: nat | n >= 1 witness 1

  datatype World = World(
    infrastructure: GatPath -> bool,
    owned: GatPath -> bool,
    gatignored: GatPath -> bool,
    kind: GatPath -> Result<Kind, Fault>,
    status: GatPath -> Result<GitStatus, Fault>,
    desiredExact: GatPath -> Result<bool, Fault>,
    discover: (Option<GatPath>, Option<Glob>) -> Result<Discovery, Fault>,
    reuse: Candidate -> Result<Option<Entry>, Fault>,
    ingest: GatPath -> Result<Entry, Fault>,
    force: bool)

  datatype AddError =
    | Infrastructure(path: GatPath)
    | OwnedByMount(path: GatPath)
    | IgnoredByGatignore(path: GatPath)
    | IgnoredByGit(path: GatPath)
    | AlreadyGitTracked(path: GatPath)
    | UnsupportedSymlink(path: GatPath)
    | UnsupportedFileType(path: GatPath)
    | NoMatch(pattern: GatPath)
    | BadPattern(error: GlobError)
    | Failed(fault: Fault)

  datatype Row = Row(scope: PathScope, fileCount: Option<nat>)

  // --------------------------------------------------- turning into entries

  function Converted(w: World, c: Candidate): Result<Entry, Fault>
  {
    match w.reuse(c)
    case Err(fault) => Err(fault)
    case Ok(Some(entry)) => Ok(entry)
    case Ok(None) => w.ingest(c.path)
  }

  /** The first candidate that cannot be turned into an entry says how. */
  function FirstFailure(w: World, cs: seq<Candidate>): Option<Fault>
  {
    if cs == [] then None
    else
      match FirstFailure(w, cs[..|cs| - 1])
      case Some(fault) => Some(fault)
      case None =>
        match Converted(w, cs[|cs| - 1])
        case Ok(_) => None
        case Err(fault) => Some(fault)
  }

  /** The entries of the candidates, each as often as it arises. */
  function Entries(w: World, cs: seq<Candidate>): multiset<Entry>
  {
    if cs == [] then multiset{}
    else
      match Converted(w, cs[|cs| - 1])
      case Ok(entry) => Entries(w, cs[..|cs| - 1]) + multiset{entry}
      case Err(_) => Entries(w, cs[..|cs| - 1])
  }

  lemma {:induction false} FirstFailureConcat(w: World, a: seq<Candidate>, b: seq<Candidate>)
    ensures FirstFailure(w, a + b) == if FirstFailure(w, a).Some? then FirstFailure(w, a) else FirstFailure(w, b)
    ensures Entries(w, a + b) == Entries(w, a) + Entries(w, b)
  {
    hide Converted;
    if b == [] {
      assert a + b == a;
    } else {
      assert (a + b)[..|a + b| - 1] == a + b[..|b| - 1];
      FirstFailureConcat(w, a, b[..|b| - 1]);
    }
  }

  // ---------------------------------------------------------------- windows

  function Ingested(w: World, paths: seq<GatPath>): seq<Entry>
  {
    if paths == [] then []
    else
      Ingested(w, paths[..|paths| - 1]) +
      match w.ingest(paths[|paths| - 1]) case Ok(entry) => [entry] case Err(_) => []
  }

  function IngestFailure(w: World, paths: seq<GatPath>): Option<Fault>
  {
    if paths == [] then None
    else
      match IngestFailure(w, paths[..|paths| - 1])
      case Some(fault) => Some(fault)
      case None => match w.ingest(paths[|paths| - 1]) case Ok(_) => None case Err(fault) => Some(fault)
  }

  /** The first candidate whose reuse cannot be checked. */
  function ReuseFailure(w: World, cs: seq<Candidate>): Option<Fault>
  {
    if cs == [] then None
    else
      match ReuseFailure(w, cs[..|cs| - 1])
      case Some(fault) => Some(fault)
      case None => match w.reuse(cs[|cs| - 1]) case Ok(_) => None case Err(fault) => Some(fault)
  }

  function Reused(w: World, cs: seq<Candidate>): seq<Entry>
  {
    if cs == [] then []
    else
      Reused(w, cs[..|cs| - 1]) + match w.reuse(cs[|cs| - 1]) case Ok(Some(entry)) => [entry] case _ => []
  }

  function ToHash(w: World, cs: seq<Candidate>): seq<GatPath>
  {
    if cs == [] then []
    else
      ToHash(w, cs[..|cs| - 1]) + if w.reuse(cs[|cs| - 1]) == Ok(None) then [cs[|cs| - 1].path] else []
  }

  /** The entries of one window: those reused come before those hashed. */
  function WindowEntries(w: World, cs: seq<Candidate>): seq<Entry>
  {
    Reused(w, cs) + Ingested(w, ToHash(w, cs))
  }

  /** The entries of all candidates, window by window. */
  function InWindows(w: World, cs: seq<Candidate>, window: pos): seq<Entry>
  {
    if cs == [] then []
    else
      var n := if |cs| < window then |cs| else window;
      WindowEntries(w, cs[..n]) + InWindows(w, cs[n..], window)
  }

  /** Reuse is checked for a whole window before anything of it is hashed. */
  function WindowFailure(w: World, cs: seq<Candidate>): Option<Fault>
  {
    match ReuseFailure(w, cs)
    case Some(fault) => Some(fault)
    case None => IngestFailure(w, ToHash(w, cs))
  }

  /** The first window that fails says how. */
  function FailureInWindows(w: World, cs: seq<Candidate>, window: pos): Option<Fault>
  {
    if cs == [] then None
    else
      var n := if |cs| < window then |cs| else window;
      match WindowFailure(w, cs[..n])
      case Some(fault) => Some(fault)
      case None => FailureInWindows(w, cs[n..], window)
  }

  /** The same among the full windows, which are flushed while selectors are resolved. */
  function FullFailure(w: World, cs: seq<Candidate>, window: pos): Option<Fault>
  {
    if |cs| < window then None
    else
      match WindowFailure(w, cs[..window])
      case Some(fault) => Some(fault)
      case None => FullFailure(w, cs[window..], window)
  }

  // ------------------------------------------- what the selectors ask for

  /** What resolving selectors has come to: the candidates seen first, in order, the
      directories walked, and the rows to report. */
  datatype Progress = Progress(pushed: seq<Candidate>, directories: seq<Option<GatPath>>, rows: seq<Row>)

  function PathsOf(cs: seq<Candidate>): set<GatPath>
  {
    set i | 0 <= i < |cs| :: cs[i].path
  }

  /** Candidates are kept the first time their path is seen. */
  function PushAll(pushed: seq<Candidate>, cs: seq<Candidate>): (r: seq<Candidate>)
    ensures pushed <= r
  {
    if cs == [] then pushed
    else
      var r, last := PushAll(pushed, cs[..|cs| - 1]), cs[|cs| - 1];
      if last.path in PathsOf(r) then r else r + [last]
  }

  function FirstOwned(w: World, cs: seq<Candidate>): (r: Option<GatPath>)
    ensures r.None? <==> forall i :: 0 <= i < |cs| ==> !w.owned(cs[i].path)
  {
    if cs == [] then None
    else if w.owned(cs[0].path) then Some(cs[0].path)
    else
      assert cs == [cs[0]] + cs[1..];
      FirstOwned(w, cs[1..])
  }

  predicate Covered(directories: seq<Option<GatPath>>, dir: Option<GatPath>)
  {
    exists i :: 0 <= i < |directories| && CoveredBy(directories[i], dir)
  }

  predicate CoveredBy(prior: Option<GatPath>, dir: Option<GatPath>)
  {
    prior.None? || (dir.Some? && IsOrUnder(dir.value, prior.value))
  }

  /** Walking one directory: nothing below an earlier walk is walked again. */
  function StepDir(w: World, p: Progress, dir: Option<GatPath>): (r: Result<Progress, AddError>)
    ensures r.Ok? ==> p.pushed <= r.value.pushed
  {
    if dir.Some? && w.infrastructure(dir.value) then Err(Infrastructure(dir.value))
    else if Covered(p.directories, dir) then Ok(p)
    else
      match w.discover(dir, None)
      case Err(fault) => Err(Failed(fault))
      case Ok(found) =>
        match FirstOwned(w, found.candidates)
        case Some(path) => Err(OwnedByMount(path))
        case None => Ok(p.(pushed := PushAll(p.pushed, found.candidates), directories := p.directories + [dir]))
  }

  /** A walked directory is reported with the number of files first seen in it. */
  function DirRow(p: Progress, scope: PathScope, r: Result<Progress, AddError>): Result<Progress, AddError>
    requires r.Ok? ==> p.pushed <= r.value.pushed
  {
    match r
    case Err(error) => Err(error)
    case Ok(next) => Ok(next.(rows := next.rows + [Row(scope, Some(|next.pushed| - |p.pushed|))]))
  }

  function FileRows(cs: seq<Candidate>): seq<Row>
  {
    seq(|cs|, i requires 0 <= i < |cs| => Row(Scope(cs[i].path), None))
  }

  function WalkRoot(glob: Glob): Option<GatPath>
    requires ValidGlob(glob)
  {
    TraversalDirIsSound(glob);
    var dir := TraversalDir(glob);
    if dir == "" then None else Some(dir)
  }

  function StepGlob(w: World, p: Progress, pattern: GatPath): Result<Progress, AddError>
  {
    var parsed := FromPath(pattern);
    if parsed.Err? then Err(BadPattern(parsed.error))
    else
      match w.discover(WalkRoot(parsed.value), Some(parsed.value))
      case Err(fault) => Err(Failed(fault))
      case Ok(found) =>
        if found.candidates == [] && found.excluded == 0 then Err(NoMatch(pattern))
        else
          match FirstOwned(w, found.candidates)
          case Some(path) => Err(OwnedByMount(path))
          case None =>
            var pushed := PushAll(p.pushed, found.candidates);
            Ok(p.(pushed := pushed, rows := p.rows + FileRows(pushed[|p.pushed|..])))
  }

  /** Why a single file cannot be added, in the order the checks are made. */
  function RefuseFile(w: World, path: GatPath): Option<AddError>
  {
    if w.infrastructure(path) then Some(Infrastructure(path))
    else if w.owned(path) then Some(OwnedByMount(path))
    else if !w.force && w.gatignored(path) then Some(IgnoredByGatignore(path))
    else
      match w.status(path)
      case Err(fault) => Some(Failed(fault))
      case Ok(status) =>
        if status.tracked then Some(AlreadyGitTracked(path))
        else if w.force || !status.gitignored then None
        else
          match w.desiredExact(path)
          case Err(fault) => Some(Failed(fault))
          case Ok(desired) => if desired then None else Some(IgnoredByGit(path))
  }

  /** Whether a reason to refuse a single file holds, whatever else is wrong with it. */
  predicate Applies(w: World, path: GatPath, reason: AddError)
  {
    match reason
    case Infrastructure(p) => p == path && w.infrastructure(path)
    case OwnedByMount(p) => p == path && w.owned(path)
    case IgnoredByGatignore(p) => p == path && !w.force && w.gatignored(path)
    case AlreadyGitTracked(p) => p == path && w.status(path).Ok? && w.status(path).value.tracked
    case Failed(fault) => w.status(path) == Err(fault) || (HiddenByGit(w, path) && w.desiredExact(path) == Err(fault))
    case IgnoredByGit(p) => p == path && HiddenByGit(w, path) && w.desiredExact(path) == Ok(false)
    case _ => false
  }

  predicate HiddenByGit(w: World, path: GatPath)
  {
    !w.force && w.status(path).Ok? && w.status(path).value.gitignored
  }

  /** Of several reasons the one of the lowest rank is reported. */
  function Rank(reason: AddError): nat
  {
    match reason
    case Infrastructure(_) => 0
    case OwnedByMount(_) => 1
    case IgnoredByGatignore(_) => 2
    case AlreadyGitTracked(_) => 3
    case Failed(_) => 4
    case _ => 5
  }

  function StepFile(w: World, p: Progress, path: GatPath): Result<Progress, AddError>
  {
    match RefuseFile(w, path)
    case Some(error) => Err(error)
    case None =>
      if path in PathsOf(p.pushed) then Ok(p)
      else Ok(p.(pushed := p.pushed + [Candidate(path, None)], rows := p.rows + [Row(Scope(path), None)]))
  }

  function Step(w: World, p: Progress, scope: PathScope): Result<Progress, AddError>
  {
    match scope
    case RootScope => DirRow(p, scope, StepDir(w, p, None))
    case Scope(path) =>
      if w.infrastructure(path) then Err(Infrastructure(path))
      else
        match w.kind(path)
        case Err(fault) => Err(Failed(fault))
        case Ok(Symlink) => Err(UnsupportedSymlink(path))
        case Ok(Directory) => DirRow(p, scope, StepDir(w, p, Some(path)))
        case Ok(File) => StepFile(w, p, path)
        case Ok(Other) => Err(UnsupportedFileType(path))
        case Ok(Missing) => StepGlob(w, p, path)
  }

  /** All selectors in order, each scope once, up to the first that is refused. */
  function Resolve(w: World, scopes: seq<PathScope>): (Progress, Option<AddError>)
  {
    if scopes == [] then (Progress([], [], []), None)
    else
      var init, last := scopes[..|scopes| - 1], scopes[|scopes| - 1];
      var (p, error) := Resolve(w, init);
      if error.Some? || last in init then (p, error)
      else
        match Step(w, p, last)
        case Err(e) => (p, Some(e))
        case Ok(next) => (next, None)
  }

  datatype AddOutcome = AddOutcome(rows: seq<Row>, addedCount: nat, added: seq<Entry>)

  /** What adding comes to. A window enters only in which fault is reported when candidates
      cannot be turned into entries; that comes before a selector that was refused after them. */
  ghost predicate IsOutcome(w: World, scopes: seq<PathScope>, window: pos, r: Result<AddOutcome, AddError>)
  {
    var (p, error) := Resolve(w, scopes);
    match FailureInWindows(w, p.pushed, window)
    case Some(fault) => r == Err(Failed(fault))
    case None =>
      match error
      case Some(e) => r == Err(e)
      case None =>
        r.Ok? && r.value.rows == p.rows && r.value.addedCount == |p.pushed| == |PathsOf(p.pushed)| &&
        multiset(r.value.added) == Entries(w, p.pushed)
  }

  // ------------------------------------------------- facts about resolving

  predicate DistinctPaths(cs: seq<Candidate>)
  {
    forall i, j :: 0 <= i < j < |cs| ==> cs[i].path != cs[j].path
  }

  lemma {:induction false} PathsSnoc(cs: seq<Candidate>, c: Candidate)
    ensures PathsOf(cs + [c]) == PathsOf(cs) + {c.path}
  {
    var all := cs + [c];
    assert all[|cs|] == c;
    forall x | x in PathsOf(cs) ensures x in PathsOf(all) {
      var i :| 0 <= i < |cs| && cs[i].path == x;
      assert all[i].path == x;
    }
  }

  lemma {:induction false} DistinctCount(cs: seq<Candidate>)
    requires DistinctPaths(cs)
    ensures |PathsOf(cs)| == |cs|
  {
    if cs != [] {
      var init, last := cs[..|cs| - 1], cs[|cs| - 1];
      DistinctCount(init);
      PathsSnoc(init, last);
      assert cs == init + [last];
      LastIsNew(cs);
      hide PathsOf, DistinctPaths;
    }
  }

  lemma {:induction false} LastIsNew(cs: seq<Candidate>)
    requires DistinctPaths(cs) && cs != []
    ensures cs[|cs| - 1].path !in PathsOf(cs[..|cs| - 1])
  {
  }

  lemma {:induction false} PushAllDistinct(pushed: seq<Candidate>, cs: seq<Candidate>)
    requires DistinctPaths(pushed)
    ensures DistinctPaths(PushAll(pushed, cs))
  {
    if cs != [] {
      PushAllDistinct(pushed, cs[..|cs| - 1]);
    }
  }

  /** Resolving further only adds candidates. */
  lemma {:induction false} StepGrows(w: World, p: Progress, scope: PathScope)
    requires Step(w, p, scope).Ok? && DistinctPaths(p.pushed)
    ensures p.pushed <= Step(w, p, scope).value.pushed
    ensures DistinctPaths(Step(w, p, scope).value.pushed)
  {
    hide PushAll, FromPath, Covered, WalkRoot, FirstOwned, RefuseFile;
    forall cs ensures DistinctPaths(PushAll(p.pushed, cs)) {
      PushAllDistinct(p.pushed, cs);
    }
  }

  lemma {:induction false} ResolveDistinct(w: World, scopes: seq<PathScope>)
    ensures DistinctPaths(Resolve(w, scopes).0.pushed)
  {
    hide Step, DistinctPaths;
    if scopes == [] {
      NothingDistinct();
    } else {
      ResolveDistinct(w, scopes[..|scopes| - 1]);
      var (p, error) := Resolve(w, scopes[..|scopes| - 1]);
      if Step(w, p, scopes[|scopes| - 1]).Ok? {
        StepGrows(w, p, scopes[|scopes| - 1]);
      }
    }
  }

  lemma {:induction false} NothingDistinct()
    ensures DistinctPaths([])
  {
  }

  /** Once refused, or once a candidate failed, later selectors change nothing in the result. */
  lemma {:induction false} ResolvePrefix(w: World, scopes: seq<PathScope>, n: nat)
    requires n <= |scopes|
    ensures Resolve(w, scopes[..n]).0.pushed <= Resolve(w, scopes).0.pushed
    ensures Resolve(w, scopes[..n]).1.Some? ==> Resolve(w, scopes) == Resolve(w, scopes[..n])
    decreases |scopes|
  {
    hide Step;
    if n == |scopes| {
      assert scopes[..n] == scopes;
    } else {
      var init := scopes[..|scopes| - 1];
      ResolvePrefix(w, init, n);
      assert init[..n] == scopes[..n];
      var (p, error) := Resolve(w, init);
      ResolveDistinct(w, init);
      if Step(w, p, scopes[|scopes| - 1]).Ok? {
        StepGrows(w, p, scopes[|scopes| - 1]);
      }
    }
  }

  // ------------------------------------------------------------- one window

  lemma {:induction false} IngestSnoc(w: World, paths: seq<GatPath>, path: GatPath)
    ensures Ingested(w, paths + [path]) ==
            Ingested(w, paths) + match w.ingest(path) case Ok(entry) => [entry] case Err(_) => []
    ensures IngestFailure(w, paths + [path]) ==
            if IngestFailure(w, paths).Some? then IngestFailure(w, paths)
            else match w.ingest(path) case Ok(_) => None case Err(fault) => Some(fault)
  {
    assert (paths + [path])[..|paths|] == paths;
  }

  /** Whether `n` candidates fill whole windows. */
  predicate WholeWindows(n: nat, window: pos)
  {
    n == 0 || (n >= window && WholeWindows(n - window, window))
  }

  /** One more window behind whole windows. */
  lemma {:induction false} WindowBehind(w: World, before: seq<Candidate>, cs: seq<Candidate>, window: pos)
    requires |cs| <= window && WholeWindows(|before|, window)
    ensures InWindows(w, before + cs, window) == InWindows(w, before, window) + WindowEntries(w, cs)
    ensures FailureInWindows(w, before, window).None? ==>
            FailureInWindows(w, before + cs, window) == WindowFailure(w, cs)
    ensures FailureInWindows(w, before, window).None? && |cs| == window ==>
              FullFailure(w, before + cs, window) == WindowFailure(w, cs)
    ensures |cs| == window ==> WholeWindows(|before + cs|, window)
    decreases |before|
  {
    hide WindowEntries, WindowFailure;
    if before == [] {
      assert before + cs == cs && cs[..|cs|] == cs;
      NoWindow(w);
    } else {
      assert (before + cs)[..window] == before[..window] && (before + cs)[window..] == before[window..] + cs;
      WindowBehind(w, before[window..], cs, window);
    }
  }

  lemma {:induction false} NoWindow(w: World)
    ensures WindowEntries(w, []) == [] && WindowFailure(w, []) == None
  {
  }

  /** The order of the entries depends on the window: a candidate to hash before one that is
      reused keeps its place only if a window ends between them. */
  lemma {:induction false} OrderDependsOnWindow(w: World, hashed: Candidate, reused: Candidate, a: Entry, b: Entry)
    requires w.reuse(hashed) == Ok(None) && w.ingest(hashed.path) == Ok(a) && w.reuse(reused) == Ok(Some(b))
    ensures InWindows(w, [hashed, reused], 1) == [a, b]
    ensures InWindows(w, [hashed, reused], 2) == [b, a]
  {
    hide InWindows, FailureInWindows, FullFailure;
    var both := [hashed, reused];
    assert [hashed] + [reused] == both && [] + [hashed] == [hashed] && [] + both == both;
    OneEach(w, hashed, reused, a, b);
    hide WindowEntries;
    WindowBehind(w, [], [hashed], 1);
    WindowBehind(w, [hashed], [reused], 1);
    WindowBehind(w, [], both, 2);
    NoCandidates(w);
  }

  lemma {:induction false} Alone(w: World, c: Candidate)
    ensures ReuseFailure(w, [c]) == match w.reuse(c) case Ok(_) => None case Err(fault) => Some(fault)
    ensures FirstFailure(w, [c]) == match Converted(w, c) case Ok(_) => None case Err(fault) => Some(fault)
    ensures Reused(w, [c]) == match w.reuse(c) case Ok(Some(entry)) => [entry] case _ => []
    ensures ToHash(w, [c]) == if w.reuse(c) == Ok(None) then [c.path] else []
  {
    var one := [c];
    assert one[..|one| - 1] == [];
  }

  lemma {:induction false} OneEach(w: World, hashed: Candidate, reused: Candidate, a: Entry, b: Entry)
    requires w.reuse(hashed) == Ok(None) && w.ingest(hashed.path) == Ok(a) && w.reuse(reused) == Ok(Some(b))
    ensures WindowEntries(w, [hashed]) == [a] && WindowEntries(w, [reused]) == [b]
    ensures WindowEntries(w, [hashed, reused]) == [b, a]
  {
    var both := [hashed, reused];
    assert both[..|both| - 1] == [hashed];
    Alone(w, hashed);
    Alone(w, reused);
    var one := [hashed.path];
    assert one[..|one| - 1] == [] && Ingested(w, one) == [a];
    assert Reused(w, both) == [b] && ToHash(w, both) == one;
  }

  lemma {:induction false} NoCandidates(w: World)
    ensures forall window: pos :: InWindows(w, [], window) == []
  {
  }

  /** Splits a window into reused entries and files to hash. */
  method PartitionReusable(w: World, candidates: seq<Candidate>)
    returns (r: Result<(seq<Entry>, seq<GatPath>), Fault>)
    ensures match ReuseFailure(w, candidates)
            case Some(fault) => r == Err(fault)
            case None => r == Ok((Reused(w, candidates), ToHash(w, candidates)))
  {
    var reused, toHash := [], [];
    for i := 0 to |candidates|
      invariant ReuseFailure(w, candidates[..i]) == None
      invariant reused == Reused(w, candidates[..i]) && toHash == ToHash(w, candidates[..i])
    {
      assert candidates[..i + 1][..i] == candidates[..i];
      match w.reuse(candidates[i])
      case Err(fault) =>
        ReuseFailureStays(w, candidates, i + 1);
        return Err(fault);
      case Ok(Some(entry)) => reused := reused + [entry];
      case Ok(None) => toHash := toHash + [candidates[i].path];
    }
    assert candidates[..|candidates|] == candidates;
    return Ok((reused, toHash));
  }

  lemma {:induction false} ReuseFailureStays(w: World, cs: seq<Candidate>, n: nat)
    requires n <= |cs| && ReuseFailure(w, cs[..n]).Some?
    ensures ReuseFailure(w, cs) == ReuseFailure(w, cs[..n])
  {
    ReuseFailureConcat(w, cs[..n], cs[n..]);
    assert cs == cs[..n] + cs[n..];
  }

  lemma {:induction false} ReuseFailureConcat(w: World, a: seq<Candidate>, b: seq<Candidate>)
    ensures ReuseFailure(w, a + b) == if ReuseFailure(w, a).Some? then ReuseFailure(w, a) else ReuseFailure(w, b)
  {
    if b == [] {
      assert a + b == a;
    } else {
      assert (a + b)[..|a + b| - 1] == a + b[..|b| - 1];
      ReuseFailureConcat(w, a, b[..|b| - 1]);
    }
  }

  /** A window fails as its first failing candidate does, unless a reuse check behind it fails. */
  lemma {:induction false} WindowTells(w: World, cs: seq<Candidate>)
    ensures ReuseFailure(w, cs).Some? ==> FirstFailure(w, cs).Some?
    ensures ReuseFailure(w, cs).None? ==> FirstFailure(w, cs) == IngestFailure(w, ToHash(w, cs))
    ensures WindowFailure(w, cs).None? ==> multiset(WindowEntries(w, cs)) == Entries(w, cs)
  {
    WindowFault(w, cs);
    hide FirstFailure, ReuseFailure, IngestFailure;
    if WindowFailure(w, cs).None? {
      WindowBag(w, cs);
    }
  }

  lemma {:induction false} WindowFault(w: World, cs: seq<Candidate>)
    ensures ReuseFailure(w, cs).Some? ==> FirstFailure(w, cs).Some?
    ensures ReuseFailure(w, cs).None? ==> FirstFailure(w, cs) == IngestFailure(w, ToHash(w, cs))
  {
    if cs != [] {
      var init, last := cs[..|cs| - 1], cs[|cs| - 1];
      WindowFault(w, init);
      IngestSnoc(w, ToHash(w, init), last.path);
      hide Ingested, IngestFailure;
      assert ToHash(w, init) + [] == ToHash(w, init);
    }
  }

  lemma {:induction false} WindowBag(w: World, cs: seq<Candidate>)
    requires FirstFailure(w, cs).None?
    ensures multiset(Reused(w, cs)) + multiset(Ingested(w, ToHash(w, cs))) == Entries(w, cs)
  {
    if cs != [] {
      var init, last := cs[..|cs| - 1], cs[|cs| - 1];
      WindowSnoc(w, init, last);
      hide *;
      assert cs == init + [last];
      WindowBag(w, init);
      BagStep(w, init, last, Reused(w, init), ToHash(w, init));
    }
  }

  lemma {:induction false} WindowSnoc(w: World, cs: seq<Candidate>, c: Candidate)
    ensures FirstFailure(w, cs + [c]).None? ==> FirstFailure(w, cs).None? && w.reuse(c).Ok? && Converted(w, c).Ok?
    ensures Reused(w, cs + [c]) ==
            match w.reuse(c) case Ok(Some(entry)) => Reused(w, cs) + [entry] case _ => Reused(w, cs)
    ensures ToHash(w, cs + [c]) == if w.reuse(c) == Ok(None) then ToHash(w, cs) + [c.path] else ToHash(w, cs)
  {
    assert (cs + [c])[..|cs|] == cs;
  }

  lemma {:induction false} BagStep(w: World, cs: seq<Candidate>, c: Candidate, reused: seq<Entry>, toHash: seq<GatPath>)
    requires multiset(reused) + multiset(Ingested(w, toHash)) == Entries(w, cs)
    requires w.reuse(c).Ok? && Converted(w, c).Ok?
    ensures match w.reuse(c).value
            case Some(entry) => multiset(reused + [entry]) + multiset(Ingested(w, toHash)) == Entries(w, cs + [c])
            case None => multiset(reused) + multiset(Ingested(w, toHash + [c.path])) == Entries(w, cs + [c])
  {
    EntriesSnoc(w, cs, c);
    IngestSnoc(w, toHash, c.path);
    hide Entries, Ingested;
    var x := Converted(w, c).value;
    BagSnoc(reused, Ingested(w, toHash), x);
    BagSnoc(Ingested(w, toHash), reused, x);
  }

  lemma {:induction false} EntriesSnoc(w: World, cs: seq<Candidate>, c: Candidate)
    requires Converted(w, c).Ok?
    ensures Entries(w, cs + [c]) == Entries(w, cs) + multiset{Converted(w, c).value}
  {
    hide Converted;
    assert (cs + [c])[..|cs|] == cs;
  }

  lemma {:induction false} BagSnoc<T>(s: seq<T>, t: seq<T>, x: T)
    ensures multiset(s + [x]) + multiset(t) == multiset(s) + multiset(t) + multiset{x}
    ensures multiset(t) + multiset(s + [x]) == multiset(t) + multiset(s) + multiset{x}
  {
  }

  /** All candidates became entries, window by window. */
  ghost predicate Done(w: World, cs: seq<Candidate>, added: seq<Entry>, window: pos)
  {
    && FailureInWindows(w, cs, window) == None
    && multiset(added) == Entries(w, cs)
    && added == InWindows(w, cs, window)
  }

  /** A window's entries behind those of the windows before it. */
  lemma {:induction false} WindowDone(w: World, before: seq<Candidate>, added: seq<Entry>, cs: seq<Candidate>,
                                      window: pos, reused: seq<Entry>, hashed: seq<Entry>)
    requires Done(w, before, added, window) && |cs| <= window && WholeWindows(|before|, window)
    requires WindowFailure(w, cs) == None && reused + hashed == WindowEntries(w, cs)
    ensures Done(w, before + cs, added + reused + hashed, window)
  {
    hide FirstFailure, Entries, InWindows, WindowEntries, WholeWindows, WindowFailure, FailureInWindows, FullFailure;
    WindowTells(w, cs);
    FirstFailureConcat(w, before, cs);
    WindowBehind(w, before, cs, window);
    assert added + reused + hashed == added + (reused + hashed);
  }

  /** What is known of the candidates once the pending window turns out to fail or not. */
  lemma {:induction false} FailureBehind(w: World, before: seq<Candidate>, cs: seq<Candidate>, added: seq<Entry>,
                                         window: pos)
    requires Done(w, before, added, window) && WholeWindows(|before|, window) && |cs| <= window
    ensures FailureInWindows(w, before + cs, window) == WindowFailure(w, cs)
    ensures |cs| == window ==> FullFailure(w, before + cs, window) == WindowFailure(w, cs)
    ensures |cs| == window ==> WholeWindows(|before + cs|, window)
  {
    hide FirstFailure, Entries, InWindows, WindowFailure, FailureInWindows, FullFailure, WholeWindows;
    WindowBehind(w, before, cs, window);
  }

  /** A failure among the full windows stays the failure, whatever comes behind. */
  lemma {:induction false} FullFailureStays(w: World, some: seq<Candidate>, all: seq<Candidate>, window: pos)
    requires some <= all
    ensures FullFailure(w, some, window).Some? ==>
              && FullFailure(w, all, window) == FullFailure(w, some, window)
              && FailureInWindows(w, all, window) == FullFailure(w, some, window)
    decreases |some|
  {
    hide WindowFailure;
    if |some| >= window {
      assert all[..window] == some[..window];
      FullFailureStays(w, some[window..], all[window..], window);
    }
  }

  /** A window's reused entries, and the entries hashed for the rest. */
  method ConvertWindow(w: World, candidates: seq<Candidate>)
    returns (reused: seq<Entry>, hashed: Result<seq<Entry>, Fault>)
    ensures match WindowFailure(w, candidates)
            case Some(fault) => hashed == Err(fault)
            case None =>
              && hashed.Ok? && reused + hashed.value == WindowEntries(w, candidates)
              && multiset(reused + hashed.value) == Entries(w, candidates)
  {
    hide FirstFailure, Entries, Ingested, IngestFailure, ReuseFailure, ToHash, Reused;
    WindowTells(w, candidates);
    var split := PartitionReusable(w, candidates);
    if split.Err? {
      return [], Err(split.error);
    }
    reused := split.value.0;
    hashed := IngestFiles(w, split.value.1);
  }

  method IngestFiles(w: World, paths: seq<GatPath>) returns (r: Result<seq<Entry>, Fault>)
    ensures match IngestFailure(w, paths)
            case Some(fault) => r == Err(fault)
            case None => r == Ok(Ingested(w, paths))
  {
    var entries: seq<Entry> := [];
    for i := 0 to |paths|
      invariant IngestFailure(w, paths[..i]) == None && entries == Ingested(w, paths[..i])
    {
      assert paths[..i + 1] == paths[..i] + [paths[i]];
      IngestSnoc(w, paths[..i], paths[i]);
      var entry := w.ingest(paths[i]);
      if entry.Err? {
        IngestFailureStays(w, paths, i + 1);
        return Err(entry.error);
      }
      entries := entries + [entry.value];
    }
    assert paths[..|paths|] == paths;
    return Ok(entries);
  }

  lemma {:induction false} IngestFailureStays(w: World, paths: seq<GatPath>, n: nat)
    requires n <= |paths| && IngestFailure(w, paths[..n]).Some?
    ensures IngestFailure(w, paths) == IngestFailure(w, paths[..n])
  {
    if n == |paths| {
      assert paths[..n] == paths;
    } else {
      assert paths[..|paths| - 1][..n] == paths[..n];
      IngestFailureStays(w, paths[..|paths| - 1], n);
    }
  }

  // ------------------------------------------------------------ the context

  class AddContext {
    const w: World
    const window: pos
    var seen: set<GatPath>
    var directories: seq<Option<GatPath>>
    var pending: seq<Candidate>
    var added: seq<Entry>
    var rows: seq<Row>
    var addedCount: nat
    ghost var flushed: seq<Candidate> // every candidate of an earlier window, in order

    /** The candidates so far and what became of them. */
    ghost predicate Accounted()
      reads this
    {
      && seen == PathsOf(flushed + pending)
      && Done(w, flushed, added, window)
    }

    /** Between two candidates the window is never full. */
    ghost predicate Valid()
      reads this
    {
      |pending| < window && WholeWindows(|flushed|, window) && Accounted()
    }

    /** The context stands where resolving the selectors does. */
    ghost predicate Reached(p: Progress)
      reads this
    {
      Valid() && flushed + pending == p.pushed && directories == p.directories && rows == p.rows &&
        addedCount == |p.pushed|
    }

    /** A window failed; nothing is pending any more. */
    ghost predicate Stopped(pushed: seq<Candidate>, error: AddError)
      reads this
    {
      pending == [] && error.Failed? && FullFailure(w, pushed, window) == Some(error.fault)
    }

    /** One selector done, refused, or stopped by a failing window. */
    ghost predicate After(before: Progress, step: Result<Progress, AddError>, r: Option<AddError>)
      reads this
    {
      match step
      case Err(error) => r == Some(error) && Reached(before)
      case Ok(next) => if r.None? then Reached(next) else Stopped(next.pushed, r.value)
    }

    constructor (w: World, window: pos)
      ensures this.w == w && this.window == window
      ensures Reached(Progress([], [], []))
    {
      this.w, this.window := w, window;
      seen, directories, pending, added, rows, addedCount, flushed := {}, [], [], [], [], 0, [];
      new;
      assert flushed + pending == [];
    }

    /** Turns the pending candidates, at most a window of them, into entries. */
    method Flush() returns (failed: Option<Fault>)
      requires pending != [] ==> |pending| <= window && WholeWindows(|flushed|, window) && Accounted()
      modifies `pending, `added, `flushed
      ensures pending == []
      ensures old(pending) == [] ==> failed == None && added == old(added) && flushed == old(flushed)
      ensures old(pending) != [] ==> failed == FailureInWindows(w, old(flushed + pending), window)
      ensures old(|pending|) == window ==> failed == FullFailure(w, old(flushed + pending), window)
      ensures old(pending) != [] && failed.None? ==>
                && Accounted() && flushed == old(flushed + pending)
                && (old(|pending|) == window ==> WholeWindows(|flushed|, window))
    {
      hide FailureInWindows, FullFailure, WindowFailure, Entries, InWindows, WindowEntries, PathsOf, Done, WholeWindows;
      if pending == [] {
        return None;
      }
      var candidates := pending;
      FailureBehind(w, flushed, candidates, added, window);
      assert flushed + candidates + [] == flushed + candidates;
      pending := [];
      var reused, hashed := ConvertWindow(w, candidates);
      added := added + reused;
      if hashed.Err? {
        return Some(hashed.error);
      }
      WindowDone(w, flushed, old(added), candidates, window, reused, hashed.value);
      added := added + hashed.value;
      flushed := flushed + candidates;
      return None;
    }

    /** Takes up a candidate not seen before; a full window is flushed at once. */
    method Push(c: Candidate) returns (failed: Option<Fault>)
      requires Valid() && c.path !in seen
      modifies `seen, `pending, `added, `flushed
      ensures failed.None? ==> Valid() && flushed + pending == old(flushed + pending) + [c]
      ensures failed.Some? ==> pending == [] && FullFailure(w, old(flushed + pending) + [c], window) == failed
    {
      hide FailureInWindows, FullFailure, Entries, InWindows, PathsOf, Done, WholeWindows;
      PathsSnoc(flushed + pending, c);
      assert flushed + (pending + [c]) == flushed + pending + [c];
      seen := seen + {c.path};
      pending := pending + [c];
      failed := None;
      if |pending| == window {
        failed := Flush();
        assert flushed + [] == flushed;
      }
    }

    /** Takes up all candidates, unless a mount owns one of them. */
    method ProcessCandidates(candidates: seq<Candidate>, retainPaths: bool)
      returns (r: Result<(nat, seq<GatPath>), AddError>)
      requires Valid()
      modifies `seen, `pending, `added, `flushed
      ensures match FirstOwned(w, candidates)
              case Some(path) => r == Err(OwnedByMount(path)) && Valid() && flushed + pending == old(flushed + pending)
              case None =>
                var pushed := PushAll(old(flushed + pending), candidates);
                match r
                case Ok((count, paths)) =>
                  && Valid() && flushed + pending == pushed && |pushed| == old(|flushed + pending|) + count
                  && (retainPaths ==> paths == PathList(pushed[old(|flushed + pending|)..]))
                case Err(error) => Stopped(pushed, error)
    {
      hide FailureInWindows, FullFailure, Entries, InWindows, PathsOf, Done, WholeWindows;
      ghost var before := flushed + pending;
      var refused := RefuseOwned(w, candidates);
      if refused.Some? {
        return Err(OwnedByMount(refused.value));
      }
      var count, paths := 0, [];
      BeforePush(before, candidates);
      for i := 0 to |candidates|
        invariant Valid() && flushed + pending == PushAll(before, candidates[..i])
        invariant |flushed + pending| == |before| + count
        invariant retainPaths ==> paths == PathList((flushed + pending)[|before|..])
      {
        var candidate := candidates[i];
        PushStep(before, candidates, i);
        if candidate.path !in seen {
          PathListSnoc(flushed + pending, candidate, |before|);
          count := count + 1;
          if retainPaths {
            paths := paths + [candidate.path];
          }
          var failed := Push(candidate);
          if failed.Some? {
            PushPrefix(before, candidates, i + 1);
            FullFailureStays(w, PushAll(before, candidates[..i + 1]), PushAll(before, candidates), window);
            return Err(Failed(failed.value));
          }
        }
      }
      assert candidates[..|candidates|] == candidates;
      return Ok((count, paths));
    }

    method AddDir(path: Option<GatPath>) returns (r: Result<nat, AddError>)
      requires Valid()
      modifies `seen, `directories, `pending, `added, `flushed
      ensures match StepDir(w, old(Progress(flushed + pending, directories, rows)), path)
              case Err(error) =>
                r == Err(error) && Valid() && flushed + pending == old(flushed + pending) &&
                  directories == old(directories)
              case Ok(next) =>
                match r
                case Ok(count) =>
                  && Valid() && flushed + pending == next.pushed && directories == next.directories
                  && |next.pushed| == old(|flushed + pending|) + count
                case Err(error) => Stopped(next.pushed, error)
    {
      hide FailureInWindows, FullFailure, Entries, InWindows, PathsOf, Done, WholeWindows, PushAll, FirstOwned,
        PathList;
      if path.Some? && w.infrastructure(path.value) {
        return Err(Infrastructure(path.value));
      }
      for i := 0 to |directories|
        invariant Valid() && directories == old(directories) && flushed + pending == old(flushed + pending)
        invariant forall k :: 0 <= k < i ==> !CoveredBy(directories[k], path)
      {
        if CoveredBy(directories[i], path) {
          return Ok(0);
        }
      }
      var found := w.discover(path, None);
      if found.Err? {
        return Err(Failed(found.error));
      }
      var processed := ProcessCandidates(found.value.candidates, false);
      if processed.Err? {
        return Err(processed.error);
      }
      directories := directories + [path];
      return Ok(processed.value.0);
    }

    method AddGlob(pattern: GatPath) returns (r: Result<seq<GatPath>, AddError>)
      requires Valid()
      modifies `seen, `pending, `added, `flushed
      ensures match StepGlob(w, old(Progress(flushed + pending, directories, rows)), pattern)
              case Err(error) => r == Err(error) && Valid() && flushed + pending == old(flushed + pending)
              case Ok(next) =>
                match r
                case Ok(paths) =>
                  && Valid() && flushed + pending == next.pushed
                  && |next.pushed| == old(|flushed + pending|) + |paths|
                  && paths == PathList(next.pushed[old(|flushed + pending|)..])
                case Err(error) => Stopped(next.pushed, error)
    {
      hide FailureInWindows, FullFailure, Entries, InWindows, PathsOf, Done, WholeWindows, PushAll, FirstOwned,
        PathList, Compile, FirstMetaIndex, Canonical, ValidGlob, WalkRoot;
      var parsed := ParseGlob(pattern);
      if parsed.Err? {
        return Err(BadPattern(parsed.error));
      }
      var found := w.discover(WalkRoot(parsed.value), Some(parsed.value));
      if found.Err? {
        return Err(Failed(found.error));
      }
      if found.value.candidates == [] && found.value.excluded == 0 {
        return Err(NoMatch(pattern));
      }
      var processed := ProcessCandidates(found.value.candidates, true);
      if processed.Err? {
        return Err(processed.error);
      }
      return Ok(processed.value.1);
    }

    method AddFile(path: GatPath) returns (r: Option<AddError>)
      requires Reached(Progress(flushed + pending, directories, rows))
      modifies this
      ensures After(old(Progress(flushed + pending, directories, rows)),
                    StepFile(w, old(Progress(flushed + pending, directories, rows)), path), r)
    {
      hide FailureInWindows, FullFailure, Entries, InWindows, PathsOf, Done, WholeWindows, RefuseFile;
      r := CheckFile(w, path);
      if r.None? && path !in seen {
        var failed := Push(Candidate(path, None));
        rows := rows + [Row(Scope(path), None)];
        addedCount := addedCount + 1;
        if failed.Some? {
          r := Some(Failed(failed.value));
        }
      }
    }

    /** Resolves one selector. */
    method AddScope(scope: PathScope) returns (r: Option<AddError>)
      requires Reached(Progress(flushed + pending, directories, rows))
      modifies this
      ensures After(old(Progress(flushed + pending, directories, rows)),
                    Step(w, old(Progress(flushed + pending, directories, rows)), scope), r)
    {
      hide FailureInWindows, FullFailure, Entries, InWindows, PathsOf, Done, WholeWindows, StepDir, StepGlob, StepFile,
        FileRows, PathList;
      if scope.RootScope? {
        r := AddWalk(scope, None);
        return;
      }
      var path := scope.path;
      if w.infrastructure(path) {
        return Some(Infrastructure(path));
      }
      var kind := w.kind(path);
      if kind.Err? {
        return Some(Failed(kind.error));
      }
      match kind.value
      case Symlink => return Some(UnsupportedSymlink(path));
      case Directory => r := AddWalk(scope, Some(path));
      case File => r := AddFile(path);
      case Other => return Some(UnsupportedFileType(path));
      case Missing =>
        ghost var before := Progress(flushed + pending, directories, rows);
        var matched := AddGlob(path);
        GlobRows(w, before, path);
        if matched.Err? {
          return Some(matched.error);
        }
        addedCount := addedCount + |matched.value|;
        rows := rows + RowsFor(matched.value);
        return None;
    }

    method AddWalk(scope: PathScope, dir: Option<GatPath>) returns (r: Option<AddError>)
      requires Reached(Progress(flushed + pending, directories, rows))
      modifies this
      ensures After(old(Progress(flushed + pending, directories, rows)),
                    DirRow(old(Progress(flushed + pending, directories, rows)), scope,
                           StepDir(w, old(Progress(flushed + pending, directories, rows)), dir)), r)
    {
      hide FailureInWindows, FullFailure, Entries, InWindows, PathsOf, Done, WholeWindows;
      ghost var before := Progress(flushed + pending, directories, rows);
      DirKeepsRows(w, before, dir);
      var count := AddDir(dir);
      hide StepDir;
      if count.Err? {
        return Some(count.error);
      }
      addedCount := addedCount + count.value;
      rows := rows + [Row(scope, Some(count.value))];
      return None;
    }

    /** Adds everything the selectors name, window by window. Earlier candidates are finished
        before a refused selector is reported. */
    method AddAll(scopes: seq<PathScope>) returns (r: Result<AddOutcome, AddError>)
      requires Reached(Progress([], [], []))
      modifies this
      ensures IsOutcome(w, scopes, window, r)
      ensures r.Ok? ==> r.value.added == InWindows(w, Resolve(w, scopes).0.pushed, window)
      ensures pending == []
      ensures FirstFailure(w, Resolve(w, scopes).0.pushed).None? ==>
                flushed == Resolve(w, scopes).0.pushed && Accounted()
    {
      hide FirstFailure, FailureInWindows, FullFailure, Entries, InWindows, PathsOf, WholeWindows, Step, Resolve;
      var selectors: set<PathScope> := {};
      var selection: Option<AddError> := None;
      var i := 0;
      ResolveNothing(w);
      assert scopes[..0] == [];
      while i < |scopes| && selection.None?
        invariant i <= |scopes| && forall s :: s in selectors <==> s in scopes[..i]
        invariant selection.None? ==> Resolve(w, scopes[..i]).1 == None && Reached(Resolve(w, scopes[..i]).0)
        invariant selection.Some? ==>
          (Resolve(w, scopes[..i]).1 == selection && Reached(Resolve(w, scopes[..i]).0)) ||
          Stopped(Resolve(w, scopes[..i]).0.pushed, selection.value)
        decreases |scopes| - i
      {
        var scope := scopes[i];
        ResolveStep(w, scopes, i);
        assert scopes[..i + 1] == scopes[..i] + [scope];
        i := i + 1;
        if scope !in selectors {
          selectors := selectors + {scope};
          selection := AddScope(scope);
        }
      }
      assert scopes[..|scopes|] == scopes;
      ResolvePrefix(w, scopes, i);
      FullFailureStays(w, Resolve(w, scopes[..i]).0.pushed, Resolve(w, scopes).0.pushed, window);
      FailsAlike(w, Resolve(w, scopes).0.pushed, window);
      ResolveDistinct(w, scopes);
      DistinctCount(Resolve(w, scopes).0.pushed);
      assert flushed + [] == flushed;
      var failed := Flush();
      if failed.Some? {
        return Err(Failed(failed.value));
      }
      if selection.Some? {
        return Err(selection.value);
      }
      return Ok(AddOutcome(rows, addedCount, added));
    }
  }

  method RefuseOwned(w: World, candidates: seq<Candidate>) returns (r: Option<GatPath>)
    ensures r == FirstOwned(w, candidates)
  {
    hide FirstOwned;
    assert candidates[0..] == candidates;
    for i := 0 to |candidates|
      invariant FirstOwned(w, candidates) == FirstOwned(w, candidates[i..])
    {
      FirstOwnedCons(w, candidates, i);
      if w.owned(candidates[i].path) {
        return Some(candidates[i].path);
      }
    }
    NoneLeft(w, candidates[|candidates|..]);
    return None;
  }

  lemma {:induction false} NoneLeft(w: World, cs: seq<Candidate>)
    requires cs == []
    ensures FirstOwned(w, cs) == None
  {
  }

  /** A file is accepted when no reason to refuse it holds; otherwise the first in rank is given. */
  method CheckFile(w: World, path: GatPath) returns (r: Option<AddError>)
    ensures r == RefuseFile(w, path)
    ensures r.None? <==>
            && !w.infrastructure(path) && !w.owned(path) && (w.force || !w.gatignored(path))
            && w.status(path).Ok? && !w.status(path).value.tracked
            && (w.force || !w.status(path).value.gitignored || w.desiredExact(path) == Ok(true))
    ensures r.None? ==> forall e :: !Applies(w, path, e)
    ensures r.Some? ==> Applies(w, path, r.value)
    ensures r.Some? ==> forall e :: Applies(w, path, e) && e != r.value ==> Rank(r.value) < Rank(e)
  {
    if w.infrastructure(path) {
      return Some(Infrastructure(path));
    }
    if w.owned(path) {
      return Some(OwnedByMount(path));
    }
    if !w.force && w.gatignored(path) {
      return Some(IgnoredByGatignore(path));
    }
    var status := w.status(path);
    if status.Err? {
      return Some(Failed(status.error));
    }
    if status.value.tracked {
      return Some(AlreadyGitTracked(path));
    }
    if !w.force && status.value.gitignored {
      var desired := w.desiredExact(path);
      if desired.Err? {
        return Some(Failed(desired.error));
      }
      if !desired.value {
        return Some(IgnoredByGit(path));
      }
    }
    return None;
  }

  function RowsFor(paths: seq<GatPath>): seq<Row>
  {
    seq(|paths|, i requires 0 <= i < |paths| => Row(Scope(paths[i]), None))
  }

  lemma {:induction false} GlobRows(w: World, p: Progress, pattern: GatPath)
    ensures match StepGlob(w, p, pattern)
            case Err(_) => true
            case Ok(next) =>
              p.pushed <= next.pushed && next.directories == p.directories &&
              next.rows == p.rows + RowsFor(PathList(next.pushed[|p.pushed|..]))
  {
    hide FromPath, WalkRoot, PushAll, FirstOwned;
    forall cs ensures FileRows(cs) == RowsFor(PathList(cs)) {
    }
  }

  lemma {:induction false} DirKeepsRows(w: World, p: Progress, dir: Option<GatPath>)
    ensures match StepDir(w, p, dir)
            case Err(_) => true
            case Ok(next) => p.pushed <= next.pushed && next.rows == p.rows
  {
    hide PushAll, FirstOwned, Covered;
  }

  lemma {:induction false} ResolveNothing(w: World)
    ensures Resolve(w, []) == (Progress([], [], []), None)
  {
  }

  lemma {:induction false} ResolveStep(w: World, scopes: seq<PathScope>, i: nat)
    requires i < |scopes|
    ensures var (p, error) := Resolve(w, scopes[..i]);
            Resolve(w, scopes[..i + 1]) ==
            if error.Some? || scopes[i] in scopes[..i] then (p, error)
            else match Step(w, p, scopes[i]) case Err(e) => (p, Some(e)) case Ok(next) => (next, None)
  {
    hide Step;
    assert scopes[..i + 1][..i] == scopes[..i];
  }

  /** Adds with a window of the given size. */
  method AddWithWindow(w: World, scopes: seq<PathScope>, window: pos) returns (r: Result<AddOutcome, AddError>)
    ensures IsOutcome(w, scopes, window, r)
    ensures r.Ok? ==> r.value.added == InWindows(w, Resolve(w, scopes).0.pushed, window)
  {
    hide *;
    var context := new AddContext(w, window);
    r := context.AddAll(scopes);
  }

  // --------------------------------------------- what the window changes

  /** Whether a window fails does not depend on how the candidates are cut into windows; the
      fault is that of the first failing candidate or the first of the reuse checks. */
  lemma {:induction false} FailsAlike(w: World, cs: seq<Candidate>, window: pos)
    ensures FailureInWindows(w, cs, window).Some? <==> FirstFailure(w, cs).Some?
    ensures FailureInWindows(w, cs, window) == FirstFailure(w, cs) ||
            (ReuseFailure(w, cs).Some? && FailureInWindows(w, cs, window) == ReuseFailure(w, cs))
    decreases |cs|
  {
    if cs != [] {
      var n := if |cs| < window then |cs| else window;
      var first, rest := cs[..n], cs[n..];
      assert cs == first + rest;
      WindowTells(w, first);
      FirstFailureConcat(w, first, rest);
      ReuseFailureConcat(w, first, rest);
      FailsAlike(w, rest, window);
      hide FirstFailure, ReuseFailure, IngestFailure, Ingested, ToHash;
    }
  }

  /** With windows of one, candidates fail in their order. */
  lemma {:induction false} WindowsOfOne(w: World, cs: seq<Candidate>)
    ensures FailureInWindows(w, cs, 1) == FirstFailure(w, cs)
  {
    if cs != [] {
      var first, rest := cs[..1], cs[1..];
      assert cs == first + rest;
      FirstFailureConcat(w, first, rest);
      OneCandidate(w, cs[0]);
      assert first == [cs[0]];
      WindowsOfOne(w, rest);
    }
  }

  lemma {:induction false} OneCandidate(w: World, c: Candidate)
    ensures WindowFailure(w, [c]) == FirstFailure(w, [c])
  {
    Alone(w, c);
    WindowTells(w, [c]);
    hide ToHash, IngestFailure;
  }

  /** With a single window, a failing reuse check comes before any hashing. */
  lemma {:induction false} OneWindow(w: World, cs: seq<Candidate>, window: pos)
    requires |cs| <= window
    ensures FailureInWindows(w, cs, window) ==
            if ReuseFailure(w, cs).Some? then ReuseFailure(w, cs) else FirstFailure(w, cs)
  {
    WindowTells(w, cs);
    assert cs[..|cs|] == cs;
  }

  /** If the first failing candidate fails in hashing, no reuse check behind it fails, or the
      first that does fails the same way. */
  predicate FaultSettled(w: World, cs: seq<Candidate>)
  {
    FirstFailure(w, cs).Some? && ReuseFailure(w, cs).Some? ==> ReuseFailure(w, cs) == FirstFailure(w, cs)
  }

  /** The window does not matter to what is added, nor to whether anything fails: two runs
      report the same rows, count and entries, or both are refused, by the same error unless
      the fault is unsettled. */
  lemma {:induction false} WindowDoesNotMatter(w: World, scopes: seq<PathScope>, m: pos, n: pos,
                                               a: Result<AddOutcome, AddError>, b: Result<AddOutcome, AddError>)
    requires IsOutcome(w, scopes, m, a) && IsOutcome(w, scopes, n, b)
    ensures a.Ok? <==> b.Ok?
    ensures a.Ok? && b.Ok? ==>
              a.value.rows == b.value.rows && a.value.addedCount == b.value.addedCount &&
              multiset(a.value.added) == multiset(b.value.added)
    ensures a.Err? && FaultSettled(w, Resolve(w, scopes).0.pushed) ==> a == b
    ensures a.Err? && a != b ==> a.error.Failed? && b.Err? && b.error.Failed?
  {
    hide Resolve, FirstFailure, ReuseFailure, Entries, PathsOf, FailureInWindows;
    FailsAlike(w, Resolve(w, scopes).0.pushed, m);
    FailsAlike(w, Resolve(w, scopes).0.pushed, n);
  }

  ghost predicate SameErrors(w: World, scopes: seq<PathScope>)
  {
    forall m: pos, n: pos, a, b :: IsOutcome(w, scopes, m, a) && IsOutcome(w, scopes, n, b) && a.Err? ==> a == b
  }

  /** Every window reports the same error if and only if the fault is settled. */
  lemma {:induction false} SameErrorsIffSettled(w: World, scopes: seq<PathScope>)
    ensures SameErrors(w, scopes) <==> FaultSettled(w, Resolve(w, scopes).0.pushed)
  {
    hide Resolve, FirstFailure, ReuseFailure, Entries, PathsOf, FailureInWindows;
    var pushed := Resolve(w, scopes).0.pushed;
    if FaultSettled(w, pushed) {
      forall m: pos, n: pos, a, b | IsOutcome(w, scopes, m, a) && IsOutcome(w, scopes, n, b) && a.Err? ensures a == b {
        WindowDoesNotMatter(w, scopes, m, n, a, b);
      }
    } else {
      var all: pos := if pushed == [] then 1 else |pushed|;
      WindowsOfOne(w, pushed);
      OneWindow(w, pushed, all);
      var a: Result<AddOutcome, AddError> := Err(Failed(FirstFailure(w, pushed).value));
      var b: Result<AddOutcome, AddError> := Err(Failed(ReuseFailure(w, pushed).value));
      assert IsOutcome(w, scopes, 1, a) && IsOutcome(w, scopes, all, b) && a != b;
    }
  }

  /** A file that cannot be hashed before one whose reuse cannot be checked: a window of one
      reports the first, a window of two the second. */
  lemma {:induction false} FaultDependsOnWindow(w: World, a: Candidate, b: Candidate, hashing: Fault, checking: Fault)
    requires w.reuse(a) == Ok(None) && w.ingest(a.path) == Err(hashing) && w.reuse(b) == Err(checking)
    ensures FailureInWindows(w, [a, b], 1) == Some(hashing)
    ensures FailureInWindows(w, [a, b], 2) == Some(checking)
  {
    var both := [a, b];
    assert [a] + [b] == both;
    Alone(w, a);
    Alone(w, b);
    hide FailureInWindows, FirstFailure, ReuseFailure;
    FirstFailureConcat(w, [a], [b]);
    ReuseFailureConcat(w, [a], [b]);
    WindowsOfOne(w, both);
    OneWindow(w, both, 2);
  }

  function PathList(cs: seq<Candidate>): (r: seq<GatPath>)
    ensures |r| == |cs|
  {
    seq(|cs|, i requires 0 <= i < |cs| => cs[i].path)
  }

  lemma {:induction false} FirstOwnedCons(w: World, cs: seq<Candidate>, i: nat)
    requires i < |cs|
    ensures FirstOwned(w, cs[i..]) == if w.owned(cs[i].path) then Some(cs[i].path) else FirstOwned(w, cs[i + 1..])
  {
    assert cs[i..][1..] == cs[i + 1..];
  }

  lemma {:induction false} BeforePush(before: seq<Candidate>, cs: seq<Candidate>)
    ensures PushAll(before, cs[..0]) == before && before[|before|..] == [] && PathList([]) == []
  {
  }

  lemma {:induction false} PushStep(before: seq<Candidate>, cs: seq<Candidate>, i: nat)
    requires i < |cs|
    ensures PushAll(before, cs[..i + 1]) ==
            if cs[i].path in PathsOf(PushAll(before, cs[..i])) then PushAll(before, cs[..i])
            else PushAll(before, cs[..i]) + [cs[i]]
  {
    assert cs[..i + 1][..i] == cs[..i];
  }

  lemma {:induction false} PushPrefix(before: seq<Candidate>, cs: seq<Candidate>, n: nat)
    requires n <= |cs|
    ensures PushAll(before, cs[..n]) <= PushAll(before, cs)
  {
    if n == |cs| {
      assert cs[..n] == cs;
    } else {
      assert cs[..|cs| - 1][..n] == cs[..n];
      PushPrefix(before, cs[..|cs| - 1], n);
    }
  }

  lemma {:induction false} PathListSnoc(cs: seq<Candidate>, c: Candidate, from: nat)
    requires from <= |cs|
    ensures PathList((cs + [c])[from..]) == PathList(cs[from..]) + [c.path]
  {
  }

  // ------------------------------------------------- skipping covered walks

  /** A walk below a directory finds nothing that a walk of the directory does not. */
  ghost predicate SubtreeMonotone(w: World)
  {
    forall a, b :: CoveredBy(a, b) && w.discover(a, None).Ok? && w.discover(b, None).Ok? ==>
      PathsOf(w.discover(b, None).value.candidates) <= PathsOf(w.discover(a, None).value.candidates)
  }

  /** What is walked has been seen, and nothing seen belongs to a mount. */
  ghost predicate Walked(w: World, p: Progress)
  {
    && (forall i :: 0 <= i < |p.directories| ==> FoundAll(w, p.directories[i], p.pushed))
    && (forall path :: path in PathsOf(p.pushed) ==> !w.owned(path))
  }

  ghost predicate FoundAll(w: World, dir: Option<GatPath>, pushed: seq<Candidate>)
  {
    w.discover(dir, None).Ok? && PathsOf(w.discover(dir, None).value.candidates) <= PathsOf(pushed)
  }

  lemma {:induction false} PushAllPaths(pushed: seq<Candidate>, cs: seq<Candidate>)
    ensures PathsOf(PushAll(pushed, cs)) == PathsOf(pushed) + PathsOf(cs)
  {
    if cs == [] {
      assert PathsOf(cs) == {};
    } else {
      var init, last := cs[..|cs| - 1], cs[|cs| - 1];
      assert cs == init + [last];
      PushAllPaths(pushed, init);
      hide PathsOf;
      PathsSnoc(init, last);
      PathsSnoc(PushAll(pushed, init), last);
    }
  }

  /** Candidates whose paths were all seen are passed over. */
  lemma {:induction false} NothingNew(pushed: seq<Candidate>, cs: seq<Candidate>)
    requires PathsOf(cs) <= PathsOf(pushed)
    ensures PushAll(pushed, cs) == pushed
  {
    if cs != [] {
      var init, last := cs[..|cs| - 1], cs[|cs| - 1];
      assert cs == init + [last];
      PathsSnoc(init, last);
      hide PathsOf;
      NothingNew(pushed, init);
    }
  }

  lemma {:induction false} NoneOwned(w: World, cs: seq<Candidate>)
    ensures FirstOwned(w, cs) == None <==> forall path :: path in PathsOf(cs) ==> !w.owned(path)
  {
    hide FirstOwned;
    forall i | 0 <= i < |cs| ensures cs[i].path in PathsOf(cs) {
    }
  }

  lemma {:induction false} WalkedMore(w: World, p: Progress, pushed: seq<Candidate>)
    requires Walked(w, p) && PathsOf(p.pushed) <= PathsOf(pushed)
    requires forall path :: path in PathsOf(pushed) - PathsOf(p.pushed) ==> !w.owned(path)
    ensures forall rows :: Walked(w, Progress(pushed, p.directories, rows))
  {
    hide PathsOf;
  }

  lemma {:induction false} WalkedDir(w: World, p: Progress, dir: Option<GatPath>)
    requires Walked(w, p) && FoundAll(w, dir, p.pushed)
    ensures Walked(w, p.(directories := p.directories + [dir]))
  {
    hide FoundAll, PathsOf;
  }

  lemma {:induction false} PushedWalked(w: World, p: Progress, cs: seq<Candidate>)
    requires Walked(w, p) && FirstOwned(w, cs) == None
    ensures PathsOf(cs) <= PathsOf(PushAll(p.pushed, cs))
    ensures forall rows :: Walked(w, Progress(PushAll(p.pushed, cs), p.directories, rows))
  {
    hide PathsOf, FirstOwned, PushAll, Walked;
    PushAllPaths(p.pushed, cs);
    NoneOwned(w, cs);
    WalkedMore(w, p, PushAll(p.pushed, cs));
  }

  lemma {:induction false} StepKeepsWalked(w: World, p: Progress, scope: PathScope)
    requires Walked(w, p) && Step(w, p, scope).Ok?
    ensures Walked(w, Step(w, p, scope).value)
  {
    hide StepDir, StepGlob, StepFile, Walked;
    match scope
    case RootScope => DirKeepsWalked(w, p, None);
    case Scope(path) =>
      DirKeepsWalked(w, p, Some(path));
      GlobKeepsWalked(w, p, path);
      FileKeepsWalked(w, p, path);
  }

  lemma {:induction false} DirKeepsWalked(w: World, p: Progress, dir: Option<GatPath>)
    requires Walked(w, p)
    ensures StepDir(w, p, dir).Ok? ==>
              var next := StepDir(w, p, dir).value;
              forall rows :: Walked(w, Progress(next.pushed, next.directories, rows))
  {
    hide Walked, Covered, PushAll, FirstOwned, PathsOf;
    WalkedRows(w, p);
    if StepDir(w, p, dir).Ok? && !Covered(p.directories, dir) {
      var found := w.discover(dir, None).value.candidates;
      PushedWalked(w, p, found);
      var next := Progress(PushAll(p.pushed, found), p.directories, p.rows);
      WalkedDir(w, next, dir);
      WalkedRows(w, next.(directories := p.directories + [dir]));
    }
  }

  lemma {:induction false} WalkedRows(w: World, p: Progress)
    requires Walked(w, p)
    ensures forall rows :: Walked(w, Progress(p.pushed, p.directories, rows))
  {
    hide PathsOf, FoundAll;
  }

  lemma {:induction false} GlobKeepsWalked(w: World, p: Progress, pattern: GatPath)
    requires Walked(w, p)
    ensures StepGlob(w, p, pattern).Ok? ==> Walked(w, StepGlob(w, p, pattern).value)
  {
    hide Walked, PushAll, FirstOwned, PathsOf, FromPath, WalkRoot, FileRows;
    if StepGlob(w, p, pattern).Ok? {
      var glob := FromPath(pattern).value;
      PushedWalked(w, p, w.discover(WalkRoot(glob), Some(glob)).value.candidates);
    }
  }

  lemma {:induction false} FileKeepsWalked(w: World, p: Progress, path: GatPath)
    requires Walked(w, p)
    ensures StepFile(w, p, path).Ok? ==> Walked(w, StepFile(w, p, path).value)
  {
    hide Walked, PathsOf;
    PathsSnoc(p.pushed, Candidate(path, None));
    if StepFile(w, p, path).Ok? {
      WalkedMore(w, p, p.pushed + [Candidate(path, None)]);
    }
  }

  lemma {:induction false} ResolveKeepsWalked(w: World, scopes: seq<PathScope>)
    ensures Walked(w, Resolve(w, scopes).0)
  {
    hide Step;
    if scopes != [] {
      hide Walked;
      ResolveKeepsWalked(w, scopes[..|scopes| - 1]);
      var (p, error) := Resolve(w, scopes[..|scopes| - 1]);
      if Step(w, p, scopes[|scopes| - 1]).Ok? {
        StepKeepsWalked(w, p, scopes[|scopes| - 1]);
      }
    }
  }

  /** Skipping a directory below one already walked loses nothing: had it been walked, every
      file found would have been seen, and none would belong to a mount. */
  lemma {:induction false} SkippedWalkAddsNothing(w: World, p: Progress, dir: Option<GatPath>)
    requires SubtreeMonotone(w) && Walked(w, p) && w.discover(dir, None).Ok? && Covered(p.directories, dir)
    ensures var found := w.discover(dir, None).value.candidates;
            FirstOwned(w, found) == None && PushAll(p.pushed, found) == p.pushed
  {
    hide PathsOf, FirstOwned, PushAll, CoveredBy;
    var found := w.discover(dir, None).value.candidates;
    var i :| 0 <= i < |p.directories| && CoveredBy(p.directories[i], dir);
    assert FoundAll(w, p.directories[i], p.pushed);
    assert PathsOf(found) <= PathsOf(p.pushed);
    NothingNew(p.pushed, found);
    NoneOwned(w, found);
  }

  /** Resolution without skipping: each selector is resolved with no walk on record. */
  function ResolveWalkingAll(w: World, scopes: seq<PathScope>): (Progress, Option<AddError>)
  {
    if scopes == [] then (Progress([], [], []), None)
    else
      var init, last := scopes[..|scopes| - 1], scopes[|scopes| - 1];
      var (p, error) := ResolveWalkingAll(w, init);
      if error.Some? || last in init then (p, error)
      else
        match Step(w, p.(directories := []), last)
        case Err(e) => (p, Some(e))
        case Ok(next) => (next, None)
  }

  predicate Walks(w: World, scope: PathScope)
  {
    scope.RootScope? || (!w.infrastructure(scope.path) && w.kind(scope.path) == Ok(Directory))
  }

  function DirOf(scope: PathScope): Option<GatPath>
  {
    match scope
    case RootScope => None
    case Scope(path) => Some(path)
  }

  /** The walk of a directory is skipped and would have failed. */
  predicate WalkFails(w: World, directories: seq<Option<GatPath>>, scope: PathScope)
  {
    Walks(w, scope) && Covered(directories, DirOf(scope)) && w.discover(DirOf(scope), None).Err?
  }

  predicate FailsAt(w: World, scopes: seq<PathScope>, n: nat)
    requires n < |scopes|
  {
    var (p, error) := Resolve(w, scopes[..n]);
    error == None && scopes[n] !in scopes[..n] && WalkFails(w, p.directories, scopes[n])
  }

  /** Of the selectors resolved, none has a walk that is skipped and would have failed. */
  predicate SkippedWalksSucceed(w: World, scopes: seq<PathScope>)
  {
    forall n :: 0 <= n < |scopes| ==> !FailsAt(w, scopes, n)
  }

  /** The same files, rows and refusal; which directories were walked differs. */
  predicate SameResult(a: (Progress, Option<AddError>), b: (Progress, Option<AddError>))
  {
    a.0.pushed == b.0.pushed && a.0.rows == b.0.rows && a.1 == b.1
  }

  lemma {:induction false} FailsSnoc(w: World, scopes: seq<PathScope>, n: nat)
    requires n < |scopes| - 1
    ensures FailsAt(w, scopes, n) <==> FailsAt(w, scopes[..|scopes| - 1], n)
  {
    hide Resolve, WalkFails;
    assert scopes[..|scopes| - 1][..n] == scopes[..n];
  }

  lemma {:induction false} SucceedSnoc(w: World, scopes: seq<PathScope>)
    requires scopes != []
    ensures SkippedWalksSucceed(w, scopes) <==>
            SkippedWalksSucceed(w, scopes[..|scopes| - 1]) && !FailsAt(w, scopes, |scopes| - 1)
  {
    hide FailsAt;
    var init := scopes[..|scopes| - 1];
    forall n | 0 <= n < |init| ensures FailsAt(w, scopes, n) <==> FailsAt(w, init, n) {
      FailsSnoc(w, scopes, n);
    }
  }

  /** A selector whose walk is not skipped does the same with no walk on record. */
  lemma {:induction false} StepUnskipped(w: World, p: Progress, q: Progress, scope: PathScope)
    requires q == p.(directories := [])
    requires Walks(w, scope) ==> !Covered(p.directories, DirOf(scope))
    ensures match Step(w, p, scope)
            case Err(e) => Step(w, q, scope) == Err(e)
            case Ok(next) =>
              Step(w, q, scope).Ok? && Step(w, q, scope).value.pushed == next.pushed &&
              Step(w, q, scope).value.rows == next.rows
  {
    hide PushAll, FirstOwned, FromPath, RefuseFile, WalkRoot, FileRows, PathsOf, CoveredBy;
  }

  /** A selector whose walk is skipped adds its row only; walked anyway, it does the same or
      fails in discovery. */
  lemma {:induction false} StepSkipped(w: World, p: Progress, q: Progress, scope: PathScope)
    requires SubtreeMonotone(w) && Walked(w, p) && q == p.(directories := [])
    requires Walks(w, scope) && Covered(p.directories, DirOf(scope))
    ensures var rows, dir := p.rows + [Row(scope, Some(0))], DirOf(scope);
            && Step(w, p, scope) == Ok(p.(rows := rows))
            && match w.discover(dir, None)
               case Err(fault) => Step(w, q, scope) == Err(Failed(fault))
               case Ok(_) => Step(w, q, scope) == Ok(q.(directories := [dir], rows := rows))
  {
    hide PushAll, FirstOwned, PathsOf, CoveredBy, SubtreeMonotone, Walked;
    if w.discover(DirOf(scope), None).Ok? {
      SkippedWalkAddsNothing(w, p, DirOf(scope));
    }
    assert [] + [DirOf(scope)] == [DirOf(scope)];
  }

  lemma {:induction false} StepRowsGrow(w: World, p: Progress, scope: PathScope)
    requires Step(w, p, scope).Ok?
    ensures |p.rows| <= |Step(w, p, scope).value.rows|
  {
    hide PushAll, FirstOwned, FromPath, RefuseFile, WalkRoot, PathsOf, Covered;
  }

  /** One selector with and without the walks on record. */
  lemma {:induction false} StepBothWays(w: World, p: Progress, scope: PathScope)
    requires SubtreeMonotone(w) && Walked(w, p)
    ensures var a, b := Step(w, p, scope), Step(w, p.(directories := []), scope);
            && (a.Ok? ==> |p.rows| <= |a.value.rows|)
            && if WalkFails(w, p.directories, scope) then a.Ok? && |p.rows| < |a.value.rows| && b.Err?
               else if a.Err? then b == a
               else b.Ok? && a.value.pushed == b.value.pushed && a.value.rows == b.value.rows
  {
    hide Step, SubtreeMonotone, Walked, Walks, Covered, DirOf;
    if Step(w, p, scope).Ok? {
      StepRowsGrow(w, p, scope);
    }
    if Walks(w, scope) && Covered(p.directories, DirOf(scope)) {
      StepSkipped(w, p, p.(directories := []), scope);
    } else {
      StepUnskipped(w, p, p.(directories := []), scope);
    }
  }

  /** The two ways of resolving go together; the first walk skipped that would have failed stops
      the one that does not skip, and the other reports more. */
  lemma {:induction false} WalkingAllRuns(w: World, scopes: seq<PathScope>)
    requires SubtreeMonotone(w)
    ensures var a, b := Resolve(w, scopes), ResolveWalkingAll(w, scopes);
            if SkippedWalksSucceed(w, scopes) then SameResult(a, b) else b.1.Some? && |b.0.rows| < |a.0.rows|
  {
    hide Step, SubtreeMonotone, Walked, SkippedWalksSucceed, WalkFails;
    if scopes == [] {
      NothingSkipped(w);
    } else {
      var init, last := scopes[..|scopes| - 1], scopes[|scopes| - 1];
      WalkingAllRuns(w, init);
      SucceedSnoc(w, scopes);
      ResolveKeepsWalked(w, init);
      StepBothWays(w, Resolve(w, init).0, last);
    }
  }

  lemma {:induction false} NothingSkipped(w: World)
    ensures SkippedWalksSucceed(w, [])
  {
  }

  /** A run that skips covered directories takes up the same files, reports the same rows and is
      refused alike as one that walks every directory, if and only if each walk it skips would
      have succeeded. */
  lemma {:induction false} SkippingChangesNothing(w: World, scopes: seq<PathScope>)
    requires SubtreeMonotone(w)
    ensures SameResult(Resolve(w, scopes), ResolveWalkingAll(w, scopes)) <==> SkippedWalksSucceed(w, scopes)
  {
    hide Resolve, ResolveWalkingAll, SkippedWalksSucceed, SubtreeMonotone;
    WalkingAllRuns(w, scopes);
  }

  // --------------------------------------------- what is added, altogether

  function FoundIn(w: World, dir: Option<GatPath>, glob: Option<Glob>): set<GatPath>
  {
    match w.discover(dir, glob)
    case Ok(found) => PathsOf(found.candidates)
    case Err(_) => {}
  }

  /** The files one selector asks for. */
  function Asked(w: World, scope: PathScope): set<GatPath>
  {
    match scope
    case RootScope => FoundIn(w, None, None)
    case Scope(path) =>
      match w.kind(path)
      case Ok(Directory) => FoundIn(w, Some(path), None)
      case Ok(File) => {path}
      case Ok(Missing) =>
        var glob := FromPath(path);
        if glob.Ok? then FoundIn(w, WalkRoot(glob.value), Some(glob.value)) else {}
      case _ => {}
  }

  function AllAsked(w: World, scopes: seq<PathScope>): set<GatPath>
  {
    if scopes == [] then {} else AllAsked(w, scopes[..|scopes| - 1]) + Asked(w, scopes[|scopes| - 1])
  }

  lemma {:induction false} DirAdds(w: World, p: Progress, dir: Option<GatPath>)
    requires SubtreeMonotone(w) && Walked(w, p) && StepDir(w, p, dir).Ok?
    ensures PathsOf(StepDir(w, p, dir).value.pushed) == PathsOf(p.pushed) + FoundIn(w, dir, None)
  {
    hide PathsOf, PushAll, FirstOwned, CoveredBy;
    if Covered(p.directories, dir) {
      var i :| 0 <= i < |p.directories| && CoveredBy(p.directories[i], dir);
      assert FoundAll(w, p.directories[i], p.pushed);
    } else {
      PushAllPaths(p.pushed, w.discover(dir, None).value.candidates);
    }
  }

  lemma {:induction false} StepAdds(w: World, p: Progress, scope: PathScope)
    requires SubtreeMonotone(w) && Walked(w, p) && Step(w, p, scope).Ok?
    ensures PathsOf(Step(w, p, scope).value.pushed) == PathsOf(p.pushed) + Asked(w, scope)
  {
    hide PathsOf, PushAll, FirstOwned, Covered, StepDir, FromPath, RefuseFile, SubtreeMonotone, Walked, FoundIn,
      FileRows;
    match scope
    case RootScope => DirAdds(w, p, None);
    case Scope(path) =>
      match w.kind(path)
      case Ok(Directory) => DirAdds(w, p, Some(path));
      case Ok(File) => PathsSnoc(p.pushed, Candidate(path, None));
      case Ok(Missing) => GlobAdds(w, p, path);
      case _ =>
  }

  lemma {:induction false} GlobAdds(w: World, p: Progress, path: GatPath)
    requires StepGlob(w, p, path).Ok?
    ensures FromPath(path).Ok?
    ensures var glob := FromPath(path).value;
            PathsOf(StepGlob(w, p, path).value.pushed) == PathsOf(p.pushed) + FoundIn(w, WalkRoot(glob), Some(glob))
  {
    hide PathsOf, PushAll, FirstOwned, FromPath, WalkRoot;
    var glob := FromPath(path).value;
    PushAllPaths(p.pushed, w.discover(WalkRoot(glob), Some(glob)).value.candidates);
  }

  lemma {:induction false} AskedOnce(w: World, scopes: seq<PathScope>, scope: PathScope)
    requires scope in scopes
    ensures Asked(w, scope) <= AllAsked(w, scopes)
  {
    hide Asked;
    var init, last := scopes[..|scopes| - 1], scopes[|scopes| - 1];
    assert scopes == init + [last];
    if scope != last {
      AskedOnce(w, init, scope);
    }
  }

  /** When no selector is refused, what is added is what the selectors ask for together, files
      under a directory walked earlier included; nothing of it belongs to a mount. */
  lemma {:induction false} AddedIsWhatWasAsked(w: World, scopes: seq<PathScope>)
    requires SubtreeMonotone(w) && Resolve(w, scopes).1 == None
    ensures PathsOf(Resolve(w, scopes).0.pushed) == AllAsked(w, scopes)
    ensures forall path :: path in AllAsked(w, scopes) ==> !w.owned(path)
  {
    ResolveKeepsWalked(w, scopes);
    hide Step, Asked, SubtreeMonotone;
    if scopes == [] {
      assert PathsOf([]) == {};
    } else {
      hide PathsOf;
      var init, last := scopes[..|scopes| - 1], scopes[|scopes| - 1];
      var (p, error) := Resolve(w, init);
      AddedIsWhatWasAsked(w, init);
      if last in init {
        AskedOnce(w, init, last);
      } else {
        ResolveKeepsWalked(w, init);
        StepAdds(w, p, last);
      }
    }
  }

  /** The files a list of rows stands for. */
  function RowTotal(rows: seq<Row>): nat
  {
    if rows == [] then 0
    else
      RowTotal(rows[..|rows| - 1]) + match rows[|rows| - 1].fileCount case Some(n) => n case None => 1
  }

  lemma {:induction false} RowTotalConcat(a: seq<Row>, b: seq<Row>)
    ensures RowTotal(a + b) == RowTotal(a) + RowTotal(b)
  {
    if b == [] {
      assert a + b == a;
    } else {
      assert (a + b)[..|a + b| - 1] == a + b[..|b| - 1];
      RowTotalConcat(a, b[..|b| - 1]);
    }
  }

  lemma {:induction false} FileRowsTotal(cs: seq<Candidate>)
    ensures RowTotal(FileRows(cs)) == |cs|
  {
    if cs != [] {
      FileRowsTotal(cs[..|cs| - 1]);
      assert FileRows(cs)[..|cs| - 1] == FileRows(cs[..|cs| - 1]);
    }
  }

  lemma {:induction false} OneRow(row: Row)
    ensures RowTotal([row]) == match row.fileCount case Some(n) => n case None => 1
  {
    assert [row][..0] == [];
  }

  lemma {:induction false} StepRows(w: World, p: Progress, scope: PathScope)
    requires Step(w, p, scope).Ok?
    ensures var next := Step(w, p, scope).value;
            p.pushed <= next.pushed && RowTotal(next.rows) == RowTotal(p.rows) + (|next.pushed| - |p.pushed|)
  {
    hide PushAll, FirstOwned, Covered, FromPath, RefuseFile, PathsOf, WalkRoot, RowTotal, FileRows;
    var next := Step(w, p, scope).value;
    StepPushes(w, p, scope);
    var walked, named := Row(scope, Some(|next.pushed| - |p.pushed|)), Row(scope, None);
    OneRow(walked);
    OneRow(named);
    RowTotalConcat(p.rows, [walked]);
    RowTotalConcat(p.rows, [named]);
    var newly := next.pushed[|p.pushed|..];
    FileRowsTotal(newly);
    RowTotalConcat(p.rows, FileRows(newly));
  }

  lemma {:induction false} StepPushes(w: World, p: Progress, scope: PathScope)
    requires Step(w, p, scope).Ok?
    ensures p.pushed <= Step(w, p, scope).value.pushed
  {
    hide PushAll, FirstOwned, Covered, FromPath, RefuseFile, PathsOf, WalkRoot, FileRows;
  }

  /** The rows reported account for every file added, each once. */
  lemma {:induction false} RowsAccountForFiles(w: World, scopes: seq<PathScope>)
    ensures RowTotal(Resolve(w, scopes).0.rows) == |Resolve(w, scopes).0.pushed|
  {
    hide Step;
    if scopes != [] {
      hide RowTotal;
      RowsAccountForFiles(w, scopes[..|scopes| - 1]);
      var (p, error) := Resolve(w, scopes[..|scopes| - 1]);
      if Step(w, p, scopes[|scopes| - 1]).Ok? {
        StepRows(w, p, scopes[|scopes| - 1]);
      }
    }
  }
}
