/** What adding refuses, takes up and reports, told from the outside world and the selectors. */
module AddLaws {
  import opened Text
  import opened LexicalPath
  import opened PathAlgebra
  import opened Globs
  import opened Add

  // --------------------------------------------------------------- refusals

  /** The selector names a path of this kind that is not the program's own. */
  predicate IsKind(w: World, scope: PathScope, kind: Kind)
  {
    scope.Scope? && !w.infrastructure(scope.path) && w.kind(scope.path) == Ok(kind)
  }

  /** A missing path is searched for as a pattern. */
  predicate IsPattern(w: World, scope: PathScope)
  {
    IsKind(w, scope, Missing) && FromPath(scope.path).Ok?
  }

  /** What the search a selector makes comes to; `covered`: an earlier walk held its directory. */
  ghost predicate Searches(w: World, covered: bool, scope: PathScope, r: Result<Discovery, Fault>)
  {
    || (Walks(w, scope) && !covered && r == w.discover(DirOf(scope), None))
    || (IsPattern(w, scope) &&
        var glob := FromPath(scope.path).value;
        exists dir: Option<GatPath> :: IsTraversalDir(glob, dir) && r == w.discover(dir, Some(glob)))
  }

  /** The directory searched for a pattern; none for the root. */
  predicate IsTraversalDir(glob: Glob, dir: Option<GatPath>)
    requires ValidGlob(glob)
  {
    TraversalDirIsSound(glob);
    match dir
    case None => TraversalDir(glob) == ""
    case Some(path) => TraversalDir(glob) == path
  }

  lemma {:induction false} WalkRootIs(glob: Glob, dir: Option<GatPath>)
    requires ValidGlob(glob)
    ensures IsTraversalDir(glob, dir) <==> dir == WalkRoot(glob)
  {
    hide ValidGlob, TraversalDir, Canonical;
    if dir.Some? {
      CanonicalShape(dir.value);
    }
  }

  ghost predicate FindsOwned(w: World, covered: bool, scope: PathScope, path: GatPath)
  {
    exists found, i :: Searches(w, covered, scope, Ok(found)) && IsFirstOwned(w, found.candidates, i, path)
  }

  predicate IsFirstOwned(w: World, cs: seq<Candidate>, i: nat, path: GatPath)
  {
    && i < |cs| && cs[i].path == path && w.owned(path)
    && forall j :: 0 <= j < i ==> !w.owned(cs[j].path)
  }

  /** For a single file the applicable reason of the lowest rank. */
  ghost predicate FileReason(w: World, scope: PathScope, e: AddError)
  {
    && IsKind(w, scope, File) && Applies(w, scope.path, e)
    && forall d :: Applies(w, scope.path, d) && d != e ==> Rank(e) < Rank(d)
  }

  /** Why a selector is refused. */
  ghost predicate Reason(w: World, covered: bool, scope: PathScope, e: AddError)
  {
    match e
    case Infrastructure(path) => scope == Scope(path) && w.infrastructure(path)
    case UnsupportedSymlink(path) => scope == Scope(path) && IsKind(w, scope, Symlink)
    case UnsupportedFileType(path) => scope == Scope(path) && IsKind(w, scope, Other)
    case BadPattern(error) =>
      IsKind(w, scope, Missing) && Compile(scope.path).None? && error == InvalidGlobSyntax(scope.path)
    case NoMatch(path) =>
      scope == Scope(path) && IsPattern(w, scope) && Searches(w, covered, scope, Ok(Discovery([], 0)))
    case OwnedByMount(path) =>
      FindsOwned(w, covered, scope, path) || FileReason(w, scope, e)
    case Failed(fault) =>
      || (scope.Scope? && !w.infrastructure(scope.path) && w.kind(scope.path) == Err(fault))
      || Searches(w, covered, scope, Err(fault))
      || FileReason(w, scope, e)
    case _ => FileReason(w, scope, e)
  }

  /** Some earlier selector walks a directory that holds this one's. */
  predicate CoveredEarlier(w: World, scopes: seq<PathScope>, n: nat)
    requires n < |scopes|
  {
    exists m :: 0 <= m < n && Walks(w, scopes[m]) && CoveredBy(DirOf(scopes[m]), DirOf(scopes[n]))
  }

  /** The selector at `n`, given for the first time, has a reason to be refused. */
  ghost predicate RefusedAt(w: World, scopes: seq<PathScope>, n: nat, e: AddError)
    requires n < |scopes|
  {
    scopes[n] !in scopes[..n] && Reason(w, CoveredEarlier(w, scopes, n), scopes[n], e)
  }

  ghost predicate RefusedFirst(w: World, scopes: seq<PathScope>, n: nat, e: AddError)
  {
    && n < |scopes| && RefusedAt(w, scopes, n, e)
    && forall m, d :: 0 <= m < n ==> !RefusedAt(w, scopes, m, d)
  }

  lemma {:induction false} FirstOwnedIs(w: World, cs: seq<Candidate>, path: GatPath)
    ensures FirstOwned(w, cs) == Some(path) <==> exists i: nat :: IsFirstOwned(w, cs, i, path)
  {
    if cs != [] {
      FirstOwnedIs(w, cs[1..], path);
      if w.owned(cs[0].path) {
        assert cs[0].path == path ==> IsFirstOwned(w, cs, 0, path);
      } else {
        if i: nat :| IsFirstOwned(w, cs[1..], i, path) {
          assert IsFirstOwned(w, cs, i + 1, path);
        }
        if i: nat :| IsFirstOwned(w, cs, i, path) {
          assert IsFirstOwned(w, cs[1..], i - 1, path);
        }
      }
    }
  }

  /** A search has one result, and what it finds decides about mounts. */
  lemma {:induction false} FoundDecides(w: World, covered: bool, scope: PathScope, result: Result<Discovery, Fault>,
                                        path: GatPath)
    requires forall r :: Searches(w, covered, scope, r) <==> r == result
    ensures FindsOwned(w, covered, scope, path) <==>
            result.Ok? && FirstOwned(w, result.value.candidates) == Some(path)
  {
    hide FirstOwned, Searches, IsFirstOwned;
    if result.Ok? {
      FirstOwnedIs(w, result.value.candidates, path);
      if FirstOwned(w, result.value.candidates) == Some(path) {
        var i: nat :| IsFirstOwned(w, result.value.candidates, i, path);
        assert Searches(w, covered, scope, Ok(result.value));
      }
    }
  }

  lemma {:induction false} RefuseFileIs(w: World, path: GatPath, e: AddError)
    ensures RefuseFile(w, path) == Some(e) <==>
            Applies(w, path, e) && forall d :: Applies(w, path, d) && d != e ==> Rank(e) < Rank(d)
  {
    var r := RefuseFile(w, path);
    assert r.Some? ==> Applies(w, path, r.value);
  }

  lemma {:induction false} WalkRefused(w: World, p: Progress, scope: PathScope, e: AddError)
    requires Walks(w, scope)
    ensures StepDir(w, p, DirOf(scope)) == Err(e) <==> Reason(w, Covered(p.directories, DirOf(scope)), scope, e)
  {
    hide FirstOwned, PushAll, Covered, Applies;
    var covered := Covered(p.directories, DirOf(scope));
    if !covered {
      if e.OwnedByMount? {
        FoundDecides(w, covered, scope, w.discover(DirOf(scope), None), e.path);
      }
      hide FindsOwned;
    }
  }

  lemma {:induction false} GlobRefused(w: World, p: Progress, scope: PathScope, covered: bool, e: AddError)
    requires IsKind(w, scope, Missing)
    ensures StepGlob(w, p, scope.path) == Err(e) <==> Reason(w, covered, scope, e)
  {
    hide FirstOwned, PushAll, Applies, Compile, WalkRoot, FirstMetaIndex, ValidGlob, IsTraversalDir;
    var parsed := FromPath(scope.path);
    if parsed.Ok? {
      forall dir ensures IsTraversalDir(parsed.value, dir) <==> dir == WalkRoot(parsed.value) {
        WalkRootIs(parsed.value, dir);
      }
      if e.OwnedByMount? {
        FoundDecides(w, covered, scope, w.discover(WalkRoot(parsed.value), Some(parsed.value)), e.path);
      }
      hide FindsOwned;
    }
  }

  /** Resolving a selector is refused exactly for a reason of it. */
  lemma {:induction false} StepRefused(w: World, p: Progress, scope: PathScope, e: AddError)
    ensures Step(w, p, scope) == Err(e) <==> Reason(w, Covered(p.directories, DirOf(scope)), scope, e)
  {
    hide StepDir, StepGlob, Covered, RefuseFile, Applies, PathsOf, FromPath;
    if Walks(w, scope) {
      WalkRefused(w, p, scope, e);
      hide Reason;
    } else if IsKind(w, scope, Missing) {
      GlobRefused(w, p, scope, Covered(p.directories, DirOf(scope)), e);
      hide Reason;
    } else if IsKind(w, scope, File) {
      RefuseFileIs(w, scope.path, e);
      FileRefused(w, p, scope, Covered(p.directories, DirOf(scope)), e);
      hide Reason;
    }
  }

  lemma {:induction false} FileRefused(w: World, p: Progress, scope: PathScope, covered: bool, e: AddError)
    requires IsKind(w, scope, File)
    ensures Reason(w, covered, scope, e) <==> FileReason(w, scope, e)
  {
  }

  // ------------------------------------------------- which walks are made

  ghost predicate WalkedFor(w: World, scopes: seq<PathScope>, dir: Option<GatPath>)
  {
    exists m :: 0 <= m < |scopes| && Walks(w, scopes[m]) && CoveredBy(DirOf(scopes[m]), dir)
  }

  lemma {:induction false} CoveredByTransitive(a: Option<GatPath>, b: Option<GatPath>, c: Option<GatPath>)
    requires CoveredBy(a, b) && CoveredBy(b, c)
    ensures CoveredBy(a, c)
  {
    hide IsOrUnder;
    if a.Some? {
      UnderTransitive(c.value, b.value, a.value);
    }
  }

  lemma {:induction false} StepDirectories(w: World, p: Progress, scope: PathScope)
    requires Step(w, p, scope).Ok?
    ensures Step(w, p, scope).value.directories ==
            if Walks(w, scope) && !Covered(p.directories, DirOf(scope)) then p.directories + [DirOf(scope)]
            else p.directories
  {
    hide PushAll, FirstOwned, FromPath, RefuseFile, WalkRoot, PathsOf, Covered;
  }

  lemma {:induction false} CoveredSnoc(directories: seq<Option<GatPath>>, dir: Option<GatPath>, other: Option<GatPath>)
    ensures Covered(directories + [dir], other) <==> Covered(directories, other) || CoveredBy(dir, other)
    ensures Covered(directories, dir) && CoveredBy(dir, other) ==> Covered(directories, other)
  {
    hide CoveredBy;
    var all := directories + [dir];
    assert all[|directories|] == dir;
    if i :| 0 <= i < |directories| && CoveredBy(directories[i], other) {
      assert all[i] == directories[i];
    }
    if Covered(directories, dir) && CoveredBy(dir, other) {
      var i :| 0 <= i < |directories| && CoveredBy(directories[i], dir);
      CoveredByTransitive(directories[i], dir, other);
    }
  }

  lemma {:induction false} WalkedForSnoc(w: World, scopes: seq<PathScope>, last: PathScope, dir: Option<GatPath>)
    ensures WalkedFor(w, scopes + [last], dir) <==>
            WalkedFor(w, scopes, dir) || (Walks(w, last) && CoveredBy(DirOf(last), dir))
    ensures last in scopes && Walks(w, last) && CoveredBy(DirOf(last), dir) ==> WalkedFor(w, scopes, dir)
  {
    hide CoveredBy, Walks, DirOf;
    var all := scopes + [last];
    assert all[|scopes|] == last;
    if m :| 0 <= m < |scopes| && Walks(w, scopes[m]) && CoveredBy(DirOf(scopes[m]), dir) {
      assert all[m] == scopes[m];
    }
  }

  /** A directory counts as covered exactly when an earlier selector walks one that holds it,
      although a selector that was itself covered leaves no walk on record. */
  lemma {:induction false} CoveredMeansWalked(w: World, scopes: seq<PathScope>, dir: Option<GatPath>)
    requires Resolve(w, scopes).1 == None
    ensures Covered(Resolve(w, scopes).0.directories, dir) <==> WalkedFor(w, scopes, dir)
  {
    hide Covered, CoveredBy, WalkedFor, Walks, DirOf, Step;
    if scopes == [] {
      NothingWalked(w, dir);
    } else {
      var init, last := scopes[..|scopes| - 1], scopes[|scopes| - 1];
      var (p, error) := Resolve(w, init);
      assert scopes == init + [last];
      CoveredMeansWalked(w, init, dir);
      WalkedForSnoc(w, init, last, dir);
      if last !in init {
        StepDirectories(w, p, last);
        CoveredSnoc(p.directories, DirOf(last), dir);
      }
    }
  }

  lemma {:induction false} NothingWalked(w: World, dir: Option<GatPath>)
    ensures !Covered([], dir) && !WalkedFor(w, [], dir)
  {
  }

  // ----------------------------------------------------- refused altogether

  lemma {:induction false} RefusedNext(w: World, scopes: seq<PathScope>, n: nat, e: AddError)
    requires n < |scopes| && Resolve(w, scopes[..n]).1 == None
    ensures Resolve(w, scopes[..n + 1]).1 == Some(e) <==> RefusedAt(w, scopes, n, e)
  {
    var p := Resolve(w, scopes[..n]).0;
    ResolveStep(w, scopes, n);
    StepRefused(w, p, scopes[n], e);
    CoveredMeansWalked(w, scopes[..n], DirOf(scopes[n]));
    assert WalkedFor(w, scopes[..n], DirOf(scopes[n])) <==> CoveredEarlier(w, scopes, n) by {
      hide CoveredBy, Walks, DirOf;
      if m :| 0 <= m < n && Walks(w, scopes[m]) && CoveredBy(DirOf(scopes[m]), DirOf(scopes[n])) {
        assert scopes[..n][m] == scopes[m];
      }
    }
    hide Resolve, Step, Reason, CoveredEarlier, WalkedFor, Covered;
  }

  lemma {:induction false} RefusedUpTo(w: World, scopes: seq<PathScope>, n: nat)
    requires n <= |scopes|
    ensures Resolve(w, scopes[..n]).1.None? ==> forall m, d :: 0 <= m < n ==> !RefusedAt(w, scopes, m, d)
    ensures Resolve(w, scopes[..n]).1.Some? ==>
              exists k: nat :: k < n && RefusedFirst(w, scopes, k, Resolve(w, scopes[..n]).1.value)
  {
    hide Resolve, Step, RefusedAt;
    if n == 0 {
      ResolveNothing(w);
      assert scopes[..0] == [];
    } else {
      var k := n - 1;
      var before, after := Resolve(w, scopes[..k]).1, Resolve(w, scopes[..k + 1]).1;
      RefusedUpTo(w, scopes, k);
      ResolveStep(w, scopes, k);
      if before.None? {
        forall d ensures after == Some(d) <==> RefusedAt(w, scopes, k, d) {
          RefusedNext(w, scopes, k, d);
        }
        assert after.Some? ==> RefusedFirst(w, scopes, k, after.value);
      } else {
        assert after == before;
      }
    }
  }

  /** The error of a whole request is that of the first selector with a reason to be refused;
      reasons are told from the outside world and the selectors before it. */
  lemma {:induction false} RefusedExactly(w: World, scopes: seq<PathScope>, e: AddError)
    ensures Resolve(w, scopes).1 == Some(e) <==> exists n: nat :: RefusedFirst(w, scopes, n, e)
  {
    hide Resolve, RefusedAt;
    assert scopes[..|scopes|] == scopes;
    RefusedUpTo(w, scopes, |scopes|);
    if n: nat :| RefusedFirst(w, scopes, n, e) {
      RefusedUpTo(w, scopes, n);
      assert Resolve(w, scopes[..n]).1.None?;
      RefusedNext(w, scopes, n, e);
      ResolvePrefix(w, scopes, n + 1);
    }
  }

  // ------------------------------------------------------ what is taken up

  /** The candidates that a selector which is not refused brings. */
  ghost predicate Brings(w: World, covered: bool, scope: PathScope, cs: seq<Candidate>)
  {
    || (IsKind(w, scope, File) && cs == [Candidate(scope.path, None)])
    || (Walks(w, scope) && covered && cs == [])
    || (exists found :: Searches(w, covered, scope, Ok(found)) && cs == found.candidates)
  }

  /** What a selector reports: a walked directory with its count, or each file by itself. */
  function Report(w: World, scope: PathScope, newly: seq<Candidate>): seq<Row>
  {
    if Walks(w, scope) then [Row(scope, Some(|newly|))]
    else seq(|newly|, i requires 0 <= i < |newly| => Row(Scope(newly[i].path), None))
  }

  /** A selector takes up what it brings, as far as it is new, and reports just that. */
  lemma {:induction false} StepTakesUp(w: World, p: Progress, scope: PathScope, cs: seq<Candidate>)
    requires Step(w, p, scope).Ok? && Brings(w, Covered(p.directories, DirOf(scope)), scope, cs)
    ensures var next := Step(w, p, scope).value;
            && next.pushed == PushAll(p.pushed, cs)
            && next.rows == p.rows + Report(w, scope, next.pushed[|p.pushed|..])
  {
    hide PushAll, FirstOwned, Covered, RefuseFile, FromPath, WalkRoot, StepGlob, StepDir, StepFile;
    if Walks(w, scope) {
      WalkTakesUp(w, p, scope, cs);
    } else if IsKind(w, scope, Missing) {
      GlobTakesUp(w, p, scope, cs);
    } else {
      FileTakesUp(w, p, scope.path);
    }
  }

  lemma {:induction false} WalkTakesUp(w: World, p: Progress, scope: PathScope, cs: seq<Candidate>)
    requires Walks(w, scope) && StepDir(w, p, DirOf(scope)).Ok?
    requires Brings(w, Covered(p.directories, DirOf(scope)), scope, cs)
    ensures var next := StepDir(w, p, DirOf(scope)).value; next.pushed == PushAll(p.pushed, cs) && next.rows == p.rows
  {
    hide FirstOwned, Covered, FromPath;
    NothingNew(p.pushed, []);
    hide PushAll;
  }

  lemma {:induction false} GlobTakesUp(w: World, p: Progress, scope: PathScope, cs: seq<Candidate>)
    requires IsKind(w, scope, Missing) && StepGlob(w, p, scope.path).Ok?
    requires exists covered :: Brings(w, covered, scope, cs)
    ensures var next := StepGlob(w, p, scope.path).value;
            && next.pushed == PushAll(p.pushed, cs)
            && next.rows == p.rows + Report(w, scope, next.pushed[|p.pushed|..])
  {
    hide FirstOwned, PushAll, FromPath, WalkRoot, IsTraversalDir;
    var glob := FromPath(scope.path).value;
    forall dir ensures IsTraversalDir(glob, dir) <==> dir == WalkRoot(glob) {
      WalkRootIs(glob, dir);
    }
    forall newly ensures FileRows(newly) == Report(w, scope, newly) {
    }
  }

  lemma {:induction false} FileTakesUp(w: World, p: Progress, path: GatPath)
    requires StepFile(w, p, path).Ok? && IsKind(w, Scope(path), File)
    ensures var next := StepFile(w, p, path).value;
            && next.pushed == PushAll(p.pushed, [Candidate(path, None)])
            && next.rows == p.rows + Report(w, Scope(path), next.pushed[|p.pushed|..])
  {
    hide RefuseFile, PathsOf;
    var one := [Candidate(path, None)];
    assert one[..|one| - 1] == [] && PushAll(p.pushed, []) == p.pushed;
    assert (p.pushed + one)[|p.pushed|..] == one && p.pushed[|p.pushed|..] == [];
    assert Report(w, Scope(path), one) == [Row(Scope(path), None)];
    assert Report(w, Scope(path), []) == [] && p.rows + [] == p.rows;
  }

  /** The candidate at `i` is the first with its path. */
  predicate IsNew(pushed: seq<Candidate>, cs: seq<Candidate>, i: nat)
    requires i < |cs|
  {
    cs[i].path !in PathsOf(pushed) && forall j :: 0 <= j < i ==> cs[j].path != cs[i].path
  }

  function NewBefore(pushed: seq<Candidate>, cs: seq<Candidate>, n: nat): nat
    requires n <= |cs|
  {
    if n == 0 then 0 else NewBefore(pushed, cs, n - 1) + if IsNew(pushed, cs, n - 1) then 1 else 0
  }

  /** Of the candidates the first with each new path is taken up, in the order they come. */
  lemma {:induction false} FirstComeFirstTaken(pushed: seq<Candidate>, cs: seq<Candidate>)
    ensures |PushAll(pushed, cs)| == |pushed| + NewBefore(pushed, cs, |cs|)
    ensures forall i :: 0 <= i < |cs| && IsNew(pushed, cs, i) ==> TakenAt(pushed, cs, i, PushAll(pushed, cs))
  {
    if cs != [] {
      hide *;
      var n := |cs| - 1;
      FirstComeFirstTaken(pushed, cs[..n]);
      NewBeforeInit(pushed, cs, n);
      LastTaken(pushed, cs);
      forall i | 0 <= i < |cs| && IsNew(pushed, cs, i) ensures TakenAt(pushed, cs, i, PushAll(pushed, cs)) {
        if i < n {
          NewInit(pushed, cs, i);
          StillTaken(pushed, cs, i, PushAll(pushed, cs[..n]), PushAll(pushed, cs));
        }
      }
    }
  }

  lemma {:induction false} LastTaken(pushed: seq<Candidate>, cs: seq<Candidate>)
    requires cs != [] && |PushAll(pushed, cs[..|cs| - 1])| == |pushed| + NewBefore(pushed, cs, |cs| - 1)
    ensures |PushAll(pushed, cs)| == |pushed| + NewBefore(pushed, cs, |cs|)
    ensures PushAll(pushed, cs[..|cs| - 1]) <= PushAll(pushed, cs)
    ensures IsNew(pushed, cs, |cs| - 1) ==> TakenAt(pushed, cs, |cs| - 1, PushAll(pushed, cs))
  {
    LastIsNewUnlessSeen(pushed, cs);
    hide IsNew, PathsOf;
  }

  lemma {:induction false} StillTaken(pushed: seq<Candidate>, cs: seq<Candidate>, i: nat, some: seq<Candidate>,
                                      all: seq<Candidate>)
    requires i < |cs| - 1 && TakenAt(pushed, cs[..|cs| - 1], i, some) && some <= all
    ensures TakenAt(pushed, cs, i, all)
  {
    NewBeforeInit(pushed, cs, i);
    hide NewBefore;
  }

  /** The candidate at `i` stands behind those taken up before it. */
  predicate TakenAt(pushed: seq<Candidate>, cs: seq<Candidate>, i: nat, r: seq<Candidate>)
    requires i < |cs|
  {
    |pushed| + NewBefore(pushed, cs, i) < |r| && r[|pushed| + NewBefore(pushed, cs, i)] == cs[i]
  }

  lemma {:induction false} NewInit(pushed: seq<Candidate>, cs: seq<Candidate>, i: nat)
    requires i < |cs| - 1
    ensures IsNew(pushed, cs, i) <==> IsNew(pushed, cs[..|cs| - 1], i)
  {
  }

  lemma {:induction false} LastIsNewUnlessSeen(pushed: seq<Candidate>, cs: seq<Candidate>)
    requires cs != []
    ensures IsNew(pushed, cs, |cs| - 1) <==> cs[|cs| - 1].path !in PathsOf(PushAll(pushed, cs[..|cs| - 1]))
  {
    PushAllPaths(pushed, cs[..|cs| - 1]);
    hide PushAll;
    var init, path := cs[..|cs| - 1], cs[|cs| - 1].path;
    assert path in PathsOf(init) <==> exists j :: 0 <= j < |init| && init[j].path == path;
  }

  lemma {:induction false} NewBeforeInit(pushed: seq<Candidate>, cs: seq<Candidate>, n: nat)
    requires n < |cs|
    ensures NewBefore(pushed, cs, n) == NewBefore(pushed, cs[..|cs| - 1], n)
  {
    if n > 0 {
      NewBeforeInit(pushed, cs, n - 1);
    }
  }

  /** The program's own directories are refused before anything is asked about them. */
  lemma {:induction false} OwnDirectoryRefused(w: World, p: Progress, path: GatPath)
    requires w.infrastructure(path)
    ensures StepDir(w, p, Some(path)) == Err(Infrastructure(path))
  {
  }
}
