/** Which tracked paths a selection selects: a scope, and patterns to include and exclude,
    matched relative to it (gat-core/src/selection.rs, gat-core/src/globs.rs). */
module Selections {
  import opened Text
  import opened LexicalPath
  import opened PathAlgebra
  import opened Globs

  datatype Selection = Selection(scope: PathScope, included: seq<Glob>, excluded: seq<Glob>)

  predicate AnyMatch(patterns: seq<Glob>, rel: string)
  {
    exists i :: 0 <= i < |patterns| && Matches(patterns[i], rel)
  }

  /** Everything is included when nothing is named; an exclusion always wins. */
  predicate FilterMatches(included: seq<Glob>, excluded: seq<Glob>, rel: string)
  {
    (included == [] || AnyMatch(included, rel)) && !AnyMatch(excluded, rel)
  }

  function Relative(scope: PathScope, candidate: string): Option<string>
  {
    match scope
    case RootScope => Some(candidate)
    case Scope(path) => RelativePath(candidate, path)
  }

  predicate SelectsPath(s: Selection, candidate: string)
  {
    match Relative(s.scope, candidate)
    case None => false
    case Some(rel) => FilterMatches(s.included, s.excluded, rel)
  }

  // ------------------------------------------------ what a selection selects

  /** What is matched: the whole path under the root, otherwise what follows the scope, which
      for the scope's own row is nothing. */
  lemma {:induction false} RelativeIs(scope: PathScope, candidate: string)
    ensures scope.RootScope? ==> Relative(scope, candidate) == Some(candidate)
    ensures scope.Scope? ==> (Relative(scope, candidate).Some? <==> IsOrUnder(candidate, scope.path))
    ensures scope.Scope? && candidate == scope.path ==> Relative(scope, candidate) == Some("")
    ensures scope.Scope? ==> forall rel :: candidate == JoinRel(scope.path, rel) ==>
            Relative(scope, candidate) == Some(rel)
  {
    if scope.Scope? {
      forall rel | candidate == JoinRel(scope.path, rel) ensures Relative(scope, candidate) == Some(rel) {
        assert candidate[|scope.path|..] == "/" + rel;
      }
    }
  }

  /** Without patterns a selection selects exactly what lies at or under its scope. */
  lemma {:induction false} UnrestrictedSelectsScope(scope: PathScope, candidate: string)
    ensures SelectsPath(Selection(scope, [], []), candidate) <==>
            scope.RootScope? || IsOrUnder(candidate, scope.path)
  {
    RelativeIs(scope, candidate);
  }

  predicate MatchesUnder(scope: PathScope, glob: Glob, candidate: string)
  {
    Relative(scope, candidate).Some? && Matches(glob, Relative(scope, candidate).value)
  }

  /** One more exclusion takes away exactly what it matches, whatever is included. */
  lemma {:induction false} ExclusionTakesAway(s: Selection, glob: Glob, candidate: string)
    ensures SelectsPath(s.(excluded := s.excluded + [glob]), candidate) <==>
            SelectsPath(s, candidate) && !MatchesUnder(s.scope, glob, candidate)
  {
    hide Matches;
    forall rel ensures AnyMatch(s.excluded + [glob], rel) <==> AnyMatch(s.excluded, rel) || Matches(glob, rel) {
      AnyMatchSnoc(s.excluded, glob, rel);
    }
    hide AnyMatch;
  }

  /** A first inclusion keeps exactly what it matches; each further one brings in exactly what
      it matches and no exclusion does. */
  lemma {:induction false} InclusionBringsIn(s: Selection, glob: Glob, candidate: string)
    ensures SelectsPath(s.(included := s.included + [glob]), candidate) <==>
            if s.included == [] then SelectsPath(s, candidate) && MatchesUnder(s.scope, glob, candidate)
            else
              SelectsPath(s, candidate) ||
              (MatchesUnder(s.scope, glob, candidate) &&
               forall i :: 0 <= i < |s.excluded| ==> !MatchesUnder(s.scope, s.excluded[i], candidate))
  {
    hide Matches;
    forall rel ensures AnyMatch(s.included + [glob], rel) <==> AnyMatch(s.included, rel) || Matches(glob, rel) {
      AnyMatchSnoc(s.included, glob, rel);
    }
    var rel := Relative(s.scope, candidate);
    if rel.Some? {
      assert (forall i :: 0 <= i < |s.excluded| ==> !MatchesUnder(s.scope, s.excluded[i], candidate)) <==>
             !AnyMatch(s.excluded, rel.value);
    }
  }

  lemma {:induction false} AnyMatchSnoc(patterns: seq<Glob>, glob: Glob, rel: string)
    ensures AnyMatch(patterns + [glob], rel) <==> AnyMatch(patterns, rel) || Matches(glob, rel)
  {
    hide Matches;
    if i :| 0 <= i < |patterns| && Matches(patterns[i], rel) {
      assert (patterns + [glob])[i] == patterns[i];
    }
    assert (patterns + [glob])[|patterns|] == glob;
  }

  // ------------------------------------------------------------ scopes

  /** A selection under a scope selects below it what its filter selects at the root. */
  lemma {:induction false} ScopeShifts(scope: GatPath, rel: GatPath, included: seq<Glob>, excluded: seq<Glob>)
    ensures SelectsPath(Selection(Scope(scope), included, excluded), JoinRel(scope, rel)) <==>
            SelectsPath(Selection(RootScope, included, excluded), rel)
  {
    hide FilterMatches, Canonical;
    JoinThenStrip(scope, rel);
    CanonicalShape(rel);
  }

  /** What a selection selects and mounts under a target: distinct rows land on distinct
      paths, all at or under the target. */
  lemma {:induction false} SelectedRowsLandApart(s: Selection, p: GatPath, q: GatPath, target: GatPath)
    requires SelectsPath(s, p) && SelectsPath(s, q)
    ensures ReparentRelative(s.scope, p).Some? && ReparentRelative(s.scope, q).Some?
    ensures var p', q' := Reparented(target, ReparentRelative(s.scope, p).value),
                          Reparented(target, ReparentRelative(s.scope, q).value);
            IsOrUnder(p', target) && IsOrUnder(q', target) && (p' == q' <==> p == q)
  {
    hide FilterMatches, Canonical;
    ReparentLandsInside(s.scope, p, target);
    ReparentLandsInside(s.scope, q, target);
    hide Reparented, IsOrUnder;
    if Reparented(target, ReparentRelative(s.scope, p).value) ==
      Reparented(target, ReparentRelative(s.scope, q).value) {
      ReparentInjective(s.scope, p, q, target);
    }
  }
}
