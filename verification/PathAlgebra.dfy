/** Prefix algebra on canonical paths: stripping, joining and rebasing by plain string
    operations, and what they mean on components
    (gat-core/src/lexical_path.rs, gat-core/src/selection.rs). */
module PathAlgebra {
  import opened Text
  import opened LexicalPath

  /** A suffix relative to a scope; `Root` for the scope itself. */
  datatype Subpath = Root | Path(path: string)

  function RelativePath(candidate: string, prefix: string): Option<string>
  {
    if !(prefix <= candidate) then None
    else
      var rest := candidate[|prefix|..];
      if rest == "" then Some(rest)
      else if rest[0] == '/' then Some(rest[1..])
      else None
  }

  function StripPrefix(path: string, prefix: string): Option<Subpath>
  {
    match RelativePath(path, prefix)
    case None => None
    case Some(relative) => Some(if relative == "" then Root else Path(relative))
  }

  predicate IsOrUnder(path: string, prefix: string)
  {
    StripPrefix(path, prefix).Some?
  }

  function JoinRel(base: string, rel: string): string
  {
    base + "/" + rel
  }

  /** A path outside `oldPrefix` is returned as it is. */
  function WithReplacedPrefix(path: string, oldPrefix: string, newPrefix: string): string
  {
    match StripPrefix(path, oldPrefix)
    case Some(Root) => newPrefix
    case Some(Path(relative)) => JoinRel(newPrefix, relative)
    case None => path
  }

  /** Equal, ancestor or descendant. */
  predicate Overlap(a: string, b: string)
  {
    IsOrUnder(a, b) || IsOrUnder(b, a)
  }

  // -------------------------------------------- strings against components

  lemma {:induction false} UnderMeansComponentPrefix(path: string, prefix: string)
    ensures IsOrUnder(path, prefix) <==> Components(prefix) <= Components(path)
  {
    if IsOrUnder(path, prefix) {
      if |path| == |prefix| {
        assert path == prefix;
      } else {
        var rest := path[|prefix| + 1..];
        assert path == prefix + "/" + rest;
        ComponentsOfConcat(prefix, rest);
      }
    }
    if Components(prefix) <= Components(path) {
      var p, c := Components(prefix), Components(path);
      var more := c[|p|..];
      assert c == p + more;
      ComponentsRoundTrip(path);
      ComponentsRoundTrip(prefix);
      if more == [] {
        assert c == p;
      } else {
        JoinConcat('/', p, more);
        assert path[|prefix|] == '/';
      }
    }
  }

  lemma {:induction false} StripIsDrop(path: GatPath, prefix: GatPath)
    requires IsOrUnder(path, prefix)
    ensures match StripPrefix(path, prefix).value
            case Root => path == prefix
            case Path(rel) => Canonical(rel) && Components(path) == Components(prefix) + Components(rel) &&
                              JoinRel(prefix, rel) == path
  {
    var rest := path[|prefix|..];
    if rest == "" {
      assert path == prefix;
    } else {
      var rel := rest[1..];
      CanonicalShape(path);
      assert path == prefix + "/" + rel;
      assert path[|path| - 1] == if rel == "" then '/' else rel[|rel| - 1];
      ComponentsOfConcat(prefix, rel);
      var p, c := Components(prefix), Components(path);
      assert Components(rel) == c[|p|..];
    }
  }

  /** Joining needs no re-validation, and stripping takes the join back apart. */
  lemma {:induction false} JoinThenStrip(base: GatPath, rel: GatPath)
    ensures Canonical(JoinRel(base, rel))
    ensures Components(JoinRel(base, rel)) == Components(base) + Components(rel)
    ensures StripPrefix(JoinRel(base, rel), base) == Some(Path(rel))
  {
    ComponentsOfConcat(base, rel);
    CanonicalShape(rel);
    var joined := JoinRel(base, rel);
    assert joined[|base|..] == "/" + rel;
    assert GoodComponents(Components(base)) && GoodComponents(Components(rel));
  }

  // ------------------------------------------------------------ the order

  lemma {:induction false} UnderReflexive(a: string)
    ensures IsOrUnder(a, a)
  {
  }

  lemma {:induction false} UnderTransitive(a: string, b: string, c: string)
    requires IsOrUnder(a, b) && IsOrUnder(b, c)
    ensures IsOrUnder(a, c)
  {
    UnderMeansComponentPrefix(a, b);
    UnderMeansComponentPrefix(b, c);
    UnderMeansComponentPrefix(a, c);
  }

  lemma {:induction false} UnderAntisymmetric(a: string, b: string)
    requires IsOrUnder(a, b) && IsOrUnder(b, a)
    ensures a == b
  {
  }

  /** The ancestors of one path form a chain. */
  lemma {:induction false} AncestorsFormChain(path: string, a: string, b: string)
    requires IsOrUnder(path, a) && IsOrUnder(path, b)
    ensures Overlap(a, b)
    ensures |a| <= |b| ==> IsOrUnder(b, a)
  {
    UnderMeansComponentPrefix(path, a);
    UnderMeansComponentPrefix(path, b);
    UnderMeansComponentPrefix(a, b);
    UnderMeansComponentPrefix(b, a);
    if |Components(a)| > |Components(b)| {
      assert IsOrUnder(a, b);
      assert |b| <= |a|;
      if |a| <= |b| {
        assert a == b;
      }
    }
  }

  // ------------------------------------------------------------- rebasing

  lemma {:induction false} RebaseIsComponentwise(path: GatPath, oldPrefix: GatPath, newPrefix: GatPath)
    requires IsOrUnder(path, oldPrefix)
    ensures var moved := WithReplacedPrefix(path, oldPrefix, newPrefix);
            && Canonical(moved)
            && IsOrUnder(moved, newPrefix)
            && Components(oldPrefix) <= Components(path)
            && Components(moved) == Components(newPrefix) + Components(path)[|Components(oldPrefix)|..]
  {
    StripIsDrop(path, oldPrefix);
    match StripPrefix(path, oldPrefix).value
    case Root =>
      UnderReflexive(newPrefix);
      assert Components(path)[|Components(oldPrefix)|..] == [];
    case Path(rel) =>
      JoinThenStrip(newPrefix, rel);
  }

  /** A path outside the prefix is left as it is. */
  lemma {:induction false} RebaseLeavesOthers(path: GatPath, oldPrefix: GatPath, newPrefix: GatPath)
    requires !(Components(oldPrefix) <= Components(path))
    ensures WithReplacedPrefix(path, oldPrefix, newPrefix) == path
  {
    UnderMeansComponentPrefix(path, oldPrefix);
  }

  /** Swapping the prefixes undoes a rebase, so a rebase keeps distinct paths distinct. */
  lemma {:induction false} RebaseUndone(path: GatPath, oldPrefix: GatPath, newPrefix: GatPath)
    requires IsOrUnder(path, oldPrefix)
    ensures WithReplacedPrefix(WithReplacedPrefix(path, oldPrefix, newPrefix), newPrefix, oldPrefix) == path
  {
    StripIsDrop(path, oldPrefix);
    match StripPrefix(path, oldPrefix).value
    case Root =>
      assert StripPrefix(newPrefix, newPrefix) == Some(Root);
    case Path(rel) =>
      JoinThenStrip(newPrefix, rel);
  }

  lemma {:induction false} RebaseInjective(p: GatPath, q: GatPath, oldPrefix: GatPath, newPrefix: GatPath)
    requires IsOrUnder(p, oldPrefix) && IsOrUnder(q, oldPrefix)
    requires WithReplacedPrefix(p, oldPrefix, newPrefix) == WithReplacedPrefix(q, oldPrefix, newPrefix)
    ensures p == q
  {
    RebaseUndone(p, oldPrefix, newPrefix);
    RebaseUndone(q, oldPrefix, newPrefix);
  }

  /** Nesting survives a rebase in both directions. */
  lemma {:induction false} RebaseKeepsNesting(p: GatPath, q: GatPath, oldPrefix: GatPath, newPrefix: GatPath)
    requires IsOrUnder(p, oldPrefix) && IsOrUnder(q, oldPrefix)
    ensures IsOrUnder(p, q) <==>
            IsOrUnder(WithReplacedPrefix(p, oldPrefix, newPrefix), WithReplacedPrefix(q, oldPrefix, newPrefix))
  {
    hide IsOrUnder, WithReplacedPrefix, Components;
    var p', q' := WithReplacedPrefix(p, oldPrefix, newPrefix), WithReplacedPrefix(q, oldPrefix, newPrefix);
    RebaseIsComponentwise(p, oldPrefix, newPrefix);
    RebaseIsComponentwise(q, oldPrefix, newPrefix);
    UnderMeansComponentPrefix(p, q);
    UnderMeansComponentPrefix(p', q');
    var o, n := Components(oldPrefix), Components(newPrefix);
    var pRest, qRest := Components(p)[|o|..], Components(q)[|o|..];
    SharedPrefix(o, qRest, pRest);
    SharedPrefix(n, qRest, pRest);
    assert Components(p) == o + pRest && Components(q) == o + qRest;
  }

  lemma {:induction false} SharedPrefix<T>(base: seq<T>, a: seq<T>, b: seq<T>)
    ensures base + a <= base + b <==> a <= b
  {
    assert (base + a)[|base|..] == a && (base + b)[|base|..] == b;
    if base + a <= base + b {
      assert forall i :: 0 <= i < |a| ==> a[i] == (base + a)[|base| + i] == (base + b)[|base| + i] == b[i];
    }
  }

  // --------------------------------------------------------------- scopes

  datatype PathScope = RootScope | Scope(path: GatPath)

  /** The part of a row's path that a mount carries over to its target. */
  function ReparentRelative(scope: PathScope, candidate: GatPath): Option<Subpath>
  {
    match scope
    case RootScope => Some(Path(candidate))
    case Scope(path) => StripPrefix(candidate, path)
  }

  function Reparented(target: string, rel: Subpath): string
  {
    match rel
    case Root => target
    case Path(path) => JoinRel(target, path)
  }

  lemma {:induction false} ReparentsWhatIsInScope(scope: PathScope, candidate: GatPath)
    ensures ReparentRelative(scope, candidate).Some? <==> scope.RootScope? || IsOrUnder(candidate, scope.path)
  {
  }

  /** Rows selected under one scope land at or under the target, each on its own path. */
  lemma {:induction false} ReparentLandsInside(scope: PathScope, candidate: GatPath, target: GatPath)
    requires ReparentRelative(scope, candidate).Some?
    ensures var landed := Reparented(target, ReparentRelative(scope, candidate).value);
            && Canonical(landed) && IsOrUnder(landed, target)
            && match scope
               case RootScope => Components(landed) == Components(target) + Components(candidate)
               case Scope(path) =>
                 Components(path) <= Components(candidate) &&
                 Components(landed) == Components(target) + Components(candidate)[|Components(path)|..]
  {
    match scope
    case RootScope => JoinThenStrip(target, candidate);
    case Scope(path) => RebaseIsComponentwise(candidate, path, target);
  }

  lemma {:induction false} ReparentInjective(scope: PathScope, p: GatPath, q: GatPath, target: GatPath)
    requires ReparentRelative(scope, p).Some? && ReparentRelative(scope, q).Some?
    requires Reparented(target, ReparentRelative(scope, p).value) ==
             Reparented(target, ReparentRelative(scope, q).value)
    ensures p == q
  {
    match scope
    case RootScope =>
      JoinThenStrip(target, p);
      JoinThenStrip(target, q);
    case Scope(path) =>
      RebaseInjective(p, q, path, target);
  }

  // ------------------------------------------------------------- subpaths

  /** `.` names the root; anything else must be canonical. */
  function ParseSubpath(raw: string): Option<Subpath>
  {
    if raw == "." then Some(Root) else if Canonical(raw) then Some(Path(raw)) else None
  }

  function ShowSubpath(s: Subpath): string
  {
    match s
    case Root => "."
    case Path(path) => path
  }

  lemma {:induction false} SubpathRoundTrip(s: Subpath, raw: string)
    requires s.Path? ==> Canonical(s.path)
    ensures ParseSubpath(ShowSubpath(s)) == Some(s)
    ensures ParseSubpath(raw).Some? ==> ShowSubpath(ParseSubpath(raw).value) == raw
    ensures ParseSubpath(raw).Some? && ParseSubpath(raw).value.Path? ==> Canonical(raw)
  {
    SplitFree(IsSlash, ".");
    assert !GoodComponent(".");
    assert !GoodComponents(["."]) by { assert ["."][0] == "."; }
  }
}
