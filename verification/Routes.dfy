/** Storage routes: the most specific route above a path wins, whatever the routes are
    called and in whatever order they are visited (gat-core/src/config.rs). */
module Routes {
  import opened Text
  import opened LexicalPath
  import opened PathAlgebra
  import opened Mounts

  datatype Route = Route(path: GatPath, remote: Name)

  type RoutesConfig = map<Name, Route>

  datatype RouteError =
    | ReservedRouteName
    | RouteConflict(first: Name, second: Name, path: string)

  const RESERVED_DEFAULT_ROUTE_NAME: Name := "*"

  predicate DistinctPaths(routes: RoutesConfig)
  {
    forall a, b :: a in routes && b in routes && a != b ==> routes[a].path != routes[b].path
  }

  /** `n` is above `path` with the most components of all routes above it. */
  predicate IsWinner(routes: RoutesConfig, path: GatPath, n: Name)
  {
    && n in routes && IsOrUnder(path, routes[n].path)
    && forall m :: m in routes && IsOrUnder(path, routes[m].path) ==>
                     |Components(routes[m].path)| <= |Components(routes[n].path)|
  }

  /** Among the ancestors of one path, byte length and component count agree. */
  lemma {:induction false} LengthIsSpecificity(path: GatPath, a: GatPath, b: GatPath)
    requires IsOrUnder(path, a) && IsOrUnder(path, b)
    ensures ByteLen(a) <= ByteLen(b) <==> |Components(a)| <= |Components(b)|
    ensures ByteLen(a) == ByteLen(b) <==> a == b
    ensures |Components(a)| == |Components(b)| <==> a == b
  {
    AncestorsFormChain(path, a, b);
    if IsOrUnder(a, b) {
      DeeperIsLonger(a, b);
    } else {
      DeeperIsLonger(b, a);
    }
  }

  lemma {:induction false} DeeperIsLonger(deep: GatPath, shallow: GatPath)
    requires IsOrUnder(deep, shallow)
    ensures deep == shallow || (ByteLen(shallow) < ByteLen(deep) && |Components(shallow)| < |Components(deep)|)
  {
    StripIsDrop(deep, shallow);
    if deep != shallow {
      var rest := deep[|shallow|..];
      assert deep == shallow + rest && |rest| > 0;
      ByteLenConcat(shallow, rest);
    }
  }

  /** What may be answered to "which route serves this path". */
  ghost predicate RouteAnswer(routes: RoutesConfig, path: GatPath, r: Option<Name>)
  {
    match r
    case Some(n) => IsWinner(routes, path, n)
    case None => forall n :: n in routes ==> !IsOrUnder(path, routes[n].path)
  }

  /** `best`, visited at `at`, is the last of the longest among the first `upTo` visited. */
  ghost predicate BestSoFar(routes: RoutesConfig, order: seq<Name>, path: GatPath, upTo: nat, best: Option<Name>,
                            at: nat)
    requires upTo <= |order| && forall n :: n in order ==> n in routes
  {
    match best
    case None => forall k :: 0 <= k < upTo ==> !IsOrUnder(path, routes[order[k]].path)
    case Some(n) =>
      && at < upTo && order[at] == n && IsOrUnder(path, routes[n].path)
      && forall k :: 0 <= k < upTo && IsOrUnder(path, routes[order[k]].path) ==>
                       ByteLen(routes[order[k]].path) < ByteLen(routes[n].path) + (if k <= at then 1 else 0)
  }

  lemma {:induction false} BestStep(routes: RoutesConfig, order: seq<Name>, path: GatPath, i: nat, best: Option<Name>,
                                    at: nat)
    requires i < |order| && forall n :: n in order ==> n in routes
    requires BestSoFar(routes, order, path, i, best, at)
    ensures var candidate := routes[order[i]].path;
            if IsOrUnder(path, candidate) && (best.None? || ByteLen(routes[best.value].path) <= ByteLen(candidate))
            then BestSoFar(routes, order, path, i + 1, Some(order[i]), i)
            else BestSoFar(routes, order, path, i + 1, best, at)
  {
  }

  /** The last of the longest matching routes, in iteration order. */
  method RouteFor(routes: RoutesConfig, order: seq<Name>, path: GatPath) returns (best: Option<Name>)
    requires Enumerates(order, routes.Keys)
    ensures RouteAnswer(routes, path, best)
    ensures best.Some? ==> exists k :: 0 <= k < |order| && order[k] == best.value &&
                                       forall j :: k < j < |order| ==> !IsWinner(routes, path, order[j])
  {
    best := None;
    ghost var at := 0;
    for i := 0 to |order|
      invariant BestSoFar(routes, order, path, i, best, at)
    {
      BestStep(routes, order, path, i, best, at);
      var candidate := routes[order[i]].path;
      if IsOrUnder(path, candidate) {
        if best.None? || ByteLen(routes[best.value].path) <= ByteLen(candidate) {
          best := Some(order[i]);
          at := i;
        }
      }
    }
    if best.Some? {
      LongestIsWinner(routes, order, path, best.value, at);
    }
  }

  lemma {:induction false} LongestIsWinner(routes: RoutesConfig, order: seq<Name>, path: GatPath, best: Name, at: nat)
    requires Enumerates(order, routes.Keys)
    requires BestSoFar(routes, order, path, |order|, Some(best), at)
    ensures IsWinner(routes, path, best)
    ensures forall j :: at < j < |order| ==> !IsWinner(routes, path, order[j])
  {
    forall k | 0 <= k < |order| && IsOrUnder(path, routes[order[k]].path)
      ensures |Components(routes[order[k]].path)| <= |Components(routes[best].path)|
      ensures k > at ==> |Components(routes[order[k]].path)| < |Components(routes[best].path)|
    {
      LengthIsSpecificity(path, routes[order[k]].path, routes[best].path);
    }
  }

  lemma {:induction false} RouteAnswerUnique(routes: RoutesConfig, path: GatPath, a: Option<Name>, b: Option<Name>)
    requires DistinctPaths(routes)
    requires RouteAnswer(routes, path, a) && RouteAnswer(routes, path, b)
    ensures a == b
  {
    if a.Some? && b.Some? {
      WinnerUniqueIffDistinct(routes);
    }
  }

  /** Whole-set validation: the reserved name is free and no two routes share a path. */
  method ValidateRoutes(routes: RoutesConfig, order: seq<Name>) returns (r: Result<(), RouteError>)
    requires Enumerates(order, routes.Keys)
    ensures r.Ok? <==> RESERVED_DEFAULT_ROUTE_NAME !in routes && DistinctPaths(routes)
    ensures r == Err(ReservedRouteName) <==> RESERVED_DEFAULT_ROUTE_NAME in routes
    ensures r.Err? && r.error.RouteConflict? ==>
              && r.error.first in routes && r.error.second in routes && r.error.first != r.error.second
              && routes[r.error.first].path == routes[r.error.second].path == r.error.path
  {
    if RESERVED_DEFAULT_ROUTE_NAME in routes {
      return Err(ReservedRouteName);
    }
    hide DistinctPaths;
    var seen: map<string, Name> := map[];
    for i := 0 to |order|
      invariant Seen(routes, order, i, seen)
    {
      var name := order[i];
      var path := routes[name].path;
      if path in seen {
        DuplicateSeen(routes, order, i, seen);
        return Err(RouteConflict(seen[path], name, path));
      }
      seen := seen[path := name];
    }
    SeenAll(routes, order, seen);
    return Ok(());
  }

  /** `seen` maps the paths of the first `upTo` routes visited, all different, to their names. */
  ghost predicate Seen(routes: RoutesConfig, order: seq<Name>, upTo: nat, seen: map<string, Name>)
    requires upTo <= |order| && forall n :: n in order ==> n in routes
  {
    && (forall k :: 0 <= k < upTo ==> routes[order[k]].path in seen && seen[routes[order[k]].path] == order[k])
    && (forall p :: p in seen ==> seen[p] in order[..upTo] && seen[p] in routes && routes[seen[p]].path == p)
  }

  lemma {:induction false} DuplicateSeen(routes: RoutesConfig, order: seq<Name>, i: nat, seen: map<string, Name>)
    requires Enumerates(order, routes.Keys) && i < |order| && Seen(routes, order, i, seen)
    requires routes[order[i]].path in seen
    ensures seen[routes[order[i]].path] in routes && seen[routes[order[i]].path] != order[i]
    ensures routes[seen[routes[order[i]].path]].path == routes[order[i]].path
    ensures !DistinctPaths(routes)
  {
    var first := seen[routes[order[i]].path];
    var k :| 0 <= k < i && order[..i][k] == first;
    assert order[k] == first;
  }

  lemma {:induction false} SeenAll(routes: RoutesConfig, order: seq<Name>, seen: map<string, Name>)
    requires Enumerates(order, routes.Keys) && Seen(routes, order, |order|, seen)
    ensures DistinctPaths(routes)
  {
    forall a, b | a in routes && b in routes && a != b ensures routes[a].path != routes[b].path {
      var i :| 0 <= i < |order| && order[i] == a;
      var j :| 0 <= j < |order| && order[j] == b;
      assert seen[routes[order[i]].path] == a && seen[routes[order[j]].path] == b;
    }
  }

  /** Paths are distinct exactly when every lookup has at most one possible winner, so that
      neither names nor iteration order can matter. */
  lemma {:induction false} WinnerUniqueIffDistinct(routes: RoutesConfig)
    ensures DistinctPaths(routes) <==>
            forall path: GatPath, a, b | IsWinner(routes, path, a) && IsWinner(routes, path, b) :: a == b
  {
    if DistinctPaths(routes) {
      forall path: GatPath, a, b | IsWinner(routes, path, a) && IsWinner(routes, path, b) ensures a == b {
        LengthIsSpecificity(path, routes[a].path, routes[b].path);
      }
    } else {
      var a, b :| a in routes && b in routes && a != b && routes[a].path == routes[b].path;
      OwnPathWinner(routes, a, routes[a].path);
      OwnPathWinner(routes, b, routes[a].path);
    }
  }

  lemma {:induction false} OwnPathWinner(routes: RoutesConfig, n: Name, path: GatPath)
    requires n in routes && routes[n].path == path
    ensures IsWinner(routes, path, n)
  {
    UnderReflexive(path);
    forall m | m in routes && IsOrUnder(path, routes[m].path)
      ensures |Components(routes[m].path)| <= |Components(path)|
    {
      UnderMeansComponentPrefix(path, routes[m].path);
    }
  }
}
