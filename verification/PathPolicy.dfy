/** The indexed form of mount ownership and routing: a hash index keyed by path, probed
    along the query's own ancestors, answers what the linear scans over the configuration
    answer (gat-engine/src/path_policy.rs). */
module PathPolicy {
  import opened Text
  import opened LexicalPath
  import opened PathAlgebra
  import opened Mounts
  import opened Routes

  /** Dropping the last component reaches every proper ancestor. */
  lemma {:induction false} ParentCoversAncestors(p: string, k: string)
    requires IsOrUnder(p, k) && k != p
    ensures var slash := LastIndexOf(p, '/');
            slash.Some? && IsOrUnder(p, p[..slash.value]) && IsOrUnder(p[..slash.value], k)
  {
    assert p[|k|] == '/';
    hide IsOrUnder, Components, FromComponents;
    var i := LastIndexOf(p, '/').value;
    var init, last := p[..i], p[i + 1..];
    LastComponent(p, i);
    UnderMeansComponentPrefix(p, k);
    ComponentsRoundTrip(k);
    ComponentsRoundTrip(p);
    ProperPrefix(Components(k), Components(init), last);
    UnderMeansComponentPrefix(init, k);
    UnderMeansComponentPrefix(p, init);
  }

  lemma {:induction false} ProperPrefix<T>(a: seq<T>, init: seq<T>, last: T)
    requires a <= init + [last] && a != init + [last]
    ensures a <= init
  {
    assert |a| == |init| + 1 ==> a == init + [last];
  }

  lemma {:induction false} SingleComponent(p: string)
    requires '/' !in p
    ensures Components(p) == [p]
  {
    SplitFree(IsSlash, p);
  }

  lemma {:induction false} LastComponent(p: string, i: nat)
    requires i < |p| && p[i] == '/' && '/' !in p[i + 1..]
    ensures Components(p) == Components(p[..i]) + [p[i + 1..]]
  {
    assert p == p[..i] + "/" + p[i + 1..];
    ComponentsOfConcat(p[..i], p[i + 1..]);
    SingleComponent(p[i + 1..]);
  }

  /** Probe the path and then its ancestors, longest first. */
  method LongestPrefix<V>(entries: map<GatPath, V>, path: GatPath) returns (r: Option<string>)
    ensures r.None? <==> forall k :: k in entries ==> !IsOrUnder(path, k)
    ensures r.Some? ==> r.value in entries && IsOrUnder(path, r.value)
    ensures r.Some? ==> forall k :: k in entries && IsOrUnder(path, k) ==> IsOrUnder(r.value, k)
  {
    if entries == map[] {
      return None;
    }
    var prefix: string := path;
    while true
      invariant IsOrUnder(path, prefix)
      invariant forall k :: k in entries && IsOrUnder(path, k) ==> IsOrUnder(prefix, k)
      decreases |prefix|
    {
      if prefix in entries {
        return Some(prefix);
      }
      var slash := LastIndexOf(prefix, '/');
      forall k | k in entries && IsOrUnder(path, k)
        ensures slash.Some? && IsOrUnder(prefix[..slash.value], k)
      {
        ParentCoversAncestors(prefix, k);
      }
      if slash.None? {
        return None;
      }
      ParentIsAncestor(path, prefix, slash.value);
      prefix := prefix[..slash.value];
    }
  }

  lemma {:induction false} ParentIsAncestor(path: string, prefix: string, slash: nat)
    requires IsOrUnder(path, prefix) && slash < |prefix| && prefix[slash] == '/'
    ensures IsOrUnder(path, prefix[..slash])
  {
    assert prefix[slash..][0] == '/';
    UnderTransitive(path, prefix, prefix[..slash]);
  }

  /** A later entry with the same path replaces an earlier one. */
  function IndexOfPaths(paths: map<Name, GatPath>, order: seq<Name>): (index: map<GatPath, Name>)
    requires forall n :: n in order ==> n in paths
    ensures forall p :: p in index ==> index[p] in order && paths[index[p]] == p
    ensures forall n :: n in order ==> paths[n] in index
  {
    if order == [] then map[]
    else
      var init := order[..|order| - 1];
      var last := order[|order| - 1];
      assert order == init + [last];
      IndexOfPaths(paths, init)[paths[last] := last]
  }

  /** Compiled ownership exists exactly for valid configurations and inverts them. */
  method NewMountOwnership(mounts: MountsConfig, order: seq<Name>)
    returns (r: Result<map<GatPath, Name>, TargetOverlap>)
    requires Enumerates(order, mounts.Keys)
    ensures r.Ok? <==> NonOverlapping(mounts)
    ensures r.Ok? ==> Inverts(r.value, mounts)
  {
    var valid := ValidateEffective(mounts, order);
    if valid.Err? {
      return Err(valid.error);
    }
    return Ok(IndexOfPaths(mounts, order));
  }

  ghost predicate Inverts(index: map<GatPath, Name>, paths: map<Name, GatPath>)
  {
    && (forall p :: p in index ==> index[p] in paths && paths[index[p]] == p)
    && (forall n :: n in paths ==> paths[n] in index)
  }

  /** The indexed owner is the scanned owner. */
  method OwnerForPath(index: map<GatPath, Name>, ghost mounts: MountsConfig, path: GatPath)
    returns (owner: Option<Name>)
    requires Inverts(index, mounts)
    ensures OwnerAnswer(mounts, path, owner)
  {
    var key := LongestPrefix(index, path);
    return match key { case None => None case Some(k) => Some(index[k]) };
  }

  function RoutePaths(routes: RoutesConfig): map<Name, GatPath>
  {
    map n | n in routes :: routes[n].path
  }

  /** The indexed route is the winner of the scan, when the routes are valid. */
  method IndexedRouteFor(routes: RoutesConfig, order: seq<Name>, path: GatPath) returns (r: Option<Name>)
    requires Enumerates(order, routes.Keys)
    ensures RouteAnswer(routes, path, r)
  {
    var paths := RoutePaths(routes);
    var index := IndexOfPaths(paths, order);
    var key := LongestPrefix(index, path);
    if key.None? {
      assert forall n :: n in routes ==> paths[n] in index;
      return None;
    }
    var name := index[key.value];
    forall m | m in routes && IsOrUnder(path, routes[m].path)
      ensures |Components(routes[m].path)| <= |Components(routes[name].path)|
    {
      assert paths[m] in index;
      UnderMeansComponentPrefix(key.value, routes[m].path);
    }
    return Some(name);
  }
}
