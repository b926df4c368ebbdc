/** Mount ownership: pairwise target checks, the sort-and-stack validation that replaces
    them, and the runs of changes they guard (gat-core/src/config.rs). */
module Mounts {
  import opened Sorting
  import opened Text
  import opened LexicalPath
  import opened PathAlgebra

  // Of a mount's definition only its name and target take part. A map is visited in an order
  // given as a parameter, so every result below holds for any iteration order.

  type Name = string

  type MountsConfig = map<Name, GatPath>

  datatype Entry = Entry(name: Name, target: GatPath)

  datatype TargetOverlap = TargetOverlap(name: Option<Name>, target: string, otherName: Name, otherTarget: string)

  /** `order` lists each of `keys` once. */
  ghost predicate Enumerates(order: seq<Name>, keys: set<Name>)
  {
    && (forall n :: n in keys <==> n in order)
    && (forall i, j :: 0 <= i < j < |order| ==> order[i] != order[j])
  }

  /** No two mounts have equal, ancestor or descendant targets. */
  predicate NonOverlapping(mounts: MountsConfig)
  {
    forall a, b :: a in mounts && b in mounts && a != b ==> !Overlap(mounts[a], mounts[b])
  }

  // -------------------------------------------------------- pairwise check

  /** What `check_target` accepts. */
  predicate TargetFits(mounts: MountsConfig, target: GatPath, exclude: Option<Name>)
  {
    forall n :: n in mounts && Some(n) != exclude ==> !Overlap(target, mounts[n])
  }

  method CheckTarget(mounts: MountsConfig, order: seq<Name>, target: GatPath, exclude: Option<Name>)
    returns (r: Result<(), TargetOverlap>)
    requires Enumerates(order, mounts.Keys)
    ensures r.Ok? <==> TargetFits(mounts, target, exclude)
    ensures r.Err? ==>
              && r.error.name == exclude && r.error.target == target
              && r.error.otherName in mounts && r.error.otherTarget == mounts[r.error.otherName]
              && Some(r.error.otherName) != exclude && Overlap(target, mounts[r.error.otherName])
    ensures r.Err? ==>
              exists k :: 0 <= k < |order| && order[k] == r.error.otherName &&
                forall j :: 0 <= j < k && Some(order[j]) != exclude ==> !Overlap(target, mounts[order[j]])
  {
    for i := 0 to |order|
      invariant forall k :: 0 <= k < i && Some(order[k]) != exclude ==> !Overlap(target, mounts[order[k]])
    {
      var otherName := order[i];
      if Some(otherName) == exclude {
        continue;
      }
      var other := mounts[otherName];
      if IsOrUnder(target, other) || IsOrUnder(other, target) {
        return Err(TargetOverlap(exclude, target, otherName, other));
      }
    }
    return Ok(());
  }

  // ------------------------------------------------------------ validation

  /** The sort order of validation: by target, then by name. */
  predicate EntryLeq(a: Entry, b: Entry)
  {
    if a.target == b.target then Leq(a.name, b.name) else Leq(a.target, b.target)
  }

  predicate InOrder(s: seq<Entry>)
  {
    Sorted(EntryLeq, s)
  }

  lemma {:induction false} EntryLeqTransitive(a: Entry, b: Entry, c: Entry)
    requires EntryLeq(a, b) && EntryLeq(b, c)
    ensures EntryLeq(a, c)
  {
    if a.target == b.target && b.target == c.target {
      LeqTransitive(a.name, b.name, c.name);
    } else {
      LeqTransitive(a.target, b.target, c.target);
      LeqTotal(a.target, b.target);
    }
  }

  lemma {:induction false} EntryLeqTotal(a: Entry, b: Entry)
    ensures EntryLeq(a, b) || EntryLeq(b, a)
  {
    LeqTotal(a.target, b.target);
    LeqTotal(a.name, b.name);
  }

  /** The entries in sorted order; equal keys cannot occur, so stability does not matter. */
  function SortEntries(s: seq<Entry>): seq<Entry>
  {
    Sort(EntryLeq, s)
  }

  lemma {:induction false} EntryOrder()
    ensures TotalOrder(EntryLeq)
  {
    forall x, y ensures EntryLeq(x, y) || EntryLeq(y, x) {
      EntryLeqTotal(x, y);
    }
    forall x, y, z | EntryLeq(x, y) && EntryLeq(y, z) ensures EntryLeq(x, z) {
      EntryLeqTransitive(x, y, z);
    }
  }

  lemma {:induction false} SortEntriesSorts(s: seq<Entry>)
    ensures InOrder(SortEntries(s)) && multiset(SortEntries(s)) == multiset(s)
  {
    EntryOrder();
    SortSorts(EntryLeq, s);
    hide EntryLeq, Sort;
  }

  function EntriesOf(mounts: MountsConfig, order: seq<Name>): (r: seq<Entry>)
    requires forall n :: n in order ==> n in mounts
    ensures |r| == |order| && forall i :: 0 <= i < |r| ==> r[i] == Entry(order[i], mounts[order[i]])
  {
    seq(|order|, i requires 0 <= i < |order| => Entry(order[i], mounts[order[i]]))
  }

  /** Sorting the entries of a map gives each mount once. */
  lemma {:induction false} SortedEntriesComplete(mounts: MountsConfig, order: seq<Name>, ordered: seq<Entry>)
    requires Enumerates(order, mounts.Keys)
    requires multiset(ordered) == multiset(EntriesOf(mounts, order))
    ensures forall i :: 0 <= i < |ordered| ==> ordered[i].name in mounts && ordered[i].target == mounts[ordered[i].name]
    ensures forall n :: n in mounts ==> Entry(n, mounts[n]) in ordered
    ensures forall i, j :: 0 <= i < j < |ordered| ==> ordered[i].name != ordered[j].name
  {
    var entries := EntriesOf(mounts, order);
    forall i | 0 <= i < |ordered|
      ensures ordered[i].name in mounts && ordered[i].target == mounts[ordered[i].name]
    {
      assert ordered[i] in multiset(ordered);
      assert ordered[i] in entries;
    }
    forall n | n in mounts ensures Entry(n, mounts[n]) in ordered {
      var k :| 0 <= k < |order| && order[k] == n;
      assert entries[k] in multiset(entries);
    }
    NoRepeats(entries, ordered);
  }

  lemma {:induction false} NoRepeats<T>(s: seq<T>, t: seq<T>)
    requires multiset(s) == multiset(t)
    requires forall i, j :: 0 <= i < j < |s| ==> s[i] != s[j]
    ensures forall i, j :: 0 <= i < j < |t| ==> t[i] != t[j]
  {
    OnceEach(s);
    forall i, j | 0 <= i < j < |t| ensures t[i] != t[j] {
      assert t == t[..i] + [t[i]] + t[i + 1..j] + [t[j]] + t[j + 1..];
      assert t[i] in multiset(s);
    }
  }

  lemma {:induction false} OnceEach<T>(s: seq<T>)
    requires forall i, j :: 0 <= i < j < |s| ==> s[i] != s[j]
    ensures forall x :: multiset(s)[x] <= 1
  {
    if s != [] {
      OnceEach(s[1..]);
      assert s == [s[0]] + s[1..];
    }
  }

  /** `at` are the positions in `ordered` of the candidates still on the stack. */
  ghost predicate Stack(ordered: seq<Entry>, at: seq<int>, upTo: nat)
    requires upTo <= |ordered|
  {
    && (forall k :: 0 <= k < |at| ==> 0 <= at[k] < upTo)
    && (forall k, l :: 0 <= k < l < |at| ==> at[k] < at[l] && ordered[at[k]].target <= ordered[at[l]].target)
  }

  /** No mount off the stack is a string prefix of anything still to come. */
  ghost predicate Retired(ordered: seq<Entry>, at: seq<int>, upTo: nat)
    requires upTo <= |ordered|
  {
    forall a, b :: 0 <= a < upTo <= b < |ordered| && a !in at ==> !(ordered[a].target <= ordered[b].target)
  }

  ghost predicate Apart(ordered: seq<Entry>, upTo: nat)
    requires upTo <= |ordered|
  {
    forall a, b :: 0 <= a < b < upTo ==> !Overlap(ordered[a].target, ordered[b].target)
  }

  /** The stack holds the entries at those positions. */
  ghost predicate Mirrors(candidates: seq<Entry>, ordered: seq<Entry>, at: seq<int>)
  {
    |at| == |candidates| && forall k :: 0 <= k < |at| ==> 0 <= at[k] < |ordered| && candidates[k] == ordered[at[k]]
  }

  /** Popping a candidate that the next target does not extend loses nothing. */
  lemma {:induction false} PopRetires(ordered: seq<Entry>, candidates: seq<Entry>, at: seq<int>, i: nat)
    requires i < |ordered| && InOrder(ordered) && at != [] && Mirrors(candidates, ordered, at)
    requires Stack(ordered, at, i) && Retired(ordered, at, i)
    requires !(ordered[at[|at| - 1]].target <= ordered[i].target)
    ensures Mirrors(candidates[..|at| - 1], ordered, at[..|at| - 1])
    ensures Stack(ordered, at[..|at| - 1], i) && Retired(ordered, at[..|at| - 1], i)
  {
    hide EntryLeq, Leq, InOrder;
    var top := at[|at| - 1];
    var rest := at[..|at| - 1];
    forall a, b | 0 <= a < i <= b < |ordered| && a !in rest
      ensures !(ordered[a].target <= ordered[b].target)
    {
      if a == top {
        SortedTargets(ordered, top, i);
        SortedTargets(ordered, i, b);
        PrefixPassed(ordered[a].target, ordered[i].target, ordered[b].target);
      } else {
        assert at == rest + [top];
      }
    }
  }

  lemma {:induction false} SortedTargets(ordered: seq<Entry>, a: nat, b: nat)
    requires InOrder(ordered) && a <= b < |ordered|
    ensures Leq(ordered[a].target, ordered[b].target)
  {
    PrefixLeq(ordered[a].target, ordered[a].target);
    assert a < b ==> EntryLeq(ordered[a], ordered[b]);
  }

  /** Why testing the top of the stack is enough: a string prefix of the target that is
      longer than a component ancestor of it lies under that ancestor itself. */
  lemma {:induction false} LongerPrefixIsUnder(ancestor: string, top: string, target: string)
    requires ancestor <= top <= target && IsOrUnder(target, ancestor)
    ensures top == ancestor || IsOrUnder(top, ancestor)
  {
    if |ancestor| < |top| {
      assert top[|ancestor|..][0] == target[|ancestor|..][0] == '/';
    } else {
      assert top == ancestor;
    }
  }

  lemma {:induction false} PrefixesOverlapOneWay(q: string, t: string)
    requires Leq(q, t) && Overlap(q, t)
    ensures q <= t && IsOrUnder(t, q)
  {
    if t <= q {
      PrefixLeq(t, q);
      LeqTotal(q, t);
    }
  }

  lemma {:induction false} TopDecides(ordered: seq<Entry>, at: seq<int>, i: nat, a: nat)
    requires a < i < |ordered| && InOrder(ordered)
    requires Stack(ordered, at, i) && Retired(ordered, at, i) && Apart(ordered, i)
    requires at != [] ==> ordered[at[|at| - 1]].target <= ordered[i].target
    requires at != [] ==> !IsOrUnder(ordered[i].target, ordered[at[|at| - 1]].target)
    ensures !Overlap(ordered[a].target, ordered[i].target)
  {
    hide IsOrUnder, Leq, InOrder;
    var q, t := ordered[a].target, ordered[i].target;
    SortedTargets(ordered, a, i);
    if Overlap(q, t) {
      PrefixesOverlapOneWay(q, t);
      var k :| 0 <= k < |at| && at[k] == a;
      var topAt := at[|at| - 1];
      LongerPrefixIsUnder(q, ordered[topAt].target, t);
    }
  }

  lemma {:induction false} ApartGrows(ordered: seq<Entry>, i: nat)
    requires i < |ordered| && Apart(ordered, i)
    requires forall a :: 0 <= a < i ==> !Overlap(ordered[a].target, ordered[i].target)
    ensures Apart(ordered, i + 1)
  {
    forall a, b | 0 <= a < b < i + 1 ensures !Overlap(ordered[a].target, ordered[b].target) {
    }
  }

  lemma {:induction false} PushKeeps(ordered: seq<Entry>, candidates: seq<Entry>, at: seq<int>, i: nat)
    requires i < |ordered| && Mirrors(candidates, ordered, at) && Stack(ordered, at, i) && Retired(ordered, at, i)
    requires at != [] ==> ordered[at[|at| - 1]].target <= ordered[i].target
    ensures Mirrors(candidates + [ordered[i]], ordered, at + [i])
    ensures Stack(ordered, at + [i], i + 1) && Retired(ordered, at + [i], i + 1)
  {
    hide Mirrors, Stack, Retired;
    PushStack(ordered, candidates, at, i);
    PushRetired(ordered, at, i);
  }

  lemma {:induction false} PushStack(ordered: seq<Entry>, candidates: seq<Entry>, at: seq<int>, i: nat)
    requires i < |ordered| && Mirrors(candidates, ordered, at) && Stack(ordered, at, i)
    requires at != [] ==> ordered[at[|at| - 1]].target <= ordered[i].target
    ensures Mirrors(candidates + [ordered[i]], ordered, at + [i]) && Stack(ordered, at + [i], i + 1)
  {
  }

  lemma {:induction false} PushRetired(ordered: seq<Entry>, at: seq<int>, i: nat)
    requires i < |ordered| && Retired(ordered, at, i)
    ensures Retired(ordered, at + [i], i + 1)
  {
    forall a, b | 0 <= a < i + 1 <= b < |ordered| && a !in at + [i]
      ensures !(ordered[a].target <= ordered[b].target)
    {
      assert (at + [i])[|at|] == i;
      assert forall k :: 0 <= k < |at| ==> (at + [i])[k] == at[k];
    }
  }

  /** Sort, scan, and report the first clash. */
  method ValidateEffective(mounts: MountsConfig, order: seq<Name>) returns (r: Result<(), TargetOverlap>)
    requires Enumerates(order, mounts.Keys)
    ensures r.Ok? <==> NonOverlapping(mounts)
    ensures r.Err? ==>
              && r.error.name.Some? && r.error.name.value in mounts && r.error.otherName in mounts
              && r.error.name.value != r.error.otherName
              && r.error.target == mounts[r.error.name.value] && r.error.otherTarget == mounts[r.error.otherName]
              && IsOrUnder(r.error.target, r.error.otherTarget)
  {
    hide IsOrUnder, EntryLeq, InOrder, SortEntries, Apart;
    var ordered := SortEntries(EntriesOf(mounts, order));
    SortEntriesSorts(EntriesOf(mounts, order));
    SortedEntriesComplete(mounts, order, ordered);
    var clash := ScanTargets(ordered);
    if clash.Some? {
      var (mount, other) := clash.value;
      return Err(TargetOverlap(Some(mount.name), mount.target, other.name, other.target));
    }
    ApartMeansValid(mounts, ordered);
    return Ok(());
  }

  /** Keep a stack of string prefixes and test each target against its top only. */
  method ScanTargets(ordered: seq<Entry>) returns (clash: Option<(Entry, Entry)>)
    requires InOrder(ordered)
    ensures clash.None? ==> Apart(ordered, |ordered|)
    ensures clash.Some? ==> exists i, j :: 0 <= j < i < |ordered| && clash.value == (ordered[i], ordered[j]) &&
                                           IsOrUnder(ordered[i].target, ordered[j].target)
  {
    hide IsOrUnder, Overlap, EntryLeq, InOrder, Retired;
    var candidates: seq<Entry> := [];
    ghost var at: seq<int> := [];
    EmptyStack(ordered);
    for i := 0 to |ordered|
      invariant Mirrors(candidates, ordered, at)
      invariant Stack(ordered, at, i) && Retired(ordered, at, i) && Apart(ordered, i)
    {
      var mount := ordered[i];
      candidates, at := PopUnextended(mount, candidates, ordered, at, i);
      if candidates != [] {
        var other := candidates[|candidates| - 1];
        if IsOrUnder(mount.target, other.target) {
          return Some((mount, other));
        }
      }
      StepKeeps(ordered, candidates, at, i);
      candidates := candidates + [mount];
      at := at + [i];
    }
    return None;
  }

  lemma {:induction false} EmptyStack(ordered: seq<Entry>)
    ensures Mirrors([], ordered, []) && Stack(ordered, [], 0) && Retired(ordered, [], 0) && Apart(ordered, 0)
  {
  }

  lemma {:induction false} StepKeeps(ordered: seq<Entry>, candidates: seq<Entry>, at: seq<int>, i: nat)
    requires i < |ordered| && InOrder(ordered) && Mirrors(candidates, ordered, at)
    requires Stack(ordered, at, i) && Retired(ordered, at, i) && Apart(ordered, i)
    requires at != [] ==> ordered[at[|at| - 1]].target <= ordered[i].target
    requires at != [] ==> !IsOrUnder(ordered[i].target, ordered[at[|at| - 1]].target)
    ensures Mirrors(candidates + [ordered[i]], ordered, at + [i])
    ensures Stack(ordered, at + [i], i + 1) && Retired(ordered, at + [i], i + 1) && Apart(ordered, i + 1)
  {
    hide IsOrUnder, Overlap, InOrder, Retired, Apart, Mirrors;
    forall a | 0 <= a < i ensures !Overlap(ordered[a].target, ordered[i].target) {
      TopDecides(ordered, at, i, a);
    }
    ApartGrows(ordered, i);
    PushKeeps(ordered, candidates, at, i);
  }

  /** Drop candidates until one is a string prefix of the next target. */
  method PopUnextended(mount: Entry, stack: seq<Entry>, ghost ordered: seq<Entry>, ghost stackAt: seq<int>,
                       ghost i: nat)
    returns (candidates: seq<Entry>, ghost at: seq<int>)
    requires i < |ordered| && ordered[i] == mount && InOrder(ordered)
    requires Mirrors(stack, ordered, stackAt) && Stack(ordered, stackAt, i) && Retired(ordered, stackAt, i)
    ensures candidates <= stack
    ensures candidates != [] ==> candidates[|candidates| - 1].target <= mount.target
    ensures Mirrors(candidates, ordered, at) && Stack(ordered, at, i) && Retired(ordered, at, i)
  {
    hide Retired, InOrder;
    candidates, at := stack, stackAt;
    while candidates != [] && !(candidates[|candidates| - 1].target <= mount.target)
      invariant candidates <= stack
      invariant Mirrors(candidates, ordered, at) && Stack(ordered, at, i) && Retired(ordered, at, i)
    {
      PopRetires(ordered, candidates, at, i);
      candidates, at := candidates[..|candidates| - 1], at[..|at| - 1];
    }
  }

  lemma {:induction false} ApartMeansValid(mounts: MountsConfig, ordered: seq<Entry>)
    requires Apart(ordered, |ordered|)
    requires forall n :: n in mounts ==> Entry(n, mounts[n]) in ordered
    ensures NonOverlapping(mounts)
  {
    forall a, b | a in mounts && b in mounts && a != b ensures !Overlap(mounts[a], mounts[b]) {
      var i :| 0 <= i < |ordered| && ordered[i] == Entry(a, mounts[a]);
      var j :| 0 <= j < |ordered| && ordered[j] == Entry(b, mounts[b]);
    }
  }

  /** The whole-set check means the pairwise check of every mount against the others. */
  lemma {:induction false} ValidMeansEveryTargetFits(mounts: MountsConfig)
    ensures NonOverlapping(mounts) <==> forall n :: n in mounts ==> TargetFits(mounts, mounts[n], Some(n))
  {
    if forall n :: n in mounts ==> TargetFits(mounts, mounts[n], Some(n)) {
      forall a, b | a in mounts && b in mounts && a != b ensures !Overlap(mounts[a], mounts[b]) {
        assert TargetFits(mounts, mounts[a], Some(a));
      }
    }
  }

  // ------------------------------------------------------------- ownership

  /** What may be answered to "who owns this path". */
  ghost predicate OwnerAnswer(mounts: MountsConfig, path: GatPath, owner: Option<Name>)
  {
    match owner
    case Some(n) => n in mounts && IsOrUnder(path, mounts[n])
    case None => forall n :: n in mounts ==> !IsOrUnder(path, mounts[n])
  }

  /** The first mount, in iteration order, at or above a path. */
  method OwnerOf(mounts: MountsConfig, order: seq<Name>, path: GatPath) returns (owner: Option<Name>)
    requires Enumerates(order, mounts.Keys)
    ensures OwnerAnswer(mounts, path, owner)
    ensures owner.Some? ==> exists k :: 0 <= k < |order| && order[k] == owner.value &&
                                        forall j :: 0 <= j < k ==> !IsOrUnder(path, mounts[order[j]])
  {
    for i := 0 to |order|
      invariant forall k :: 0 <= k < i ==> !IsOrUnder(path, mounts[order[k]])
    {
      if IsOrUnder(path, mounts[order[i]]) {
        return Some(order[i]);
      }
    }
    return None;
  }

  /** Without overlaps a path has at most one owner, so no iteration order, no choice of
      names and no way of looking it up can change the answer. */
  lemma {:induction false} OwnerAnswerUnique(mounts: MountsConfig, path: GatPath, a: Option<Name>, b: Option<Name>)
    requires NonOverlapping(mounts)
    requires OwnerAnswer(mounts, path, a) && OwnerAnswer(mounts, path, b)
    ensures a == b
  {
    if a.Some? && b.Some? {
      AncestorsFormChain(path, mounts[a.value], mounts[b.value]);
    }
  }

  /** And only then: any overlap leaves some path with two owners. */
  lemma {:induction false} OverlapGivesTwoOwners(mounts: MountsConfig)
    requires !NonOverlapping(mounts)
    ensures exists a, b, path: GatPath :: a in mounts && b in mounts && a != b &&
                                 IsOrUnder(path, mounts[a]) && IsOrUnder(path, mounts[b])
  {
    var a, b :| a in mounts && b in mounts && a != b && Overlap(mounts[a], mounts[b]);
    var path: GatPath := if IsOrUnder(mounts[a], mounts[b]) then mounts[a] else mounts[b];
    UnderReflexive(path);
    assert IsOrUnder(path, mounts[a]) && IsOrUnder(path, mounts[b]);
  }

  // ------------------------------------------------------------------ runs

  datatype Change =
    | Add(name: Name, target: GatPath)
    | Update(name: Name, target: GatPath)
    | Remove(name: Name)

  /** Adds need a fresh name; adds and updates need a target that fits beside the others. */
  predicate Allowed(mounts: MountsConfig, change: Change)
  {
    match change
    case Add(name, target) => name !in mounts && TargetFits(mounts, target, None)
    case Update(name, target) => name in mounts && TargetFits(mounts, target, Some(name))
    case Remove(name) => name in mounts
  }

  function Apply(mounts: MountsConfig, change: Change): MountsConfig
  {
    match change
    case Add(name, target) => mounts[name := target]
    case Update(name, target) => mounts[name := target]
    case Remove(name) => mounts - {name}
  }

  /** A refused change leaves the configuration as it is. */
  function Run(mounts: MountsConfig, changes: seq<Change>): MountsConfig
    decreases |changes|
  {
    if changes == [] then mounts
    else Run(if Allowed(mounts, changes[0]) then Apply(mounts, changes[0]) else mounts, changes[1..])
  }

  /** Checking one target against the others is as strong as validating everything again. */
  lemma {:induction false} IncrementalCheckIsComplete(mounts: MountsConfig, name: Name, target: GatPath)
    requires NonOverlapping(mounts)
    ensures TargetFits(mounts, target, Some(name)) <==> NonOverlapping(mounts[name := target])
    ensures name !in mounts ==> (TargetFits(mounts, target, None) <==> NonOverlapping(mounts[name := target]))
  {
    var after := mounts[name := target];
    assert forall n :: n in mounts && n != name ==> after[n] == mounts[n];
    if NonOverlapping(after) {
      forall n | n in mounts && n != name ensures !Overlap(target, mounts[n]) {
        assert !Overlap(after[name], after[n]);
      }
    }
  }

  /** Whether the name suits the change. */
  predicate NameFits(mounts: MountsConfig, change: Change)
  {
    change.name !in mounts <==> change.Add?
  }

  /** A change is allowed exactly when its name suits it and its outcome would be valid. */
  lemma {:induction false} AllowedExactly(mounts: MountsConfig, change: Change)
    requires NonOverlapping(mounts)
    ensures Allowed(mounts, change) <==> NameFits(mounts, change) && NonOverlapping(Apply(mounts, change))
  {
    if !change.Remove? {
      IncrementalCheckIsComplete(mounts, change.name, change.target);
    }
  }

  function Lookup(mounts: MountsConfig, name: Name): Option<GatPath>
  {
    if name in mounts then Some(mounts[name]) else None
  }

  /** The target a change leaves its name with. */
  function Outcome(change: Change): Option<GatPath>
  {
    if change.Remove? then None else Some(change.target)
  }

  /** The last change of a run that concerns `name` and was allowed when its turn came. */
  function LastOf(mounts: MountsConfig, changes: seq<Change>, name: Name): (r: Option<nat>)
    ensures r.Some? ==> r.value < |changes|
  {
    if changes == [] then None
    else
      var n := |changes| - 1;
      if changes[n].name == name && Allowed(Run(mounts, changes[..n]), changes[n]) then Some(n)
      else LastOf(mounts, changes[..n], name)
  }

  lemma {:induction false} RunSnoc(mounts: MountsConfig, changes: seq<Change>)
    requires changes != []
    ensures var before, last := Run(mounts, changes[..|changes| - 1]), changes[|changes| - 1];
            Run(mounts, changes) == if Allowed(before, last) then Apply(before, last) else before
    decreases |changes|
  {
    hide Allowed, Apply;
    if |changes| > 1 {
      var first := if Allowed(mounts, changes[0]) then Apply(mounts, changes[0]) else mounts;
      assert changes[1..][..|changes| - 2] == changes[..|changes| - 1][1..];
      RunSnoc(first, changes[1..]);
    }
  }

  /** After a run each name stands as its last allowed change left it, or as it was. */
  lemma {:induction false} RunRemembersLast(mounts: MountsConfig, changes: seq<Change>, name: Name)
    ensures Lookup(Run(mounts, changes), name) ==
            match LastOf(mounts, changes, name)
            case Some(n) => Outcome(changes[n])
            case None => Lookup(mounts, name)
  {
    if changes != [] {
      var n := |changes| - 1;
      RunSnoc(mounts, changes);
      hide Run, Allowed;
      RunRemembersLast(mounts, changes[..n], name);
      ApplyOutcome(Run(mounts, changes[..n]), changes[n], name);
      hide Apply, Lookup, Outcome;
    }
  }

  lemma {:induction false} ApplyOutcome(mounts: MountsConfig, change: Change, name: Name)
    ensures Lookup(Apply(mounts, change), name) == if change.name == name then Outcome(change) else Lookup(mounts, name)
  {
  }

  /** Every reachable configuration is free of overlaps and gives each path at most one owner. */
  lemma {:induction false} RunsStayValid(mounts: MountsConfig, changes: seq<Change>)
    requires NonOverlapping(mounts)
    ensures NonOverlapping(Run(mounts, changes))
    ensures var end := Run(mounts, changes);
            forall path: GatPath, a, b |
              a in end && b in end && IsOrUnder(path, end[a]) && IsOrUnder(path, end[b]) :: a == b
    decreases |changes|
  {
    if changes == [] {
      forall path: GatPath, a, b |
        a in mounts && b in mounts && IsOrUnder(path, mounts[a]) && IsOrUnder(path, mounts[b])
        ensures a == b
      {
        OwnerAnswerUnique(mounts, path, Some(a), Some(b));
      }
    } else {
      var change := changes[0];
      if Allowed(mounts, change) {
        match change {
          case Add(name, target) => IncrementalCheckIsComplete(mounts, name, target);
          case Update(name, target) => IncrementalCheckIsComplete(mounts, name, target);
          case Remove(name) =>
        }
        RunsStayValid(Apply(mounts, change), changes[1..]);
      } else {
        RunsStayValid(mounts, changes[1..]);
      }
    }
  }
}
