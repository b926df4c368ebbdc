/** Removing rows by path: scanning the desired state, crediting each row to a selector, and
    the compressed plan that is published
    (gat-command/src/remove.rs, gat-io/src/state/repository.rs). */
module Removal {
  import opened Text
  import opened LexicalPath
  import opened PathAlgebra
  import opened Globs
  import opened CandidateSpan

  datatype Selector = PrefixSel(path: GatPath) | RootSel | GlobSel(glob: Glob)

  /** A selector whose pattern, if it is one, was compiled from a canonical path. */
  predicate FromArgument(s: Selector)
  {
    s.GlobSel? ==> ValidGlob(s.glob) && Canonical(s.glob.text)
  }

  predicate Selects(s: Selector, row: string)
  {
    match s
    case RootSel => true
    case PrefixSel(path) => IsOrUnder(row, path)
    case GlobSel(glob) => Matches(glob, row)
  }

  // ------------------------------------------------------ naming selectors

  datatype SelectError = BadPattern(error: GlobError) | Owned(path: string)

  /** A path names existing rows before it is read as a pattern. */
  ghost predicate NamesRows(path: string, rows: seq<GatPath>)
  {
    exists i :: 0 <= i < |rows| && IsOrUnder(rows[i], path)
  }

  method AnySubtree(rows: seq<GatPath>, path: string) returns (found: bool)
    ensures found <==> NamesRows(path, rows)
  {
    for i := 0 to |rows|
      invariant forall k :: 0 <= k < i ==> !IsOrUnder(rows[k], path)
    {
      if IsOrUnder(rows[i], path) {
        return true;
      }
    }
    return false;
  }

  /** What one argument stands for, or why it is refused. */
  ghost predicate Named(scope: PathScope, rows: seq<GatPath>, owned: string -> bool, r: Result<Selector, SelectError>)
  {
    match scope
    case RootScope => r == Ok(RootSel)
    case Scope(path) =>
      if !Free(IsMeta, path) && !NamesRows(path, rows) then
        if Compile(path).Some? then r.Ok? && r.value.GlobSel? && r.value.glob.text == path && FromArgument(r.value)
        else r == Err(BadPattern(InvalidGlobSyntax(path)))
      else r == if owned(path) then Err(Owned(path)) else Ok(PrefixSel(path))
  }

  method NameSelector(scope: PathScope, rows: seq<GatPath>, owned: string -> bool)
    returns (r: Result<Selector, SelectError>)
    ensures Named(scope, rows, owned, r)
  {
    hide FirstMetaIndex, Compile, NamesRows;
    if scope.RootScope? {
      return Ok(RootSel);
    }
    var path := scope.path;
    if FirstMetaIndex(path).Some? {
      var named := AnySubtree(rows, path);
      if !named {
        var glob := FromPath(path);
        return if glob.Ok? then Ok(GlobSel(glob.value)) else Err(BadPattern(glob.error));
      }
    }
    return if owned(path) then Err(Owned(path)) else Ok(PrefixSel(path));
  }

  // --------------------------------------------------------------- crediting

  /** The first selector that selects the row, and alone is credited with it. */
  function Credit(selectors: seq<Selector>, row: string): (r: Option<nat>)
    ensures r.Some? ==> r.value < |selectors| && Selects(selectors[r.value], row)
    ensures r.Some? ==> forall i :: 0 <= i < r.value ==> !Selects(selectors[i], row)
    ensures r.None? ==> forall i :: 0 <= i < |selectors| ==> !Selects(selectors[i], row)
  {
    if selectors == [] then None
    else
      match Credit(selectors[..|selectors| - 1], row)
      case Some(i) => Some(i)
      case None => if Selects(selectors[|selectors| - 1], row) then Some(|selectors| - 1) else None
  }

  function Select<T>(keep: T -> bool, s: seq<T>): seq<T>
  {
    if s == [] then []
    else Select(keep, s[..|s| - 1]) + if keep(s[|s| - 1]) then [s[|s| - 1]] else []
  }

  lemma {:induction false} SelectIs<T>(keep: T -> bool, s: seq<T>, x: T)
    ensures x in Select(keep, s) <==> x in s && keep(x)
  {
    if s != [] {
      SelectIs(keep, s[..|s| - 1], x);
      assert s == s[..|s| - 1] + [s[|s| - 1]];
    }
  }

  /** Narrowing first changes nothing when all that is wanted is inside. */
  lemma {:induction false} SelectNarrowed<T>(inside: T -> bool, wanted: T -> bool, s: seq<T>)
    requires forall i :: 0 <= i < |s| && wanted(s[i]) ==> inside(s[i])
    ensures Select(wanted, Select(inside, s)) == Select(wanted, s)
  {
    if s != [] {
      var init, last := s[..|s| - 1], s[|s| - 1];
      SelectNarrowed(inside, wanted, init);
      SelectSnoc(wanted, Select(inside, init), last);
      assert Select(inside, init) + [] == Select(inside, init) && Select(wanted, init) + [] == Select(wanted, init);
    }
  }

  lemma {:induction false} SelectSnoc<T>(keep: T -> bool, s: seq<T>, x: T)
    ensures Select(keep, s + [x]) == Select(keep, s) + if keep(x) then [x] else []
  {
    assert (s + [x])[..|s|] == s;
  }

  predicate Distinct<T(==)>(s: seq<T>)
  {
    forall i, j :: 0 <= i < j < |s| ==> s[i] != s[j]
  }

  lemma {:induction false} SelectDistinct<T>(keep: T -> bool, s: seq<T>)
    requires Distinct(s)
    ensures Distinct(Select(keep, s))
  {
    if s != [] {
      var init, last := s[..|s| - 1], s[|s| - 1];
      SelectDistinct(keep, init);
      SelectIs(keep, init, last);
    }
  }

  /** The rows credited to selector `i`, in scan order. */
  function CreditedTo(selectors: seq<Selector>, i: nat, rows: seq<GatPath>): seq<GatPath>
  {
    Select((row: GatPath) => Credit(selectors, row) == Some(i), rows)
  }

  /** The first row credited to selector `i` that a mount owns. */
  function FirstOwned(selectors: seq<Selector>, i: nat, rows: seq<GatPath>, owned: string -> bool): Option<GatPath>
  {
    var hits := Select((row: GatPath) => Credit(selectors, row) == Some(i) && owned(row), rows);
    if hits == [] then None else Some(hits[0])
  }

  /** Some selected row belongs to a mount. */
  ghost predicate TouchesMount(selectors: seq<Selector>, rows: seq<GatPath>, owned: string -> bool)
  {
    exists k :: 0 <= k < |rows| && Credit(selectors, rows[k]).Some? && owned(rows[k])
  }

  // ---------------------------------------------------------------- the scan

  /** What the scan holds after the first `n` rows. */
  ghost predicate ScannedRows(selectors: seq<Selector>, rows: seq<GatPath>, owned: string -> bool,
                              removed: seq<seq<GatPath>>, firstOwned: seq<Option<GatPath>>, kept: seq<GatPath>)
  {
    && |removed| == |selectors| == |firstOwned|
    && (forall i :: 0 <= i < |selectors| ==> Slot(selectors, i, rows, owned, removed[i], firstOwned[i]))
    && Leaves(selectors, rows, owned, kept)
  }

  ghost predicate Slot(selectors: seq<Selector>, i: nat, rows: seq<GatPath>, owned: string -> bool,
                       removed: seq<GatPath>, firstOwned: Option<GatPath>)
  {
    && firstOwned == FirstOwned(selectors, i, rows, owned)
    && (firstOwned.None? ==> removed == CreditedTo(selectors, i, rows))
  }

  /** The rows no selector selects. */
  function Unselected(selectors: seq<Selector>, rows: seq<GatPath>): seq<GatPath>
  {
    Select((row: GatPath) => Credit(selectors, row).None?, rows)
  }

  ghost predicate Leaves(selectors: seq<Selector>, rows: seq<GatPath>, owned: string -> bool, kept: seq<GatPath>)
  {
    !TouchesMount(selectors, rows, owned) ==> kept == Unselected(selectors, rows)
  }

  /** One pass over the rows; returns what each selector is credited with, its first row that
      a mount owns, and the rows left. */
  method ScanRows(selectors: seq<Selector>, rows: seq<GatPath>, owned: string -> bool)
    returns (removed: seq<seq<GatPath>>, firstOwned: seq<Option<GatPath>>, kept: seq<GatPath>)
    ensures ScannedRows(selectors, rows, owned, removed, firstOwned, kept)
  {
    hide Credit, ScannedRows;
    removed := seq(|selectors|, _ => []);
    firstOwned := seq(|selectors|, _ => None);
    kept := [];
    ScanNothing(selectors, owned);
    for n := 0 to |rows|
      invariant |removed| == |selectors| == |firstOwned|
      invariant ScannedRows(selectors, rows[..n], owned, removed, firstOwned, kept)
    {
      var row := rows[n];
      assert rows[..n + 1] == rows[..n] + [row];
      ScanRow(selectors, rows[..n], row, owned, removed, firstOwned, kept);
      match Credit(selectors, row)
      case None => kept := kept + [row];
      case Some(index) =>
        if firstOwned[index].None? && owned(row) {
          firstOwned := firstOwned[index := Some(row)];
          kept := kept + [row];
        } else {
          removed := removed[index := removed[index] + [row]];
        }
    }
    assert rows[..|rows|] == rows;
  }

  lemma {:induction false} ScanNothing(selectors: seq<Selector>, owned: string -> bool)
    ensures ScannedRows(selectors, [], owned, seq(|selectors|, _ => []), seq(|selectors|, _ => None), [])
  {
  }

  lemma {:induction false} CreditedSnoc(selectors: seq<Selector>, i: nat, rows: seq<GatPath>, row: GatPath)
    ensures CreditedTo(selectors, i, rows + [row]) ==
            CreditedTo(selectors, i, rows) + if Credit(selectors, row) == Some(i) then [row] else []
  {
    hide Credit;
    SelectSnoc((r: GatPath) => Credit(selectors, r) == Some(i), rows, row);
  }

  lemma {:induction false} FirstOwnedSnoc(selectors: seq<Selector>, i: nat, rows: seq<GatPath>, row: GatPath,
                                          owned: string -> bool)
    ensures FirstOwned(selectors, i, rows + [row], owned) ==
            if FirstOwned(selectors, i, rows, owned).None? && Credit(selectors, row) == Some(i) && owned(row)
            then Some(row)
            else FirstOwned(selectors, i, rows, owned)
  {
    hide Credit;
    SelectSnoc((r: GatPath) => Credit(selectors, r) == Some(i) && owned(r), rows, row);
  }

  lemma {:induction false} TouchesSnoc(selectors: seq<Selector>, rows: seq<GatPath>, row: GatPath,
                                       owned: string -> bool)
    ensures TouchesMount(selectors, rows + [row], owned) <==>
            TouchesMount(selectors, rows, owned) || (Credit(selectors, row).Some? && owned(row))
  {
    hide Credit;
    if k :| 0 <= k < |rows| && Credit(selectors, rows[k]).Some? && owned(rows[k]) {
      assert (rows + [row])[k] == rows[k];
    }
    assert (rows + [row])[|rows|] == row;
  }

  lemma {:induction false} ScanRow(selectors: seq<Selector>, rows: seq<GatPath>, row: GatPath, owned: string -> bool,
                                   removed: seq<seq<GatPath>>, firstOwned: seq<Option<GatPath>>, kept: seq<GatPath>)
    requires ScannedRows(selectors, rows, owned, removed, firstOwned, kept)
    ensures match Credit(selectors, row)
            case None => ScannedRows(selectors, rows + [row], owned, removed, firstOwned, kept + [row])
            case Some(i) =>
              if firstOwned[i].None? && owned(row) then
                ScannedRows(selectors, rows + [row], owned, removed, firstOwned[i := Some(row)], kept + [row])
              else ScannedRows(selectors, rows + [row], owned, removed[i := removed[i] + [row]], firstOwned, kept)
  {
    hide Credit, Slot, Leaves;
    var credit := Credit(selectors, row);
    forall i | 0 <= i < |selectors| && credit != Some(i)
      ensures Slot(selectors, i, rows + [row], owned, removed[i], firstOwned[i])
    {
      SlotStep(selectors, i, rows, row, owned, removed[i], firstOwned[i]);
    }
    if credit.Some? {
      SlotStep(selectors, credit.value, rows, row, owned, removed[credit.value], firstOwned[credit.value]);
    }
    LeavesStep(selectors, rows, row, owned, kept);
  }

  lemma {:induction false} SlotStep(selectors: seq<Selector>, i: nat, rows: seq<GatPath>, row: GatPath,
                                    owned: string -> bool,
                                    removed: seq<GatPath>, firstOwned: Option<GatPath>)
    requires Slot(selectors, i, rows, owned, removed, firstOwned)
    ensures if Credit(selectors, row) != Some(i) then Slot(selectors, i, rows + [row], owned, removed, firstOwned)
            else if firstOwned.None? && owned(row) then Slot(selectors, i, rows + [row], owned, removed, Some(row))
            else Slot(selectors, i, rows + [row], owned, removed + [row], firstOwned)
  {
    hide Credit, CreditedTo, FirstOwned;
    CreditedSnoc(selectors, i, rows, row);
    FirstOwnedSnoc(selectors, i, rows, row, owned);
  }

  /** An owned row may stay or go: the removal is refused either way. */
  lemma {:induction false} LeavesStep(selectors: seq<Selector>, rows: seq<GatPath>, row: GatPath,
                                      owned: string -> bool, kept: seq<GatPath>)
    requires Leaves(selectors, rows, owned, kept)
    ensures Credit(selectors, row).None? || owned(row) ==> Leaves(selectors, rows + [row], owned, kept + [row])
    ensures Credit(selectors, row).Some? ==> Leaves(selectors, rows + [row], owned, kept)
  {
    hide Credit, TouchesMount;
    TouchesSnoc(selectors, rows, row, owned);
    SelectSnoc((r: GatPath) => Credit(selectors, r).None?, rows, row);
  }

  // ---------------------------------------------------------------- the plan

  /** What is reported, and what is published: single rows and whole subtrees. */
  datatype Plan = Plan(paths: seq<GatPath>, exact: seq<GatPath>, prefixes: seq<GatPath>)

  /** One selector's rows added to a plan; several rows of one prefix become a subtree. */
  function Extended(plan: Plan, selector: Selector, rows: seq<GatPath>): Plan
  {
    if rows == [] then plan
    else if selector.PrefixSel? && |rows| > 1 then
      Plan(plan.paths + rows, plan.exact, plan.prefixes + [selector.path])
    else Plan(plan.paths + rows, plan.exact + rows, plan.prefixes)
  }

  function PlanOf(selectors: seq<Selector>, selected: seq<seq<GatPath>>): Plan
    requires |selectors| == |selected|
  {
    if selectors == [] then Plan([], [], [])
    else
      var n := |selectors| - 1;
      Extended(PlanOf(selectors[..n], selected[..n]), selectors[n], selected[n])
  }

  method NewPlan(selectors: seq<Selector>, selected: seq<seq<GatPath>>) returns (plan: Plan)
    requires |selectors| == |selected|
    ensures plan == PlanOf(selectors, selected)
  {
    var paths: seq<GatPath>, exact: seq<GatPath>, prefixes: seq<GatPath> := [], [], [];
    for n := 0 to |selectors|
      invariant Plan(paths, exact, prefixes) == PlanOf(selectors[..n], selected[..n])
    {
      assert selectors[..n + 1][..n] == selectors[..n] && selected[..n + 1][..n] == selected[..n];
      var rows := selected[n];
      if rows != [] {
        if selectors[n].PrefixSel? && |rows| > 1 {
          prefixes := prefixes + [selectors[n].path];
        } else {
          exact := exact + rows;
        }
        paths := paths + rows;
      }
    }
    assert selectors[..|selectors|] == selectors && selected[..|selected|] == selected;
    return Plan(paths, exact, prefixes);
  }

  ghost predicate Covers(prefixes: seq<GatPath>, row: string)
  {
    exists k :: 0 <= k < |prefixes| && IsOrUnder(row, prefixes[k])
  }

  /** The rows that publishing the plan deletes. */
  ghost predicate Deletes(plan: Plan, row: GatPath)
  {
    row in plan.exact || Covers(plan.prefixes, row)
  }

  ghost predicate Fits(selectors: seq<Selector>, selected: seq<seq<GatPath>>)
  {
    |selectors| == |selected| &&
    forall i, k :: 0 <= i < |selectors| && 0 <= k < |selected[i]| ==> Selects(selectors[i], selected[i][k])
  }

  ghost predicate Somewhere(selected: seq<seq<GatPath>>, row: GatPath)
  {
    exists i :: 0 <= i < |selected| && row in selected[i]
  }

  ghost predicate SelectedBySome(selectors: seq<Selector>, row: string)
  {
    exists i :: 0 <= i < |selectors| && Selects(selectors[i], row)
  }

  lemma {:induction false} SomewhereSnoc(selected: seq<seq<GatPath>>, n: nat, row: GatPath)
    requires |selected| == n + 1
    ensures Somewhere(selected, row) <==> Somewhere(selected[..n], row) || row in selected[n]
  {
    if i :| 0 <= i < n && row in selected[i] {
      assert row in selected[..n][i];
    }
  }

  lemma {:induction false} BySomeSnoc(selectors: seq<Selector>, n: nat, row: string)
    requires |selectors| == n + 1
    ensures SelectedBySome(selectors[..n], row) || Selects(selectors[n], row) ==> SelectedBySome(selectors, row)
  {
    hide Selects;
    if i :| 0 <= i < n && Selects(selectors[..n][i], row) {
      assert Selects(selectors[i], row);
    }
  }

  lemma {:induction false} CoversSnoc(prefixes: seq<GatPath>, last: GatPath, row: string)
    ensures Covers(prefixes + [last], row) <==> Covers(prefixes, row) || IsOrUnder(row, last)
  {
    hide IsOrUnder;
    if k :| 0 <= k < |prefixes| && IsOrUnder(row, prefixes[k]) {
      assert (prefixes + [last])[k] == prefixes[k];
    }
    if IsOrUnder(row, last) {
      assert (prefixes + [last])[|prefixes|] == last;
    }
  }

  /** The plan lists the credited rows and deletes at least those and at most what the
      selectors select. */
  lemma {:induction false} PlanBounds(selectors: seq<Selector>, selected: seq<seq<GatPath>>, row: GatPath)
    requires Fits(selectors, selected)
    ensures row in PlanOf(selectors, selected).paths <==> Somewhere(selected, row)
    ensures Somewhere(selected, row) ==> Deletes(PlanOf(selectors, selected), row)
    ensures Deletes(PlanOf(selectors, selected), row) ==> SelectedBySome(selectors, row)
  {
    if selectors != [] {
      var n := |selectors| - 1;
      var plan := PlanOf(selectors[..n], selected[..n]);
      FitsInit(selectors, selected, n);
      PlanBounds(selectors[..n], selected[..n], row);
      SomewhereSnoc(selected, n, row);
      BySomeSnoc(selectors, n, row);
      ExtendedBounds(plan, selectors[n], selected[n], row);
    }
  }

  lemma {:induction false} FitsInit(selectors: seq<Selector>, selected: seq<seq<GatPath>>, n: nat)
    requires Fits(selectors, selected) && |selectors| == n + 1
    ensures Fits(selectors[..n], selected[..n])
    ensures forall row: GatPath :: row in selected[n] ==> Selects(selectors[n], row)
  {
    hide Selects;
  }

  lemma {:induction false} ExtendedBounds(plan: Plan, selector: Selector, rows: seq<GatPath>, row: GatPath)
    requires forall r :: r in rows ==> Selects(selector, r)
    ensures row in Extended(plan, selector, rows).paths <==> row in plan.paths || row in rows
    ensures Deletes(plan, row) || row in rows ==> Deletes(Extended(plan, selector, rows), row)
    ensures Deletes(Extended(plan, selector, rows), row) ==> Deletes(plan, row) || Selects(selector, row)
  {
    hide IsOrUnder, Covers, Matches;
    if selector.PrefixSel? {
      CoversSnoc(plan.prefixes, selector.path, row);
    }
  }

  lemma {:induction false} DistinctConcat<T>(a: seq<T>, b: seq<T>)
    requires Distinct(a) && Distinct(b) && forall x :: x in a ==> x !in b
    ensures Distinct(a + b)
  {
    var s := a + b;
    forall i, j | 0 <= i < j < |s| ensures s[i] != s[j] {
      assert i < |a| ==> s[i] in a;
      assert j >= |a| ==> s[j] in b;
    }
  }

  /** The rows each selector is credited with. */
  function Credited(selectors: seq<Selector>, rows: seq<GatPath>): (r: seq<seq<GatPath>>)
    ensures |r| == |selectors|
  {
    seq(|selectors|, i requires 0 <= i < |selectors| => CreditedTo(selectors, i, rows))
  }

  lemma {:induction false} InCredited(selectors: seq<Selector>, rows: seq<GatPath>, i: nat, row: GatPath)
    requires i < |selectors|
    ensures row in Credited(selectors, rows)[i] <==> row in rows && Credit(selectors, row) == Some(i)
  {
    hide Credit;
    SelectIs((r: GatPath) => Credit(selectors, r) == Some(i), rows, row);
  }

  lemma {:induction false} CreditedFits(selectors: seq<Selector>, rows: seq<GatPath>)
    ensures Fits(selectors, Credited(selectors, rows))
    ensures forall row: GatPath :: Somewhere(Credited(selectors, rows), row) <==>
            row in rows && Credit(selectors, row).Some?
  {
    hide Credit, Credited, Selects;
    var selected := Credited(selectors, rows);
    forall i, k | 0 <= i < |selectors| && 0 <= k < |selected[i]| ensures Selects(selectors[i], selected[i][k]) {
      InCredited(selectors, rows, i, selected[i][k]);
    }
    forall row: GatPath ensures Somewhere(selected, row) <==> row in rows && Credit(selectors, row).Some? {
      if i :| 0 <= i < |selected| && row in selected[i] {
        InCredited(selectors, rows, i, row);
      }
      if row in rows && Credit(selectors, row).Some? {
        InCredited(selectors, rows, Credit(selectors, row).value, row);
      }
    }
  }

  lemma {:induction false} CreditIsSome(selectors: seq<Selector>, row: string)
    ensures Credit(selectors, row).Some? <==> SelectedBySome(selectors, row)
  {
    hide Selects;
  }

  /** Rows credited to different selectors are different rows. */
  lemma {:induction false} PlanListsOnce(selectors: seq<Selector>, selected: seq<seq<GatPath>>)
    requires |selectors| == |selected|
    requires forall i :: 0 <= i < |selected| ==> Distinct(selected[i])
    requires forall i, j, row: GatPath :: 0 <= i < j < |selected| && row in selected[i] ==> row !in selected[j]
    ensures Distinct(PlanOf(selectors, selected).paths)
    ensures forall row: GatPath :: row in PlanOf(selectors, selected).paths ==> Somewhere(selected, row)
  {
    if selectors != [] {
      var n := |selectors| - 1;
      var init := selected[..n];
      assert forall i :: 0 <= i < n ==> init[i] == selected[i];
      PlanListsOnce(selectors[..n], init);
      forall row: GatPath ensures Somewhere(selected, row) <==> Somewhere(init, row) || row in selected[n] {
        SomewhereSnoc(selected, n, row);
      }
      DistinctConcat(PlanOf(selectors[..n], init).paths, selected[n]);
    }
  }

  lemma {:induction false} CreditedDisjoint(selectors: seq<Selector>, rows: seq<GatPath>)
    requires Distinct(rows)
    ensures forall i :: 0 <= i < |selectors| ==> Distinct(Credited(selectors, rows)[i])
    ensures forall i, j, row: GatPath :: 0 <= i < j < |selectors| && row in Credited(selectors, rows)[i] ==>
            row !in Credited(selectors, rows)[j]
  {
    hide Credit, Credited;
    forall i | 0 <= i < |selectors| ensures Distinct(Credited(selectors, rows)[i]) {
      CreditedDistinct(selectors, rows, i);
    }
    forall i, j, row: GatPath | 0 <= i < j < |selectors| && row in Credited(selectors, rows)[i]
      ensures row !in Credited(selectors, rows)[j]
    {
      InCredited(selectors, rows, i, row);
      InCredited(selectors, rows, j, row);
    }
  }

  lemma {:induction false} CreditedDistinct(selectors: seq<Selector>, rows: seq<GatPath>, i: nat)
    requires Distinct(rows) && i < |selectors|
    ensures Distinct(Credited(selectors, rows)[i])
  {
    hide Credit, Distinct;
    SelectDistinct((r: GatPath) => Credit(selectors, r) == Some(i), rows);
  }

  /** The plan is exact: of the rows there are, publishing it deletes those that some selector
      selects, although a row may be credited to an earlier selector than the prefix that
      deletes it; each is reported once; and what is left is what a rewrite of the whole
      state keeps. */
  lemma {:induction false} RemovalIsExact(selectors: seq<Selector>, rows: seq<GatPath>)
    requires Distinct(rows)
    ensures var plan := PlanOf(selectors, Credited(selectors, rows));
            && (forall row: GatPath :: row in rows ==> (Deletes(plan, row) <==> SelectedBySome(selectors, row)))
            && (forall row: GatPath :: row in plan.paths <==> row in rows && SelectedBySome(selectors, row))
            && Distinct(plan.paths)
            && (forall row: GatPath :: row in rows ==> (row !in Unselected(selectors, rows) <==> Deletes(plan, row)))
  {
    hide *;
    var plan := PlanOf(selectors, Credited(selectors, rows));
    CreditedFits(selectors, rows);
    forall row: GatPath
      ensures row in plan.paths <==> row in rows && SelectedBySome(selectors, row)
      ensures row in rows ==> (Deletes(plan, row) <==> SelectedBySome(selectors, row))
      ensures row in Unselected(selectors, rows) <==> row in rows && !SelectedBySome(selectors, row)
    {
      CreditIsSome(selectors, row);
      PlanBounds(selectors, Credited(selectors, rows), row);
      InUnselected(selectors, rows, row);
    }
    CreditedDisjoint(selectors, rows);
    PlanListsOnce(selectors, Credited(selectors, rows));
  }

  lemma {:induction false} InUnselected(selectors: seq<Selector>, rows: seq<GatPath>, row: GatPath)
    ensures row in Unselected(selectors, rows) <==> row in rows && Credit(selectors, row).None?
  {
    hide Credit;
    SelectIs((r: GatPath) => Credit(selectors, r).None?, rows, row);
  }

  // -------------------------------------------------------- the scoped scan

  function ScopeOf(s: Selector): Bounds
    requires FromArgument(s)
  {
    match s
    case RootSel => AnyRow
    case PrefixSel(path) => Subtree(path)
    case GlobSel(glob) =>
      match BoundOf(glob)
      case AnyPath => AnyRow
      case Prefix(prefix) => WithPrefix(prefix)
      case Exact(path) => ExactRow(path)
  }

  lemma {:induction false} SelectsInScope(s: Selector, row: string)
    requires FromArgument(s) && Selects(s, row)
    ensures Admits(ScopeOf(s), row)
  {
    hide Matches, ValidGlob, FirstMetaIndex, IsOrUnder;
    match s
    case RootSel =>
    case PrefixSel(path) => NoSlashToDrop(path);
    case GlobSel(glob) => BoundIsSound(glob, row);
  }

  /** The scope is as narrow as the selector lets one look rows up: exactly the rows selected,
      or for a pattern those inside its bound. */
  lemma {:induction false} ScopeIsTight(s: Selector, row: string)
    requires FromArgument(s) && Admits(ScopeOf(s), row)
    ensures if s.GlobSel? then InBound(BoundOf(s.glob), row) else Selects(s, row)
  {
    if s.PrefixSel? {
      NoSlashToDrop(s.path);
    }
  }

  function Scopes(selectors: seq<Selector>): (r: seq<Bounds>)
    requires forall i :: 0 <= i < |selectors| ==> FromArgument(selectors[i])
    ensures |r| == |selectors|
  {
    seq(|selectors|, i requires 0 <= i < |selectors| => ScopeOf(selectors[i]))
  }

  /** The rows the store visits for a span. */
  function RowsIn(span: Span, rows: seq<GatPath>): seq<GatPath>
  {
    Select((row: GatPath) => Holds(span, row), rows)
  }

  /** A span computed from the selectors' scopes. */
  ghost predicate SpanFor(span: Span, selectors: seq<Selector>)
  {
    && (forall i :: 0 <= i < |selectors| ==> FromArgument(selectors[i]))
    && forall path :: Holds(span, path) <==> SomeAdmits(Scopes(selectors), path)
  }

  lemma {:induction false} CreditInSpan(selectors: seq<Selector>, span: Span, row: string)
    requires SpanFor(span, selectors)
    ensures Credit(selectors, row).Some? ==> Holds(span, row)
  {
    hide Credit, Selects, ScopeOf, Admits, FromArgument, Holds;
    if Credit(selectors, row).Some? {
      var i := Credit(selectors, row).value;
      SelectsInScope(selectors[i], row);
      assert Admits(Scopes(selectors)[i], row);
    }
  }

  /** Visiting only the rows in the span credits every selector with the same rows, and finds
      the same first owned row. */
  lemma {:induction false} ScopedScanAgrees(selectors: seq<Selector>, span: Span, rows: seq<GatPath>, i: nat,
                                            owned: string -> bool)
    requires SpanFor(span, selectors)
    ensures CreditedTo(selectors, i, RowsIn(span, rows)) == CreditedTo(selectors, i, rows)
    ensures FirstOwned(selectors, i, RowsIn(span, rows), owned) == FirstOwned(selectors, i, rows, owned)
  {
    hide Credit, Holds, SpanFor, Select;
    forall k | 0 <= k < |rows| && Credit(selectors, rows[k]).Some? ensures Holds(span, rows[k]) {
      CreditInSpan(selectors, span, rows[k]);
    }
    var inside := (row: GatPath) => Holds(span, row);
    SelectNarrowed(inside, (row: GatPath) => Credit(selectors, row) == Some(i), rows);
    SelectNarrowed(inside, (row: GatPath) => Credit(selectors, row) == Some(i) && owned(row), rows);
  }

  // ------------------------------------------------------ the whole command

  /** A mount is touched exactly when some selector has a first owned row. */
  lemma {:induction false} TouchesIs(selectors: seq<Selector>, rows: seq<GatPath>, owned: string -> bool)
    ensures TouchesMount(selectors, rows, owned) <==>
            exists i :: 0 <= i < |selectors| && FirstOwned(selectors, i, rows, owned).Some?
  {
    hide Credit, FirstOwned;
    forall i | 0 <= i < |selectors| && FirstOwned(selectors, i, rows, owned).Some?
      ensures TouchesMount(selectors, rows, owned)
    {
      FirstOwnedHit(selectors, i, rows, owned, FirstOwned(selectors, i, rows, owned).value);
    }
    if k :| 0 <= k < |rows| && Credit(selectors, rows[k]).Some? && owned(rows[k]) {
      FirstOwnedHit(selectors, Credit(selectors, rows[k]).value, rows, owned, rows[k]);
    }
  }

  lemma {:induction false} FirstOwnedHit(selectors: seq<Selector>, i: nat, rows: seq<GatPath>, owned: string -> bool,
                                         row: GatPath)
    ensures FirstOwned(selectors, i, rows, owned) == Some(row) ==>
            row in rows && Credit(selectors, row) == Some(i) && owned(row)
    ensures row in rows && Credit(selectors, row) == Some(i) && owned(row) ==>
            FirstOwned(selectors, i, rows, owned).Some?
  {
    hide Credit;
    var hits := (r: GatPath) => Credit(selectors, r) == Some(i) && owned(r);
    SelectIs(hits, rows, row);
  }

  /** The error reported: the first owned row of the lowest selector that has one. */
  ghost predicate FirstOwnedOf(selectors: seq<Selector>, rows: seq<GatPath>, owned: string -> bool, path: string)
  {
    exists i :: 0 <= i < |selectors| && FirstOwned(selectors, i, rows, owned) == Some(path) &&
      forall j :: 0 <= j < i ==> FirstOwned(selectors, j, rows, owned).None?
  }

  /** Resolves a removal on either storage shape: by visiting the scoped rows of the store, or
      by rewriting the whole state, which then also returns what it keeps. */
  method ResolveRemovals(selectors: seq<Selector>, rows: seq<GatPath>, owned: string -> bool, incremental: bool)
    returns (r: Result<Plan, SelectError>, rewritten: Option<seq<GatPath>>)
    requires forall i :: 0 <= i < |selectors| ==> FromArgument(selectors[i])
    ensures r.Err? <==> TouchesMount(selectors, rows, owned)
    ensures r.Err? ==> r.error.Owned? && FirstOwnedOf(selectors, rows, owned, r.error.path)
    ensures r.Ok? ==> r.value == PlanOf(selectors, Credited(selectors, rows))
    ensures r.Ok? ==> rewritten == if incremental then None else Some(Unselected(selectors, rows))
  {
    hide *;
    var span := SpanFromBounds(Scopes(selectors));
    SpanIsFor(span, selectors);
    var visited := if incremental then RowsIn(span, rows) else rows;
    var removed, firstOwned, kept := ScanRows(selectors, visited, owned);
    rewritten := if incremental then None else Some(kept);
    ScannedAnyShape(selectors, span, rows, owned, incremental, visited, removed, firstOwned, kept);
    for i := 0 to |firstOwned|
      invariant forall j :: 0 <= j < i ==> firstOwned[j].None?
    {
      if firstOwned[i].Some? {
        FirstOwnedIs(selectors, rows, owned, i, firstOwned);
        return Err(Owned(firstOwned[i].value)), rewritten;
      }
    }
    var plan := NewPlan(selectors, removed);
    return Ok(plan), rewritten;
  }

  lemma {:induction false} ScannedAnyShape(selectors: seq<Selector>, span: Span, rows: seq<GatPath>,
                                           owned: string -> bool, incremental: bool,
                                           visited: seq<GatPath>, removed: seq<seq<GatPath>>,
                                           firstOwned: seq<Option<GatPath>>, kept: seq<GatPath>)
    requires SpanFor(span, selectors)
    requires visited == if incremental then RowsIn(span, rows) else rows
    requires ScannedRows(selectors, visited, owned, removed, firstOwned, kept)
    ensures |removed| == |selectors| == |firstOwned|
    ensures forall i :: 0 <= i < |selectors| ==> firstOwned[i] == FirstOwned(selectors, i, rows, owned)
    ensures TouchesMount(selectors, rows, owned) <==> exists i :: 0 <= i < |firstOwned| && firstOwned[i].Some?
    ensures !TouchesMount(selectors, rows, owned) ==> removed == Credited(selectors, rows)
    ensures !TouchesMount(selectors, rows, owned) && !incremental ==> kept == Unselected(selectors, rows)
  {
    hide Credit, FirstOwned, CreditedTo, RowsIn, TouchesMount, Unselected, SpanFor;
    forall i | 0 <= i < |selectors|
      ensures firstOwned[i] == FirstOwned(selectors, i, rows, owned)
      ensures firstOwned[i].None? ==> removed[i] == CreditedTo(selectors, i, rows)
    {
      ScopedScanAgrees(selectors, span, rows, i, owned);
      assert Slot(selectors, i, visited, owned, removed[i], firstOwned[i]);
    }
    TouchesIs(selectors, rows, owned);
  }

  lemma {:induction false} SpanIsFor(span: Span, selectors: seq<Selector>)
    requires forall i :: 0 <= i < |selectors| ==> FromArgument(selectors[i])
    requires forall path :: Holds(span, path) <==> SomeAdmits(Scopes(selectors), path)
    ensures SpanFor(span, selectors)
  {
    hide Holds, SomeAdmits, Scopes;
  }

  lemma {:induction false} FirstOwnedIs(selectors: seq<Selector>, rows: seq<GatPath>, owned: string -> bool, i: nat,
                                        firstOwned: seq<Option<GatPath>>)
    requires i < |firstOwned| == |selectors| && firstOwned[i].Some? && forall j :: 0 <= j < i ==> firstOwned[j].None?
    requires forall k :: 0 <= k < |selectors| ==> firstOwned[k] == FirstOwned(selectors, k, rows, owned)
    ensures FirstOwnedOf(selectors, rows, owned, firstOwned[i].value)
  {
    hide FirstOwned;
  }

  // ------------------------------------- told from the arguments themselves

  /** A path with metacharacters that names no row is read as a pattern. */
  ghost predicate IsPattern(path: string, rows: seq<GatPath>)
  {
    !Free(IsMeta, path) && !NamesRows(path, rows)
  }

  /** Whether an argument asks for a row. */
  ghost predicate Wants(scope: PathScope, rows: seq<GatPath>, row: string)
  {
    match scope
    case RootScope => true
    case Scope(path) =>
      if IsPattern(path, rows) then
        Compile(path).Some? && MatchComps(Compile(path).value, Components(row))
      else IsOrUnder(row, path)
  }

  /** Whether an argument is refused by itself. */
  ghost predicate Unusable(scope: PathScope, rows: seq<GatPath>, owned: string -> bool, e: SelectError)
  {
    scope.Scope? &&
    if IsPattern(scope.path, rows) then Compile(scope.path).None? && e == BadPattern(InvalidGlobSyntax(scope.path))
    else owned(scope.path) && e == Owned(scope.path)
  }

  ghost predicate Wanted(scopes: seq<PathScope>, rows: seq<GatPath>, row: string)
  {
    exists i :: 0 <= i < |scopes| && Wants(scopes[i], rows, row)
  }

  /** The first argument that asks for the row is the one at `i`. */
  ghost predicate FirstWants(scopes: seq<PathScope>, rows: seq<GatPath>, i: nat, row: string)
  {
    i < |scopes| && Wants(scopes[i], rows, row) && forall j :: 0 <= j < i ==> !Wants(scopes[j], rows, row)
  }

  /** The row at `k`, asked for first by the argument at `i`, is a mount's; no argument before
      that, and no row before it for the same argument, meets one. */
  ghost predicate MeetsMount(scopes: seq<PathScope>, rows: seq<GatPath>, owned: string -> bool, i: nat, k: nat)
  {
    && k < |rows| && FirstWants(scopes, rows, i, rows[k]) && owned(rows[k])
    && forall j: nat, l :: 0 <= l < |rows| && FirstWants(scopes, rows, j, rows[l]) && owned(rows[l]) ==>
         i < j || (i == j && k <= l)
  }

  /** The selectors named stand for the arguments. */
  ghost predicate StandFor(selectors: seq<Selector>, scopes: seq<PathScope>, rows: seq<GatPath>)
  {
    && |selectors| == |scopes|
    && forall i :: 0 <= i < |scopes| ==>
         FromArgument(selectors[i]) && forall row :: Selects(selectors[i], row) <==> Wants(scopes[i], rows, row)
  }

  lemma {:induction false} NamedMeans(scope: PathScope, rows: seq<GatPath>, owned: string -> bool,
                                      r: Result<Selector, SelectError>)
    requires Named(scope, rows, owned, r)
    ensures r.Err? ==> Unusable(scope, rows, owned, r.error)
    ensures r.Ok? ==> FromArgument(r.value) && forall row :: Selects(r.value, row) <==> Wants(scope, rows, row)
    ensures r.Ok? ==> forall e :: !Unusable(scope, rows, owned, e)
  {
    hide Compile, MatchComps, NamesRows, Free, IsOrUnder, Canonical, FirstMetaIndex;
  }

  lemma {:induction false} CreditMeans(selectors: seq<Selector>, scopes: seq<PathScope>, rows: seq<GatPath>,
                                       row: string)
    requires StandFor(selectors, scopes, rows)
    ensures SelectedBySome(selectors, row) <==> Wanted(scopes, rows, row)
    ensures forall i: nat :: Credit(selectors, row) == Some(i) <==> FirstWants(scopes, rows, i, row)
  {
    hide Selects, Wants, FromArgument;
    forall i: nat ensures Credit(selectors, row) == Some(i) <==> FirstWants(scopes, rows, i, row) {
      if FirstWants(scopes, rows, i, row) {
        assert Selects(selectors[i], row);
        assert forall j :: 0 <= j < i ==> !Selects(selectors[j], row);
      }
    }
    assert forall i :: 0 <= i < |scopes| ==> (Selects(selectors[i], row) <==> Wants(scopes[i], rows, row));
  }

  /** The whole command up to publishing: each argument is named, and then all are resolved. An
      unusable argument refuses everything; otherwise a row of a mount that is asked for does;
      otherwise the plan deletes exactly the rows asked for and lists each once. */
  method PlanRemoval(scopes: seq<PathScope>, rows: seq<GatPath>, owned: string -> bool, incremental: bool)
    returns (r: Result<Plan, SelectError>, rewritten: Option<seq<GatPath>>)
    requires Distinct(rows)
    ensures (exists i, e :: 0 <= i < |scopes| && Unusable(scopes[i], rows, owned, e)) ==>
              r.Err? && exists i :: 0 <= i < |scopes| && Unusable(scopes[i], rows, owned, r.error) &&
                                    forall j, e :: 0 <= j < i ==> !Unusable(scopes[j], rows, owned, e)
    ensures (forall i, e :: 0 <= i < |scopes| ==> !Unusable(scopes[i], rows, owned, e)) ==>
              if exists k :: 0 <= k < |rows| && Wanted(scopes, rows, rows[k]) && owned(rows[k]) then
                r.Err? && exists i: nat, k: nat :: MeetsMount(scopes, rows, owned, i, k) && r.error == Owned(rows[k])
              else
                && r.Ok?
                && (forall row: GatPath :: row in rows ==> (Deletes(r.value, row) <==> Wanted(scopes, rows, row)))
                && (forall row: GatPath :: row in r.value.paths <==> row in rows && Wanted(scopes, rows, row))
                && Distinct(r.value.paths)
                && (if incremental then rewritten.None?
                    else
                      rewritten.Some? &&
                      forall row: GatPath :: row in rewritten.value <==> row in rows && !Wanted(scopes, rows, row))
  {
    hide *;
    var selectors: seq<Selector> := [];
    NoneStand(rows);
    for i := 0 to |scopes|
      invariant |selectors| == i && StandFor(selectors, scopes[..i], rows)
      invariant forall j, e :: 0 <= j < i ==> !Unusable(scopes[j], rows, owned, e)
    {
      var selector := NameSelector(scopes[i], rows, owned);
      NamedMeans(scopes[i], rows, owned, selector);
      if selector.Err? {
        return Err(selector.error), None;
      }
      StandSnoc(selectors, scopes[..i], rows, selector.value, scopes[i]);
      assert scopes[..i + 1] == scopes[..i] + [scopes[i]];
      selectors := selectors + [selector.value];
    }
    assert scopes[..|scopes|] == scopes;
    AllFromArguments(selectors, scopes, rows);
    r, rewritten := ResolveRemovals(selectors, rows, owned, incremental);
    ResolvedMeans(selectors, scopes, rows, owned, r);
    KeptMeans(selectors, scopes, rows);
  }

  lemma {:induction false} NoneStand(rows: seq<GatPath>)
    ensures StandFor([], [], rows)
  {
  }

  lemma {:induction false} StandSnoc(selectors: seq<Selector>, scopes: seq<PathScope>, rows: seq<GatPath>,
                                     selector: Selector, scope: PathScope)
    requires StandFor(selectors, scopes, rows) && FromArgument(selector)
    requires forall row :: Selects(selector, row) <==> Wants(scope, rows, row)
    ensures StandFor(selectors + [selector], scopes + [scope], rows)
  {
    hide Selects, Wants, FromArgument;
  }

  lemma {:induction false} AllFromArguments(selectors: seq<Selector>, scopes: seq<PathScope>, rows: seq<GatPath>)
    requires StandFor(selectors, scopes, rows)
    ensures forall i :: 0 <= i < |selectors| ==> FromArgument(selectors[i])
  {
    hide FromArgument;
  }

  lemma {:induction false} KeptMeans(selectors: seq<Selector>, scopes: seq<PathScope>, rows: seq<GatPath>)
    requires StandFor(selectors, scopes, rows)
    ensures forall row: GatPath :: row in Unselected(selectors, rows) <==> row in rows && !Wanted(scopes, rows, row)
  {
    hide *;
    forall row: GatPath ensures row in Unselected(selectors, rows) <==> row in rows && !Wanted(scopes, rows, row) {
      InUnselected(selectors, rows, row);
      CreditIsSome(selectors, row);
      CreditMeans(selectors, scopes, rows, row);
    }
  }

  lemma {:induction false} ResolvedMeans(selectors: seq<Selector>, scopes: seq<PathScope>, rows: seq<GatPath>,
                                         owned: string -> bool, r: Result<Plan, SelectError>)
    requires StandFor(selectors, scopes, rows) && Distinct(rows)
    requires r.Err? <==> TouchesMount(selectors, rows, owned)
    requires r.Err? ==> r.error.Owned? && FirstOwnedOf(selectors, rows, owned, r.error.path)
    requires r.Ok? ==> r.value == PlanOf(selectors, Credited(selectors, rows))
    ensures r.Err? <==> exists k :: 0 <= k < |rows| && Wanted(scopes, rows, rows[k]) && owned(rows[k])
    ensures r.Err? ==> exists i: nat, k: nat :: MeetsMount(scopes, rows, owned, i, k) && r.error == Owned(rows[k])
    ensures r.Ok? ==>
              && (forall row: GatPath :: row in rows ==> (Deletes(r.value, row) <==> Wanted(scopes, rows, row)))
              && (forall row: GatPath :: row in r.value.paths <==> row in rows && Wanted(scopes, rows, row))
              && Distinct(r.value.paths)
  {
    hide *;
    TouchesMeans(selectors, scopes, rows, owned);
    if r.Err? {
      var i, k := FirstOwnedMeans(selectors, scopes, rows, owned, r.error.path);
    } else {
      RemovalIsExact(selectors, rows);
      forall row: GatPath ensures SelectedBySome(selectors, row) <==> Wanted(scopes, rows, row) {
        CreditMeans(selectors, scopes, rows, row);
      }
    }
  }

  lemma {:induction false} TouchesMeans(selectors: seq<Selector>, scopes: seq<PathScope>, rows: seq<GatPath>,
                                        owned: string -> bool)
    requires StandFor(selectors, scopes, rows)
    ensures TouchesMount(selectors, rows, owned) <==>
            exists k :: 0 <= k < |rows| && Wanted(scopes, rows, rows[k]) && owned(rows[k])
  {
    hide Credit, StandFor, Wanted, SelectedBySome;
    forall k | 0 <= k < |rows| ensures Credit(selectors, rows[k]).Some? <==> Wanted(scopes, rows, rows[k]) {
      CreditIsSome(selectors, rows[k]);
      CreditMeans(selectors, scopes, rows, rows[k]);
    }
  }

  /** Where the first owned row of a selector stands. */
  lemma {:induction false} FirstOwnedAt(selectors: seq<Selector>, i: nat, rows: seq<GatPath>, owned: string -> bool)
    returns (k: nat)
    requires FirstOwned(selectors, i, rows, owned).Some?
    ensures k < |rows| && rows[k] == FirstOwned(selectors, i, rows, owned).value
    ensures Credit(selectors, rows[k]) == Some(i) && owned(rows[k])
    ensures forall l :: 0 <= l < k ==> !(Credit(selectors, rows[l]) == Some(i) && owned(rows[l]))
  {
    FirstOwnedHit(selectors, i, rows, owned, FirstOwned(selectors, i, rows, owned).value);
    hide Credit, FirstOwned;
    var init, last := rows[..|rows| - 1], rows[|rows| - 1];
    assert rows == init + [last];
    FirstOwnedSnoc(selectors, i, init, last, owned);
    if FirstOwned(selectors, i, init, owned).Some? {
      k := FirstOwnedAt(selectors, i, init, owned);
    } else {
      k := |init|;
      forall l | 0 <= l < k ensures !(Credit(selectors, rows[l]) == Some(i) && owned(rows[l])) {
        FirstOwnedHit(selectors, i, init, owned, init[l]);
      }
    }
  }

  lemma {:induction false} FirstOwnedMeans(selectors: seq<Selector>, scopes: seq<PathScope>, rows: seq<GatPath>,
                                           owned: string -> bool, path: string) returns (i: nat, k: nat)
    requires StandFor(selectors, scopes, rows) && FirstOwnedOf(selectors, rows, owned, path)
    ensures MeetsMount(scopes, rows, owned, i, k) && path == rows[k]
  {
    hide Credit, FirstOwned, StandFor, FirstWants;
    i :| 0 <= i < |selectors| && FirstOwned(selectors, i, rows, owned) == Some(path) &&
         forall j :: 0 <= j < i ==> FirstOwned(selectors, j, rows, owned).None?;
    k := FirstOwnedAt(selectors, i, rows, owned);
    CreditMeans(selectors, scopes, rows, rows[k]);
    forall j: nat, l | 0 <= l < |rows| && FirstWants(scopes, rows, j, rows[l]) && owned(rows[l])
      ensures i < j || (i == j && k <= l)
    {
      CreditMeans(selectors, scopes, rows, rows[l]);
      FirstOwnedHit(selectors, j, rows, owned, rows[l]);
    }
  }

  // ------------------------------------------------------ how it is written

  /** What the plan is made of: the rows selector by selector, a subtree for each prefix
      credited with several rows, single rows for everything else. */
  lemma {:induction false} PlanIsCompressed(selectors: seq<Selector>, selected: seq<seq<GatPath>>)
    requires |selectors| == |selected|
    ensures var plan := PlanOf(selectors, selected);
            && plan.paths == Flattened(selected)
            && (forall p: GatPath :: p in plan.prefixes <==>
                  exists i :: 0 <= i < |selectors| && selectors[i] == PrefixSel(p) && |selected[i]| > 1)
            && (forall p: GatPath :: p in plan.exact <==>
                  exists i :: 0 <= i < |selectors| && p in selected[i] &&
                              !(selectors[i].PrefixSel? && |selected[i]| > 1))
  {
    if selectors != [] {
      var n := |selectors| - 1;
      PlanIsCompressed(selectors[..n], selected[..n]);
      hide PlanOf, Flattened;
      assert forall i :: 0 <= i < n ==> selectors[..n][i] == selectors[i] && selected[..n][i] == selected[i];
    }
  }

  function Flattened(parts: seq<seq<GatPath>>): seq<GatPath>
  {
    if parts == [] then [] else Flattened(parts[..|parts| - 1]) + parts[|parts| - 1]
  }
}
