/** Turning bounds on wanted paths into disjoint lexical ranges and single paths, the form in
    which the store looks rows up (gat-io/src/state/query.rs). */
module CandidateSpan {
  import opened Sorting
  import opened Text
  import opened LexicalPath
  import opened PathAlgebra
  import opened Globs
  import opened Selections

  datatype Bounds = AnyRow | Subtree(scope: string) | WithPrefix(prefix: string) | ExactRow(path: string)

  predicate Admits(bound: Bounds, path: string)
  {
    match bound
    case AnyRow => true
    case Subtree(scope) => IsOrUnder(path, WithoutSlash(scope))
    case WithPrefix(prefix) => prefix <= path
    case ExactRow(exact) => path == exact
  }

  function WithoutSlash(scope: string): string
  {
    if scope != "" && scope[|scope| - 1] == '/' then scope[..|scope| - 1] else scope
  }

  // ------------------------------------------------------ prefixes as ranges

  /** From `lower` up to but not including `upper`, or without end. */
  datatype LexicalRange = LexicalRange(lower: string, upper: Option<string>)

  predicate Below(path: string, upper: Option<string>)
  {
    upper.Some? ==> Less(path, upper.value)
  }

  predicate InRange(range: LexicalRange, path: string)
  {
    Leq(range.lower, path) && Below(path, range.upper)
  }

  const LAST_BEFORE_SURROGATES := '\U{D7FF}'
  const FIRST_AFTER_SURROGATES := '\U{E000}'
  const LAST_SCALAR := '\U{10FFFF}'

  /** The next Unicode scalar value; there are none between D7FF and E000. */
  function NextScalar(c: char): (r: Option<char>)
    ensures r.None? <==> c == LAST_SCALAR
  {
    if c == LAST_SCALAR then None
    else if c == LAST_BEFORE_SURROGATES then Some(FIRST_AFTER_SURROGATES)
    else Some((c as int + 1) as char)
  }

  /** No scalar value lies between a character and the next. */
  lemma {:induction false} NothingBetween(c: char, d: char)
    ensures match NextScalar(c)
            case Some(next) => d < next <==> d <= c
            case None => d <= c
  {
  }

  /** The first text after all that start with `prefix`; none if there is no such text. */
  function PrefixUpper(prefix: string): Option<string>
  {
    if prefix == "" then None
    else
      var init := prefix[..|prefix| - 1];
      match NextScalar(prefix[|prefix| - 1])
      case Some(next) => Some(init + [next])
      case None => PrefixUpper(init)
  }

  method LexicalPrefixUpper(prefix: string) returns (upper: Option<string>)
    ensures upper == PrefixUpper(prefix)
  {
    var index := |prefix|;
    assert prefix[..|prefix|] == prefix;
    while index > 0
      invariant 0 <= index <= |prefix|
      invariant PrefixUpper(prefix) == PrefixUpper(prefix[..index])
    {
      index := index - 1;
      assert prefix[..index + 1][..index] == prefix[..index];
      var next := NextScalar(prefix[index]);
      if next.Some? {
        return Some(prefix[..index] + [next.value]);
      }
    }
    return None;
  }

  function ForPrefix(prefix: string): LexicalRange
  {
    LexicalRange(prefix, PrefixUpper(prefix))
  }

  /** The order of two texts is decided at their first difference. */
  lemma {:induction false} LeqWithInit(init: string, c: char, path: string)
    ensures Leq(init + [c], path) && init <= path ==> |path| > |init| && c <= path[|init|]
    ensures init <= path && |path| > |init| && c < path[|init|] ==> Leq(init + [c], path)
    ensures init + [c] <= path ==> Leq(init + [c], path)
    ensures Leq(init + [c], path) ==> Leq(init, path)
  {
    var full := init + [c];
    var k := Common(full, path);
    PrefixLeq(init, full);
    if Leq(full, path) {
      LeqTransitive(init, full, path);
    }
    if init <= path && |path| > |init| && c != path[|init|] {
      CommonIs(full, path, |init|);
    } else if init <= path && |path| == |init| {
      CommonIs(full, path, |init|);
    }
    if full <= path {
      PrefixLeq(full, path);
    }
  }

  /** A text below `init + next` but not below `init` starts with `init` and a character
      before `next`. */
  lemma {:induction false} LessThanNext(init: string, next: char, path: string)
    requires Leq(init, path)
    ensures Less(path, init + [next]) <==> init <= path && (|path| > |init| ==> path[|init|] < next)
  {
    var full := init + [next];
    var k, j := Common(full, path), Common(init, path);
    if init <= path {
      if |path| == |init| || path[|init|] != next {
        CommonIs(full, path, |init|);
      } else {
        CommonIs(full, path, |full|);
      }
    } else {
      assert j < |init| && j < |path| && init[j] < path[j];
      CommonIs(full, path, j);
    }
  }

  /** A text is in the range of a prefix exactly when it starts with the prefix. */
  lemma {:induction false} RangeIsPrefix(prefix: string, path: string)
    ensures InRange(ForPrefix(prefix), path) <==> prefix <= path
  {
    if prefix == "" {
      PrefixLeq(prefix, path);
    } else {
      var init, c := prefix[..|prefix| - 1], prefix[|prefix| - 1];
      assert prefix == init + [c];
      LeqWithInit(init, c, path);
      StartsWith(init, c, path);
      if |path| > |init| {
        NothingBetween(c, path[|init|]);
      }
      hide Leq, Common;
      match NextScalar(c)
      case Some(next) =>
        if Leq(init, path) {
          LessThanNext(init, next, path);
        }
      case None =>
        RangeIsPrefix(init, path);
    }
  }

  lemma {:induction false} StartsWith(init: string, c: char, path: string)
    ensures init + [c] <= path <==> init <= path && |path| > |init| && path[|init|] == c
  {
    if init <= path && |path| > |init| && path[|init|] == c {
      assert path[..|init| + 1] == init + [c];
    }
  }

  // ------------------------------------------------------------- coalescing

  predicate UpperLeq(a: Option<string>, b: Option<string>)
  {
    b.None? || (a.Some? && Leq(a.value, b.value))
  }

  /** By lower end, then by upper end; a range without end comes last. */
  predicate RangeLeq(a: LexicalRange, b: LexicalRange)
  {
    if a.lower == b.lower then UpperLeq(a.upper, b.upper) else Leq(a.lower, b.lower)
  }

  lemma {:induction false} UpperTotal(a: Option<string>, b: Option<string>)
    ensures UpperLeq(a, b) || UpperLeq(b, a)
    ensures UpperLeq(a, b) && UpperLeq(b, a) ==> a == b
  {
    hide Leq;
    if a.Some? && b.Some? {
      LeqTotal(a.value, b.value);
    }
  }

  lemma {:induction false} UpperTransitive(a: Option<string>, b: Option<string>, c: Option<string>)
    requires UpperLeq(a, b) && UpperLeq(b, c)
    ensures UpperLeq(a, c)
  {
    hide Leq;
    if c.Some? {
      LeqTransitive(a.value, b.value, c.value);
    }
  }

  lemma {:induction false} RangeTransitive(a: LexicalRange, b: LexicalRange, c: LexicalRange)
    requires RangeLeq(a, b) && RangeLeq(b, c)
    ensures RangeLeq(a, c)
  {
    hide Leq, UpperLeq;
    if a.lower == b.lower == c.lower {
      UpperTransitive(a.upper, b.upper, c.upper);
    } else if a.lower != b.lower && b.lower != c.lower {
      LeqTransitive(a.lower, b.lower, c.lower);
      LeqTotal(a.lower, b.lower);
    }
  }

  lemma {:induction false} RangeOrder()
    ensures TotalOrder(RangeLeq)
  {
    forall a, b ensures RangeLeq(a, b) || RangeLeq(b, a) {
      hide Leq, UpperLeq;
      UpperTotal(a.upper, b.upper);
      LeqTotal(a.lower, b.lower);
    }
    forall a, b, c | RangeLeq(a, b) && RangeLeq(b, c) ensures RangeLeq(a, c) {
      RangeTransitive(a, b, c);
    }
  }

  predicate OverlapOrTouch(a: LexicalRange, b: LexicalRange)
  {
    a.upper.Some? ==> Leq(b.lower, a.upper.value)
  }

  /** One more range, in sorted order: merged into the last one or put behind it. */
  function Merge(done: seq<LexicalRange>, range: LexicalRange): (r: seq<LexicalRange>)
    ensures r != []
  {
    if done == [] then [range]
    else
      var last := done[|done| - 1];
      if !OverlapOrTouch(last, range) then done + [range]
      else if UpperLeq(range.upper, last.upper) then done
      else done[..|done| - 1] + [LexicalRange(last.lower, range.upper)]
  }

  predicate InSome(ranges: seq<LexicalRange>, path: string)
  {
    exists i :: 0 <= i < |ranges| && InRange(ranges[i], path)
  }

  /** Each range ends strictly before the next begins. */
  predicate Disjoint(ranges: seq<LexicalRange>)
  {
    forall i, j :: 0 <= i < j < |ranges| ==> ranges[i].upper.Some? && Less(ranges[i].upper.value, ranges[j].lower)
  }

  predicate AllFrom(ranges: seq<LexicalRange>, last: LexicalRange)
  {
    forall i :: 0 <= i < |ranges| ==> Leq(ranges[i].lower, last.lower)
  }

  lemma {:induction false} InSomeSnoc(ranges: seq<LexicalRange>, last: LexicalRange, path: string)
    ensures InSome(ranges + [last], path) <==> InSome(ranges, path) || InRange(last, path)
  {
    hide InRange;
    if i :| 0 <= i < |ranges| && InRange(ranges[i], path) {
      assert (ranges + [last])[i] == ranges[i];
    }
    assert (ranges + [last])[|ranges|] == last;
  }

  /** Two ranges that meet cover together what the merged range covers. */
  lemma {:induction false} MergedRange(a: LexicalRange, b: LexicalRange, path: string)
    requires Leq(a.lower, b.lower) && OverlapOrTouch(a, b)
    ensures InRange(a, path) || InRange(b, path) <==>
            InRange(LexicalRange(a.lower, if UpperLeq(b.upper, a.upper) then a.upper else b.upper), path)
  {
    hide Leq;
    if Leq(b.lower, path) {
      LeqTransitive(a.lower, b.lower, path);
    }
    UpperTotal(a.upper, b.upper);
    BelowMonotone(path, a.upper, b.upper);
    BelowMonotone(path, b.upper, a.upper);
    if a.upper.Some? && Leq(a.upper.value, path) {
      LeqTransitive(b.lower, a.upper.value, path);
    }
    if a.upper.Some? {
      LeqTotal(path, a.upper.value);
    }
  }

  lemma {:induction false} BelowMonotone(path: string, a: Option<string>, b: Option<string>)
    ensures UpperLeq(a, b) && Below(path, a) ==> Below(path, b)
  {
    hide Leq;
    if UpperLeq(a, b) && a.Some? && b.Some? && Leq(b.value, path) {
      LeqTransitive(a.value, b.value, path);
    }
  }

  lemma {:induction false} MergeKeeps(done: seq<LexicalRange>, range: LexicalRange, path: string)
    requires AllFrom(done, range)
    ensures InSome(Merge(done, range), path) <==> InSome(done, path) || InRange(range, path)
  {
    if done == [] {
      InSomeSnoc([], range, path);
      assert [] + [range] == [range];
    } else {
      var init, last := done[..|done| - 1], done[|done| - 1];
      assert done == init + [last];
      hide InRange, Leq, UpperLeq;
      InSomeSnoc(done, range, path);
      InSomeSnoc(init, last, path);
      if OverlapOrTouch(last, range) {
        MergedRange(last, range, path);
        InSomeSnoc(init, LexicalRange(last.lower, range.upper), path);
        assert LexicalRange(last.lower, last.upper) == last;
      }
    }
  }

  lemma {:induction false} MergeDisjoint(done: seq<LexicalRange>, range: LexicalRange, next: LexicalRange)
    requires Disjoint(done) && AllFrom(done, range) && Leq(range.lower, next.lower)
    ensures Disjoint(Merge(done, range)) && AllFrom(Merge(done, range), next)
  {
    hide Leq;
    var merged := Merge(done, range);
    forall i | 0 <= i < |done| ensures Leq(done[i].lower, next.lower) {
      LeqTransitive(done[i].lower, range.lower, next.lower);
    }
    if done != [] && !OverlapOrTouch(done[|done| - 1], range) {
      forall i | 0 <= i < |done| ensures done[i].upper.Some? && Less(done[i].upper.value, range.lower) {
        if i < |done| - 1 {
          LessThrough(done[i].upper.value, done[|done| - 1].lower, range.lower);
        }
      }
    }
  }

  lemma {:induction false} LessThrough(a: string, b: string, c: string)
    requires Less(a, b) && Leq(b, c)
    ensures Less(a, c)
  {
    hide Leq;
    if Leq(c, a) {
      LeqTransitive(b, c, a);
    }
  }

  function Coalesced(sorted: seq<LexicalRange>): seq<LexicalRange>
  {
    if sorted == [] then [] else Merge(Coalesced(sorted[..|sorted| - 1]), sorted[|sorted| - 1])
  }

  method CoalesceRanges(ranges: seq<LexicalRange>) returns (r: seq<LexicalRange>)
    ensures r == Coalesced(Sort(RangeLeq, ranges))
  {
    hide RangeLeq, Leq;
    var sorted := Sort(RangeLeq, ranges);
    r := [];
    for i := 0 to |sorted|
      invariant r == Coalesced(sorted[..i])
    {
      assert sorted[..i + 1][..i] == sorted[..i];
      var range := sorted[i];
      if r == [] || !OverlapOrTouch(r[|r| - 1], range) {
        r := r + [range];
      } else if !UpperLeq(range.upper, r[|r| - 1].upper) {
        r := r[..|r| - 1] + [LexicalRange(r[|r| - 1].lower, range.upper)];
      }
    }
    assert sorted[..|sorted|] == sorted;
  }

  lemma {:induction false} CoalescedIs(sorted: seq<LexicalRange>, next: LexicalRange)
    requires Sorted(RangeLeq, sorted + [next])
    ensures Disjoint(Coalesced(sorted)) && AllFrom(Coalesced(sorted), next)
    ensures forall path :: InSome(Coalesced(sorted), path) <==> InSome(sorted, path)
  {
    if sorted != [] {
      var init, last := sorted[..|sorted| - 1], sorted[|sorted| - 1];
      assert sorted == init + [last];
      var all := sorted + [next];
      assert all[|sorted| - 1] == last && all[|sorted|] == next;
      SortedInit(all, sorted);
      RangeLeqLower(last, next);
      hide RangeLeq, Leq, InRange;
      CoalescedIs(init, last);
      MergeDisjoint(Coalesced(init), last, next);
      forall path ensures InSome(Coalesced(sorted), path) <==> InSome(sorted, path) {
        MergeKeeps(Coalesced(init), last, path);
        InSomeSnoc(init, last, path);
      }
    }
  }

  lemma {:induction false} SortedInit(all: seq<LexicalRange>, init: seq<LexicalRange>)
    requires Sorted(RangeLeq, all) && |all| == |init| + 1 && all[..|init|] == init
    ensures Sorted(RangeLeq, init)
    ensures init != [] ==> RangeLeq(init[|init| - 1], all[|init|])
  {
    hide RangeLeq;
    assert forall i :: 0 <= i < |init| ==> init[i] == all[i];
  }

  lemma {:induction false} RangeLeqLower(a: LexicalRange, b: LexicalRange)
    requires RangeLeq(a, b)
    ensures Leq(a.lower, b.lower)
  {
    PrefixLeq(a.lower, a.lower);
    hide Leq;
  }

  /** Coalescing keeps what the ranges cover and leaves them apart and in order. */
  lemma {:induction false} CoalescingIsSound(ranges: seq<LexicalRange>, path: string)
    ensures Disjoint(Coalesced(Sort(RangeLeq, ranges)))
    ensures InSome(Coalesced(Sort(RangeLeq, ranges)), path) <==> InSome(ranges, path)
  {
    var sorted := Sort(RangeLeq, ranges);
    RangeOrder();
    SortSorts(RangeLeq, ranges);
    InSomeOf(sorted, ranges, path);
    if sorted != [] {
      var last := sorted[|sorted| - 1];
      AppendLast(sorted);
      hide *;
      CoalescedIs(sorted, last);
    }
  }

  lemma {:induction false} AppendLast(sorted: seq<LexicalRange>)
    requires Sorted(RangeLeq, sorted) && sorted != []
    ensures Sorted(RangeLeq, sorted + [sorted[|sorted| - 1]])
  {
    RangeOrder();
    hide RangeLeq;
  }

  lemma {:induction false} InSomeOf(a: seq<LexicalRange>, b: seq<LexicalRange>, path: string)
    requires forall x :: x in a <==> x in b
    ensures InSome(a, path) <==> InSome(b, path)
  {
    hide InRange;
    if i :| 0 <= i < |a| && InRange(a[i], path) {
      assert a[i] in b;
    }
    if i :| 0 <= i < |b| && InRange(b[i], path) {
      assert b[i] in a;
    }
  }

  // ----------------------------------------------------------- single paths

  function Deduped(sorted: seq<string>): (r: seq<string>)
    ensures forall x :: x in r <==> x in sorted
    ensures sorted != [] ==> r != [] && r[|r| - 1] == sorted[|sorted| - 1]
  {
    if sorted == [] then []
    else
      var init, last := sorted[..|sorted| - 1], sorted[|sorted| - 1];
      assert sorted == init + [last];
      var r := Deduped(init);
      if r != [] && r[|r| - 1] == last then r else r + [last]
  }

  predicate Increasing(s: seq<string>)
  {
    forall i, j :: 0 <= i < j < |s| ==> Less(s[i], s[j])
  }

  lemma {:induction false} TextOrder()
    ensures TotalOrder(Leq)
  {
    forall a, b ensures Leq(a, b) || Leq(b, a) {
      LeqTotal(a, b);
    }
    forall a, b, c | Leq(a, b) && Leq(b, c) ensures Leq(a, c) {
      LeqTransitive(a, b, c);
    }
  }

  lemma {:induction false} DedupedIncreases(sorted: seq<string>)
    requires Sorted(Leq, sorted)
    ensures Increasing(Deduped(sorted))
  {
    if sorted != [] {
      var init, last := sorted[..|sorted| - 1], sorted[|sorted| - 1];
      SortedStart(sorted, init, last);
      DedupedIncreases(init);
      var r := Deduped(init);
      hide Leq, Sorted;
      assert forall i :: 0 <= i < |r| ==> r[i] in init;
      if r != [] && r[|r| - 1] != last {
        LastIsLess(r, last);
      }
    }
  }

  lemma {:induction false} SortedStart(sorted: seq<string>, init: seq<string>, last: string)
    requires Sorted(Leq, sorted) && sorted != [] && init == sorted[..|sorted| - 1] && last == sorted[|sorted| - 1]
    ensures Sorted(Leq, init) && forall x :: x in init ==> Leq(x, last)
  {
    hide Leq;
    forall x | x in init ensures Leq(x, last) {
      var k :| 0 <= k < |init| && init[k] == x;
      assert sorted[k] == x;
    }
  }

  lemma {:induction false} LastIsLess(r: seq<string>, last: string)
    requires Increasing(r) && r != [] && r[|r| - 1] != last && forall i :: 0 <= i < |r| ==> Leq(r[i], last)
    ensures forall i :: 0 <= i < |r| ==> Less(r[i], last)
  {
    hide Leq;
    var top := r[|r| - 1];
    LeqTotal(top, last);
    forall i | 0 <= i < |r| ensures Less(r[i], last) {
      if i < |r| - 1 {
        LessThrough(r[i], top, last);
      }
    }
  }

  /** Drops the paths inside some range; the cursor over the ranges only advances. */
  method RetainUncoveredExacts(exact: seq<string>, ranges: seq<LexicalRange>) returns (kept: seq<string>)
    requires Increasing(exact) && Disjoint(ranges)
    ensures kept == Uncovered(exact, ranges)
  {
    hide Leq, Less, InRange, InSome, Increasing, Disjoint;
    kept := [];
    var index := 0;
    for i := 0 to |exact|
      invariant 0 <= index <= |ranges|
      invariant forall k, j :: 0 <= k < index && i <= j < |exact| ==> Behind(ranges[k], exact[j])
      invariant kept == Uncovered(exact[..i], ranges)
    {
      var path := exact[i];
      while index < |ranges| && Behind(ranges[index], path)
        invariant 0 <= index <= |ranges|
        invariant forall k, j :: 0 <= k < index && i <= j < |exact| ==> Behind(ranges[k], exact[j])
        decreases |ranges| - index
      {
        BehindAll(exact, i, ranges[index]);
        index := index + 1;
      }
      CursorFinds(ranges, index, path);
      assert exact[..i + 1] == exact[..i] + [path];
      UncoveredSnoc(exact[..i], path, ranges);
      if index == |ranges| || !InRange(ranges[index], path) {
        kept := kept + [path];
      }
    }
    assert exact[..|exact|] == exact;
  }

  /** The range ends at or before the path. */
  predicate Behind(range: LexicalRange, path: string)
  {
    range.upper.Some? && Leq(range.upper.value, path)
  }

  lemma {:induction false} BehindAll(exact: seq<string>, i: nat, range: LexicalRange)
    requires Increasing(exact) && i < |exact| && Behind(range, exact[i])
    ensures forall j :: i <= j < |exact| ==> Behind(range, exact[j])
  {
    hide Leq;
    forall j | i <= j < |exact| ensures Behind(range, exact[j]) {
      if i < j {
        assert Less(exact[i], exact[j]);
        LeqTotal(exact[i], exact[j]);
        LeqTransitive(range.upper.value, exact[i], exact[j]);
      }
    }
  }

  /** Behind no range after the cursor: the one at the cursor decides. */
  lemma {:induction false} CursorFinds(ranges: seq<LexicalRange>, index: nat, path: string)
    requires Disjoint(ranges) && index <= |ranges|
    requires forall k :: 0 <= k < index ==> Behind(ranges[k], path)
    requires index < |ranges| ==> !Behind(ranges[index], path)
    ensures InSome(ranges, path) <==> index < |ranges| && InRange(ranges[index], path)
  {
    hide Leq;
    if i :| 0 <= i < |ranges| && InRange(ranges[i], path) {
      if index < i {
        assert Less(ranges[index].upper.value, ranges[i].lower);
        LessThrough(ranges[index].upper.value, ranges[i].lower, path);
        LeqTotal(ranges[index].upper.value, path);
      }
    }
  }

  ghost function Uncovered(exact: seq<string>, ranges: seq<LexicalRange>): seq<string>
  {
    if exact == [] then []
    else
      Uncovered(exact[..|exact| - 1], ranges) +
      if InSome(ranges, exact[|exact| - 1]) then [] else [exact[|exact| - 1]]
  }

  lemma {:induction false} UncoveredSnoc(exact: seq<string>, path: string, ranges: seq<LexicalRange>)
    ensures Uncovered(exact + [path], ranges) == Uncovered(exact, ranges) + if InSome(ranges, path) then [] else [path]
  {
    assert (exact + [path])[..|exact|] == exact;
  }

  lemma {:induction false} UncoveredIs(exact: seq<string>, ranges: seq<LexicalRange>)
    requires Increasing(exact)
    ensures forall x :: x in Uncovered(exact, ranges) <==> x in exact && !InSome(ranges, x)
    ensures Increasing(Uncovered(exact, ranges))
  {
    if exact != [] {
      var init, last := exact[..|exact| - 1], exact[|exact| - 1];
      assert exact == init + [last];
      hide InSome, Less, Leq;
      UncoveredSnoc(init, last, ranges);
      UncoveredIs(init, ranges);
      var r := Uncovered(init, ranges);
      hide Uncovered;
      forall i | 0 <= i < |r| ensures Less(r[i], last) {
        assert r[i] in init;
        var k :| 0 <= k < |init| && init[k] == r[i];
        assert Less(exact[k], exact[|init|]);
      }
    }
  }

  // --------------------------------------------------------------- the span

  datatype Span = All | Empty | Union(ranges: seq<LexicalRange>, exact: seq<string>)

  predicate Holds(span: Span, path: string)
  {
    match span
    case All => true
    case Empty => false
    case Union(ranges, exact) => InSome(ranges, path) || path in exact
  }

  ghost predicate SomeAdmits(bounds: seq<Bounds>, path: string)
  {
    exists i :: 0 <= i < |bounds| && Admits(bounds[i], path)
  }

  lemma {:induction false} SomeAdmitsSnoc(bounds: seq<Bounds>, last: Bounds, path: string)
    ensures SomeAdmits(bounds + [last], path) <==> SomeAdmits(bounds, path) || Admits(last, path)
  {
    hide Admits;
    if i :| 0 <= i < |bounds| && Admits(bounds[i], path) {
      assert (bounds + [last])[i] == bounds[i];
    }
    assert (bounds + [last])[|bounds|] == last;
  }

  /** What the loop over the bounds has gathered covers the bounds seen. */
  ghost predicate Gathered(bounds: seq<Bounds>, ranges: seq<LexicalRange>, exact: seq<string>)
  {
    && (forall path :: SomeAdmits(bounds, path) <==> InSome(ranges, path) || path in exact)
    && (ranges == [] && exact == [] <==> bounds == [])
  }

  lemma {:induction false} GatherStep(bounds: seq<Bounds>, bound: Bounds, ranges: seq<LexicalRange>, exact: seq<string>)
    requires Gathered(bounds, ranges, exact)
    ensures match bound
            case AnyRow => true
            case Subtree(scope) =>
              Gathered(bounds + [bound], ranges + [ForPrefix(WithoutSlash(scope) + "/")], exact + [WithoutSlash(scope)])
            case WithPrefix(prefix) => Gathered(bounds + [bound], ranges + [ForPrefix(prefix)], exact)
            case ExactRow(path) => Gathered(bounds + [bound], ranges, exact + [path])
    ensures bound.AnyRow? || bound == WithPrefix("") ==> forall more, path :: SomeAdmits(bounds + [bound] + more, path)
  {
    hide SomeAdmits, InSome, ForPrefix, WithoutSlash, IsOrUnder, Admits;
    forall path ensures SomeAdmits(bounds + [bound], path) <==> SomeAdmits(bounds, path) || Admits(bound, path) {
      SomeAdmitsSnoc(bounds, bound, path);
    }
    AdmitsIs(bound, ranges, exact);
    if bound.AnyRow? || bound == WithPrefix("") {
      forall more, path ensures SomeAdmits(bounds + [bound] + more, path) {
        AdmitsEverything(bounds, bound, more, path);
      }
    }
  }

  lemma {:induction false} AdmitsEverything(bounds: seq<Bounds>, bound: Bounds, more: seq<Bounds>, path: string)
    requires bound.AnyRow? || bound == WithPrefix("")
    ensures SomeAdmits(bounds + [bound] + more, path)
  {
    assert (bounds + [bound] + more)[|bounds|] == bound;
    assert Admits(bound, path);
  }

  lemma {:induction false} AdmitsIs(bound: Bounds, ranges: seq<LexicalRange>, exact: seq<string>)
    ensures match bound
            case AnyRow => true
            case Subtree(scope) => forall path ::
              InSome(ranges + [ForPrefix(WithoutSlash(scope) + "/")], path) ||
                path in exact + [WithoutSlash(scope)] <==>
              InSome(ranges, path) || path in exact || Admits(bound, path)
            case WithPrefix(prefix) => forall path ::
              InSome(ranges + [ForPrefix(prefix)], path) <==> InSome(ranges, path) || Admits(bound, path)
            case ExactRow(exactly) => forall path :: path in exact + [exactly] <==> path in exact || Admits(bound, path)
  {
    hide InSome, WithoutSlash, ForPrefix;
    match bound
    case AnyRow =>
    case Subtree(scope) =>
      var base := WithoutSlash(scope);
      forall path
        ensures InSome(ranges + [ForPrefix(base + "/")], path) <==> InSome(ranges, path) || base + "/" <= path
        ensures IsOrUnder(path, base) <==> path == base || base + "/" <= path
      {
        InSomeSnoc(ranges, ForPrefix(base + "/"), path);
        RangeIsPrefix(base + "/", path);
        UnderIsSlash(path, base);
      }
    case WithPrefix(prefix) =>
      forall path ensures InSome(ranges + [ForPrefix(prefix)], path) <==> InSome(ranges, path) || prefix <= path {
        InSomeSnoc(ranges, ForPrefix(prefix), path);
        RangeIsPrefix(prefix, path);
      }
    case ExactRow(exactly) =>
  }

  lemma {:induction false} UnderIsSlash(path: string, base: string)
    ensures IsOrUnder(path, base) <==> path == base || base + "/" <= path
  {
    if base + "/" <= path {
      assert path[..|base|] == base;
    }
    if IsOrUnder(path, base) && path != base {
      assert path[..|base| + 1] == base + "/";
    }
  }

  /** The span holds exactly the paths some bound admits, and looks each of them up once. */
  method SpanFromBounds(bounds: seq<Bounds>) returns (span: Span)
    ensures forall path :: Holds(span, path) <==> SomeAdmits(bounds, path)
    ensures span.Empty? <==> bounds == []
    ensures span.Union? ==> Disjoint(span.ranges) && Increasing(span.exact)
    ensures span.Union? ==> forall path :: path in span.exact ==> !InSome(span.ranges, path)
  {
    hide SomeAdmits, InSome, ForPrefix, WithoutSlash, Gathered, Disjoint, Increasing, Deduped, Sort;
    var ranges: seq<LexicalRange> := [];
    var exact: seq<string> := [];
    NothingGathered();
    for i := 0 to |bounds|
      invariant Gathered(bounds[..i], ranges, exact)
    {
      var bound := bounds[i];
      GatherStep(bounds[..i], bound, ranges, exact);
      assert bounds[..i + 1] == bounds[..i] + [bound];
      assert bounds == bounds[..i] + [bound] + bounds[i + 1..];
      match bound
      case AnyRow => return All;
      case Subtree(s) =>
        var scope := WithoutSlash(s);
        exact := exact + [scope];
        ranges := ranges + [ForPrefix(scope + "/")];
      case WithPrefix(prefix) =>
        if prefix == "" {
          return All;
        }
        ranges := ranges + [ForPrefix(prefix)];
      case ExactRow(path) => exact := exact + [path];
    }
    assert bounds[..|bounds|] == bounds;
    GatheredAll(bounds, ranges, exact);
    if ranges == [] && exact == [] {
      return Empty;
    }
    var coalesced := CoalesceRanges(ranges);
    CoalescingForAll(ranges);
    var sorted := Deduped(Sort(Leq, exact));
    SortedExacts(exact);
    var kept := RetainUncoveredExacts(sorted, coalesced);
    UncoveredIs(sorted, coalesced);
    return Union(coalesced, kept);
  }

  lemma {:induction false} NothingGathered()
    ensures Gathered([], [], [])
  {
  }

  lemma {:induction false} GatheredAll(bounds: seq<Bounds>, ranges: seq<LexicalRange>, exact: seq<string>)
    requires Gathered(bounds, ranges, exact)
    ensures forall path :: SomeAdmits(bounds, path) <==> InSome(ranges, path) || path in exact
    ensures ranges == [] && exact == [] <==> bounds == []
    ensures bounds == [] ==> forall path :: !SomeAdmits(bounds, path)
  {
    hide InSome;
  }

  lemma {:induction false} CoalescingForAll(ranges: seq<LexicalRange>)
    ensures Disjoint(Coalesced(Sort(RangeLeq, ranges)))
    ensures forall path :: InSome(Coalesced(Sort(RangeLeq, ranges)), path) <==> InSome(ranges, path)
  {
    hide *;
    CoalescingIsSound(ranges, "");
    forall path ensures InSome(Coalesced(Sort(RangeLeq, ranges)), path) <==> InSome(ranges, path) {
      CoalescingIsSound(ranges, path);
    }
  }

  lemma {:induction false} SortedExacts(exact: seq<string>)
    ensures Increasing(Deduped(Sort(Leq, exact)))
    ensures forall x :: x in Deduped(Sort(Leq, exact)) <==> x in exact
  {
    hide Deduped, Sort, Increasing, Leq;
    TextOrder();
    SortSorts(Leq, exact);
    DedupedIncreases(Sort(Leq, exact));
  }

  /** One separator at the end of a scope does not matter. */
  lemma {:induction false} ScopeSlashIgnored(scope: string, path: string)
    requires scope != "" && scope[|scope| - 1] != '/'
    ensures Admits(Subtree(scope + "/"), path) <==> IsOrUnder(path, scope)
    ensures Admits(Subtree(scope), path) <==> IsOrUnder(path, scope)
  {
    assert (scope + "/")[..|scope|] == scope;
  }

  // ------------------------------------------------- queries for selections

  function JoinScope(scope: string, rel: string): string
  {
    if rel == "" then scope else scope + "/" + rel
  }

  /** The bound one included pattern puts on the selected paths; none for any path. */
  function BoundUnder(scope: PathScope, glob: Glob): Bounds
    requires glob.firstMeta.Some? ==> glob.firstMeta.value <= |glob.text|
  {
    match BoundOf(glob)
    case AnyPath => AnyRow
    case Exact(path) => ExactRow(if scope.RootScope? then path else JoinScope(scope.path, path))
    case Prefix(prefix) => WithPrefix(if scope.RootScope? then prefix else JoinScope(scope.path, prefix))
  }

  function InScope(scope: PathScope): Bounds
  {
    match scope
    case RootScope => AnyRow
    case Scope(path) => Subtree(path)
  }

  ghost predicate ValidSelection(s: Selection)
  {
    forall i :: 0 <= i < |s.included| ==> ValidGlob(s.included[i])
  }

  /** Without inclusions, or with one that has no bound, a whole scope is looked up; otherwise
      what the inclusions' bounds admit. */
  ghost predicate LooksUp(s: Selection, path: string)
    requires ValidSelection(s)
  {
    AllFit(s);
    if s.included == [] || exists i :: 0 <= i < |s.included| && BoundOf(s.included[i]).AnyPath? then
      Admits(InScope(s.scope), path)
    else exists i :: 0 <= i < |s.included| && Admits(BoundUnder(s.scope, s.included[i]), path)
  }

  lemma {:induction false} AllFit(s: Selection)
    requires ValidSelection(s)
    ensures forall i :: 0 <= i < |s.included| ==> BoundFits(s.included[i])
  {
    hide ValidGlob, BoundFits;
    forall i | 0 <= i < |s.included| ensures BoundFits(s.included[i]) {
      BoundFitsValid(s.included[i]);
    }
  }

  /** The rows looked up for a selection hold every row it selects, and only what its scope or
      bounds admit. */
  method QueryForSelection(s: Selection) returns (span: Span)
    requires ValidSelection(s)
    ensures forall path: GatPath :: SelectsPath(s, path) ==> Holds(span, path)
    ensures forall path :: Holds(span, path) <==> LooksUp(s, path)
  {
    hide SelectsPath, Holds, SomeAdmits, ValidGlob, LooksUp;
    if s.included == [] {
      span := SpanFromBounds([InScope(s.scope)]);
      ScopeHolds(s);
      ScopeLookedUp(s);
      return;
    }
    var bounds: seq<Bounds> := [];
    for i := 0 to |s.included|
      invariant |bounds| == i
      invariant forall k :: 0 <= k < i ==> BoundFits(s.included[k]) && bounds[k] == BoundUnder(s.scope, s.included[k])
      invariant forall k :: 0 <= k < i ==> !bounds[k].AnyRow?
    {
      BoundFitsValid(s.included[i]);
      var bound := BoundUnder(s.scope, s.included[i]);
      if bound.AnyRow? {
        span := SpanFromBounds([InScope(s.scope)]);
        ScopeHolds(s);
        assert BoundOf(s.included[i]).AnyPath?;
        ScopeLookedUp(s);
        return;
      }
      bounds := bounds + [bound];
    }
    span := SpanFromBounds(bounds);
    IncludesHold(s, bounds);
    BoundsLookedUp(s, bounds);
  }

  lemma {:induction false} ScopeLookedUp(s: Selection)
    requires ValidSelection(s)
    requires s.included == [] ||
             exists i :: 0 <= i < |s.included| && BoundFits(s.included[i]) && BoundOf(s.included[i]).AnyPath?
    ensures forall path :: LooksUp(s, path) <==> SomeAdmits([InScope(s.scope)], path)
  {
    hide ValidGlob, Admits, InScope;
    AllFit(s);
    forall path ensures SomeAdmits([InScope(s.scope)], path) <==> Admits(InScope(s.scope), path) {
      assert [InScope(s.scope)][0] == InScope(s.scope);
    }
  }

  lemma {:induction false} BoundsLookedUp(s: Selection, bounds: seq<Bounds>)
    requires ValidSelection(s) && s.included != [] && |bounds| == |s.included|
    requires forall k :: 0 <= k < |bounds| ==>
             BoundFits(s.included[k]) && bounds[k] == BoundUnder(s.scope, s.included[k]) && !bounds[k].AnyRow?
    ensures forall path :: LooksUp(s, path) <==> SomeAdmits(bounds, path)
  {
    hide ValidGlob, Admits;
    AllFit(s);
    forall k | 0 <= k < |bounds| ensures !BoundOf(s.included[k]).AnyPath? {
      assert !BoundUnder(s.scope, s.included[k]).AnyRow?;
    }
    hide BoundUnder;
    forall path ensures LooksUp(s, path) <==> SomeAdmits(bounds, path) {
      if i :| 0 <= i < |bounds| && Admits(bounds[i], path) {
        assert Admits(BoundUnder(s.scope, s.included[i]), path);
      }
    }
  }

  predicate BoundFits(glob: Glob)
  {
    glob.firstMeta.Some? ==> glob.firstMeta.value <= |glob.text|
  }

  lemma {:induction false} BoundFitsValid(glob: Glob)
    requires ValidGlob(glob)
    ensures BoundFits(glob)
  {
    hide Compile;
  }

  lemma {:induction false} ScopeHolds(s: Selection)
    ensures forall path: GatPath :: SelectsPath(s, path) ==> SomeAdmits([InScope(s.scope)], path)
  {
    hide FilterMatches;
    forall path: GatPath | SelectsPath(s, path) ensures SomeAdmits([InScope(s.scope)], path) {
      if s.scope.Scope? {
        NoSlashToDrop(s.scope.path);
      }
      assert Admits([InScope(s.scope)][0], path);
    }
  }

  lemma {:induction false} NoSlashToDrop(path: GatPath)
    ensures WithoutSlash(path) == path
  {
    CanonicalShape(path);
  }

  lemma {:induction false} IncludesHold(s: Selection, bounds: seq<Bounds>)
    requires ValidSelection(s) && s.included != [] && |bounds| == |s.included|
    requires forall k :: 0 <= k < |bounds| ==>
             BoundFits(s.included[k]) && bounds[k] == BoundUnder(s.scope, s.included[k])
    ensures forall path: GatPath :: SelectsPath(s, path) ==> SomeAdmits(bounds, path)
  {
    hide ValidGlob, Matches, Admits, BoundUnder;
    forall path: GatPath | SelectsPath(s, path) ensures SomeAdmits(bounds, path) {
      var rel := Relative(s.scope, path).value;
      var i :| 0 <= i < |s.included| && Matches(s.included[i], rel);
      IncludeAdmits(s.scope, s.included[i], path, rel);
      assert Admits(bounds[i], path);
    }
  }

  lemma {:induction false} IncludeAdmits(scope: PathScope, glob: Glob, path: GatPath, rel: string)
    requires ValidGlob(glob) && Matches(glob, rel) && Relative(scope, path) == Some(rel) && BoundFits(glob)
    ensures Admits(BoundUnder(scope, glob), path)
  {
    hide ValidGlob, Matches;
    BoundIsSound(glob, rel);
    RelativeIsJoined(scope, path, rel);
    hide Relative;
    if scope.Scope? {
      match BoundOf(glob)
      case AnyPath =>
      case Exact(exact) =>
      case Prefix(prefix) =>
        SharedPrefix(scope.path + "/", prefix, rel);
    }
  }

  /** Inside the scope the bound under a scope admits what the pattern's own bound holds. */
  lemma {:induction false} BoundUnderIsBound(scope: PathScope, glob: Glob, path: GatPath, rel: string)
    requires BoundFits(glob) && Relative(scope, path) == Some(rel)
    ensures Admits(BoundUnder(scope, glob), path) <==> InBound(BoundOf(glob), rel)
  {
    RelativeIsJoined(scope, path, rel);
    hide Relative;
    if scope.Scope? {
      match BoundOf(glob)
      case AnyPath =>
      case Exact(exact) => JoinScopeInjective(scope.path, exact, rel);
      case Prefix(prefix) => JoinScopePrefix(scope.path, prefix, rel);
    }
  }

  lemma {:induction false} JoinScopeInjective(scope: string, a: string, b: string)
    ensures JoinScope(scope, a) == JoinScope(scope, b) <==> a == b
  {
    assert a != "" ==> JoinScope(scope, a)[|scope| + 1..] == a && |JoinScope(scope, a)| > |scope|;
    assert b != "" ==> JoinScope(scope, b)[|scope| + 1..] == b && |JoinScope(scope, b)| > |scope|;
  }

  lemma {:induction false} JoinScopePrefix(scope: string, prefix: string, rel: string)
    requires prefix != ""
    ensures JoinScope(scope, prefix) <= JoinScope(scope, rel) <==> prefix <= rel
  {
    SharedPrefix(scope + "/", prefix, rel);
  }

  lemma {:induction false} RelativeIsJoined(scope: PathScope, path: GatPath, rel: string)
    requires Relative(scope, path) == Some(rel)
    ensures path == if scope.RootScope? then rel else JoinScope(scope.path, rel)
  {
    CanonicalShape(path);
  }
}
