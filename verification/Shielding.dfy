/** Hiding the references of a template behind plain placeholders while its URL is rendered,
    and putting them back afterwards (src/redaction.rs). */
module Shielding {
  import opened Text
  import opened Template

  const UNPARSEABLE := "<unparseable-url-redacted>"
  const MARKER := "gat-template-shield-"

  // -------------------------------------------------------- a fresh marker

  function LowerChar(c: char): char
  {
    if 'A' <= c <= 'Z' then (c as int + 32) as char else c
  }

  function Lower(s: string): (r: string)
    ensures |r| == |s|
  {
    seq(|s|, i requires 0 <= i < |s| => LowerChar(s[i]))
  }

  /** Letters are put in lower case, position for position, and nothing else is changed. */
  lemma {:induction false} LowerIs(s: string, i: nat)
    requires i < |s|
    ensures forall n :: 0 <= n < 26 && s[i] == "ABCDEFGHIJKLMNOPQRSTUVWXYZ"[n] ==>
              Lower(s)[i] == "abcdefghijklmnopqrstuvwxyz"[n]
    ensures s[i] !in "ABCDEFGHIJKLMNOPQRSTUVWXYZ" ==> Lower(s)[i] == s[i]
  {
    AlphabetIs();
    if 'A' <= s[i] <= 'Z' {
      assert "ABCDEFGHIJKLMNOPQRSTUVWXYZ"[s[i] as int - 'A' as int] == s[i];
    }
  }

  lemma {:induction false} AlphabetIs()
    ensures forall n :: 0 <= n < 26 ==> "ABCDEFGHIJKLMNOPQRSTUVWXYZ"[n] as int == 'A' as int + n
    ensures forall n :: 0 <= n < 26 ==> "abcdefghijklmnopqrstuvwxyz"[n] as int == 'a' as int + n
  {
  }

  function Repeat(c: char, n: nat): (r: string)
    ensures |r| == n
  {
    seq(n, _ => c)
  }

  /** The marker lengthened until `lower` does not contain it. */
  function Grown(lower: string, marker: string): string
    decreases |lower| + 1 - |marker|
  {
    if Find(lower, marker, 0).Some? then Grown(lower, marker + "x") else marker
  }

  function MarkerFor(raw: string): string
  {
    if '%' in raw then MARKER + Repeat('x', ByteLen(raw)) else Grown(Lower(raw), MARKER)
  }

  /** The marker with `n` letters appended. */
  function Extended(n: nat): string
  {
    MARKER + Repeat('x', n)
  }

  /** `marker` is the shortest extension that the text does not contain. */
  ghost predicate LeastAbsent(lower: string, marker: string)
  {
    exists n: nat ::
      && marker == Extended(n) && Find(lower, marker, 0).None?
      && forall m: nat :: m < n ==> Find(lower, Extended(m), 0).Some?
  }

  method ChooseMarker(raw: string) returns (marker: string)
    ensures marker == MarkerFor(raw)
    ensures if '%' in raw then marker == Extended(ByteLen(raw)) else LeastAbsent(Lower(raw), marker)
  {
    hide Find, Lower, ByteLen, Extended, Repeat;
    marker := MARKER;
    if '%' in raw {
      marker := marker + Repeat('x', ByteLen(raw));
      ExtendedIs(ByteLen(raw));
    } else {
      var lower := Lower(raw);
      ghost var n: nat := 0;
      ExtendedIs(0);
      while Find(lower, marker, 0).Some?
        invariant Grown(lower, marker) == Grown(lower, MARKER)
        invariant marker == Extended(n) && forall m: nat :: m < n ==> Find(lower, Extended(m), 0).Some?
        decreases |lower| + 1 - |marker|
      {
        ExtendedIs(n);
        marker := marker + "x";
        n := n + 1;
      }
      assert LeastAbsent(lower, marker);
    }
  }

  lemma {:induction false} ExtendedIs(n: nat)
    ensures Extended(n) == MARKER + Repeat('x', n) && Extended(n) + "x" == Extended(n + 1)
    ensures Extended(0) == MARKER
  {
    assert Repeat('x', n) + "x" == Repeat('x', n + 1);
  }

  /** What keeps a marker from overlapping itself, a reference or a number: `g` at its start
      only, a dash, and nothing of a reference's punctuation. */
  predicate MarkerShape(marker: string)
  {
    && |marker| > 3 && marker[0] == 'g' && marker[3] == '-'
    && (forall i :: 0 < i < |marker| ==> marker[i] != 'g')
    && '$' !in marker && '}' !in marker
  }

  /** Lower-case letters and dashes only. */
  predicate AllLower(s: string)
  {
    forall i :: 0 <= i < |s| ==> 'a' <= s[i] <= 'z' || s[i] == '-'
  }

  lemma {:induction false} GrowShape(marker: string, c: char)
    requires MarkerShape(marker) && AllLower(marker) && c == 'x'
    ensures MarkerShape(marker + [c]) && AllLower(marker + [c])
  {
  }

  lemma {:induction false} MarkerIsShaped()
    ensures MarkerShape(MARKER) && AllLower(MARKER)
  {
  }

  lemma {:induction false} RepeatShape(n: nat)
    ensures MarkerShape(MARKER + Repeat('x', n)) && AllLower(MARKER + Repeat('x', n))
  {
    MarkerIsShaped();
    var m := MARKER + Repeat('x', n);
    assert forall i :: |MARKER| <= i < |m| ==> m[i] == 'x';
    assert forall i :: 0 <= i < |MARKER| ==> m[i] == MARKER[i];
  }

  lemma {:induction false} GrownIsFresh(lower: string, marker: string)
    requires MarkerShape(marker) && AllLower(marker)
    ensures MarkerShape(Grown(lower, marker)) && AllLower(Grown(lower, marker))
    ensures forall k: nat :: !OccursAt(lower, Grown(lower, marker), k)
    decreases |lower| + 1 - |marker|
  {
    hide MarkerShape, AllLower;
    if Find(lower, marker, 0).Some? {
      GrowShape(marker, 'x');
      GrownIsFresh(lower, marker + "x");
    }
  }

  /** A text that holds an all-lower-case needle holds it in lower case too. */
  lemma {:induction false} LowerKeeps(raw: string, needle: string, k: nat)
    requires OccursAt(raw, needle, k) && AllLower(needle)
    ensures OccursAt(Lower(raw), needle, k)
  {
    var found := Lower(raw)[k..k + |needle|];
    assert forall i :: 0 <= i < |needle| ==> raw[k..k + |needle|][i] == raw[k + i] && found[i] == needle[i];
  }

  /** The chosen marker occurs nowhere in the template, whatever the case of its letters; if the
      template can hold escaped characters, the marker is longer than all of it. */
  lemma {:induction false} MarkerIsFresh(raw: string)
    ensures MarkerShape(MarkerFor(raw)) && AllLower(MarkerFor(raw))
    ensures forall k: nat :: !OccursAt(raw, MarkerFor(raw), k)
    ensures '%' !in raw ==> forall k: nat :: !OccursAt(Lower(raw), MarkerFor(raw), k)
    ensures '%' in raw ==> |MarkerFor(raw)| > ByteLen(raw)
  {
    hide MarkerShape, Find, AllLower, Lower;
    if '%' in raw {
      RepeatShape(ByteLen(raw));
    } else {
      MarkerIsShaped();
      GrownIsFresh(Lower(raw), MARKER);
      forall k: nat ensures !OccursAt(raw, MarkerFor(raw), k) {
        if OccursAt(raw, MarkerFor(raw), k) {
          LowerKeeps(raw, MarkerFor(raw), k);
        }
      }
    }
  }

  // ----------------------------------------------------------- placeholders

  function Decimal(n: nat): (s: string)
    ensures s != "" && forall i :: 0 <= i < |s| ==> '0' <= s[i] <= '9'
  {
    if n < 10 then ["0123456789"[n]] else Decimal(n / 10) + ["0123456789"[n % 10]]
  }

  function ValueOf(s: string): nat
  {
    if s == "" then 0
    else ValueOf(s[..|s| - 1]) * 10 + (if '0' <= s[|s| - 1] <= '9' then s[|s| - 1] as int - '0' as int else 0)
  }

  lemma {:induction false} ValueSnoc(s: string, c: char)
    requires '0' <= c <= '9'
    ensures ValueOf(s + [c]) == ValueOf(s) * 10 + (c as int - '0' as int)
  {
    assert (s + [c])[..|s|] == s;
  }

  lemma {:induction false} DigitValue(d: nat)
    requires d < 10
    ensures var c := "0123456789"[d]; '0' <= c <= '9' && c as int - '0' as int == d
  {
  }

  lemma {:induction false} DecimalValue(n: nat)
    ensures ValueOf(Decimal(n)) == n
  {
    hide ValueOf;
    DigitValue(n % 10);
    if n >= 10 {
      DecimalValue(n / 10);
      ValueSnoc(Decimal(n / 10), "0123456789"[n % 10]);
    } else {
      ValueSnoc("", "0123456789"[n]);
      assert "" + ["0123456789"[n]] == ["0123456789"[n]];
      ValueNothing();
    }
  }

  lemma {:induction false} ValueNothing()
    ensures ValueOf("") == 0
  {
  }

  function Placeholder(marker: string, i: nat): (s: string)
    ensures |s| > |marker|
  {
    marker + Decimal(i) + "z"
  }

  function Original(name: string): string
  {
    "${" + name + "}"
  }

  /** A placeholder stands in front of a placeholder only if they are the same. */
  lemma {:induction false} PlaceholderPrefix(marker: string, i: nat, j: nat, tail: string)
    requires Placeholder(marker, i) <= Placeholder(marker, j) + tail
    ensures i == j
  {
    var m := |marker|;
    var tail' := (Placeholder(marker, j) + tail)[|Placeholder(marker, i)|..];
    var di, dj := Decimal(i), Decimal(j);
    hide Decimal;
    assert Placeholder(marker, i) + tail' == Placeholder(marker, j) + tail;
    assert (Placeholder(marker, i) + tail')[m..] == di + ("z" + tail');
    assert (Placeholder(marker, j) + tail)[m..] == dj + ("z" + tail);
    SameDigits(di, dj, "z" + tail', "z" + tail);
    DecimalValue(i);
    DecimalValue(j);
  }

  lemma {:induction false} SameDigits(a: string, b: string, x: string, y: string)
    requires a + x == b + y && x != "" && x[0] == 'z' && y != "" && y[0] == 'z'
    requires 'z' !in a && 'z' !in b
    ensures a == b
  {
    assert (a + x)[..|a|] == a && (b + y)[..|b|] == b;
    IndexOfIs(a + x, 'z', |a|);
    IndexOfIs(b + y, 'z', |b|);
  }

  // ------------------------------------------------------------ replacement

  /** Every occurrence from left to right, none overlapping an earlier one. */
  function ReplaceAll(s: string, pattern: string, replacement: string): string
    requires pattern != ""
    decreases |s|
  {
    match Find(s, pattern, 0)
    case None => s
    case Some(k) => s[..k] + replacement + ReplaceAll(s[k + |pattern|..], pattern, replacement)
  }

  lemma {:induction false} FindIs(s: string, pattern: string, k: nat)
    requires OccursAt(s, pattern, k) && forall i: nat :: i < k ==> !OccursAt(s, pattern, i)
    ensures Find(s, pattern, 0) == Some(k)
  {
  }

  lemma {:induction false} OccursLater(head: string, tail: string, pattern: string, k: nat)
    requires k >= |head|
    ensures OccursAt(head + tail, pattern, k) <==> OccursAt(tail, pattern, k - |head|)
  {
    if k + |pattern| <= |head + tail| {
      assert (head + tail)[k..k + |pattern|] == tail[k - |head|..k - |head| + |pattern|];
    }
  }

  /** Text in which no occurrence starts stays as it is. */
  lemma {:induction false} ReplaceSkips(head: string, tail: string, pattern: string, replacement: string)
    requires pattern != "" && forall k: nat :: k < |head| ==> !OccursAt(head + tail, pattern, k)
    ensures ReplaceAll(head + tail, pattern, replacement) == head + ReplaceAll(tail, pattern, replacement)
  {
    hide *;
    ReplaceUnfolds(tail, pattern, replacement);
    ReplaceUnfolds(head + tail, pattern, replacement);
    match Find(tail, pattern, 0)
    case None =>
      NoneAfter(head, tail, pattern);
    case Some(at) =>
      FirstAfter(head, tail, pattern, at);
      OccurrenceFits(tail, pattern, at);
      SkipParts(head, tail, at, |pattern|);
      var rest := ReplaceAll(tail[at + |pattern|..], pattern, replacement);
      assert head + tail[..at] + replacement + rest == head + (tail[..at] + replacement + rest);
  }

  lemma {:induction false} ReplaceUnfolds(s: string, pattern: string, replacement: string)
    requires pattern != ""
    ensures match Find(s, pattern, 0)
            case None => ReplaceAll(s, pattern, replacement) == s
            case Some(k) =>
              k + |pattern| <= |s| &&
              ReplaceAll(s, pattern, replacement) ==
              s[..k] + replacement + ReplaceAll(s[k + |pattern|..], pattern, replacement)
  {
    hide Find;
  }

  lemma {:induction false} NoneAfter(head: string, tail: string, pattern: string)
    requires pattern != "" && forall k: nat :: k < |head| ==> !OccursAt(head + tail, pattern, k)
    requires Find(tail, pattern, 0) == None
    ensures Find(head + tail, pattern, 0) == None
  {
    hide OccursAt, Find;
    forall k: nat ensures !OccursAt(head + tail, pattern, k) {
      if k >= |head| {
        OccursLater(head, tail, pattern, k);
      }
    }
  }

  lemma {:induction false} FirstAfter(head: string, tail: string, pattern: string, at: nat)
    requires pattern != "" && forall k: nat :: k < |head| ==> !OccursAt(head + tail, pattern, k)
    requires Find(tail, pattern, 0) == Some(at)
    ensures Find(head + tail, pattern, 0) == Some(|head| + at)
  {
    hide OccursAt, Find;
    OccursLater(head, tail, pattern, |head| + at);
    forall k: nat | k < |head| + at ensures !OccursAt(head + tail, pattern, k) {
      if k >= |head| {
        OccursLater(head, tail, pattern, k);
      }
    }
    FindIs(head + tail, pattern, |head| + at);
  }

  lemma {:induction false} OccurrenceFits(s: string, pattern: string, k: nat)
    requires OccursAt(s, pattern, k)
    ensures k + |pattern| <= |s|
  {
  }

  lemma {:induction false} SkipParts(head: string, tail: string, at: nat, n: nat)
    requires at + n <= |tail|
    ensures (head + tail)[..|head| + at] == head + tail[..at]
    ensures (head + tail)[|head| + at + n..] == tail[at + n..]
  {
  }

  lemma {:induction false} ReplaceHits(pattern: string, tail: string, replacement: string)
    requires pattern != ""
    ensures ReplaceAll(pattern + tail, pattern, replacement) == replacement + ReplaceAll(tail, pattern, replacement)
  {
    assert OccursAt(pattern + tail, pattern, 0);
    FindIs(pattern + tail, pattern, 0);
    assert (pattern + tail)[|pattern|..] == tail;
  }

  // ------------------------------------------- pieces and holes of a template

  /** Literal pieces with something in each hole between two of them. */
  function Weave(pieces: seq<string>, holes: seq<string>): string
    requires |pieces| == |holes| + 1
  {
    if holes == [] then pieces[0] else pieces[0] + holes[0] + Weave(pieces[1..], holes[1..])
  }

  /** A placeholder or a reference, the two things a hole can hold. */
  ghost predicate IsHole(marker: string, hole: string)
  {
    (exists j: nat :: hole == Placeholder(marker, j)) ||
      (exists name :: IsEnvironmentName(name) && hole == Original(name))
  }

  ghost predicate MarkerFree(marker: string, piece: string)
  {
    forall k: nat :: !OccursAt(piece, marker, k)
  }

  lemma {:induction false} PlaceholderShape(marker: string, j: nat)
    requires MarkerShape(marker)
    ensures var p := Placeholder(marker, j);
            p[0] == 'g' && p[..|marker|] == marker && forall i :: 0 < i < |p| ==> p[i] != 'g'
  {
    var p := Placeholder(marker, j);
    assert forall i :: 0 <= i < |marker| ==> p[i] == marker[i];
    assert forall i :: |marker| <= i < |p| - 1 ==> p[i] == Decimal(j)[i - |marker|];
  }

  lemma {:induction false} OriginalShape(name: string)
    requires IsEnvironmentName(name)
    ensures var o := Original(name);
            o[0] == '$' && o[|o| - 1] == '}' && '-' !in o
  {
    var o := Original(name);
    forall i | 0 <= i < |o| ensures o[i] != '-' {
      if 2 <= i < |o| - 1 {
        assert o[i] == name[i - 2];
      }
    }
  }

  lemma {:induction false} StartsWithMarker(text: string, marker: string, j: nat, k: nat)
    requires OccursAt(text, Placeholder(marker, j), k)
    ensures OccursAt(text, marker, k)
  {
    var p := Placeholder(marker, j);
    hide Decimal;
    assert text[k..k + |marker|] == text[k..k + |p|][..|marker|] == marker;
  }

  lemma {:induction false} CharOfMatch(text: string, pattern: string, k: nat, i: nat)
    requires OccursAt(text, pattern, k) && i < |pattern|
    ensures text[k + i] == pattern[i]
  {
    assert text[k..k + |pattern|][i] == text[k + i];
  }

  /** A marker cannot run out of a piece into the `g` or the `$` behind it. */
  lemma {:induction false} MarkerInPiece(marker: string, piece: string, tail: string, k: nat)
    requires MarkerShape(marker) && k < |piece|
    requires tail == "" || tail[0] == 'g' || tail[0] == '$'
    ensures OccursAt(piece + tail, marker, k) ==> OccursAt(piece, marker, k)
  {
    if OccursAt(piece + tail, marker, k) {
      if k + |marker| <= |piece| {
        assert (piece + tail)[k..k + |marker|] == piece[k..k + |marker|];
      } else {
        CharOfMatch(piece + tail, marker, k, |piece| - k);
      }
    }
  }

  lemma {:induction false} NothingInPiece(marker: string, piece: string, tail: string, j: nat, k: nat)
    requires MarkerShape(marker) && MarkerFree(marker, piece) && k < |piece|
    requires tail == "" || tail[0] == 'g' || tail[0] == '$'
    ensures !OccursAt(piece + tail, Placeholder(marker, j), k)
  {
    hide Placeholder, MarkerShape, OccursAt;
    if OccursAt(piece + tail, Placeholder(marker, j), k) {
      StartsWithMarker(piece + tail, marker, j, k);
      MarkerInPiece(marker, piece, tail, k);
    }
  }

  /** No placeholder starts inside a reference: its dash or its `g` would have to be there, or
      its marker to hold the closing brace. */
  lemma {:induction false} NothingInOriginal(marker: string, name: string, tail: string, j: nat, k: nat)
    requires MarkerShape(marker) && IsEnvironmentName(name) && k < |Original(name)|
    ensures !OccursAt(Original(name) + tail, Placeholder(marker, j), k)
  {
    OriginalShape(name);
    var last := |Original(name)| - 1;
    hide Placeholder, Original, IsEnvironmentName;
    if OccursAt(Original(name) + tail, Placeholder(marker, j), k) {
      StartsWithMarker(Original(name) + tail, marker, j, k);
      CharOfMatch(Original(name) + tail, marker, k, if k + 3 <= last then 3 else last - k);
    }
  }

  /** Inside a placeholder no other starts, and at its start only itself. */
  lemma {:induction false} OnlyItself(marker: string, i: nat, tail: string, j: nat, k: nat)
    requires MarkerShape(marker) && k < |Placeholder(marker, i)|
    ensures OccursAt(Placeholder(marker, i) + tail, Placeholder(marker, j), k) <==> k == 0 && i == j
  {
    var p, q := Placeholder(marker, i), Placeholder(marker, j);
    var text := p + tail;
    PlaceholderShape(marker, i);
    hide Placeholder;
    if OccursAt(text, q, k) {
      StartsWithMarker(text, marker, j, k);
      CharOfMatch(text, marker, k, 0);
      if k == 0 {
        assert q <= text by { assert text[0..|q|] == q; }
        PlaceholderPrefix(marker, j, i, tail);
      }
    }
    assert text[0..|p|] == p;
  }

  // ---------------------------------------------------------- putting it back

  /** Each hole holding `pattern` filled with `replacement` instead. */
  function Refilled(holes: seq<string>, pattern: string, replacement: string): (r: seq<string>)
    ensures |r| == |holes|
  {
    seq(|holes|, i requires 0 <= i < |holes| => if holes[i] == pattern then replacement else holes[i])
  }

  lemma {:induction false} ReplaceHole(marker: string, hole: string, tail: string, j: nat, by': string)
    requires MarkerShape(marker) && IsHole(marker, hole)
    ensures ReplaceAll(hole + tail, Placeholder(marker, j), by') ==
            (if hole == Placeholder(marker, j) then by' else hole) + ReplaceAll(tail, Placeholder(marker, j), by')
  {
    hide ReplaceAll, Placeholder, Original, IsEnvironmentName, MarkerShape;
    if hole == Placeholder(marker, j) {
      ReplaceHits(hole, tail, by');
    } else {
      forall k: nat | k < |hole| ensures !OccursAt(hole + tail, Placeholder(marker, j), k) {
        if i: nat :| hole == Placeholder(marker, i) {
          OnlyItself(marker, i, tail, j, k);
        } else {
          var name :| IsEnvironmentName(name) && hole == Original(name);
          NothingInOriginal(marker, name, tail, j, k);
        }
      }
      ReplaceSkips(hole, tail, Placeholder(marker, j), by');
    }
  }

  lemma {:induction false} HoleStart(marker: string, hole: string)
    requires MarkerShape(marker) && IsHole(marker, hole)
    ensures hole != "" && (hole[0] == 'g' || hole[0] == '$')
  {
    hide IsEnvironmentName;
    if j: nat :| hole == Placeholder(marker, j) {
      PlaceholderShape(marker, j);
    }
  }

  lemma {:induction false} ReplacePiece(marker: string, piece: string, tail: string, j: nat, by': string)
    requires MarkerShape(marker) && MarkerFree(marker, piece)
    requires tail == "" || tail[0] == 'g' || tail[0] == '$'
    ensures ReplaceAll(piece + tail, Placeholder(marker, j), by') ==
            piece + ReplaceAll(tail, Placeholder(marker, j), by')
  {
    hide ReplaceAll, Placeholder, MarkerShape, MarkerFree;
    forall k: nat | k < |piece| ensures !OccursAt(piece + tail, Placeholder(marker, j), k) {
      NothingInPiece(marker, piece, tail, j, k);
    }
    ReplaceSkips(piece, tail, Placeholder(marker, j), by');
  }

  /** Replacing one placeholder fills its holes and changes nothing else. */
  lemma {:induction false} ReplaceInWeave(marker: string, pieces: seq<string>, holes: seq<string>, j: nat, by': string)
    requires MarkerShape(marker) && |pieces| == |holes| + 1
    requires forall i :: 0 <= i < |pieces| ==> MarkerFree(marker, pieces[i])
    requires forall i :: 0 <= i < |holes| ==> IsHole(marker, holes[i])
    ensures ReplaceAll(Weave(pieces, holes), Placeholder(marker, j), by') ==
            Weave(pieces, Refilled(holes, Placeholder(marker, j), by'))
  {
    hide MarkerShape, MarkerFree, IsHole, Placeholder, ReplaceAll;
    if holes == [] {
      ReplacePiece(marker, pieces[0], "", j, by');
      ReplaceNothing(Placeholder(marker, j), by');
      assert pieces[0] + "" == pieces[0];
    } else {
      var rest, filled := Weave(pieces[1..], holes[1..]), Refilled(holes, Placeholder(marker, j), by');
      ReplaceInWeave(marker, pieces[1..], holes[1..], j, by');
      assert Refilled(holes[1..], Placeholder(marker, j), by') == filled[1..];
      HoleStart(marker, holes[0]);
      ReplacePiece(marker, pieces[0], holes[0] + rest, j, by');
      ReplaceHole(marker, holes[0], rest, j, by');
      assert pieces[0] + holes[0] + rest == pieces[0] + (holes[0] + rest);
      assert pieces[0] + (filled[0] + Weave(pieces[1..], filled[1..])) ==
             pieces[0] + filled[0] + Weave(pieces[1..], filled[1..]);
    }
  }

  lemma {:induction false} ReplaceNothing(pattern: string, replacement: string)
    requires pattern != ""
    ensures ReplaceAll("", pattern, replacement) == ""
  {
  }

  function Placeholders(marker: string, n: nat): (r: seq<string>)
    ensures |r| == n
  {
    seq(n, i requires 0 <= i < n => Placeholder(marker, i))
  }

  function Originals(names: seq<string>): (r: seq<string>)
    ensures |r| == |names|
  {
    seq(|names|, i requires 0 <= i < |names| => Original(names[i]))
  }

  /** Replacing the first `n` placeholders by their originals, the last of them first. */
  function Restore(shown: string, marker: string, originals: seq<string>, n: nat): string
    requires n <= |originals|
    decreases n
  {
    if n == 0 then shown
    else Restore(ReplaceAll(shown, Placeholder(marker, n - 1), originals[n - 1]), marker, originals, n - 1)
  }

  /** Holes of which those from `n` on are filled in already. */
  ghost function PartlyFilled(marker: string, names: seq<string>, n: nat): (r: seq<string>)
    requires n <= |names|
    ensures |r| == |names|
  {
    seq(|names|, i requires 0 <= i < |names| => if i < n then Placeholder(marker, i) else Original(names[i]))
  }

  lemma {:induction false} FillOne(marker: string, names: seq<string>, n: nat)
    requires MarkerShape(marker) && 0 < n <= |names|
    requires forall i :: 0 <= i < |names| ==> IsEnvironmentName(names[i])
    ensures Refilled(PartlyFilled(marker, names, n), Placeholder(marker, n - 1), Original(names[n - 1])) ==
            PartlyFilled(marker, names, n - 1)
    ensures forall i :: 0 <= i < |names| ==> IsHole(marker, PartlyFilled(marker, names, n)[i])
  {
    hide MarkerShape, IsEnvironmentName;
    var pattern := Placeholder(marker, n - 1);
    PlaceholderShape(marker, n - 1);
    forall i | 0 <= i < |names|
      ensures i < n - 1 ==> Placeholder(marker, i) != pattern
      ensures Original(names[i]) != pattern
    {
      if Placeholder(marker, i) == pattern {
        assert pattern <= Placeholder(marker, i) + "";
        PlaceholderPrefix(marker, n - 1, i, "");
      }
    }
  }

  /** Whatever the renderer did to the literal pieces, as long as it left no marker in them,
      every reference comes back in its own place. */
  lemma {:induction false} RestoreUndoes(marker: string, pieces: seq<string>, names: seq<string>, n: nat)
    requires MarkerShape(marker) && |pieces| == |names| + 1 && n <= |names|
    requires forall i :: 0 <= i < |pieces| ==> MarkerFree(marker, pieces[i])
    requires forall i :: 0 <= i < |names| ==> IsEnvironmentName(names[i])
    ensures Restore(Weave(pieces, PartlyFilled(marker, names, n)), marker, Originals(names), n) ==
            Weave(pieces, Originals(names))
  {
    hide MarkerShape, MarkerFree, IsEnvironmentName, IsHole, Weave, ReplaceAll, Placeholder, Original, Refilled;
    if n == 0 {
      assert PartlyFilled(marker, names, 0) == Originals(names);
    } else {
      FillOne(marker, names, n);
      ReplaceInWeave(marker, pieces, PartlyFilled(marker, names, n), n - 1, Originals(names)[n - 1]);
      RestoreUndoes(marker, pieces, names, n - 1);
    }
  }

  // ------------------------------------------------------- the whole passage

  /** The literal text between references. */
  function Pieces(tokens: seq<Token>): (r: seq<string>)
    ensures |r| == |Names(tokens)| + 1
  {
    if tokens == [] then [""]
    else
      var r, last := Pieces(tokens[..|tokens| - 1]), tokens[|tokens| - 1];
      if last.Reference? then r + [""] else r[..|r| - 1] + [r[|r| - 1] + SourceOf(last)]
  }

  function Names(tokens: seq<Token>): seq<string>
  {
    if tokens == [] then []
    else
      var last := tokens[|tokens| - 1];
      Names(tokens[..|tokens| - 1]) + if last.Reference? then [last.name] else []
  }

  lemma {:induction false} WeaveLonger(pieces: seq<string>, holes: seq<string>, more: string)
    requires |pieces| == |holes| + 1
    ensures Weave(pieces[..|pieces| - 1] + [pieces[|pieces| - 1] + more], holes) == Weave(pieces, holes) + more
  {
    if holes != [] {
      LongerRest(pieces, more);
      WeaveLonger(pieces[1..], holes[1..], more);
      var rest := Weave(pieces[1..], holes[1..]);
      assert pieces[0] + holes[0] + (rest + more) == pieces[0] + holes[0] + rest + more;
    }
  }

  lemma {:induction false} LongerRest(pieces: seq<string>, more: string)
    requires |pieces| >= 2
    ensures var longer, rest := pieces[..|pieces| - 1] + [pieces[|pieces| - 1] + more], pieces[1..];
            longer[0] == pieces[0] && longer[1..] == rest[..|rest| - 1] + [rest[|rest| - 1] + more]
  {
  }

  lemma {:induction false} WeaveNewHole(pieces: seq<string>, holes: seq<string>, hole: string)
    requires |pieces| == |holes| + 1
    ensures Weave(pieces + [""], holes + [hole]) == Weave(pieces, holes) + hole
  {
    if holes == [] {
      assert (pieces + [""])[1..] == [""] && (holes + [hole])[1..] == [];
      assert pieces[0] + hole + "" == pieces[0] + hole;
    } else {
      WeaveNewHole(pieces[1..], holes[1..], hole);
      assert (pieces + [""])[1..] == pieces[1..] + [""] && (holes + [hole])[1..] == holes[1..] + [hole];
    }
  }

  /** One more token: literal text lengthens the last piece, a reference opens a hole. */
  lemma {:induction false} WeaveToken(tokens: seq<Token>, token: Token, holes: seq<string>, hole: string)
    requires |holes| == |Names(tokens)|
    ensures Names(tokens + [token]) == Names(tokens) + if token.Reference? then [token.name] else []
    ensures Weave(Pieces(tokens + [token]), holes + if token.Reference? then [hole] else []) ==
            Weave(Pieces(tokens), holes) + if token.Reference? then hole else SourceOf(token)
  {
    assert (tokens + [token])[..|tokens|] == tokens;
    hide Weave, SourceOf;
    if token.Reference? {
      WeaveNewHole(Pieces(tokens), holes, hole);
    } else {
      WeaveLonger(Pieces(tokens), holes, SourceOf(token));
      assert holes + [] == holes;
    }
  }

  /** The template is its pieces with its references in the holes. */
  lemma {:induction false} WeaveIsSource(tokens: seq<Token>)
    ensures Weave(Pieces(tokens), Originals(Names(tokens))) == Source(tokens)
  {
    if tokens != [] {
      var init, last := tokens[..|tokens| - 1], tokens[|tokens| - 1];
      HoleSource(last);
      hide *;
      assert tokens == init + [last];
      WeaveIsSource(init);
      SourceConcat(init, [last]);
      SourceOne(last);
      var hole := if last.Reference? then Original(last.name) else "";
      WeaveToken(init, last, Originals(Names(init)), hole);
      if last.Reference? {
        MoreOriginals(Names(init), last.name);
      } else {
        assert Names(init) + [] == Names(init) && Originals(Names(init)) + [] == Originals(Names(init));
      }
    }
  }

  lemma {:induction false} HoleSource(token: Token)
    ensures token.Reference? ==> SourceOf(token) == Original(token.name)
  {
  }

  /** What the passage through a renderer shows for a template. */
  function Shown(raw: string, tokens: seq<Token>, render: (string, seq<string>) -> string): string
  {
    var marker := MarkerFor(raw);
    var placeholders := Placeholders(marker, |Names(tokens)|);
    Restore(render(Weave(Pieces(tokens), placeholders), placeholders), marker, Originals(Names(tokens)),
      |Names(tokens)|)
  }

  /** A template that does not tokenize shows nothing of itself. */
  method WithTemplatesShielded(raw: string, render: (string, seq<string>) -> string) returns (shown: string)
    ensures forall tokens :: Tokenization(tokens, raw) ==> shown == Shown(raw, tokens, render)
    ensures (exists error :: Broken(raw, error)) ==> shown == UNPARSEABLE
  {
    hide *;
    var tokenized := TokenizeTemplate(raw);
    if tokenized.Err? {
      NeverBoth(raw, tokenized);
      return UNPARSEABLE;
    }
    NeverBoth(raw, tokenized);
    var tokens := tokenized.value;
    var marker := ChooseMarker(raw);
    var shielded, originals, placeholders := "", [], [];
    StartWeaving(marker);
    for i := 0 to |tokens|
      invariant |placeholders| == |Names(tokens[..i])|
      invariant placeholders == Placeholders(marker, |placeholders|)
      invariant originals == Originals(Names(tokens[..i]))
      invariant shielded == Weave(Pieces(tokens[..i]), placeholders)
    {
      var placeholder := Placeholder(marker, |placeholders|);
      WeaveToken(tokens[..i], tokens[i], placeholders, placeholder);
      MorePlaceholders(marker, |placeholders|);
      assert tokens[..i + 1] == tokens[..i] + [tokens[i]];
      match tokens[i]
      case Reference(name) =>
        MoreOriginals(Names(tokens[..i]), name);
        shielded := shielded + placeholder;
        placeholders := placeholders + [placeholder];
        originals := originals + [Original(name)];
      case _ =>
        assert placeholders + [] == placeholders && Names(tokens[..i]) + [] == Names(tokens[..i]);
        shielded := shielded + SourceOf(tokens[i]);
    }
    assert tokens[..|tokens|] == tokens;
    shown := render(shielded, placeholders);
    shown := RestoreAll(shown, marker, originals, placeholders);
    ShownIs(raw, tokens, render);
  }

  /** The placeholders of a marker replaced by their originals, from the last to the first. */
  method RestoreAll(text: string, marker: string, originals: seq<string>,
                    placeholders: seq<string>) returns (shown: string)
    requires |placeholders| == |originals| && placeholders == Placeholders(marker, |placeholders|)
    ensures shown == Restore(text, marker, originals, |originals|)
  {
    hide ReplaceAll, Placeholder;
    shown := text;
    var i := |placeholders|;
    while i > 0
      invariant 0 <= i <= |placeholders|
      invariant Restore(shown, marker, originals, i) == Restore(text, marker, originals, |originals|)
    {
      i := i - 1;
      shown := ReplaceAll(shown, placeholders[i], originals[i]);
    }
  }

  lemma {:induction false} StartWeaving(marker: string)
    ensures Names([]) == [] && Placeholders(marker, 0) == [] && Originals([]) == []
    ensures Weave(Pieces([]), []) == ""
  {
  }

  lemma {:induction false} MorePlaceholders(marker: string, n: nat)
    ensures Placeholders(marker, n + 1) == Placeholders(marker, n) + [Placeholder(marker, n)]
  {
    hide Placeholder;
  }

  lemma {:induction false} MoreOriginals(names: seq<string>, name: string)
    ensures Originals(names + [name]) == Originals(names) + [Original(name)]
  {
    hide Original;
  }

  lemma {:induction false} ShownIs(raw: string, tokens: seq<Token>, render: (string, seq<string>) -> string)
    ensures var marker := MarkerFor(raw);
            var placeholders := Placeholders(marker, |Names(tokens)|);
            Shown(raw, tokens, render) ==
            Restore(render(Weave(Pieces(tokens), placeholders), placeholders), marker, Originals(Names(tokens)),
              |Names(tokens)|)
  {
    hide Restore, MarkerFor, Weave, Pieces, Names;
  }

  /** A template tokenizes in one way or is broken, never both. */
  lemma {:induction false} NeverBoth(raw: string, r: Result<seq<Token>, SyntaxError>)
    requires r.Ok? ==> Tokenization(r.value, raw)
    requires r.Err? ==> Broken(raw, r.error)
    ensures r.Ok? ==>
            (forall tokens :: Tokenization(tokens, raw) ==> tokens == r.value) && forall error :: !Broken(raw, error)
    ensures r.Err? ==> forall tokens :: !Tokenization(tokens, raw)
  {
    hide *;
    if r.Ok? {
      forall tokens | Tokenization(tokens, raw) ensures tokens == r.value {
        TokenizationUnique(tokens, r.value, raw);
      }
      forall error ensures !Broken(raw, error) {
        if Broken(raw, error) {
          BrokenHasNone(raw, error, r.value);
        }
      }
    } else {
      forall tokens ensures !Tokenization(tokens, raw) {
        BrokenHasNone(raw, r.error, tokens);
      }
    }
  }

  // ------------------------------------------------ what a renderer may do

  /** A piece that cannot pass for a placeholder: without escapes in the template, its stretches
      of lower-case letters and dashes come from the template, up to case; with escapes, which
      may have been decoded, it is no longer than the template. */
  ghost predicate Kept(raw: string, piece: string)
  {
    if '%' in raw then |piece| <= ByteLen(raw)
    else
      forall i, j :: 0 <= i <= j <= |piece| && AllLower(piece[i..j]) ==> Stands(Lower(raw), piece[i..j])
  }

  ghost predicate Stands(text: string, part: string)
  {
    exists k: nat :: OccursAt(text, part, k)
  }

  /** The marker was chosen so that no such piece holds it. */
  lemma {:induction false} KeptIsFree(raw: string, piece: string)
    requires Kept(raw, piece)
    ensures MarkerFree(MarkerFor(raw), piece)
  {
    var marker := MarkerFor(raw);
    hide MarkerFor, ByteLen, Lower, AllLower;
    MarkerIsFresh(raw);
    if '%' !in raw {
      hide Kept;
      forall k: nat ensures !OccursAt(piece, marker, k) {
        if OccursAt(piece, marker, k) {
          StretchIsKept(raw, piece, marker, k);
        }
      }
    }
  }

  lemma {:induction false} StretchIsKept(raw: string, piece: string, part: string, k: nat)
    requires Kept(raw, piece) && '%' !in raw && OccursAt(piece, part, k) && AllLower(part)
    ensures Stands(Lower(raw), part)
  {
    hide Lower, AllLower;
    assert piece[k..k + |part|] == part;
  }

  /** What is left when the ends of a piece are cut off is kept. */
  lemma {:induction false} CutIsKept(raw: string, piece: string, from: nat, to: nat)
    requires Kept(raw, piece) && from <= to <= |piece|
    ensures Kept(raw, piece[from..to])
  {
    hide Lower, AllLower, Stands, ByteLen;
    if '%' !in raw {
      var part := piece[from..to];
      forall i, j | 0 <= i <= j <= |part| && AllLower(part[i..j]) ensures Stands(Lower(raw), part[i..j]) {
        SliceOfSlice(piece, from, to, i, j);
      }
    }
  }

  lemma {:induction false} SliceOfSlice(s: string, from: nat, to: nat, i: nat, j: nat)
    requires from <= to <= |s| && i <= j <= to - from
    ensures s[from..to][i..j] == s[from + i..from + j]
  {
    var a, b := s[from..to][i..j], s[from + i..from + j];
    forall n | 0 <= n < j - i ensures a[n] == b[n] {
      assert a[n] == s[from..to][i + n] == s[from + i + n];
    }
  }

  /** Kept text on both sides of an escape, in which there is no lower-case letter or dash, is
      kept. */
  lemma {:induction false} EscapedIsKept(raw: string, a: string, escape: string, b: string)
    requires '%' !in raw && Kept(raw, a) && Kept(raw, b) && escape != ""
    requires forall i :: 0 <= i < |escape| ==> !('a' <= escape[i] <= 'z') && escape[i] != '-'
    ensures Kept(raw, a + escape + b)
  {
    hide Lower, Stands, ByteLen;
    var all := a + escape + b;
    forall i, j | 0 <= i <= j <= |all| && AllLower(all[i..j]) ensures Stands(Lower(raw), all[i..j]) {
      var n := |a| + |escape|;
      if i == j {
        assert a[0..0] == all[i..j];
      } else if j <= |a| {
        assert all[i..j] == a[i..j];
      } else if i >= n {
        assert all[i..j] == b[i - n..j - n];
      } else {
        StretchBroken(a, escape, b, i, j);
      }
    }
  }

  /** A stretch that takes in something of the escape is not all lower-case letters and dashes. */
  lemma {:induction false} StretchBroken(a: string, escape: string, b: string, i: nat, j: nat)
    requires escape != "" && forall k :: 0 <= k < |escape| ==> !('a' <= escape[k] <= 'z') && escape[k] != '-'
    requires i < j <= |a + escape + b| && i < |a| + |escape| && j > |a|
    ensures !AllLower((a + escape + b)[i..j])
  {
    var all := a + escape + b;
    var k := if i < |a| then |a| else i;
    assert all[i..j][k - i] == escape[k - |a|];
  }

  /** A literal piece whose letters changed case only is kept. */
  lemma {:induction false} RecasedIsKept(raw: string, tokens: seq<Token>, i: nat, piece: string)
    requires Tokenization(tokens, raw) && i < |Pieces(tokens)| && Lower(piece) == Lower(Pieces(tokens)[i])
    ensures Kept(raw, piece)
  {
    hide Tokenization, Pieces, Names, Weave, Originals, Lower, ByteLen;
    TokensRestoreInput(tokens, raw);
    WeaveIsSource(tokens);
    var at := PieceStands(Pieces(tokens), Originals(Names(tokens)), i);
    var original := Pieces(tokens)[i];
    forall i, j | 0 <= i <= j <= |piece| && AllLower(piece[i..j]) ensures Stands(Lower(raw), piece[i..j]) {
      StretchStands(raw, original, piece, at, i, j);
      assert OccursAt(Lower(raw), piece[i..j], at + i);
    }
  }

  lemma {:induction false} StretchStands(raw: string, original: string, piece: string, at: nat, i: nat, j: nat)
    requires OccursAt(raw, original, at) && Lower(piece) == Lower(original)
    requires i <= j <= |piece| && AllLower(piece[i..j])
    ensures OccursAt(Lower(raw), piece[i..j], at + i)
  {
    var found, wanted := Lower(raw)[at + i..at + j], piece[i..j];
    forall n | 0 <= n < j - i ensures found[n] == wanted[n] {
      assert raw[at..at + |original|][i + n] == raw[at + i + n];
      assert Lower(original)[i + n] == Lower(piece)[i + n];
    }
    assert found == wanted;
  }

  /** Where a piece stands in the text. */
  lemma {:induction false} PieceStands(pieces: seq<string>, holes: seq<string>, i: nat) returns (at: nat)
    requires |pieces| == |holes| + 1 && i < |pieces|
    ensures OccursAt(Weave(pieces, holes), pieces[i], at)
  {
    hide OccursAt;
    var text := Weave(pieces, holes);
    if i > 0 {
      var head, rest := pieces[0] + holes[0], Weave(pieces[1..], holes[1..]);
      at := PieceStands(pieces[1..], holes[1..], i - 1);
      PartOccurs(pieces[i], head, rest, "", at);
      assert head + rest + "" == text;
      at := |head| + at;
    } else {
      var tail := if holes == [] then "" else holes[0] + Weave(pieces[1..], holes[1..]);
      at := 0;
      Itself(pieces[0]);
      PartOccurs(pieces[0], "", pieces[0], tail, 0);
      assert "" + pieces[0] + tail == text;
    }
  }

  lemma {:induction false} Itself(s: string)
    ensures OccursAt(s, s, 0)
  {
  }

  lemma {:induction false} PartOccurs(part: string, head: string, text: string, tail: string, k: nat)
    requires OccursAt(text, part, k)
    ensures OccursAt(head + text + tail, part, |head| + k)
  {
    assert (head + text + tail)[|head| + k..|head| + k + |part|] == text[k..k + |part|];
  }

  lemma {:induction false} NamesAreValid(tokens: seq<Token>, text: string, k: nat)
    requires Leads(tokens, text, k)
    ensures forall i :: 0 <= i < |tokens| && tokens[i].Reference? ==> IsEnvironmentName(tokens[i].name)
  {
    hide IsEnvironmentName, StepAt, SourceOf;
    if tokens != [] {
      var n := |SourceOf(tokens[0])| + |SourceOf(tokens[1])|;
      StepInside(text, tokens[0], tokens[1]);
      StepName(text, tokens[0], tokens[1]);
      NamesAreValid(tokens[2..], text[n..], k - n);
      forall i | 0 <= i < |tokens| && tokens[i].Reference? ensures IsEnvironmentName(tokens[i].name) {
        assert i >= 2 ==> tokens[i] == tokens[2..][i - 2];
      }
    }
  }

  lemma {:induction false} StepName(text: string, plain: Token, token: Token)
    requires StepAt(text, plain, token)
    ensures !plain.Reference? && (token.Reference? ==> IsEnvironmentName(token.name))
  {
    hide IsEnvironmentName, SourceOf;
  }

  lemma {:induction false} AllNamesValid(tokens: seq<Token>)
    requires forall i :: 0 <= i < |tokens| && tokens[i].Reference? ==> IsEnvironmentName(tokens[i].name)
    ensures forall i :: 0 <= i < |Names(tokens)| ==> IsEnvironmentName(Names(tokens)[i])
  {
    hide IsEnvironmentName;
    if tokens != [] {
      AllNamesValid(tokens[..|tokens| - 1]);
    }
  }

  /** Every reference of a tokenized template is a valid environment name. */
  lemma {:induction false} ReferencesAreNames(raw: string, tokens: seq<Token>)
    requires Tokenization(tokens, raw)
    ensures forall i :: 0 <= i < |Names(tokens)| ==> IsEnvironmentName(Names(tokens)[i])
  {
    hide Leads, IsEnvironmentName, Names;
    var pairs := tokens[..|tokens| - 1];
    NamesAreValid(pairs, raw, |raw| - |tokens[|tokens| - 1].text|);
    forall i | 0 <= i < |tokens| && tokens[i].Reference? ensures IsEnvironmentName(tokens[i].name) {
      assert tokens[i] == pairs[i];
    }
    AllNamesValid(tokens);
  }

  /** The renderer that changes nothing. */
  function Unchanged(text: string, placeholders: seq<string>): string
  {
    text
  }

  lemma {:induction false} UnchangedApplied(render: (string, seq<string>) -> string, text: string,
                                            placeholders: seq<string>)
    requires render == Unchanged
    ensures render(text, placeholders) == text
  {
  }

  /** Shielding is undone exactly: a renderer that changes nothing shows the template. */
  lemma {:induction false} IdentityShowsTemplate(raw: string, tokens: seq<Token>)
    requires Tokenization(tokens, raw)
    ensures Shown(raw, tokens, Unchanged) == raw
  {
    hide Tokenization, Shown, Weave, Pieces, Names, MarkerFor, Placeholders, Originals, MarkerFree;
    var placeholders := Placeholders(MarkerFor(raw), |Names(tokens)|);
    UnchangedApplied(Unchanged, Weave(Pieces(tokens), placeholders), placeholders);
    forall i | 0 <= i < |Pieces(tokens)| ensures Kept(raw, Pieces(tokens)[i]) {
      RecasedIsKept(raw, tokens, i, Pieces(tokens)[i]);
    }
    hide Kept;
    RewrittenPieces(raw, tokens, Pieces(tokens), Unchanged);
  }

  /** A renderer that leaves the placeholders and rewrites the literal pieces, changing the case
      of letters, escaping characters, leaving off an end or decoding escapes, shows the
      rewritten pieces with every reference in its place: no input can pass for a reference. */
  lemma {:induction false} RewrittenPieces(raw: string, tokens: seq<Token>, pieces: seq<string>,
                                           render: (string, seq<string>) -> string)
    requires Tokenization(tokens, raw) && |pieces| == |Names(tokens)| + 1
    requires var placeholders := Placeholders(MarkerFor(raw), |Names(tokens)|);
             render(Weave(Pieces(tokens), placeholders), placeholders) == Weave(pieces, placeholders)
    requires forall i :: 0 <= i < |pieces| ==> Kept(raw, pieces[i])
    ensures Shown(raw, tokens, render) == Weave(pieces, Originals(Names(tokens)))
    ensures pieces == Pieces(tokens) ==> Shown(raw, tokens, render) == raw
  {
    hide *;
    var marker, names := MarkerFor(raw), Names(tokens);
    TokensRestoreInput(tokens, raw);
    WeaveIsSource(tokens);
    MarkerIsFresh(raw);
    forall i | 0 <= i < |pieces| ensures MarkerFree(marker, pieces[i]) {
      KeptIsFree(raw, pieces[i]);
    }
    ReferencesAreNames(raw, tokens);
    UnfilledIs(marker, names);
    RestoreUndoes(marker, pieces, names, |names|);
    ShownIs(raw, tokens, render);
  }

  lemma {:induction false} UnfilledIs(marker: string, names: seq<string>)
    ensures PartlyFilled(marker, names, |names|) == Placeholders(marker, |names|)
  {
    hide Placeholder, Original;
  }
}
