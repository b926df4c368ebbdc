/** Sequences of characters as the program's text: options and results, cutting a
    sequence at separators, searching, and the ordering of strings.

    A `string` is a sequence of Unicode scalar values, so comparing it character by
    character is the byte order of its UTF-8 encoding. */
module Text {

  datatype Option<+T> = None | Some(value: T)

  datatype Result<+T, +E> = Ok(value: T) | Err(error: E)
  {
    predicate IsFailure() { Err? }

    function PropagateFailure<U>(): Result<U, E>
      requires Err?
    {
      Err(error)
    }

    function Extract(): T
      requires Ok?
    {
      value
    }
  }

  // ---------------------------------------------------------------- cutting

  /** The pieces of `s` between separators; one piece more than there are separators. */
  function Split<T>(isSep: T -> bool, s: seq<T>): (r: seq<seq<T>>)
    ensures |r| > 0
  {
    if s == [] then
      [[]]
    else
      var init := Split(isSep, s[..|s| - 1]);
      var last := s[|s| - 1];
      if isSep(last) then init + [[]] else init[..|init| - 1] + [init[|init| - 1] + [last]]
  }

  function Join<T>(sep: T, parts: seq<seq<T>>): seq<T>
  {
    if parts == [] then []
    else if |parts| == 1 then parts[0]
    else Join(sep, parts[..|parts| - 1]) + [sep] + parts[|parts| - 1]
  }

  predicate Free<T>(isSep: T -> bool, s: seq<T>)
  {
    forall i :: 0 <= i < |s| ==> !isSep(s[i])
  }

  /** Two lists of pieces, the last of one glued to the first of the other. */
  function Glue<T>(p: seq<seq<T>>, q: seq<seq<T>>): (r: seq<seq<T>>)
    requires p != [] && q != []
    ensures |r| == |p| + |q| - 1
  {
    p[..|p| - 1] + [p[|p| - 1] + q[0]] + q[1..]
  }

  /** Cutting a concatenation glues the last piece of the left to the first of the right. */
  lemma {:induction false} SplitConcat<T>(isSep: T -> bool, a: seq<T>, b: seq<T>)
    ensures Split(isSep, a + b) == Glue(Split(isSep, a), Split(isSep, b))
  {
    if b == [] {
      assert a + b == a;
      var p := Split(isSep, a);
      assert p[|p| - 1] + [] == p[|p| - 1];
      assert Glue(p, [[]]) == p;
    } else {
      var b', last := b[..|b| - 1], b[|b| - 1];
      assert (a + b)[..|a + b| - 1] == a + b';
      SplitConcat(isSep, a, b');
      if isSep(last) {
        GlueNewPiece(Split(isSep, a), Split(isSep, b'));
      } else {
        GlueExtend(Split(isSep, a), Split(isSep, b'), last);
      }
    }
  }

  lemma {:induction false} GlueNewPiece<T>(p: seq<seq<T>>, q: seq<seq<T>>)
    requires p != [] && q != []
    ensures Glue(p, q) + [[]] == Glue(p, q + [[]])
  {
  }

  lemma {:induction false} GlueExtend<T>(p: seq<seq<T>>, q: seq<seq<T>>, x: T)
    requires p != [] && q != []
    ensures var g := Glue(p, q);
            g[..|g| - 1] + [g[|g| - 1] + [x]] == Glue(p, q[..|q| - 1] + [q[|q| - 1] + [x]])
  {
    if |q| == 1 {
      assert p[|p| - 1] + q[0] + [x] == p[|p| - 1] + (q[0] + [x]);
    }
  }

  lemma {:induction false} SplitAtSeparator<T>(isSep: T -> bool, a: seq<T>, sep: T, b: seq<T>)
    requires isSep(sep)
    ensures Split(isSep, a + [sep] + b) == Split(isSep, a) + Split(isSep, b)
  {
    var p, q := Split(isSep, a), Split(isSep, b);
    assert (a + [sep])[..|a + [sep]| - 1] == a;
    SplitConcat(isSep, a + [sep], b);
    assert p + [[] + q[0]] + q[1..] == p + q by {
      assert [] + q[0] == q[0];
    }
  }

  lemma {:induction false} SplitFree<T>(isSep: T -> bool, s: seq<T>)
    requires Free(isSep, s)
    ensures Split(isSep, s) == [s]
  {
    if s != [] {
      SplitFree(isSep, s[..|s| - 1]);
      assert s[..|s| - 1] + [s[|s| - 1]] == s;
    }
  }

  lemma {:induction false} PiecesAreFree<T>(isSep: T -> bool, s: seq<T>)
    ensures forall i :: 0 <= i < |Split(isSep, s)| ==> Free(isSep, Split(isSep, s)[i])
  {
    if s != [] {
      PiecesAreFree(isSep, s[..|s| - 1]);
    }
  }

  lemma {:induction false} JoinOfSplit<T>(isSep: T -> bool, sep: T, s: seq<T>)
    requires forall i :: 0 <= i < |s| && isSep(s[i]) ==> s[i] == sep
    ensures Join(sep, Split(isSep, s)) == s
  {
    if s != [] {
      var s', last := s[..|s| - 1], s[|s| - 1];
      var init := Split(isSep, s');
      JoinOfSplit(isSep, sep, s');
      if isSep(last) {
        JoinSnoc(sep, init, []);
        assert s == s' + [sep] + [];
      } else {
        JoinExtend(sep, init, last);
        assert s == s' + [last];
      }
    }
  }

  /** Lengthening the last part lengthens the joined sequence. */
  lemma {:induction false} JoinExtend<T>(sep: T, parts: seq<seq<T>>, x: T)
    requires parts != []
    ensures Join(sep, parts[..|parts| - 1] + [parts[|parts| - 1] + [x]]) == Join(sep, parts) + [x]
  {
    var init, last := parts[..|parts| - 1], parts[|parts| - 1];
    if init != [] {
      JoinSnoc(sep, init, last + [x]);
      hide Join;
      JoinSnoc(sep, init, last);
      assert init + [last] == parts;
    }
  }

  lemma {:induction false} SplitOfJoin<T>(isSep: T -> bool, sep: T, parts: seq<seq<T>>)
    requires isSep(sep) && parts != []
    requires forall i :: 0 <= i < |parts| ==> Free(isSep, parts[i])
    ensures Split(isSep, Join(sep, parts)) == parts
  {
    hide Split, Free;
    var n := |parts| - 1;
    SplitFree(isSep, parts[n]);
    if n > 0 {
      SplitOfJoin(isSep, sep, parts[..n]);
      SplitAtSeparator(isSep, Join(sep, parts[..n]), sep, parts[n]);
      assert parts[..n] + [parts[n]] == parts;
    } else {
      assert parts == [parts[0]];
    }
  }

  lemma {:induction false} JoinSnoc<T>(sep: T, parts: seq<seq<T>>, last: seq<T>)
    requires parts != []
    ensures Join(sep, parts + [last]) == Join(sep, parts) + [sep] + last
  {
    assert (parts + [last])[..|parts|] == parts;
  }

  lemma {:induction false} JoinConcat<T>(sep: T, a: seq<seq<T>>, b: seq<seq<T>>)
    requires a != [] && b != []
    ensures Join(sep, a + b) == Join(sep, a) + [sep] + Join(sep, b)
  {
    hide *;
    var b', last := b[..|b| - 1], b[|b| - 1];
    assert b == b' + [last] && a + b == a + b' + [last];
    JoinSnoc(sep, a + b', last);
    if b' == [] {
      assert a + b' == a && b == [last];
      JoinOne(sep, last);
    } else {
      JoinConcat(sep, a, b');
      JoinSnoc(sep, b', last);
      Reassociate(Join(sep, a) + [sep], Join(sep, b'), [sep], last);
    }
  }

  lemma {:induction false} JoinOne<T>(sep: T, part: seq<T>)
    ensures Join(sep, [part]) == part
  {
  }

  lemma {:induction false} Reassociate<T>(a: seq<T>, b: seq<T>, c: seq<T>, d: seq<T>)
    ensures a + b + c + d == a + (b + c + d)
  {
  }

  // -------------------------------------------------------------- searching

  function IndexOf(s: string, c: char): (r: Option<nat>)
    ensures r.Some? ==> r.value < |s| && s[r.value] == c && c !in s[..r.value]
    ensures r.None? ==> c !in s
  {
    if s == "" then None
    else if s[0] == c then Some(0)
    else
      var rest := IndexOf(s[1..], c);
      assert s == [s[0]] + s[1..];
      match rest
      case None => None
      case Some(i) => assert s[..i + 1] == [s[0]] + s[1..][..i]; Some(i + 1)
  }

  lemma {:induction false} IndexOfIs(s: string, c: char, i: nat)
    requires i < |s| && s[i] == c && c !in s[..i]
    ensures IndexOf(s, c) == Some(i)
  {
    var j := IndexOf(s, c).value;
    assert forall k :: 0 <= k < i ==> s[..i][k] == s[k] && s[k] != c;
    assert forall k :: 0 <= k < j ==> s[..j][k] == s[k];
  }

  function LastIndexOf(s: string, c: char): (r: Option<nat>)
    ensures r.Some? ==> r.value < |s| && s[r.value] == c && c !in s[r.value + 1..]
    ensures r.None? ==> c !in s
  {
    if s == "" then None
    else if s[|s| - 1] == c then Some(|s| - 1)
    else
      var rest := LastIndexOf(s[..|s| - 1], c);
      assert s == s[..|s| - 1] + [s[|s| - 1]];
      match rest
      case None => None
      case Some(i) => assert s[i + 1..] == s[..|s| - 1][i + 1..] + [s[|s| - 1]]; Some(i)
  }

  /** `needle` stands at offset `at` of `s`. */
  predicate OccursAt(s: string, needle: string, at: nat)
  {
    at + |needle| <= |s| && s[at..at + |needle|] == needle
  }

  /** The first offset at or after `from` where `needle` stands. */
  function Find(s: string, needle: string, from: nat): (r: Option<nat>)
    requires from <= |s|
    ensures r.Some? ==> from <= r.value && OccursAt(s, needle, r.value)
    ensures r.Some? ==> forall k: nat :: from <= k < r.value ==> !OccursAt(s, needle, k)
    ensures r.None? ==> forall k: nat :: from <= k ==> !OccursAt(s, needle, k)
    decreases |s| - from
  {
    if OccursAt(s, needle, from) then Some(from)
    else if from == |s| then None
    else Find(s, needle, from + 1)
  }

  // --------------------------------------------------------------- ordering

  predicate Agree(a: string, b: string, k: nat)
    requires k <= |a| && k <= |b|
  {
    forall i :: 0 <= i < k ==> a[i] == b[i]
  }

  /** The length of the longest common prefix. */
  function Common(a: string, b: string): (k: nat)
    ensures k <= |a| && k <= |b| && Agree(a, b, k)
    ensures k < |a| && k < |b| ==> a[k] != b[k]
  {
    if a == "" || b == "" || a[0] != b[0] then 0 else Common(a[1..], b[1..]) + 1
  }

  /** Lexicographic order, the order of the standard string type. */
  predicate Leq(a: string, b: string)
  {
    var k := Common(a, b);
    k == |a| || (k < |b| && a[k] < b[k])
  }

  predicate Less(a: string, b: string)
  {
    !Leq(b, a)
  }

  lemma {:induction false} CommonIs(a: string, b: string, k: nat)
    requires k <= |a| && k <= |b| && Agree(a, b, k)
    requires k < |a| && k < |b| ==> a[k] != b[k]
    ensures Common(a, b) == k
  {
  }

  lemma {:induction false} LeqTotal(a: string, b: string)
    ensures Leq(a, b) || Leq(b, a)
    ensures Less(a, b) ==> Leq(a, b)
    ensures Leq(a, b) && Leq(b, a) ==> a == b
  {
    CommonIs(b, a, Common(a, b));
  }

  lemma {:induction false} LeqTransitive(a: string, b: string, c: string)
    requires Leq(a, b) && Leq(b, c)
    ensures Leq(a, c)
  {
    var i, j := Common(a, b), Common(b, c);
    CommonIs(a, c, if i < j then i else j);
  }

  lemma {:induction false} PrefixLeq(a: string, b: string)
    requires a <= b
    ensures Leq(a, b)
  {
    CommonIs(a, b, |a|);
  }

  /** Once sorted order has passed a non-extension of `q`, no later string extends `q`. */
  lemma {:induction false} PrefixPassed(q: string, t: string, later: string)
    requires Leq(q, t) && !(q <= t) && Leq(t, later)
    ensures !(q <= later)
  {
    LeqTransitive(q, t, later);
    var i, j := Common(q, t), Common(t, later);
    assert i < |q| && i < |t| && q[i] < t[i];
    assert j <= i ==> j < |later| && t[j] < later[j];
  }

  // ------------------------------------------------------------ byte lengths

  /** The bytes one character takes in UTF-8. */
  function Width(c: char): (w: nat)
    ensures 1 <= w <= 4
  {
    if c as int < 0x80 then 1 else if c as int < 0x800 then 2 else if c as int < 0x1_0000 then 3 else 4
  }

  /** The last six bits of a number; what is before them is the rest of dividing. */
  function LowBits(n: nat): (bits: nat)
    ensures bits < 0x40 && n == n / 0x40 * 0x40 + bits
  {
    n % 0x40
  }

  /** The UTF-8 encoding of one character (section 3 of RFC 3629). */
  function Utf8(c: char): (bytes: seq<int>)
  {
    var n := c as int;
    var m := n / 0x40;
    var l := m / 0x40;
    if n < 0x80 then [n]
    else if n < 0x800 then [0xc0 + m, 0x80 + LowBits(n)]
    else if n < 0x1_0000 then [0xe0 + l, 0x80 + LowBits(m), 0x80 + LowBits(n)]
    else [0xf0 + l / 0x40, 0x80 + LowBits(l), 0x80 + LowBits(m), 0x80 + LowBits(n)]
  }

  /** The scalar value that the payload bits of an encoding stand for. */
  function Payload(bytes: seq<int>): int
  {
    if |bytes| == 1 then bytes[0]
    else if |bytes| == 2 then (bytes[0] - 0xc0) * 0x40 + (bytes[1] - 0x80)
    else if |bytes| == 3 then ((bytes[0] - 0xe0) * 0x40 + (bytes[1] - 0x80)) * 0x40 + (bytes[2] - 0x80)
    else if |bytes| == 4 then
      (((bytes[0] - 0xf0) * 0x40 + (bytes[1] - 0x80)) * 0x40 + (bytes[2] - 0x80)) * 0x40 + (bytes[3] - 0x80)
    else -1
  }

  /** The width is the length of the encoding, which stands for the character. */
  lemma {:induction false} WidthIsUtf8(c: char)
    ensures |Utf8(c)| == Width(c) && Payload(Utf8(c)) == c as int
    ensures forall i :: 0 <= i < |Utf8(c)| ==> 0 <= Utf8(c)[i] < 0x100
  {
  }

  /** The bytes of two encodings first differ at `k`, and there the first is less. */
  predicate FirstLess(a: seq<int>, b: seq<int>, k: nat)
  {
    k < |a| && k < |b| && a[..k] == b[..k] && a[k] < b[k]
  }

  /** Characters are ordered as their encodings are. */
  lemma {:induction false} Utf8KeepsOrder(c: char, d: char)
    requires c < d
    ensures exists k: nat :: FirstLess(Utf8(c), Utf8(d), k)
  {
    var a, b := Utf8(c), Utf8(d);
    assert c as int / 0x40 <= d as int / 0x40;
    if a[0] < b[0] {
      assert FirstLess(a, b, 0);
    } else if a[1] < b[1] {
      assert FirstLess(a, b, 1);
    } else if a[2] < b[2] {
      assert FirstLess(a, b, 2);
    } else {
      assert FirstLess(a, b, 3);
    }
  }

  function ByteLen(s: string): (n: nat)
    ensures |s| <= n
  {
    if s == "" then 0 else ByteLen(s[..|s| - 1]) + Width(s[|s| - 1])
  }

  /** The UTF-8 encoding of a text. */
  function Encoded(s: string): (bytes: seq<int>)
  {
    if s == "" then [] else Encoded(s[..|s| - 1]) + Utf8(s[|s| - 1])
  }

  lemma {:induction false} EncodedLength(s: string)
    ensures |Encoded(s)| == ByteLen(s)
  {
    hide Utf8, Width;
    if s != "" {
      EncodedLength(s[..|s| - 1]);
      WidthIsUtf8(s[|s| - 1]);
    }
  }

  lemma {:induction false} EncodedConcat(a: string, b: string)
    ensures Encoded(a + b) == Encoded(a) + Encoded(b)
  {
    hide Utf8;
    if b == "" {
      assert a + b == a;
    } else {
      assert (a + b)[..|a + b| - 1] == a + b[..|b| - 1];
      EncodedConcat(a, b[..|b| - 1]);
    }
  }

  lemma {:induction false} ByteLenConcat(a: string, b: string)
    ensures ByteLen(a + b) == ByteLen(a) + ByteLen(b)
  {
    if b == "" {
      assert a + b == a;
    } else {
      assert (a + b)[..|a + b| - 1] == a + b[..|b| - 1];
      ByteLenConcat(a, b[..|b| - 1]);
    }
  }
}
