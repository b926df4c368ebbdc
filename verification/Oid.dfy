/** Object ids as 32 bytes and as 64 lower-case hexadecimal digits
    (gat-core/src/oid.rs).

    Each byte is spelled as two digits, the more significant first. Reading fills a byte
    array, writing fills a digit buffer, and comparing does neither. */
module Oid {
  import opened Text

  newtype byte = x: int | 0 <= x < 256

  const LENGTH := 32

  type Id = bytes: seq<byte> | |bytes| == LENGTH witness seq(LENGTH, _ => 0)

  datatype HexError = WrongHexLength(actual: nat) | NotLowercaseHex

  function HexValue(b: byte): (r: Option<byte>)
    ensures r.Some? ==> r.value < 16 && HexDigit(r.value) == b
  {
    if 48 <= b <= 57 then Some(b - 48)
    else if 97 <= b <= 102 then Some(b - 97 + 10)
    else None
  }

  function HexDigit(n: byte): (b: byte)
    requires n < 16
  {
    if n < 10 then 48 + n else 97 + (n - 10)
  }

  /** The digits are the lower-case hexadecimal ones, in order. */
  lemma {:induction false} DigitsAreHex(n: byte)
    requires n < 16
    ensures HexDigit(n) as int == "0123456789abcdef"[n] as int
    ensures forall b: byte :: HexValue(b) == Some(n) <==> b as int == "0123456789abcdef"[n] as int
  {
  }

  lemma {:induction false} DigitsRead(m: byte, n: byte)
    requires m < 16 && n < 16
    ensures HexValue(HexDigit(n)) == Some(n)
    ensures HexDigit(m) < HexDigit(n) <==> m < n
  {
  }

  /** The digit at position `k` of the text of an id. */
  function DigitAt(id: Id, k: nat): byte
    requires k < 2 * LENGTH
  {
    HexDigit(if k % 2 == 0 then id[k / 2] / 16 else id[k / 2] % 16)
  }

  function Hex(id: Id): (h: seq<byte>)
    ensures |h| == 2 * LENGTH
  {
    seq(2 * LENGTH, k requires 0 <= k < 2 * LENGTH => DigitAt(id, k))
  }

  /** The text of some id: 64 lower-case hexadecimal digits. */
  predicate IsHex(h: seq<byte>)
  {
    |h| == 2 * LENGTH && forall k :: 0 <= k < |h| ==> HexValue(h[k]).Some?
  }

  lemma {:induction false} HexIsHex(id: Id)
    ensures IsHex(Hex(id))
  {
    forall k | 0 <= k < 2 * LENGTH ensures HexValue(Hex(id)[k]).Some? {
      DigitsRead(id[k / 2] / 16, id[k / 2] % 16);
      DigitsRead(id[k / 2] % 16, id[k / 2] / 16);
    }
  }

  /** The two digits of a byte. */
  lemma {:induction false} HexPair(id: Id, i: nat)
    requires i < LENGTH
    ensures Hex(id)[2 * i] == HexDigit(id[i] / 16) && Hex(id)[2 * i + 1] == HexDigit(id[i] % 16)
  {
    assert (2 * i) / 2 == i && (2 * i) % 2 == 0 && (2 * i + 1) / 2 == i && (2 * i + 1) % 2 == 1;
  }

  /** Accepts exactly the texts of ids, and returns the id whose text it is. */
  method FromHex(hex: seq<byte>) returns (r: Result<Id, HexError>)
    ensures r.Ok? ==> Hex(r.value) == hex
    ensures r.Ok? <==> IsHex(hex)
    ensures |hex| != 2 * LENGTH ==> r == Err(WrongHexLength(|hex|))
    ensures |hex| == 2 * LENGTH && r.Err? ==> r == Err(NotLowercaseHex)
  {
    if |hex| != 2 * LENGTH {
      return Err(WrongHexLength(|hex|));
    }
    hide HexValue, HexDigit;
    var out := new byte[LENGTH];
    for i := 0 to LENGTH
      invariant forall j :: 0 <= j < i ==> Reads(hex, j, out[j])
    {
      var hi, lo := HexValue(hex[i * 2]), HexValue(hex[i * 2 + 1]);
      if hi.None? || lo.None? {
        return Err(NotLowercaseHex);
      }
      out[i] := hi.value * 16 + lo.value;
    }
    AllRead(hex, out[..]);
    return Ok(out[..]);
  }

  /** The byte stands for the digits at `2 * j` and `2 * j + 1`. */
  predicate Reads(hex: seq<byte>, j: nat, b: byte)
  {
    && 2 * j + 1 < |hex|
    && HexValue(hex[2 * j]) == Some(b / 16) && HexValue(hex[2 * j + 1]) == Some(b % 16)
  }

  lemma {:induction false} AllRead(hex: seq<byte>, id: Id)
    requires |hex| == 2 * LENGTH && forall j :: 0 <= j < LENGTH ==> Reads(hex, j, id[j])
    ensures IsHex(hex) && Hex(id) == hex
  {
    hide HexValue;
    forall k | 0 <= k < 2 * LENGTH ensures HexValue(hex[k]).Some? && hex[k] == DigitAt(id, k) {
      assert Reads(hex, k / 2, id[k / 2]);
      assert k == 2 * (k / 2) + k % 2;
    }
  }

  /** Fills a buffer of 64 with the text of the id. */
  method EncodeHex(id: Id, buf: array<byte>)
    requires buf.Length == 2 * LENGTH
    modifies buf
    ensures buf[..] == Hex(id)
  {
    hide HexDigit, Hex;
    for i := 0 to LENGTH
      invariant forall k :: 0 <= k < 2 * i ==> buf[k] == Hex(id)[k]
    {
      HexPair(id, i);
      buf[i * 2] := HexDigit(id[i] / 16);
      buf[i * 2 + 1] := HexDigit(id[i] % 16);
    }
  }

  /** Compares with a text without building one: true exactly on the id's own text. */
  method EqHex(id: Id, hex: seq<byte>) returns (equal: bool)
    ensures equal <==> hex == Hex(id)
  {
    HexIsHex(id);
    if |hex| != 2 * LENGTH {
      return false;
    }
    hide HexValue, HexDigit, Hex, Reads, IsHex;
    for i := 0 to LENGTH
      invariant forall j :: 0 <= j < i ==> Reads(hex, j, id[j])
    {
      var hi, lo := HexValue(hex[i * 2]), HexValue(hex[i * 2 + 1]);
      PairDecides(id, hex, i);
      if hi.None? || lo.None? {
        return false;
      }
      if id[i] != hi.value * 16 + lo.value {
        return false;
      }
    }
    AllRead(hex, id);
    return true;
  }

  lemma {:induction false} PairRead(id: Id, i: nat)
    requires i < LENGTH
    ensures HexValue(Hex(id)[2 * i]) == Some(id[i] / 16) && HexValue(Hex(id)[2 * i + 1]) == Some(id[i] % 16)
  {
    HexPair(id, i);
    DigitsRead(0, id[i] / 16);
    DigitsRead(0, id[i] % 16);
  }

  lemma {:induction false} Nibbles(b: byte, hi: byte, lo: byte)
    requires hi < 16 && lo < 16
    ensures b as int == hi as int * 16 + lo as int <==> hi == b / 16 && lo == b % 16
  {
  }

  /** The two digits at a byte's place: they are the byte's own, or the texts differ. */
  lemma {:induction false} PairDecides(id: Id, hex: seq<byte>, i: nat)
    requires i < LENGTH && |hex| == 2 * LENGTH
    ensures var hi, lo := HexValue(hex[i * 2]), HexValue(hex[i * 2 + 1]);
            if hi.Some? && lo.Some? && id[i] as int == hi.value as int * 16 + lo.value as int then Reads(hex, i, id[i])
            else hex != Hex(id)
  {
    hide HexValue, HexDigit, Hex;
    PairRead(id, i);
    var hi, lo := HexValue(hex[i * 2]), HexValue(hex[i * 2 + 1]);
    if hi.Some? && lo.Some? {
      Nibbles(id[i], hi.value, lo.value);
    }
  }

  /** Different ids have different texts, so reading and writing are inverse. */
  lemma {:induction false} HexInjective(a: Id, b: Id)
    requires Hex(a) == Hex(b)
    ensures a == b
  {
    hide HexValue, HexDigit, Hex;
    forall i | 0 <= i < LENGTH ensures a[i] == b[i] {
      PairRead(a, i);
      PairRead(b, i);
      assert a[i] == a[i] / 16 * 16 + a[i] % 16 && b[i] == b[i] / 16 * 16 + b[i] % 16;
    }
  }

  /** Lexicographic order of sequences of the same length. */
  ghost predicate Before(a: seq<byte>, b: seq<byte>)
  {
    |a| == |b| && exists k :: 0 <= k < |a| && BeforeAt(a, b, k)
  }

  predicate BeforeAt(a: seq<byte>, b: seq<byte>, k: nat)
    requires |a| == |b| && k < |a|
  {
    a[k] < b[k] && forall j :: 0 <= j < k ==> a[j] == b[j]
  }

  /** Ids are ordered as their texts are. */
  lemma {:induction false} OrderAgrees(a: Id, b: Id)
    ensures Before(a, b) <==> Before(Hex(a), Hex(b))
  {
    hide HexValue, HexDigit, Hex;
    if k :| 0 <= k < LENGTH && BeforeAt(a, b, k) {
      BytesBefore(a, b, k);
    }
    if k :| 0 <= k < 2 * LENGTH && BeforeAt(Hex(a), Hex(b), k) {
      DigitsBefore(a, b, k);
    }
  }

  lemma {:induction false} BytesBefore(a: Id, b: Id, k: nat)
    requires k < LENGTH && BeforeAt(a, b, k)
    ensures Before(Hex(a), Hex(b))
  {
    hide HexValue, HexDigit;
    var m := if a[k] / 16 < b[k] / 16 then 2 * k else 2 * k + 1;
    HexPair(a, k);
    HexPair(b, k);
    DigitsRead(a[k] / 16, b[k] / 16);
    DigitsRead(a[k] % 16, b[k] % 16);
    assert forall j :: 0 <= j < 2 * k ==> Hex(a)[j] == Hex(b)[j];
    assert BeforeAt(Hex(a), Hex(b), m);
  }

  lemma {:induction false} DigitsBefore(a: Id, b: Id, m: nat)
    requires m < 2 * LENGTH && BeforeAt(Hex(a), Hex(b), m)
    ensures Before(a, b)
  {
    hide HexValue, HexDigit, Hex;
    var k := m / 2;
    forall j | 0 <= j < k ensures a[j] == b[j] {
      SamePair(a, b, j);
    }
    HexPair(a, k);
    HexPair(b, k);
    DigitsRead(a[k] / 16, b[k] / 16);
    DigitsRead(a[k] % 16, b[k] % 16);
    if m % 2 == 1 {
      PairRead(a, k);
      PairRead(b, k);
      assert Hex(a)[2 * k] == Hex(b)[2 * k];
    }
    assert a[k] == a[k] / 16 * 16 + a[k] % 16 && b[k] == b[k] / 16 * 16 + b[k] % 16;
    assert BeforeAt(a, b, k);
  }

  lemma {:induction false} SamePair(a: Id, b: Id, j: nat)
    requires j < LENGTH && Hex(a)[2 * j] == Hex(b)[2 * j] && Hex(a)[2 * j + 1] == Hex(b)[2 * j + 1]
    ensures a[j] == b[j]
  {
    hide HexValue, HexDigit, Hex;
    PairRead(a, j);
    PairRead(b, j);
  }
}
