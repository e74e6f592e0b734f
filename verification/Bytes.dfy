/** Octets and the big-endian fields built from them. */
module Bytes {

  type byte = x: int | 0 <= x < 256
  type bytes = seq<byte>
  type u16 = x: int | 0 <= x < 0x1_0000
  type u32 = x: int | 0 <= x < 0x1_0000_0000

  datatype Option<+T> = None | Some(value: T)

  datatype Result<+T> = Ok(value: T) | Error(reason: string)

  function U16(v: u16): (r: bytes)
    ensures |r| == 2
  {
    [v / 256, v % 256]
  }

  function U32(v: u32): (r: bytes)
    ensures |r| == 4
  {
    U16(v / 0x1_0000) + U16(v % 0x1_0000)
  }

  /** The field read back; on U16 and U32 output it is the number written. */
  function ReadU16(b: bytes): (v: u16)
    requires |b| == 2
    ensures U16(v) == b
  {
    var hi: int, lo: int := b[0], b[1];
    256 * hi + lo
  }

  function ReadU32(b: bytes): (v: u32)
    requires |b| == 4
  {
    var hi: int, lo: int := ReadU16(b[..2]), ReadU16(b[2..]);
    0x1_0000 * hi + lo
  }

  lemma Product(d: int, k: int)
    requires d > 0
    ensures k >= 1 ==> d * k >= d
    ensures k <= -1 ==> d * k <= -d
  {
    if k >= 1 {
      assert d * k == d + d * (k - 1) && d * (k - 1) >= 0;
    } else if k <= -1 {
      assert d * k == -d + d * (k + 1) && d * (k + 1) <= 0;
    }
  }

  /** Quotient and remainder, told apart. */
  lemma Divides(v: int, d: int, q: int, r: int)
    requires d > 0 && v == d * q + r && 0 <= r < d
    ensures v / d == q && v % d == r
  {
    Product(d, q - v / d);
  }

  /** Most significant octet first. */
  lemma U16RoundTrip(v: u16)
    ensures ReadU16(U16(v)) == v == 256 * U16(v)[0] as int + U16(v)[1]
  {
  }

  lemma U32RoundTrip(v: u32)
    ensures ReadU32(U32(v)) == v
    ensures v == 0x100_0000 * U32(v)[0] as int + 0x1_0000 * U32(v)[1] as int + 256 * U32(v)[2] as int + U32(v)[3]
  {
    assert U32(v)[..2] == U16(v / 0x1_0000);
    assert U32(v)[2..] == U16(v % 0x1_0000);
  }

  lemma U32OfRead(b: bytes)
    requires |b| == 4
    ensures U32(ReadU32(b)) == b
  {
    var hi: int, lo: int := ReadU16(b[..2]), ReadU16(b[2..]);
    Divides(ReadU32(b), 0x1_0000, hi, lo);
    assert U16(hi) == b[..2] && U16(lo) == b[2..];
  }

  lemma ReadU32Meaning(b: bytes)
    requires |b| == 4
    ensures ReadU32(b) == 0x100_0000 * b[0] as int + 0x1_0000 * b[1] as int + 256 * b[2] as int + b[3]
  {
  }

  lemma Assoc<T>(a: seq<T>, b: seq<T>, c: seq<T>)
    ensures a + b + c == a + (b + c)
  {
  }

  /** All but the last, and then the last. */
  lemma LastApart<T>(a: seq<T>, b: seq<T>)
    requires b != []
    ensures a + b[..|b| - 1] + [b[|b| - 1]] == a + b
  {
  }

  function Flatten<T>(parts: seq<seq<T>>): (r: seq<T>)
  {
    if parts == [] then [] else parts[0] + Flatten(parts[1..])
  }

  lemma FlattenOne<T>(part: seq<T>)
    ensures Flatten([part]) == part
  {
    assert [part][1..] == [];
    assert part + [] == part;
  }

  lemma {:induction false} FlattenConcat<T>(a: seq<seq<T>>, b: seq<seq<T>>)
    ensures Flatten(a + b) == Flatten(a) + Flatten(b)
  {
    if a == [] {
      assert a + b == b;
    } else {
      FlattenConcat(a[1..], b);
      assert (a + b)[1..] == a[1..] + b;
      Assoc(a[0], Flatten(a[1..]), Flatten(b));
    }
  }

  /** The elements that hold at least one item, in order. */
  function NonEmpty<T>(parts: seq<seq<T>>): (r: seq<seq<T>>)
    ensures |r| <= |parts|
    ensures forall i :: 0 <= i < |r| ==> r[i] != []
  {
    if parts == [] then []
    else if parts[0] == [] then NonEmpty(parts[1..])
    else [parts[0]] + NonEmpty(parts[1..])
  }

  lemma {:induction false} NonEmptyConcat<T>(a: seq<seq<T>>, b: seq<seq<T>>)
    ensures NonEmpty(a + b) == NonEmpty(a) + NonEmpty(b)
  {
    if a == [] {
      assert a + b == b;
    } else {
      NonEmptyConcat(a[1..], b);
      assert (a + b)[1..] == a[1..] + b;
      Assoc([a[0]], NonEmpty(a[1..]), NonEmpty(b));
    }
  }

  lemma {:induction false} NonEmptyIdentity<T>(a: seq<seq<T>>)
    requires forall i :: 0 <= i < |a| ==> a[i] != []
    ensures NonEmpty(a) == a
  {
    if a != [] {
      NonEmptyIdentity(a[1..]);
    }
  }

  /** The octets of a text literal. */
  function Ascii(s: string): (r: bytes)
    ensures |r| == |s|
    ensures forall i :: 0 <= i < |s| ==> r[i] == s[i] as int % 256
  {
    seq(|s|, i requires 0 <= i < |s| => s[i] as int % 256)
  }
}
