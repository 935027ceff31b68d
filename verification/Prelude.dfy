/** Shared value types and byte-level encodings. */
module Prelude {

  datatype Option<+T> = None | Some(value: T)

  newtype Byte = x: int | 0 <= x < 256

  type Bytes = seq<Byte>

  const TWO_32: int := 0x1_0000_0000
  const TWO_63: int := 0x8000_0000_0000_0000
  const TWO_64: int := 0x1_0000_0000_0000_0000
  const MAX_INT64: int := TWO_63 - 1
  const MAX_UINT64: int := TWO_64 - 1

  predicate IsInt64(x: int) {
    -TWO_63 <= x < TWO_63
  }

  /** Go's conversion of an int64 to a uint64. */
  function ToUint64(x: int): (u: nat)
    requires IsInt64(x)
  {
    if x < 0 then x + TWO_64 else x
  }

  /** Go's conversion of a uint64 to an int64. */
  function ToInt64(u: nat): (x: int)
    requires u < TWO_64
  {
    if u < TWO_63 then u else u - TWO_64
  }

  function Zeros(n: nat): (z: Bytes)
    ensures |z| == n && forall i :: 0 <= i < n ==> z[i] == 0
  {
    if n == 0 then [] else Zeros(n - 1) + [0]
  }

  function Pow256(width: nat): (p: nat)
    ensures p > 0
  {
    if width == 0 then 1 else 256 * Pow256(width - 1)
  }

  /** The low `width` bytes of n, most significant first. */
  function BigEndian(n: nat, width: nat): (b: Bytes)
    ensures |b| == width
  {
    if width == 0 then [] else BigEndian(n / 256, width - 1) + [(n % 256) as Byte]
  }

  function FromBigEndian(b: Bytes): nat {
    if b == [] then 0 else 256 * FromBigEndian(b[..|b| - 1]) + b[|b| - 1] as nat
  }

  lemma {:induction false} BigEndianRoundTrip(n: nat, width: nat)
    requires n < Pow256(width)
    ensures FromBigEndian(BigEndian(n, width)) == n
  {
    if width > 0 {
      var b := BigEndian(n, width);
      assert n / 256 < Pow256(width - 1);
      BigEndianRoundTrip(n / 256, width - 1);
      assert b[..|b| - 1] == BigEndian(n / 256, width - 1);
    }
  }

  lemma Pow256Values()
    ensures Pow256(4) == TWO_32 && Pow256(8) == TWO_64
  {
    assert Pow256(2) == 65536;
    assert Pow256(4) == 256 * (256 * Pow256(2));
    assert Pow256(6) == 256 * (256 * Pow256(4));
    assert Pow256(8) == 256 * (256 * Pow256(6));
  }

  function Uint32Bytes(n: nat): (b: Bytes)
    ensures |b| == 4
  {
    BigEndian(n % TWO_32, 4)
  }

  function Int64Bytes(x: int): (b: Bytes)
    requires IsInt64(x)
    ensures |b| == 8
  {
    BigEndian(ToUint64(x), 8)
  }

  function Int64OfBytes(b: Bytes): int
    requires |b| == 8
  {
    ToInt64(FromBigEndian(b) % TWO_64)
  }

  lemma Int64BytesRoundTrip(x: int)
    requires IsInt64(x)
    ensures Int64OfBytes(Int64Bytes(x)) == x
  {
    Pow256Values();
    BigEndianRoundTrip(ToUint64(x), 8);
  }

  lemma Uint32BytesRoundTrip(n: nat)
    requires n < TWO_32
    ensures FromBigEndian(Uint32Bytes(n)) == n
  {
    Pow256Values();
    var m := n % TWO_32;
    assert m == n;
    BigEndianRoundTrip(m, 4);
  }
}
