/** Octets, big-endian integers and the small result types shared by the models. */
module Bytes {

  type u8 = x: int | 0 <= x < 0x100
  type bytes = seq<u8>

  datatype Option<+T> = None | Some(value: T)

  const U16: nat := 0x1_0000
  const U24: nat := 0x100_0000
  const U48: nat := 0x1_0000_0000_0000
  const U64: nat := 0x1_0000_0000_0000_0000

  // CBB_add_u16 and CBB_add_u24: |v| in network byte order.
  function Put16(v: nat): (b: bytes)
    requires v < U16
    ensures |b| == 2
  {
    [v / 0x100, v % 0x100]
  }

  function Put24(v: nat): (b: bytes)
    requires v < U24
    ensures |b| == 3
  {
    [v / 0x1_0000, v / 0x100 % 0x100, v % 0x100]
  }

  // CBS_get_u16 and CBS_get_u24.
  function Get16(b: bytes): (v: nat)
    requires |b| == 2
    ensures v < U16
  {
    b[0] as int * 0x100 + b[1]
  }

  function Get24(b: bytes): (v: nat)
    requires |b| == 3
    ensures v < U24
  {
    b[0] as int * 0x1_0000 + b[1] as int * 0x100 + b[2]
  }

  lemma Get16Put16(v: nat)
    requires v < U16
    ensures Get16(Put16(v)) == v
  {}

  lemma Put16Get16(b: bytes)
    requires |b| == 2
    ensures Put16(Get16(b)) == b
  {}

  lemma Get24Put24(v: nat)
    requires v < U24
    ensures Get24(Put24(v)) == v
  {
    var high := v / 0x100;
    assert v == high * 0x100 + v % 0x100;
    assert high == v / 0x1_0000 * 0x100 + high % 0x100;
  }

  lemma Put24Get24(b: bytes)
    requires |b| == 3
    ensures Put24(Get24(b)) == b
  {
    var v := Get24(b);
    assert v / 0x100 == b[0] as int * 0x100 + b[1];
    assert v % 0x100 == b[2];
  }

  // The integer whose big-endian octets are |b|.
  function BigEndian(b: bytes): nat {
    if b == [] then 0 else BigEndian(b[..|b| - 1]) * 0x100 + b[|b| - 1]
  }

  function Pow256(n: nat): nat {
    if n == 0 then 1 else 0x100 * Pow256(n - 1)
  }

  lemma {:induction false} BigEndianBound(b: bytes)
    ensures BigEndian(b) < Pow256(|b|)
  {
    if b != [] { BigEndianBound(b[..|b| - 1]); }
  }

  lemma {:induction false} BigEndianInjective(a: bytes, b: bytes)
    requires |a| == |b| && BigEndian(a) == BigEndian(b)
    ensures a == b
  {
    if a != [] {
      var n := |a| - 1;
      BigEndianInjective(a[..n], b[..n]);
      assert a == a[..n] + [a[n]] && b == b[..n] + [b[n]];
    }
  }
}
