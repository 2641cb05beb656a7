/** Base 128 varints, zigzag numbers and fixed-width numbers: the arithmetic of
    pb_encode.c and pb_decode.c, and that each decoder inverts its encoder. */
module PbVarint {
  import opened Bytes
  import opened Words
  import opened PbTypes

  datatype Read<+T> = Read(value: T, rest: bytes)

  // pb_encode_varint
  function EncVarint(v: nat): (b: bytes)
    ensures |b| >= 1
  {
    if v < 0x80 then [v] else [v % 0x80 + 0x80] + EncVarint(v / 0x80)
  }

  // pb_decode_varint, from bit |pos| on: at most ten octets, and bits past the 64th are lost.
  function DecVarint64(b: bytes, pos: nat, acc: nat): (r: Option<Read<nat>>)
    requires acc < WORD64
    ensures r.Some? ==> |r.value.rest| < |b| && r.value.value < WORD64
    decreases |b|
  {
    if pos >= 64 || b == [] then None
    else
      Pow2Of64();
      OrBound(acc, b[0] % 0x80 * Pow2(pos) % WORD64, 64);
      var acc' := Or(acc, b[0] % 0x80 * Pow2(pos) % WORD64);
      if b[0] < 0x80 then Some(Read(acc', b[1..])) else DecVarint64(b[1..], pos + 7, acc')
  }

  // pb_decode_varint32_eof after its first octet. |pos| is an 8-bit counter that wraps;
  // octets from bit 32 on may only be zero or the sign extension of a negative number,
  // and the octet at bit 28 is checked only when it is the last.
  function DecVarint32Rest(b: bytes, pos: nat, acc: nat): (r: Option<Read<nat>>)
    ensures r.Some? ==> |r.value.rest| < |b|
    decreases |b|
  {
    if b == [] then None
    else
      var low := b[0] % 0x80;
      var sign := if pos < 63 then 0xff else 0x01;
      if pos >= 32 && low != 0 && (acc < 0x8000_0000 || b[0] != sign) then None
      else
        var acc' := if pos >= 32 then acc else Or(acc, low * Pow2(pos) % WORD32);
        var pos' := (pos + 7) % 0x100;
        if b[0] >= 0x80 then DecVarint32Rest(b[1..], pos', acc')
        else if pos' == 35 && low >= 0x10 then None
        else Some(Read(acc', b[1..]))
  }

  // pb_decode_varint32
  function DecVarint32(b: bytes): (r: Option<Read<nat>>)
    ensures r.Some? ==> |r.value.rest| < |b|
  {
    if b == [] then None
    else if b[0] < 0x80 then Some(Read(b[0], b[1..]))
    else DecVarint32Rest(b[1..], 7, b[0] % 0x80)
  }

  lemma VarintHead(v: nat, rest: bytes)
    requires v >= 0x80
    ensures var b := EncVarint(v) + rest;
      b[0] == v % 0x80 + 0x80 && b[1..] == EncVarint(v / 0x80) + rest
  {
    HeadAndTail(v % 0x80 + 0x80, EncVarint(v / 0x80), rest);
  }

  lemma HeadAndTail(x: u8, tail: bytes, rest: bytes)
    ensures ([x] + tail + rest)[0] == x && ([x] + tail + rest)[1..] == tail + rest
  {}

  lemma SmallPowers()
    ensures Pow2(7) == 0x80 && Pow2(14) == 0x4000 && Pow2(21) == 0x20_0000
    ensures Pow2(28) == 0x1000_0000 && Pow2(32) == WORD32
  {
    assert Pow2(10) == 0x400 && Pow2(20) == 0x10_0000 && Pow2(26) == 0x400_0000;
  }

  lemma SplitOctet(v: nat, p: nat)
    ensures v * p == v % 0x80 * p + v / 0x80 * (0x80 * p)
    ensures v % 0x80 * p + p <= 0x80 * p
    ensures v / 0x80 * (0x80 * p) >= 0
    ensures v > 0 ==> v * p >= p
  {
    var low, high := v % 0x80, v / 0x80;
    assert v == low + 0x80 * high;
    assert v * p == low * p + (0x80 * high) * p;
    assert (0x80 * high) * p == high * (0x80 * p);
    assert (low + 1) * p <= 0x80 * p by { MulOrder(low + 1, 0x80, p); }
    if v > 0 { MulOrder(1, v, p); }
  }

  lemma {:induction false} MulOrder(a: nat, b: nat, p: nat)
    requires a <= b
    ensures a * p <= b * p
  {
    if a < b {
      MulOrder(a, b - 1, p);
      assert b * p == (b - 1) * p + p;
    }
  }

  // One octet of a varint at bit |pos|: what it adds is below the word size, does not
  // overlap what came before, and leaves the rest of the number for the octets after it.
  lemma OctetAt(v: nat, pos: nat, acc: nat, n: nat)
    requires v * Pow2(pos) < Pow2(n) && acc < Pow2(pos)
    ensures v % 0x80 * Pow2(pos) % Pow2(n) == v % 0x80 * Pow2(pos)
    ensures Or(acc, v % 0x80 * Pow2(pos)) == acc + v % 0x80 * Pow2(pos) < Pow2(pos + 7)
    ensures v * Pow2(pos) == v % 0x80 * Pow2(pos) + v / 0x80 * Pow2(pos + 7)
    ensures v / 0x80 * Pow2(pos + 7) <= v * Pow2(pos)
    ensures v > 0 ==> pos < n
  {
    hide Or, Pow2;
    var p := Pow2(pos);
    SmallPowers();
    Pow2Sum(7, pos);
    SplitOctet(v, p);
    var part := v % 0x80 * p;
    ModUnique(part, Pow2(n), 0, part);
    OrCommutes(acc, part);
    MulMod(v % 0x80, p);
    OrIsSum(part, acc, pos);
    if v > 0 && pos >= n { Pow2Monotone(n, pos); }
  }

  lemma MulMod(a: nat, p: nat)
    requires p > 0
    ensures a * p % p == 0
  {
    ModUnique(a * p, p, a, 0);
  }

  lemma {:induction false} OrCommutes(x: nat, y: nat)
    ensures Or(x, y) == Or(y, x)
    decreases x + y
  {
    if x > 0 && y > 0 { OrCommutes(x / 2, y / 2); }
  }

  // One turn of the decoding loop, on an octet that is not the last, and on the last one.
  lemma Turn64(b: bytes, pos: nat, acc: nat, acc': nat)
    requires acc < WORD64 && pos < 64 && b != [] && (b[0] >= 0x80 ==> acc' < WORD64)
    requires Or(acc, b[0] % 0x80 * Pow2(pos) % WORD64) == acc'
    ensures DecVarint64(b, pos, acc) ==
            if b[0] < 0x80 then Some(Read(acc', b[1..])) else DecVarint64(b[1..], pos + 7, acc')
  {
    hide Or, Pow2;
  }

  // More octets to come stay within 64 bits.
  lemma More64(v: nat, pos: nat, acc: nat)
    requires v * Pow2(pos) < WORD64 && acc < Pow2(pos) && v >= 0x80
    ensures var acc' := acc + v % 0x80 * Pow2(pos);
      acc' < Pow2(pos + 7) <= WORD64 && pos + 7 < 64 && v / 0x80 * Pow2(pos + 7) < WORD64
  {
    hide Or, Pow2;
    Pow2Of64();
    OctetAt(v, pos, acc, 64);
    OctetAt(v / 0x80, pos + 7, acc + v % 0x80 * Pow2(pos), 64);
    Pow2Monotone(pos + 7, 64);
  }

  lemma {:induction false} Varint64From(v: nat, pos: nat, acc: nat, rest: bytes)
    requires v * Pow2(pos) < WORD64 && acc < Pow2(pos) && pos < 64 && acc < WORD64
    ensures DecVarint64(EncVarint(v) + rest, pos, acc) == Some(Read(acc + v * Pow2(pos), rest))
    decreases v
  {
    hide Or, Pow2, DecVarint64;
    Pow2Of64();
    OctetAt(v, pos, acc, 64);
    var b := EncVarint(v) + rest;
    var acc' := acc + v % 0x80 * Pow2(pos);
    if v < 0x80 {
      assert b[0] == v && b[1..] == rest;
      Turn64(b, pos, acc, acc');
    } else {
      VarintHead(v, rest);
      More64(v, pos, acc);
      Turn64(b, pos, acc, acc');
      hide EncVarint;
      Varint64From(v / 0x80, pos + 7, acc', rest);
    }
  }

  // Every 64-bit number survives, whatever follows it.
  lemma Varint64RoundTrip(v: nat, rest: bytes)
    requires v < WORD64
    ensures DecVarint64(EncVarint(v) + rest, 0, 0) == Some(Read(v, rest))
  {
    Varint64From(v, 0, 0, rest);
  }

  lemma Turn32(b: bytes, pos: nat, acc: nat, acc': nat)
    requires b != [] && pos < 32 && Or(acc, b[0] % 0x80 * Pow2(pos) % WORD32) == acc'
    requires pos == 28 ==> b[0] % 0x80 < 0x10
    ensures DecVarint32Rest(b, pos, acc) ==
            if b[0] < 0x80 then Some(Read(acc', b[1..])) else DecVarint32Rest(b[1..], pos + 7, acc')
  {
    hide Or, Pow2;
  }

  lemma {:induction false} Varint32From(v: nat, pos: nat, acc: nat, rest: bytes)
    requires v * Pow2(pos) < WORD32 && acc < Pow2(pos) && 0 < v
    ensures DecVarint32Rest(EncVarint(v) + rest, pos, acc) == Some(Read(acc + v * Pow2(pos), rest))
    decreases v
  {
    hide Or, Pow2, DecVarint32Rest;
    SmallPowers();
    OctetAt(v, pos, acc, 32);
    var b := EncVarint(v) + rest;
    var acc' := acc + v % 0x80 * Pow2(pos);
    if pos == 28 { assert v * 0x1000_0000 < WORD32; }
    if v < 0x80 {
      assert b[0] == v && b[1..] == rest;
      Turn32(b, pos, acc, acc');
    } else {
      VarintHead(v, rest);
      Turn32(b, pos, acc, acc');
      hide EncVarint;
      Varint32From(v / 0x80, pos + 7, acc', rest);
    }
  }

  lemma Varint32RoundTrip(v: nat, rest: bytes)
    requires v < WORD32
    ensures DecVarint32(EncVarint(v) + rest) == Some(Read(v, rest))
  {
    var b := EncVarint(v) + rest;
    SmallPowers();
    hide DecVarint32Rest, Pow2;
    if v < 0x80 {
      assert b[0] == v && b[1..] == rest;
    } else {
      VarintHead(v, rest);
      hide EncVarint;
      Varint32From(v / 0x80, 7, v % 0x80, rest);
    }
  }

  // pb_encode_svarint
  function ZigZag(v: int): (u: nat)
    ensures u < WORD64
  {
    var doubled := 2 * (v % WORD64) % WORD64;
    if v < 0 then WORD64 - 1 - doubled else doubled
  }

  // pb_decode_svarint
  function UnZigZag(u: nat): int
    requires u < WORD64
  {
    if u % 2 == 1 then Signed(WORD64 - 1 - u / 2, 8) else Signed(u / 2, 8)
  }

  // pb_encode_fixed32 and pb_encode_fixed64: little-endian octets.
  function LittleEndian(v: nat, n: nat): (b: bytes)
    ensures |b| == n
  {
    if n == 0 then [] else [v % 0x100] + LittleEndian(v / 0x100, n - 1)
  }

  function FromLittleEndian(b: bytes): nat {
    if b == [] then 0 else b[0] + 0x100 * FromLittleEndian(b[1..])
  }

  // pb_enc_varint, pb_enc_uvarint, pb_enc_svarint, pb_enc_fixed32 and pb_enc_fixed64
  function EncNumber(t: LType, v: int): bytes
    requires t.Packable()
  {
    match t
    case SVarint => EncVarint(ZigZag(v))
    case Fixed32 => LittleEndian(v % WORD32, 4)
    case Fixed64 => LittleEndian(v % WORD64, 8)
    case _ => EncVarint(v % WORD64)
  }

  // pb_dec_varint: numbers of up to 32 bits are cut to 32 bits first (negative numbers
  // may arrive in either length), then must fit the variable.
  function NarrowVarint(u: nat, size: nat): Option<int> {
    var svalue := if size == 8 then Signed(u, 8) else Signed(u, 4);
    if Signed(svalue, size) == svalue then Some(svalue) else None
  }

  // pb_dec_varint, pb_dec_uvarint, pb_dec_svarint, pb_dec_fixed32 and pb_dec_fixed64
  function DecNumber(t: LType, size: nat, b: bytes): (r: Option<Read<int>>)
    requires t.Packable()
    ensures r.Some? ==> |r.value.rest| < |b|
  {
    if t.Fixed32? then
      if |b| < 4 then None else Some(Read(FromLittleEndian(b[..4]), b[4..]))
    else if t.Fixed64? then
      if |b| < 8 then None else Some(Read(FromLittleEndian(b[..8]), b[8..]))
    else
      var read := DecVarint64(b, 0, 0);
      if read.None? || !NumberSize(size) then None
      else
        var v := Narrow(t, size, read.value.value);
        if v.None? then None else Some(Read(v.value, read.value.rest))
  }

  // The range checks of the integer decoders.
  function Narrow(t: LType, size: nat, u: nat): Option<int>
    requires u < WORD64 && NumberSize(size)
  {
    if t.Varint? then NarrowVarint(u, size)
    else if t.UVarint? then
      if u % Modulus(size) == u then Some(u) else None
    else
      var z := UnZigZag(u);
      if Signed(z, size) == z then Some(z) else None
  }

  lemma {:induction false} LittleEndianRoundTrip(v: nat, n: nat)
    requires v < Pow2(8 * n)
    ensures FromLittleEndian(LittleEndian(v, n)) == v
  {
    if n > 0 {
      assert Pow2(8) == 0x100;
      Pow2Sum(8, 8 * (n - 1));
      assert 8 * n == 8 + 8 * (n - 1);
      LittleEndianRoundTrip(v / 0x100, n - 1);
      assert LittleEndian(v, n)[1..] == LittleEndian(v / 0x100, n - 1);
    }
  }

  lemma ZigZagRoundTrip(v: int)
    requires Signed(v, 8) == v
    ensures UnZigZag(ZigZag(v)) == v
  {
    if v < 0 {
      assert v % WORD64 == v + WORD64;
    } else {
      assert v % WORD64 == v;
    }
  }

  // Signed keeps exactly the values of the window around zero.
  lemma SignedWindow(v: int, size: nat)
    requires NumberSize(size)
    ensures var m := Modulus(size);
      && (Signed(v, size) == v <==> -(m / 2) <= v < m / 2)
      && (-(m / 2) <= v < m / 2 ==> v % m == if v < 0 then v + m else v)
  {
    Window(v, Modulus(size) / 2);
  }

  lemma Window(v: int, half: int)
    requires half > 0
    ensures var m := 2 * half; var s := if v % m < half then v % m else v % m - m;
      && (s == v <==> -half <= v < half)
      && (-half <= v < half ==> v % m == if v < 0 then v + m else v)
  {
    var m := 2 * half;
    var r := v % m;
    assert 0 <= r < m;
    if -half <= v < half { ModUnique(v, m, if v < 0 then -1 else 0, if v < 0 then v + m else v); }
  }

  lemma NarrowRoundTrip(v: int, size: nat)
    requires NumberSize(size) && Signed(v, size) == v
    ensures NarrowVarint(v % WORD64, size) == Some(v)
    ensures Signed(v, 8) == v
  {
    SignedWindow(v, size);
    SignedWindow(v, 8);
    SignedWindow(v, 4);
    var u := v % WORD64;
    assert u == if v < 0 then v + WORD64 else v;
    ModUnique(u, WORD64, 0, u);
    if size != 8 { ModUnique(u, WORD32, if v < 0 then WORD32 - 1 else 0, if v < 0 then v + WORD32 else v); }
    hide Signed;
  }

  // A number the variable can hold survives, sign and all, whatever follows it.
  lemma NumberRoundTrip(t: LType, size: nat, v: int, rest: bytes)
    requires t.Packable() && InRange(t, size, v) && (t.Fixed32? || t.Fixed64? || NumberSize(size))
    ensures DecNumber(t, size, EncNumber(t, v) + rest) == Some(Read(v, rest))
  {
    var b := EncNumber(t, v) + rest;
    if t.Fixed32? || t.Fixed64? {
      FixedRoundTrip(t, size, v, rest);
    } else {
      hide DecVarint64, EncVarint, NarrowVarint, ZigZag, UnZigZag, Signed;
      if t.UVarint? {
        ModUnique(v, WORD64, 0, v);
        ModUnique(v, Modulus(size), 0, v);
        hide Modulus;
        Varint64RoundTrip(v, rest);
      } else {
        NarrowRoundTrip(v, size);
        ZigZagRoundTrip(v);
        Varint64RoundTrip(if t.Varint? then v % WORD64 else ZigZag(v), rest);
      }
    }
  }

  lemma FixedRoundTrip(t: LType, size: nat, v: int, rest: bytes)
    requires (t.Fixed32? || t.Fixed64?) && InRange(t, size, v)
    ensures DecNumber(t, size, EncNumber(t, v) + rest) == Some(Read(v, rest))
  {
    hide LittleEndian, FromLittleEndian, Pow2;
    if t.Fixed32? { FixedOctets(v, 4, rest); } else { FixedOctets(v, 8, rest); }
  }

  lemma FixedOctets(v: nat, n: nat, rest: bytes)
    requires (n == 4 && v < WORD32) || (n == 8 && v < WORD64)
    ensures var b := LittleEndian(v, n) + rest;
      FromLittleEndian(b[..n]) == v && b[n..] == rest
  {
    hide LittleEndian, FromLittleEndian, Pow2;
    SmallPowers();
    Pow2Of64();
    LittleEndianRoundTrip(v, n);
    var b := LittleEndian(v, n) + rest;
    assert b[..n] == LittleEndian(v, n) && b[n..] == rest;
  }

  lemma {:induction false} FromLittleEndianBound(b: bytes)
    ensures FromLittleEndian(b) < Pow2(8 * |b|)
  {
    if b != [] {
      FromLittleEndianBound(b[1..]);
      assert Pow2(8) == 0x100;
      Pow2Sum(8, 8 * (|b| - 1));
    }
  }

  // Whatever decodes fits the variable.
  lemma NumberInRange(t: LType, size: nat, b: bytes)
    requires t.Packable() && DecNumber(t, size, b).Some?
    ensures InRange(t, size, DecNumber(t, size, b).value.value)
  {
    hide DecVarint64, FromLittleEndian, UnZigZag;
    if t.Fixed32? || t.Fixed64? {
      var n := if t.Fixed32? then 4 else 8;
      FromLittleEndianBound(b[..n]);
      SmallPowers();
      Pow2Of64();
    } else {
      var u := DecVarint64(b, 0, 0).value.value;
      if t.Varint? {
        var s := Signed(u, if size == 8 then 8 else 4);
      } else if t.UVarint? {
        assert 0 <= u % Modulus(size) < Modulus(size);
      }
    }
  }
}
