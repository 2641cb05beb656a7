/** The encoder as pb_encode.c runs it: streams that are written in place or only count,
    submessages that are encoded once to size them and once to write them. Every method is
    proved to write exactly the encoding that PbEncode defines, or to fail. */
module PbEncoder {
  import opened Bytes
  import opened Words
  import opened PbTypes
  import opened PbVarint
  import opened PbEncode

  // pb_ostream_t: a sizing stream has no callback and no buffer, and only counts.
  class OStream {
    const buf: array?<u8>
    var pos: nat
    const maxSize: nat
    var bytesWritten: nat

    ghost predicate Valid()
      reads this
    {
      buf != null ==> bytesWritten <= maxSize && pos + (maxSize - bytesWritten) <= buf.Length
    }

    ghost function Output(): bytes
      requires Valid()
      reads this, buf
    {
      if buf == null then [] else buf[..pos]
    }

    // Room for |n| more octets.
    ghost predicate HasRoom(n: nat)
      reads this
    {
      buf == null || bytesWritten + n <= maxSize
    }

    // PB_OSTREAM_SIZING
    constructor Sizing()
      ensures Valid() && buf == null && bytesWritten == 0
    {
      buf, pos, maxSize, bytesWritten := null, 0, 0, 0;
    }

    // pb_ostream_from_buffer, and the writing substream of pb_encode_submessage.
    constructor Over(buf: array<u8>, pos: nat, maxSize: nat)
      requires pos + maxSize <= buf.Length
      ensures Valid() && this.buf == buf && this.pos == pos
      ensures this.maxSize == maxSize && bytesWritten == 0
    {
      this.buf, this.pos, this.maxSize, bytesWritten := buf, pos, maxSize, 0;
    }

    // pb_write and buf_write
    method Write(data: bytes) returns (ok: bool)
      requires Valid()
      modifies this, buf
      ensures Wrote(this, ok, Some(data))
    {
      if buf != null {
        if bytesWritten + |data| > maxSize { return false; }
        var start := pos;
        pos := pos + |data|;
        for i := 0 to |data|
          invariant pos == start + |data| <= buf.Length && bytesWritten == old(bytesWritten)
          invariant buf[..start + i] == old(buf[..start]) + data[..i]
        {
          buf[start + i] := data[i];
          assert data[..i + 1] == data[..i] + [data[i]];
        }
        assert data[..|data|] == data;
      }
      bytesWritten := bytesWritten + |data|;
      ok := true;
    }
  }

  // A call on |s| that was to write |enc|: it succeeds exactly when there is an encoding
  // and room for it, and then has written it and nothing else.
  twostate predicate Wrote(s: OStream, ok: bool, new enc: Option<bytes>)
    requires old(s.Valid())
    reads s, s.buf
  {
    s.Valid() && Writes(s, old(s.Output()), old(s.bytesWritten), ok, enc, s.Output(), s.bytesWritten)
  }

  // The same from |out| octets of output, |n| of them counted, to |out'| and |n'|.
  ghost predicate Writes(s: OStream, out: bytes, n: nat, ok: bool, enc: Option<bytes>, out': bytes, n': nat) {
    && (ok <==> enc.Some? && (s.buf == null || n + |enc.value| <= s.maxSize))
    && (ok ==> out' == out + (if s.buf == null then [] else enc.value))
    && (ok ==> n' == n + |enc.value|)
    && (!ok ==> out <= out')
  }

  lemma WritesNothing(s: OStream, out: bytes, n: nat)
    ensures s.buf == null || n <= s.maxSize ==> Writes(s, out, n, true, Some([]), out, n)
  {
    assert out + [] == out;
  }

  // One thing written after another.
  lemma WritesBoth(s: OStream, out: bytes, n: nat, a: bytes, out1: bytes, n1: nat, ok: bool, b: Option<bytes>,
                   out2: bytes, n2: nat)
    ensures Writes(s, out, n, true, Some(a), out1, n1) && Writes(s, out1, n1, ok, b, out2, n2) ==>
              Writes(s, out, n, ok, Join(Some(a), b), out2, n2)
  {
    if b.Some? { assert out + (a + b.value) == out + a + b.value; }
  }

  // What fails for a part fails for the whole.
  lemma WritesLess(s: OStream, out: bytes, n: nat, a: Option<bytes>, b: Option<bytes>, out': bytes, n': nat)
    ensures Writes(s, out, n, false, a, out', n') ==> Writes(s, out, n, false, Join(a, b), out', n')
  {}

  // The octets of a varint of more than one octet, built up in a local buffer of ten.
  method VarintOctets(value: nat) returns (buffer: bytes)
    requires 0x80 <= value < WORD64
    ensures buffer == EncVarint(value) && |buffer| <= 10
  {
    var v: nat := value;
    buffer := [];
    UnfinishedStart(value);
    hide EncVarint, Unfinished, Tops, Remains;
    while v != 0
      invariant |buffer| <= 10 && Remains(v, |buffer|, value) && Tops(buffer) && (v == 0 ==> buffer != [])
      invariant EncVarint(value) == Unfinished(buffer, v)
      decreases v
    {
      TenOctets(v, |buffer|, value);
      UnfinishedStep(buffer, v);
      buffer := buffer + [v % 0x80 + 0x80];
      v := v / 0x80;
    }
    UnfinishedEnd(buffer);
    var last := |buffer| - 1;
    buffer := buffer[..last] + [buffer[last] - 0x80];
  }

  // Every octet has its top bit set.
  ghost predicate Tops(done: bytes) {
    forall k | 0 <= k < |done| :: done[k] >= 0x80
  }

  lemma UnfinishedEnd(done: bytes)
    requires done != [] && Tops(done)
    ensures done[|done| - 1] >= 0x80
    ensures Unfinished(done, 0) == done[..|done| - 1] + [done[|done| - 1] - 0x80]
  {}

  // The encoding whose first octets are |done|, every one with its top bit set, and
  // whose remaining value is |v|.
  ghost function Unfinished(done: bytes, v: nat): bytes
    requires Tops(done) && (v == 0 ==> done != [])
  {
    if v != 0 then done + EncVarint(v)
    else done[..|done| - 1] + [done[|done| - 1] - 0x80]
  }

  lemma EncVarintHead(v: nat)
    requires v >= 0x80
    ensures EncVarint(v) == [v % 0x80 + 0x80] + EncVarint(v / 0x80)
  {}

  lemma UnfinishedStep(done: bytes, v: nat)
    requires v > 0 && Tops(done)
    ensures Tops(done + [v % 0x80 + 0x80])
    ensures Unfinished(done + [v % 0x80 + 0x80], v / 0x80) == Unfinished(done, v)
  {
    var octet: u8 := v % 0x80 + 0x80;
    var more := done + [octet];
    assert more[..|more| - 1] == done && more[|more| - 1] == octet;
    if v < 0x80 {
      assert v / 0x80 == 0 && octet - 0x80 == v;
      assert EncVarint(v) == [v];
    } else {
      hide EncVarint;
      EncVarintHead(v);
      assert more + EncVarint(v / 0x80) == done + ([octet] + EncVarint(v / 0x80));
    }
  }

  // pb_encode_varint
  method EncodeVarint(s: OStream, value: nat) returns (ok: bool)
    requires s.Valid() && value < WORD64
    modifies s, s.buf
    ensures Wrote(s, ok, Some(EncVarint(value)))
  {
    if value <= 0x7F {
      ok := s.Write([value]);
    } else {
      var octets := VarintOctets(value);
      ok := s.Write(octets);
    }
  }

  // |v| is what is left of |value| after |i| octets.
  ghost predicate Remains(v: nat, i: nat, value: nat) {
    v * Pow2(7 * i) <= value < WORD64
  }

  lemma UnfinishedStart(value: nat)
    ensures 0x80 <= value < WORD64 ==> Remains(value, 0, value)
    ensures Tops([]) && (value > 0 ==> Unfinished([], value) == EncVarint(value))
  {
    assert Pow2(0) == 1 && [] + EncVarint(value) == EncVarint(value);
  }

  lemma TenOctets(v: nat, i: nat, value: nat)
    requires 0 < v && Remains(v, i, value)
    ensures i < 10 && Remains(v / 0x80, i + 1, value)
  {
    hide Pow2;
    if i >= 10 { SeventyTooMany(v, i); }
    SmallPowers();
    Pow2Sum(7, 7 * i);
    SplitOctet(v, Pow2(7 * i));
    assert 7 * (i + 1) == 7 + 7 * i;
  }

  lemma SeventyTooMany(v: nat, i: nat)
    requires 0 < v && i >= 10
    ensures v * Pow2(7 * i) >= WORD64
  {
    Pow2Of64();
    Pow2Monotone(64, 7 * i);
    hide Pow2;
    MulOrder(1, v, Pow2(7 * i));
  }

  // What was written before, and then two things one after the other.
  lemma OneAfterAnother(before: bytes, a: bytes, b: bytes)
    ensures before + (a + b) == before + a + b
  {}

  // pb_encode_tag
  method EncodeTag(s: OStream, wireType: nat, tag: nat) returns (ok: bool)
    requires s.Valid() && wireType < 8 && tag < 0x2000_0000
    modifies s, s.buf
    ensures Wrote(s, ok, Some(EncTag(wireType, tag)))
  {
    ok := EncodeVarint(s, tag * 8 + wireType);
  }

  // pb_encode_string
  method EncodeString(s: OStream, data: bytes) returns (ok: bool)
    requires s.Valid() && |data| < WORD64
    modifies s, s.buf
    ensures Wrote(s, ok, Some(EncString(data)))
  {
    hide EncVarint;
    OneAfterAnother(s.Output(), EncVarint(|data|), data);
    ok := EncodeVarint(s, |data|);
    if !ok { return; }
    ok := s.Write(data);
  }

  // pb_enc_varint .. pb_enc_fixed64
  method EncodeNumber(s: OStream, t: LType, v: int) returns (ok: bool)
    requires s.Valid() && t.Packable()
    modifies s, s.buf
    ensures Wrote(s, ok, Some(EncNumber(t, v)))
  {
    hide EncVarint, LittleEndian, ZigZag;
    if t.Fixed32? {
      ok := s.Write(LittleEndian(v % WORD32, 4));
    } else if t.Fixed64? {
      ok := s.Write(LittleEndian(v % WORD64, 8));
    } else if t.SVarint? {
      ok := EncodeVarint(s, ZigZag(v));
    } else {
      ok := EncodeVarint(s, v % WORD64);
    }
  }

  // pb_enc_bytes, pb_enc_string, pb_enc_fixed_length_bytes, pb_enc_submessage and the
  // number encoders, as PB_ENCODERS dispatches to them.
  method EncodeItem(s: OStream, f: Field, x: Item) returns (ok: bool)
    requires s.Valid() && ValidField(f) && Typed(f, x) && FitsItem(f, x, WORD64)
    modifies s, s.buf
    ensures Wrote(s, ok, EncItem(f, x))
    decreases f, 0
  {
    hide EncNumber, EncString, EncMsg;
    if f.ltype.Packable() {
      ok := EncodeNumber(s, f.ltype, x.v);
    } else if f.ltype.SubMessage? {
      ok := EncodeSubmessage(s, f.sub, x.msg);
    } else if f.ltype.Str? {
      ok := EncodeString(s, x.chars);
    } else {
      if f.ltype.BytesArray? && BYTES_HEADER + |x.data| > f.dataSize { return false; }
      ok := EncodeString(s, x.data);
    }
  }

  // pb_encode_submessage: size the message, write its length, then write it to a
  // substream of exactly that size. The size cannot change between the two passes.
  method EncodeSubmessage(s: OStream, d: Desc, m: Msg) returns (ok: bool)
    requires s.Valid() && ValidDesc(d) && TypedMsg(d, m) && FitsMsg(d, m, WORD64)
    requires EncMsg(d, m).Some? ==> |EncMsg(d, m).value| < WORD64
    modifies s, s.buf
    ensures Wrote(s, ok, if EncMsg(d, m).Some? then Some(EncString(EncMsg(d, m).value)) else None)
    decreases d, |d| + 3
  {
    hide EncMsg, EncVarint, ValidDesc, TypedMsg, FitsMsg;
    ghost var enc := if EncMsg(d, m).Some? then EncMsg(d, m).value else [];
    OneAfterAnother(s.Output(), EncVarint(|enc|), enc);
    var sizing := new OStream.Sizing();
    ok := EncodeMsg(sizing, d, m);
    if !ok { return; }
    var size := sizing.bytesWritten;
    ok := EncodeVarint(s, size);
    if !ok { return; }
    if s.buf == null {
      s.bytesWritten := s.bytesWritten + size;
      return;
    }
    if s.bytesWritten + size > s.maxSize { return false; }
    ok := EncodeSized(s, d, m, size);
  }

  // The second pass of pb_encode_submessage.
  method EncodeSized(s: OStream, d: Desc, m: Msg, size: nat) returns (ok: bool)
    requires s.Valid() && ValidDesc(d) && TypedMsg(d, m) && FitsMsg(d, m, WORD64)
    requires EncMsg(d, m).Some? && |EncMsg(d, m).value| == size
    requires s.buf != null && s.bytesWritten + size <= s.maxSize
    modifies s, s.buf
    ensures Wrote(s, ok, EncMsg(d, m)) && ok
    decreases d, |d| + 2
  {
    hide EncMsg, ValidDesc, TypedMsg, FitsMsg;
    var substream := new OStream.Over(s.buf, s.pos, size);
    ok := EncodeMsg(substream, d, m);
    s.bytesWritten := s.bytesWritten + substream.bytesWritten;
    s.pos := substream.pos;
    // The "submsg size changed" check: the writing pass took what the sizing pass counted.
    assert ok && substream.bytesWritten == size;
  }

  // encode_basic_field, for one value with its tag
  method EncodeTagged(s: OStream, f: Field, x: Item) returns (ok: bool)
    requires s.Valid() && ValidField(f) && Typed(f, x) && FitsItem(f, x, WORD64)
    modifies s, s.buf
    ensures Wrote(s, ok, Tagged(f, x))
    decreases f, 1
  {
    hide EncTag, EncItem, FitsItem, Typed;
    ghost var item := EncItem(f, x);
    OneAfterAnother(s.Output(), EncTag(WireType(f.ltype), f.tag), if item.Some? then item.value else []);
    ok := EncodeTag(s, WireType(f.ltype), f.tag);
    if !ok { return; }
    ok := EncodeItem(s, f, x);
  }

  // The numbers of a packed array, one after another.
  method EncodePacked(s: OStream, f: Field, xs: seq<Item>) returns (ok: bool)
    requires s.Valid() && f.ltype.Packable() && AllTyped(f, xs)
    modifies s, s.buf
    ensures Wrote(s, ok, Some(Packed(f, xs)))
  {
    hide EncNumber, InRange, Packed, PackedFrom, Join, Writes;
    ghost var done: bytes, out, n := [], s.Output(), s.bytesWritten;
    ok := true;
    WritesNothing(s, out, n);
    NumbersNext(f, xs, 0, done);
    for i := 0 to |xs|
      invariant ok && s.Valid() && Writes(s, out, n, true, Some(done), s.Output(), s.bytesWritten)
      invariant Some(Packed(f, xs)) == Join(Some(done), Some(PackedFrom(f, xs, i)))
    {
      NumbersNext(f, xs, i, done);
      ghost var part, out1, n1 := EncNumber(f.ltype, xs[i].v), s.Output(), s.bytesWritten;
      ok := EncodeNumber(s, f.ltype, xs[i].v);
      WritesBoth(s, out, n, done, out1, n1, ok, Some(part), s.Output(), s.bytesWritten);
      WritesLess(s, out, n, Join(Some(done), Some(part)), Some(PackedFrom(f, xs, i + 1)), s.Output(), s.bytesWritten);
      if !ok { return; }
      done := done + part;
    }
    NumbersNext(f, xs, |xs|, done);
  }

  ghost function PackedFrom(f: Field, xs: seq<Item>, i: nat): bytes
    requires f.ltype.Packable() && AllTyped(f, xs) && i <= |xs|
  {
    Packed(f, xs[i..])
  }

  // Peeling one number off what is left to write.
  lemma NumbersNext(f: Field, xs: seq<Item>, i: int, done: bytes)
    requires f.ltype.Packable() && AllTyped(f, xs)
    ensures Some(Packed(f, xs)) == Join(Some([]), Some(PackedFrom(f, xs, 0)))
    ensures i == |xs| ==> Join(Some(done), Some(PackedFrom(f, xs, i))) == Some(done)
    ensures 0 <= i < |xs| ==>
      && Typed(f, xs[i]) &&
      var part := Some(EncNumber(f.ltype, xs[i].v));
      && Join(Some(done), Some(PackedFrom(f, xs, i))) == Join(Join(Some(done), part), Some(PackedFrom(f, xs, i + 1)))
      && Join(Some(done), part) == Some(done + part.value)
  {
    hide EncNumber, InRange;
    assert xs[0..] == xs;
    JoinLaws(Some(PackedFrom(f, xs, 0)), None, None);
    JoinLaws(Some(done), None, None);
    if 0 <= i < |xs| {
      assert xs[i..][0] == xs[i] && xs[i..][1..] == xs[i + 1..];
      JoinLaws(Some(done), Some(EncNumber(f.ltype, xs[i].v)), Some(PackedFrom(f, xs, i + 1)));
    }
  }

  // The size of a packed array: multiplied out for fixed-width numbers, counted otherwise.
  method PackedSize(f: Field, xs: seq<Item>) returns (size: nat)
    requires f.ltype.Packable() && AllTyped(f, xs)
    ensures size == |Packed(f, xs)|
  {
    if f.ltype.Fixed32? {
      size := 4 * |xs|;
      FixedWidth(f, xs);
    } else if f.ltype.Fixed64? {
      size := 8 * |xs|;
      FixedWidth(f, xs);
    } else {
      var sizing := new OStream.Sizing();
      var _ := EncodePacked(sizing, f, xs);
      size := sizing.bytesWritten;
    }
  }

  lemma {:induction false} FixedWidth(f: Field, xs: seq<Item>)
    requires (f.ltype.Fixed32? || f.ltype.Fixed64?) && AllTyped(f, xs)
    ensures |Packed(f, xs)| == (if f.ltype.Fixed32? then 4 else 8) * |xs|
    decreases |xs|
  {
    if xs != [] {
      assert Typed(f, xs[0]);
      FixedWidth(f, xs[1..]);
    }
  }

  // The entries of an array that is not packed.
  method EncodeEntries(s: OStream, f: Field, xs: seq<Item>) returns (ok: bool)
    requires s.Valid() && ValidField(f) && AllTyped(f, xs)
    requires forall k | 0 <= k < |xs| :: FitsItem(f, xs[k], WORD64)
    modifies s, s.buf
    ensures Wrote(s, ok, Unpacked(f, xs))
    decreases f, 2
  {
    hide Tagged, FitsItem, Typed, ValidField, Unpacked, Join, UnpackedFrom, Writes;
    ghost var done: bytes, out, n := [], s.Output(), s.bytesWritten;
    ok := true;
    WritesNothing(s, out, n);
    EntriesNext(f, xs, 0, done);
    for i := 0 to |xs|
      invariant ok && s.Valid() && Writes(s, out, n, true, Some(done), s.Output(), s.bytesWritten)
      invariant Unpacked(f, xs) == Join(Some(done), UnpackedFrom(f, xs, i))
    {
      ghost var part, out1, n1 := Tagged(f, xs[i]), s.Output(), s.bytesWritten;
      ok := EncodeTagged(s, f, xs[i]);
      WritesBoth(s, out, n, done, out1, n1, ok, part, s.Output(), s.bytesWritten);
      WritesLess(s, out, n, Join(Some(done), part), UnpackedFrom(f, xs, i + 1), s.Output(), s.bytesWritten);
      SucceedsWhole(s, out1, n1, ok, part, s.Output(), s.bytesWritten);
      EntriesNext(f, xs, i, done);
      if !ok { return; }
      done := done + part.value;
    }
    EntriesNext(f, xs, |xs|, done);
  }

  ghost function UnpackedFrom(f: Field, xs: seq<Item>, i: nat): Option<bytes>
    requires AllTyped(f, xs) && i <= |xs|
  {
    Unpacked(f, xs[i..])
  }

  // Peeling one entry off what is left to write.
  lemma EntriesNext(f: Field, xs: seq<Item>, i: int, done: bytes)
    ensures AllTyped(f, xs) ==> Unpacked(f, xs) == Join(Some([]), UnpackedFrom(f, xs, 0))
    ensures AllTyped(f, xs) && i == |xs| ==> Join(Some(done), UnpackedFrom(f, xs, i)) == Some(done)
    ensures AllTyped(f, xs) && 0 <= i < |xs| ==>
      var part, whole := Tagged(f, xs[i]), Join(Some(done), UnpackedFrom(f, xs, i));
      && whole == Join(Join(Some(done), part), UnpackedFrom(f, xs, i + 1))
      && (part.Some? ==> Join(Some(done), part) == Some(done + part.value))
  {
    hide Tagged, Typed;
    if AllTyped(f, xs) {
      assert xs[0..] == xs;
      JoinLaws(UnpackedFrom(f, xs, 0), None, None);
      JoinLaws(Some(done), None, None);
      if 0 <= i < |xs| {
        assert xs[i..][0] == xs[i] && xs[i..][1..] == xs[i + 1..];
        JoinLaws(Some(done), Tagged(f, xs[i]), UnpackedFrom(f, xs, i + 1));
      }
    }
  }

  // encode_array, for numbers
  method EncodePackedArray(s: OStream, f: Field, xs: seq<Item>) returns (ok: bool)
    requires s.Valid() && ValidField(f) && AllTyped(f, xs) && f.ltype.Packable() && |Packed(f, xs)| < WORD64
    modifies s, s.buf
    ensures Wrote(s, ok, Some(EncTag(WT_STRING, f.tag) + EncVarint(|Packed(f, xs)|) + Packed(f, xs)))
  {
    assert f.tag < 0x2000_0000;
    hide EncTag, EncVarint, Packed, Typed, ValidField;
    ghost var before, head, len := s.Output(), EncTag(WT_STRING, f.tag), EncVarint(|Packed(f, xs)|);
    OneAfterAnother(before, head, len);
    OneAfterAnother(before, head + len, Packed(f, xs));
    ok := EncodeTag(s, WT_STRING, f.tag);
    if !ok { return; }
    var size := PackedSize(f, xs);
    ok := EncodeVarint(s, size);
    if !ok { return; }
    if s.buf == null {
      s.bytesWritten := s.bytesWritten + size;
      return;
    }
    ok := EncodePacked(s, f, xs);
  }

  // encode_array
  method EncodeArray(s: OStream, f: Field, xs: seq<Item>) returns (ok: bool)
    requires s.Valid() && ValidField(f) && AllTyped(f, xs)
    requires forall k | 0 <= k < |xs| :: FitsItem(f, xs[k], WORD64)
    requires f.ltype.Packable() ==> |Packed(f, xs)| < WORD64
    modifies s, s.buf
    ensures Wrote(s, ok, EncArray(f, xs))
    decreases f, 3
  {
    hide EncTag, EncVarint, Packed, Unpacked, FitsItem, Typed, ValidField;
    if |xs| == 0 { return true; }
    if |xs| > f.arraySize { return false; }
    if f.ltype.Packable() {
      ok := EncodePackedArray(s, f, xs);
    } else {
      ok := EncodeEntries(s, f, xs);
    }
  }

  // pb_check_proto3_default_value, on the value of a proto3 member
  method HasDefaultItem(f: Field, x: Item) returns (isDefault: bool)
    requires Typed(f, x)
    ensures isDefault == IsDefaultItem(f, x)
    decreases f, 0
  {
    match f.ltype
    case BytesArray => isDefault := |x.data| == 0;
    case Str => isDefault := x.chars == [];
    case FixedBytes => isDefault := f.dataSize == 0;
    case SubMessage =>
      for i := 0 to |f.sub|
        invariant forall j | 0 <= j < i :: IsDefaultCell(f.sub[j], x.msg[j])
      {
        var same := HasDefaultCell(f.sub[i], x.msg[i]);
        if !same { return false; }
      }
      isDefault := true;
    case _ => isDefault := x.v == 0;
  }

  // pb_check_proto3_default_value, on a member of any kind
  method HasDefaultCell(f: Field, c: Cell) returns (isDefault: bool)
    requires TypedCell(f, c)
    ensures isDefault == IsDefaultCell(f, c)
    decreases f, 1
  {
    match f.htype
    case Required => isDefault := false;
    case Repeated => isDefault := |c.items| == 0;
    case Oneof(_) => isDefault := c.selected.None?;
    case Optional => isDefault := !c.has;
    case Singular => isDefault := HasDefaultItem(f, c.item);
  }

  // encode_basic_field
  method EncodeCell(s: OStream, f: Field, c: Cell) returns (ok: bool)
    requires s.Valid() && ValidField(f) && TypedCell(f, c) && FitsCell(f, c, WORD64)
    modifies s, s.buf
    ensures Wrote(s, ok, EncCell(f, c))
    decreases f, 4
  {
    hide Tagged, EncArray, FitsItem, ValidField, Typed, Packed, IsDefaultItem;
    match f.htype
    case Required => ok := EncodeTagged(s, f, c.item);
    case Optional => if c.has { ok := EncodeTagged(s, f, c.item); } else { ok := true; }
    case Singular =>
      var implicitHas := HasDefaultItem(f, c.item);
      if !implicitHas { ok := EncodeTagged(s, f, c.item); } else { ok := true; }
    case Repeated => ok := EncodeArray(s, f, c.items);
    case Oneof(_) =>
      if c.selected.Some? { ok := EncodeTagged(s, f, c.selected.value); } else { ok := true; }
  }

  // pb_encode
  method EncodeMsg(s: OStream, d: Desc, m: Msg) returns (ok: bool)
    requires s.Valid() && ValidDesc(d) && TypedMsg(d, m) && FitsMsg(d, m, WORD64)
    modifies s, s.buf
    ensures Wrote(s, ok, EncMsg(d, m))
    decreases d, |d| + 1
  {
    hide EncCell, FitsCell, TypedCell, ValidField, EncFrom, Join, TypedMsg, ValidDesc, FitsMsg, Typed, Writes;
    ghost var done: bytes, out, n := [], s.Output(), s.bytesWritten;
    ok := true;
    WritesNothing(s, out, n);
    MembersNext(d, m, 0, done);
    for i := 0 to |d|
      invariant ok && s.Valid() && Writes(s, out, n, true, Some(done), s.Output(), s.bytesWritten)
      invariant EncMsg(d, m) == Join(Some(done), EncFrom(d, m, i))
    {
      Member(d, m, i);
      ghost var part, out1, n1 := EncCell(d[i], m[i]), s.Output(), s.bytesWritten;
      ok := EncodeCell(s, d[i], m[i]);
      WritesBoth(s, out, n, done, out1, n1, ok, part, s.Output(), s.bytesWritten);
      WritesLess(s, out, n, Join(Some(done), part), EncFrom(d, m, i + 1), s.Output(), s.bytesWritten);
      SucceedsWhole(s, out1, n1, ok, part, s.Output(), s.bytesWritten);
      MembersNext(d, m, i, done);
      if !ok { return; }
      done := done + part.value;
    }
    MembersNext(d, m, |d|, done);
  }

  lemma Member(d: Desc, m: Msg, i: int)
    ensures TypedMsg(d, m) ==> |m| == |d|
    ensures TypedMsg(d, m) && ValidDesc(d) && FitsMsg(d, m, WORD64) && 0 <= i < |d| ==>
      ValidField(d[i]) && TypedCell(d[i], m[i]) && FitsCell(d[i], m[i], WORD64)
  {
    hide TypedCell, ValidField, FitsCell;
  }

  lemma SucceedsWhole(s: OStream, out: bytes, n: nat, ok: bool, enc: Option<bytes>, out': bytes, n': nat)
    ensures Writes(s, out, n, ok, enc, out', n') && ok ==> enc.Some?
  {}

  // Peeling one member off what is left to write.
  lemma MembersNext(d: Desc, m: Msg, i: int, done: bytes)
    ensures Join(Some([]), EncMsgOr(d, m)) == EncMsgOr(d, m)
    ensures TypedMsg(d, m) && i == |d| ==> Join(Some(done), EncFrom(d, m, i)) == Some(done)
    ensures TypedMsg(d, m) && 0 <= i < |d| ==>
      && |m| == |d| && TypedCell(d[i], m[i]) &&
      var part, whole := EncCell(d[i], m[i]), Join(Some(done), EncFrom(d, m, i));
      && whole == Join(Join(Some(done), part), EncFrom(d, m, i + 1))
      && (part.Some? ==> Join(Some(done), part) == Some(done + part.value))
  {
    hide EncCell, TypedCell;
    JoinLaws(EncMsgOr(d, m), None, None);
    JoinLaws(Some(done), None, None);
    if TypedMsg(d, m) && 0 <= i < |d| { JoinLaws(Some(done), EncCell(d[i], m[i]), EncFrom(d, m, i + 1)); }
  }

  ghost function EncMsgOr(d: Desc, m: Msg): Option<bytes> {
    if TypedMsg(d, m) then EncMsg(d, m) else None
  }

  // pb_get_encoded_size
  method GetEncodedSize(d: Desc, m: Msg) returns (size: Option<nat>)
    requires ValidDesc(d) && TypedMsg(d, m) && FitsMsg(d, m, WORD64)
    ensures size == if EncMsg(d, m).Some? then Some(|EncMsg(d, m).value|) else None
  {
    var s := new OStream.Sizing();
    var ok := EncodeMsg(s, d, m);
    size := if ok then Some(s.bytesWritten) else None;
  }
}
