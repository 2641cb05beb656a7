/** The decoder as pb_decode.c runs it: streams that advance in place, substreams that
    share their parent's buffer, the field iterator and the two words of fields_seen.
    Every method is proved to do what PbDecode says, and to leave its stream exactly
    behind what it decoded. */
module PbDecoder {
  import opened Bytes
  import opened Words
  import opened PbTypes
  import opened PbVarint
  import opened PbEncode
  import opened PbDecode
  import opened PbIter
  import opened PbRequired

  // pb_istream_t over a buffer
  class IStream {
    const buf: bytes
    var state: nat
    var bytesLeft: nat

    ghost predicate Valid()
      reads this
    {
      End() <= |buf|
    }

    ghost function End(): nat
      reads this
    {
      state + bytesLeft
    }

    ghost function Rest(): bytes
      requires Valid()
      reads this
    {
      buf[state..End()]
    }

    // pb_istream_from_buffer
    constructor FromBuffer(buf: bytes)
      ensures Valid() && this.buf == buf && Rest() == buf && state == 0
    {
      this.buf, state, bytesLeft := buf, 0, |buf|;
    }

    // The substream of pb_make_string_substream, which starts where its parent is.
    constructor Within(parent: IStream, size: nat)
      requires parent.Valid() && size <= parent.bytesLeft
      ensures Valid() && buf == parent.buf && state == parent.state && bytesLeft == size
      ensures Rest() == parent.Rest()[..size]
    {
      buf, state, bytesLeft := parent.buf, parent.state, size;
    }

    // pb_readbyte
    method ReadByte() returns (ok: bool, octet: u8)
      requires Valid()
      modifies this
      ensures Took(this, ok, if old(Rest()) == [] then None else Some(old(Rest())[1..]))
      ensures ok ==> octet == old(Rest())[0]
      ensures !ok ==> bytesLeft == 0
    {
      if bytesLeft == 0 { return false, 0; }
      ok, octet := true, buf[state];
      state := state + 1;
      bytesLeft := bytesLeft - 1;
    }

    // pb_read and buf_read
    method Read(count: nat) returns (ok: bool, data: bytes)
      requires Valid()
      modifies this
      ensures Took(this, ok, if |old(Rest())| < count then None else Some(old(Rest())[count..]))
      ensures ok ==> data == old(Rest())[..count]
    {
      if bytesLeft < count { return false, []; }
      ok, data := true, buf[state..state + count];
      state := state + count;
      bytesLeft := bytesLeft - count;
    }
  }

  // A call on |s| that succeeds exactly when |rest| is something, and then leaves that to
  // be read, with the end of the stream where it was.
  twostate predicate Took(s: IStream, ok: bool, new rest: Option<bytes>)
    requires old(s.Valid())
    reads s
  {
    && s.Valid()
    && s.bytesLeft <= old(s.bytesLeft) && s.End() <= old(s.End())
    && (ok <==> rest.Some?)
    && (ok ==> s.End() == old(s.End()) && s.Rest() == rest.value)
  }

  function After<T>(r: Option<Read<T>>): Option<bytes> {
    if r.None? then None else Some(r.value.rest)
  }

  // One turn of the loop of pb_decode_varint32_eof.
  lemma RestTurn(b: bytes, pos: nat, acc: nat)
    ensures b == [] ==> DecVarint32Rest(b, pos, acc) == None
    ensures b != [] ==>
      var low, sign := b[0] % 0x80, if pos < 63 then 0xff else 0x01;
      var acc', pos' := if pos >= 32 then acc else Or(acc, low * Pow2(pos) % WORD32), (pos + 7) % 0x100;
      DecVarint32Rest(b, pos, acc) ==
      if pos >= 32 && low != 0 && (acc < 0x8000_0000 || b[0] != sign) then None
      else if b[0] >= 0x80 then DecVarint32Rest(b[1..], pos', acc')
      else if pos' == 35 && b[0] >= 0x10 then None
      else Some(PbVarint.Read(acc', b[1..]))
  {
    hide Or, Pow2;
  }

  // pb_decode_varint32_eof
  method DecodeVarint32Eof(s: IStream) returns (ok: bool, value: nat, eof: bool)
    requires s.Valid()
    modifies s
    ensures Took(s, ok, After(DecVarint32(old(s.Rest()))))
    ensures ok ==> value == DecVarint32(old(s.Rest())).value.value
    ensures eof <==> old(s.Rest()) == []
  {
    hide Or, Pow2, DecVarint32Rest;
    value, eof := 0, false;
    var octet: u8;
    ok, octet := s.ReadByte();
    if !ok {
      eof := s.bytesLeft == 0;
      return;
    }
    if octet < 0x80 {
      value := octet;
      return;
    }
    var bitpos: nat := 7;
    var result: nat := octet % 0x80;
    var more := true;
    ghost var spec := DecVarint32(old(s.Rest()));
    while more
      invariant s.Valid() && s.End() == old(s.End()) && s.bytesLeft < old(s.bytesLeft)
      invariant more == (octet >= 0x80)
      invariant spec ==
        if more then DecVarint32Rest(s.Rest(), bitpos, result)
        else if bitpos == 35 && octet >= 0x10 then None
        else Some(PbVarint.Read(result, s.Rest()))
      decreases more, s.bytesLeft
    {
      RestTurn(s.Rest(), bitpos, result);
      ok, octet := s.ReadByte();
      if !ok { return; }
      var low: nat := octet % 0x80;
      if bitpos >= 32 {
        var signExtension := if bitpos < 63 then 0xff else 0x01;
        if low != 0 && (result < 0x8000_0000 || octet != signExtension) { return false, 0, false; }
      } else {
        result := Or(result, low * Pow2(bitpos) % WORD32);
      }
      bitpos := (bitpos + 7) % 0x100;
      more := octet >= 0x80;
    }
    if bitpos == 35 && octet >= 0x10 { return false, 0, false; }
    value := result;
  }

  // pb_decode_varint32
  method DecodeVarint32(s: IStream) returns (ok: bool, value: nat)
    requires s.Valid()
    modifies s
    ensures Took(s, ok, After(DecVarint32(old(s.Rest()))))
    ensures ok ==> value == DecVarint32(old(s.Rest())).value.value
  {
    hide DecVarint32;
    var eof;
    ok, value, eof := DecodeVarint32Eof(s);
  }

  // pb_decode_varint
  method DecodeVarint(s: IStream) returns (ok: bool, value: nat)
    requires s.Valid()
    modifies s
    ensures Took(s, ok, After(DecVarint64(old(s.Rest()), 0, 0)))
    ensures ok ==> value == DecVarint64(old(s.Rest()), 0, 0).value.value < WORD64
  {
    hide Or, Pow2;
    var bitpos := 0;
    var more := true;
    ghost var spec := DecVarint64(s.Rest(), 0, 0);
    value := 0;
    while more
      invariant s.Valid() && s.End() == old(s.End()) && s.bytesLeft <= old(s.bytesLeft) && value < WORD64
      invariant spec == if more then DecVarint64(s.Rest(), bitpos, value) else Some(PbVarint.Read(value, s.Rest()))
      decreases more, s.bytesLeft
    {
      if bitpos >= 64 { return false, 0; }
      var octet: u8;
      ok, octet := s.ReadByte();
      if !ok { return; }
      Pow2Of64();
      OrBound(value, octet % 0x80 * Pow2(bitpos) % WORD64, 64);
      value := Or(value, octet % 0x80 * Pow2(bitpos) % WORD64);
      bitpos := bitpos + 7;
      more := octet >= 0x80;
    }
    ok := true;
  }

  // pb_skip_varint
  method SkipVarint(s: IStream) returns (ok: bool)
    requires s.Valid()
    modifies s
    ensures Took(s, ok, PbDecode.SkipVarint(old(s.Rest())))
  {
    ghost var spec := PbDecode.SkipVarint(s.Rest());
    var more := true;
    while more
      invariant s.Valid() && s.End() == old(s.End()) && s.bytesLeft <= old(s.bytesLeft)
      invariant spec == if more then PbDecode.SkipVarint(s.Rest()) else Some(s.Rest())
      decreases more, s.bytesLeft
    {
      var data: bytes;
      ok, data := s.Read(1);
      if !ok { return; }
      more := data[0] >= 0x80;
    }
    ok := true;
  }

  // pb_skip_field and pb_skip_string
  method SkipField(s: IStream, wireType: nat) returns (ok: bool)
    requires s.Valid()
    modifies s
    ensures Took(s, ok, Skip(wireType, old(s.Rest())))
  {
    hide DecVarint32, PbDecode.SkipVarint;
    var skipped;
    if wireType == WT_VARINT {
      ok := SkipVarint(s);
    } else if wireType == WT_64BIT {
      ok, skipped := s.Read(8);
    } else if wireType == WT_STRING {
      var length;
      ok, length := DecodeVarint32(s);
      if !ok { return; }
      ok, skipped := s.Read(length);
    } else if wireType == WT_32BIT {
      ok, skipped := s.Read(4);
    } else {
      ok := false;
    }
  }

  // pb_decode_tag
  method DecodeTag(s: IStream) returns (ok: bool, wireType: nat, tag: nat, eof: bool)
    requires s.Valid()
    modifies s
    ensures s.Valid() && s.bytesLeft <= old(s.bytesLeft) && s.End() <= old(s.End())
    ensures ok <==> ReadTag(old(s.Rest())).Tag?
    ensures ok ==> ReadTag(old(s.Rest())) == Tag(wireType, tag, s.Rest()) && s.End() == old(s.End())
    ensures !ok && old(s.Rest()) != [] ==> (eof <==> ReadTag(old(s.Rest())).EndMark?)
    ensures !ok && eof && old(s.Rest()) != [] ==> s.End() == old(s.End())
  {
    hide DecVarint32;
    var temp;
    wireType, tag := 0, 0;
    ok, temp, eof := DecodeVarint32Eof(s);
    if !ok { return; }
    if temp == 0 { return false, 0, 0, true; }
    tag := temp / 8;
    wireType := temp % 8;
  }

  // pb_make_string_substream: until it is closed the parent has the substream's octets
  // deducted, but still stands in front of them.
  method MakeSubstream(s: IStream) returns (ok: bool, sub: IStream?)
    requires s.Valid()
    modifies s
    ensures s.Valid() && s.bytesLeft <= old(s.bytesLeft) && s.End() <= old(s.End())
    ensures ok <==> Substream(old(s.Rest())).Some?
    ensures ok ==>
      && sub != null && fresh(sub) && sub.Valid() && sub.buf == s.buf && sub.state == s.state
      && sub.End() + s.bytesLeft == old(s.End())
      && sub.Rest() == Substream(old(s.Rest())).value.value
      && s.buf[sub.End()..old(s.End())] == Substream(old(s.Rest())).value.rest
  {
    hide DecVarint32;
    var size;
    sub := null;
    ok, size := DecodeVarint32(s);
    if !ok { return; }
    if s.bytesLeft < size { return false, null; }
    sub := new IStream.Within(s, size);
    s.bytesLeft := s.bytesLeft - size;
  }

  // pb_close_string_substream: the parent goes on behind the whole substream, however
  // much of it was read.
  method CloseSubstream(s: IStream, sub: IStream) returns (ok: bool)
    requires sub.Valid() && s != sub && s.buf == sub.buf && sub.End() + s.bytesLeft <= |s.buf|
    modifies s, sub
    ensures ok && s.Valid() && s.state == old(sub.End()) && s.bytesLeft == old(s.bytesLeft)
  {
    if sub.bytesLeft != 0 {
      var skipped;
      ok, skipped := sub.Read(sub.bytesLeft);
      if !ok { return; }
    }
    s.state := sub.state;
    ok := true;
  }

  // pb_dec_varint .. pb_dec_fixed64
  method DecodeNumber(s: IStream, t: LType, size: nat) returns (ok: bool, v: int)
    requires s.Valid() && t.Packable()
    modifies s
    ensures Took(s, ok, After(DecNumber(t, size, old(s.Rest()))))
    ensures ok ==> v == DecNumber(t, size, old(s.Rest())).value.value
  {
    hide DecVarint64, FromLittleEndian, Narrow, NumberSize;
    v := 0;
    if t.Fixed32? || t.Fixed64? {
      var data;
      ok, data := s.Read(if t.Fixed32? then 4 else 8);
      if ok { v := FromLittleEndian(data); }
    } else {
      var u;
      ok, u := DecodeVarint(s);
      if !ok { return; }
      if !NumberSize(size) { return false, 0; }
      var narrowed := Narrow(t, size, u);
      if narrowed.None? { return false, 0; }
      v := narrowed.value;
    }
  }

  // pb_field_set_to_default
  method FieldDefault(f: Field) returns (c: Cell)
    ensures c == DefaultCell(f)
    decreases f, 1
  {
    if f.htype.Repeated? { return Many([]); }
    if f.htype.Oneof? { return Choice(None); }
    var x: Item;
    if f.ltype.SubMessage? {
      var m := MessageDefaults(f.sub);
      x := Sub(m);
    } else {
      x := DefaultItem(f);
    }
    c := if f.htype.Optional? then Opt(false, x) else One(x);
  }

  // pb_message_set_to_defaults
  method MessageDefaults(d: Desc) returns (m: Msg)
    ensures m == Defaults(d)
    decreases d, 0
  {
    m := [];
    if d == [] { return; }
    LayoutIsTheOne(d, Layout(d).0, Layout(d).1);
    var iter := new FieldIter(d, Layout(d).0, Layout(d).1);
    hide Generated, Layout;
    while true
      invariant fresh(iter) && iter.Valid() && iter.fields == d
      invariant m == Defaults(d)[..iter.pos]
      decreases |d| - iter.pos
    {
      var c := FieldDefault(d[iter.pos]);
      m := m + [c];
      var more := iter.Next();
      if !more { break; }
    }
  }

  // pb_dec_submessage, pb_dec_bytes, pb_dec_string, pb_dec_fixed_length_bytes and the
  // number decoders. |was| is what the member holds; an array's new entry is not
  // initialised before.
  method DecodeItem(s: IStream, f: Field, was: Item) returns (ok: bool, x: Item)
    requires s.Valid() && ValidField(f) && Typed(f, was)
    requires f.htype.Repeated? ==> was == DefaultItem(f)
    modifies s
    ensures Took(s, ok, After(DecItem(f, old(s.Rest()), was)))
    ensures ok ==> x == DecItem(f, old(s.Rest()), was).value.value
    decreases f, 1
  {
    hide DecNumber, DecVarint32, DecMsg, Substream, DefaultItem;
    x := Num(0);
    if f.ltype.Packable() {
      var v;
      ok, v := DecodeNumber(s, f.ltype, f.dataSize);
      x := Num(v);
    } else if f.ltype.SubMessage? {
      ok, x := DecodeSubmessage(s, f, was);
    } else {
      var size, data;
      ok, size := DecodeVarint32(s);
      if !ok { return; }
      if f.ltype.FixedBytes? && size == 0 { return true, Data(Zeros(f.dataSize)); }
      if f.ltype.FixedBytes? && size != f.dataSize { return false, x; }
      if f.ltype.BytesArray? && BYTES_HEADER + size > f.dataSize { return false, x; }
      if f.ltype.Str? && size + 1 > f.dataSize { return false, x; }
      ok, data := s.Read(size);
      if ok { x := if f.ltype.Str? then Text(UpToNul(data)) else Data(data); }
    }
  }

  // pb_dec_submessage
  method DecodeSubmessage(s: IStream, f: Field, was: Item) returns (ok: bool, x: Item)
    requires s.Valid() && ValidField(f) && f.ltype.SubMessage? && Typed(f, was)
    requires f.htype.Repeated? ==> was == DefaultItem(f)
    modifies s
    ensures Took(s, ok, After(DecItem(f, old(s.Rest()), was)))
    ensures ok ==> x == DecItem(f, old(s.Rest()), was).value.value
    decreases f, 0
  {
    hide DecMsg, Substream, TypedMsg, ValidDesc, Defaults;
    x := was;
    var sub;
    ok, sub := MakeSubstream(s);
    if !ok { return; }
    var status, m;
    if f.htype.Repeated? {
      status, m := DecodeMessage(sub, f.sub);
    } else {
      status, m := DecodeNoinit(sub, f.sub, was.msg);
    }
    ok := CloseSubstream(s, sub);
    ok := status;
    x := Sub(m);
  }

  // The packed branch of decode_static_field.
  method DecodePacked(s: IStream, f: Field, items: seq<Item>) returns (ok: bool, xs: seq<Item>)
    requires s.Valid() && ValidField(f) && f.ltype.Packable() && AllTyped(f, items)
    modifies s
    ensures s.Valid() && s.bytesLeft <= old(s.bytesLeft) && s.End() <= old(s.End())
    ensures ok <==> Substream(old(s.Rest())).Some? && DecPacked(f, Substream(old(s.Rest())).value.value, items).Some?
    ensures ok ==> s.End() == old(s.End())
    ensures ok ==> s.Rest() == Substream(old(s.Rest())).value.rest
    ensures ok ==> Some(xs) == DecPacked(f, Substream(old(s.Rest())).value.value, items)
  {
    hide DecNumber, Substream, Typed, ValidField;
    xs := items;
    var sub;
    ok, sub := MakeSubstream(s);
    if !ok { return; }
    ghost var body, left := sub.Rest(), s.bytesLeft;
    var status := true;
    while sub.bytesLeft > 0 && |xs| < f.arraySize
      invariant fresh(sub) && sub.Valid() && status && sub.End() + left == old(s.End())
      invariant s.Valid() && s.bytesLeft == left && s.End() <= old(s.End()) && sub.buf == s.buf && AllTyped(f, xs)
      invariant DecPacked(f, sub.Rest(), xs) == DecPacked(f, body, items)
      decreases sub.bytesLeft
    {
      var v;
      NumberTypedIf(f, sub.Rest());
      status, v := DecodeNumber(sub, f.ltype, f.dataSize);
      if !status { break; }
      xs := xs + [Num(v)];
    }
    if sub.bytesLeft != 0 { return false, xs; }
    ok := CloseSubstream(s, sub);
    ok := status;
  }

  lemma NumberTypedIf(f: Field, b: bytes)
    requires ValidField(f) && f.ltype.Packable()
    ensures DecNumber(f.ltype, f.dataSize, b).Some? ==> Typed(f, Num(DecNumber(f.ltype, f.dataSize, b).value.value))
  {
    hide DecNumber, ValidField;
    if DecNumber(f.ltype, f.dataSize, b).Some? { NumberTyped(f, b); }
  }

  // decode_static_field
  method DecodeCell(s: IStream, f: Field, wireType: nat, c: Cell) returns (ok: bool, c': Cell)
    requires s.Valid() && ValidField(f) && TypedCell(f, c)
    modifies s
    ensures Took(s, ok, After(DecCell(f, wireType, old(s.Rest()), c)))
    ensures ok ==> c' == DecCell(f, wireType, old(s.Rest()), c).value.value
    decreases f, 2
  {
    hide DecItem, DecPacked, Substream, Typed, ValidField, DefaultItem;
    c' := c;
    var x;
    if f.htype.Repeated? && wireType == WT_STRING && f.ltype.Packable() {
      var xs;
      ok, xs := DecodePacked(s, f, c.items);
      c' := Many(xs);
      return;
    }
    if f.htype.Repeated? && |c.items| >= f.arraySize { return false, c; }
    if f.htype.Repeated? || f.htype.Oneof? {
      DefaultTyped(f);
      ok, x := DecodeItem(s, f, DefaultItem(f));
      c' := if f.htype.Oneof? then Choice(Some(x)) else Many(c.items + [x]);
    } else {
      ok, x := DecodeItem(s, f, c.item);
      c' := if f.htype.Optional? then Opt(true, x) else One(x);
    }
  }

  // A field the iterator has found: note that it was seen, then decode it.
  method DecodeFound(s: IStream, iter: FieldIter, wireType: nat, m: Msg, words: seq<nat>, ghost seen: set<nat>)
    returns (ok: bool, m': Msg, words': seq<nat>)
    requires s.Valid() && iter.Valid() && iter.fields != [] && |words| == 2
    requires ValidDesc(iter.fields) && TypedMsg(iter.fields, m) && Records(iter.fields, words, seen)
    modifies s
    ensures Took(s, ok, After(DecCell(iter.fields[iter.pos], wireType, old(s.Rest()), m[iter.pos])))
    ensures ok ==>
      var c := DecCell(iter.fields[iter.pos], wireType, old(s.Rest()), m[iter.pos]).value.value;
      TypedMsg(iter.fields, m') && m' == SetCell(iter.fields, m, iter.pos, c)
    ensures |words'| == 2 && Records(iter.fields, words', Mark(iter.fields, iter.pos, seen))
    decreases iter.fields, 0
  {
    hide DecCell, TypedCell, ValidField, Records, SetCell, Generated;
    m', words' := m, words;
    var d, i := iter.fields, iter.pos;
    if d[i].htype.Required? && iter.requiredFieldIndex < MAX_REQUIRED {
      MarkWords(d, words, seen, i);
      var word := iter.requiredFieldIndex / 32;
      words' := words[word := SetBit(words[word], iter.requiredFieldIndex % 32)];
    }
    var c;
    ok, c := DecodeCell(s, d[i], wireType, m[i]);
    if ok { m' := SetCell(d, m, i, c); }
  }

  // One turn of the loop of pb_decode_noinit.
  lemma LoopTurn(d: Desc, b: bytes, m: Msg, seen: set<nat>)
    requires ValidDesc(d) && TypedMsg(d, m)
    ensures b == [] || ReadTag(b).EndMark? ==> DecLoop(d, b, m, seen) == Finish(d, m, seen)
    ensures b != [] && ReadTag(b).BadTag? ==> DecLoop(d, b, m, seen).None?
    ensures b != [] && ReadTag(b).Tag? ==> DecLoop(d, b, m, seen) == FieldTurn(d, ReadTag(b), m, seen)
  {
    hide ReadTag, Finish, Skip, Find, ValidField, ValidDesc, TypedMsg, SetCell, DecCell, Mark, Typed, TypedCell;
  }

  function FieldTurn(d: Desc, t: TagRead, m: Msg, seen: set<nat>): Option<Msg>
    requires ValidDesc(d) && TypedMsg(d, m) && t.Tag?
  {
    if d == [] && t.tag == 0 then None
    else if Find(d, t.tag).None? then
      var rest := Skip(t.wireType, t.rest);
      if rest.None? then None else DecLoop(d, rest.value, m, seen)
    else
      var i := Find(d, t.tag).value;
      var read := DecCell(d[i], t.wireType, t.rest, m[i]);
      if read.None? then None else DecLoop(d, read.value.rest, SetCell(d, m, i, read.value.value), Mark(d, i, seen))
  }

  // A field with its tag read: find the member and decode it, or skip it.
  method DecodeField(s: IStream, iter: FieldIter, wireType: nat, tag: nat, m: Msg, words: seq<nat>, ghost seen: set<nat>)
    returns (ok: bool, m': Msg, words': seq<nat>, ghost seen': set<nat>)
    requires s.Valid() && iter.Valid() && |words| == 2
    requires ValidDesc(iter.fields) && TypedMsg(iter.fields, m) && Records(iter.fields, words, seen)
    modifies s, iter
    ensures s.Valid() && s.bytesLeft <= old(s.bytesLeft) && s.End() <= old(s.End()) && iter.Valid()
    ensures var whole := FieldTurn(iter.fields, Tag(wireType, tag, old(s.Rest())), m, seen);
      if !ok then whole.None?
      else
        && s.End() == old(s.End()) && |words'| == 2 && TypedMsg(iter.fields, m') && Records(iter.fields, words', seen')
        && DecLoop(iter.fields, s.Rest(), m', seen') == whole
    decreases iter.fields, 1
  {
    hide Generated, Layout, DecLoop, DecCell, Find, Skip, ValidField, TypedMsg, ValidDesc, TypedCell, Records, Mark, SetCell;
    hide FieldIter.Valid;
    m', words', seen' := m, words, seen;
    var found := iter.FindTag(tag);
    if !found {
      ok := SkipField(s, wireType);
    } else if iter.fields == [] {
      // The terminator passes for a required number of no size.
      var v;
      ok, v := DecodeNumber(s, LType.Varint, 0);
    } else {
      ok, m', words' := DecodeFound(s, iter, wireType, m, words, seen);
      seen' := Mark(iter.fields, iter.pos, seen);
    }
  }

  // pb_decode_noinit
  method DecodeNoinit(s: IStream, d: Desc, was: Msg) returns (ok: bool, m: Msg)
    requires s.Valid() && ValidDesc(d) && TypedMsg(d, was)
    modifies s
    ensures s.Valid() && s.bytesLeft <= old(s.bytesLeft) && s.End() <= old(s.End())
    ensures ok <==> DecMsg(d, old(s.Rest()), was).Some?
    ensures ok ==> m == DecMsg(d, old(s.Rest()), was).value && s.End() == old(s.End())
    decreases d, 2
  {
    m := was;
    ghost var seen: set<nat> := {};
    var fieldsSeen: seq<nat> := [0, 0];
    hide Generated, Layout, DecLoop, ReadTag, FieldTurn, TypedMsg, ValidDesc, Records, RequiredSeen;
    hide FieldIter.Valid, Finish;
    ZeroWords(d);
    LayoutIsTheOne(d, Layout(d).0, Layout(d).1);
    var iter := new FieldIter(d, Layout(d).0, Layout(d).1);
    while s.bytesLeft != 0
      invariant s.Valid() && s.End() == old(s.End()) && s.bytesLeft <= old(s.bytesLeft)
      invariant fresh(iter) && iter.Valid() && iter.fields == d
      invariant TypedMsg(d, m) && |fieldsSeen| == 2 && Records(d, fieldsSeen, seen)
      invariant DecLoop(d, s.Rest(), m, seen) == DecLoop(d, old(s.Rest()), was, {})
      decreases s.bytesLeft
    {
      LoopTurn(d, s.Rest(), m, seen);
      var wireType, tag, eof;
      ok, wireType, tag, eof := DecodeTag(s);
      if !ok {
        if eof { break; } else { return; }
      }
      ok, m, fieldsSeen, seen := DecodeField(s, iter, wireType, tag, m, fieldsSeen, seen);
      if !ok { return; }
    }
    ok := AllRequiredSeen(iter, fieldsSeen, seen);
  }

  // pb_decode
  method DecodeMessage(s: IStream, d: Desc) returns (ok: bool, m: Msg)
    requires s.Valid() && ValidDesc(d)
    modifies s
    ensures s.Valid() && s.bytesLeft <= old(s.bytesLeft) && s.End() <= old(s.End())
    ensures ok <==> Decode(d, old(s.Rest())).Some?
    ensures ok ==> m == Decode(d, old(s.Rest())).value && s.End() == old(s.End())
    decreases d, 3
  {
    hide DecMsg, Defaults;
    m := MessageDefaults(d);
    DefaultsTyped(d);
    ok, m := DecodeNoinit(s, d, m);
  }
}
