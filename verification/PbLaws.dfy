/** Laws of the decoder on arbitrary input: what follows a field does not change it,
    decoding a concatenation is decoding in two steps, packed and unpacked arrays are the
    same thing, and nothing decoded overruns its member. */
module PbLaws {
  import opened Bytes
  import opened Words
  import opened PbTypes
  import opened PbVarint
  import opened PbEncode
  import opened PbDecode
  import opened PbRoundTrip

  // --- Octets after a field do not matter ---

  lemma {:induction false} Varint32Local(b: bytes, pos: nat, acc: nat, c: bytes)
    requires DecVarint32Rest(b, pos, acc).Some?
    ensures var r := DecVarint32Rest(b, pos, acc).value;
      DecVarint32Rest(b + c, pos, acc) == Some(Read(r.value, r.rest + c))
    decreases |b|
  {
    hide Or, Pow2;
    assert (b + c)[0] == b[0] && (b + c)[1..] == b[1..] + c;
    if b[0] >= 0x80 {
      var acc' := if pos >= 32 then acc else Or(acc, b[0] % 0x80 * Pow2(pos) % WORD32);
      Varint32Local(b[1..], (pos + 7) % 0x100, acc', c);
    }
  }

  lemma LengthLocal(b: bytes, c: bytes)
    requires DecVarint32(b).Some?
    ensures var r := DecVarint32(b).value; DecVarint32(b + c) == Some(Read(r.value, r.rest + c))
  {
    assert (b + c)[0] == b[0] && (b + c)[1..] == b[1..] + c;
    if b[0] >= 0x80 { Varint32Local(b[1..], 7, b[0] % 0x80, c); }
  }

  lemma {:induction false} Varint64Local(b: bytes, pos: nat, acc: nat, c: bytes)
    requires acc < WORD64 && DecVarint64(b, pos, acc).Some?
    ensures var r := DecVarint64(b, pos, acc).value;
      DecVarint64(b + c, pos, acc) == Some(Read(r.value, r.rest + c))
    decreases |b|
  {
    hide Or, Pow2;
    assert (b + c)[0] == b[0] && (b + c)[1..] == b[1..] + c;
    if b[0] >= 0x80 {
      Pow2Of64();
      var acc' := Or(acc, b[0] % 0x80 * Pow2(pos) % WORD64);
      OrBound(acc, b[0] % 0x80 * Pow2(pos) % WORD64, 64);
      Varint64Local(b[1..], pos + 7, acc', c);
    }
  }

  lemma NumberLocal(t: LType, size: nat, b: bytes, c: bytes)
    requires t.Packable() && DecNumber(t, size, b).Some?
    ensures var r := DecNumber(t, size, b).value; DecNumber(t, size, b + c) == Some(Read(r.value, r.rest + c))
  {
    hide DecVarint64, FromLittleEndian, Narrow;
    if t.Fixed32? || t.Fixed64? {
      var n := if t.Fixed32? then 4 else 8;
      assert (b + c)[..n] == b[..n] && (b + c)[n..] == b[n..] + c;
    } else {
      Varint64Local(b, 0, 0, c);
    }
  }

  lemma SubstreamLocal(b: bytes, c: bytes)
    requires Substream(b).Some?
    ensures var r := Substream(b).value; Substream(b + c) == Some(Read(r.value, r.rest + c))
  {
    hide DecVarint32;
    LengthLocal(b, c);
    var r := DecVarint32(b).value;
    assert (r.rest + c)[..r.value] == r.rest[..r.value];
    assert (r.rest + c)[r.value..] == r.rest[r.value..] + c;
  }

  lemma {:induction false} SkipVarintLocal(b: bytes, c: bytes)
    requires SkipVarint(b).Some?
    ensures SkipVarint(b + c) == Some(SkipVarint(b).value + c)
  {
    assert (b + c)[0] == b[0] && (b + c)[1..] == b[1..] + c;
    if b[0] >= 0x80 { SkipVarintLocal(b[1..], c); }
  }

  lemma SkipLocal(wireType: nat, b: bytes, c: bytes)
    requires Skip(wireType, b).Some?
    ensures Skip(wireType, b + c) == Some(Skip(wireType, b).value + c)
  {
    hide Substream, SkipVarint;
    if wireType == WT_VARINT {
      SkipVarintLocal(b, c);
    } else if wireType == WT_STRING {
      SubstreamLocal(b, c);
    } else {
      var n := if wireType == WT_64BIT then 8 else 4;
      assert (b + c)[n..] == b[n..] + c;
    }
  }

  lemma ItemLocal(f: Field, b: bytes, was: Item, c: bytes)
    requires ValidField(f) && Typed(f, was) && DecItem(f, b, was).Some?
    ensures var r := DecItem(f, b, was).value; DecItem(f, b + c, was) == Some(Read(r.value, r.rest + c))
  {
    hide DecVarint32, DecNumber, DecMsg, Substream, UpToNul;
    if f.ltype.Packable() {
      NumberLocal(f.ltype, f.dataSize, b, c);
    } else if f.ltype.SubMessage? {
      SubstreamLocal(b, c);
    } else {
      LengthLocal(b, c);
      var r := DecVarint32(b).value;
      if r.value <= |r.rest| {
        assert (r.rest + c)[..r.value] == r.rest[..r.value];
        assert (r.rest + c)[r.value..] == r.rest[r.value..] + c;
      }
    }
  }

  lemma CellLocal(f: Field, wireType: nat, b: bytes, m: Cell, c: bytes)
    requires ValidField(f) && TypedCell(f, m) && DecCell(f, wireType, b, m).Some?
    ensures var r := DecCell(f, wireType, b, m).value;
      DecCell(f, wireType, b + c, m) == Some(Read(r.value, r.rest + c))
  {
    hide DecItem, DecPacked, Substream, Typed, ValidField;
    if f.htype.Repeated? {
      if wireType == WT_STRING && f.ltype.Packable() {
        SubstreamLocal(b, c);
      } else {
        DefaultTyped(f);
        ItemLocal(f, b, DefaultItem(f), c);
      }
    } else if f.htype.Oneof? {
      DefaultTyped(f);
      ItemLocal(f, b, DefaultItem(f), c);
    } else {
      ItemLocal(f, b, m.item, c);
    }
  }

  lemma TagLocal(b: bytes, c: bytes)
    requires !ReadTag(b).BadTag?
    ensures ReadTag(b).EndMark? ==> ReadTag(b + c).EndMark?
    ensures ReadTag(b).Tag? ==> ReadTag(b + c) == ReadTag(b).(rest := ReadTag(b).rest + c)
  {
    hide DecVarint32;
    LengthLocal(b, c);
  }

  // --- Decoding a concatenation ---

  // The loop stops at a zero tag and leaves the rest of |b| unread.
  predicate StopsAtZeroTag(d: Desc, b: bytes, m: Msg)
    requires ValidDesc(d) && TypedMsg(d, m)
    decreases |b|
  {
    b != [] &&
    match ReadTag(b)
    case BadTag => false
    case EndMark => true
    case Tag(wireType, tag, rest) =>
      !(d == [] && tag == 0) &&
      match Find(d, tag)
      case None =>
        var rest' := Skip(wireType, rest);
        rest'.Some? && StopsAtZeroTag(d, rest'.value, m)
      case Some(i) =>
        var read := DecCell(d[i], wireType, rest, m[i]);
        read.Some? && StopsAtZeroTag(d, read.value.rest, SetCell(d, m, i, read.value.value))
  }

  lemma {:induction false} LoopConcat(d: Desc, a: bytes, b: bytes, m: Msg, seen: set<nat>) returns (seen': set<nat>)
    requires ValidDesc(d) && TypedMsg(d, m) && DecLoop(d, a, m, seen).Some?
    ensures RequiredSeen(d, seen')
    ensures DecLoop(d, a + b, m, seen) ==
            if StopsAtZeroTag(d, a, m) then DecLoop(d, a, m, seen)
            else DecLoop(d, b, DecLoop(d, a, m, seen).value, seen')
    decreases |a|
  {
    hide ReadTag, DecCell, Skip, Find, SetCell, RequiredSeen, ValidDesc, TypedMsg;
    seen' := seen;
    if a == [] {
      assert a + b == b;
    } else {
      TagLocal(a, b);
      var t := ReadTag(a);
      if t.Tag? {
        match Find(d, t.tag)
        case None =>
          SkipLocal(t.wireType, t.rest, b);
          seen' := LoopConcat(d, Skip(t.wireType, t.rest).value, b, m, seen);
        case Some(i) =>
          MemberTyped(d, m, i);
          CellLocal(d[i], t.wireType, t.rest, m[i], b);
          var read := DecCell(d[i], t.wireType, t.rest, m[i]).value;
          seen' := LoopConcat(d, read.rest, b, SetCell(d, m, i, read.value), Mark(d, i, seen));
      }
    }
  }

  lemma MemberTyped(d: Desc, m: Msg, i: nat)
    requires ValidDesc(d) && TypedMsg(d, m) && i < |d|
    ensures ValidField(d[i]) && |m| == |d| && TypedCell(d[i], m[i])
    ensures d[i].htype.Repeated? ==> m[i].Many? && AllTyped(d[i], m[i].items)
  {}

  // Having seen more required fields never changes a successful result.
  lemma {:induction false} SeenMore(d: Desc, b: bytes, m: Msg, seen: set<nat>, more: set<nat>)
    requires ValidDesc(d) && TypedMsg(d, m) && seen <= more && DecLoop(d, b, m, seen).Some?
    ensures DecLoop(d, b, m, more) == DecLoop(d, b, m, seen)
    decreases |b|
  {
    hide ReadTag, DecCell, Skip, Find, SetCell, ValidDesc, TypedMsg;
    if b != [] && ReadTag(b).Tag? {
      var t := ReadTag(b);
      match Find(d, t.tag)
      case None => SeenMore(d, Skip(t.wireType, t.rest).value, m, seen, more);
      case Some(i) =>
        MemberTyped(d, m, i);
        var read := DecCell(d[i], t.wireType, t.rest, m[i]).value;
        SeenMore(d, read.rest, SetCell(d, m, i, read.value), Mark(d, i, seen), Mark(d, i, more));
    }
  }

  // Main result: decoding a ++ b into a struct is decoding a and then b into it, unless
  // a stops at a zero tag; then b is not looked at.
  lemma MergeLaw(d: Desc, a: bytes, b: bytes, m: Msg)
    requires ValidDesc(d) && TypedMsg(d, m)
    requires DecMsg(d, a, m).Some? && DecMsg(d, b, DecMsg(d, a, m).value).Some?
    ensures DecMsg(d, a + b, m) ==
            if StopsAtZeroTag(d, a, m) then DecMsg(d, a, m) else DecMsg(d, b, DecMsg(d, a, m).value)
  {
    hide DecLoop, StopsAtZeroTag;
    var seen := LoopConcat(d, a, b, m, {});
    SeenMore(d, b, DecMsg(d, a, m).value, {}, seen);
  }

  // A message with one optional number.
  const NUMBER_DESC: Desc := [Field(1, UVarint, Optional, 0, 0, 4, 0, [], None)]

  function NumberMsg(has: bool, v: nat): Msg {
    [Opt(has, Num(v))]
  }

  lemma NumberMsgTyped(has: bool, v: nat)
    requires v < WORD32
    ensures ValidDesc(NUMBER_DESC) && TypedMsg(NUMBER_DESC, NumberMsg(has, v))
    ensures EncMsg(NUMBER_DESC, NumberMsg(has, v)).Some? && FitsMsg(NUMBER_DESC, NumberMsg(has, v), WORD32)
    ensures TerminatedMsg(NUMBER_DESC, NumberMsg(has, v))
    ensures has ==> NormMsg(NUMBER_DESC, NumberMsg(has, v)) == NumberMsg(has, v)
    ensures Defaults(NUMBER_DESC) == NumberMsg(false, 0)
  {
    var d, m := NUMBER_DESC, NumberMsg(has, v);
    hide EncTag, EncNumber;
    assert ValidField(d[0]) && TypedCell(d[0], m[0]);
    assert EncCell(d[0], m[0]).Some?;
    assert EncFrom(d, m, 1) == Some([]);
  }

  // A single zero octet decodes, as a message that says nothing; put in front of the
  // encoding of the number seven it hides it.
  lemma ZeroTagHides()
    ensures var d, none, seven := NUMBER_DESC, NumberMsg(false, 0), NumberMsg(true, 7);
      && ValidDesc(d) && TypedMsg(d, none) && TypedMsg(d, seven) && EncMsg(d, seven).Some?
      && var b := EncMsg(d, seven).value;
         DecMsg(d, b, none) == Some(seven) && DecMsg(d, [0], none) == Some(none) && DecMsg(d, [0] + b, none) == Some(none)
  {
    hide DecMsg, EncMsg, ValidDesc, TypedMsg, FitsMsg, TerminatedMsg, NormMsg, Defaults;
    NumberMsgTyped(false, 0);
    NumberMsgTyped(true, 7);
    MessageRoundTrip(NUMBER_DESC, NumberMsg(true, 7));
    ZeroTagStops(NUMBER_DESC, NumberMsg(false, 0));
    MergeLaw(NUMBER_DESC, [0], EncMsg(NUMBER_DESC, NumberMsg(true, 7)).value, NumberMsg(false, 0));
  }

  lemma ZeroTagStops(d: Desc, m: Msg)
    requires ValidDesc(d) && TypedMsg(d, m)
    ensures StopsAtZeroTag(d, [0], m) && DecMsg(d, [0], m) == Finish(d, m, {})
  {}

  // --- Packed and unpacked arrays ---

  // |e| is exactly one encoded number of |f|'s type.
  predicate OneNumber(f: Field, e: bytes)
    requires f.ltype.Packable()
  {
    DecNumber(f.ltype, f.dataSize, e).Some? && DecNumber(f.ltype, f.dataSize, e).value.rest == []
  }

  function NumberOf(f: Field, e: bytes): Item
    requires f.ltype.Packable() && OneNumber(f, e)
  {
    Num(DecNumber(f.ltype, f.dataSize, e).value.value)
  }

  predicate AllNumbers(f: Field, es: seq<bytes>)
    requires f.ltype.Packable()
  {
    forall k | 0 <= k < |es| :: OneNumber(f, es[k])
  }

  function NumbersOf(f: Field, es: seq<bytes>): (xs: seq<Item>)
    requires f.ltype.Packable() && AllNumbers(f, es)
    ensures |xs| == |es|
  {
    if es == [] then [] else [NumberOf(f, es[0])] + NumbersOf(f, es[1..])
  }

  function Concat(es: seq<bytes>): bytes {
    if es == [] then [] else es[0] + Concat(es[1..])
  }

  // The same numbers as separate entries.
  function Entries(f: Field, es: seq<bytes>): bytes {
    if es == [] then [] else EncTag(WireType(f.ltype), f.tag) + es[0] + Entries(f, es[1..])
  }

  // And as one packed chunk.
  function Chunk(f: Field, es: seq<bytes>): bytes {
    EncTag(WT_STRING, f.tag) + EncString(Concat(es))
  }

  lemma {:induction false} NumbersTyped(f: Field, es: seq<bytes>)
    requires ValidField(f) && f.ltype.Packable() && AllNumbers(f, es)
    ensures AllTyped(f, NumbersOf(f, es))
  {
    if es != [] {
      NumberTyped(f, es[0]);
      NumbersTyped(f, es[1..]);
    }
  }

  lemma {:induction false} PackedLoop(f: Field, es: seq<bytes>, xs: seq<Item>)
    requires ValidField(f) && f.ltype.Packable() && AllNumbers(f, es) && AllTyped(f, xs) && |xs| <= f.arraySize
    ensures DecPacked(f, Concat(es), xs) ==
            if |xs| + |es| <= f.arraySize then Some(xs + NumbersOf(f, es)) else None
    decreases |es|
  {
    hide DecNumber;
    if es == [] {
      assert xs + [] == xs;
    } else {
      assert OneNumber(f, es[0]);
      NumberLocal(f.ltype, f.dataSize, es[0], Concat(es[1..]));
      assert [] + Concat(es[1..]) == Concat(es[1..]);
      if |xs| < f.arraySize {
        NumberTyped(f, es[0]);
        PackedLoop(f, es[1..], xs + [NumberOf(f, es[0])]);
        assert xs + [NumberOf(f, es[0])] + NumbersOf(f, es[1..]) == xs + NumbersOf(f, es);
      }
    }
  }

  predicate RoomLeft(d: Desc, m: Msg, i: nat, n: nat)
    requires i < |d| && |m| == |d|
  {
    m[i].Many? && |m[i].items| + n <= d[i].arraySize
  }

  // What any of these encodings does to array member |i|.
  function Appended(d: Desc, i: nat, es: seq<bytes>, rest: bytes, m: Msg, seen: set<nat>): Option<Msg>
    requires ValidDesc(d) && TypedMsg(d, m) && i < |d| && d[i].htype.Repeated? && d[i].ltype.Packable()
    requires AllNumbers(d[i], es)
  {
    if !RoomLeft(d, m, i, |es|) then None
    else
      MemberTyped(d, m, i);
      NumbersTyped(d[i], es);
      var xs := m[i].items + NumbersOf(d[i], es);
      assert AllTyped(d[i], xs);
      DecLoop(d, rest, SetCell(d, m, i, Many(xs)), seen)
  }

  lemma ChunkAppends(d: Desc, i: nat, es: seq<bytes>, rest: bytes, m: Msg, seen: set<nat>)
    requires ValidDesc(d) && TypedMsg(d, m) && i < |d| && d[i].htype.Repeated? && d[i].ltype.Packable()
    requires AllNumbers(d[i], es) && |Concat(es)| < WORD32 && RoomLeft(d, m, i, 0)
    ensures DecLoop(d, Chunk(d[i], es) + rest, m, seen) == Appended(d, i, es, rest, m, seen)
  {
    hide ReadTag, EncTag, EncString, Substream, DecPacked, Find, SetCell, AllNumbers;
    var f := d[i];
    MemberTyped(d, m, i);
    NumbersTyped(f, es);
    assert Chunk(f, es) + rest == EncTag(WT_STRING, f.tag) + (EncString(Concat(es)) + rest);
    TagReadBack(WT_STRING, f.tag, EncString(Concat(es)) + rest);
    FindsField(d, i);
    StringRead(Concat(es), rest);
    PackedLoop(f, es, m[i].items);
  }

  lemma EntryStep(d: Desc, i: nat, e: bytes, more: bytes, m: Msg, seen: set<nat>)
    requires ValidDesc(d) && TypedMsg(d, m) && i < |d| && d[i].htype.Repeated? && d[i].ltype.Packable()
    requires OneNumber(d[i], e) && m[i].Many?
    ensures RoomLeft(d, m, i, 1) ==> TypedCell(d[i], Many(m[i].items + [NumberOf(d[i], e)]))
    ensures DecLoop(d, EncTag(WireType(d[i].ltype), d[i].tag) + e + more, m, seen) ==
            if RoomLeft(d, m, i, 1) then DecLoop(d, more, SetCell(d, m, i, Many(m[i].items + [NumberOf(d[i], e)])), seen)
            else None
  {
    hide ReadTag, EncTag, DecNumber, Find, ValidDesc;
    var f := d[i];
    MemberTyped(d, m, i);
    var b := EncTag(WireType(f.ltype), f.tag) + e + more;
    assert b == EncTag(WireType(f.ltype), f.tag) + (e + more);
    TagReadBack(WireType(f.ltype), f.tag, e + more);
    FindsField(d, i);
    NumberLocal(f.ltype, f.dataSize, e, more);
    assert [] + more == more;
    NumberTyped(f, e);
    DefaultTyped(f);
    assert DecItem(f, e + more, DefaultItem(f)) == Some(Read(NumberOf(f, e), more));
    assert ReadTag(b) == Tag(WireType(f.ltype), f.tag, e + more);
  }

  lemma {:induction false} EntriesAppend(d: Desc, i: nat, es: seq<bytes>, rest: bytes, m: Msg, seen: set<nat>)
    requires ValidDesc(d) && TypedMsg(d, m) && i < |d| && d[i].htype.Repeated? && d[i].ltype.Packable()
    requires AllNumbers(d[i], es) && RoomLeft(d, m, i, 0)
    ensures DecLoop(d, Entries(d[i], es) + rest, m, seen) == Appended(d, i, es, rest, m, seen)
    decreases |es|
  {
    hide DecLoop, EncTag, DecNumber, ValidDesc;
    var f := d[i];
    MemberTyped(d, m, i);
    if es == [] {
      assert Entries(f, es) + rest == rest;
      assert m[i].items + NumbersOf(f, es) == m[i].items;
      assert SetCell(d, m, i, m[i]) == m;
    } else {
      var more := Entries(f, es[1..]) + rest;
      assert Entries(f, es) + rest == EncTag(WireType(f.ltype), f.tag) + es[0] + more;
      assert OneNumber(f, es[0]);
      EntryStep(d, i, es[0], more, m, seen);
      if RoomLeft(d, m, i, 1) {
        var xs := m[i].items + [NumberOf(f, es[0])];
        var m' := SetCell(d, m, i, Many(xs));
        EntriesAppend(d, i, es[1..], rest, m', seen);
        if RoomLeft(d, m, i, |es|) {
          var ys := m[i].items + NumbersOf(f, es);
          assert xs + NumbersOf(f, es[1..]) == ys;
          NumbersTyped(f, es);
          assert AllTyped(f, ys);
          assert SetCell(d, m', i, Many(ys)) == SetCell(d, m, i, Many(ys));
        }
      }
    }
  }

  // Any number of packed chunks, one after another.
  function Chunks(f: Field, ess: seq<seq<bytes>>): bytes {
    if ess == [] then [] else Chunk(f, ess[0]) + Chunks(f, ess[1..])
  }

  function Flat(ess: seq<seq<bytes>>): seq<bytes> {
    if ess == [] then [] else ess[0] + Flat(ess[1..])
  }

  // Chunks of numbers of |f|'s type, each with a length that can be written.
  predicate AllChunks(f: Field, ess: seq<seq<bytes>>)
    requires f.ltype.Packable()
  {
    forall k | 0 <= k < |ess| :: AllNumbers(f, ess[k]) && |Concat(ess[k])| < WORD32
  }

  lemma {:induction false} FlatNumbers(f: Field, ess: seq<seq<bytes>>)
    requires f.ltype.Packable() && AllChunks(f, ess)
    ensures AllNumbers(f, Flat(ess))
  {
    hide OneNumber;
    if ess != [] {
      assert AllNumbers(f, ess[0]);
      FlatNumbers(f, ess[1..]);
    }
  }

  lemma {:induction false} NumbersJoin(f: Field, es: seq<bytes>, fs: seq<bytes>)
    requires f.ltype.Packable() && AllNumbers(f, es) && AllNumbers(f, fs)
    ensures AllNumbers(f, es + fs) && NumbersOf(f, es + fs) == NumbersOf(f, es) + NumbersOf(f, fs)
  {
    hide OneNumber;
    if es == [] {
      assert es + fs == fs;
    } else {
      assert (es + fs)[0] == es[0] && (es + fs)[1..] == es[1..] + fs;
      NumbersJoin(f, es[1..], fs);
    }
  }

  // Appending some numbers and then others is appending all of them.
  lemma AppendedJoin(d: Desc, i: nat, es: seq<bytes>, fs: seq<bytes>, rest: bytes, m: Msg, seen: set<nat>)
    requires ValidDesc(d) && TypedMsg(d, m) && i < |d| && d[i].htype.Repeated? && d[i].ltype.Packable()
    requires AllNumbers(d[i], es) && AllNumbers(d[i], fs) && RoomLeft(d, m, i, |es|)
    ensures AllNumbers(d[i], es + fs) && TypedCell(d[i], Many(m[i].items + NumbersOf(d[i], es)))
    ensures var m' := SetCell(d, m, i, Many(m[i].items + NumbersOf(d[i], es)));
      RoomLeft(d, m', i, 0) && Appended(d, i, es + fs, rest, m, seen) == Appended(d, i, fs, rest, m', seen)
  {
    hide DecLoop, ValidDesc, AllNumbers, NumbersOf;
    var f := d[i];
    MemberTyped(d, m, i);
    NumbersTyped(f, es);
    NumbersJoin(f, es, fs);
    var xs, ys := NumbersOf(f, es), NumbersOf(f, fs);
    var m' := SetCell(d, m, i, Many(m[i].items + xs));
    assert m[i].items + xs + ys == m[i].items + (xs + ys);
    if RoomLeft(d, m', i, |fs|) {
      NumbersTyped(f, fs);
      assert AllTyped(f, m[i].items + (xs + ys));
      var zs := m[i].items + (xs + ys);
      assert SetCell(d, m', i, Many(zs)) == SetCell(d, m, i, Many(zs));
    }
  }

  lemma {:induction false} ChunksAppend(d: Desc, i: nat, ess: seq<seq<bytes>>, rest: bytes, m: Msg, seen: set<nat>)
    requires ValidDesc(d) && TypedMsg(d, m) && i < |d| && d[i].htype.Repeated? && d[i].ltype.Packable()
    requires AllChunks(d[i], ess) && RoomLeft(d, m, i, 0)
    ensures AllNumbers(d[i], Flat(ess))
    ensures DecLoop(d, Chunks(d[i], ess) + rest, m, seen) == Appended(d, i, Flat(ess), rest, m, seen)
    decreases |ess|
  {
    hide DecLoop, Chunk, ValidDesc, AllNumbers, NumbersOf, Concat, SetCell;
    var f := d[i];
    FlatNumbers(f, ess);
    if ess == [] {
      EntriesAppend(d, i, [], rest, m, seen);
      assert Chunks(f, ess) + rest == Entries(f, []) + rest;
    } else {
      var more := Chunks(f, ess[1..]) + rest;
      assert Chunks(f, ess) + rest == Chunk(f, ess[0]) + more;
      assert AllNumbers(f, ess[0]) && |Concat(ess[0])| < WORD32;
      FlatNumbers(f, ess[1..]);
      ChunkAppends(d, i, ess[0], more, m, seen);
      if RoomLeft(d, m, i, |ess[0]|) {
        AppendedJoin(d, i, ess[0], Flat(ess[1..]), rest, m, seen);
        ChunksAppend(d, i, ess[1..], rest, SetCell(d, m, i, Many(m[i].items + NumbersOf(f, ess[0]))), seen);
      }
    }
  }

  // Main result: the same numbers decode alike as separate entries and in any number of
  // packed chunks, in what they store and in when they overflow the array.
  lemma PackedUnpacked(d: Desc, i: nat, ess: seq<seq<bytes>>, rest: bytes, m: Msg, seen: set<nat>)
    requires ValidDesc(d) && TypedMsg(d, m) && i < |d| && d[i].htype.Repeated? && d[i].ltype.Packable()
    requires AllChunks(d[i], ess) && RoomLeft(d, m, i, 0)
    ensures DecLoop(d, Chunks(d[i], ess) + rest, m, seen) == DecLoop(d, Entries(d[i], Flat(ess)) + rest, m, seen)
  {
    hide DecLoop, Chunks, Entries, ValidDesc, AllNumbers;
    ChunksAppend(d, i, ess, rest, m, seen);
    EntriesAppend(d, i, Flat(ess), rest, m, seen);
  }
}
