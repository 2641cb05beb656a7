/** Decoding what was encoded: pb_decode of pb_encode's output succeeds exactly when every
    string written is terminated, and gives the message back with the members that were
    not written at their defaults. */
module PbRoundTrip {
  import opened Bytes
  import opened PbTypes
  import opened PbVarint
  import opened PbEncode
  import opened PbDecode

  lemma StringRead(data: bytes, rest: bytes)
    requires |data| < WORD32
    ensures DecVarint32(EncString(data) + rest) == Some(Read(|data|, data + rest))
    ensures Substream(EncString(data) + rest) == Some(Read(data, rest))
  {
    hide DecVarint32, EncVarint;
    Varint32RoundTrip(|data|, data + rest);
    assert EncString(data) + rest == EncVarint(|data|) + (data + rest);
    assert (data + rest)[..|data|] == data && (data + rest)[|data|..] == rest;
  }

  lemma TagReadBack(wireType: nat, tag: nat, rest: bytes)
    requires wireType < 8 && 0 < tag < 0x2000_0000
    ensures ReadTag(EncTag(wireType, tag) + rest) == Tag(wireType, tag, rest)
    ensures EncTag(wireType, tag) + rest != []
  {
    hide DecVarint32, EncVarint;
    Varint32RoundTrip(tag * 8 + wireType, rest);
  }

  lemma FindsField(d: Desc, i: nat)
    requires ValidDesc(d) && i < |d|
    ensures Find(d, d[i].tag) == Some(i)
  {}

  lemma {:induction false} NoNulKept(s: bytes)
    requires NoNul(s)
    ensures UpToNul(s) == s
  {
    if s != [] {
      assert s[0] != 0;
      NoNulKept(s[1..]);
    }
  }

  lemma {:induction false} ItemRoundTrip(f: Field, x: Item, was: Item, rest: bytes)
    requires ValidField(f) && Typed(f, x) && Typed(f, was) && (f.ltype.SubMessage? ==> was == DefaultItem(f))
    requires EncItem(f, x).Some? && FitsItem(f, x, WORD32)
    ensures DecItem(f, EncItem(f, x).value + rest, was) ==
            if TerminatedItem(f, x) then Some(Read(NormItem(f, x), rest)) else None
    decreases f, 0
  {
    hide DecNumber, EncNumber, DecVarint32, DecMsg, EncMsg, EncVarint;
    if f.ltype.Packable() {
      NumberRoundTrip(f.ltype, f.dataSize, x.v, rest);
    } else if f.ltype.SubMessage? {
      var body := EncMsg(f.sub, x.msg).value;
      MessageRoundTrip(f.sub, x.msg);
      StringRead(body, rest);
    } else {
      var data := if f.ltype.Str? then x.chars else x.data;
      StringRead(data, rest);
      assert (data + rest)[..|data|] == data && (data + rest)[|data|..] == rest;
      if f.ltype.Str? { NoNulKept(data); }
    }
  }

  // What decoding |x| into a member that is not an array leaves there.
  function Stored(f: Field, x: Item): Cell
    requires Typed(f, x)
  {
    match f.htype
    case Optional => Opt(true, NormItem(f, x))
    case Oneof(_) => Choice(Some(NormItem(f, x)))
    case _ => One(NormItem(f, x))
  }

  lemma {:induction false} NormTyped(f: Field, x: Item)
    requires ValidField(f) && Typed(f, x)
    ensures Typed(f, NormItem(f, x))
    decreases f, 0
  {
    if f.ltype.SubMessage? { NormMsgTyped(f.sub, x.msg); }
  }

  lemma {:induction false} NormCellTyped(f: Field, c: Cell)
    requires ValidField(f) && TypedCell(f, c)
    ensures TypedCell(f, NormCell(f, c)) && (Selected(NormCell(f, c)) <==> Selected(c))
    decreases f, 1
  {
    DefaultTyped(f);
    if f.htype.Repeated? {
      forall k | 0 <= k < |c.items| ensures Typed(f, NormItem(f, c.items[k])) { NormTyped(f, c.items[k]); }
    } else if f.htype.Oneof? {
      if c.selected.Some? { NormTyped(f, c.selected.value); }
    } else {
      NormTyped(f, c.item);
    }
  }

  lemma {:induction false} NormMsgTyped(d: Desc, m: Msg)
    requires ValidDesc(d) && TypedMsg(d, m)
    ensures TypedMsg(d, NormMsg(d, m))
    decreases d
  {
    forall i | 0 <= i < |d|
      ensures TypedCell(d[i], NormMsg(d, m)[i]) && (Selected(NormMsg(d, m)[i]) <==> Selected(m[i]))
    {
      NormCellTyped(d[i], m[i]);
    }
  }

  // One tagged value through one round of the decoder's loop.
  lemma {:induction false} TaggedStep(d: Desc, i: nat, x: Item, s: Msg, seen: set<nat>, rest: bytes)
    requires ValidDesc(d) && i < |d| && Typed(d[i], x) && TypedMsg(d, s)
    requires !d[i].htype.Repeated? && s[i] == DefaultCell(d[i])
    requires Tagged(d[i], x).Some? && FitsItem(d[i], x, WORD32)
    ensures TypedCell(d[i], Stored(d[i], x))
    ensures DecLoop(d, Tagged(d[i], x).value + rest, s, seen) ==
            if TerminatedItem(d[i], x) then DecLoop(d, rest, SetCell(d, s, i, Stored(d[i], x)), Mark(d, i, seen)) else None
    decreases d[i], 2
  {
    hide DecItem, EncItem, NormItem, TerminatedItem, ReadTag, EncTag, SetCell, Find, FitsItem, DefaultItem;
    var f := d[i];
    assert ValidField(f);
    DefaultTyped(f);
    NormTyped(f, x);
    var wire := WireType(f.ltype);
    var body := EncItem(f, x).value;
    var b := Tagged(f, x).value + rest;
    assert b == EncTag(wire, f.tag) + (body + rest);
    TagReadBack(wire, f.tag, body + rest);
    FindsField(d, i);
    ItemRoundTrip(f, x, DefaultItem(f), rest);
  }

  lemma {:induction false} PackedBack(f: Field, xs: seq<Item>, ys: seq<Item>)
    requires ValidField(f) && f.ltype.Packable() && AllTyped(f, xs) && AllTyped(f, ys)
    requires |ys| + |xs| <= f.arraySize
    ensures DecPacked(f, Packed(f, xs), ys) == Some(ys + xs)
    decreases |xs|
  {
    hide DecNumber, EncNumber;
    if xs == [] {
      assert ys + xs == ys;
    } else {
      assert Typed(f, xs[0]);
      NumberRoundTrip(f.ltype, f.dataSize, xs[0].v, Packed(f, xs[1..]));
      NumberTyped(f, Packed(f, xs));
      PackedBack(f, xs[1..], ys + [xs[0]]);
      assert ys + [xs[0]] + xs[1..] == ys + xs;
    }
  }

  predicate AllTerminated(f: Field, xs: seq<Item>)
    requires AllTyped(f, xs)
  {
    forall k | 0 <= k < |xs| :: TerminatedItem(f, xs[k])
  }

  lemma NormItemsTyped(f: Field, xs: seq<Item>)
    requires ValidField(f) && AllTyped(f, xs)
    ensures AllTyped(f, NormItems(f, xs))
  {
    forall k | 0 <= k < |xs| ensures Typed(f, NormItem(f, xs[k])) { NormTyped(f, xs[k]); }
  }

  // The entries of an unpacked array through the decoder's loop, one tag each.
  lemma {:induction false} UnpackedSteps(d: Desc, i: nat, xs: seq<Item>, ys: seq<Item>, s: Msg, seen: set<nat>, rest: bytes)
    requires ValidDesc(d) && i < |d| && TypedMsg(d, s) && s[i] == Many(ys)
    requires d[i].htype.Repeated? && !d[i].ltype.Packable()
    requires AllTyped(d[i], xs) && AllTyped(d[i], ys) && |ys| + |xs| <= d[i].arraySize
    requires Unpacked(d[i], xs).Some? && forall k | 0 <= k < |xs| :: FitsItem(d[i], xs[k], WORD32)
    ensures TypedCell(d[i], Many(ys + NormItems(d[i], xs)))
    ensures DecLoop(d, Unpacked(d[i], xs).value + rest, s, seen) ==
            if AllTerminated(d[i], xs) then DecLoop(d, rest, SetCell(d, s, i, Many(ys + NormItems(d[i], xs))), seen) else None
    decreases d[i], 3, |xs|
  {
    hide DecItem, EncItem, NormItem, TerminatedItem, ReadTag, EncTag, Find, FitsItem, DefaultItem;
    var f := d[i];
    assert ValidField(f);
    NormItemsTyped(f, xs);
    if xs == [] {
      assert ys + NormItems(f, xs) == ys;
      assert SetCell(d, s, i, Many(ys)) == s;
      assert Unpacked(f, xs).value + rest == rest;
    } else {
      DefaultTyped(f);
      NormTyped(f, xs[0]);
      var wire, body, more := WireType(f.ltype), EncItem(f, xs[0]).value, Unpacked(f, xs[1..]).value + rest;
      assert Unpacked(f, xs).value + rest == EncTag(wire, f.tag) + (body + more);
      TagReadBack(wire, f.tag, body + more);
      FindsField(d, i);
      ItemRoundTrip(f, xs[0], DefaultItem(f), more);
      if TerminatedItem(f, xs[0]) {
        var ys' := ys + [NormItem(f, xs[0])];
        var s' := SetCell(d, s, i, Many(ys'));
        UnpackedSteps(d, i, xs[1..], ys', s', seen, rest);
        assert ys' + NormItems(f, xs[1..]) == ys + NormItems(f, xs);
        assert SetCell(d, s', i, Many(ys + NormItems(f, xs))) == SetCell(d, s, i, Many(ys + NormItems(f, xs)));
        assert AllTerminated(f, xs) == AllTerminated(f, xs[1..]) by { assert xs == [xs[0]] + xs[1..]; }
      }
    }
  }

  // A packed array through one round of the decoder's loop.
  lemma PackedStep(d: Desc, i: nat, xs: seq<Item>, s: Msg, seen: set<nat>, rest: bytes)
    requires ValidDesc(d) && i < |d| && TypedMsg(d, s) && s[i] == Many([])
    requires d[i].htype.Repeated? && d[i].ltype.Packable()
    requires AllTyped(d[i], xs) && 0 < |xs| <= d[i].arraySize && |Packed(d[i], xs)| < WORD32
    ensures TypedCell(d[i], Many(xs))
    ensures DecLoop(d, EncArray(d[i], xs).value + rest, s, seen) == DecLoop(d, rest, SetCell(d, s, i, Many(xs)), seen)
  {
    hide ReadTag, EncTag, Find, DecPacked, Packed, Substream, EncString;
    var f := d[i];
    assert ValidField(f);
    var body := EncString(Packed(f, xs));
    assert EncArray(f, xs).value + rest == EncTag(WT_STRING, f.tag) + (body + rest);
    TagReadBack(WT_STRING, f.tag, body + rest);
    FindsField(d, i);
    StringRead(Packed(f, xs), rest);
    PackedBack(f, xs, []);
    assert [] + xs == xs;
  }

  // The struct when the members before |i| have been decoded.
  function Progress(d: Desc, m: Msg, i: nat): (s: Msg)
    requires TypedMsg(d, m) && i <= |d|
    ensures |s| == |d|
  {
    NormMsg(d, m)[..i] + Defaults(d)[i..]
  }

  lemma ProgressAt(d: Desc, m: Msg, i: nat, j: nat)
    requires ValidDesc(d) && TypedMsg(d, m) && i <= |d| && j < |d|
    ensures Progress(d, m, i)[j] == if j < i then NormCell(d[j], m[j]) else DefaultCell(d[j])
    ensures TypedCell(d[j], Progress(d, m, i)[j])
    ensures Selected(Progress(d, m, i)[j]) <==> j < i && Selected(m[j])
  {
    hide NormCell;
    assert ValidField(d[j]) && TypedCell(d[j], m[j]);
    DefaultTyped(d[j]);
    NormCellTyped(d[j], m[j]);
  }

  lemma ProgressTyped(d: Desc, m: Msg, i: nat)
    requires ValidDesc(d) && TypedMsg(d, m) && i <= |d|
    ensures TypedMsg(d, Progress(d, m, i))
  {
    hide Progress, TypedCell, Selected;
    forall j | 0 <= j < |d|
      ensures TypedCell(d[j], Progress(d, m, i)[j]) && (Selected(Progress(d, m, i)[j]) ==> Selected(m[j]))
    {
      ProgressAt(d, m, i, j);
    }
  }

  lemma StoredAt(d: Desc, m: Msg, i: nat, j: nat)
    requires ValidDesc(d) && TypedMsg(d, m) && i < |d| && j < |d|
    requires d[i].htype.Oneof? ==> Selected(m[i])
    ensures Progress(d, m, i + 1)[j] ==
            if j == i then NormCell(d[i], m[i])
            else if SameGroup(d[i], d[j]) then Choice(None)
            else Progress(d, m, i)[j]
  {
    hide Progress, NormCell, DefaultCell, ValidDesc;
    ProgressAt(d, m, i, j);
    ProgressAt(d, m, i + 1, j);
    if j != i && SameGroup(d[i], d[j]) {
      assert !Selected(m[j]);
      assert Progress(d, m, i + 1)[j].Choice?;
    }
  }

  // Storing member |i| after the members before it touches nothing else.
  lemma ProgressStores(d: Desc, m: Msg, i: nat)
    requires ValidDesc(d) && TypedMsg(d, m) && i < |d|
    requires d[i].htype.Oneof? ==> Selected(m[i])
    ensures TypedMsg(d, Progress(d, m, i)) && TypedCell(d[i], NormCell(d[i], m[i]))
    ensures SetCell(d, Progress(d, m, i), i, NormCell(d[i], m[i])) == Progress(d, m, i + 1)
  {
    ProgressTyped(d, m, i);
    NormCellTyped(d[i], m[i]);
    hide Progress, NormCell, ValidDesc, TypedMsg, TypedCell, SameGroup, Selected;
    forall j | 0 <= j < |d|
      ensures SetCell(d, Progress(d, m, i), i, NormCell(d[i], m[i]))[j] == Progress(d, m, i + 1)[j]
    {
      StoredAt(d, m, i, j);
    }
  }

  // Skipping a member that is not written leaves its default in place.
  lemma ProgressSkips(d: Desc, m: Msg, i: nat)
    requires ValidDesc(d) && TypedMsg(d, m) && i < |d| && NormCell(d[i], m[i]) == DefaultCell(d[i])
    ensures Progress(d, m, i + 1) == Progress(d, m, i)
  {
    hide NormCell, ValidDesc, DefaultCell;
  }

  lemma {:induction false} ArrayRoundTrip(d: Desc, m: Msg, i: nat, seen: set<nat>, rest: bytes)
    requires ValidDesc(d) && TypedMsg(d, m) && i < |d| && d[i].htype.Repeated?
    requires EncCell(d[i], m[i]).Some? && FitsCell(d[i], m[i], WORD32)
    ensures TypedMsg(d, Progress(d, m, i)) && TypedMsg(d, Progress(d, m, i + 1))
    ensures DecLoop(d, EncCell(d[i], m[i]).value + rest, Progress(d, m, i), seen) ==
            if TerminatedCell(d[i], m[i]) then DecLoop(d, rest, Progress(d, m, i + 1), seen) else None
    decreases d[i], 4
  {
    hide DecLoop, Unpacked, Packed, DefaultItem, NormItem, TerminatedItem, FitsItem, Progress, ValidDesc;
    var f, xs := d[i], m[i].items;
    ProgressTyped(d, m, i);
    ProgressTyped(d, m, i + 1);
    ProgressAt(d, m, i, i);
    assert Progress(d, m, i)[i] == Many([]);
    ProgressStores(d, m, i);
    if xs == [] {
      assert NormItems(f, xs) == [];
      ProgressSkips(d, m, i);
      assert EncCell(f, m[i]).value + rest == rest;
    } else if f.ltype.Packable() {
      PackedStep(d, i, xs, Progress(d, m, i), seen, rest);
      assert NormItems(f, xs) == xs by { PackedKept(f, xs); }
      assert TerminatedCell(f, m[i]) by { PackedKept(f, xs); }
    } else {
      UnpackedSteps(d, i, xs, [], Progress(d, m, i), seen, rest);
      assert [] + NormItems(f, xs) == NormItems(f, xs);
    }
  }

  lemma PackedKept(f: Field, xs: seq<Item>)
    requires AllTyped(f, xs) && f.ltype.Packable()
    ensures NormItems(f, xs) == xs && AllTerminated(f, xs)
  {}

  lemma {:induction false} CellRoundTrip(d: Desc, m: Msg, i: nat, seen: set<nat>, rest: bytes)
    requires ValidDesc(d) && TypedMsg(d, m) && i < |d|
    requires EncCell(d[i], m[i]).Some? && FitsCell(d[i], m[i], WORD32)
    ensures TypedMsg(d, Progress(d, m, i)) && TypedMsg(d, Progress(d, m, i + 1))
    ensures DecLoop(d, EncCell(d[i], m[i]).value + rest, Progress(d, m, i), seen) ==
            if TerminatedCell(d[i], m[i]) then DecLoop(d, rest, Progress(d, m, i + 1), Mark(d, i, seen)) else None
    decreases d[i], 5
  {
    hide DecLoop, DefaultItem, NormItem, IsDefaultItem, TerminatedItem, FitsItem, Tagged, Progress, ValidDesc, EncArray;
    var f, c := d[i], m[i];
    if f.htype.Repeated? {
      ArrayRoundTrip(d, m, i, seen, rest);
    } else {
      ProgressTyped(d, m, i);
      ProgressTyped(d, m, i + 1);
      ProgressAt(d, m, i, i);
      if Written(f, c) {
        ProgressStores(d, m, i);
        TaggedStep(d, i, ItemOf(f, c), Progress(d, m, i), seen, rest);
      } else {
        ProgressSkips(d, m, i);
        assert EncCell(f, c).value + rest == rest;
      }
    }
  }

  // Whether encode_basic_field writes a member that is not an array, and the value it writes.
  predicate Written(f: Field, c: Cell)
    requires TypedCell(f, c) && !f.htype.Repeated?
  {
    match f.htype
    case Optional => c.has
    case Singular => !IsDefaultItem(f, c.item)
    case Oneof(_) => c.selected.Some?
    case _ => true
  }

  function ItemOf(f: Field, c: Cell): (x: Item)
    requires TypedCell(f, c) && !f.htype.Repeated? && Written(f, c)
    ensures Typed(f, x)
  {
    if c.Choice? then c.selected.value else c.item
  }

  lemma EncNext(d: Desc, m: Msg, i: nat)
    requires TypedMsg(d, m) && i < |d| && EncFrom(d, m, i).Some?
    ensures EncCell(d[i], m[i]).Some? && EncFrom(d, m, i + 1).Some?
    ensures EncFrom(d, m, i).value == EncCell(d[i], m[i]).value + EncFrom(d, m, i + 1).value
  {
    hide EncCell, TypedCell;
  }

  // The decoder's loop over the encodings of members |i| on.
  lemma {:induction false} LoopRoundTrip(d: Desc, m: Msg, i: nat, seen: set<nat>)
    requires ValidDesc(d) && TypedMsg(d, m) && i <= |d| && EncFrom(d, m, i).Some? && FitsMsg(d, m, WORD32)
    requires forall j | 0 <= j < i && d[j].htype.Required? && RequiredBefore(d, j) < MAX_REQUIRED :: j in seen
    ensures TypedMsg(d, Progress(d, m, i))
    ensures DecLoop(d, EncFrom(d, m, i).value, Progress(d, m, i), seen) ==
            if forall j | i <= j < |d| :: TerminatedCell(d[j], m[j]) then Some(NormMsg(d, m)) else None
    decreases d, |d| - i
  {
    hide EncCell, NormMsg, ValidDesc, FitsCell, TerminatedCell;
    ProgressTyped(d, m, i);
    if i == |d| {
      assert Progress(d, m, i) == NormMsg(d, m);
    } else {
      hide DecLoop, Progress;
      EncNext(d, m, i);
      hide EncFrom;
      assert FitsCell(d[i], m[i], WORD32);
      CellRoundTrip(d, m, i, seen, EncFrom(d, m, i + 1).value);
      LoopRoundTrip(d, m, i + 1, Mark(d, i, seen));
    }
  }

  // Main result: a message comes back from its encoding, through any nesting of
  // submessages, exactly when every string written is terminated within its buffer.
  lemma {:induction false} MessageRoundTrip(d: Desc, m: Msg)
    requires ValidDesc(d) && TypedMsg(d, m) && EncMsg(d, m).Some? && FitsMsg(d, m, WORD32)
    ensures TypedMsg(d, Defaults(d))
    ensures DecMsg(d, EncMsg(d, m).value, Defaults(d)) == if TerminatedMsg(d, m) then Some(NormMsg(d, m)) else None
    decreases d, |d| + 1
  {
    hide DecLoop, EncFrom, TerminatedCell, NormMsg;
    DefaultsTyped(d);
    LoopRoundTrip(d, m, 0, {});
    assert Progress(d, m, 0) == Defaults(d);
  }

  // --- A string that does not come back ---

  // A message with one string, in a buffer of |size| octets.
  function StringDesc(size: nat): Desc {
    [Field(1, Str, Required, 0, 0, size, 0, [], None)]
  }

  function StringMsg(chars: bytes): Msg {
    [One(Text(chars))]
  }

  lemma StringTyped(size: nat, chars: bytes)
    requires 0 < size <= SIZE_MAX && |chars| <= size && NoNul(chars)
    ensures ValidDesc(StringDesc(size)) && TypedMsg(StringDesc(size), StringMsg(chars))
    ensures EncMsg(StringDesc(size), StringMsg(chars)).Some? && FitsMsg(StringDesc(size), StringMsg(chars), WORD32)
    ensures TerminatedMsg(StringDesc(size), StringMsg(chars)) <==> |chars| < size
  {
    var d, m := StringDesc(size), StringMsg(chars);
    assert ValidField(d[0]) && TypedCell(d[0], m[0]);
    assert EncItem(d[0], m[0].item).Some? && EncCell(d[0], m[0]).Some?;
    assert EncFrom(d, m, 1) == Some([]);
    assert TerminatedItem(d[0], m[0].item) <==> |chars| < size;
    assert TerminatedMsg(d, m) <==> TerminatedCell(d[0], m[0]);
  }

  // Four characters fill a buffer of four octets and leave no room for the NUL: the
  // message encodes, and its encoding is refused. Three come back.
  lemma FullBufferLost()
    ensures var d, m := StringDesc(4), StringMsg([0x41, 0x42, 0x43, 0x44]);
      && ValidDesc(d) && TypedMsg(d, m) && EncMsg(d, m).Some? && Decode(d, EncMsg(d, m).value) == None
    ensures var d, m := StringDesc(4), StringMsg([0x41, 0x42, 0x43]);
      && ValidDesc(d) && TypedMsg(d, m) && EncMsg(d, m).Some? && Decode(d, EncMsg(d, m).value).Some?
  {
    hide DecMsg, EncMsg, ValidDesc, TypedMsg, FitsMsg, TerminatedMsg, NormMsg, StringDesc, StringMsg;
    StringTyped(4, [0x41, 0x42, 0x43, 0x44]);
    MessageRoundTrip(StringDesc(4), StringMsg([0x41, 0x42, 0x43, 0x44]));
    StringTyped(4, [0x41, 0x42, 0x43]);
    MessageRoundTrip(StringDesc(4), StringMsg([0x41, 0x42, 0x43]));
  }
}
