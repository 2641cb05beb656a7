/** Whatever the decoder accepts respects the bounds of the struct, can be encoded again,
    and is then a fixed point of decoding. */
module PbSound {
  import opened Bytes
  import opened PbTypes
  import opened PbVarint
  import opened PbEncode
  import opened PbDecode
  import opened PbRoundTrip

  // Every string is terminated within its buffer, every byte array fits its own, and
  // every count is at most array_size - written or not.
  predicate SoundItem(f: Field, x: Item)
    requires Typed(f, x)
    decreases f, 0
  {
    InBounds(f, x) && (f.ltype.SubMessage? ==> SoundMsg(f.sub, x.msg))
  }

  predicate SoundItems(f: Field, xs: seq<Item>)
    requires AllTyped(f, xs)
    decreases f, 1
  {
    forall k | 0 <= k < |xs| :: SoundItem(f, xs[k])
  }

  predicate SoundCell(f: Field, c: Cell)
    requires TypedCell(f, c)
    decreases f, 2
  {
    match f.htype
    case Repeated => |c.items| <= f.arraySize && SoundItems(f, c.items)
    case Oneof(_) => c.selected.Some? ==> SoundItem(f, c.selected.value)
    case _ => SoundItem(f, c.item)
  }

  predicate SoundMsg(d: Desc, m: Msg)
    requires TypedMsg(d, m)
    decreases d
  {
    forall i | 0 <= i < |d| :: SoundCell(d[i], m[i])
  }

  lemma {:induction false} DefaultSound(f: Field)
    requires ValidField(f)
    ensures Typed(f, DefaultItem(f)) && SoundItem(f, DefaultItem(f))
    decreases f, 0
  {
    DefaultTyped(f);
    if f.ltype.SubMessage? { DefaultsSound(f.sub); }
  }

  lemma {:induction false} DefaultsSound(d: Desc)
    requires ValidDesc(d)
    ensures TypedMsg(d, Defaults(d)) && SoundMsg(d, Defaults(d))
    decreases d
  {
    DefaultsTyped(d);
    forall i | 0 <= i < |d| ensures SoundCell(d[i], Defaults(d)[i]) {
      assert ValidField(d[i]);
      DefaultSound(d[i]);
    }
  }

  lemma {:induction false} ItemSound(f: Field, b: bytes, was: Item)
    requires ValidField(f) && Typed(f, was) && SoundItem(f, was) && DecItem(f, b, was).Some?
    ensures SoundItem(f, DecItem(f, b, was).value.value)
    decreases f, 0
  {
    hide DecVarint32, DecNumber, DecMsg, Substream, InRange;
    if f.ltype.SubMessage? {
      MessageSound(f.sub, Substream(b).value.value, was.msg);
    }
  }

  lemma CellSound(f: Field, wireType: nat, b: bytes, c: Cell)
    requires ValidField(f) && TypedCell(f, c) && SoundCell(f, c) && DecCell(f, wireType, b, c).Some?
    ensures SoundCell(f, DecCell(f, wireType, b, c).value.value)
    decreases f, 1
  {
    hide DecItem, Substream, InBounds, ValidField, Typed;
    if f.htype.Repeated? {
      if wireType == WT_STRING && f.ltype.Packable() {
        NumbersSound(f, DecPacked(f, Substream(b).value.value, c.items).value);
      } else {
        DefaultSound(f);
        ItemSound(f, b, DefaultItem(f));
      }
    } else if f.htype.Oneof? {
      DefaultSound(f);
      ItemSound(f, b, DefaultItem(f));
    } else {
      ItemSound(f, b, c.item);
    }
  }

  lemma NumbersSound(f: Field, xs: seq<Item>)
    requires AllTyped(f, xs) && f.ltype.Packable()
    ensures SoundItems(f, xs)
  {}

  lemma {:induction false} LoopSound(d: Desc, b: bytes, m: Msg, seen: set<nat>)
    requires ValidDesc(d) && TypedMsg(d, m) && SoundMsg(d, m) && DecLoop(d, b, m, seen).Some?
    ensures SoundMsg(d, DecLoop(d, b, m, seen).value)
    decreases d, |b|
  {
    hide ReadTag, DecCell, Skip, Find, SoundCell, RequiredSeen;
    if b != [] && ReadTag(b).Tag? {
      var t := ReadTag(b);
      match Find(d, t.tag)
      case None => LoopSound(d, Skip(t.wireType, t.rest).value, m, seen);
      case Some(i) =>
        assert ValidField(d[i]);
        var read := DecCell(d[i], t.wireType, t.rest, m[i]).value;
        CellSound(d[i], t.wireType, t.rest, m[i]);
        StoreSound(d, m, i, read.value);
        LoopSound(d, read.rest, SetCell(d, m, i, read.value), Mark(d, i, seen));
    }
  }

  lemma StoreSound(d: Desc, m: Msg, i: nat, c: Cell)
    requires TypedMsg(d, m) && SoundMsg(d, m) && i < |d| && TypedCell(d[i], c) && SoundCell(d[i], c)
    ensures SoundMsg(d, SetCell(d, m, i, c))
  {}

  // Main result: from a sound struct, decoding any octets leaves a sound struct.
  lemma {:induction false} MessageSound(d: Desc, b: bytes, m: Msg)
    requires ValidDesc(d) && TypedMsg(d, m) && SoundMsg(d, m) && DecMsg(d, b, m).Some?
    ensures SoundMsg(d, DecMsg(d, b, m).value)
    decreases d, |b| + 1
  {
    LoopSound(d, b, m, {});
  }

  // A sound message has an encoding, and all its strings are terminated.
  lemma {:induction false} SoundItemEncodes(f: Field, x: Item)
    requires Typed(f, x) && SoundItem(f, x)
    ensures EncItem(f, x).Some? && TerminatedItem(f, x)
    decreases f, 0
  {
    hide EncNumber, EncString;
    if f.ltype.SubMessage? { SoundEncodes(f.sub, x.msg); }
  }

  lemma {:induction false} SoundArrayEncodes(f: Field, xs: seq<Item>)
    requires AllTyped(f, xs) && SoundItems(f, xs)
    ensures Unpacked(f, xs).Some? && AllTerminated(f, xs)
    decreases f, 1, |xs|
  {
    hide EncItem, TerminatedItem, SoundItem, Typed;
    if xs != [] {
      SoundItemEncodes(f, xs[0]);
      SoundArrayEncodes(f, xs[1..]);
      assert xs == [xs[0]] + xs[1..];
    }
  }

  lemma {:induction false} SoundCellEncodes(f: Field, c: Cell)
    requires TypedCell(f, c) && SoundCell(f, c)
    ensures EncCell(f, c).Some? && TerminatedCell(f, c)
    decreases f, 2
  {
    hide EncItem, TerminatedItem, SoundItem, Typed, Packed, IsDefaultItem;
    if f.htype.Repeated? {
      SoundArrayEncodes(f, c.items);
    } else if f.htype.Oneof? {
      if c.selected.Some? { SoundItemEncodes(f, c.selected.value); }
    } else {
      SoundItemEncodes(f, c.item);
    }
  }

  lemma {:induction false} SoundFromEncodes(d: Desc, m: Msg, i: nat)
    requires TypedMsg(d, m) && SoundMsg(d, m) && i <= |d|
    ensures EncFrom(d, m, i).Some?
    decreases d, |d| - i
  {
    hide EncCell, SoundCell, TypedCell, OneSelected;
    if i < |d| {
      SoundCellEncodes(d[i], m[i]);
      SoundFromEncodes(d, m, i + 1);
    }
  }

  lemma {:induction false} SoundEncodes(d: Desc, m: Msg)
    requires TypedMsg(d, m) && SoundMsg(d, m)
    ensures EncMsg(d, m).Some? && TerminatedMsg(d, m)
    decreases d, |d| + 1
  {
    hide TerminatedCell;
    SoundFromEncodes(d, m, 0);
    forall i | 0 <= i < |d| ensures TerminatedCell(d[i], m[i]) { SoundCellEncodes(d[i], m[i]); }
  }

  // Main result: any octets that decode at all can be encoded again, and decoding that
  // encoding gives the same message with its unwritten members at their defaults.
  lemma DecodedReencodes(d: Desc, b: bytes)
    requires ValidDesc(d) && Decode(d, b).Some?
    ensures var m := Decode(d, b).value;
      && EncMsg(d, m).Some?
      && (FitsMsg(d, m, WORD32) ==> Decode(d, EncMsg(d, m).value) == Some(NormMsg(d, m)))
  {
    hide DecMsg, EncMsg, NormMsg, FitsMsg;
    DefaultsSound(d);
    MessageSound(d, b, Defaults(d));
    var m := Decode(d, b).value;
    SoundEncodes(d, m);
    if FitsMsg(d, m, WORD32) { MessageRoundTrip(d, m); }
  }
}
