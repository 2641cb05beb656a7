/** Normalising - putting members that are not written at their defaults - changes
    nothing that encoding can see. */
module PbNormal {
  import opened Bytes
  import opened PbTypes
  import opened PbVarint
  import opened PbEncode
  import opened PbDecode
  import opened PbRoundTrip

  // proto3 members have no default other than zero.
  predicate Plain(d: Desc)
    decreases d
  {
    forall i | 0 <= i < |d| :: PlainField(d[i])
  }

  predicate PlainField(f: Field)
    decreases f
  {
    && (f.htype.Singular? ==> f.default.None?)
    && (f.ltype.SubMessage? ==> Plain(f.sub))
  }

  // If any value of a proto3 member counts as default, then so does its initial value.
  lemma {:induction false} InitialIsDefault(f: Field, x: Item)
    requires ValidField(f) && PlainField(f) && f.htype.Singular? && Typed(f, x) && IsDefaultItem(f, x)
    ensures Typed(f, DefaultItem(f)) && IsDefaultItem(f, DefaultItem(f))
    decreases f, 0
  {
    DefaultTyped(f);
    if f.ltype.SubMessage? { InitialsAreDefault(f.sub, x.msg); }
  }

  lemma {:induction false} InitialsAreDefault(d: Desc, m: Msg)
    requires ValidDesc(d) && Plain(d) && TypedMsg(d, m) && IsDefaultMsg(d, m)
    ensures TypedMsg(d, Defaults(d)) && IsDefaultMsg(d, Defaults(d))
    decreases d
  {
    DefaultsTyped(d);
    forall i | 0 <= i < |d| ensures IsDefaultCell(d[i], Defaults(d)[i]) {
      assert ValidField(d[i]) && PlainField(d[i]) && IsDefaultCell(d[i], m[i]);
      if d[i].htype.Singular? { InitialIsDefault(d[i], m[i].item); }
    }
  }

  lemma {:induction false} NormItemSame(f: Field, x: Item)
    requires ValidField(f) && PlainField(f) && Typed(f, x)
    ensures Typed(f, NormItem(f, x))
    ensures IsDefaultItem(f, NormItem(f, x)) == IsDefaultItem(f, x)
    ensures EncItem(f, NormItem(f, x)) == EncItem(f, x)
    decreases f, 0
  {
    NormTyped(f, x);
    if f.ltype.SubMessage? {
      NormMsgSame(f.sub, x.msg);
    }
  }

  lemma {:induction false} NormItemsSame(f: Field, xs: seq<Item>)
    requires ValidField(f) && PlainField(f) && AllTyped(f, xs)
    ensures AllTyped(f, NormItems(f, xs)) && Unpacked(f, NormItems(f, xs)) == Unpacked(f, xs)
    decreases f, 1, |xs|
  {
    hide EncItem, NormItem, Typed, PlainField, ValidField;
    NormItemsTyped(f, xs);
    if xs != [] {
      NormItemSame(f, xs[0]);
      NormItemsSame(f, xs[1..]);
      assert NormItems(f, xs)[1..] == NormItems(f, xs[1..]);
    }
  }

  lemma {:induction false} NormCellSame(f: Field, c: Cell)
    requires ValidField(f) && PlainField(f) && TypedCell(f, c)
    ensures TypedCell(f, NormCell(f, c))
    ensures IsDefaultCell(f, NormCell(f, c)) == IsDefaultCell(f, c)
    ensures EncCell(f, NormCell(f, c)) == EncCell(f, c)
    decreases f, 2
  {
    NormCellTyped(f, c);
    hide EncItem, NormItem, Typed, ValidField, IsDefaultItem, Packed, DefaultItem, Unpacked;
    if f.htype.Repeated? {
      NormItemsSame(f, c.items);
      if f.ltype.Packable() { PackedKept(f, c.items); }
    } else if f.htype.Oneof? {
      if c.selected.Some? { NormItemSame(f, c.selected.value); }
    } else {
      NormItemSame(f, c.item);
      if f.htype.Singular? && IsDefaultItem(f, c.item) { InitialIsDefault(f, c.item); }
    }
  }

  lemma {:induction false} NormFromSame(d: Desc, m: Msg, i: nat)
    requires ValidDesc(d) && Plain(d) && TypedMsg(d, m) && TypedMsg(d, NormMsg(d, m)) && i <= |d|
    ensures EncFrom(d, NormMsg(d, m), i) == EncFrom(d, m, i)
    decreases d, |d| - i
  {
    hide EncCell, NormCell, TypedCell, OneSelected;
    if i < |d| {
      assert ValidField(d[i]) && PlainField(d[i]);
      NormCellSame(d[i], m[i]);
      NormFromSame(d, m, i + 1);
    }
  }

  // Main result: a message and its normal form have the same encoding.
  lemma {:induction false} NormMsgSame(d: Desc, m: Msg)
    requires ValidDesc(d) && Plain(d) && TypedMsg(d, m)
    ensures TypedMsg(d, NormMsg(d, m))
    ensures EncMsg(d, NormMsg(d, m)) == EncMsg(d, m)
    ensures IsDefaultMsg(d, NormMsg(d, m)) == IsDefaultMsg(d, m)
    decreases d, |d| + 1
  {
    hide NormCell, EncFrom, TypedCell;
    NormMsgTyped(d, m);
    NormFromSame(d, m, 0);
    forall i | 0 <= i < |d| ensures IsDefaultCell(d[i], NormMsg(d, m)[i]) == IsDefaultCell(d[i], m[i]) {
      NormCellSame(d[i], m[i]);
    }
  }

  // Why the members must be plain: a proto3 member that starts at five and holds zero is
  // not written, so it comes back as five, and five is written.
  lemma NonzeroDefaultShows()
    ensures var d, m := [Field(1, UVarint, Singular, 0, 0, 4, 0, [], Some(Num(5)))], [One(Num(0))];
      && ValidDesc(d) && TypedMsg(d, m) && TypedMsg(d, NormMsg(d, m))
      && EncMsg(d, m) == Some([]) && EncMsg(d, NormMsg(d, m)) != Some([])
  {
    hide EncTag, EncNumber;
    var f := Field(1, UVarint, Singular, 0, 0, 4, 0, [], Some(Num(5)));
    var d, m: Msg, n: Msg := [f], [One(Num(0))], [One(Num(5))];
    assert ValidField(f) && TypedCell(f, m[0]) && TypedCell(f, n[0]);
    assert NormMsg(d, m) == n;
    assert EncFrom(d, m, 1) == Some([]) && EncFrom(d, n, 1) == Some([]);
    JoinLaws(Some([]), Some([]), Some([]));
    JoinLaws(Tagged(f, n[0].item), Some([]), Some([]));
    TagNotEmpty(f, n[0].item);
  }

  lemma TagNotEmpty(f: Field, x: Item)
    requires Typed(f, x)
    ensures Tagged(f, x) != Some([])
  {
    hide EncItem;
  }
}
