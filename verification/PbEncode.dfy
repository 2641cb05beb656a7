/** What pb_encode writes for a message, as a function of its descriptor and its value
    (pb_encode.c). None stands for the errors that do not depend on the stream. */
module PbEncode {
  import opened Bytes
  import opened PbTypes
  import opened PbVarint

  // pb_wire_type_t
  const WT_VARINT: nat := 0
  const WT_64BIT: nat := 1
  const WT_STRING: nat := 2
  const WT_32BIT: nat := 5

  // pb_encode_tag_for_field
  function WireType(t: LType): nat {
    match t
    case Varint => WT_VARINT
    case UVarint => WT_VARINT
    case SVarint => WT_VARINT
    case Fixed32 => WT_32BIT
    case Fixed64 => WT_64BIT
    case _ => WT_STRING
  }

  // pb_encode_tag
  function EncTag(wireType: nat, tag: nat): bytes {
    EncVarint(tag * 8 + wireType)
  }

  // pb_encode_string
  function EncString(data: bytes): bytes {
    EncVarint(|data|) + data
  }

  // pb_enc_varint .. pb_enc_fixed_length_bytes: one value, without its tag.
  function EncItem(f: Field, x: Item): Option<bytes>
    requires Typed(f, x)
    decreases f, 0
  {
    match f.ltype
    case BytesArray => if BYTES_HEADER + |x.data| > f.dataSize then None else Some(EncString(x.data))
    case FixedBytes => Some(EncString(x.data))
    case Str => Some(EncString(x.chars))
    case SubMessage =>
      var body := EncMsg(f.sub, x.msg);
      if body.None? then None else Some(EncString(body.value))
    case _ => Some(EncNumber(f.ltype, x.v))
  }

  function Join(a: Option<bytes>, b: Option<bytes>): Option<bytes> {
    if a.Some? && b.Some? then Some(a.value + b.value) else None
  }

  lemma JoinLaws(a: Option<bytes>, b: Option<bytes>, c: Option<bytes>)
    ensures Join(Join(a, b), c) == Join(a, Join(b, c))
    ensures Join(Some([]), a) == a && Join(a, Some([])) == a
  {
    if a.Some? {
      assert [] + a.value == a.value && a.value + [] == a.value;
      if b.Some? && c.Some? { assert a.value + b.value + c.value == a.value + (b.value + c.value); }
    }
  }

  function Tagged(f: Field, x: Item): Option<bytes>
    requires Typed(f, x)
    decreases f, 1
  {
    Join(Some(EncTag(WireType(f.ltype), f.tag)), EncItem(f, x))
  }

  predicate AllTyped(f: Field, xs: seq<Item>) {
    forall k | 0 <= k < |xs| :: Typed(f, xs[k])
  }

  // The entries of a packed array, one after another.
  function Packed(f: Field, xs: seq<Item>): bytes
    requires f.ltype.Packable() && AllTyped(f, xs)
  {
    if xs == [] then [] else EncNumber(f.ltype, xs[0].v) + Packed(f, xs[1..])
  }

  // The entries of an unpacked array, each with its tag.
  function Unpacked(f: Field, xs: seq<Item>): Option<bytes>
    requires AllTyped(f, xs)
    decreases f, 2, |xs|
  {
    if xs == [] then Some([]) else Join(Tagged(f, xs[0]), Unpacked(f, xs[1..]))
  }

  // encode_array
  function EncArray(f: Field, xs: seq<Item>): Option<bytes>
    requires AllTyped(f, xs)
    decreases f, 3
  {
    if xs == [] then Some([])
    else if |xs| > f.arraySize then None
    else if f.ltype.Packable() then Some(EncTag(WT_STRING, f.tag) + EncString(Packed(f, xs)))
    else Unpacked(f, xs)
  }

  // pb_check_proto3_default_value
  predicate IsDefaultCell(f: Field, c: Cell)
    requires TypedCell(f, c)
    decreases f, 1
  {
    match f.htype
    case Required => false
    case Repeated => c.items == []
    case Oneof(_) => c.selected.None?
    case Optional => !c.has
    case Singular => IsDefaultItem(f, c.item)
  }

  predicate IsDefaultItem(f: Field, x: Item)
    requires Typed(f, x)
    decreases f, 0
  {
    match f.ltype
    case BytesArray => x.data == []
    case Str => x.chars == []
    case FixedBytes => f.dataSize == 0
    case SubMessage => IsDefaultMsg(f.sub, x.msg)
    case _ => x.v == 0
  }

  predicate IsDefaultMsg(d: Desc, m: Msg)
    requires TypedMsg(d, m)
    decreases d
  {
    forall i | 0 <= i < |d| :: IsDefaultCell(d[i], m[i])
  }

  // encode_basic_field
  function EncCell(f: Field, c: Cell): Option<bytes>
    requires TypedCell(f, c)
    decreases f, 4
  {
    match f.htype
    case Required => Tagged(f, c.item)
    case Optional => if c.has then Tagged(f, c.item) else Some([])
    case Singular => if IsDefaultItem(f, c.item) then Some([]) else Tagged(f, c.item)
    case Repeated => EncArray(f, c.items)
    case Oneof(_) => if c.selected.Some? then Tagged(f, c.selected.value) else Some([])
  }

  // pb_encode from field |i| on.
  function EncFrom(d: Desc, m: Msg, i: nat): Option<bytes>
    requires TypedMsg(d, m) && i <= |d|
    decreases d, |d| - i
  {
    if i == |d| then Some([]) else Join(EncCell(d[i], m[i]), EncFrom(d, m, i + 1))
  }

  function EncMsg(d: Desc, m: Msg): Option<bytes>
    requires TypedMsg(d, m)
    decreases d, |d| + 1
  {
    EncFrom(d, m, 0)
  }

  // --- Which messages decode again ---

  // Every length that is written stays below |limit|.
  predicate FitsItem(f: Field, x: Item, limit: nat)
    requires Typed(f, x)
    decreases f, 0
  {
    f.ltype.SubMessage? ==>
      FitsMsg(f.sub, x.msg, limit) && (EncMsg(f.sub, x.msg).Some? ==> |EncMsg(f.sub, x.msg).value| < limit)
  }

  predicate FitsCell(f: Field, c: Cell, limit: nat)
    requires TypedCell(f, c)
    decreases f, 1
  {
    match f.htype
    case Repeated =>
      && (forall k | 0 <= k < |c.items| :: FitsItem(f, c.items[k], limit))
      && (f.ltype.Packable() ==> |Packed(f, c.items)| < limit)
    case Oneof(_) => c.selected.Some? ==> FitsItem(f, c.selected.value, limit)
    case _ => FitsItem(f, c.item, limit)
  }

  predicate FitsMsg(d: Desc, m: Msg, limit: nat)
    requires TypedMsg(d, m)
    decreases d
  {
    forall i | 0 <= i < |d| :: FitsCell(d[i], m[i], limit)
  }

  // Every string that is written has its NUL within the buffer.
  predicate TerminatedItem(f: Field, x: Item)
    requires Typed(f, x)
    decreases f, 0
  {
    && (f.ltype.Str? ==> |x.chars| < f.dataSize)
    && (f.ltype.SubMessage? ==> TerminatedMsg(f.sub, x.msg))
  }

  predicate TerminatedCell(f: Field, c: Cell)
    requires TypedCell(f, c)
    decreases f, 1
  {
    match f.htype
    case Required => TerminatedItem(f, c.item)
    case Optional => c.has ==> TerminatedItem(f, c.item)
    case Singular => !IsDefaultItem(f, c.item) ==> TerminatedItem(f, c.item)
    case Repeated => forall k | 0 <= k < |c.items| :: TerminatedItem(f, c.items[k])
    case Oneof(_) => c.selected.Some? ==> TerminatedItem(f, c.selected.value)
  }

  predicate TerminatedMsg(d: Desc, m: Msg)
    requires TypedMsg(d, m)
    decreases d
  {
    forall i | 0 <= i < |d| :: TerminatedCell(d[i], m[i])
  }

  // What comes back: a member that is not written comes back as its default.
  function NormItem(f: Field, x: Item): Item
    requires Typed(f, x)
    decreases f, 0
  {
    if f.ltype.SubMessage? then Sub(NormMsg(f.sub, x.msg)) else x
  }

  function NormItems(f: Field, xs: seq<Item>): (r: seq<Item>)
    requires AllTyped(f, xs)
    ensures |r| == |xs|
    decreases f, 1
  {
    seq(|xs|, k requires 0 <= k < |xs| => NormItem(f, xs[k]))
  }

  function NormCell(f: Field, c: Cell): Cell
    requires TypedCell(f, c)
    decreases f, 2
  {
    match f.htype
    case Required => One(NormItem(f, c.item))
    case Optional => if c.has then Opt(true, NormItem(f, c.item)) else DefaultCell(f)
    case Singular => if IsDefaultItem(f, c.item) then DefaultCell(f) else One(NormItem(f, c.item))
    case Repeated => Many(NormItems(f, c.items))
    case Oneof(_) => if c.selected.Some? then Choice(Some(NormItem(f, c.selected.value))) else Choice(None)
  }

  function NormMsg(d: Desc, m: Msg): (r: Msg)
    requires TypedMsg(d, m)
    ensures |r| == |d|
    decreases d
  {
    seq(|d|, i requires 0 <= i < |d| => NormCell(d[i], m[i]))
  }
}
