/** nanopb descriptors and messages (pb.h): what a pb_field_t array says about a struct
    with statically allocated fields, and what such a struct holds. Numbers are the
    values of the C variables; the field widths are those of PB_FIELD_32BIT. */
module PbTypes {
  import opened Bytes
  import opened Words

  // PB_LTYPE; extensions are left out.
  datatype LType = Varint | UVarint | SVarint | Fixed32 | Fixed64 | BytesArray | Str | SubMessage | FixedBytes {
    // <= PB_LTYPE_LAST_PACKABLE
    predicate Packable() {
      Varint? || UVarint? || SVarint? || Fixed32? || Fixed64?
    }
  }

  // PB_HTYPE; Singular is PB_HTYPE_OPTIONAL without a has_ member (proto3).
  datatype HType = Required | Optional | Singular | Repeated | Oneof(group: nat)

  // pb_field_t. |dataOffset| is relative to the end of the previous member and
  // |sizeOffset| to the member itself; |sub| describes a submessage; |default| is the
  // initial value, None for zeros.
  datatype Field = Field(
    tag: nat,
    ltype: LType,
    htype: HType,
    dataOffset: nat,
    sizeOffset: int,
    dataSize: nat,
    arraySize: nat,
    sub: seq<Field>,
    default: Option<Item>)

  // One value. A string is its buffer up to the first NUL, or the whole buffer if none.
  datatype Item = Num(v: int) | Data(data: bytes) | Text(chars: bytes) | Sub(msg: seq<Cell>)

  // One member of the struct, with its has_, _count or which_ companion. A oneof member
  // holds a value exactly when which_ names it.
  datatype Cell = One(item: Item) | Opt(has: bool, item: Item) | Many(items: seq<Item>) | Choice(selected: Option<Item>)

  type Desc = seq<Field>
  type Msg = seq<Cell>

  const SIZE_MAX: nat := 0xffff_ffff
  const WORD32: nat := 0x1_0000_0000
  // offsetof(pb_bytes_array_t, bytes)
  const BYTES_HEADER: nat := 4

  // The number of values of a C integer of |size| octets.
  function Modulus(size: nat): nat {
    if size == 1 then 0x100 else if size == 2 then U16 else if size == 4 then WORD32 else WORD64
  }

  // Two's complement value of the low 8 * |size| bits of |v|.
  function Signed(v: int, size: nat): int {
    var m := Modulus(size);
    if v % m < m / 2 then v % m else v % m - m
  }

  predicate NumberSize(size: nat) {
    size == 1 || size == 2 || size == 4 || size == 8
  }

  // The values a C variable of the field's type and size can hold.
  predicate InRange(t: LType, size: nat, v: int) {
    match t
    case Varint => Signed(v, size) == v
    case SVarint => Signed(v, size) == v
    case UVarint => 0 <= v < Modulus(size)
    case Fixed32 => 0 <= v < WORD32
    case Fixed64 => 0 <= v < WORD64
    case _ => false
  }

  // A generated descriptor: distinct nonzero tags below 2^29, integer sizes of C types,
  // and defaults of the field's own type.
  predicate ValidDesc(d: Desc) {
    && (forall i | 0 <= i < |d| :: ValidField(d[i]))
    && (forall i, j | 0 <= i < j < |d| :: d[i].tag != d[j].tag)
  }

  predicate ValidField(f: Field) {
    && 0 < f.tag < 0x2000_0000
    && f.dataSize <= SIZE_MAX && f.arraySize <= SIZE_MAX
    && (f.ltype.Varint? || f.ltype.UVarint? || f.ltype.SVarint? ==> NumberSize(f.dataSize))
    && (f.ltype.Str? ==> f.dataSize > 0)
    && (f.ltype.BytesArray? ==> f.dataSize >= BYTES_HEADER)
    && (if f.ltype.SubMessage? then f.default.None? && ValidDesc(f.sub)
        else f.default.Some? ==> Typed(f, f.default.value) && InBounds(f, f.default.value))
  }

  // |x| is a value the struct can hold in a member described by |f|.
  predicate Typed(f: Field, x: Item) {
    match f.ltype
    case BytesArray => x.Data? && |x.data| <= SIZE_MAX
    case FixedBytes => x.Data? && |x.data| == f.dataSize
    case Str => x.Text? && |x.chars| <= f.dataSize && NoNul(x.chars)
    case SubMessage => x.Sub? && TypedMsg(f.sub, x.msg)
    case _ => x.Num? && InRange(f.ltype, f.dataSize, x.v)
  }

  // The value leaves room for a string's NUL, or for a byte array's size.
  predicate InBounds(f: Field, x: Item) {
    && (f.ltype.Str? && x.Text? ==> |x.chars| < f.dataSize)
    && (f.ltype.BytesArray? && x.Data? ==> BYTES_HEADER + |x.data| <= f.dataSize)
  }

  predicate NoNul(s: bytes) {
    forall i | 0 <= i < |s| :: s[i] != 0
  }

  predicate TypedCell(f: Field, c: Cell) {
    match f.htype
    case Required => c.One? && Typed(f, c.item)
    case Singular => c.One? && Typed(f, c.item)
    case Optional => c.Opt? && Typed(f, c.item)
    case Repeated => c.Many? && |c.items| <= SIZE_MAX && forall k | 0 <= k < |c.items| :: Typed(f, c.items[k])
    case Oneof(_) => c.Choice? && (c.selected.Some? ==> Typed(f, c.selected.value))
  }

  predicate TypedMsg(d: Desc, m: Msg) {
    && |m| == |d|
    && (forall i | 0 <= i < |d| :: TypedCell(d[i], m[i]))
    && OneSelected(d, m)
  }

  // which_ names at most one member of each oneof.
  predicate OneSelected(d: Desc, m: Msg)
    requires |m| == |d|
  {
    forall i, j | 0 <= i < |d| && 0 <= j < |d| && SameGroup(d[i], d[j]) && Selected(m[i]) && Selected(m[j]) :: i == j
  }

  predicate SameGroup(f: Field, g: Field) {
    f.htype.Oneof? && f.htype == g.htype
  }

  predicate Selected(c: Cell) {
    c.Choice? && c.selected.Some?
  }

  // pb_field_set_to_default and pb_message_set_to_defaults
  function DefaultItem(f: Field): Item
    decreases f, 0
  {
    if f.ltype.SubMessage? then Sub(Defaults(f.sub))
    else if f.default.Some? then f.default.value
    else match f.ltype
      case BytesArray => Data([])
      case FixedBytes => Data(Zeros(f.dataSize))
      case Str => Text([])
      case _ => Num(0)
  }

  function Zeros(n: nat): bytes {
    seq(n, _ => 0)
  }

  function DefaultCell(f: Field): Cell
    decreases f, 1
  {
    match f.htype
    case Required => One(DefaultItem(f))
    case Singular => One(DefaultItem(f))
    case Optional => Opt(false, DefaultItem(f))
    case Repeated => Many([])
    case Oneof(_) => Choice(None)
  }

  function Defaults(d: Desc): (m: Msg)
    ensures |m| == |d|
    decreases d
  {
    seq(|d|, i requires 0 <= i < |d| => DefaultCell(d[i]))
  }
}
