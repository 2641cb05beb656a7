/** What pb_decode makes of a byte string, as a function of the descriptor and of what the
    struct held before (pb_decode.c). None stands for every error. */
module PbDecode {
  import opened Bytes
  import opened PbTypes
  import opened PbVarint
  import opened PbEncode

  datatype TagRead = Tag(wireType: nat, tag: nat, rest: bytes) | EndMark | BadTag

  // pb_decode_tag; a zero tag ends the message.
  function ReadTag(b: bytes): (r: TagRead)
    ensures r.Tag? ==> |r.rest| < |b|
  {
    match DecVarint32(b)
    case None => BadTag
    case Some(read) =>
      if read.value == 0 then EndMark else Tag(read.value % 8, read.value / 8, read.rest)
  }

  // pb_skip_varint
  function SkipVarint(b: bytes): (r: Option<bytes>)
    ensures r.Some? ==> |r.value| < |b|
  {
    if b == [] then None else if b[0] < 0x80 then Some(b[1..]) else SkipVarint(b[1..])
  }

  // pb_skip_field
  function Skip(wireType: nat, b: bytes): (r: Option<bytes>)
    ensures r.Some? ==> |r.value| <= |b|
  {
    if wireType == WT_VARINT then SkipVarint(b)
    else if wireType == WT_64BIT then (if |b| < 8 then None else Some(b[8..]))
    else if wireType == WT_STRING then
      var s := Substream(b);
      if s.None? then None else Some(s.value.rest)
    else if wireType == WT_32BIT then (if |b| < 4 then None else Some(b[4..]))
    else None
  }

  // pb_make_string_substream and pb_close_string_substream: the delimited octets, and
  // what follows them.
  function Substream(b: bytes): (r: Option<Read<bytes>>)
    ensures r.Some? ==> |r.value.value| < |b| && |r.value.rest| < |b|
  {
    match DecVarint32(b)
    case None => None
    case Some(read) =>
      if |read.rest| < read.value then None
      else Some(Read(read.rest[..read.value], read.rest[read.value..]))
  }

  // The part of a buffer before its first NUL.
  function UpToNul(s: bytes): (r: bytes)
    ensures |r| <= |s| && NoNul(r)
  {
    if s == [] || s[0] == 0 then [] else [s[0]] + UpToNul(s[1..])
  }

  // pb_dec_varint .. pb_dec_fixed_length_bytes; |was| is what the member holds.
  function DecItem(f: Field, b: bytes, was: Item): (r: Option<Read<Item>>)
    requires ValidField(f) && Typed(f, was)
    ensures r.Some? ==> |r.value.rest| < |b| && Typed(f, r.value.value)
    decreases f, 0
  {
    if f.ltype.Packable() then
      match DecNumber(f.ltype, f.dataSize, b)
      case None => None
      case Some(n) => NumberTyped(f, b); Some(Read(Num(n.value), n.rest))
    else if f.ltype.SubMessage? then
      match Substream(b)
      case None => None
      case Some(s) =>
        var m := DecMsg(f.sub, s.value, was.msg);
        if m.None? then None else Some(Read(Sub(m.value), s.rest))
    else
      match DecVarint32(b)
      case None => None
      case Some(size) =>
        if f.ltype.FixedBytes? && size.value == 0 then Some(Read(Data(Zeros(f.dataSize)), size.rest))
        else if f.ltype.FixedBytes? && size.value != f.dataSize then None
        else if f.ltype.BytesArray? && BYTES_HEADER + size.value > f.dataSize then None
        else if f.ltype.Str? && size.value + 1 > f.dataSize then None
        else if |size.rest| < size.value then None
        else
          var data := size.rest[..size.value];
          Some(Read(if f.ltype.Str? then Text(UpToNul(data)) else Data(data), size.rest[size.value..]))
  }

  // The loop over a packed array: None when an entry is bad or there are too many.
  function DecPacked(f: Field, b: bytes, xs: seq<Item>): (r: Option<seq<Item>>)
    requires ValidField(f) && f.ltype.Packable() && AllTyped(f, xs)
    ensures r.Some? ==> AllTyped(f, r.value) && (|xs| <= f.arraySize ==> |r.value| <= f.arraySize)
    decreases |b|
  {
    if b == [] then Some(xs)
    else if |xs| >= f.arraySize then None
    else
      match DecNumber(f.ltype, f.dataSize, b)
      case None => None
      case Some(n) => NumberTyped(f, b); DecPacked(f, n.rest, xs + [Num(n.value)])
  }

  lemma NumberTyped(f: Field, b: bytes)
    requires ValidField(f) && f.ltype.Packable() && DecNumber(f.ltype, f.dataSize, b).Some?
    ensures Typed(f, Num(DecNumber(f.ltype, f.dataSize, b).value.value))
  {
    hide DecNumber, InRange;
    NumberInRange(f.ltype, f.dataSize, b);
  }

  // decode_static_field
  function DecCell(f: Field, wireType: nat, b: bytes, c: Cell): (r: Option<Read<Cell>>)
    requires ValidField(f) && TypedCell(f, c)
    ensures r.Some? ==> |r.value.rest| < |b| && TypedCell(f, r.value.value)
    decreases f, 1
  {
    match f.htype
    case Required => Wrapped(DecItem(f, b, c.item), x => One(x))
    case Singular => Wrapped(DecItem(f, b, c.item), x => One(x))
    case Optional => Wrapped(DecItem(f, b, c.item), x => Opt(true, x))
    case Oneof(_) => DefaultTyped(f); Wrapped(DecItem(f, b, DefaultItem(f)), x => Choice(Some(x)))
    case Repeated =>
      if wireType == WT_STRING && f.ltype.Packable() then
        match Substream(b)
        case None => None
        case Some(s) =>
          var xs := DecPacked(f, s.value, c.items);
          if xs.None? then None else Some(Read(Many(xs.value), s.rest))
      else if |c.items| >= f.arraySize then None
      else
        DefaultTyped(f);
        Wrapped(DecItem(f, b, DefaultItem(f)), x => Many(c.items + [x]))
  }

  function Wrapped(r: Option<Read<Item>>, wrap: Item -> Cell): Option<Read<Cell>> {
    if r.None? then None else Some(Read(wrap(r.value.value), r.value.rest))
  }

  lemma {:induction false} DefaultTyped(f: Field)
    requires ValidField(f)
    ensures Typed(f, DefaultItem(f))
    decreases f, 0
  {
    if f.ltype.SubMessage? { DefaultsTyped(f.sub); }
  }

  lemma {:induction false} DefaultsTyped(d: Desc)
    requires ValidDesc(d)
    ensures TypedMsg(d, Defaults(d))
    decreases d
  {
    forall i | 0 <= i < |d| ensures TypedCell(d[i], Defaults(d)[i]) {
      assert ValidField(d[i]);
      DefaultTyped(d[i]);
    }
  }

  // The member with |tag|, as pb_field_iter_find finds it.
  function Find(d: Desc, tag: nat): (r: Option<nat>)
    ensures r.Some? ==> r.value < |d| && d[r.value].tag == tag
    ensures r.None? ==> forall i | 0 <= i < |d| :: d[i].tag != tag
  {
    FindFrom(d, tag, 0)
  }

  function FindFrom(d: Desc, tag: nat, i: nat): (r: Option<nat>)
    requires i <= |d|
    ensures r.Some? ==> i <= r.value < |d| && d[r.value].tag == tag
    ensures r.None? ==> forall j | i <= j < |d| :: d[j].tag != tag
    decreases |d| - i
  {
    if i == |d| then None else if d[i].tag == tag then Some(i) else FindFrom(d, tag, i + 1)
  }

  // Storing a member; which_ of a oneof then names this member and no other.
  function SetCell(d: Desc, m: Msg, i: nat, c: Cell): (m': Msg)
    requires TypedMsg(d, m) && i < |d| && TypedCell(d[i], c)
    ensures TypedMsg(d, m')
  {
    seq(|d|, j requires 0 <= j < |d| =>
      if j == i then c else if SameGroup(d[i], d[j]) then Choice(None) else m[j])
  }

  // PB_MAX_REQUIRED_FIELDS
  const MAX_REQUIRED: nat := 64

  // required_field_index: the number of required fields before field |i|.
  function RequiredBefore(d: Desc, i: nat): nat
    requires i <= |d|
  {
    if i == 0 then 0 else RequiredBefore(d, i - 1) + if d[i - 1].htype.Required? then 1 else 0
  }

  // Each of the first 64 required fields was decoded.
  predicate RequiredSeen(d: Desc, seen: set<nat>) {
    forall i | 0 <= i < |d| && d[i].htype.Required? && RequiredBefore(d, i) < MAX_REQUIRED :: i in seen
  }

  // The update of fields_seen.
  function Mark(d: Desc, i: nat, seen: set<nat>): set<nat>
    requires i < |d|
  {
    if d[i].htype.Required? && RequiredBefore(d, i) < MAX_REQUIRED then seen + {i} else seen
  }

  // The loop of pb_decode_noinit.
  function DecLoop(d: Desc, b: bytes, m: Msg, seen: set<nat>): (r: Option<Msg>)
    requires ValidDesc(d) && TypedMsg(d, m)
    ensures r.Some? ==> TypedMsg(d, r.value)
    decreases d, |b|
  {
    if b == [] then Finish(d, m, seen)
    else
      match ReadTag(b)
      case BadTag => None
      case EndMark => Finish(d, m, seen)
      case Tag(wireType, tag, rest) =>
        if d == [] && tag == 0 then None
        else
          match Find(d, tag)
          case None =>
            var rest' := Skip(wireType, rest);
            if rest'.None? then None else DecLoop(d, rest'.value, m, seen)
          case Some(i) =>
            var read := DecCell(d[i], wireType, rest, m[i]);
            if read.None? then None
            else DecLoop(d, read.value.rest, SetCell(d, m, i, read.value.value), Mark(d, i, seen))
  }

  function Finish(d: Desc, m: Msg, seen: set<nat>): Option<Msg> {
    if RequiredSeen(d, seen) then Some(m) else None
  }

  // pb_decode_noinit
  function DecMsg(d: Desc, b: bytes, m: Msg): (r: Option<Msg>)
    requires ValidDesc(d) && TypedMsg(d, m)
    ensures r.Some? ==> TypedMsg(d, r.value)
    decreases d, |b| + 1
  {
    DecLoop(d, b, m, {})
  }

  // pb_decode
  function Decode(d: Desc, b: bytes): (r: Option<Msg>)
    requires ValidDesc(d)
    ensures r.Some? ==> TypedMsg(d, r.value)
  {
    DefaultsTyped(d);
    DecMsg(d, b, Defaults(d))
  }
}
