/** Reassembly of one handshake message (hm_fragment in d1_both.cc): a byte buffer and
    a bitmask, refining the body's positions with the byte received at each. */
module Reassembly {
  import opened Bytes
  import opened HandshakeWire

  // What an hm_fragment stands for: for each position of the body, the byte received, if any.
  datatype Slot = Slot(typ: u8, seq_: nat, got: seq<Option<u8>>) {
    predicate Valid() {
      seq_ < U16 && |got| < U24
    }

    predicate Complete() {
      forall i | 0 <= i < |got| :: got[i].Some?
    }

    function Body(): (b: bytes)
      requires Complete()
    {
      seq(|got|, i requires 0 <= i < |got| => got[i].value)
    }

    // The message as handed to the handshake: its rebuilt header, then the body.
    function Raw(): (m: bytes)
      requires Valid() && Complete()
    {
      WholeMessage(typ, seq_, Body())
    }

    // A fragment that arrives while bytes are missing overwrites its range.
    function Marked(off: nat, body: bytes): (s: Slot)
      requires off + |body| <= |got|
      ensures Valid() ==> s.Valid()
    {
      this.(got := seq(|got|, i requires 0 <= i < |got| =>
        if off <= i < off + |body| then Some(body[i - off]) else got[i]))
    }
  }

  // dtls1_hm_fragment_new
  function FreshSlot(hdr: Header): Slot {
    Slot(hdr.typ, hdr.seq_, seq(hdr.msgLen, _ => None))
  }

  // The lookup of dtls1_get_incoming_message and the copy that follows it: the first
  // fragment opens the slot, later ones must agree with it, and a complete message is
  // left alone. None when the fragment does not agree.
  function TakeInto(slot: Option<Slot>, hdr: Header, body: bytes): (r: Option<Slot>)
    requires hdr.fragOff + |body| <= hdr.msgLen
  {
    var s := if slot.Some? then slot.value else FreshSlot(hdr);
    if s.typ != hdr.typ || |s.got| != hdr.msgLen then None
    else if s.Complete() then Some(s)
    else Some(s.Marked(hdr.fragOff, body))
  }

  predicate BitSet(b: bv8, k: nat)
    requires k < 8
  {
    (b >> k) & 1 == 1
  }

  function LowBits(n: nat): bv32
    requires n <= 8
  {
    ((1 as bv32) << n) - 1
  }

  // bit_range: the byte with bits |start|, inclusive, to |end|, exclusive, set.
  function BitRange(start: nat, end: nat): bv8
    requires start <= 8 && end <= 8
  {
    ((!LowBits(start) & LowBits(end)) & 0xff) as bv8
  }

  lemma BitRangeBits(start: nat, end: nat, k: nat)
    requires start <= 8 && end <= 8 && k < 8
    ensures BitSet(BitRange(start, end), k) == (start <= k < end)
  {}

  lemma OrBits(a: bv8, b: bv8, k: nat)
    requires k < 8
    ensures BitSet(a | b, k) == (BitSet(a, k) || BitSet(b, k))
  {}

  // A byte is determined by its bits.
  lemma SameBits(a: bv8, b: bv8)
    requires forall k | 0 <= k < 8 :: BitSet(a, k) == BitSet(b, k)
    ensures a == b
  {
    assert BitSet(a, 0) == BitSet(b, 0) && BitSet(a, 1) == BitSet(b, 1);
    assert BitSet(a, 2) == BitSet(b, 2) && BitSet(a, 3) == BitSet(b, 3);
    assert BitSet(a, 4) == BitSet(b, 4) && BitSet(a, 5) == BitSet(b, 5);
    assert BitSet(a, 6) == BitSet(b, 6) && BitSet(a, 7) == BitSet(b, 7);
  }

  // Bit |i| of the mask, in the order the receiver numbers the body's bytes.
  predicate MaskBit(mask: seq<bv8>, i: nat)
    requires i < 8 * |mask|
  {
    BitSet(mask[i / 8], i % 8)
  }

  // frag->reassembly[p] |= bit_range(lo, hi)
  method OrInto(mask: array<bv8>, p: nat, lo: nat, hi: nat)
    requires p < mask.Length && lo <= 8 && hi <= 8
    modifies mask
    ensures forall i | 0 <= i < 8 * mask.Length ::
      MaskBit(mask[..], i) == (old(MaskBit(mask[..], i)) || 8 * p + lo <= i < 8 * p + hi)
  {
    ghost var was := mask[..];
    var r := BitRange(lo, hi);
    mask[p] := mask[p] | r;
    forall i | 0 <= i < 8 * mask.Length
      ensures MaskBit(mask[..], i) == (MaskBit(was, i) || 8 * p + lo <= i < 8 * p + hi)
    {
      if i / 8 == p {
        OrBits(was[p], r, i % 8);
        BitRangeBits(lo, hi, i % 8);
      }
    }
  }

  lemma FullByte(k: nat)
    requires k < 8
    ensures BitSet(0xff, k)
  {}

  // The marking half of dtls1_hm_fragment_mark.
  method MarkRange(mask: array<bv8>, start: nat, end: nat)
    requires start < end <= 8 * mask.Length
    modifies mask
    ensures forall i | 0 <= i < 8 * mask.Length ::
      MaskBit(mask[..], i) == (old(MaskBit(mask[..], i)) || start <= i < end)
  {
    if start / 8 == end / 8 {
      OrInto(mask, start / 8, start % 8, end % 8);
    } else {
      OrInto(mask, start / 8, start % 8, 8);
      var p := start / 8 + 1;
      while p < end / 8
        invariant start / 8 + 1 <= p <= end / 8
        invariant forall i | 0 <= i < 8 * mask.Length ::
          MaskBit(mask[..], i) == (old(MaskBit(mask[..], i)) || start <= i < 8 * p)
      {
        ghost var was := mask[..];
        mask[p] := 0xff;
        forall i | 0 <= i < 8 * mask.Length
          ensures MaskBit(mask[..], i) == (MaskBit(was, i) || 8 * p <= i < 8 * p + 8)
        {
          if i / 8 == p { FullByte(i % 8); }
        }
        p := p + 1;
      }
      if end % 8 != 0 {
        OrInto(mask, end / 8, 0, end % 8);
      }
    }
  }

  // The completeness test of dtls1_hm_fragment_mark: it looks at whole bytes, and
  // relies on the bits past the message never being set.
  method AllMarked(mask: array<bv8>, msgLen: nat) returns (full: bool)
    requires mask.Length == (msgLen + 7) / 8
    requires forall i | msgLen <= i < 8 * mask.Length :: !MaskBit(mask[..], i)
    ensures full == forall i | 0 <= i < msgLen :: MaskBit(mask[..], i)
  {
    for p := 0 to msgLen / 8
      invariant forall i | 0 <= i < 8 * p :: MaskBit(mask[..], i)
    {
      if mask[p] != 0xff {
        if forall i | 8 * p <= i < 8 * p + 8 :: MaskBit(mask[..], i) {
          forall k | 0 <= k < 8 ensures BitSet(mask[p], k) == BitSet(0xff, k) {
            assert MaskBit(mask[..], 8 * p + k);
            FullByte(k);
          }
          SameBits(mask[p], 0xff);
        }
        return false;
      }
      forall i | 8 * p <= i < 8 * p + 8 ensures MaskBit(mask[..], i) { FullByte(i % 8); }
    }
    full := true;
    if msgLen % 8 != 0 {
      var last := BitRange(0, msgLen % 8);
      full := mask[msgLen / 8] == last;
      LastByte(mask[..], msgLen);
    }
  }

  lemma LastByte(mask: seq<bv8>, msgLen: nat)
    requires |mask| == (msgLen + 7) / 8 && msgLen % 8 != 0
    requires forall i | msgLen <= i < 8 * |mask| :: !MaskBit(mask, i)
    ensures mask[msgLen / 8] == BitRange(0, msgLen % 8) <==>
            forall i | msgLen - msgLen % 8 <= i < msgLen :: MaskBit(mask, i)
  {
    var p := msgLen / 8;
    var last := BitRange(0, msgLen % 8);
    forall k | 0 <= k < 8 ensures BitSet(last, k) == (k < msgLen % 8) {
      BitRangeBits(0, msgLen % 8, k);
    }
    if forall i | 8 * p <= i < msgLen :: MaskBit(mask, i) {
      forall k | 0 <= k < 8 ensures BitSet(mask[p], k) == BitSet(last, k) {
        assert MaskBit(mask, 8 * p + k) == BitSet(mask[p], k);
      }
      SameBits(mask[p], last);
    }
  }

  class HmFragment {
    const typ: u8
    const seq_: nat
    const msgLen: nat
    const data: array<u8>
    var reassembly: array?<bv8>

    ghost predicate Valid()
      reads this, data, reassembly
    {
      && seq_ < U16 && msgLen < U24
      && data.Length == HEADER_LENGTH + msgLen
      && data[..HEADER_LENGTH] == PutHeader(Header(typ, msgLen, seq_, 0, msgLen))
      && (reassembly != null ==>
            && reassembly.Length == (msgLen + 7) / 8
            && (forall i | msgLen <= i < 8 * reassembly.Length :: !MaskBit(reassembly[..], i))
            && !forall i | 0 <= i < msgLen :: MaskBit(reassembly[..], i))
    }

    ghost function Footprint(): set<object>
      reads this
    {
      {this, data} + if reassembly == null then {} else {reassembly}
    }

    ghost predicate Has(i: nat)
      requires Valid() && i < msgLen
      reads this, data, reassembly
    {
      reassembly == null || MaskBit(reassembly[..], i)
    }

    ghost function Abs(): (s: Slot)
      requires Valid()
      reads this, data, reassembly
    {
      Slot(typ, seq_, seq(msgLen, i requires 0 <= i < msgLen && Valid() reads this, data, reassembly =>
        if Has(i) then Some(data[HEADER_LENGTH + i]) else None))
    }

    // dtls1_hm_fragment_new
    constructor (hdr: Header)
      requires hdr.Valid()
      ensures Valid() && Abs() == FreshSlot(hdr)
      ensures fresh(Footprint())
    {
      typ, seq_, msgLen := hdr.typ, hdr.seq_, hdr.msgLen;
      data := new u8[HEADER_LENGTH + hdr.msgLen];
      if hdr.msgLen > 0 {
        reassembly := new bv8[(hdr.msgLen + 7) / 8](_ => 0);
      } else {
        reassembly := null;
      }
      new;
      var h := PutHeader(Header(typ, msgLen, seq_, 0, msgLen));
      forall i | 0 <= i < HEADER_LENGTH { data[i] := h[i]; }
      assert data[..HEADER_LENGTH] == h;
      if reassembly != null {
        forall i | 0 <= i < 8 * reassembly.Length ensures !MaskBit(reassembly[..], i) {
          assert reassembly[i / 8] == 0;
        }
        assert !MaskBit(reassembly[..], 0);
      }
    }

    // The memcpy of dtls1_open_handshake followed by dtls1_hm_fragment_mark.
    method Accept(off: nat, body: bytes)
      requires Valid() && reassembly != null && off + |body| <= msgLen
      modifies this, data, reassembly
      ensures Valid() && Abs() == old(Abs()).Marked(off, body)
      ensures Footprint() <= old(Footprint())
    {
      hide PutHeader, BitSet;
      ghost var was, before := Abs(), reassembly[..];
      forall i | 0 <= i < |body| { data[HEADER_LENGTH + off + i] := body[i]; }
      assert data[..HEADER_LENGTH] == old(data[..HEADER_LENGTH]);
      if |body| == 0 {
        return;
      }
      assert reassembly[..] == before;
      MarkRange(reassembly, off, off + |body|);
      forall i | msgLen <= i < 8 * reassembly.Length ensures !MaskBit(reassembly[..], i) {
        assert !MaskBit(before, i);
      }
      var full := AllMarked(reassembly, msgLen);
      ghost var mask := reassembly[..];
      if full { reassembly := null; }
      assert Valid();
      forall i | 0 <= i < msgLen ensures Abs().got[i] == was.Marked(off, body).got[i] {
        assert MaskBit(mask, i) ==> Has(i);
      }
    }
  }
}
