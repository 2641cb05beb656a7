/** The receiving fields of DTLS1_STATE, updated in place, refining DtlsReceive. */
module DtlsReceiver {
  import opened Bytes
  import opened HandshakeWire
  import opened Reassembly
  import opened ReplayWindow
  import opened DtlsRecord
  import opened RecordTypes
  import opened IncomingRing
  import opened DtlsReceive

  function Initial(maxMessageLen: nat): (r: Receiver)
    ensures r.Valid()
  {
    Receiver(0, seq(MAX_FLIGHT, _ => None), 0, true, EMPTY, false, false, maxMessageLen)
  }

  class Connection {
    var readSeq: nat
    const ring: Ring
    var rEpoch: nat
    var nullCipher: bool
    const bitmap: Bitmap
    var hasCcs: bool
    var hasMessage: bool
    const maxMessageLen: nat

    ghost predicate Valid()
      reads this, bitmap, ring, ring.Repr
    {
      && ring.Valid() && bitmap.Valid()
      && {this, bitmap} !! ring.Repr
      && Abs().Valid()
    }

    ghost function Abs(): Receiver
      requires ring.Valid()
      reads this, bitmap, ring, ring.Repr
    {
      Receiver(readSeq, ring.Abs(), rEpoch, nullCipher, bitmap.Abs(), hasCcs, hasMessage, maxMessageLen)
    }

    constructor (maxMessageLen: nat)
      ensures Valid() && fresh(bitmap) && fresh(ring.Repr)
      ensures Abs() == Initial(maxMessageLen)
    {
      readSeq, rEpoch, nullCipher, hasCcs, hasMessage := 0, 0, true, false, false;
      ring := new Ring();
      bitmap := new Bitmap();
      this.maxMessageLen := maxMessageLen;
    }

    // dtls_open_record
    method OpenRecord(rec: Record) returns (out: Outcome)
      requires Valid() && rec.Valid()
      modifies bitmap
      ensures Valid() && (Abs(), out) == DtlsReceive.OpenRecord(old(Abs()), rec)
    {
      if rec.bodyLen > MAX_ENCRYPTED { return Discard; }
      if rec.Epoch() != rEpoch { return Discard; }
      var replay := bitmap.ShouldDiscard(rec.sequence);
      if replay { return Discard; }
      if !rec.authentic { return Discard; }
      if |rec.payload| > MAX_PLAIN { return Fail(RecordOverflow); }
      SequenceBound(rec.sequence);
      bitmap.Record(rec.sequence);
      out := if rec.typ == ALERT then AlertReceived else Success;
    }

    // The body of the loop of dtls1_open_handshake, with dtls1_get_incoming_message.
    method TakeFragment(hdr: Header, body: bytes) returns (out: Outcome)
      requires Valid() && hdr.Valid() && hdr.fragLen == |body|
      modifies ring.Repr
      ensures Valid() && fresh(ring.Repr - old(ring.Repr))
      ensures (Abs(), out) == DtlsReceive.TakeFragment(old(Abs()), hdr, body)
    {
      if hdr.fragOff > hdr.msgLen || hdr.fragOff + hdr.fragLen > hdr.msgLen || hdr.msgLen > maxMessageLen {
        return Fail(IllegalParameter);
      }
      if rEpoch == 1 && hdr.seq_ != readSeq { return Fail(UnexpectedMessage); }
      if hdr.seq_ < readSeq || hdr.seq_ > readSeq + MAX_FLIGHT { return Success; }
      if hdr.seq_ - readSeq >= MAX_FLIGHT { return Fail(InternalError); }

      var ok := ring.Take(hdr.seq_ % MAX_FLIGHT, hdr, body);
      out := if ok then Success else Fail(IllegalParameter);
    }

    // dtls1_open_handshake
    method OpenHandshake(rec: Record) returns (out: Outcome)
      requires Valid() && rec.Valid()
      modifies this, bitmap, ring.Repr
      ensures Valid() && fresh(ring.Repr - old(ring.Repr))
      ensures (Abs(), out) == DtlsReceive.OpenHandshake(old(Abs()), rec)
    {
      out := OpenRecord(rec);
      if out != Success { return; }
      if rec.typ == APPLICATION_DATA {
        return if nullCipher then Fail(UnexpectedMessage) else Discard;
      } else if rec.typ == CHANGE_CIPHER_SPEC {
        if !nullCipher { return Fail(UnexpectedMessage); }
        if rec.payload != CCS_BODY { return Fail(IllegalParameter); }
        hasCcs := true;
        return;
      } else if rec.typ != HANDSHAKE {
        return Fail(UnexpectedMessage);
      }

      var cbs := rec.payload;
      ghost var start := Abs();
      while cbs != []
        invariant Valid() && fresh(ring.Repr - old(ring.Repr))
        invariant TakeFragments(Abs(), cbs) == TakeFragments(start, rec.payload)
        decreases |cbs|
      {
        var parsed := ParseFragment(cbs);
        if parsed == None { return Fail(DecodeError); }
        SerialiseInvertsParse(cbs);
        out := TakeFragment(parsed.value.hdr, parsed.value.body);
        if out.Fail? { return; }
        cbs := parsed.value.rest;
      }
      out := Success;
    }

    // dtls1_get_message
    method GetMessage() returns (m: Option<Message>)
      requires Valid()
      modifies this
      ensures Valid() && (Abs(), m) == DtlsReceive.GetMessage(old(Abs()))
    {
      var complete := ring.IsComplete(readSeq % MAX_FLIGHT);
      if !complete { return None; }
      var frag := ring.frags[readSeq % MAX_FLIGHT];
      CompleteMeansNoMask(frag);
      WholeBuffer(frag);
      assert Abs().Current() == Some(frag.Abs());
      m := Some(Message(frag.typ, frag.data[HEADER_LENGTH..], frag.data[..]));
      hasMessage := true;
    }

    // dtls1_next_message
    method NextMessage()
      requires Valid() && Abs().hasMessage && Abs().CurrentComplete()
      modifies this, ring.Repr
      ensures Valid() && Abs() == DtlsReceive.NextMessage(old(Abs()))
    {
      ghost var was := Abs();
      ring.Reset(readSeq % MAX_FLIGHT);
      readSeq := (readSeq + 1) % U16;
      hasMessage := false;
      assert Abs() == DtlsReceive.NextMessage(was);
    }

    // dtls_has_unprocessed_handshake_data
    method HasUnprocessed() returns (b: bool)
      requires Valid()
      ensures b == HasUnprocessedData(Abs())
    {
      if hasCcs { return true; }
      for i := 0 to MAX_FLIGHT
        invariant forall j | 0 <= j < i :: (hasMessage && j == readSeq % MAX_FLIGHT) || Abs().slots[j].None?
      {
        if !(hasMessage && i == readSeq % MAX_FLIGHT) && ring.frags[i] != null {
          assert Abs().slots[i].Some?;
          return true;
        }
      }
      b := false;
    }

    // dtls1_set_read_state
    method SetReadState(nullCipher_: bool) returns (ok: bool)
      requires Valid()
      modifies this, bitmap
      ensures Valid() && (Abs(), ok) == DtlsReceive.SetReadState(old(Abs()), nullCipher_)
    {
      hide HasUnprocessedData;
      ghost var was := Abs();
      var leftover := HasUnprocessed();
      if leftover { return false; }
      rEpoch := (rEpoch + 1) % U16;
      bitmap.Reset();
      nullCipher := nullCipher_;
      ok := true;
      assert Abs() == was.(rEpoch := rEpoch, window := EMPTY, nullCipher := nullCipher_);
    }

    // dtls1_open_change_cipher_spec
    method OpenChangeCipherSpec(rec: Record) returns (out: Outcome)
      requires Valid() && rec.Valid()
      modifies this, bitmap, ring.Repr
      ensures Valid() && fresh(ring.Repr - old(ring.Repr))
      ensures (Abs(), out) == DtlsReceive.OpenChangeCipherSpec(old(Abs()), rec)
    {
      if !hasCcs {
        out := OpenHandshake(rec);
        if out != Success { return; }
      }
      if hasCcs {
        hasCcs := false;
        return Success;
      }
      out := Discard;
    }
  }

  lemma WholeBuffer(f: HmFragment)
    requires f.Valid() && f.reassembly == null
    ensures f.Abs().Complete() && f.data[..] == f.Abs().Raw() && f.data[HEADER_LENGTH..] == f.Abs().Body()
  {
    assert forall i | 0 <= i < f.msgLen :: f.Has(i);
    assert f.data[HEADER_LENGTH..] == f.Abs().Body();
    assert f.data[..] == f.data[..HEADER_LENGTH] + f.data[HEADER_LENGTH..];
  }
}
