/** What the receiving half of a DTLS connection does, as functions on values:
    record acceptance (dtls_record.cc), the ring of incoming messages and the
    delivery of messages in order (d1_both.cc), and epoch switches (dtls_method.cc). */
module DtlsReceive {
  import opened Bytes
  import opened HandshakeWire
  import opened Reassembly
  import opened ReplayWindow
  import opened DtlsRecord
  import opened RecordTypes

  datatype Alert = InternalError | IllegalParameter | DecodeError | UnexpectedMessage | RecordOverflow

  // ssl_open_record_t; an alert record is handed to ssl_process_alert.
  datatype Outcome = Success | Discard | AlertReceived | Fail(alert: Alert)

  datatype Message = Message(typ: u8, body: bytes, raw: bytes)

  // The receiving fields of DTLS1_STATE.
  datatype Receiver = Receiver(
    readSeq: nat,
    slots: seq<Option<Slot>>,
    rEpoch: nat,
    nullCipher: bool,
    window: Window,
    hasCcs: bool,
    hasMessage: bool,
    maxMessageLen: nat)
  {
    // Every occupied slot holds a message of the current window, at its own index.
    predicate Valid() {
      && readSeq < U16 && rEpoch < U16
      && |slots| == MAX_FLIGHT
      && window.Valid()
      && forall i | 0 <= i < MAX_FLIGHT && slots[i].Some? ::
           SlotFits(slots[i].value, i)
    }

    predicate SlotFits(s: Slot, i: nat) {
      s.Valid() && s.seq_ % MAX_FLIGHT == i && readSeq <= s.seq_ < readSeq + MAX_FLIGHT
    }

    function Current(): Option<Slot>
      requires Valid()
    {
      slots[readSeq % MAX_FLIGHT]
    }

    // dtls1_is_current_message_complete
    predicate CurrentComplete()
      requires Valid()
    {
      Current().Some? && Current().value.Complete()
    }
  }

  // dtls_open_record, once the version has been accepted.
  function OpenRecord(r: Receiver, rec: Record): (res: (Receiver, Outcome))
    requires r.Valid() && rec.Valid()
    ensures res.0.Valid() && res.0 == r.(window := res.0.window)
    ensures res.1 == Discard || res.1.Fail? ==> res.0 == r
    ensures res.1 == Success || res.1 == AlertReceived ==>
      && rec.Epoch() == r.rEpoch && rec.authentic
      && rec.Number() !in r.window.seen && res.0.window.seen == r.window.seen + {rec.Number()}
  {
    if rec.bodyLen > MAX_ENCRYPTED then (r, Discard)
    else if rec.Epoch() != r.rEpoch || r.window.Discards(rec.Number()) then (r, Discard)
    else if !rec.authentic then (r, Discard)
    else if |rec.payload| > MAX_PLAIN then (r, Fail(RecordOverflow))
    else
      SequenceBound(rec.sequence);
      var r' := r.(window := r.window.Recorded(rec.Number()));
      if rec.typ == ALERT then (r', AlertReceived) else (r', Success)
  }

  lemma SequenceBound(b: bytes)
    requires |b| == 8
    ensures BigEndian(b) < U64
  {
    BigEndianBound(b);
    assert Pow256(4) == 0x1_0000_0000;
    assert Pow256(8) == U64;
  }

  // One round of the loop of dtls1_open_handshake: the checks, the ring lookup of
  // dtls1_get_incoming_message, and the copy into the slot.
  function TakeFragment(r: Receiver, hdr: Header, body: bytes): (res: (Receiver, Outcome))
    requires r.Valid() && hdr.Valid() && hdr.fragLen == |body|
    ensures res.0.Valid() && res.0 == r.(slots := res.0.slots)
  {
    if hdr.fragOff + hdr.fragLen > hdr.msgLen || hdr.msgLen > r.maxMessageLen then
      (r, Fail(IllegalParameter))
    else if r.rEpoch == 1 && hdr.seq_ != r.readSeq then
      (r, Fail(UnexpectedMessage))
    else if hdr.seq_ < r.readSeq || hdr.seq_ > r.readSeq + MAX_FLIGHT then
      (r, Success)
    else if hdr.seq_ - r.readSeq >= MAX_FLIGHT then
      (r, Fail(InternalError))
    else
      var idx := hdr.seq_ % MAX_FLIGHT;
      match TakeInto(r.slots[idx], hdr, body)
      case None => (r, Fail(IllegalParameter))
      case Some(s) => (r.(slots := r.slots[idx := Some(s)]), Success)
  }

  // The loop of dtls1_open_handshake over the fragments packed into one record.
  function TakeFragments(r: Receiver, b: bytes): (res: (Receiver, Outcome))
    requires r.Valid()
    ensures res.0.Valid() && res.0 == r.(slots := res.0.slots)
    decreases |b|
  {
    if b == [] then (r, Success)
    else match ParseFragment(b)
      case None => (r, Fail(DecodeError))
      case Some(p) =>
        SerialiseInvertsParse(b);
        var (r', out) := TakeFragment(r, p.hdr, p.body);
        if out.Fail? then (r', out) else TakeFragments(r', p.rest)
  }

  // dtls1_open_handshake
  function OpenHandshake(r: Receiver, rec: Record): (res: (Receiver, Outcome))
    requires r.Valid() && rec.Valid()
    ensures res.0.Valid()
  {
    var (r', out) := OpenRecord(r, rec);
    if out != Success then (r', out)
    else if rec.typ == APPLICATION_DATA then
      (r', if r.nullCipher then Fail(UnexpectedMessage) else Discard)
    else if rec.typ == CHANGE_CIPHER_SPEC then
      if !r.nullCipher then (r', Fail(UnexpectedMessage))
      else if rec.payload != CCS_BODY then (r', Fail(IllegalParameter))
      else (r'.(hasCcs := true), Success)
    else if rec.typ == HANDSHAKE then TakeFragments(r', rec.payload)
    else (r', Fail(UnexpectedMessage))
  }

  // dtls1_get_message
  function GetMessage(r: Receiver): (res: (Receiver, Option<Message>))
    requires r.Valid()
    ensures res.0.Valid()
  {
    if !r.CurrentComplete() then (r, None)
    else
      var s := r.Current().value;
      (r.(hasMessage := true), Some(Message(s.typ, s.Body(), s.Raw())))
  }

  // dtls1_next_message; the 16-bit counter wraps.
  function NextMessage(r: Receiver): (r': Receiver)
    requires r.Valid() && r.hasMessage && r.CurrentComplete()
    ensures r'.Valid()
  {
    var idx := r.readSeq % MAX_FLIGHT;
    var r' := r.(slots := r.slots[idx := None], readSeq := (r.readSeq + 1) % U16, hasMessage := false);
    RingAdvances(r);
    r'
  }

  // Sliding the window keeps every slot where it was, even when the counter wraps.
  lemma RingAdvances(r: Receiver)
    requires r.Valid()
    ensures forall i | 0 <= i < MAX_FLIGHT && i != r.readSeq % MAX_FLIGHT && r.slots[i].Some? ::
      && r.readSeq + 1 < U16
      && r.readSeq + 1 <= r.slots[i].value.seq_ < r.readSeq + 1 + MAX_FLIGHT
  {
    forall i | 0 <= i < MAX_FLIGHT && i != r.readSeq % MAX_FLIGHT && r.slots[i].Some?
      ensures r.readSeq + 1 < U16 && r.readSeq + 1 <= r.slots[i].value.seq_ < r.readSeq + 1 + MAX_FLIGHT
    {
      assert r.SlotFits(r.slots[i].value, i);
    }
  }

  // A fragment never touches a complete message at the front: the assertions of
  // dtls1_next_message hold whenever dtls1_get_message has set has_message.
  lemma CompleteStays(r: Receiver, hdr: Header, body: bytes)
    requires r.Valid() && hdr.Valid() && hdr.fragLen == |body| && r.CurrentComplete()
    ensures TakeFragment(r, hdr, body).0.CurrentComplete()
    ensures TakeFragment(r, hdr, body).0.Current() == r.Current()
  {}

  lemma {:induction false} CompleteKept(r: Receiver, b: bytes)
    requires r.Valid() && r.CurrentComplete()
    ensures TakeFragments(r, b).0.CurrentComplete()
    ensures TakeFragments(r, b).0.Current() == r.Current()
    decreases |b|
  {
    hide TakeFragment, ParseFragment;
    if b != [] && ParseFragment(b).Some? {
      var p := ParseFragment(b).value;
      SerialiseInvertsParse(b);
      CompleteStays(r, p.hdr, p.body);
      var (r', out) := TakeFragment(r, p.hdr, p.body);
      if !out.Fail? { CompleteKept(r', p.rest); }
    }
  }

  // dtls_has_unprocessed_handshake_data
  predicate HasUnprocessedData(r: Receiver)
    requires r.Valid()
  {
    || r.hasCcs
    || exists i | 0 <= i < MAX_FLIGHT ::
         !(r.hasMessage && i == r.readSeq % MAX_FLIGHT) && r.slots[i].Some?
  }

  // dtls1_set_read_state: false when the current epoch has leftover data.
  function SetReadState(r: Receiver, nullCipher: bool): (res: (Receiver, bool))
    requires r.Valid()
    ensures res.0.Valid()
  {
    if HasUnprocessedData(r) then (r, false)
    else (r.(rEpoch := (r.rEpoch + 1) % U16, window := EMPTY, nullCipher := nullCipher), true)
  }

  // dtls1_open_change_cipher_spec
  function OpenChangeCipherSpec(r: Receiver, rec: Record): (res: (Receiver, Outcome))
    requires r.Valid() && rec.Valid()
    ensures res.0.Valid()
  {
    var (r', out) := if r.hasCcs then (r, Success) else OpenHandshake(r, rec);
    if out != Success then (r', out)
    else if r'.hasCcs then (r'.(hasCcs := false), Success)
    else (r', Discard)
  }
}
