/** What the sending half of a DTLS connection does, as functions on values: queueing a
    flight, fragmenting it into packets, writing, resuming and retransmitting it
    (d1_both.cc), sealing records (dtls_record.cc) and epoch switches (dtls_method.cc). */
module DtlsSend {
  import opened Bytes
  import opened HandshakeWire
  import opened DtlsRecord
  import opened RecordTypes

  // DTLS_OUTGOING_MESSAGE
  datatype Outgoing = Outgoing(data: bytes, epoch: nat, isCcs: bool)

  type Packet = seq<Record>

  // The sending fields of DTLS1_STATE and SSL3_STATE. The record numbers are the low
  // six octets of write_sequence and last_write_sequence.
  datatype Sender = Sender(
    outgoing: seq<Outgoing>,
    written: nat,
    offset: nat,
    complete: bool,
    writeSeq: nat,
    transcript: seq<bytes>,
    wEpoch: nat,
    writeSequence: bytes,
    lastWriteSequence: bytes,
    aead: Aead,
    lastAead: Aead,
    mtu: nat,
    shutdown: bool)
  {
    predicate Valid() {
      && |outgoing| <= MAX_FLIGHT && written <= |outgoing|
      && writeSeq < U16 && wEpoch < U16
      && |writeSequence| == 6 && |lastWriteSequence| == 6
      && (offset > 0 ==> written < |outgoing| && !outgoing[written].isCcs)
    }

    // get_write_aead and dtls_max_seal_overhead
    function AeadFor(previous: bool): Aead {
      if previous then lastAead else aead
    }

    // The epoch and the next record number of either epoch in use.
    function EpochFor(previous: bool): nat
      requires Valid() && (previous ==> wEpoch >= 1)
    {
      if previous then wEpoch - 1 else wEpoch
    }

    function NumberFor(previous: bool): bytes {
      if previous then lastWriteSequence else writeSequence
    }

    function Overhead(previous: bool): nat {
      RECORD_HEADER + AeadFor(previous).MaxOverhead()
    }
  }

  // What a failing call leaves on the error queue.
  datatype Err = NoErr | SequenceOverflow | RecordTooLong | BufferTooSmall | Internal | MtuTooSmall | Blocked | Shutdown

  datatype Sealed = SealedRecord(rec: Record, len: nat) | NotSealed(err: Err)

  predicate SealedUnder(epoch: nat, rec: Record) {
    rec.Valid() && rec.authentic && rec.Epoch() == epoch
  }

  // dtls_seal_record. The record number is spent even when the last check fails.
  function SealRecord(s: Sender, maxOut: nat, typ: u8, payload: bytes, previous: bool): (r: (Sender, Sealed))
    requires s.Valid() && (previous ==> s.wEpoch >= 1)
    ensures Frame(s, r.0) && r.0.offset == s.offset
    ensures r.1.SealedRecord? ==>
      && RECORD_HEADER <= r.1.len <= maxOut
      && r.1.rec.typ == typ && r.1.rec.payload == payload && SealedUnder(s.EpochFor(previous), r.1.rec)
      && r.1.rec.bodyLen == s.AeadFor(previous).SealedLen(|payload|)
      && r.1.rec.sequence == Put16(s.EpochFor(previous)) + s.NumberFor(previous)
      && Increment(s.NumberFor(previous)) == (r.0.NumberFor(previous), true)
    ensures r.0.NumberFor(!previous) == s.NumberFor(!previous)
  {
    var aead, number := s.AeadFor(previous), s.NumberFor(previous);
    if maxOut < RECORD_HEADER || aead.SealedLen(|payload|) > maxOut - RECORD_HEADER then
      (s, NotSealed(BufferTooSmall))
    else
      var (next, ok) := Increment(number);
      var s' := if previous then s.(lastWriteSequence := next) else s.(writeSequence := next);
      if !ok then (s', NotSealed(SequenceOverflow))
      else if aead.SealedLen(|payload|) >= U16 then (s', NotSealed(RecordTooLong))
      else
        var rec := Record(typ, Put16(s.EpochFor(previous)) + number, payload, aead.SealedLen(|payload|), true);
        Numbered(rec, s.EpochFor(previous), number);
        (s', SealedRecord(rec, RECORD_HEADER + aead.SealedLen(|payload|)))
  }

  datatype SealOutcome =
    | SealError(err: Err)
    | NoProgress
    | Partial(rec: Record, len: nat)
    | Done(rec: Record, len: nat)

  // The ChangeCipherSpec branch of seal_next_message.
  function SealCcs(s: Sender, maxOut: nat, previous: bool): (r: (Sender, SealOutcome))
    requires s.Valid() && (previous ==> s.wEpoch >= 1)
    ensures Frame(s, r.0) && r.0.offset == s.offset && LengthsFit(r.1, maxOut)
    ensures !r.1.Partial?
    ensures r.1.Done? ==> SealedUnder(s.EpochFor(previous), r.1.rec)
  {
    hide SealedUnder;
    if maxOut < |CCS_BODY| + s.Overhead(previous) then (s, NoProgress)
    else
      var (s', sealed) := SealRecord(s, maxOut, CHANGE_CIPHER_SPEC, CCS_BODY, previous);
      if sealed.NotSealed? then (s', SealError(sealed.err)) else (s', Done(sealed.rec, sealed.len))
  }

  // The handshake branch of seal_next_message, for a message that parses to |p|.
  function SealFragment(s: Sender, maxOut: nat, p: Parsed, previous: bool): (r: (Sender, SealOutcome))
    requires s.Valid() && (previous ==> s.wEpoch >= 1)
    requires s.written < |s.outgoing| && !s.outgoing[s.written].isCcs
    requires p.hdr.Valid() && p.hdr.msgLen == |p.body| && s.offset <= |p.body|
    ensures Frame(s, r.0) && LengthsFit(r.1, maxOut)
    ensures r.1.Partial? ==> s.offset < r.0.offset < |p.body|
    ensures r.1.Done? ==> r.0.offset == 0
    ensures r.1.Partial? || r.1.Done? ==> SealedUnder(s.EpochFor(previous), r.1.rec)
  {
    hide SealedUnder;
    var overhead := s.Overhead(previous);
    var prefix := RECORD_HEADER + s.AeadFor(previous).nonceLen;
    if maxOut < HEADER_LENGTH + 1 + overhead || maxOut < prefix then (s, NoProgress)
    else
      var left := |p.body| - s.offset;
      var room := maxOut - HEADER_LENGTH - overhead;
      var todo := if left > room then room else left;
      if prefix + HEADER_LENGTH + todo > maxOut then (s, SealError(Internal))
      else
        var frag := FragmentBytes(p.hdr, s.offset, p.body[s.offset..s.offset + todo]);
        var (s', sealed) := SealRecord(s, maxOut, HANDSHAKE, frag, previous);
        if sealed.NotSealed? then (s', SealError(sealed.err))
        else if todo == left then (s'.(offset := 0), Done(sealed.rec, sealed.len))
        else (s'.(offset := s.offset + todo), Partial(sealed.rec, sealed.len))
  }

  // seal_next_message
  function SealNextMessage(s: Sender, maxOut: nat): (r: (Sender, SealOutcome))
    requires s.Valid() && s.written < |s.outgoing|
    ensures Frame(s, r.0) && LengthsFit(r.1, maxOut)
    ensures r.1.Done? ==> r.0.offset == 0
    ensures r.1.Partial? ==> s.offset < r.0.offset <= |s.outgoing[s.written].data|
  {
    var msg := s.outgoing[s.written];
    var previous := s.wEpoch >= 1 && msg.epoch == s.wEpoch - 1;
    if !previous && msg.epoch != s.wEpoch then (s, SealError(Internal))
    else if msg.isCcs then SealCcs(s, maxOut, previous)
    else
      var parsed := ParseFragment(msg.data);
      if !Queueable(parsed) || s.offset > |parsed.value.body| then (s, SealError(Internal))
      else SealFragment(s, maxOut, parsed.value, previous)
  }

  // The shape seal_next_message insists on: one fragment that is the whole message.
  predicate Queueable(parsed: Option<Parsed>) {
    && parsed.Some?
    && parsed.value.hdr.fragOff == 0
    && parsed.value.hdr.fragLen == |parsed.value.body|
    && parsed.value.hdr.msgLen == |parsed.value.body|
    && parsed.value.rest == []
  }

  // Sealing touches the send cursor's offset and the record numbers only.
  ghost predicate Frame(s: Sender, s': Sender) {
    && (s.Valid() ==> s'.Valid())
    && s' == s.(offset := s'.offset, writeSequence := s'.writeSequence, lastWriteSequence := s'.lastWriteSequence)
  }

  predicate LengthsFit(out: SealOutcome, maxOut: nat) {
    out.Partial? || out.Done? ==> RECORD_HEADER <= out.len <= maxOut
  }

  // A fragment of the message with header |hdr|, as assembled by seal_next_message.
  function FragmentBytes(hdr: Header, off: nat, part: bytes): bytes
    requires hdr.Valid() && off + |part| <= hdr.msgLen
  {
    PutHeader(Header(hdr.typ, hdr.msgLen, hdr.seq_, off, |part|)) + part
  }

  // One round of the loop of seal_next_packet: a finished message moves the cursor on.
  function PacketStep(s: Sender, maxOut: nat): (r: (Sender, SealOutcome))
    requires s.Valid() && s.written < |s.outgoing|
    ensures r.0.Valid() && r.0 == s.(written := r.0.written, offset := r.0.offset,
                                     writeSequence := r.0.writeSequence, lastWriteSequence := r.0.lastWriteSequence)
    ensures LengthsFit(r.1, maxOut)
    ensures r.0.written == if r.1.Done? then s.written + 1 else s.written
    ensures r.1.Partial? ==> s.offset < r.0.offset <= |s.outgoing[s.written].data|
  {
    var (s', out) := SealNextMessage(s, maxOut);
    (if out.Done? then s'.(written := s.written + 1) else s', out)
  }

  datatype PacketRun = PacketRun(s: Sender, err: Err, recs: Packet, len: nat)

  // packet_full: a packet with no record in it means the MTU is too small.
  function PacketFull(recs: Packet): Err {
    if recs == [] then MtuTooSmall else NoErr
  }

  // seal_next_packet: records are added while they fit; an error drops the packet, but
  // not the progress of the send cursor.
  function SealNextPacket(s: Sender, maxOut: nat, recs: Packet, len: nat): (r: PacketRun)
    requires s.Valid()
    ensures r.s.Valid() && r.s == s.(written := r.s.written, offset := r.s.offset,
                                     writeSequence := r.s.writeSequence, lastWriteSequence := r.s.lastWriteSequence)
    ensures s.written <= r.s.written
    ensures r.err.NoErr? && recs == [] ==> Advanced(s, r.s)
    ensures len <= r.len <= len + maxOut
    decreases |s.outgoing| - s.written
  {
    if s.written == |s.outgoing| then PacketRun(s, PacketFull(recs), recs, len)
    else
      var (s', out) := PacketStep(s, maxOut);
      match out
      case SealError(err) => PacketRun(s', err, recs, len)
      case NoProgress => PacketRun(s', PacketFull(recs), recs, len)
      case Partial(rec, n) => PacketRun(s', NoErr, recs + [rec], len + n)
      case Done(rec, n) =>
        SealNextPacket(s', maxOut - n, recs + [rec], len + n)
  }

  // The send cursor moved forward, in the lexicographic order of (written, offset).
  predicate Advanced(s: Sender, s': Sender) {
    || s.written < s'.written
    || (&& s.written == s'.written < |s.outgoing|
        && s.offset < s'.offset <= |s.outgoing[s.written].data|)
  }

  datatype FlightRun = FlightRun(s: Sender, sent: seq<Packet>, sealed: Packet, script: seq<int>, ret: int, err: Err)

  function NextResult(script: seq<int>): int {
    if script == [] then -1 else script[0]
  }

  function AfterCall(script: seq<int>): seq<int> {
    if script == [] then [] else script[1..]
  }

  function Left(s: Sender): int {
    if s.written < |s.outgoing| then |s.outgoing[s.written].data| - s.offset else 0
  }

  // The loop of send_flight. |script| holds the results of the coming BIO calls; a
  // call past its end fails. |sent| collects the packets the BIO took, |sealed| every
  // record sealed on the way, sent or not.
  function SendLoop(s: Sender, script: seq<int>): (r: FlightRun)
    requires s.Valid()
    ensures r.s.Valid()
    decreases |s.outgoing| - s.written, Left(s)
  {
    var result, script' := NextResult(script), AfterCall(script);
    if s.written >= |s.outgoing| then
      if result > 0 then FlightRun(s, [], [], script', 1, NoErr)
      else FlightRun(s, [], [], script', -1, Blocked)
    else
      var p := SealNextPacket(s, s.mtu, [], 0);
      if !p.err.NoErr? then FlightRun(p.s, [], p.recs, script, -1, p.err)
      else if result <= 0 then
        FlightRun(p.s.(written := s.written, offset := s.offset), [], p.recs, script', result, Blocked)
      else
        var r := SendLoop(p.s, script');
        r.(sent := [p.recs] + r.sent, sealed := p.recs + r.sealed)
  }

  // kMinMTU and kDefaultMTU
  const MIN_MTU: nat := 228
  const DEFAULT_MTU: nat := 1472

  // dtls1_update_mtu, with |query| the BIO's answer and |mayQuery| the absence of
  // SSL_OP_NO_QUERY_MTU.
  function UpdateMtu(s: Sender, mayQuery: bool, query: int): (s': Sender)
    requires s.Valid()
    ensures s'.Valid()
  {
    if s.mtu < MIN_MTU && mayQuery then
      s.(mtu := if MIN_MTU <= query <= 0x4000_0000 then query else DEFAULT_MTU)
    else s
  }

  // send_flight
  function SendFlight(s: Sender, mayQuery: bool, query: int, script: seq<int>): (r: FlightRun)
    requires s.Valid()
    ensures r.s.Valid()
  {
    if s.shutdown then FlightRun(s, [], [], script, -1, Shutdown)
    else SendLoop(UpdateMtu(s, mayQuery, query), script)
  }

  // dtls1_flush_flight
  function FlushFlight(s: Sender, mayQuery: bool, query: int, script: seq<int>): (r: FlightRun)
    requires s.Valid()
    ensures r.s.Valid()
  {
    SendFlight(s.(complete := true), mayQuery, query, script)
  }

  // dtls1_retransmit_outgoing_messages
  function Retransmit(s: Sender, mayQuery: bool, query: int, script: seq<int>): (r: FlightRun)
    requires s.Valid()
    ensures r.s.Valid()
  {
    SendFlight(s.(written := 0, offset := 0), mayQuery, query, script)
  }

  // dtls_clear_outgoing_messages
  function ClearOutgoing(s: Sender): (s': Sender)
    requires s.Valid()
    ensures s'.Valid()
  {
    s.(outgoing := [], written := 0, offset := 0, complete := false)
  }

  // add_outgoing
  function AddOutgoing(s: Sender, isCcs: bool, data: bytes): (r: (Sender, bool))
    requires s.Valid()
    ensures r.0.Valid()
  {
    var s1 := if s.complete then ClearOutgoing(s) else s;
    if |s1.outgoing| >= MAX_FLIGHT || |data| > 0xffff_ffff then (s1, false)
    else
      var s2 := if isCcs then s1
                else s1.(transcript := s1.transcript + [data], writeSeq := (s1.writeSeq + 1) % U16);
      (s2.(outgoing := s2.outgoing + [Outgoing(data, s2.wEpoch, isCcs)]), true)
  }

  // dtls1_set_write_state
  function SetWriteState(s: Sender, aead: Aead): (s': Sender)
    requires s.Valid()
    ensures s'.Valid()
  {
    s.(wEpoch := (s.wEpoch + 1) % U16, lastWriteSequence := s.writeSequence,
       writeSequence := [0, 0, 0, 0, 0, 0], lastAead := s.aead, aead := aead)
  }
}
