/** The sending fields of DTLS1_STATE and SSL3_STATE, updated in place, refining DtlsSend. */
module DtlsSender {
  import opened Bytes
  import opened HandshakeWire
  import opened DtlsRecord
  import opened RecordTypes
  import opened DtlsSend

  // A datagram BIO: |script| decides what the coming calls return.
  class DatagramBio {
    var script: seq<int>
    var taken: seq<Packet>

    constructor (script: seq<int>)
      ensures this.script == script && taken == []
    {
      this.script, taken := script, [];
    }

    // BIO_write: the whole packet or nothing.
    method Write(p: Packet) returns (ret: int)
      modifies this
      ensures script == AfterCall(old(script)) && ret == NextResult(old(script))
      ensures taken == if ret > 0 then old(taken) + [p] else old(taken)
    {
      if script == [] { return -1; }
      ret, script := script[0], script[1..];
      if ret > 0 { taken := taken + [p]; }
    }

    // BIO_flush
    method Flush() returns (ret: int)
      modifies `script
      ensures script == AfterCall(old(script)) && ret == NextResult(old(script))
    {
      if script == [] { return -1; }
      ret, script := script[0], script[1..];
    }
  }

  class Connection {
    const outgoing: array<Outgoing>
    var outgoingLen: nat
    var written: nat
    var offset: nat
    var complete: bool
    var writeSeq: nat
    var transcript: seq<bytes>
    var wEpoch: nat
    const writeSequence: array<u8>
    const lastWriteSequence: array<u8>
    var aead: Aead
    var lastAead: Aead
    var mtu: nat
    var shutdown: bool

    ghost predicate Shaped()
      reads this
    {
      && outgoing.Length == MAX_FLIGHT && outgoingLen <= MAX_FLIGHT
      && writeSequence.Length == 8 && lastWriteSequence.Length == 8
      && writeSequence != lastWriteSequence
    }

    ghost predicate Valid()
      reads this, outgoing, writeSequence, lastWriteSequence
    {
      Shaped() && Abs().Valid()
    }

    ghost function Abs(): Sender
      requires Shaped()
      reads this, outgoing, writeSequence, lastWriteSequence
    {
      Sender(outgoing[..outgoingLen], written, offset, complete, writeSeq, transcript, wEpoch,
             writeSequence[2..], lastWriteSequence[2..], aead, lastAead, mtu, shutdown)
    }

    constructor (aead: Aead, mtu: nat)
      ensures Valid() && fresh(outgoing) && fresh(writeSequence) && fresh(lastWriteSequence)
      ensures Abs() == Initial(aead, mtu)
    {
      outgoing := new Outgoing[MAX_FLIGHT](_ => Outgoing([], 0, false));
      outgoingLen, written, offset, complete, writeSeq, transcript, wEpoch := 0, 0, 0, false, 0, [], 0;
      writeSequence := new u8[8](_ => 0);
      lastWriteSequence := new u8[8](_ => 0);
      this.aead, lastAead, this.mtu, shutdown := aead, aead, mtu, false;
      new;
      assert writeSequence[2..] == ZERO_SEQUENCE && lastWriteSequence[2..] == ZERO_SEQUENCE;
    }

    // dtls_seal_record
    method SealRecord(maxOut: nat, typ: u8, payload: bytes, previous: bool) returns (sealed: Sealed)
      requires Valid() && (previous ==> wEpoch >= 1)
      modifies writeSequence, lastWriteSequence
      ensures Valid() && (Abs(), sealed) == DtlsSend.SealRecord(old(Abs()), maxOut, typ, payload, previous)
    {
      var epoch, a, seq_ := wEpoch, aead, writeSequence;
      if previous {
        epoch, a, seq_ := wEpoch - 1, lastAead, lastWriteSequence;
      }
      if maxOut < RECORD_HEADER { return NotSealed(BufferTooSmall); }
      var header := Put16(epoch) + seq_[2..];
      var ciphertextLen := a.SealedLen(|payload|);
      if ciphertextLen > maxOut - RECORD_HEADER { return NotSealed(BufferTooSmall); }
      var ok := SequenceUpdate(seq_, 2);
      if !ok { return NotSealed(SequenceOverflow); }
      if ciphertextLen >= U16 { return NotSealed(RecordTooLong); }
      sealed := SealedRecord(Record(typ, header, payload, ciphertextLen, true), RECORD_HEADER + ciphertextLen);
    }

    // seal_next_message, the ChangeCipherSpec branch
    method SealCcs(maxOut: nat, previous: bool) returns (out: SealOutcome)
      requires Valid() && (previous ==> wEpoch >= 1)
      modifies writeSequence, lastWriteSequence
      ensures Valid() && (Abs(), out) == DtlsSend.SealCcs(old(Abs()), maxOut, previous)
    {
      var overhead := RECORD_HEADER + (if previous then lastAead else aead).MaxOverhead();
      if maxOut < |CCS_BODY| + overhead { return NoProgress; }
      var sealed := SealRecord(maxOut, CHANGE_CIPHER_SPEC, CCS_BODY, previous);
      out := if sealed.NotSealed? then SealError(sealed.err) else Done(sealed.rec, sealed.len);
    }

    // seal_next_message, the handshake branch
    method SealFragment(maxOut: nat, p: Parsed, previous: bool) returns (out: SealOutcome)
      requires Valid() && (previous ==> wEpoch >= 1)
      requires written < outgoingLen && !outgoing[written].isCcs
      requires p.hdr.Valid() && p.hdr.msgLen == |p.body| && offset <= |p.body|
      modifies `offset, writeSequence, lastWriteSequence
      ensures Valid() && (Abs(), out) == DtlsSend.SealFragment(old(Abs()), maxOut, p, previous)
    {
      hide DtlsSend.SealRecord, FragmentBytes, SealedUnder, Frame, Header.Valid;
      var a := if previous then lastAead else aead;
      var overhead := RECORD_HEADER + a.MaxOverhead();
      var prefix := RECORD_HEADER + a.nonceLen;
      if maxOut < HEADER_LENGTH + 1 + overhead || maxOut < prefix { return NoProgress; }
      var body := p.body[offset..];
      var todo := |body|;
      if todo > maxOut - HEADER_LENGTH - overhead {
        todo := maxOut - HEADER_LENGTH - overhead;
      }
      if prefix + HEADER_LENGTH + todo > maxOut { return SealError(Internal); }
      assert body[..todo] == p.body[offset..offset + todo];
      var frag := FragmentBytes(p.hdr, offset, body[..todo]);
      var sealed := SealRecord(maxOut, HANDSHAKE, frag, previous);
      if sealed.NotSealed? { return SealError(sealed.err); }
      if todo == |body| {
        offset := 0;
        return Done(sealed.rec, sealed.len);
      }
      offset := offset + todo;
      out := Partial(sealed.rec, sealed.len);
    }

    // seal_next_message
    method SealNextMessage(maxOut: nat) returns (out: SealOutcome)
      requires Valid() && written < outgoingLen
      modifies `offset, writeSequence, lastWriteSequence
      ensures Valid() && (Abs(), out) == DtlsSend.SealNextMessage(old(Abs()), maxOut)
    {
      var msg := outgoing[written];
      var previous := false;
      if wEpoch >= 1 && msg.epoch == wEpoch - 1 {
        previous := true;
      } else if msg.epoch != wEpoch {
        return SealError(Internal);
      }
      if msg.isCcs {
        out := SealCcs(maxOut, previous);
      } else {
        var parsed := ParseFragment(msg.data);
        if !Queueable(parsed) || offset > |parsed.value.body| { return SealError(Internal); }
        out := SealFragment(maxOut, parsed.value, previous);
      }
    }

    // The loop body of seal_next_packet.
    method PacketStep(maxOut: nat) returns (out: SealOutcome)
      requires Valid() && written < outgoingLen
      modifies `written, `offset, writeSequence, lastWriteSequence
      ensures Valid() && (Abs(), out) == DtlsSend.PacketStep(old(Abs()), maxOut)
    {
      ghost var start := Abs();
      out := SealNextMessage(maxOut);
      if out.Done? { written := written + 1; }
      assert Abs() == DtlsSend.PacketStep(start, maxOut).0;
    }

    // seal_next_packet; when it fails the records sealed are not sent.
    method SealNextPacket(max: nat) returns (err: Err, packet: Packet, len: nat)
      requires Valid()
      modifies `written, `offset, writeSequence, lastWriteSequence
      ensures Valid()
      ensures PacketRun(Abs(), err, packet, len) == DtlsSend.SealNextPacket(old(Abs()), max, [], 0)
    {
      hide DtlsSend.PacketStep;
      var maxOut: nat := max;
      packet, len := [], 0;
      ghost var start := Abs();
      while written < outgoingLen
        invariant Valid()
        invariant DtlsSend.SealNextPacket(Abs(), maxOut, packet, len) ==
                  DtlsSend.SealNextPacket(start, max, [], 0)
        decreases outgoingLen - written
      {
        var out := PacketStep(maxOut);
        if out.SealError? || out.NoProgress? {
          err := if out.NoProgress? then PacketFull(packet) else out.err;
          return;
        }
        packet, len, maxOut := packet + [out.rec], len + out.len, maxOut - out.len;
        if out.Partial? {
          err := NoErr;
          return;
        }
      }
      err := PacketFull(packet);
    }

    // The loop and the final flush of send_flight.
    method SendLoop(bio: DatagramBio) returns (ret: int, err: Err)
      requires Valid()
      modifies `written, `offset, writeSequence, lastWriteSequence, bio
      ensures Valid() && RunOf(old(Abs()), old(bio.script), old(bio.taken), Abs(), bio.script, bio.taken, ret, err)
    {
      hide DtlsSend.SealNextPacket, DtlsSend.SendLoop;
      ghost var start, script, taken := Abs(), bio.script, bio.taken;
      while written < outgoingLen
        invariant Valid()
        invariant Resumes(start, script, taken, Abs(), bio.script, bio.taken)
        decreases outgoingLen - written, Left(Abs())
      {
        ghost var before := Abs();
        TurnResumes(before, bio.script, bio.taken);
        var oldWritten, oldOffset := written, offset;
        var sealErr, packet, _ := SealNextPacket(mtu);
        if !sealErr.NoErr? { return -1, sealErr; }
        var bioRet := bio.Write(packet);
        if bioRet <= 0 {
          written, offset := oldWritten, oldOffset;
          return bioRet, Blocked;
        }
        assert Advanced(before, Abs());
      }
      TurnResumes(Abs(), bio.script, bio.taken);
      var flushed := bio.Flush();
      ret, err := if flushed <= 0 then -1 else 1, if flushed <= 0 then Blocked else NoErr;
    }

    // send_flight
    method SendFlight(mayQuery: bool, query: int, bio: DatagramBio) returns (ret: int, err: Err)
      requires Valid()
      modifies `mtu, `written, `offset, writeSequence, lastWriteSequence, bio
      ensures Valid()
      ensures var r := DtlsSend.SendFlight(old(Abs()), mayQuery, query, old(bio.script));
              && Abs() == r.s && ret == r.ret && err == r.err && bio.script == r.script
              && bio.taken == old(bio.taken) + r.sent
    {
      if shutdown {
        assert bio.taken == bio.taken + [];
        return -1, Shutdown;
      }
      ghost var start := Abs();
      if mtu < MIN_MTU && mayQuery {
        mtu := if MIN_MTU <= query <= 0x4000_0000 then query else DEFAULT_MTU;
      }
      assert Abs() == UpdateMtu(start, mayQuery, query);
      ret, err := SendLoop(bio);
    }

    // dtls1_flush_flight
    method FlushFlight(mayQuery: bool, query: int, bio: DatagramBio) returns (ret: int, err: Err)
      requires Valid()
      modifies `complete, `mtu, `written, `offset, writeSequence, lastWriteSequence, bio
      ensures Valid()
      ensures var r := DtlsSend.FlushFlight(old(Abs()), mayQuery, query, old(bio.script));
              && Abs() == r.s && ret == r.ret && err == r.err && bio.script == r.script
              && bio.taken == old(bio.taken) + r.sent
    {
      ghost var start := Abs();
      complete := true;
      assert Abs() == start.(complete := true);
      ret, err := SendFlight(mayQuery, query, bio);
    }

    // dtls1_retransmit_outgoing_messages
    method Retransmit(mayQuery: bool, query: int, bio: DatagramBio) returns (ret: int, err: Err)
      requires Valid()
      modifies `mtu, `written, `offset, writeSequence, lastWriteSequence, bio
      ensures Valid()
      ensures var r := DtlsSend.Retransmit(old(Abs()), mayQuery, query, old(bio.script));
              && Abs() == r.s && ret == r.ret && err == r.err && bio.script == r.script
              && bio.taken == old(bio.taken) + r.sent
    {
      ghost var start := Abs();
      written, offset := 0, 0;
      assert Abs() == start.(written := 0, offset := 0);
      ret, err := SendFlight(mayQuery, query, bio);
    }

    // dtls_clear_outgoing_messages
    method ClearOutgoing()
      requires Valid()
      modifies `outgoingLen, `written, `offset, `complete
      ensures Valid() && Abs() == DtlsSend.ClearOutgoing(old(Abs()))
    {
      outgoingLen, written, offset, complete := 0, 0, 0, false;
    }

    // add_outgoing
    method AddOutgoing(isCcs: bool, data: bytes) returns (ok: bool)
      requires Valid()
      modifies this, outgoing
      ensures Valid() && (Abs(), ok) == DtlsSend.AddOutgoing(old(Abs()), isCcs, data)
    {
      if complete { ClearOutgoing(); }
      if outgoingLen >= MAX_FLIGHT || |data| > 0xffff_ffff { return false; }
      if !isCcs {
        transcript := transcript + [data];
        writeSeq := (writeSeq + 1) % U16;
      }
      ghost var queue := outgoing[..outgoingLen];
      outgoing[outgoingLen] := Outgoing(data, wEpoch, isCcs);
      outgoingLen := outgoingLen + 1;
      assert outgoing[..outgoingLen] == queue + [Outgoing(data, wEpoch, isCcs)];
      ok := true;
    }

    // dtls1_set_write_state
    method SetWriteState(newAead: Aead)
      requires Valid()
      modifies this, writeSequence, lastWriteSequence
      ensures Valid() && Abs() == DtlsSend.SetWriteState(old(Abs()), newAead)
    {
      wEpoch := (wEpoch + 1) % U16;
      forall i | 0 <= i < 8 { lastWriteSequence[i] := writeSequence[i]; }
      assert lastWriteSequence[2..] == old(writeSequence[2..]);
      forall i | 0 <= i < 8 { writeSequence[i] := 0; }
      assert writeSequence[2..] == ZERO_SEQUENCE;
      lastAead := aead;
      aead := newAead;
    }
  }

  // A run of send_flight's loop from |s|, with the BIO going from |script|, |taken| to
  // |script'|, |taken'|.
  ghost predicate RunOf(s: Sender, script: seq<int>, taken: seq<Packet>,
                        s': Sender, script': seq<int>, taken': seq<Packet>, ret: int, err: Err)
    requires s.Valid()
  {
    var r := DtlsSend.SendLoop(s, script);
    s' == r.s && script' == r.script && taken' == taken + r.sent && ret == r.ret && err == r.err
  }

  // What is left to run from the primed state completes the run from |s|.
  ghost predicate Resumes(s: Sender, script: seq<int>, taken: seq<Packet>,
                          s': Sender, script': seq<int>, taken': seq<Packet>)
    requires s.Valid() && s'.Valid()
  {
    var r, r' := DtlsSend.SendLoop(s, script), DtlsSend.SendLoop(s', script');
    r.s == r'.s && r.script == r'.script && r.ret == r'.ret && r.err == r'.err && taken + r.sent == taken' + r'.sent
  }

  // One turn of the loop: where it ends, or what is left to run after it.
  lemma TurnResumes(s: Sender, script: seq<int>, taken: seq<Packet>)
    ensures s.Valid() ==>
      var result, script' := NextResult(script), AfterCall(script);
      var p := DtlsSend.SealNextPacket(s, s.mtu, [], 0);
      if s.written >= |s.outgoing| then
        RunOf(s, script, taken, s, script', taken, if result > 0 then 1 else -1, if result > 0 then NoErr else Blocked)
      else if !p.err.NoErr? then RunOf(s, script, taken, p.s, script, taken, -1, p.err)
      else if result <= 0 then
        RunOf(s, script, taken, p.s.(written := s.written, offset := s.offset), script', taken, result, Blocked)
      else Resumes(s, script, taken, p.s, script', taken + [p.recs])
  {
    hide DtlsSend.SealNextPacket;
    assert taken + [] == taken;
    if s.Valid() && s.written < |s.outgoing| {
      var p := DtlsSend.SealNextPacket(s, s.mtu, [], 0);
      var rest := DtlsSend.SendLoop(p.s, AfterCall(script)).sent;
      assert taken + ([p.recs] + rest) == taken + [p.recs] + rest;
    }
  }

  const ZERO_SEQUENCE: bytes := [0, 0, 0, 0, 0, 0]

  ghost function Initial(aead: Aead, mtu: nat): Sender {
    Sender([], 0, 0, false, 0, [], 0, ZERO_SEQUENCE, ZERO_SEQUENCE, aead, aead, mtu, false)
  }
}
