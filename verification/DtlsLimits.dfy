/** The size of what the sender seals against the size the receiver accepts: the MTU up to
    which every record of a flight gets through, and honest records that do not. */
module DtlsLimits {
  import opened Bytes
  import opened HandshakeWire
  import opened DtlsRecord
  import opened RecordTypes
  import opened DtlsSend
  import opened DtlsTiling
  import opened DtlsProgress
  import opened DtlsReceive
  import D = DtlsDelivery
  import R = DtlsReceiver

  // What dtls_open_record accepts: neither cipher text nor plain text is too long.
  predicate Fits(rec: Record) {
    rec.bodyLen <= MAX_ENCRYPTED && |rec.payload| <= MAX_PLAIN
  }

  // The lengths of the record a step of sealing makes, as forecast.
  lemma RecordSize(s: Sender, maxOut: nat)
    requires Sendable(s) && s.written < |s.outgoing|
    ensures var (s', out) := PacketStep(s, maxOut); var j, m := JobOf(s), s.outgoing[s.written];
      out.Partial? || out.Done? ==>
        && j.Needed(m) <= maxOut
        && |out.rec.payload| == PayloadLen(j, m, s.offset, maxOut)
        && out.rec.bodyLen == j.AeadOf(m).SealedLen(|out.rec.payload|)
  {
    hide ParseFragment, SealFragment, SealRecord, SealedUnder, MessageSendable;
    StepVerdict(s, maxOut);
    if s.outgoing[s.written].isCcs {
      CcsSize(s, maxOut);
    } else {
      var p := LookedUp(s, maxOut);
      FragmentSize(s, maxOut, p, JobOf(s).Previous(s.outgoing[s.written]));
    }
  }

  lemma CcsSize(s: Sender, maxOut: nat)
    requires Sendable(s) && s.written < |s.outgoing| && s.outgoing[s.written].isCcs
    ensures var (s', out) := PacketStep(s, maxOut); var j, m := JobOf(s), s.outgoing[s.written];
      out.Done? ==>
        && |out.rec.payload| == |CCS_BODY|
        && out.rec.bodyLen == j.AeadOf(m).SealedLen(|out.rec.payload|)
  {
    hide SealRecord, SealedUnder;
  }

  lemma FragmentSize(s: Sender, maxOut: nat, p: Parsed, previous: bool)
    requires s.Valid() && (previous ==> s.wEpoch >= 1)
    requires s.written < |s.outgoing| && !s.outgoing[s.written].isCcs
    requires p.hdr.Valid() && p.hdr.msgLen == |p.body| && s.offset <= |p.body|
    ensures var (s', out) := SealFragment(s, maxOut, p, previous);
      var left, room := |p.body| - s.offset, maxOut - HEADER_LENGTH - s.Overhead(previous);
      out.Partial? || out.Done? ==>
        && |out.rec.payload| == HEADER_LENGTH + (if left > room then room else left)
        && out.rec.bodyLen == s.AeadFor(previous).SealedLen(|out.rec.payload|)
  {
    hide SealRecord, SealedUnder;
  }

  // The MTU leaves no room for a record of |m| that the receiver would not accept.
  predicate Modest(j: Job, m: Outgoing) {
    j.AeadOf(m).MaxOverhead() <= MAX_ENCRYPTED_OVERHEAD && j.mtu <= MAX_PLAIN + j.Overhead(m)
  }

  lemma RecordFits(s: Sender, maxOut: nat)
    requires Sendable(s) && s.written < |s.outgoing| && maxOut <= s.mtu && Modest(JobOf(s), s.outgoing[s.written])
    ensures var out := PacketStep(s, maxOut).1;
      out.Partial? || out.Done? ==> Fits(out.rec)
  {
    hide PacketStep, MessageSendable;
    RecordSize(s, maxOut);
    var j, m, out := JobOf(s), s.outgoing[s.written], PacketStep(s, maxOut).1;
    if out.Partial? || out.Done? { SealedWithin(j, m, |out.rec.payload|); }
  }

  predicate AllModest(j: Job) {
    forall i | 0 <= i < |j.queue| :: Modest(j, j.queue[i])
  }

  predicate AllFit(recs: Packet) {
    forall i | 0 <= i < |recs| :: Fits(recs[i])
  }

  lemma {:induction false} PacketFits(s: Sender, maxOut: nat, recs: Packet, len: nat)
    requires Sendable(s) && maxOut <= s.mtu && AllModest(JobOf(s)) && AllFit(recs)
    ensures AllFit(SealNextPacket(s, maxOut, recs, len).recs)
    decreases |s.outgoing| - s.written
  {
    hide PacketStep, MessageSendable, Fits, Modest;
    if s.written < |s.outgoing| {
      RecordFits(s, maxOut);
      StepVerdict(s, maxOut);
      var (s', out) := PacketStep(s, maxOut);
      if out.Done? {
        hide Sendable, AllModest;
        PacketFits(s', maxOut - out.len, recs + [out.rec], len + out.len);
      }
    }
  }

  // With a modest MTU every record a pass sends is one the receiver accepts.
  lemma {:induction false} FlightFits(s: Sender, script: seq<int>)
    requires Sendable(s) && AllModest(JobOf(s))
    ensures forall p | p in SendLoop(s, script).sent :: AllFit(p)
    decreases |s.outgoing| - s.written, Left(s)
  {
    hide SealNextPacket, MessageSendable, AllModest, AllFit;
    if s.written < |s.outgoing| {
      AllFitNothing();
      PacketFits(s, s.mtu, [], 0);
      PacketVerdict(s, s.mtu, [], 0);
      var p := SealNextPacket(s, s.mtu, [], 0);
      if p.err.NoErr? && NextResult(script) > 0 { FlightFits(p.s, AfterCall(script)); }
    }
  }

  lemma AllFitNothing()
    ensures AllFit([])
  {}

  // |s| with nothing to send but one message with a body of |n| octets.
  function Alone(s: Sender, n: nat): Sender
    requires n < U24
  {
    s.(outgoing := [Plain(0, n).(epoch := s.wEpoch)], written := 0, offset := 0)
  }

  lemma AloneSendable(s: Sender, n: nat)
    requires s.Valid() && s.aead.Valid() && s.lastAead.Valid() && n < U24
    ensures Sendable(Alone(s, n))
  {
    PlainLength(0, n);
    hide ParseFragment;
  }

  predicate FirstFits(s: Sender)
    requires s.Valid() && s.written < |s.outgoing|
  {
    var out := PacketStep(s, s.mtu).1;
    out.Partial? || out.Done? ==> Fits(out.rec)
  }

  // Main result on sizes: the first record of every message is one the receiver accepts
  // if and only if the MTU exceeds the overhead of a record by no more than 2^14.
  lemma FitsExactly(s: Sender)
    requires s.Valid() && s.aead.Valid() && s.lastAead.Valid() && s.aead.MaxOverhead() <= MAX_ENCRYPTED_OVERHEAD
    requires BigEndian(s.writeSequence) + 1 < U48
    ensures forall n: nat | n < U24 :: Alone(s, n).Valid()
    ensures (forall n: nat | n < U24 :: FirstFits(Alone(s, n))) <==>
            s.mtu <= MAX_PLAIN + RECORD_HEADER + s.aead.MaxOverhead()
  {
    hide FirstFits, Plain, Sendable, BigEndian;
    forall n: nat | n < U24 ensures Alone(s, n).Valid() {}
    if s.mtu <= MAX_PLAIN + RECORD_HEADER + s.aead.MaxOverhead() {
      forall n: nat | n < U24 ensures FirstFits(Alone(s, n)) {
        AloneFits(s, n);
      }
    } else {
      AloneTooLong(s, 16373);
    }
  }

  lemma AloneFits(s: Sender, n: nat)
    requires s.Valid() && s.aead.Valid() && s.lastAead.Valid() && s.aead.MaxOverhead() <= MAX_ENCRYPTED_OVERHEAD
    requires n < U24 && s.mtu <= MAX_PLAIN + RECORD_HEADER + s.aead.MaxOverhead()
    ensures FirstFits(Alone(s, n))
  {
    hide PacketStep, Plain;
    AloneSendable(s, n);
    hide Sendable;
    RecordFits(Alone(s, n), s.mtu);
  }

  lemma AloneTooLong(s: Sender, n: nat)
    requires s.Valid() && s.aead.Valid() && s.lastAead.Valid() && s.aead.MaxOverhead() <= MAX_ENCRYPTED_OVERHEAD
    requires BigEndian(s.writeSequence) + 1 < U48 && n == 16373
    requires s.mtu > MAX_PLAIN + RECORD_HEADER + s.aead.MaxOverhead()
    ensures !FirstFits(Alone(s, n))
  {
    hide PacketStep, Plain, BigEndian;
    var s1 := Alone(s, n);
    AloneSendable(s, n);
    PlainLength(0, n);
    hide Sendable, ParseFragment;
    RecordSize(s1, s.mtu);
    StepVerdict(s1, s.mtu);
    SealedWithin(JobOf(s1), s1.outgoing[0], HEADER_LENGTH + n);
  }

  // --- Honest records that do not get through ---

  // A message of |n| octets under an MTU of 20000, without encryption: one record.
  lemma OneLongRecord(n: nat)
    requires 16373 <= n <= 19900
    ensures var s := Ready([Plain(0, n)], [0, 0, 0, 0, 0, 0], 20000);
      && Sendable(s)
      && var out := PacketStep(s, 20000).1;
         && out.Done? && out.rec.Valid() && out.rec.authentic && out.rec.Epoch() == 0
         && |out.rec.payload| == out.rec.bodyLen == HEADER_LENGTH + n
  {
    hide Plain, ParseFragment, PacketStep, SealedUnder;
    var s := Ready([Plain(0, n)], [0, 0, 0, 0, 0, 0], 20000);
    PlainLength(0, n);
    ZeroNumber();
    ReadySendable(s.outgoing, s.writeSequence, 20000);
    hide BigEndian, MessageSendable, Sendable, ForecastRecord;
    OneRecord(JobOf(s), GaugeOf(s), 20000);
    StepVerdict(s, 20000);
    RecordSize(s, 20000);
    StepTiles(s, 20000);
    UnderFirst(s);
  }

  lemma UnderFirst(s: Sender)
    requires s.Valid() && s.written < |s.outgoing|
    ensures var out := PacketStep(s, 20000).1;
      out.Done? ==> out.rec.Valid() && out.rec.authentic && out.rec.Epoch() == s.outgoing[s.written].epoch
  {
    hide ParseFragment, PacketStep;
    StepTiles(s, 20000);
  }

  // A record with 16412 octets of plain text is fatal to a new receiver, although every
  // step of the handshake was honest.
  lemma HonestButFatal()
    ensures var s := Ready([Plain(0, 16400)], [0, 0, 0, 0, 0, 0], 20000);
      && Sendable(s)
      && var out := PacketStep(s, 20000).1;
         out.Done? && out.rec.Valid() && OpenHandshake(R.Initial(0x1_0000), out.rec).1 == Fail(RecordOverflow)
  {
    hide Plain, PacketStep, TakeFragments, Sendable;
    OneLongRecord(16400);
  }

  // One with 17012 is dropped by every receiver, and so is each retransmission of it.
  lemma HonestButDropped(r: Receiver)
    requires r.Valid()
    ensures var s := Ready([Plain(0, 17000)], [0, 0, 0, 0, 0, 0], 20000);
      && Sendable(s)
      && var out := PacketStep(s, 20000).1;
         out.Done? && out.rec.Valid() && OpenHandshake(r, out.rec) == (r, Discard)
  {
    hide Plain, PacketStep, TakeFragments, Sendable, Record.Epoch;
    OneLongRecord(17000);
  }

  // The messages of a connection whose |k|th one has the single octet |k|.
  function Small(k: nat): bytes
    requires k < 0x100
  {
    WholeMessage(11, k, [k])
  }

  // The record that carries message |k|, in the first epoch.
  function Whole(k: nat): (rec: Record)
    requires k < 0x100
    ensures rec.Valid()
  {
    Record(HANDSHAKE, [0, 0, 0, 0, 0, 0, 0, k], Small(k), HEADER_LENGTH + 1, true)
  }

  lemma SmallParses(k: nat)
    requires k < 0x100
    ensures ParseFragment(Small(k)) == Some(Parsed(Header(11, 1, k, 0, 1), [k], [])) && D.IsMessage(Small(k), k)
  {
    ParseWholeMessage(11, k, [k]);
  }

  function Smalls(n: nat): (t: seq<bytes>)
    requires n <= 0x100
    ensures |t| == n && forall k | 0 <= k < n :: t[k] == Small(k)
  {
    seq(n, k requires 0 <= k < n => Small(k))
  }

  // They are a transcript, and its records are genuine.
  lemma SmallTranscript(n: nat, k: nat)
    requires k < n <= 0x100
    ensures D.IsTranscript(Smalls(n)) && D.Genuine(Smalls(n), Whole(k))
  {
    hide Small, Smalls, ParseFragment, D.IsMessage;
    forall i | 0 <= i < n ensures D.IsMessage(Smalls(n)[i], i) { SmallParses(i); }
    SmallParses(k);
  }

  // Of nine messages arriving first at a new receiver, the seventh is kept, the eighth is
  // fatal and the ninth is ignored.
  lemma EighthFails()
    ensures D.IsTranscript(Smalls(9)) && forall k | 6 <= k < 9 :: D.Genuine(Smalls(9), Whole(k))
    ensures var r := R.Initial(100);
      && OpenHandshake(r, Whole(6)).1 == Success && OpenHandshake(r, Whole(6)).0.slots[6].Some?
      && OpenHandshake(r, Whole(7)).1 == Fail(InternalError)
      && OpenHandshake(r, Whole(8)).1 == Success && OpenHandshake(r, Whole(8)).0.slots == r.slots
  {
    hide OpenHandshake, Whole;
    FirstArrives(6);
    FirstArrives(7);
    FirstArrives(8);
    SmallTranscript(9, 6);
    SmallTranscript(9, 7);
    SmallTranscript(9, 8);
  }

  lemma FirstArrives(k: nat)
    requires 0 < k < 0x100
    ensures var r := R.Initial(100); var (r', out) := OpenHandshake(r, Whole(k));
      if k < MAX_FLIGHT then out == Success && r'.slots[k].Some?
      else if k == MAX_FLIGHT then out == Fail(InternalError)
      else out == Success && r'.slots == r.slots
  {
    hide OpenRecord, Small, ParseFragment, Record.Epoch, Record.Number;
    var r, rec := R.Initial(100), Whole(k);
    SmallParses(k);
    FirstOpened(k);
    var p := ParseFragment(rec.payload).value;
    var r1 := OpenRecord(r, rec).0;
    var (r2, out) := TakeFragment(r1, p.hdr, p.body);
    assert TakeFragments(r2, []) == (r2, Success);
  }

  lemma FirstOpened(k: nat)
    requires k < 0x100
    ensures var r := R.Initial(100); var (r1, out) := OpenRecord(r, Whole(k));
      && out == Success && r1.slots == r.slots
      && r1.readSeq == 0 && r1.rEpoch == 0 && r1.maxMessageLen == 100
      && forall i | 0 <= i < MAX_FLIGHT :: r1.slots[i].None?
  {
    hide Record.Number, PutHeader;
  }
}
