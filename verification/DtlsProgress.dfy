/** How a pass over a flight ends: send_flight computed from lengths and record numbers
    alone, without sealing anything, and the conditions for success read off that. */
module DtlsProgress {
  import opened Bytes
  import opened HandshakeWire
  import opened DtlsRecord
  import opened RecordTypes
  import opened DtlsSend
  import opened DtlsTiling

  // A queue built by add_outgoing from finished messages, under the current or the
  // previous epoch, with AEADs that keep their promise.
  ghost predicate Sendable(s: Sender) {
    && s.Valid() && s.aead.Valid() && s.lastAead.Valid()
    && (forall i | 0 <= i < |s.outgoing| :: MessageSendable(s, s.outgoing[i]))
    && (s.written < |s.outgoing| ==> s.offset <= |s.outgoing[s.written].data| - HEADER_LENGTH || s.offset == 0)
  }

  predicate MessageSendable(s: Sender, m: Outgoing) {
    && (m.epoch == s.wEpoch || m.epoch + 1 == s.wEpoch)
    && (m.isCcs || Queueable(ParseFragment(m.data)))
  }

  // What a pass does not change.
  datatype Job = Job(queue: seq<Outgoing>, epoch: nat, aead: Aead, lastAead: Aead, mtu: nat) {
    predicate Previous(m: Outgoing) {
      epoch >= 1 && m.epoch == epoch - 1
    }

    function AeadOf(m: Outgoing): Aead {
      if Previous(m) then lastAead else aead
    }

    function Overhead(m: Outgoing): nat {
      RECORD_HEADER + AeadOf(m).MaxOverhead()
    }

    // The least room in which a record of |m| makes progress.
    function Needed(m: Outgoing): nat {
      Overhead(m) + if m.isCcs then |CCS_BODY| else HEADER_LENGTH + 1
    }
  }

  // What it changes: the cursor, and the next record numbers of the previous and the
  // current epoch.
  datatype Gauge = Gauge(written: nat, offset: nat, last: nat, current: nat) {
    function Number(previous: bool): nat {
      if previous then last else current
    }

    function Spend(previous: bool): Gauge {
      if previous then this.(last := NextCount(last)) else this.(current := NextCount(current))
    }
  }

  function JobOf(s: Sender): Job {
    Job(s.outgoing, s.wEpoch, s.aead, s.lastAead, s.mtu)
  }

  function GaugeOf(s: Sender): Gauge {
    Gauge(s.written, s.offset, BigEndian(s.lastWriteSequence), BigEndian(s.writeSequence))
  }

  // The octets of the body of |m| from |offset| on.
  function BodyLeft(m: Outgoing, offset: nat): nat {
    if |m.data| < HEADER_LENGTH + offset then 0 else |m.data| - HEADER_LENGTH - offset
  }

  // The payload of the next record of |m|: as much of the body as |room| octets allow.
  function PayloadLen(j: Job, m: Outgoing, offset: nat, room: int): nat
    requires j.Needed(m) <= room
  {
    if m.isCcs then |CCS_BODY|
    else
      var left, most := BodyLeft(m, offset), room - HEADER_LENGTH - j.Overhead(m);
      HEADER_LENGTH + if left > most then most else left
  }

  datatype Prospect = NoRoom | Fails(err: Err, g: Gauge) | Goes(whole: bool, g: Gauge, len: nat)

  function ForecastRecord(j: Job, g: Gauge, room: int): Prospect
    requires g.written < |j.queue|
  {
    var m := j.queue[g.written];
    if room < j.Needed(m) then NoRoom
    else
      var n, g' := PayloadLen(j, m, g.offset, room), g.Spend(j.Previous(m));
      var len := j.AeadOf(m).SealedLen(n);
      if g.Number(j.Previous(m)) + 1 >= U48 then Fails(SequenceOverflow, g')
      else if len >= U16 then Fails(RecordTooLong, g')
      else if m.isCcs || n - HEADER_LENGTH == BodyLeft(m, g.offset) then
        Goes(true, g'.(written := g.written + 1, offset := 0), RECORD_HEADER + len)
      else Goes(false, g'.(offset := g.offset + n - HEADER_LENGTH), RECORD_HEADER + len)
  }

  datatype PacketForecast = PacketForecast(g: Gauge, err: Err, records: nat)

  function ForecastPacket(j: Job, g: Gauge, room: int, records: nat): (r: PacketForecast)
    ensures g.written <= r.g.written
    ensures r.err.NoErr? && records == 0 ==> Further(j, g, r.g)
    decreases |j.queue| - g.written
  {
    var full := if records == 0 then MtuTooSmall else NoErr;
    if g.written >= |j.queue| then PacketForecast(g, full, records)
    else match ForecastRecord(j, g, room)
      case NoRoom => PacketForecast(g, full, records)
      case Fails(err, g') => PacketForecast(g', err, records)
      case Goes(whole, g', len) =>
        if whole then ForecastPacket(j, g', room - len, records + 1) else PacketForecast(g', NoErr, records + 1)
  }

  predicate Further(j: Job, g: Gauge, g': Gauge) {
    || g.written < g'.written
    || (&& g.written == g'.written < |j.queue|
        && BodyLeft(j.queue[g.written], g'.offset) < BodyLeft(j.queue[g.written], g.offset))
  }

  datatype FlightForecast = FlightForecast(g: Gauge, ret: int, err: Err, lost: bool)

  function ForecastFlight(j: Job, g: Gauge, script: seq<int>): FlightForecast
    decreases |j.queue| - g.written, if g.written < |j.queue| then BodyLeft(j.queue[g.written], g.offset) else 0
  {
    var result, script' := NextResult(script), AfterCall(script);
    if g.written >= |j.queue| then
      FlightForecast(g, if result > 0 then 1 else -1, if result > 0 then NoErr else Blocked, false)
    else
      var p := ForecastPacket(j, g, j.mtu, 0);
      if !p.err.NoErr? then FlightForecast(p.g, -1, p.err, p.records > 0)
      else if result <= 0 then
        FlightForecast(p.g.(written := g.written, offset := g.offset), result, Blocked, false)
      else ForecastFlight(j, p.g, script')
  }

  // --- The forecast comes true ---

  // A record that fits its room is sealed exactly when its number is not the last one
  // and its length fits 16 bits; its number is spent either way.
  lemma SealVerdict(s: Sender, maxOut: nat, typ: u8, payload: bytes, previous: bool)
    requires s.Valid() && s.AeadFor(previous).Valid() && (previous ==> s.wEpoch >= 1)
    requires |payload| + s.Overhead(previous) <= maxOut
    ensures var (s', sealed) := SealRecord(s, maxOut, typ, payload, previous);
      var n, len := BigEndian(s.NumberFor(previous)), s.AeadFor(previous).SealedLen(|payload|);
      && (if n + 1 >= U48 then sealed == NotSealed(SequenceOverflow)
          else if len >= U16 then sealed == NotSealed(RecordTooLong)
          else sealed.SealedRecord? && sealed.len == RECORD_HEADER + len)
      && GaugeOf(s') == GaugeOf(s).Spend(previous)
  {
    IncrementCounts(s.NumberFor(previous));
    assert s.AeadFor(previous).tagLen(|payload|) <= s.AeadFor(previous).maxTag;
  }

  // What a step of sealing did is what was forecast of it.
  ghost predicate ComesTrue(f: Prospect, s: Sender, s': Sender, out: SealOutcome) {
    match f
    case NoRoom => out == NoProgress && s' == s
    case Fails(err, g) => out == SealError(err) && GaugeOf(s') == g
    case Goes(whole, g, len) =>
      (if whole then out.Done? else out.Partial?) && out.len == len && GaugeOf(s') == g
  }

  lemma CcsForecast(s: Sender, maxOut: nat)
    requires Sendable(s) && s.written < |s.outgoing| && s.outgoing[s.written].isCcs
    ensures var (s', out) := PacketStep(s, maxOut);
      ComesTrue(ForecastRecord(JobOf(s), GaugeOf(s), maxOut), s, s', out)
  {
    hide SealRecord, BigEndian, NextCount, ParseFragment;
    var m := s.outgoing[s.written];
    assert MessageSendable(s, m);
    var previous := JobOf(s).Previous(m);
    if maxOut >= JobOf(s).Needed(m) { SealVerdict(s, maxOut, CHANGE_CIPHER_SPEC, CCS_BODY, previous); }
  }

  // The same for the handshake branch, before the message is looked up.
  lemma FragmentVerdict(s: Sender, maxOut: nat, p: Parsed, previous: bool)
    requires s.Valid() && s.AeadFor(previous).Valid() && (previous ==> s.wEpoch >= 1)
    requires s.written < |s.outgoing| && !s.outgoing[s.written].isCcs
    requires p.hdr.Valid() && p.hdr.msgLen == |p.body| && s.offset <= |p.body|
    ensures var (s', out) := SealFragment(s, maxOut, p, previous);
      if maxOut < HEADER_LENGTH + 1 + s.Overhead(previous) then out == NoProgress && s' == s
      else
      var left, room := |p.body| - s.offset, maxOut - HEADER_LENGTH - s.Overhead(previous);
      var todo := if left > room then room else left;
      var n, len := BigEndian(s.NumberFor(previous)), s.AeadFor(previous).SealedLen(HEADER_LENGTH + todo);
      if n + 1 >= U48 then out == SealError(SequenceOverflow) && GaugeOf(s') == GaugeOf(s).Spend(previous)
      else if len >= U16 then out == SealError(RecordTooLong) && GaugeOf(s') == GaugeOf(s).Spend(previous)
      else if todo == left then
        out.Done? && out.len == RECORD_HEADER + len && GaugeOf(s') == GaugeOf(s).Spend(previous).(offset := 0)
      else
        && out.Partial? && out.len == RECORD_HEADER + len
        && GaugeOf(s') == GaugeOf(s).Spend(previous).(offset := s.offset + todo)
  {
    hide SealRecord, BigEndian, NextCount, PutHeader, SealedUnder;
    var left, room := |p.body| - s.offset, maxOut - HEADER_LENGTH - s.Overhead(previous);
    if room > 0 {
      var todo := if left > room then room else left;
      SealVerdict(s, maxOut, HANDSHAKE, FragmentBytes(p.hdr, s.offset, p.body[s.offset..s.offset + todo]), previous);
    }
  }

  lemma LookedUp(s: Sender, maxOut: nat) returns (p: Parsed)
    requires Sendable(s) && s.written < |s.outgoing| && !s.outgoing[s.written].isCcs
    ensures var m := s.outgoing[s.written]; var previous := JobOf(s).Previous(m);
      && (previous ==> s.wEpoch >= 1)
      && p.hdr.Valid() && p.hdr.msgLen == |p.body| == |m.data| - HEADER_LENGTH && s.offset <= |p.body|
      && SealNextMessage(s, maxOut) == SealFragment(s, maxOut, p, previous)
  {
    hide SealFragment, ParseFragment;
    var m := s.outgoing[s.written];
    assert MessageSendable(s, m);
    SerialiseInvertsParse(m.data);
    p := ParseFragment(m.data).value;
  }

  lemma FragmentForecast(s: Sender, maxOut: nat)
    requires Sendable(s) && s.written < |s.outgoing| && !s.outgoing[s.written].isCcs
    ensures var (s', out) := PacketStep(s, maxOut);
      ComesTrue(ForecastRecord(JobOf(s), GaugeOf(s), maxOut), s, s', out)
  {
    hide SealFragment, SealNextMessage, MessageSendable, BigEndian, NextCount;
    var p := LookedUp(s, maxOut);
    FragmentVerdict(s, maxOut, p, JobOf(s).Previous(s.outgoing[s.written]));
  }

  lemma StepForecast(s: Sender, maxOut: nat)
    requires Sendable(s) && s.written < |s.outgoing|
    ensures var (s', out) := PacketStep(s, maxOut);
      ComesTrue(ForecastRecord(JobOf(s), GaugeOf(s), maxOut), s, s', out)
  {
    if s.outgoing[s.written].isCcs { CcsForecast(s, maxOut); } else { FragmentForecast(s, maxOut); }
  }

  lemma ForecastWithin(j: Job, g: Gauge, room: int)
    requires g.written < |j.queue|
    ensures var f := ForecastRecord(j, g, room);
      && (f.Goes? && f.whole ==> f.g.offset == 0)
      && (f.Goes? && !f.whole ==> f.g.offset <= |j.queue[g.written].data| - HEADER_LENGTH)
      && (f.Fails? ==> f.g.offset == g.offset)
  {}

  // A step does what was forecast of it and leaves the rest of the flight as it was.
  lemma StepVerdict(s: Sender, maxOut: nat)
    requires Sendable(s) && s.written < |s.outgoing|
    ensures var (s', out) := PacketStep(s, maxOut);
      && ComesTrue(ForecastRecord(JobOf(s), GaugeOf(s), maxOut), s, s', out)
      && Sendable(s') && JobOf(s') == JobOf(s)
  {
    hide PacketStep, ParseFragment, ForecastRecord;
    StepForecast(s, maxOut);
    ForecastWithin(JobOf(s), GaugeOf(s), maxOut);
    var s' := PacketStep(s, maxOut).0;
    assert forall i | 0 <= i < |s.outgoing| :: MessageSendable(s, s.outgoing[i]) == MessageSendable(s', s.outgoing[i]);
  }

  lemma {:induction false} PacketVerdict(s: Sender, maxOut: nat, recs: Packet, len: nat)
    requires Sendable(s)
    ensures var r := SealNextPacket(s, maxOut, recs, len);
      && PacketForecast(GaugeOf(r.s), r.err, |r.recs|) == ForecastPacket(JobOf(s), GaugeOf(s), maxOut, |recs|)
      && Sendable(r.s) && JobOf(r.s) == JobOf(s)
    decreases |s.outgoing| - s.written
  {
    hide PacketStep, MessageSendable, ForecastRecord;
    if s.written < |s.outgoing| {
      StepVerdict(s, maxOut);
      var (s', out) := PacketStep(s, maxOut);
      if out.Done? { PacketVerdict(s', maxOut - out.len, recs + [out.rec], len + out.len); }
    }
  }

  // Main result: for every sender, MTU, record number and behaviour of the transport, the
  // forecast says where the pass leaves the cursor and the record numbers, what it
  // returns, and whether it loses a partly sealed packet.
  lemma {:induction false} FlightVerdict(s: Sender, script: seq<int>)
    requires Sendable(s)
    ensures var r := SendLoop(s, script);
      && FlightForecast(GaugeOf(r.s), r.ret, r.err, Loses(s, script)) == ForecastFlight(JobOf(s), GaugeOf(s), script)
      && Sendable(r.s) && JobOf(r.s) == JobOf(s)
    decreases |s.outgoing| - s.written, Left(s)
  {
    hide SealNextPacket, MessageSendable, ForecastPacket;
    if s.written < |s.outgoing| {
      PacketVerdict(s, s.mtu, [], 0);
      var p := SealNextPacket(s, s.mtu, [], 0);
      Rewound(s, p.s);
      if p.err.NoErr? && NextResult(script) > 0 { FlightVerdict(p.s, AfterCall(script)); }
    }
  }

  // A failed write puts the cursor back where it was.
  lemma Rewound(s: Sender, s': Sender)
    requires Sendable(s) && Sendable(s') && JobOf(s') == JobOf(s)
    ensures Sendable(s'.(written := s.written, offset := s.offset))
  {}

  // --- What the forecast says ---

  // An upper bound on the records still to seal: one per octet left and one per message.
  function WorkFrom(q: seq<Outgoing>, w: nat): nat
    decreases |q| - w
  {
    if w >= |q| then 0 else BodyLeft(q[w], 0) + 1 + WorkFrom(q, w + 1)
  }

  function Work(q: seq<Outgoing>, written: nat, offset: nat): nat {
    if written >= |q| then 0 else BodyLeft(q[written], offset) + 1 + WorkFrom(q, written + 1)
  }

  // Enough record numbers are left in both epochs.
  predicate NumbersLeft(j: Job, g: Gauge) {
    && g.last + Work(j.queue, g.written, g.offset) < U48
    && g.current + Work(j.queue, g.written, g.offset) < U48
  }

  ghost predicate HonestAeads(j: Job) {
    j.aead.Valid() && j.lastAead.Valid()
  }

  // No record the sender can come to seal is too long for its 16-bit length.
  predicate Short(j: Job) {
    || j.mtu < U16
    || forall i | 0 <= i < |j.queue| :: LongestBody(j, j.queue[i]) < U16
  }

  function LongestBody(j: Job, m: Outgoing): nat {
    j.AeadOf(m).MaxOverhead() + if m.isCcs then |CCS_BODY| else HEADER_LENGTH + BodyLeft(m, 0)
  }

  lemma SealedWithin(j: Job, m: Outgoing, n: nat)
    ensures HonestAeads(j) ==> j.AeadOf(m).SealedLen(n) <= j.AeadOf(m).MaxOverhead() + n
  {
    var a := j.AeadOf(m);
    if HonestAeads(j) { assert a.tagLen(n) <= a.maxTag; }
  }

  // With numbers left the only thing that can go wrong with a record is its length.
  lemma RecordOutlook(j: Job, g: Gauge, room: int)
    requires HonestAeads(j) && NumbersLeft(j, g) && g.written < |j.queue| && room <= j.mtu
    ensures var f := ForecastRecord(j, g, room);
      && (f.NoRoom? <==> room < j.Needed(j.queue[g.written]))
      && (f.Fails? ==> f.err == RecordTooLong && !Short(j) && f.g.written == g.written && f.g.offset == g.offset)
      && (f.Goes? ==>
            && f.len <= room && f.g.written == g.written + (if f.whole then 1 else 0)
            && NumbersLeft(j, f.g) && Work(j.queue, f.g.written, f.g.offset) < Work(j.queue, g.written, g.offset))
  {
    var m := j.queue[g.written];
    if room >= j.Needed(m) { SealedWithin(j, m, PayloadLen(j, m, g.offset, room)); }
  }

  lemma {:induction false} PacketOutlook(j: Job, g: Gauge, room: int, records: nat)
    requires HonestAeads(j) && NumbersLeft(j, g) && room <= j.mtu
    ensures var r := ForecastPacket(j, g, room, records);
      && (r.err.NoErr? || r.err.MtuTooSmall? || (r.err.RecordTooLong? && !Short(j)))
      && (r.err.MtuTooSmall? ==> r.g == g && r.records == 0)
      && (r.err.MtuTooSmall? <==>
            records == 0 && (g.written >= |j.queue| || room < j.Needed(j.queue[g.written])))
      && (forall i | g.written <= i < r.g.written && i < |j.queue| :: j.Needed(j.queue[i]) <= room)
      && (r.err.NoErr? ==> NumbersLeft(j, r.g))
      && (r.err.NoErr? && records == 0 ==>
            Work(j.queue, r.g.written, r.g.offset) < Work(j.queue, g.written, g.offset))
      && Work(j.queue, r.g.written, r.g.offset) <= Work(j.queue, g.written, g.offset)
    decreases |j.queue| - g.written
  {
    hide ForecastRecord, Short, Work, NumbersLeft;
    if g.written < |j.queue| {
      RecordOutlook(j, g, room);
      var f := ForecastRecord(j, g, room);
      if f.Goes? && f.whole { PacketOutlook(j, f.g, room - f.len, records + 1); }
    }
  }

  // Every pass with numbers left: only a record too long for its length field loses
  // anything, and the MTU is too small exactly where it does not fit a message.
  lemma {:induction false} FlightOutlook(j: Job, g: Gauge, script: seq<int>)
    requires HonestAeads(j) && NumbersLeft(j, g)
    ensures var f := ForecastFlight(j, g, script);
      && (f.err.NoErr? || f.err.Blocked? || f.err.MtuTooSmall? || (f.err.RecordTooLong? && !Short(j)))
      && (f.lost ==> f.err.RecordTooLong?)
      && (f.ret == 1 && f.err.NoErr? ==>
            && f.g.written >= |j.queue|
            && forall i | g.written <= i < |j.queue| :: j.Needed(j.queue[i]) <= j.mtu)
      && (f.err.MtuTooSmall? ==>
            g.written <= f.g.written < |j.queue| && j.mtu < j.Needed(j.queue[f.g.written]))
      && (f.err.Blocked? ==> !Accepts(script, Work(j.queue, g.written, g.offset)))
      && (f.ret > 0 <==> f.err.NoErr?) && f.ret <= 1
    decreases |script|
  {
    hide ForecastPacket, NumbersLeft, Short, Work, HonestAeads, Job.Needed;
    if g.written < |j.queue| {
      PacketOutlook(j, g, j.mtu, 0);
      var p := ForecastPacket(j, g, j.mtu, 0);
      if p.err.NoErr? && NextResult(script) > 0 { FlightOutlook(j, p.g, script[1..]); }
    }
  }

  // The transport takes each of the next |n| packets, and the flush after them.
  predicate Accepts(script: seq<int>, n: nat) {
    |script| > n && forall i | 0 <= i < |script| :: script[i] > 0
  }

  // With a transport that takes everything and numbers left, the pass hands over the
  // whole flight if and only if the MTU fits a record of every message still to send and
  // no record on the way is forecast to be too long for its 16-bit length.
  lemma FlightCompletes(s: Sender, script: seq<int>)
    requires Sendable(s) && NumbersLeft(JobOf(s), GaugeOf(s))
    requires Accepts(script, Work(s.outgoing, s.written, s.offset))
    ensures var r, j := SendLoop(s, script), JobOf(s);
      && (r.ret == 1 <==>
            && !ForecastFlight(j, GaugeOf(s), script).err.RecordTooLong?
            && forall i | s.written <= i < |s.outgoing| :: j.Needed(s.outgoing[i]) <= s.mtu)
      && (r.ret == 1 ==> At(r.s) == Cursor(|s.outgoing|, 0) && r.err.NoErr?)
      && (r.ret != 1 ==> r.err.MtuTooSmall? || (r.err.RecordTooLong? && !Short(j)))
  {
    hide SendLoop, ForecastFlight, Work, NumbersLeft, MessageSendable, Short, Job.Needed;
    FlightVerdict(s, script);
    FlightOutlook(JobOf(s), GaugeOf(s), script);
  }

  // With numbers left and records short enough nothing is lost, whatever the transport does.
  lemma NothingLost(s: Sender, script: seq<int>)
    requires Sendable(s) && NumbersLeft(JobOf(s), GaugeOf(s)) && Short(JobOf(s))
    ensures !Loses(s, script)
  {
    hide SendLoop, ForecastFlight, Work, NumbersLeft, MessageSendable, Short, Loses;
    FlightVerdict(s, script);
    FlightOutlook(JobOf(s), GaugeOf(s), script);
  }

  // --- Where it goes wrong ---

  const NULL_AEAD: Aead := Aead(0, 0, n => 0)

  // A sender that has queued |q| in its first epoch and sealed nothing of it.
  function Ready(q: seq<Outgoing>, number: bytes, mtu: nat): Sender {
    Sender(q, 0, 0, false, |q|, [], 0, number, [0, 0, 0, 0, 0, 0], NULL_AEAD, NULL_AEAD, mtu, false)
  }

  function Plain(k: nat, n: nat): Outgoing
    requires k < U16 && n < U24
  {
    Outgoing(WholeMessage(11, k, seq(n, _ => 0)), 0, false)
  }

  lemma PlainLength(k: nat, n: nat)
    requires k < U16 && n < U24
    ensures |Plain(k, n).data| == HEADER_LENGTH + n && !Plain(k, n).isCcs && Plain(k, n).epoch == 0
    ensures Queueable(ParseFragment(Plain(k, n).data))
  {
    ParseWholeMessage(11, k, seq(n, _ => 0));
  }

  lemma ReadySendable(q: seq<Outgoing>, number: bytes, mtu: nat)
    requires |q| <= MAX_FLIGHT && |number| == 6
    requires forall m | m in q :: m.epoch == 0 && Queueable(ParseFragment(m.data))
    ensures Sendable(Ready(q, number, mtu))
  {}

  // A record forecast to be too long at the start of a packet stops the pass there, with
  // nothing sent and the cursor where it was: every later pass stops there too.
  lemma TooLongStops(s: Sender, script: seq<int>)
    requires Sendable(s) && s.written < |s.outgoing|
    requires var f := ForecastRecord(JobOf(s), GaugeOf(s), s.mtu); f.Fails? && f.err.RecordTooLong?
    ensures var r := SendLoop(s, script);
      && r.err == RecordTooLong && r.ret == -1 && r.sent == []
      && At(r.s) == At(s) && r.s.shutdown == s.shutdown && JobOf(r.s) == JobOf(s) && Sendable(r.s)
      && GaugeOf(r.s) == ForecastRecord(JobOf(s), GaugeOf(s), s.mtu).g
  {
    hide SealNextPacket, MessageSendable;
    PacketVerdict(s, s.mtu, [], 0);
    ForecastWithin(JobOf(s), GaugeOf(s), s.mtu);
  }

  // A flight whose first message, of 70000 octets, was to go out under an MTU of 80000.
  ghost predicate Oversized(s: Sender) {
    && Sendable(s) && !s.shutdown && At(s) == Cursor(0, 0) && BigEndian(s.writeSequence) + 1 < U48
    && JobOf(s) == JobOf(Ready([Plain(0, 70000)], [0, 0, 0, 0, 0, 0], 80000))
  }

  lemma OversizedFails(s: Sender, script: seq<int>)
    requires Oversized(s)
    ensures var r := SendLoop(s, script);
      && r.err == RecordTooLong && r.sent == []
      && (BigEndian(s.writeSequence) + 2 < U48 ==> Oversized(r.s))
  {
    hide SendLoop, BigEndian, Sendable, Plain, ForecastRecord;
    PlainLength(0, 70000);
    OneRecord(JobOf(s), GaugeOf(s), 80000);
    TooLongStops(s, script);
  }

  // A message that goes into one record without encryption.
  lemma OneRecord(j: Job, g: Gauge, room: nat)
    requires g.written < |j.queue| && g.offset == 0 && j.epoch == 0 && j.aead == NULL_AEAD
    requires !j.queue[g.written].isCcs
    requires HEADER_LENGTH < |j.queue[g.written].data| <= room - RECORD_HEADER
    ensures var f, len := ForecastRecord(j, g, room), |j.queue[g.written].data|;
      f == if g.current + 1 >= U48 then Fails(SequenceOverflow, g.Spend(false))
           else if len >= U16 then Fails(RecordTooLong, g.Spend(false))
           else Goes(true, g.Spend(false).(written := g.written + 1), RECORD_HEADER + len)
  {
    assert NULL_AEAD.tagLen(|j.queue[g.written].data|) == 0;
  }

  // An MTU of 80000 and a body of 70000 octets: the sender cuts a record that is too long
  // for its length field, sends nothing, and does so again at every retransmission.
  lemma TooLongAgain(script: seq<int>, again: seq<int>)
    ensures var s := Ready([Plain(0, 70000)], [0, 0, 0, 0, 0, 0], 80000);
      var r := SendFlight(s, true, 0, script);
      var r' := Retransmit(r.s, true, 0, again);
      && r.err == RecordTooLong && r.sent == []
      && r'.err == RecordTooLong && r'.sent == []
  {
    var s := Ready([Plain(0, 70000)], [0, 0, 0, 0, 0, 0], 80000);
    hide SendLoop, BigEndian, Sendable, Plain;
    PlainLength(0, 70000);
    ReadySendable(s.outgoing, s.writeSequence, 80000);
    ZeroNumber();
    OversizedFails(s, script);
    OversizedFails(SendLoop(s, script).s, again);
  }

  lemma ZeroNumber()
    ensures BigEndian([0, 0, 0, 0, 0, 0]) == 0
  {
    Extremes([0, 0, 0, 0, 0, 0]);
  }

  // A packet given up after a record of it was sealed: the pass sends nothing, and its
  // cursor is past what it did not send.
  lemma GivenUpLoses(s: Sender, script: seq<int>)
    requires Sendable(s) && s.written < |s.outgoing|
    requires var f := ForecastPacket(JobOf(s), GaugeOf(s), s.mtu, 0); !f.err.NoErr? && f.records > 0
    ensures var r, f := SendLoop(s, script), ForecastPacket(JobOf(s), GaugeOf(s), s.mtu, 0);
      && Loses(s, script) && r.err == f.err && r.sent == [] && At(r.s) == Cursor(f.g.written, f.g.offset)
      && !Tiles(s.outgoing, At(s), [], At(r.s))
  {
    hide SealNextPacket, BigEndian, MessageSendable, ForecastPacket;
    PacketVerdict(s, s.mtu, [], 0);
    RunTiles(s, script);
  }

  // Two messages to send, and one record number left.
  function OneLeft(): Sender {
    Ready([Plain(0, 1), Plain(1, 1)], [0xff, 0xff, 0xff, 0xff, 0xff, 0xfe], 1472)
  }

  lemma OneLeftSendable()
    ensures Sendable(OneLeft())
  {
    hide Sendable, Plain, ParseFragment, Queueable;
    PlainLength(0, 1);
    PlainLength(1, 1);
    ReadySendable(OneLeft().outgoing, OneLeft().writeSequence, 1472);
  }

  lemma OneLeftForecast()
    ensures var s := OneLeft();
      ForecastPacket(JobOf(s), GaugeOf(s), 1472, 0) ==
      PacketForecast(Gauge(1, 0, BigEndian(s.lastWriteSequence), 0), SequenceOverflow, 1)
  {
    hide ForecastPacket, Plain, BigEndian, ParseFragment, Queueable;
    PlainLength(0, 1);
    PlainLength(1, 1);
    NextToLast();
    SecondOverflows(JobOf(OneLeft()), GaugeOf(OneLeft()));
  }

  // The first is sealed, the second is not, the packet with the first is given up, and the
  // cursor stays behind it: whatever the transport does, no later flush sends the first.
  lemma LosesFirst(script: seq<int>)
    ensures var s := OneLeft(); var r := SendLoop(s, script);
      && Sendable(s) && Loses(s, script)
      && r.err == SequenceOverflow && r.sent == [] && At(r.s) == Cursor(1, 0)
  {
    hide ForecastPacket, Sendable, SendLoop, Loses, Plain, BigEndian;
    OneLeftSendable();
    OneLeftForecast();
    GivenUpLoses(OneLeft(), script);
  }

  lemma SecondOverflows(j: Job, g: Gauge)
    requires j.epoch == 0 && j.aead == NULL_AEAD && |j.queue| == 2
    requires forall i | 0 <= i < 2 :: !j.queue[i].isCcs && |j.queue[i].data| == HEADER_LENGTH + 1
    requires g == Gauge(0, 0, g.last, U48 - 2)
    ensures ForecastPacket(j, g, 1472, 0) == PacketForecast(Gauge(1, 0, g.last, 0), SequenceOverflow, 1)
  {
    hide ForecastRecord;
    OneRecord(j, g, 1472);
    OneRecord(j, Gauge(1, 0, g.last, U48 - 1), 1446);
  }

  lemma NextToLast()
    ensures BigEndian([0xff, 0xff, 0xff, 0xff, 0xff, 0xfe]) == U48 - 2
  {
    var b: bytes, c: bytes := [0xff, 0xff, 0xff, 0xff, 0xff, 0xfe], [0xff, 0xff, 0xff, 0xff, 0xff, 0xff];
    Extremes(c);
    Below48(c);
    assert b[..5] == c[..5];
  }
}
