/** A flight from one end to the other: what a sender needs for its pass to go out whole in
    records that are accepted, and what the network has to do with them for the receiver to
    deliver the flight. */
module DtlsEndToEnd {
  import opened Bytes
  import opened HandshakeWire
  import opened DtlsRecord
  import opened RecordTypes
  import opened DtlsReceive
  import opened DtlsSend
  import opened DtlsTiling
  import opened DtlsProgress
  import opened DtlsLimits
  import opened DtlsDelivery
  import opened DtlsLiveness
  import P = DtlsProgress
  import R = DtlsReceiver

  // What a caller can check of a sender about to start a pass: proper messages, numbers
  // left, and an MTU that is large enough for each message and not larger than the receiver takes.
  ghost predicate WellSet(s: Sender): (well: bool)
    ensures well ==> s.Valid()
  {
    && Sendable(s) && At(s) == Cursor(0, 0) && NumbersLeft(JobOf(s), GaugeOf(s)) && AllModest(JobOf(s))
    && forall i | 0 <= i < |s.outgoing| :: JobOf(s).Needed(s.outgoing[i]) <= s.mtu
  }

  function PassOf(s: Sender, script: seq<int>): Packet
    requires s.Valid()
  {
    Flatten(SendLoop(s, script).sent)
  }

  lemma ModestIsShort(j: Job)
    requires AllModest(j)
    ensures Short(j)
  {
    if j.queue != [] { assert Modest(j, j.queue[0]); }
  }

  lemma {:induction false} FlattenFits(packets: seq<Packet>)
    requires forall p | p in packets :: AllFit(p)
    ensures forall rec | rec in Flatten(packets) :: Fits(rec)
  {
    if packets != [] {
      FlattenFits(packets[1..]);
      assert AllFit(packets[0]);
    }
  }

  // Such a pass goes out whole: it tiles the flight, in records the receiver accepts.
  lemma PassGoesOut(s: Sender, script: seq<int>)
    requires WellSet(s) && Accepts(script, Work(s.outgoing, 0, 0))
    ensures var r := SendLoop(s, script);
      && r.ret == 1 && Tiles(s.outgoing, Cursor(0, 0), PassOf(s, script), Cursor(|s.outgoing|, 0))
      && forall rec | rec in PassOf(s, script) :: Fits(rec)
  {
    hide SendLoop, ForecastFlight, NumbersLeft, MessageSendable, Short, AllModest, Tiles, Loses, Work, Fits, AllFit;
    ModestIsShort(JobOf(s));
    FlightCompletes(s, script);
    FlightVerdict(s, script);
    FlightOutlook(JobOf(s), GaugeOf(s), script);
    NothingLost(s, script);
    RunTiles(s, script);
    FlightFits(s, script);
    FlattenFits(SendLoop(s, script).sent);
  }

  // The receiver has no reason to fail on message |m|, if it is of the epoch being read.
  predicate Welcome(r: Receiver, m: Outgoing) {
    m.epoch == r.rEpoch ==>
      if m.isCcs then r.nullCipher
      else
        var p := ParseFragment(m.data);
        && p.Some? && p.value.hdr.msgLen <= r.maxMessageLen
        && (r.rEpoch == 1 ==> p.value.hdr.seq_ == r.readSeq) && p.value.hdr.seq_ != r.readSeq + MAX_FLIGHT
  }

  lemma OwedIsSound(t: seq<bytes>, q: seq<Outgoing>, c: Cursor, rec: Record, r: Receiver)
    requires IsTranscript(t) && QueueGenuine(t, q) && Owed(q, c, rec) && Fits(rec) && Welcome(r, q[c.written])
    ensures Harmless(t, r, rec)
  {
    hide ParseFragment, Genuine, QueueGenuine;
    OwedIsGenuine(t, q, c, rec);
    if !q[c.written].isCcs && rec.Epoch() == r.rEpoch { OwedLength(t, q, c, rec); }
  }

  lemma OwedLength(t: seq<bytes>, q: seq<Outgoing>, c: Cursor, rec: Record)
    requires IsTranscript(t) && QueueGenuine(t, q) && Owed(q, c, rec) && !q[c.written].isCcs
    ensures ParseFragment(rec.payload).Some?
    ensures HdrOf(rec).msgLen == ParseFragment(q[c.written].data).value.hdr.msgLen
    ensures HdrOf(rec).seq_ == ParseFragment(q[c.written].data).value.hdr.seq_
  {
    OwedIsGenuine(t, q, c, rec);
    var p := ParseFragment(q[c.written].data).value;
    SerialiseInvertsParse(q[c.written].data);
    var hdr := Header(p.hdr.typ, p.hdr.msgLen, p.hdr.seq_, c.offset, Carried(rec));
    var part := p.body[c.offset..c.offset + Carried(rec)];
    hide ParseFragment, Genuine, QueueGenuine;
    ParseInvertsSerialise(hdr, part, []);
    assert PutHeader(hdr) + part + [] == rec.payload;
  }

  lemma {:induction false} TilesAreHarmless(t: seq<bytes>, q: seq<Outgoing>, c: Cursor, recs: Packet, d: Cursor, r: Receiver)
    requires IsTranscript(t) && QueueGenuine(t, q) && Tiles(q, c, recs, d)
    requires (forall rec | rec in recs :: Fits(rec)) && forall m | m in q :: Welcome(r, m)
    ensures AllHarmless(t, r, recs)
    decreases |recs|
  {
    hide Genuine, QueueGenuine, Fits, Harmless, Welcome, NextCursor, ParseFragment;
    if recs != [] {
      OwedIsSound(t, q, c, recs[0], r);
      TilesAreHarmless(t, q, NextCursor(q, c, recs[0]), recs[1..], d, r);
      assert recs == [recs[0]] + recs[1..];
    }
  }

  // What the network does with a pass: each record of it that the receiver can open comes
  // in time, and with the pass only what else is harmless.
  predicate Conveys(t: seq<bytes>, pass: Packet, r: Receiver, recs: seq<Record>)
    requires IsTranscript(t)
  {
    && (forall rec | rec in pass && rec.Valid() && rec.Epoch() == r.rEpoch :: Arrives(r, recs, rec))
    && (forall rec | rec in recs :: rec in pass || Harmless(t, r, rec))
  }

  // A receiver that has taken only genuine bytes and welcomes the flight |q|.
  predicate Prepared(t: seq<bytes>, q: seq<Outgoing>, r: Receiver)
    requires IsTranscript(t)
  {
    r.Valid() && RingGenuine(t, r) && forall m | m in q :: Welcome(r, m)
  }

  lemma PassGetsThrough(t: seq<bytes>, q: seq<Outgoing>, pass: Packet, r: Receiver, recs: seq<Record>)
    requires IsTranscript(t) && QueueGenuine(t, q) && Prepared(t, q, r) && Conveys(t, pass, r, recs)
    requires Tiles(q, Cursor(0, 0), pass, Cursor(|q|, 0)) && forall rec | rec in pass :: Fits(rec)
    ensures GetsThrough(t, q, pass, r, recs)
  {
    hide QueueGenuine, RingGenuine, Tiles, Welcome, Harmless, Arrives, Record.Epoch;
    TilesAreHarmless(t, q, Cursor(0, 0), pass, Cursor(|q|, 0), r);
  }

  lemma ConveyedGetsThrough(t: seq<bytes>, s: Sender, script: seq<int>, r: Receiver, recs: seq<Record>)
    requires IsTranscript(t) && QueueGenuine(t, s.outgoing) && Prepared(t, s.outgoing, r)
    requires WellSet(s) && Accepts(script, Work(s.outgoing, 0, 0)) && Conveys(t, PassOf(s, script), r, recs)
    ensures GetsThrough(t, s.outgoing, PassOf(s, script), r, recs)
  {
    hide PassOf, QueueGenuine, Prepared, Conveys, GetsThrough, Tiles, WellSet, SendLoop, Fits;
    PassGoesOut(s, script);
    PassGetsThrough(t, s.outgoing, PassOf(s, script), r, recs);
  }

  // Main result, within an epoch: what a well-set sender sends and the network conveys, a
  // prepared receiver delivers, failing on nothing.
  lemma SentIsDelivered(t: seq<bytes>, s: Sender, script: seq<int>, r: Receiver, recs: seq<Record>, n: nat)
    requires IsTranscript(t) && QueueGenuine(t, s.outgoing) && Prepared(t, s.outgoing, r)
    requires WellSet(s) && Accepts(script, Work(s.outgoing, 0, 0)) && Conveys(t, PassOf(s, script), r, recs)
    requires Expected(t, s.outgoing, r, n)
    ensures forall rec | rec in recs :: rec.Valid()
    ensures var (r1, ok) := Receive(r, recs);
      ok && TakeMany(r1, n).1 == t[r.readSeq..r.readSeq + n]
  {
    hide PassOf, QueueGenuine, Prepared, GetsThrough, WellSet, Conveys, Takes, Receive, TakeMany, Keeps, MovedOn;
    ConveyedGetsThrough(t, s, script, r, recs);
    EpochDelivered(t, s.outgoing, PassOf(s, script), r, recs, n);
  }

  // Main result, across a change of cipher: the flight's messages before and after it.
  lemma SentIsDeliveredAcross(t: seq<bytes>, s: Sender, script: seq<int>, r: Receiver, recs: seq<Record>, n: nat,
                              rec: Record, nullCipher: bool, recs': seq<Record>, n': nat)
    requires IsTranscript(t) && QueueGenuine(t, s.outgoing) && WellSet(s) && Accepts(script, Work(s.outgoing, 0, 0))
    requires Prepared(t, s.outgoing, r) && Conveys(t, PassOf(s, script), r, recs) && Expected(t, s.outgoing, r, n)
    requires n > 0 && OnlyBelow(r, r.readSeq + n) && AllBelow(r, recs, r.readSeq + n)
    requires exists i | 0 <= i < |s.outgoing| :: s.outgoing[i].isCcs && s.outgoing[i].epoch == r.rEpoch
    requires r.rEpoch + 1 < U16 && rec.Valid()
    requires var r' := Switched(r, n, nullCipher);
      && Prepared(t, s.outgoing, r') && Conveys(t, PassOf(s, script), r', recs') && Expected(t, s.outgoing, r', n')
    ensures forall rec | rec in recs + recs' :: rec.Valid()
    ensures
      var (r1, ok1) := Receive(r, recs);
      var (r2, ms) := TakeMany(r1, n);
      var (r3, ccs) := OpenChangeCipherSpec(r2, rec);
      var (r4, switched) := SetReadState(r3, nullCipher);
      var (r5, ok2) := Receive(r4, recs');
      var (r6, ms') := TakeMany(r5, n');
      && ok1 && ccs == Success && switched && ok2
      && ms + ms' == t[r.readSeq..r.readSeq + n + n']
  {
    hide PassOf, QueueGenuine, GetsThrough, WellSet, Conveys, Takes, Receive, TakeMany, Welcome, RingGenuine,
         OnlyBelow, AllBelow, OpenChangeCipherSpec, SetReadState;
    ConveyedGetsThrough(t, s, script, r, recs);
    ConveyedGetsThrough(t, s, script, Switched(r, n, nullCipher), recs');
    FlightDelivered(t, s.outgoing, PassOf(s, script), r, recs, n, rec, nullCipher, recs', n');
  }

  // --- The smallest flight ---

  // One message of one octet, to be sent without encryption.
  function OneMessage(): Sender {
    P.Ready([Plain(0, 1)], [0, 0, 0, 0, 0, 0], DEFAULT_MTU)
  }

  lemma OneMessageWellSet()
    ensures WellSet(OneMessage()) && Work(OneMessage().outgoing, 0, 0) == 2
  {
    hide Plain, ParseFragment, Queueable, BigEndian, Sendable, NumbersLeft, AllModest, Job.Needed, Work;
    PlainLength(0, 1);
    ReadySendable(OneMessage().outgoing, [0, 0, 0, 0, 0, 0], DEFAULT_MTU);
    OneMessageNumbers();
    OneMessageModest();
  }

  lemma OneMessageNumbers()
    ensures var s := OneMessage(); NumbersLeft(JobOf(s), GaugeOf(s)) && Work(s.outgoing, 0, 0) == 2
  {
    hide Plain, BigEndian;
    PlainLength(0, 1);
    ZeroNumber();
    assert WorkFrom(OneMessage().outgoing, 1) == 0;
  }

  lemma OneMessageModest()
    ensures var s, j := OneMessage(), JobOf(OneMessage());
      AllModest(j) && forall i | 0 <= i < |s.outgoing| :: j.Needed(s.outgoing[i]) <= s.mtu
  {
    hide Plain, BigEndian, Modest, Job.Needed;
    PlainLength(0, 1);
    NullModest(JobOf(OneMessage()), Plain(0, 1));
  }

  lemma NullModest(j: Job, m: Outgoing)
    requires j.epoch == 0 && j.aead == NULL_AEAD && j.mtu == DEFAULT_MTU && !m.isCcs
    ensures Modest(j, m) && j.Needed(m) <= j.mtu
  {}

  lemma OneMessageForecast()
    ensures var j, g := JobOf(OneMessage()), GaugeOf(OneMessage());
      ForecastPacket(j, g, DEFAULT_MTU, 0) == PacketForecast(g.(written := 1, current := 1), NoErr, 1)
  {
    hide Plain, ParseFragment, Queueable, BigEndian, ForecastRecord;
    PlainLength(0, 1);
    ZeroNumber();
    OneRecord(JobOf(OneMessage()), GaugeOf(OneMessage()), DEFAULT_MTU);
  }

  // A flight that goes out in one packet.
  lemma LonePacket(s: Sender, script: seq<int>)
    requires s.Valid() && s.written < |s.outgoing| && |script| > 1 && script[0] > 0
    requires var p := SealNextPacket(s, s.mtu, [], 0); p.err.NoErr? && p.s.written == |s.outgoing|
    ensures PassOf(s, script) == SealNextPacket(s, s.mtu, [], 0).recs
  {
    hide SealNextPacket;
    var p := SealNextPacket(s, s.mtu, [], 0);
    var rest := SendLoop(p.s, script[1..]);
    assert rest.sent == [];
    assert SendLoop(s, script).sent == [p.recs] + rest.sent;
    assert [p.recs] + [] == [p.recs] && [p.recs][1..] == [];
    assert Flatten([p.recs]) == p.recs + Flatten([]) && Flatten([]) == [] && p.recs + [] == p.recs;
  }

  lemma OnePacket()
    ensures |PassOf(OneMessage(), [1, 1, 1])| == 1
  {
    hide Plain, PassOf, ForecastPacket, SealNextPacket, WellSet;
    OneMessageWellSet();
    OneMessageForecast();
    OneMessageSendable();
    hide Sendable, BigEndian;
    PacketVerdict(OneMessage(), DEFAULT_MTU, [], 0);
    LonePacket(OneMessage(), [1, 1, 1]);
  }

  lemma OneMessageSendable()
    ensures WellSet(OneMessage()) ==> Sendable(OneMessage())
  {}

  // The hypotheses of the results above can be met: this flight, conveyed as it was sent to
  // a new receiver, is delivered.
  lemma SmallestFlight()
    ensures var s, t, r := OneMessage(), [Plain(0, 1).data], R.Initial(100); var recs := PassOf(s, [1, 1, 1]);
      && (forall rec | rec in recs :: rec.Valid())
      && var (r1, ok) := Receive(r, recs); ok && TakeMany(r1, 1).1 == t
  {
    hide Plain, PassOf, WellSet, ParseFragment, Receive, TakeMany;
    var s, t, r := OneMessage(), [Plain(0, 1).data], R.Initial(100);
    var recs := PassOf(s, [1, 1, 1]);
    OneMessageWellSet();
    OnePacket();
    OneMessageTranscript();
    OneComesInTime(t, r, recs);
    SentIsDelivered(t, s, [1, 1, 1], r, recs, 1);
    assert t[0..0 + 1] == t;
  }

  lemma OneComesInTime(t: seq<bytes>, r: Receiver, recs: Packet)
    requires IsTranscript(t) && |recs| == 1 && r.window.max == 0 && r.window.seen == {}
    ensures Conveys(t, recs, r, recs)
  {
    hide Record.Number, Record.Epoch;
    InOrderInTime(r, recs, 0);
  }

  lemma OneMessageTranscript()
    ensures var s, t, r := OneMessage(), [Plain(0, 1).data], R.Initial(100);
      IsTranscript(t) && QueueGenuine(t, s.outgoing) && Prepared(t, s.outgoing, r) && Expected(t, s.outgoing, r, 1)
  {
    ParseWholeMessage(11, 0, [0]);
    assert seq(1, _ => 0) == [0];
    hide ParseFragment;
    var q, t, r := OneMessage().outgoing, [Plain(0, 1).data], R.Initial(100);
    assert Takes(r, t, 0) && !q[0].isCcs && q[0].epoch == r.rEpoch && q[0].data == t[0];
  }
}
