/** End-to-end delivery of handshake messages over a network that loses, duplicates and
    reorders: what the receiver delivers is what the sender hashed, in order. */
module DtlsDelivery {
  import opened Bytes
  import opened HandshakeWire
  import opened Reassembly
  import opened DtlsRecord
  import opened RecordTypes
  import opened DtlsReceive
  import S = DtlsSend
  import opened DtlsTiling

  // The |k|th message a sender hashed: one whole fragment, numbered |k|.
  predicate IsMessage(m: bytes, k: nat) {
    S.Queueable(ParseFragment(m)) && ParseFragment(m).value.hdr.seq_ == k
  }

  predicate IsTranscript(t: seq<bytes>) {
    |t| < U16 && forall k | 0 <= k < |t| :: IsMessage(t[k], k)
  }

  function HeaderOf(t: seq<bytes>, k: nat): (h: Header)
    requires IsTranscript(t) && k < |t|
    ensures h.Valid() && h.seq_ == k && h.msgLen == |BodyOf(t, k)|
  {
    assert IsMessage(t[k], k);
    SerialiseInvertsParse(t[k]);
    ParseFragment(t[k]).value.hdr
  }

  function BodyOf(t: seq<bytes>, k: nat): bytes
    requires IsTranscript(t) && k < |t|
  {
    assert IsMessage(t[k], k);
    ParseFragment(t[k]).value.body
  }

  lemma MessageRebuilt(t: seq<bytes>, k: nat)
    requires IsTranscript(t) && k < |t|
    ensures |BodyOf(t, k)| < U24 && t[k] == WholeMessage(HeaderOf(t, k).typ, k, BodyOf(t, k))
  {
    var h := HeaderOf(t, k);
    assert IsMessage(t[k], k);
    SerialiseInvertsParse(t[k]);
    assert h == Header(h.typ, h.msgLen, k, 0, h.msgLen);
    assert PutHeader(h) + BodyOf(t, k) + [] == PutHeader(h) + BodyOf(t, k);
  }

  // A fragment cut from one of the messages in |t|.
  predicate FragmentOf(t: seq<bytes>, hdr: Header, body: bytes)
    requires IsTranscript(t)
  {
    && hdr.seq_ < |t|
    && hdr.fragLen == |body| && hdr.fragOff + |body| <= |BodyOf(t, hdr.seq_)|
    && hdr == Header(HeaderOf(t, hdr.seq_).typ, |BodyOf(t, hdr.seq_)|, hdr.seq_, hdr.fragOff, |body|)
    && body == BodyOf(t, hdr.seq_)[hdr.fragOff..hdr.fragOff + |body|]
  }

  // A record whose payload, if it is handshake data, is one such fragment.
  predicate Genuine(t: seq<bytes>, rec: Record)
    requires IsTranscript(t)
  {
    rec.typ == HANDSHAKE ==>
      var p := ParseFragment(rec.payload);
      p.Some? && p.value.rest == [] && FragmentOf(t, p.value.hdr, p.value.body)
  }

  // What a slot may hold: bytes of the message with its number.
  predicate SlotGenuine(t: seq<bytes>, s: Slot)
    requires IsTranscript(t)
  {
    && s.seq_ < |t|
    && s.typ == HeaderOf(t, s.seq_).typ
    && |s.got| == |BodyOf(t, s.seq_)|
    && forall j | 0 <= j < |s.got| && s.got[j].Some? :: s.got[j].value == BodyOf(t, s.seq_)[j]
  }

  predicate RingGenuine(t: seq<bytes>, r: Receiver)
    requires IsTranscript(t) && r.Valid()
  {
    forall i | 0 <= i < MAX_FLIGHT && r.slots[i].Some? :: SlotGenuine(t, r.slots[i].value)
  }

  // --- One fragment at the receiver ---

  // With honest fragments nothing ever disagrees with its slot, so the receiver fails
  // exactly on messages over its size limit, on any message but the current one in
  // epoch 1, and on the message just past the window.
  lemma FragmentVerdict(t: seq<bytes>, r: Receiver, hdr: Header, body: bytes)
    requires IsTranscript(t) && r.Valid() && RingGenuine(t, r)
    requires hdr.Valid() && FragmentOf(t, hdr, body)
    ensures var (r', out) := TakeFragment(r, hdr, body);
      && (out.Fail? <==>
            || hdr.msgLen > r.maxMessageLen
            || (r.rEpoch == 1 && hdr.seq_ != r.readSeq)
            || hdr.seq_ == r.readSeq + MAX_FLIGHT)
      && (!out.Fail? ==> out == Success)
  {
    hide ParseFragment;
    var idx := hdr.seq_ % MAX_FLIGHT;
    if r.readSeq <= hdr.seq_ < r.readSeq + MAX_FLIGHT && r.slots[idx].Some? {
      assert SlotGenuine(t, r.slots[idx].value);
      SameNumber(r, hdr.seq_);
    }
  }

  // Within the window the index determines the number.
  lemma SameNumber(r: Receiver, k: nat)
    requires r.Valid() && r.readSeq <= k < r.readSeq + MAX_FLIGHT && r.slots[k % MAX_FLIGHT].Some?
    ensures r.slots[k % MAX_FLIGHT].value.seq_ == k
  {
    assert r.SlotFits(r.slots[k % MAX_FLIGHT].value, k % MAX_FLIGHT);
  }

  lemma MarkedStaysGenuine(t: seq<bytes>, s: Slot, hdr: Header, body: bytes)
    requires IsTranscript(t) && SlotGenuine(t, s) && hdr.Valid() && FragmentOf(t, hdr, body)
    requires s.seq_ == hdr.seq_
    ensures hdr.fragOff + |body| <= |s.got| && SlotGenuine(t, s.Marked(hdr.fragOff, body))
  {
    hide ParseFragment;
  }

  lemma FragmentKeepsGenuine(t: seq<bytes>, r: Receiver, hdr: Header, body: bytes)
    requires IsTranscript(t) && r.Valid() && RingGenuine(t, r)
    requires hdr.Valid() && FragmentOf(t, hdr, body)
    ensures RingGenuine(t, TakeFragment(r, hdr, body).0)
  {
    hide ParseFragment;
    var idx := hdr.seq_ % MAX_FLIGHT;
    if r.readSeq <= hdr.seq_ < r.readSeq + MAX_FLIGHT {
      if r.slots[idx].Some? {
        SameNumber(r, hdr.seq_);
        assert SlotGenuine(t, r.slots[idx].value);
        MarkedStaysGenuine(t, r.slots[idx].value, hdr, body);
      } else {
        var s := FreshSlot(hdr);
        assert SlotGenuine(t, s);
        MarkedStaysGenuine(t, s, hdr, body);
      }
    }
  }

  lemma RecordKeepsFront(r: Receiver, rec: Record)
    requires r.Valid() && rec.Valid() && r.CurrentComplete()
    ensures OpenHandshake(r, rec).0.CurrentComplete()
  {
    hide TakeFragments;
    var r1 := OpenRecord(r, rec).0;
    CompleteKept(r1, rec.payload);
  }

  lemma RecordKeepsGenuine(t: seq<bytes>, r: Receiver, rec: Record)
    requires IsTranscript(t) && r.Valid() && RingGenuine(t, r) && rec.Valid() && Genuine(t, rec)
    ensures var (r', out) := OpenHandshake(r, rec);
      && RingGenuine(t, r') && r'.readSeq == r.readSeq && r'.hasMessage == r.hasMessage
      && (r.CurrentComplete() ==> r'.CurrentComplete())
  {
    hide ParseFragment, TakeFragment;
    if r.CurrentComplete() { RecordKeepsFront(r, rec); }
    var (r1, out1) := OpenRecord(r, rec);
    assert r1.slots == r.slots;
    if out1 == Success && rec.typ == HANDSHAKE {
      var p := ParseFragment(rec.payload).value;
      SerialiseInvertsParse(rec.payload);
      FragmentKeepsGenuine(t, r1, p.hdr, p.body);
      var (r2, out2) := TakeFragment(r1, p.hdr, p.body);
      assert TakeFragments(r2, []) == (r2, Success);
    }
  }

  // --- Whole runs ---

  // Both ends and every record that ever entered the network; losing, duplicating and
  // reordering records is the freedom to deliver any of them, any number of times.
  datatype System = System(tx: S.Sender, net: set<Record>, rx: Receiver, delivered: seq<bytes>)

  datatype Action =
    | Queue(typ: u8, body: bytes)
    | QueueCcs
    | Flush(mayQuery: bool, query: int, script: seq<int>)
    | Resend(mayQuery: bool, query: int, script: seq<int>)
    | SwitchWrite(aead: Aead)
    | WriteOther(maxOut: nat, typ: u8, payload: bytes)
    | Arrive(rec: Record)
    | ArriveForCcs(rec: Record)
    | Get
    | Next
    | SwitchRead(nullCipher: bool)

  function RecordSet(packets: seq<S.Packet>): set<Record> {
    set p, rec | p in packets && rec in p :: rec
  }

  // When an action can happen. A connection sends fewer than 2^16 messages, so that its
  // 16-bit message counter does not wrap; a message that does not fit a 24-bit length
  // fails in dtls1_init_message; what is written beside the flight is not handshake data;
  // and the handshake calls dtls1_next_message only on a message it has been given.
  predicate Enabled(sys: System, a: Action) {
    match a
    case Queue(_, body) => |sys.tx.transcript| + 1 < U16 && |body| < U24
    case WriteOther(_, typ, _) => typ != HANDSHAKE
    case Arrive(rec) => rec in sys.net
    case ArriveForCcs(rec) => rec in sys.net
    case Next => sys.rx.hasMessage
    case _ => true
  }

  // A message handed out is still there, complete.
  predicate Wellformed(sys: System) {
    && sys.tx.Valid() && sys.rx.Valid() && (forall rec | rec in sys.net :: rec.Valid())
    && (sys.rx.hasMessage ==> sys.rx.CurrentComplete())
  }

  function Act(sys: System, a: Action): System
    requires Wellformed(sys) && Enabled(sys, a)
  {
    match a
    case Queue(typ, body) =>
      FinishedMessageIsWhole(typ, sys.tx.writeSeq, body);
      var data := FinishMessage(InitMessage(typ, sys.tx.writeSeq, body)).value;
      sys.(tx := S.AddOutgoing(sys.tx, false, data).0)
    case QueueCcs => sys.(tx := S.AddOutgoing(sys.tx, true, []).0)
    case Flush(mayQuery, query, script) => Sent(sys, S.FlushFlight(sys.tx, mayQuery, query, script))
    case Resend(mayQuery, query, script) => Sent(sys, S.Retransmit(sys.tx, mayQuery, query, script))
    case SwitchWrite(aead) => sys.(tx := S.SetWriteState(sys.tx, aead))
    case WriteOther(maxOut, typ, payload) =>
      var (tx, sealed) := S.SealRecord(sys.tx, maxOut, typ, payload, false);
      sys.(tx := tx, net := if sealed.SealedRecord? then sys.net + {sealed.rec} else sys.net)
    case Arrive(rec) => sys.(rx := OpenHandshake(sys.rx, rec).0)
    case ArriveForCcs(rec) => sys.(rx := OpenChangeCipherSpec(sys.rx, rec).0)
    case Get => sys.(rx := GetMessage(sys.rx).0)
    case Next => sys.(rx := NextMessage(sys.rx), delivered := sys.delivered + [sys.rx.Current().value.Raw()])
    case SwitchRead(nullCipher) => sys.(rx := SetReadState(sys.rx, nullCipher).0)
  }

  function Sent(sys: System, r: S.FlightRun): System {
    sys.(tx := r.s, net := sys.net + RecordSet(r.sent))
  }

  // Queued messages are hashed messages.
  predicate QueueGenuine(t: seq<bytes>, q: seq<S.Outgoing>)
    requires IsTranscript(t)
  {
    forall i | 0 <= i < |q| && !q[i].isCcs :: InTranscript(t, q[i].data)
  }

  predicate InTranscript(t: seq<bytes>, m: bytes)
    requires IsTranscript(t)
  {
    ParseFragment(m).Some? && var k := ParseFragment(m).value.hdr.seq_; k < |t| && t[k] == m
  }

  predicate Inv(sys: System) {
    var t := sys.tx.transcript;
    && Wellformed(sys)
    && IsTranscript(t) && sys.tx.writeSeq == |t|
    && QueueGenuine(t, sys.tx.outgoing)
    && (forall rec | rec in sys.net :: Genuine(t, rec))
    && RingGenuine(t, sys.rx)
    && sys.rx.readSeq == |sys.delivered|
    && sys.delivered <= t
  }

  ghost predicate Run(sys: System, actions: seq<Action>, sys': System)
    decreases |actions|
  {
    if actions == [] then sys == sys'
    else
      && Wellformed(sys)
      && Enabled(sys, actions[0])
      && Run(Act(sys, actions[0]), actions[1..], sys')
  }

  // The transcript only grows, and what was genuine stays so.
  lemma GrowKeepsGenuine(t: seq<bytes>, t': seq<bytes>)
    requires IsTranscript(t) && IsTranscript(t') && t <= t'
    ensures forall hdr: Header, body | FragmentOf(t, hdr, body) :: FragmentOf(t', hdr, body)
    ensures forall rec | Genuine(t, rec) :: Genuine(t', rec)
    ensures forall s | SlotGenuine(t, s) :: SlotGenuine(t', s)
    ensures forall m | InTranscript(t, m) :: InTranscript(t', m)
  {
    hide ParseFragment;
    assert forall k | 0 <= k < |t| :: t'[k] == t[k];
  }

  lemma QueuedIsMessage(typ: u8, k: nat, body: bytes)
    requires k < U16 && |body| < U24
    ensures FinishMessage(InitMessage(typ, k, body)) == Some(WholeMessage(typ, k, body))
    ensures IsMessage(WholeMessage(typ, k, body), k)
  {
    FinishedMessageIsWhole(typ, k, body);
    ParseWholeMessage(typ, k, body);
  }

  lemma TranscriptGrows(t: seq<bytes>, m: bytes)
    requires IsTranscript(t) && IsMessage(m, |t|) && |t| + 1 < U16
    ensures IsTranscript(t + [m]) && InTranscript(t + [m], m)
  {
    hide ParseFragment;
    forall k | 0 <= k < |t| + 1 ensures IsMessage((t + [m])[k], k) {
      if k < |t| { assert (t + [m])[k] == t[k]; }
    }
  }

  lemma QueueKeepsInv(sys: System, typ: u8, body: bytes)
    requires Inv(sys) && Enabled(sys, Queue(typ, body))
    ensures Inv(Act(sys, Queue(typ, body)))
  {
    hide ParseFragment, FinishMessage, InitMessage, WholeMessage, IsMessage, IsTranscript, InTranscript, Genuine, SlotGenuine;
    var t, k := sys.tx.transcript, sys.tx.writeSeq;
    var data := WholeMessage(typ, k, body);
    QueuedIsMessage(typ, k, body);
    TranscriptGrows(t, data);
    GrowKeepsGenuine(t, t + [data]);
  }

  // What the sender owes at its cursor is cut from a message it hashed.
  lemma OwedIsGenuine(t: seq<bytes>, q: seq<S.Outgoing>, c: Cursor, rec: Record)
    requires IsTranscript(t) && QueueGenuine(t, q) && Owed(q, c, rec)
    ensures rec.Valid() && Genuine(t, rec)
    ensures !q[c.written].isCcs ==>
      var m, cut := ParseFragment(q[c.written].data).value, ParseFragment(rec.payload).value.hdr;
      cut.seq_ == m.hdr.seq_ && cut.fragOff == c.offset && cut.fragLen == Carried(rec)
  {
    if !q[c.written].isCcs {
      var m := q[c.written].data;
      assert InTranscript(t, m);
      var p := ParseFragment(m).value;
      var k, n := p.hdr.seq_, Carried(rec);
      assert IsMessage(t[k], k);
      SerialiseInvertsParse(m);
      var hdr := Header(p.hdr.typ, p.hdr.msgLen, k, c.offset, n);
      var part := p.body[c.offset..c.offset + n];
      ParseInvertsSerialise(hdr, part, []);
      assert PutHeader(hdr) + part + [] == rec.payload;
    }
  }

  lemma {:induction false} TilesAreGenuine(t: seq<bytes>, q: seq<S.Outgoing>, c: Cursor, recs: S.Packet, d: Cursor)
    requires IsTranscript(t) && QueueGenuine(t, q) && Tiles(q, c, recs, d)
    ensures forall rec | rec in recs :: rec.Valid() && Genuine(t, rec)
    decreases |recs|
  {
    hide Genuine, QueueGenuine;
    if recs != [] {
      OwedIsGenuine(t, q, c, recs[0]);
      TilesAreGenuine(t, q, NextCursor(q, c, recs[0]), recs[1..], d);
      assert recs == [recs[0]] + recs[1..];
    }
  }

  lemma {:induction false} LoopSendsGenuine(t: seq<bytes>, s: S.Sender, script: seq<int>)
    requires s.Valid() && IsTranscript(t) && QueueGenuine(t, s.outgoing)
    ensures var r := S.SendLoop(s, script);
      && (forall p, rec | p in r.sent && rec in p :: rec.Valid() && Genuine(t, rec))
      && r.s.outgoing == s.outgoing && r.s.transcript == s.transcript && r.s.writeSeq == s.writeSeq
    decreases |s.outgoing| - s.written, S.Left(s)
  {
    hide Genuine, QueueGenuine, IsTranscript, S.SealNextPacket, Tiles;
    if s.written < |s.outgoing| {
      var p := S.SealNextPacket(s, s.mtu, [], 0);
      PacketTilesFromStart(s);
      TilesAreGenuine(t, s.outgoing, At(s), p.recs, At(p.s));
      if p.err.NoErr? && S.NextResult(script) > 0 {
        LoopSendsGenuine(t, p.s, S.AfterCall(script));
      }
    }
  }

  lemma PacketTilesFromStart(s: S.Sender)
    requires s.Valid()
    ensures var p := S.SealNextPacket(s, s.mtu, [], 0); Tiles(s.outgoing, At(s), p.recs, At(p.s))
  {
    hide S.SealNextPacket;
    PacketTiles(s, s.mtu, [], 0, At(s));
  }

  lemma SentKeepsInv(sys: System, s: S.Sender, script: seq<int>)
    requires Inv(sys) && s.Valid()
    requires s.outgoing == sys.tx.outgoing && s.transcript == sys.tx.transcript && s.writeSeq == sys.tx.writeSeq
    ensures Inv(Sent(sys, S.SendLoop(s, script)))
  {
    hide Genuine, QueueGenuine, IsTranscript, RingGenuine, S.SendLoop;
    LoopSendsGenuine(sys.tx.transcript, s, script);
  }

  lemma CcsKeepsInv(sys: System)
    requires Inv(sys)
    ensures Inv(Act(sys, QueueCcs))
  {
    hide ParseFragment, Genuine, RingGenuine;
  }

  lemma CcsArrivalKeepsInv(sys: System, rec: Record)
    requires Inv(sys) && rec in sys.net
    ensures Inv(Act(sys, ArriveForCcs(rec)))
  {
    hide ParseFragment, QueueGenuine, Genuine, IsTranscript, OpenHandshake;
    RecordKeepsGenuine(sys.tx.transcript, sys.rx, rec);
  }

  lemma OtherKeepsInv(sys: System, maxOut: nat, typ: u8, payload: bytes)
    requires Inv(sys) && typ != HANDSHAKE
    ensures Inv(Act(sys, WriteOther(maxOut, typ, payload)))
  {
    hide ParseFragment, QueueGenuine, RingGenuine, IsTranscript;
  }

  lemma SwitchKeepsInv(sys: System, nullCipher: bool)
    requires Inv(sys)
    ensures Inv(Act(sys, SwitchRead(nullCipher)))
  {
    hide ParseFragment, QueueGenuine, Genuine, IsTranscript;
  }

  // A complete slot at the front of the window holds exactly the message it is numbered for.
  lemma FrontIsMessage(t: seq<bytes>, r: Receiver)
    requires IsTranscript(t) && r.Valid() && RingGenuine(t, r) && r.CurrentComplete()
    ensures r.readSeq < |t| && r.Current().value.Raw() == t[r.readSeq]
  {
    hide ParseFragment;
    SameNumber(r, r.readSeq);
    var s := r.Current().value;
    assert SlotGenuine(t, s);
    assert s.Body() == BodyOf(t, r.readSeq);
    MessageRebuilt(t, r.readSeq);
  }

  lemma NextKeepsRing(t: seq<bytes>, r: Receiver)
    requires IsTranscript(t) && r.Valid() && RingGenuine(t, r) && r.hasMessage && r.CurrentComplete()
    ensures var r' := NextMessage(r);
      RingGenuine(t, r') && r'.readSeq == (r.readSeq + 1) % U16 && !r'.hasMessage
  {
    hide ParseFragment, SlotGenuine, IsTranscript;
  }

  lemma ShortTranscript(t: seq<bytes>)
    ensures IsTranscript(t) ==> |t| < U16
  {}

  lemma NextKeepsInv(sys: System)
    requires Inv(sys) && sys.rx.hasMessage
    ensures Inv(Act(sys, Next))
  {
    ShortTranscript(sys.tx.transcript);
    hide ParseFragment, QueueGenuine, Genuine, IsTranscript, RingGenuine, S.Sender.Valid, NextMessage, Slot.Raw;
    NextKeepsRing(sys.tx.transcript, sys.rx);
    FrontIsMessage(sys.tx.transcript, sys.rx);
  }

  lemma GetKeepsInv(sys: System)
    requires Inv(sys)
    ensures Inv(Act(sys, Get))
  {
    hide ParseFragment, QueueGenuine, Genuine, IsTranscript, SlotGenuine, S.Sender.Valid;
  }

  lemma ActionKeepsInv(sys: System, a: Action)
    requires Inv(sys) && Enabled(sys, a)
    ensures Inv(Act(sys, a))
  {
    hide Genuine, QueueGenuine, IsTranscript, RingGenuine, S.SendLoop, OpenHandshake, ParseFragment;
    var t := sys.tx.transcript;
    match a
    case Queue(typ, body) => QueueKeepsInv(sys, typ, body);
    case QueueCcs => CcsKeepsInv(sys);
    case Flush(mayQuery, query, script) =>
      SentKeepsInv(sys, S.UpdateMtu(sys.tx.(complete := true), mayQuery, query), script);
    case Resend(mayQuery, query, script) =>
      SentKeepsInv(sys, S.UpdateMtu(sys.tx.(written := 0, offset := 0), mayQuery, query), script);
    case SwitchWrite(aead) =>
    case WriteOther(maxOut, typ, payload) => OtherKeepsInv(sys, maxOut, typ, payload);
    case Arrive(rec) => RecordKeepsGenuine(t, sys.rx, rec);
    case ArriveForCcs(rec) => CcsArrivalKeepsInv(sys, rec);
    case Get => GetKeepsInv(sys);
    case Next => NextKeepsInv(sys);
    case SwitchRead(nullCipher) => SwitchKeepsInv(sys, nullCipher);
  }

  // Main result: whatever the network loses, repeats or reorders, and however writes
  // fail and flights are resent, the messages delivered are the first messages the
  // sender hashed, in order and byte for byte.
  lemma {:induction false} DeliversPrefix(sys: System, actions: seq<Action>, sys': System)
    requires Inv(sys) && Run(sys, actions, sys')
    ensures Inv(sys') && sys'.delivered <= sys'.tx.transcript
    decreases |actions|
  {
    hide Act, Enabled;
    if actions != [] {
      ActionKeepsInv(sys, actions[0]);
      DeliversPrefix(Act(sys, actions[0]), actions[1..], sys');
    }
  }

  // A new connection satisfies the invariant.
  lemma FreshSystem(tx: S.Sender, rx: Receiver)
    requires tx.Valid() && tx.outgoing == [] && tx.transcript == [] && tx.writeSeq == 0
    requires rx.Valid() && rx.readSeq == 0 && !rx.hasMessage && forall i | 0 <= i < MAX_FLIGHT :: rx.slots[i].None?
    ensures Inv(System(tx, {}, rx, []))
  {}
}
