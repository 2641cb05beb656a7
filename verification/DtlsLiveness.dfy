/** When a flight gets through: a pass whose records arrive, in any order and among any
    other records, within the replay window is delivered whole, across an epoch switch too. */
module DtlsLiveness {
  import opened Bytes
  import opened HandshakeWire
  import opened Reassembly
  import opened ReplayWindow
  import opened DtlsRecord
  import opened RecordTypes
  import opened DtlsReceive
  import S = DtlsSend
  import opened DtlsTiling
  import opened DtlsDelivery

  // --- One record at the receiver ---

  // The receiver holds byte |j| of message |k|.
  predicate Has(r: Receiver, k: nat, j: nat)
    requires r.Valid()
  {
    Opened(r, k) && var s := r.slots[k % MAX_FLIGHT].value; j < |s.got| && s.got[j].Some?
  }

  predicate Opened(r: Receiver, k: nat)
    requires r.Valid()
  {
    r.slots[k % MAX_FLIGHT].Some? && r.slots[k % MAX_FLIGHT].value.seq_ == k
  }

  predicate Ready(r: Receiver, k: nat)
    requires r.Valid()
  {
    Opened(r, k) && r.slots[k % MAX_FLIGHT].value.Complete()
  }

  // The receiver is willing to take message |k| now.
  predicate Takes(r: Receiver, t: seq<bytes>, k: nat)
    requires IsTranscript(t)
  {
    && k < |t| && r.readSeq <= k < r.readSeq + MAX_FLIGHT
    && |BodyOf(t, k)| <= r.maxMessageLen
    && (r.rEpoch == 1 ==> k == r.readSeq)
  }

  // No slot holds a message from number |top| on.
  predicate OnlyBelow(r: Receiver, top: int)
    requires r.Valid()
  {
    forall i | 0 <= i < MAX_FLIGHT && r.slots[i].Some? :: r.slots[i].value.seq_ < top
  }

  // |rec| would be opened if the replay window lets it through.
  predicate Opens(r: Receiver, rec: Record) {
    rec.Valid() && rec.bodyLen <= MAX_ENCRYPTED && rec.Epoch() == r.rEpoch && rec.authentic
  }

  function HdrOf(rec: Record): Header
    requires ParseFragment(rec.payload).Some?
  {
    ParseFragment(rec.payload).value.hdr
  }

  // What is opened from |rec| is no reason to fail.
  predicate Sound(t: seq<bytes>, r: Receiver, rec: Record)
    requires IsTranscript(t)
  {
    && |rec.payload| <= MAX_PLAIN
    && if rec.typ == HANDSHAKE then
         Genuine(t, rec) && HdrOf(rec).msgLen <= r.maxMessageLen
         && (r.rEpoch == 1 ==> HdrOf(rec).seq_ == r.readSeq) && HdrOf(rec).seq_ != r.readSeq + MAX_FLIGHT
       else if rec.typ == CHANGE_CIPHER_SPEC then r.nullCipher && rec.payload == CCS_BODY
       else rec.typ == APPLICATION_DATA && !r.nullCipher
  }

  predicate Harmless(t: seq<bytes>, r: Receiver, rec: Record)
    requires IsTranscript(t)
  {
    rec.Valid() && (Opens(r, rec) ==> Sound(t, r, rec))
  }

  // Exactly when a record of an honest sender is a fatal error: it is opened and not sound.
  lemma RecordVerdict(t: seq<bytes>, r: Receiver, rec: Record)
    requires IsTranscript(t) && r.Valid() && RingGenuine(t, r) && rec.Valid() && Genuine(t, rec) && rec.typ != ALERT
    ensures OpenHandshake(r, rec).1.Fail? <==>
            Opens(r, rec) && !r.window.Discards(rec.Number()) && !Sound(t, r, rec)
  {
    hide ParseFragment, TakeFragment;
    var r1 := OpenRecord(r, rec).0;
    assert r1.slots == r.slots;
    if rec.typ == HANDSHAKE {
      var p := ParseFragment(rec.payload).value;
      SerialiseInvertsParse(rec.payload);
      FragmentVerdict(t, r1, p.hdr, p.body);
      var (r2, out2) := TakeFragment(r1, p.hdr, p.body);
      assert TakeFragments(r2, []) == (r2, Success);
    }
  }

  // What taking in fragments leaves as it was: everything but the slots.
  predicate SameEpoch(r: Receiver, r': Receiver) {
    && r'.readSeq == r.readSeq && r'.rEpoch == r.rEpoch && r'.nullCipher == r.nullCipher
    && r'.hasMessage == r.hasMessage && r'.maxMessageLen == r.maxMessageLen
  }

  // Nothing that arrived is lost again.
  ghost predicate Keeps(r: Receiver, r': Receiver)
    requires r.Valid() && r'.Valid()
  {
    && SameEpoch(r, r') && (r.hasCcs ==> r'.hasCcs)
    && (forall k | Opened(r, k) :: Opened(r', k))
    && (forall k, j | Has(r, k, j) :: Has(r', k, j))
  }

  // What |rec| was to bring has arrived.
  predicate Landed(t: seq<bytes>, r: Receiver, rec: Record)
    requires IsTranscript(t) && r.Valid()
  {
    && (rec.typ == CHANGE_CIPHER_SPEC ==> r.hasCcs)
    && (rec.typ == HANDSHAKE ==>
          ParseFragment(rec.payload).Some? && (Takes(r, t, HdrOf(rec).seq_) ==> Covered(r, HdrOf(rec))))
  }

  predicate Covered(r: Receiver, h: Header)
    requires r.Valid()
  {
    Opened(r, h.seq_) && forall j | h.fragOff <= j < h.fragOff + h.fragLen :: Has(r, h.seq_, j)
  }

  lemma SlotGrows(s: Slot, hdr: Header, body: bytes)
    requires s.typ == hdr.typ && |s.got| == hdr.msgLen && hdr.fragOff + |body| <= hdr.msgLen
    ensures var r := TakeInto(Some(s), hdr, body);
      && r.Some? && r.value.seq_ == s.seq_ && |r.value.got| == |s.got|
      && (forall j | 0 <= j < |s.got| && s.got[j].Some? :: r.value.got[j].Some?)
      && (forall j | hdr.fragOff <= j < hdr.fragOff + |body| :: r.value.got[j].Some?)
  {}

  lemma FreshGrows(hdr: Header, body: bytes)
    requires hdr.fragOff + |body| <= hdr.msgLen
    ensures TakeInto(None, hdr, body) == TakeInto(Some(FreshSlot(hdr)), hdr, body)
  {}

  // Genuine fragments agree with the slot they go to.
  lemma FragmentLands(t: seq<bytes>, r: Receiver, hdr: Header, body: bytes)
    requires IsTranscript(t) && r.Valid() && RingGenuine(t, r) && hdr.Valid() && FragmentOf(t, hdr, body)
    ensures var r' := TakeFragment(r, hdr, body).0; var idx := hdr.seq_ % MAX_FLIGHT;
      || r' == r
      || (&& r.readSeq <= hdr.seq_ < r.readSeq + MAX_FLIGHT && r'.slots[idx].Some?
          && r' == r.(slots := r.slots[idx := r'.slots[idx]])
          && r'.slots[idx].value.seq_ == hdr.seq_
          && (r.slots[idx].Some? ==> Grown(r.slots[idx].value, r'.slots[idx].value))
          && |r'.slots[idx].value.got| == hdr.msgLen
          && forall j | hdr.fragOff <= j < hdr.fragOff + |body| :: r'.slots[idx].value.got[j].Some?)
  {
    hide ParseFragment, TakeInto;
    var idx := hdr.seq_ % MAX_FLIGHT;
    if r.readSeq <= hdr.seq_ < r.readSeq + MAX_FLIGHT {
      if r.slots[idx].Some? {
        assert SlotGenuine(t, r.slots[idx].value);
        SameNumber(r, hdr.seq_);
        SlotGrows(r.slots[idx].value, hdr, body);
      } else {
        FreshGrows(hdr, body);
        SlotGrows(FreshSlot(hdr), hdr, body);
      }
    }
  }

  predicate Grown(s: Slot, s': Slot) {
    s'.seq_ == s.seq_ && |s'.got| == |s.got| && forall j | 0 <= j < |s.got| && s.got[j].Some? :: s'.got[j].Some?
  }

  lemma FragmentArrives(t: seq<bytes>, r: Receiver, hdr: Header, body: bytes)
    requires IsTranscript(t) && r.Valid() && RingGenuine(t, r) && hdr.Valid() && FragmentOf(t, hdr, body)
    ensures var r' := TakeFragment(r, hdr, body).0;
      && Keeps(r, r') && (forall top | hdr.seq_ < top && OnlyBelow(r, top) :: OnlyBelow(r', top))
  {
    hide ParseFragment, TakeFragment, SlotGenuine, FragmentOf;
    FragmentLands(t, r, hdr, body);
  }

  lemma FragmentCovers(t: seq<bytes>, r: Receiver, hdr: Header, body: bytes)
    requires IsTranscript(t) && r.Valid() && RingGenuine(t, r) && hdr.Valid() && FragmentOf(t, hdr, body)
    requires Takes(r, t, hdr.seq_)
    ensures Covered(TakeFragment(r, hdr, body).0, hdr)
  {
    hide ParseFragment;
    var idx := hdr.seq_ % MAX_FLIGHT;
    if r.slots[idx].Some? {
      assert SlotGenuine(t, r.slots[idx].value);
      SameNumber(r, hdr.seq_);
    }
    FragmentVerdict(t, r, hdr, body);
    FragmentLands(t, r, hdr, body);
  }

  // A harmless record that the window lets through lands; one that it does not changes nothing.
  lemma RecordArrives(t: seq<bytes>, r: Receiver, rec: Record)
    requires IsTranscript(t) && r.Valid() && RingGenuine(t, r) && Harmless(t, r, rec)
    ensures var (r', out) := OpenHandshake(r, rec);
      && !out.Fail? && RingGenuine(t, r') && Keeps(r, r')
      && (forall top | (Opens(r, rec) && rec.typ == HANDSHAKE ==> HdrOf(rec).seq_ < top) && OnlyBelow(r, top) ::
            OnlyBelow(r', top))
      && (if Opens(r, rec) && !r.window.Discards(rec.Number()) then
            r'.window == r.window.Recorded(rec.Number()) && Landed(t, r', rec)
          else r' == r)
  {
    hide ParseFragment, TakeFragment, Keeps, OnlyBelow, RingGenuine, Covered;
    Itself(r);
    if Opens(r, rec) && !r.window.Discards(rec.Number()) {
      var r1 := OpenRecord(r, rec).0;
      SameSlots(t, r, r1);
      if rec.typ == HANDSHAKE {
        HandshakeArrives(t, r1, rec);
        KeepsTrans(r, r1, TakeFragments(r1, rec.payload).0);
      } else if rec.typ == CHANGE_CIPHER_SPEC {
        SameSlots(t, r, r1.(hasCcs := true));
      }
    }
  }

  lemma Itself(r: Receiver)
    requires r.Valid()
    ensures Keeps(r, r)
  {}

  lemma KeepsTrans(r: Receiver, r': Receiver, r'': Receiver)
    requires r.Valid() && r'.Valid() && r''.Valid() && Keeps(r, r') && Keeps(r', r'')
    ensures Keeps(r, r'')
  {
    hide Has, Opened;
  }

  // What is not about the slots does not matter for them.
  lemma SameSlots(t: seq<bytes>, r: Receiver, r': Receiver)
    requires IsTranscript(t) && r.Valid() && r'.Valid() && r'.slots == r.slots && SameEpoch(r, r')
    ensures RingGenuine(t, r') <==> RingGenuine(t, r)
    ensures forall top :: OnlyBelow(r', top) <==> OnlyBelow(r, top)
    ensures (r.hasCcs ==> r'.hasCcs) ==> Keeps(r, r')
  {
    hide SlotGenuine;
  }

  lemma HandshakeArrives(t: seq<bytes>, r: Receiver, rec: Record)
    requires IsTranscript(t) && r.Valid() && RingGenuine(t, r)
    requires rec.typ == HANDSHAKE && Genuine(t, rec) && Sound(t, r, rec)
    ensures var (r', out) := TakeFragments(r, rec.payload);
      && out == Success && RingGenuine(t, r') && Keeps(r, r') && Landed(t, r', rec)
      && (forall top | HdrOf(rec).seq_ < top && OnlyBelow(r, top) :: OnlyBelow(r', top))
  {
    hide ParseFragment, TakeFragment, RingGenuine, Covered, Keeps, OnlyBelow;
    var p := ParseFragment(rec.payload).value;
    SerialiseInvertsParse(rec.payload);
    FragmentKeepsGenuine(t, r, p.hdr, p.body);
    FragmentVerdict(t, r, p.hdr, p.body);
    FragmentArrives(t, r, p.hdr, p.body);
    var (r', out) := TakeFragment(r, p.hdr, p.body);
    assert TakeFragments(r', []) == (r', Success);
    if Takes(r', t, p.hdr.seq_) { FragmentCovers(t, r, p.hdr, p.body); }
  }

  lemma LandedKept(t: seq<bytes>, r: Receiver, r': Receiver, rec: Record)
    requires IsTranscript(t) && r.Valid() && r'.Valid() && Keeps(r, r') && Landed(t, r, rec)
    ensures Landed(t, r', rec)
  {
    hide ParseFragment, Has, Opened;
  }

  // --- Records one after another ---

  // dtls1_open_handshake for each record, until one is a fatal error.
  function Receive(r: Receiver, recs: seq<Record>): (res: (Receiver, bool))
    requires r.Valid() && forall rec | rec in recs :: rec.Valid()
    ensures res.0.Valid()
    decreases |recs|
  {
    if recs == [] then (r, true)
    else
      var (r', out) := OpenHandshake(r, recs[0]);
      if out.Fail? then (r', false) else Receive(r', recs[1..])
  }

  predicate AllHarmless(t: seq<bytes>, r: Receiver, recs: seq<Record>)
    requires IsTranscript(t)
  {
    forall rec | rec in recs :: Harmless(t, r, rec)
  }

  lemma HarmlessValid(t: seq<bytes>, r: Receiver, recs: seq<Record>)
    requires IsTranscript(t) && AllHarmless(t, r, recs)
    ensures forall rec | rec in recs :: rec.Valid()
  {
    hide Sound;
    forall rec | rec in recs ensures rec.Valid() { assert Harmless(t, r, rec); }
  }

  lemma HarmlessStays(t: seq<bytes>, r: Receiver, r': Receiver, recs: seq<Record>)
    requires IsTranscript(t) && SameEpoch(r, r') && recs != [] && AllHarmless(t, r, recs)
    ensures AllHarmless(t, r', recs[1..])
  {
    hide ParseFragment, Genuine;
    forall rec | rec in recs[1..] ensures Harmless(t, r', rec) { assert Harmless(t, r, rec); }
  }

  // All handshake records among |recs| that can be opened are of messages before |top|.
  predicate AllBelow(r: Receiver, recs: seq<Record>, top: int) {
    forall rec | rec in recs && Opens(r, rec) && rec.typ == HANDSHAKE ::
      ParseFragment(rec.payload).Some? && HdrOf(rec).seq_ < top
  }

  lemma {:induction false} ReceiveKeeps(t: seq<bytes>, r: Receiver, recs: seq<Record>, top: int)
    requires IsTranscript(t) && r.Valid() && RingGenuine(t, r) && AllHarmless(t, r, recs)
    ensures forall rec | rec in recs :: rec.Valid()
    ensures var (r', ok) := Receive(r, recs);
      && ok && RingGenuine(t, r') && Keeps(r, r')
      && (AllBelow(r, recs, top) && OnlyBelow(r, top) ==> OnlyBelow(r', top))
    decreases |recs|
  {
    hide OpenHandshake, RingGenuine, OnlyBelow, Landed, Harmless, Keeps;
    Itself(r);
    HarmlessValid(t, r, recs);
    if recs != [] {
      var r1 := OpenHandshake(r, recs[0]).0;
      assert Harmless(t, r, recs[0]);
      RecordArrives(t, r, recs[0]);
      KeepsEpoch(r, r1);
      HarmlessStays(t, r, r1, recs);
      assert forall rec | rec in recs[1..] :: rec in recs;
      ReceiveKeeps(t, r1, recs[1..], top);
      KeepsTrans(r, r1, Receive(r1, recs[1..]).0);
      BelowStays(r, r1, recs, top);
    }
  }

  lemma KeepsEpoch(r: Receiver, r': Receiver)
    requires r.Valid() && r'.Valid() && Keeps(r, r')
    ensures SameEpoch(r, r')
  {}

  lemma BelowStays(r: Receiver, r': Receiver, recs: seq<Record>, top: int)
    requires SameEpoch(r, r') && recs != []
    ensures AllBelow(r, recs, top) ==> AllBelow(r', recs[1..], top)
  {
    hide ParseFragment;
  }

  // Record |i| comes while its number is new and within the replay window: less than 64
  // below everything opened before it. Records under the same number are the same record.
  predicate InWindow(r: Receiver, recs: seq<Record>, i: nat) {
    && i < |recs| && !r.window.Discards(recs[i].Number())
    && forall j | 0 <= j < i && Opens(r, recs[j]) :: NoObstacle(recs[j], recs[i])
  }

  predicate NoObstacle(before: Record, rec: Record) {
    before.Number() < rec.Number() + WINDOW_SIZE && (before.Number() == rec.Number() ==> before == rec)
  }

  lemma WindowStays(r: Receiver, r': Receiver, recs: seq<Record>, i: nat)
    requires r.window.Valid() && SameEpoch(r, r') && InWindow(r, recs, i) && i > 0
    requires if Opens(r, recs[0]) && !r.window.Discards(recs[0].Number()) then
               recs[0] != recs[i] && r'.window == r.window.Recorded(recs[0].Number())
             else r'.window == r.window
    ensures InWindow(r', recs[1..], i - 1)
  {
    hide Record.Number, Record.Epoch;
    var rest := recs[1..];
    assert rest[i - 1] == recs[i];
    if Opens(r, recs[0]) && !r.window.Discards(recs[0].Number()) { assert NoObstacle(recs[0], recs[i]); }
    assert !r'.window.Discards(recs[i].Number());
    forall j | 0 <= j < i - 1 && Opens(r', rest[j]) ensures NoObstacle(rest[j], rest[i - 1]) {
      assert rest[j] == recs[j + 1] && Opens(r, recs[j + 1]);
    }
  }

  // Whatever comes before it, a record within the window lands.
  lemma {:induction false} ReceiveLands(t: seq<bytes>, r: Receiver, recs: seq<Record>, i: nat)
    requires IsTranscript(t) && r.Valid() && RingGenuine(t, r) && AllHarmless(t, r, recs)
    requires InWindow(r, recs, i) && Opens(r, recs[i])
    ensures forall rec | rec in recs :: rec.Valid()
    ensures Landed(t, Receive(r, recs).0, recs[i])
    decreases |recs|
  {
    hide OpenHandshake, RingGenuine, OnlyBelow, Landed, Harmless, Keeps, InWindow, Record.Number, Record.Epoch;
    HarmlessValid(t, r, recs);
    Within(r, recs, i);
    var r1 := OpenHandshake(r, recs[0]).0;
    assert Harmless(t, r, recs[0]);
    RecordArrives(t, r, recs[0]);
    KeepsEpoch(r, r1);
    HarmlessStays(t, r, r1, recs);
    assert forall rec | rec in recs[1..] :: rec in recs;
    if Opens(r, recs[0]) && !r.window.Discards(recs[0].Number()) && recs[0] == recs[i] {
      ReceiveKeeps(t, r1, recs[1..], 0);
      LandedKept(t, r1, Receive(r1, recs[1..]).0, recs[0]);
    } else {
      WindowStays(r, r1, recs, i);
      assert recs[1..][i - 1] == recs[i];
      ReceiveLands(t, r1, recs[1..], i - 1);
    }
  }

  lemma Within(r: Receiver, recs: seq<Record>, i: nat)
    requires InWindow(r, recs, i)
    ensures i < |recs| && (i == 0 ==> !r.window.Discards(recs[0].Number()))
  {}

  // --- A whole pass ---

  predicate Carries(rec: Record, j: nat)
    requires ParseFragment(rec.payload).Some?
  {
    HdrOf(rec).fragOff <= j < HdrOf(rec).fragOff + HdrOf(rec).fragLen
  }

  // In a tiling from one whole message to another, every message in between is cut
  // into at least one record under its epoch, and each of its bytes is in one of them.
  lemma {:induction false} PassCovers(t: seq<bytes>, q: seq<S.Outgoing>, c: Cursor, pass: S.Packet, d: Cursor,
                                      i: nat, j: nat) returns (rec: Record)
    requires IsTranscript(t) && QueueGenuine(t, q) && Tiles(q, c, pass, d)
    requires c.written <= i < d.written && i < |q| && !q[i].isCcs && (i == c.written ==> c.offset <= j)
    ensures rec in pass && rec.typ == HANDSHAKE && Genuine(t, rec) && S.SealedUnder(q[i].epoch, rec)
    ensures HdrOf(rec).seq_ == ParseFragment(q[i].data).value.hdr.seq_
    ensures j < |ParseFragment(q[i].data).value.body| ==> Carries(rec, j)
    decreases |pass|
  {
    hide ParseFragment, Genuine, S.SealedUnder;
    OwedIsGenuine(t, q, c, pass[0]);
    var c' := NextCursor(q, c, pass[0]);
    if i == c.written && (c'.written > i || j < c'.offset) {
      rec := pass[0];
    } else {
      rec := PassCovers(t, q, c', pass[1..], d, i, j);
      assert pass == [pass[0]] + pass[1..];
    }
  }

  lemma {:induction false} PassCoversCcs(q: seq<S.Outgoing>, c: Cursor, pass: S.Packet, d: Cursor, i: nat)
    returns (rec: Record)
    requires Tiles(q, c, pass, d) && c.written <= i < d.written && i < |q| && q[i].isCcs
    ensures rec in pass && rec.typ == CHANGE_CIPHER_SPEC && S.SealedUnder(q[i].epoch, rec)
    decreases |pass|
  {
    hide ParseFragment, S.SealedUnder;
    if i == c.written {
      rec := pass[0];
    } else {
      rec := PassCoversCcs(q, NextCursor(q, c, pass[0]), pass[1..], d, i);
      assert pass == [pass[0]] + pass[1..];
    }
  }

  // |rec| is among |recs|, in time for the window.
  predicate Arrives(r: Receiver, recs: seq<Record>, rec: Record) {
    exists i | 0 <= i < |recs| :: recs[i] == rec && InWindow(r, recs, i)
  }

  // Every record of the pass under the epoch being read is short enough and arrives in time.
  predicate PassArrives(r: Receiver, pass: S.Packet, recs: seq<Record>) {
    forall rec | rec in pass && rec.Valid() && rec.Epoch() == r.rEpoch ::
      rec.bodyLen <= MAX_ENCRYPTED && Arrives(r, recs, rec)
  }

  lemma PassLands(t: seq<bytes>, r: Receiver, pass: S.Packet, recs: seq<Record>, rec: Record)
    requires IsTranscript(t) && r.Valid() && RingGenuine(t, r) && AllHarmless(t, r, recs)
    requires PassArrives(r, pass, recs) && rec in pass && S.SealedUnder(r.rEpoch, rec)
    ensures forall rec | rec in recs :: rec.Valid()
    ensures Landed(t, Receive(r, recs).0, rec)
  {
    hide AllHarmless, RingGenuine, InWindow, Landed, Receive;
    var i :| 0 <= i < |recs| && recs[i] == rec && InWindow(r, recs, i);
    ReceiveLands(t, r, recs, i);
  }

  // If every record of one full pass over a flight arrives in time - in any order, any
  // number of times, among any other harmless records - then every message of the flight
  // under this epoch that the receiver takes is complete.
  lemma PassCompletes(t: seq<bytes>, q: seq<S.Outgoing>, pass: S.Packet, r: Receiver, recs: seq<Record>, i: nat)
    requires IsTranscript(t) && QueueGenuine(t, q) && Tiles(q, Cursor(0, 0), pass, Cursor(|q|, 0))
    requires r.Valid() && RingGenuine(t, r) && AllHarmless(t, r, recs) && PassArrives(r, pass, recs)
    requires i < |q| && !q[i].isCcs && q[i].epoch == r.rEpoch && ParseFragment(q[i].data).Some?
    requires Takes(r, t, ParseFragment(q[i].data).value.hdr.seq_)
    ensures forall rec | rec in recs :: rec.Valid()
    ensures Ready(Receive(r, recs).0, ParseFragment(q[i].data).value.hdr.seq_)
  {
    hide ParseFragment, Genuine, Tiles, RingGenuine, AllHarmless, PassArrives, Receive, Keeps, Takes, S.SealedUnder;
    assert InTranscript(t, q[i].data);
    var k := ParseFragment(q[i].data).value.hdr.seq_;
    ReceiveKeeps(t, r, recs, 0);
    var r' := Receive(r, recs).0;
    KeepsEpoch(r, r');
    TakesStays(t, r, r', k);
    var first := PassCovers(t, q, Cursor(0, 0), pass, Cursor(|q|, 0), i, 0);
    PassLands(t, r, pass, recs, first);
    SlotLength(t, r', k);
    forall j | 0 <= j < |r'.slots[k % MAX_FLIGHT].value.got| ensures Has(r', k, j) {
      var rec := PassCovers(t, q, Cursor(0, 0), pass, Cursor(|q|, 0), i, j);
      PassLands(t, r, pass, recs, rec);
    }
    AllHad(r', k);
  }

  lemma AllHad(r: Receiver, k: nat)
    requires r.Valid() && Opened(r, k)
    requires forall j | 0 <= j < |r.slots[k % MAX_FLIGHT].value.got| :: Has(r, k, j)
    ensures Ready(r, k)
  {
    var s := r.slots[k % MAX_FLIGHT].value;
    forall j | 0 <= j < |s.got| ensures s.got[j].Some? { assert Has(r, k, j); }
  }

  lemma TakesStays(t: seq<bytes>, r: Receiver, r': Receiver, k: nat)
    requires IsTranscript(t) && SameEpoch(r, r')
    ensures Takes(r, t, k) <==> Takes(r', t, k)
  {}

  lemma SlotLength(t: seq<bytes>, r: Receiver, k: nat)
    requires IsTranscript(t) && r.Valid() && RingGenuine(t, r) && Opened(r, k)
    ensures k < |t| && |r.slots[k % MAX_FLIGHT].value.got| == |BodyOf(t, k)|
  {
    assert SlotGenuine(t, r.slots[k % MAX_FLIGHT].value);
  }

  // --- Reading the messages off ---

  // What the handshake reads from the receiver by taking up to |n| messages in turn.
  function TakeMany(r: Receiver, n: nat): (res: (Receiver, seq<bytes>))
    requires r.Valid()
    ensures res.0.Valid()
    decreases n
  {
    if n == 0 then (r, [])
    else
      var (r1, m) := GetMessage(r);
      if m.None? then (r1, [])
      else var (r2, ms) := TakeMany(NextMessage(r1), n - 1); (r2, [m.value.raw] + ms)
  }

  // The receiver once |n| messages are gone from the front.
  ghost predicate MovedOn(r: Receiver, r': Receiver, n: nat)
    requires r.Valid() && r'.Valid()
  {
    && r' == r.(readSeq := r.readSeq + n, slots := r'.slots, hasMessage := if n == 0 then r.hasMessage else false)
    && forall top | OnlyBelow(r, top) :: OnlyBelow(r', top)
  }

  lemma TakesOne(t: seq<bytes>, r: Receiver)
    requires IsTranscript(t) && r.Valid() && RingGenuine(t, r) && Ready(r, r.readSeq) && r.readSeq < |t|
    ensures GetMessage(r).1.Some? && GetMessage(r).1.value.raw == t[r.readSeq]
    ensures var r' := NextMessage(GetMessage(r).0);
      && RingGenuine(t, r') && MovedOn(r, r', 1)
      && forall k | r.readSeq < k < r.readSeq + MAX_FLIGHT && Ready(r, k) :: Ready(r', k)
  {
    FrontIsMessage(t, r);
    hide ParseFragment, SlotGenuine, Slot.Complete, Slot.Raw;
  }

  // Complete messages at the front of the window are read off in order and unchanged.
  lemma {:induction false} ReadsInOrder(t: seq<bytes>, r: Receiver, n: nat)
    requires IsTranscript(t) && r.Valid() && RingGenuine(t, r)
    requires r.readSeq + n <= |t| && n <= MAX_FLIGHT
    requires forall k | r.readSeq <= k < r.readSeq + n :: Ready(r, k)
    ensures var (r', ms) := TakeMany(r, n);
      && ms == t[r.readSeq..r.readSeq + n]
      && RingGenuine(t, r') && MovedOn(r, r', n)
    decreases n
  {
    hide Ready, RingGenuine, NextMessage, OnlyBelow, IsTranscript;
    if n > 0 {
      assert Ready(r, r.readSeq);
      TakesOne(t, r);
      var r' := NextMessage(GetMessage(r).0);
      ReadsInOrder(t, r', n - 1);
      assert t[r.readSeq..r.readSeq + n] == [t[r.readSeq]] + t[r.readSeq + 1..r.readSeq + n];
    }
  }

  // --- The main results ---

  // Messages [|from|, |from + n|) are queued in |q| under the epoch |r| reads, and |r| takes them.
  predicate Expected(t: seq<bytes>, q: seq<S.Outgoing>, r: Receiver, n: nat)
    requires IsTranscript(t)
  {
    && r.readSeq + n <= |t| && n <= MAX_FLIGHT
    && forall k | r.readSeq <= k < r.readSeq + n ::
         Takes(r, t, k) && exists i | 0 <= i < |q| :: !q[i].isCcs && q[i].epoch == r.rEpoch && q[i].data == t[k]
  }

  // What is to arrive, and what may arrive with it.
  predicate GetsThrough(t: seq<bytes>, q: seq<S.Outgoing>, pass: S.Packet, r: Receiver, recs: seq<Record>)
    requires IsTranscript(t)
  {
    && QueueGenuine(t, q) && Tiles(q, Cursor(0, 0), pass, Cursor(|q|, 0))
    && r.Valid() && RingGenuine(t, r) && AllHarmless(t, r, recs) && PassArrives(r, pass, recs)
  }

  // Main result on completeness, within an epoch: once every record of a pass over a
  // flight has arrived in time, the receiver has failed on nothing and reads off exactly
  // the messages of this epoch, in order and byte for byte, however they were fragmented.
  lemma EpochDelivered(t: seq<bytes>, q: seq<S.Outgoing>, pass: S.Packet, r: Receiver, recs: seq<Record>, n: nat)
    requires IsTranscript(t) && GetsThrough(t, q, pass, r, recs) && Expected(t, q, r, n)
    ensures forall rec | rec in recs :: rec.Valid()
    ensures var (r1, ok) := Receive(r, recs); var (r2, ms) := TakeMany(r1, n);
      && ok && ms == t[r.readSeq..r.readSeq + n]
      && RingGenuine(t, r2) && Keeps(r, r1) && MovedOn(r1, r2, n)
  {
    hide ParseFragment, Genuine, Tiles, RingGenuine, QueueGenuine, Ready, TakeMany, Receive, AllHarmless, PassArrives;
    ReceiveKeeps(t, r, recs, 0);
    var r1 := Receive(r, recs).0;
    KeepsEpoch(r, r1);
    forall k | r.readSeq <= k < r.readSeq + n ensures Ready(r1, k) {
      assert Takes(r, t, k);
      var i :| 0 <= i < |q| && !q[i].isCcs && q[i].epoch == r.rEpoch && q[i].data == t[k];
      assert IsMessage(t[k], k);
      PassCompletes(t, q, pass, r, recs, i);
    }
    ReadsInOrder(t, r1, n);
  }

  // The receiver after |n| messages and an epoch switch, with nothing left over.
  function Switched(r: Receiver, n: nat, nullCipher: bool): Receiver {
    Receiver(r.readSeq + n, seq(MAX_FLIGHT, _ => None), r.rEpoch + 1, nullCipher, EMPTY, false, false, r.maxMessageLen)
  }

  lemma CcsLands(t: seq<bytes>, q: seq<S.Outgoing>, pass: S.Packet, r: Receiver, recs: seq<Record>, i: nat)
    requires IsTranscript(t) && GetsThrough(t, q, pass, r, recs)
    requires i < |q| && q[i].isCcs && q[i].epoch == r.rEpoch
    ensures forall rec | rec in recs :: rec.Valid()
    ensures Receive(r, recs).0.hasCcs
  {
    hide Tiles, RingGenuine, QueueGenuine, Receive, AllHarmless, PassArrives;
    var rec := PassCoversCcs(q, Cursor(0, 0), pass, Cursor(|q|, 0), i);
    PassLands(t, r, pass, recs, rec);
  }

  // With the messages of the epoch read off and nothing beyond them received, the
  // ChangeCipherSpec is taken and the switch of epochs is not refused.
  lemma Switches(r: Receiver, n: nat, r1: Receiver, r2: Receiver, rec: Record, nullCipher: bool)
    requires r.Valid() && r1.Valid() && r2.Valid() && rec.Valid()
    requires SameEpoch(r, r1) && MovedOn(r1, r2, n) && n > 0 && r1.hasCcs && r.rEpoch + 1 < U16
    requires OnlyBelow(r1, r.readSeq + n)
    ensures var (r3, out) := OpenChangeCipherSpec(r2, rec); var (r4, ok) := SetReadState(r3, nullCipher);
      out == Success && ok && r4 == Switched(r, n, nullCipher)
  {
    hide OpenHandshake;
    assert OnlyBelow(r2, r.readSeq + n);
    EmptyRing(r2);
  }

  lemma EmptyRing(r: Receiver)
    ensures r.Valid() && OnlyBelow(r, r.readSeq) ==> r.slots == seq(MAX_FLIGHT, _ => None)
  {
    if r.Valid() && OnlyBelow(r, r.readSeq) {
      assert forall i | 0 <= i < MAX_FLIGHT :: r.slots[i].None?;
    }
  }

  // Main result on completeness, for a flight with a ChangeCipherSpec: its records under the
  // old epoch arrive, the receiver reads off |n| messages, takes the ChangeCipherSpec and
  // switches; its records under the new epoch arrive, and the receiver reads off the rest.
  lemma FlightDelivered(t: seq<bytes>, q: seq<S.Outgoing>, pass: S.Packet, r: Receiver, recs: seq<Record>, n: nat,
                        rec: Record, nullCipher: bool, recs': seq<Record>, n': nat)
    requires IsTranscript(t) && GetsThrough(t, q, pass, r, recs) && Expected(t, q, r, n) && n > 0
    requires OnlyBelow(r, r.readSeq + n) && AllBelow(r, recs, r.readSeq + n)
    requires exists i | 0 <= i < |q| :: q[i].isCcs && q[i].epoch == r.rEpoch
    requires r.rEpoch + 1 < U16 && rec.Valid()
    requires GetsThrough(t, q, pass, Switched(r, n, nullCipher), recs') && Expected(t, q, Switched(r, n, nullCipher), n')
    ensures forall rec | rec in recs + recs' :: rec.Valid()
    ensures
      var (r1, ok1) := Receive(r, recs);
      var (r2, ms) := TakeMany(r1, n);
      var (r3, ccs) := OpenChangeCipherSpec(r2, rec);
      var (r4, switched) := SetReadState(r3, nullCipher);
      var (r5, ok2) := Receive(r4, recs');
      var (r6, ms') := TakeMany(r5, n');
      && ok1 && ccs == Success && switched && ok2
      && ms + ms' == t[r.readSeq..r.readSeq + n + n']
  {
    hide ParseFragment, Genuine, Tiles, RingGenuine, QueueGenuine, TakeMany, Receive, AllHarmless, PassArrives,
         OpenChangeCipherSpec, SetReadState, Takes, OnlyBelow, AllBelow, MovedOn, Keeps;
    EpochDelivered(t, q, pass, r, recs, n);
    var r1 := Receive(r, recs).0;
    var i :| 0 <= i < |q| && q[i].isCcs && q[i].epoch == r.rEpoch;
    CcsLands(t, q, pass, r, recs, i);
    Unmixed(t, q, pass, r, recs, n);
    KeepsEpoch(r, r1);
    Switches(r, n, r1, TakeMany(r1, n).0, rec, nullCipher);
    EpochDelivered(t, q, pass, Switched(r, n, nullCipher), recs', n');
    var from := r.readSeq;
    assert t[from..from + n] + t[from + n..from + n + n'] == t[from..from + n + n'];
  }

  lemma Unmixed(t: seq<bytes>, q: seq<S.Outgoing>, pass: S.Packet, r: Receiver, recs: seq<Record>, n: nat)
    requires IsTranscript(t) && GetsThrough(t, q, pass, r, recs)
    requires OnlyBelow(r, r.readSeq + n) && AllBelow(r, recs, r.readSeq + n)
    ensures forall rec | rec in recs :: rec.Valid()
    ensures OnlyBelow(Receive(r, recs).0, r.readSeq + n)
  {
    hide Tiles, RingGenuine, QueueGenuine, Receive, AllHarmless, PassArrives, OnlyBelow, AllBelow;
    ReceiveKeeps(t, r, recs, r.readSeq + n);
  }

  // In time is, for instance, in the order of sealing: in a fresh epoch, and with nothing
  // opened before a record that carries its number or a higher one.
  lemma InOrderInTime(r: Receiver, recs: seq<Record>, i: nat)
    requires r.window == EMPTY && i < |recs|
    requires forall j | 0 <= j < i && Opens(r, recs[j]) :: recs[j].Number() < recs[i].Number()
    ensures Arrives(r, recs, recs[i])
  {
    hide Record.Number;
    assert InWindow(r, recs, i);
  }
}
