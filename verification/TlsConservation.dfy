/** Nothing is lost, repeated or reordered on a TLS connection: every sealed record reaches
    the transport in sealing order, and the application's stream is sealed exactly once and
    in order however often writes are cut short and retried. */
module TlsConservation {
  import opened Bytes
  import opened RecordTypes
  import opened TlsWrite

  // The octets of the records sealed so far, in sealing order.
  ghost function Stream(sealed: seq<Sealed>): bytes {
    if sealed == [] then [] else Stream(sealed[..|sealed| - 1]) + sealed[|sealed| - 1].wire
  }

  // What was sealed is on the wire, or in the write buffer, or in the flight, in that order.
  ghost predicate Conserved(w: Writer) {
    w.Valid() && w.bio.wire + w.buffer.data + w.Unsent() == Stream(w.sealed)
  }

  lemma StreamSnoc(sealed: seq<Sealed>, s: Sealed)
    ensures Stream(sealed + [s]) == Stream(sealed) + s.wire
  {
    assert (sealed + [s])[..|sealed|] == sealed;
  }

  lemma {:induction false} DrainBufferConserves(b: Bio, u: Buffer)
    requires |u.data| <= u.cap
    ensures var (b', u', _) := BufferDrained(b, u); b'.wire + u'.data == b.wire + u.data
    decreases |u.data|
  {
    if u.data != [] {
      var (b', ret) := BioWrite(b, u.data);
      if ret > 0 {
        assert u.data == u.data[..ret] + u.data[ret..];
        DrainBufferConserves(b', Buffer(u.data[ret..], u.cap - ret));
      }
    }
  }

  lemma {:induction false} DrainFlightConserves(b: Bio, flight: bytes, offset: nat)
    requires offset <= |flight|
    ensures var (b', offset', _) := FlightDrained(b, flight, offset);
      b'.wire + flight[offset'..] == b.wire + flight[offset..]
    decreases |flight| - offset
  {
    if offset < |flight| {
      var (b', ret) := BioWrite(b, flight[offset..]);
      if ret > 0 {
        assert flight[offset..] == flight[offset..][..ret] + flight[offset + ret..];
        DrainFlightConserves(b', flight, offset + ret);
      }
    }
  }

  lemma FlushBufferConserves(w: Writer)
    requires Conserved(w)
    ensures Conserved(FlushBuffer(w).0)
  {
    hide Stream, BufferDrained;
    DrainBufferConserves(w.bio, w.buffer);
  }

  // Writing the flight is only safe behind an empty write buffer, which is why
  // ssl3_flush_flight empties that first.
  lemma FlightDrainedConserves(w: Writer)
    requires Conserved(w) && w.flight.Some? && w.buffer.data == []
    ensures var (b, offset, ret) := FlightDrained(w.bio, w.flight.value, w.flightOffset);
      var b' := BioCall(b);
      && Conserved(w.(bio := b, flightOffset := offset))
      && Conserved(w.(bio := b', flightOffset := offset))
      && (ret > 0 ==> Conserved(w.(bio := b', flight := None, flightOffset := 0)))
  {
    hide Stream, FlightDrained, BioCall;
    DrainFlightConserves(w.bio, w.flight.value, w.flightOffset);
    var (b, offset, ret) := FlightDrained(w.bio, w.flight.value, w.flightOffset);
    assert w.bio.wire + w.buffer.data == w.bio.wire && b.wire + w.buffer.data == b.wire;
    assert offset == |w.flight.value| ==> b.wire + w.flight.value[offset..] == b.wire && b.wire + [] == b.wire;
  }

  lemma FlushFlightConserves(w: Writer)
    requires Conserved(w)
    ensures Conserved(FlushFlight(w).0)
  {
    hide FlushBuffer, FlightDrained, BioCall, BioResult;
    FlushBufferConserves(w);
    assert Conserved(w) && w.Valid();
    hide Conserved;
    if w.flight.Some? && !w.shutdown && |w.flight.value| <= INT_MAX {
      var (w1, ret1) := if w.buffer.data != [] then FlushBuffer(w) else (w, 1);
      if ret1 > 0 { FlightDrainedConserves(w1); }
    }
  }

  lemma AddRecordConserves(c: Conf, w: Writer, typ: u8, payload: bytes)
    requires Conserved(w) && w.flightOffset == 0
    ensures Conserved(AddRecord(c, w, typ, payload).0)
  {
    hide Stream;
    var (w', out) := SealRecord(c, w, |payload| + c.overhead, typ, payload);
    assert w.Unsent() == w.Flight();
    if out.Some? {
      StreamSnoc(w.sealed, Sealed(typ, payload, out.value));
      assert w.bio.wire + w.buffer.data + (w.Flight() + out.value) == w.bio.wire + w.buffer.data + w.Flight() + out.value;
    }
  }

  lemma {:induction false} AddChunksConserves(c: Conf, w: Writer, rest: bytes)
    requires Conserved(w) && w.flightOffset == 0 && c.maxSendFragment >= 1
    ensures Conserved(AddChunks(c, w, rest).0)
    decreases |rest|
  {
    hide AddRecord, Conserved;
    var n := if |rest| < c.maxSendFragment then |rest| else c.maxSendFragment;
    AddRecordConserves(c, w, HANDSHAKE, rest[..n]);
    var (w', ok) := AddRecord(c, w, HANDSHAKE, rest[..n]);
    if ok && rest[n..] != [] { AddChunksConserves(c, w', rest[n..]); }
  }

  lemma WritePendingConserves(c: Conf, w: Writer, typ: u8, address: nat, len: nat)
    requires Conserved(w)
    ensures Conserved(WritePending(c, w, typ, address, len).0)
  {
    hide Stream, FlushBuffer;
    FlushBufferConserves(w);
  }

  lemma SealPendingConserves(c: Conf, w: Writer, typ: u8, address: nat, input: bytes)
    requires Conserved(w) && w.Unsent() == [] && |input| > 0
    ensures Conserved(SealPending(c, w, typ, address, input).0)
  {
    hide Stream;
    var (_, out) := SealRecord(c, w, w.buffer.cap - |w.buffer.data|, typ, input);
    if out.Some? {
      StreamSnoc(w.sealed, Sealed(typ, input, out.value));
      assert w.bio.wire + w.buffer.data + [] == w.bio.wire + w.buffer.data;
      assert w.bio.wire + (w.buffer.data + out.value) + [] == w.bio.wire + w.buffer.data + out.value;
    }
  }

  lemma DoWriteConserves(c: Conf, w: Writer, typ: u8, address: nat, input: bytes)
    requires Conserved(w)
    ensures Conserved(DoWrite(c, w, typ, address, input).0)
  {
    hide Stream, WritePending, SealPending;
    if w.pend.active {
      WritePendingConserves(c, w, typ, address, |input|);
    } else if 0 < |input| <= MAX_PLAIN && |w.buffer.data| == 0 {
      var staged := StageFlight(c, w, |input|);
      if staged.Some? {
        var w1 := staged.value;
        assert w1.bio.wire + w1.buffer.data + w1.Unsent() == w.bio.wire + w.buffer.data + w.Unsent();
        SealPendingConserves(c, w1, typ, address, input);
        var (w2, ok) := SealPending(c, w1, typ, address, input);
        if ok { WritePendingConserves(c, w2, typ, address, |input|); }
      }
    }
  }

  lemma {:induction false} WriteLoopConserves(c: Conf, w: Writer, address: nat, input: bytes, tot: nat)
    requires Conserved(w) && tot <= |input|
    ensures Conserved(WriteLoop(c, w, address, input, tot).0)
    decreases |input| - tot
  {
    hide DoWrite, Stream;
    var n := |input| - tot;
    var nw := if n > c.maxSendFragment then c.maxSendFragment else n;
    DoWriteConserves(c, w, APPLICATION_DATA, address + tot, input[tot..tot + nw]);
    var (w', ret) := DoWrite(c, w, APPLICATION_DATA, address + tot, input[tot..tot + nw]);
    if ret > 0 && ret != n && !c.partialWrite { WriteLoopConserves(c, w', address, input, tot + ret); }
  }

  // What the layers above may ask of a connection.
  datatype Action =
    | Flush
    | Message(msg: bytes)
    | ChangeCipherSpec
    | Write(address: nat, input: bytes, len: int)
    | Alert(level: u8, desc: u8)
    | Dispatch

  // A flight that is being written out is not added to.
  ghost predicate Enabled(c: Conf, w: Writer, a: Action) {
    match a
    case Message(_) => w.flightOffset == 0 && c.maxSendFragment >= 1
    case ChangeCipherSpec => w.flightOffset == 0
    case Write(_, input, len) => if len < 0 then input == [] else len == |input|
    case _ => true
  }

  ghost function Act(c: Conf, w: Writer, a: Action): (w': Writer)
    requires w.Valid() && Enabled(c, w, a)
    ensures w'.Valid()
  {
    match a
    case Flush => FlushFlight(w).0
    case Message(msg) => AddMessage(c, w, msg).0
    case ChangeCipherSpec => AddRecord(c, w, CHANGE_CIPHER_SPEC, CCS_BODY).0
    case Write(address, input, len) => WriteAppData(c, w, address, input, len).0
    case Alert(level, desc) => SendAlert(c, w, level, desc).0
    case Dispatch => DispatchAlert(c, w).0
  }

  lemma ActConserves(c: Conf, w: Writer, a: Action)
    requires Conserved(w) && Enabled(c, w, a)
    ensures Conserved(Act(c, w, a))
  {
    hide Stream, FlushFlight, AddChunks, AddRecord, WriteLoop, DoWrite;
    match a
    case Flush => FlushFlightConserves(w);
    case Message(msg) => AddChunksConserves(c, w, msg);
    case ChangeCipherSpec => AddRecordConserves(c, w, CHANGE_CIPHER_SPEC, CCS_BODY);
    case Write(address, input, len) =>
      if len >= w.wnum { WriteLoopConserves(c, w.(wnum := 0), address, input, w.wnum); }
    case Alert(level, desc) =>
      var w' := w.(shutdown := true, alertDispatch := true, sendAlert := [level, desc]);
      DoWriteConserves(c, w', ALERT, c.alertAddress, w'.sendAlert);
    case Dispatch => DoWriteConserves(c, w, ALERT, c.alertAddress, w.sendAlert);
  }

  // A run in which every action is enabled when its turn comes.
  ghost predicate Runnable(c: Conf, w: Writer, run: seq<Action>)
    requires w.Valid()
    decreases |run|
  {
    run == [] || (Enabled(c, w, run[0]) && Runnable(c, Act(c, w, run[0]), run[1..]))
  }

  ghost function Run(c: Conf, w: Writer, run: seq<Action>): (w': Writer)
    requires w.Valid() && Runnable(c, w, run)
    ensures w'.Valid()
    decreases |run|
  {
    if run == [] then w else Run(c, Act(c, w, run[0]), run[1..])
  }

  // Over every run, whatever the transport does: what it has taken are the sealed records
  // from the first on, and once nothing is buffered it has taken all of them.
  lemma {:induction false} RunConserves(c: Conf, w: Writer, run: seq<Action>)
    requires Conserved(w) && Runnable(c, w, run)
    ensures var w' := Run(c, w, run);
      && Conserved(w')
      && w'.bio.wire <= Stream(w'.sealed)
      && (w'.buffer.data == [] && w'.flight.None? ==> w'.bio.wire == Stream(w'.sealed))
    decreases |run|
  {
    hide Stream, Act;
    if run != [] {
      ActConserves(c, w, run[0]);
      RunConserves(c, Act(c, w, run[0]), run[1..]);
    }
  }

  // The plaintext sealed so far under one content type.
  ghost function Plain(sealed: seq<Sealed>, typ: u8): bytes {
    if sealed == [] then []
    else
      var s := sealed[|sealed| - 1];
      Plain(sealed[..|sealed| - 1], typ) + if s.typ == typ then s.payload else []
  }

  lemma PlainSnoc(sealed: seq<Sealed>, s: Sealed, typ: u8)
    ensures Plain(sealed + [s], typ) == Plain(sealed, typ) + if s.typ == typ then s.payload else []
  {
    assert (sealed + [s])[..|sealed|] == sealed;
  }

  ghost function App(w: Writer): bytes {
    Plain(w.sealed, APPLICATION_DATA)
  }

  // The octets sealed but not yet reported as written: wnum, and the pending record's.
  ghost function Owed(w: Writer): nat {
    w.wnum + PendingApp(w)
  }

  ghost function PendingApp(w: Writer): nat {
    if w.pend.active && w.pend.typ == APPLICATION_DATA then w.pend.tot else 0
  }

  // One record: it is sealed when there is none pending, and only then.
  lemma DoWriteSeals(c: Conf, w: Writer, address: nat, input: bytes)
    requires w.Valid()
    ensures var (w', ret) := DoWrite(c, w, APPLICATION_DATA, address, input);
      if w.pend.active then
        && App(w') == App(w)
        && (ret > 0 ==> ret == w.pend.tot <= |input| && w.pend.typ == APPLICATION_DATA)
        && (ret <= 0 ==> PendingApp(w') == PendingApp(w))
      else if ret > 0 then ret == |input| && App(w') == App(w) + input
      else
        || (App(w') == App(w) && PendingApp(w') == 0)
        || (App(w') == App(w) + input && PendingApp(w') == |input|)
  {
    hide WritePending, SealPending, Plain;
    if !w.pend.active && 0 < |input| <= MAX_PLAIN && |w.buffer.data| == 0 {
      var staged := StageFlight(c, w, |input|);
      if staged.Some? {
        var (w', ok) := SealPending(c, staged.value, APPLICATION_DATA, address, input);
        if ok { PlainSnoc(w.sealed, w'.sealed[|w.sealed|], APPLICATION_DATA); }
      }
    }
  }

  function Between(s: bytes, from: nat, to: nat): bytes {
    if from <= to <= |s| then s[from..to] else []
  }

  lemma BetweenJoins(s: bytes, a: nat, b: nat, d: nat)
    requires a <= b <= d && b <= |s| && (d <= |s| || d == b)
    ensures Between(s, a, b) + Between(s, b, d) == Between(s, a, d)
  {}

  lemma BetweenNothing(s: bytes, from: nat)
    requires from > |s|
    ensures Between(s, from, from) == []
  {}

  // One turn of the loop, in terms of the whole buffer.
  lemma TurnSeals(c: Conf, w: Writer, address: nat, input: bytes, tot: nat, nw: nat)
    requires w.Valid() && tot + nw <= |input|
    ensures var (w', ret) := DoWrite(c, w, APPLICATION_DATA, address + tot, input[tot..tot + nw]);
      var done := tot + if ret > 0 then ret else PendingApp(w');
      && tot + PendingApp(w) <= done
      && (ret > 0 ==> done <= tot + nw && PendingApp(w') == 0)
      && App(w') == App(w) + Between(input, tot + PendingApp(w), done)
      && (done <= |input| || done == tot + PendingApp(w))
  {
    hide DoWrite, Plain, Writer.Valid;
    var chunk := input[tot..tot + nw];
    DoWriteSeals(c, w, address + tot, chunk);
    assert chunk == Between(input, tot, tot + nw);
  }

  // The whole call: it seals exactly the part of the buffer after what is owed.
  lemma {:induction false} WriteLoopSeals(c: Conf, w: Writer, address: nat, input: bytes, tot: nat)
    requires w.Valid() && tot <= |input|
    ensures var (w', ret) := WriteLoop(c, w, address, input, tot);
      var done := if ret > 0 then ret else Owed(w');
      && tot + PendingApp(w) <= done
      && (ret > 0 ==> !w'.pend.active && w'.wnum == w.wnum)
      && App(w') == App(w) + Between(input, tot + PendingApp(w), done)
      && (done <= |input| || done == tot + PendingApp(w))
    decreases |input| - tot
  {
    hide DoWrite, Plain, Between, Writer.Valid;
    var n := |input| - tot;
    var nw := if n > c.maxSendFragment then c.maxSendFragment else n;
    TurnSeals(c, w, address, input, tot, nw);
    var (w', ret) := DoWrite(c, w, APPLICATION_DATA, address + tot, input[tot..tot + nw]);
    if ret > 0 && ret != n && !c.partialWrite {
      WriteLoopSeals(c, w', address, input, tot + ret);
      var (w'', ret'') := WriteLoop(c, w', address, input, tot + ret);
      var done := if ret'' > 0 then ret'' else Owed(w'');
      BetweenJoins(input, tot + PendingApp(w), tot + ret, done);
    }
  }

  // The application's stream: calls pass windows of |data| that start where the last
  // reported octet was, and do not shrink below what has been accepted.
  ghost predicate InStep(w: Writer, data: bytes, reported: nat) {
    && w.Valid()
    && reported + Owed(w) <= |data|
    && App(w) == data[..reported + Owed(w)]
  }

  lemma WindowJoins(data: bytes, at: nat, len: nat, from: nat, to: nat)
    requires at + len <= |data| && from <= to <= len
    ensures data[..at + from] + Between(data[at..at + len], from, to) == data[..at + to]
  {
    var window, part := data[at..at + len], data[at + from..at + to];
    assert |window| == len && window[from..to] == part by {
      assert forall k | 0 <= k < to - from :: window[from + k] == part[k];
    }
    assert data[..at + to] == data[..at + from] + data[at + from..at + to];
  }

  // Exactly once and in order: a positive result r means that the first r octets of the
  // window were sealed, and nothing beyond them; otherwise the octets still owed are the
  // next of the stream.
  lemma WriteKeepsInStep(c: Conf, w: Writer, address: nat, data: bytes, reported: nat, len: nat)
    requires InStep(w, data, reported) && reported + len <= |data|
    requires w.wnum <= len
    ensures var (w', ret) := WriteAppData(c, w, address, data[reported..reported + len], len);
      && InStep(w', data, if ret > 0 then reported + ret else reported)
      && (ret > 0 ==> Owed(w') == 0 && App(w') == data[..reported + ret])
  {
    hide Plain, WriteLoop, Between;
    if !w.shutdown {
      var input := data[reported..reported + len];
      var w0 := w.(wnum := 0);
      WriteLoopSeals(c, w0, address, input, w.wnum);
      var (w', ret) := WriteLoop(c, w0, address, input, w.wnum);
      var done := if ret > 0 then ret else Owed(w');
      if done <= |input| {
        WindowJoins(data, reported, len, Owed(w), done);
      } else {
        BetweenNothing(input, done);
      }
    }
  }

  // A window shorter than what was already sent is refused, and the refusal forgets wnum:
  // every later window is then out of step.
  lemma WriteKeepsInStepIff(c: Conf, w: Writer, address: nat, data: bytes, reported: nat, len: int)
    requires InStep(w, data, reported) && reported + len <= |data|
    ensures var input := if len < 0 then [] else data[reported..reported + len];
      var (w', ret) := WriteAppData(c, w, address, input, len);
      InStep(w', data, if ret > 0 then reported + ret else reported) <==> w.shutdown || w.wnum == 0 || w.wnum <= len
  {
    hide Plain;
    if w.wnum <= len {
      WriteKeepsInStep(c, w, address, data, reported, len);
    } else if !w.shutdown && w.wnum > 0 {
      var w' := w.(wnum := 0);
      assert Owed(w') < Owed(w) && |App(w)| == reported + Owed(w);
    }
  }

  // Whatever buffer a successful call passes, what it reports as written was sealed exactly
  // when the octets owed from earlier calls are at its start.
  lemma RetryExact(c: Conf, w: Writer, address: nat, input: bytes, before: bytes, owed: bytes)
    requires w.Valid() && App(w) == before + owed && |owed| == Owed(w)
    ensures var (w', ret) := WriteAppData(c, w, address, input, |input|);
      ret > 0 ==>
        |owed| <= ret <= |input| && (App(w') == before + input[..ret] <==> owed == input[..|owed|])
  {
    hide Plain, WriteLoop, Between;
    if !w.shutdown && w.wnum <= |input| {
      var w0 := w.(wnum := 0);
      WriteLoopSeals(c, w0, address, input, w.wnum);
      var (w', ret) := WriteLoop(c, w0, address, input, w.wnum);
      if ret > 0 {
        SameExactly(before, owed, input, ret);
      }
    }
  }

  lemma SameExactly(before: bytes, owed: bytes, input: bytes, ret: nat)
    requires |owed| <= ret <= |input|
    ensures before + owed + Between(input, |owed|, ret) == before + input[..ret] <==> owed == input[..|owed|]
  {
    var k := |owed|;
    var part := input[k..ret];
    assert input[..ret] == input[..k] + part;
    assert before + owed + part == before + (owed + part);
    CancelPrefix(before, owed + part, input[..k] + part);
    assert (owed + part)[..k] == owed && (input[..k] + part)[..k] == input[..k];
  }

  lemma CancelPrefix(before: bytes, x: bytes, y: bytes)
    ensures before + x == before + y <==> x == y
  {
    assert (before + x)[|before|..] == x && (before + y)[|before|..] == y;
  }

  lemma CutJoins(before: bytes, rest: bytes, n: nat)
    requires n <= |rest|
    ensures before + rest[..n] + rest[n..] == before + rest
    ensures rest[n..] == [] ==> rest[..n] == rest
  {
    assert rest == rest[..n] + rest[n..];
  }

  lemma {:induction false} AddChunksPlain(c: Conf, w: Writer, rest: bytes, typ: u8)
    requires w.Valid() && w.flightOffset == 0 && c.maxSendFragment >= 1
    ensures var (w', ok) := AddChunks(c, w, rest);
      && (typ != HANDSHAKE ==> Plain(w'.sealed, typ) == Plain(w.sealed, typ))
      && (typ == HANDSHAKE && ok ==> Plain(w'.sealed, typ) == Plain(w.sealed, typ) + rest)
    decreases |rest|
  {
    hide Plain, AddRecord;
    var n := if |rest| < c.maxSendFragment then |rest| else c.maxSendFragment;
    AddRecordPlain(c, w, HANDSHAKE, rest[..n], typ);
    var (w', ok) := AddRecord(c, w, HANDSHAKE, rest[..n]);
    CutJoins(Plain(w.sealed, typ), rest, n);
    if ok && rest[n..] != [] { AddChunksPlain(c, w', rest[n..], typ); }
  }

  lemma AddRecordPlain(c: Conf, w: Writer, t: u8, payload: bytes, typ: u8)
    requires w.Valid() && w.flightOffset == 0
    ensures var (w', ok) := AddRecord(c, w, t, payload);
      Plain(w'.sealed, typ) == Plain(w.sealed, typ) + if ok && t == typ then payload else []
  {
    hide Plain;
    var (_, out) := SealRecord(c, w, |payload| + c.overhead, t, payload);
    if out.Some? { PlainSnoc(w.sealed, Sealed(t, payload, out.value), typ); }
  }

  lemma AlertKeepsApp(c: Conf, w: Writer, input: bytes)
    requires w.Valid()
    ensures var w' := DoWrite(c, w, ALERT, c.alertAddress, input).0;
      App(w') == App(w) && Owed(w') == Owed(w)
  {
    hide Plain, FlushBuffer, SealPending;
    if !w.pend.active && 0 < |input| <= MAX_PLAIN && |w.buffer.data| == 0 {
      var staged := StageFlight(c, w, |input|);
      if staged.Some? {
        var (w', ok) := SealPending(c, staged.value, ALERT, c.alertAddress, input);
        if ok { PlainSnoc(w.sealed, w'.sealed[|w.sealed|], APPLICATION_DATA); }
      }
    }
  }

  // Handshake messages, alerts and flushes between the application's calls change nothing
  // for it.
  lemma OthersKeepInStep(c: Conf, w: Writer, a: Action, data: bytes, reported: nat)
    requires InStep(w, data, reported) && Enabled(c, w, a) && !a.Write?
    ensures InStep(Act(c, w, a), data, reported)
  {
    hide Plain, FlushFlight, AddChunks, AddRecord, DoWrite;
    match a
    case Flush =>
    case Message(msg) => AddChunksPlain(c, w, msg, APPLICATION_DATA);
    case ChangeCipherSpec => AddRecordPlain(c, w, CHANGE_CIPHER_SPEC, CCS_BODY, APPLICATION_DATA);
    case Alert(level, desc) =>
      var w' := w.(shutdown := true, alertDispatch := true, sendAlert := [level, desc]);
      AlertKeepsApp(c, w', w'.sendAlert);
    case Dispatch => AlertKeepsApp(c, w, w.sendAlert);
    case Write(_, _, _) =>
  }

  // A run whose writes follow the stream, with the number of octets reported at its end.
  ghost predicate Follows(c: Conf, w: Writer, run: seq<Action>, data: bytes, reported: nat)
    requires w.Valid() && Runnable(c, w, run)
    decreases |run|
  {
    run == [] || (
      var a, w' := run[0], Act(c, w, run[0]);
      && (a.Write? ==>
           && w.wnum <= a.len && reported + a.len <= |data| && a.input == data[reported..reported + a.len])
      && Follows(c, w', run[1..], data, Reported(c, w, a, reported)))
  }

  ghost function Reported(c: Conf, w: Writer, a: Action, reported: nat): nat
    requires w.Valid() && Enabled(c, w, a)
  {
    if a.Write? && WriteAppData(c, w, a.address, a.input, a.len).1 > 0
    then reported + WriteAppData(c, w, a.address, a.input, a.len).1 else reported
  }

  ghost function ReportedBy(c: Conf, w: Writer, run: seq<Action>, reported: nat): nat
    requires w.Valid() && Runnable(c, w, run)
    decreases |run|
  {
    if run == [] then reported else ReportedBy(c, Act(c, w, run[0]), run[1..], Reported(c, w, run[0], reported))
  }

  // Over every such run the application data sealed is the reported part of the stream and
  // the part still owed: each octet once, in order.
  lemma {:induction false} RunSealsStream(c: Conf, w: Writer, run: seq<Action>, data: bytes, reported: nat)
    requires w.Valid() && InStep(w, data, reported) && Runnable(c, w, run) && Follows(c, w, run, data, reported)
    ensures InStep(Run(c, w, run), data, ReportedBy(c, w, run, reported))
    decreases |run|
  {
    hide InStep, WriteAppData, FlushFlight, AddMessage, AddRecord, SendAlert, DispatchAlert;
    if run != [] {
      var a := run[0];
      if a.Write? {
        WriteKeepsInStep(c, w, a.address, data, reported, a.len);
      } else {
        OthersKeepInStep(c, w, a, data, reported);
      }
      RunSealsStream(c, Act(c, w, a), run[1..], data, Reported(c, w, a, reported));
    }
  }

  // A new connection satisfies both invariants, so the results cover every run from the start.
  lemma NewWriterInStep(script: seq<int>, data: bytes)
    ensures Conserved(NewWriter(script)) && InStep(NewWriter(script), data, 0)
  {}

  // A connection that seals records of one octet, over a transport that takes one octet
  // and then none.
  const TINY: Conf := Conf(1, false, false, 0, 0, (n, typ, payload) => Some(payload))

  lemma DrainOne(b: Bio, u: Buffer)
    requires |u.data| == 1 && u.cap >= 1 && b.script != []
    ensures b.script[0] == 1 ==> BufferDrained(b, u) == (BioWrite(b, u.data).0, Buffer([], 0), 1)
    ensures b.script[0] == 0 ==> BufferDrained(b, u) == (BioWrite(b, u.data).0, u, 0)
  {
    assert u.data[1..] == [];
  }

  // One octet written over an idle connection: it gets out, or it is sealed and waits.
  lemma OneOctet(w: Writer, address: nat, input: bytes)
    requires w.Valid() && w.buffer.data == [] && w.flight.None? && !w.pend.active && |input| == 1
    requires w.bio.script != [] && (w.bio.script[0] == 0 || w.bio.script[0] == 1)
    ensures var (w', ret) := DoWrite(TINY, w, APPLICATION_DATA, address, input);
      && w'.bio.script == w.bio.script[1..] && w'.shutdown == w.shutdown
      && (w.bio.script[0] == 1 ==> ret == 1 && w'.buffer.data == [] && w'.flight.None? && !w'.pend.active)
      && (w.bio.script[0] == 0 ==> ret == 0)
  {
    hide BufferDrained;
    assert w.Unsent() == [];
    var staged := StageFlight(TINY, w, 1).value;
    assert staged.buffer.data == [] && [] + input == input;
    var w1 := SealPending(TINY, staged, APPLICATION_DATA, address, input).0;
    assert w1.buffer.data == input;
    DrainOne(w1.bio, w1.buffer);
  }

  lemma FirstOctets(w: Writer, address: nat, data: bytes)
    requires |data| == 2 && w == NewWriter([1, 0])
    ensures var (w', ret) := WriteAppData(TINY, w, address, data, 2);
      ret == 0 && w'.wnum == 1 && !w'.shutdown
  {
    hide DoWrite;
    OneOctet(w, address + 0, data[0..1]);
    var w1 := DoWrite(TINY, w, APPLICATION_DATA, address + 0, data[0..1]).0;
    OneOctet(w1, address + 1, data[1..2]);
    var w2 := DoWrite(TINY, w1, APPLICATION_DATA, address + 1, data[1..2]).0;
    assert WriteLoop(TINY, w1, address, data, 1) == (w2.(wnum := 1), 0);
    assert WriteLoop(TINY, w, address, data, 0) == WriteLoop(TINY, w1, address, data, 1);
    assert w.(wnum := 0) == w;
  }

  // Two octets are written; the first gets out and the second is sealed and waits. The
  // caller gives up, writing nothing instead: the refusal forgets that the first octet was
  // sealed, and the application's stream is out of step from then on.
  lemma TooShortForgets(data: bytes, address: nat)
    requires |data| == 2
    ensures var (w, ret) := WriteAppData(TINY, NewWriter([1, 0]), address, data, 2);
      && ret == 0 && w.wnum == 1 && InStep(w, data, 0)
      && var (w', ret') := WriteAppData(TINY, w, address, [], 0);
         ret' == -1 && !InStep(w', data, 0)
  {
    hide InStep, WriteLoop;
    var start := NewWriter([1, 0]);
    FirstOctets(start, address, data);
    NewWriterInStep([1, 0], data);
    assert data[0..0 + 2] == data && data[0..0 + 0] == [];
    WriteKeepsInStep(TINY, start, address, data, 0, 2);
    var w := WriteAppData(TINY, start, address, data, 2).0;
    WriteKeepsInStepIff(TINY, w, address, data, 0, 0);
  }
}
