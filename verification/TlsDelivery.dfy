/** From one end of a TLS connection to the other: the messages queued by the sender are
    the messages the reader is done with, and the octets both sides hash are the same. */
module TlsDelivery {
  import opened Bytes
  import opened RecordTypes
  import opened TlsWrite
  import opened TlsConservation
  import TlsFraming

  // Every handshake message of the run is queued without an error.
  ghost predicate AllQueued(c: Conf, w: Writer, run: seq<Action>)
    requires w.Valid() && Runnable(c, w, run)
    decreases |run|
  {
    run == [] || (
      && (run[0].Message? ==> AddMessage(c, w, run[0].msg).1)
      && AllQueued(c, Act(c, w, run[0]), run[1..]))
  }

  // The handshake messages of a run, end to end.
  ghost function Queued(run: seq<Action>): bytes {
    if run == [] then [] else (if run[0].Message? then run[0].msg else []) + Queued(run[1..])
  }

  lemma DoWriteHandshake(c: Conf, w: Writer, typ: u8, address: nat, input: bytes)
    requires w.Valid() && typ != HANDSHAKE
    ensures Plain(DoWrite(c, w, typ, address, input).0.sealed, HANDSHAKE) == Plain(w.sealed, HANDSHAKE)
  {
    hide Plain, FlushBuffer, SealPending;
    if !w.pend.active && 0 < |input| <= MAX_PLAIN && |w.buffer.data| == 0 {
      var staged := StageFlight(c, w, |input|);
      if staged.Some? {
        var (w', ok) := SealPending(c, staged.value, typ, address, input);
        if ok { PlainSnoc(w.sealed, w'.sealed[|w.sealed|], HANDSHAKE); }
      }
    }
  }

  lemma {:induction false} WriteLoopHandshake(c: Conf, w: Writer, address: nat, input: bytes, tot: nat)
    requires w.Valid() && tot <= |input|
    ensures var w' := WriteLoop(c, w, address, input, tot).0;
      Plain(w'.sealed, HANDSHAKE) == Plain(w.sealed, HANDSHAKE) && w'.transcript == w.transcript
    decreases |input| - tot
  {
    hide Plain, DoWrite;
    var n := |input| - tot;
    var nw := if n > c.maxSendFragment then c.maxSendFragment else n;
    DoWriteHandshake(c, w, APPLICATION_DATA, address + tot, input[tot..tot + nw]);
    var (w', ret) := DoWrite(c, w, APPLICATION_DATA, address + tot, input[tot..tot + nw]);
    if ret > 0 && ret != n && !c.partialWrite { WriteLoopHandshake(c, w', address, input, tot + ret); }
  }

  // Each action adds its message, if it is one, to the handshake records and to the transcript.
  lemma ActHandshake(c: Conf, w: Writer, a: Action)
    requires w.Valid() && Enabled(c, w, a) && (a.Message? ==> AddMessage(c, w, a.msg).1)
    ensures var w', msg := Act(c, w, a), if a.Message? then a.msg else [];
      && Plain(w'.sealed, HANDSHAKE) == Plain(w.sealed, HANDSHAKE) + msg
      && w'.transcript.Some? == w.transcript.Some?
      && (w.transcript.Some? ==> w'.transcript.value == w.transcript.value + msg)
  {
    hide Plain, FlushFlight, AddChunks, AddRecord, DoWrite, WriteLoop;
    match a
    case Flush =>
    case Message(msg) => AddChunksPlain(c, w, msg, HANDSHAKE);
    case ChangeCipherSpec => AddRecordPlain(c, w, CHANGE_CIPHER_SPEC, CCS_BODY, HANDSHAKE);
    case Alert(level, desc) =>
      var w' := w.(shutdown := true, alertDispatch := true, sendAlert := [level, desc]);
      DoWriteHandshake(c, w', ALERT, c.alertAddress, w'.sendAlert);
    case Dispatch => DoWriteHandshake(c, w, ALERT, c.alertAddress, w.sendAlert);
    case Write(address, input, len) =>
      if len >= w.wnum { WriteLoopHandshake(c, w.(wnum := 0), address, input, w.wnum); }
  }

  // Over every run the handshake records carry the messages queued, and so does the
  // transcript.
  lemma {:induction false} RunHandshake(c: Conf, w: Writer, run: seq<Action>)
    requires w.Valid() && Runnable(c, w, run) && AllQueued(c, w, run)
    ensures var w' := Run(c, w, run);
      && Plain(w'.sealed, HANDSHAKE) == Plain(w.sealed, HANDSHAKE) + Queued(run)
      && w'.transcript.Some? == w.transcript.Some?
      && (w.transcript.Some? ==> w'.transcript.value == w.transcript.value + Queued(run))
    decreases |run|
  {
    hide Plain, Act, AddMessage, Enabled;
    if run != [] {
      ActHandshake(c, w, run[0]);
      RunHandshake(c, Act(c, w, run[0]), run[1..]);
      var msg := if run[0].Message? then run[0].msg else [];
      assert Queued(run) == msg + Queued(run[1..]);
      assert Plain(w.sealed, HANDSHAKE) + msg + Queued(run[1..]) == Plain(w.sealed, HANDSHAKE) + Queued(run);
      if w.transcript.Some? {
        assert w.transcript.value + msg + Queued(run[1..]) == w.transcript.value + Queued(run);
      }
    }
  }

  // The sender queues |ms| on a fresh connection, between writes, flushes and alerts of any
  // kind. A reader that has taken in any part of its handshake records, under any cutting
  // into bodies, is done with a prefix of |ms|; with all of them taken in and no message
  // waiting it is done with |ms|, and its raw messages are the sender's transcript.
  lemma MessagesDelivered(c: Conf, w: Writer, run: seq<Action>, ms: seq<TlsFraming.Message>,
                          maxLen: nat, es: seq<TlsFraming.Event>)
    requires w.Valid() && w.sealed == [] && w.transcript == Some([])
    requires Runnable(c, w, run) && AllQueued(c, w, run)
    requires (forall i | 0 <= i < |ms| :: ms[i].Valid()) && Queued(run) == TlsFraming.Wire(ms)
    requires var s := TlsFraming.Steps(TlsFraming.Reading(TlsFraming.Reader(None, false), [], []), maxLen, es);
      s.taken <= Plain(Run(c, w, run).sealed, HANDSHAKE)
    ensures var s := TlsFraming.Steps(TlsFraming.Reading(TlsFraming.Reader(None, false), [], []), maxLen, es);
      var w' := Run(c, w, run);
      && s.done <= ms
      && (s.taken == Plain(w'.sealed, HANDSHAKE) && s.reader.Front().Need? ==>
            s.done == ms && w'.transcript == Some(TlsFraming.Wire(s.done)))
  {
    hide Run, AllQueued, TlsFraming.Steps, TlsFraming.Wire;
    RunHandshake(c, w, run);
    assert Plain([], HANDSHAKE) == [];
    assert [] + Queued(run) == Queued(run);
    TlsFraming.FramingRoundTrip(maxLen, es, ms);
  }
}
