/** One end of a connection while it shakes hands: the SSL_HANDSHAKE, what has come in and
    gone out, and the switch of ssl_run_handshake, which resolves what a handshake waits for. */
module HandshakeEndpoint {
  import opened Bytes
  import opened Handshake
  import P = HandshakeProgress

  // |oracles| say what callbacks and the transport do next; when they run out, everything waits.
  class Endpoint<T(!new)> {
    var hs: Hs<T>
    var incoming: seq<Rec>
    var outgoing: seq<Rec>
    var oracles: seq<Oracle>

    constructor (hs: Hs<T>, oracles: seq<Oracle>)
      ensures this.hs == hs && this.oracles == oracles && incoming == [] && outgoing == []
    {
      this.hs, this.oracles, incoming, outgoing := hs, oracles, [], [];
    }

    // The transport does not take the rest of the flight, or has nothing to read.
    ghost predicate HeldUp()
      reads this
    {
      (hs.wait.Flush? && hs.flight != []) || P.Blocked(hs, incoming)
    }

    method NextOracle() returns (oracle: Oracle)
      modifies `oracles
    {
      if oracles == [] { return Oracle(true, 0); }
      oracle, oracles := oracles[0], oracles[1..];
    }

    // What every way of resolving a wait does to the fields.
    twostate predicate Resolved(oracle: Oracle)
      reads this
    {
      (hs, incoming, outgoing) ==
      var (h, rest, out) := Resolve(old(hs), old(incoming), oracle);
      (h, rest, old(outgoing) + out)
    }

    // The switch of ssl_run_handshake: false when the call has to return.
    method ResolveWait(oracle: Oracle) returns (goOn: bool)
      requires !hs.wait.Ok? && !hs.wait.Error? && !P.Blocked(hs, incoming)
      modifies `hs, `incoming, `outgoing
      ensures Resolved(oracle)
      ensures goOn ==> (hs.wait.Ok? || hs.wait.Error?) && !old(hs.wait.Paused?)
      ensures goOn && old(hs.wait.Flush?) ==> oracle.takes >= |old(hs.flight)|
      ensures !goOn ==> HeldUp() || (old(hs.wait.Paused?) && hs.wait.Ok?)
    {
      hide Resolve;
      goOn := true;
      if hs.wait.Flush? {
        FlushFlight(oracle);
        goOn := hs.wait.Ok?;
      } else if hs.wait.Paused? {
        ReturnOnce(oracle);
        goOn := false;
      } else {
        ReadEnds(hs, incoming, oracle);
        OpenRecord(oracle);
      }
    }

    // flush_flight, with a transport that takes some of the records.
    method FlushFlight(oracle: Oracle)
      requires hs.wait.Flush?
      modifies `hs, `outgoing
      ensures Resolved(oracle)
      ensures if hs.wait.Ok? then oracle.takes >= |old(hs.flight)| else hs.wait.Flush? && hs.flight != []
    {
      var n := if oracle.takes >= |hs.flight| then |hs.flight| else oracle.takes;
      assert n == |hs.flight| ==> hs.flight[..n] == hs.flight && hs.flight[n..] == [];
      outgoing := outgoing + hs.flight[..n];
      hs := hs.(flight := hs.flight[n..], wait := if n == |hs.flight| then Ok else Flush);
    }

    // The waits for the application: the call returns, and the next one goes on.
    method ReturnOnce(oracle: Oracle)
      requires hs.wait.Paused?
      modifies `hs
      ensures Resolved(oracle) && hs.wait.Ok?
    {
      assert outgoing + [] == outgoing;
      hs := hs.(wait := Ok);
    }

    // open_handshake or open_change_cipher_spec, on the next record.
    method OpenRecord(oracle: Oracle)
      requires (hs.wait.ReadMessage? || hs.wait.ReadChangeCipherSpec?) && incoming != []
      modifies `hs, `incoming
      ensures Resolved(oracle)
    {
      assert outgoing + [] == outgoing;
      var r := incoming[0];
      incoming := incoming[1..];
      if r.item.Message? != hs.wait.ReadMessage? || r.epoch != hs.readEpoch || hs.inbox.Some? {
        hs := hs.(wait := Error);
      } else if hs.wait.ReadMessage? {
        hs := hs.(inbox := Some(r.item.msg), wait := Ok);
      } else {
        hs := hs.(wait := Ok);
      }
    }
  }

  lemma ExpectedEnds<T>(h: Hs<T>, incoming: seq<Rec>, oracle: Oracle)
    requires (h.wait.ReadMessage? || h.wait.ReadChangeCipherSpec?) && incoming != []
    requires incoming[0].item.Message? == h.wait.ReadMessage? && incoming[0].epoch == h.readEpoch && h.inbox.None?
    ensures Resolve(h, incoming, oracle).0.wait.Ok?
  {}

  lemma ReadEnds<T>(h: Hs<T>, incoming: seq<Rec>, oracle: Oracle)
    requires (h.wait.ReadMessage? || h.wait.ReadChangeCipherSpec?) && incoming != []
    ensures var h' := Resolve(h, incoming, oracle).0; h'.wait.Ok? || h'.wait.Error?
  {
    hide Resolve;
    if incoming[0].item.Message? == h.wait.ReadMessage? && incoming[0].epoch == h.readEpoch && h.inbox.None? {
      ExpectedEnds(h, incoming, oracle);
    } else {
      P.UnexpectedFails(h, incoming, oracle);
    }
  }
}
