/** A client and a server with a reliable stream in each direction, under every schedule of
    turns, pauses and partial writes: neither ever fails, each takes in exactly what the
    other says, and both end with the same transcript. */
module HandshakeRun {
  import opened Bytes
  import opened Handshake
  import opened HandshakeScript
  import opened HandshakeFollow
  import opened HandshakeFlow
  import C = HandshakeClient
  import S = HandshakeServer
  import CS = HandshakeClientStates
  import SS = HandshakeServerStates
  import CF = HandshakeClientFollows
  import SF = HandshakeServerFollows
  import CW = HandshakeClientWaits
  import SW = HandshakeServerWaits

  datatype System = System(client: C.Client, server: S.Server, toClient: seq<Rec>, toServer: seq<Rec>)

  datatype Turn = ClientTurn(oracle: Oracle) | ServerTurn(oracle: Oracle)

  function Start(): System {
    System(C.Start(), S.Start(), [], [])
  }

  // One step of ssl_run_handshake: resolve what the handshake waits for, or run it on.
  function ClientStep(c: C.Conf, y: System, oracle: Oracle): System {
    if y.client.wait.Ok? then
      if y.client.state.Done? then y else y.(client := C.Do(c, y.client, oracle.retry))
    else
      var (h, rest, out) := Resolve(y.client, y.toClient, oracle);
      y.(client := h, toClient := rest, toServer := y.toServer + out)
  }

  function ServerStep(s: S.Conf, y: System, oracle: Oracle): System {
    if y.server.wait.Ok? then
      if y.server.state.Done? then y else y.(server := S.Do(s, y.server, oracle.retry))
    else
      var (h, rest, out) := Resolve(y.server, y.toServer, oracle);
      y.(server := h, toServer := rest, toClient := y.toClient + out)
  }

  function Step(c: C.Conf, s: S.Conf, y: System, t: Turn): System {
    match t
    case ClientTurn(oracle) => ClientStep(c, y, oracle)
    case ServerTurn(oracle) => ServerStep(s, y, oracle)
  }

  function Run(c: C.Conf, s: S.Conf, y: System, turns: seq<Turn>): System
    decreases |turns|
  {
    if turns == [] then y else Run(c, s, Step(c, s, y, turns[0]), turns[1..])
  }

  // Everything on its way to a machine: what it has read, what the transport holds, and
  // what the other has not flushed.
  function InFlight<T, U>(h: Hs<T>, net: seq<Rec>, peer: Hs<U>): seq<Rec> {
    InboxRecords(h) + net + peer.flight
  }

  ghost predicate Inv(c: C.Conf, s: S.Conf, o: Options, y: System) {
    && CS.Inv(c, o, y.client)
    && SS.Inv(s, o, y.server)
    && Flow(o, false, CS.PlaceOf(o.resumed, y.client), SS.PlaceOf(o.resumed, y.server),
            InFlight(y.client, y.toClient, y.server), InFlight(y.server, y.toServer, y.client))
  }

  // The server has turned away a client without a certificate.
  ghost predicate Refused(s: S.Conf, o: Options, y: System) {
    !SS.Agreed(s, o) && y.server.wait.Error? && !y.server.state.Done?
  }

  // A machine that says or takes something, in terms of what is in flight.
  lemma FollowsFlows<T, U>(o: Options, x: bool, px: nat, qx: nat, py: nat, h: Hs<T>, h': Hs<T>, peer: Hs<U>,
                           toX: seq<Rec>, toY: seq<Rec>)
    requires Follows(o, x, px, h, qx, h')
    requires Flow(o, x, px, py, InFlight(h, toX, peer), InFlight(peer, toY, h))
    ensures Flow(o, x, qx, py, InFlight(h', toX, peer), InFlight(peer, toY, h'))
  {
    hide At, Records, OnlyBy, Flow;
    if Says(o, x, px, h, qx, h') {
      FlowSays(o, x, px, py, InFlight(h, toX, peer), InFlight(peer, toY, h), qx);
      var r := Records(o, px, qx);
      assert InFlight(peer, toY, h') == InFlight(peer, toY, h) + r by {
        assert InFlight(peer, toY, h) + [] == InFlight(peer, toY, h);
        assert InboxRecords(peer) + toY + (h.flight + r) == InboxRecords(peer) + toY + h.flight + r;
      }
    } else {
      var rest := InFlight(h', toX, peer);
      assert InFlight(h, toX, peer) == Records(o, px, qx) + rest by {
        if Records(o, px, qx) == [] {
          assert [] + rest == rest;
        } else {
          assert rest == toX + peer.flight;
          assert InboxRecords(h) + toX + peer.flight == InboxRecords(h) + (toX + peer.flight);
        }
      }
      FlowTakes(o, x, px, py, InFlight(h, toX, peer), InFlight(peer, toY, h), qx, rest);
    }
  }

  lemma InboxIsNext<T, U>(o: Options, x: bool, px: nat, py: nat, h: Hs<T>, peer: Hs<U>, toX: seq<Rec>, toY: seq<Rec>)
    requires px <= Places(o) && py <= Places(o)
    requires Flow(o, x, px, py, InFlight(h, toX, peer), InFlight(peer, toY, h))
    ensures InboxFits(o, x, px, h)
  {
    hide At, Flow;
    if h.inbox.Some? {
      FlowHead(o, x, px, py, InFlight(h, toX, peer), InFlight(peer, toY, h));
      assert InFlight(h, toX, peer)[0] == InboxRecords(h)[0];
    }
  }

  // Flushing and reading move records along but put none in or out.
  lemma FlushFlows<T, U>(h: Hs<T>, peer: Hs<U>, toY: seq<Rec>, out: seq<Rec>, left: seq<Rec>)
    requires out + left == h.flight
    ensures InFlight(peer, toY + out, h.(flight := left)) == InFlight(peer, toY, h)
  {
    assert InboxRecords(peer) + (toY + out) + left == InboxRecords(peer) + toY + (out + left);
  }

  lemma ReadFlows<T, U>(h: Hs<T>, peer: Hs<U>, toX: seq<Rec>)
    requires toX != [] && toX[0].item.Message? && toX[0].epoch == h.readEpoch && h.inbox.None?
    ensures InFlight(h.(inbox := Some(toX[0].item.msg), wait := Ok), toX[1..], peer) == InFlight(h, toX, peer)
  {
    assert toX == [toX[0]] + toX[1..];
  }

  // Reading ChangeCipherSpec takes it off what is in flight.
  lemma CipherFlows<T, U>(o: Options, x: bool, p: nat, py: nat, h: Hs<T>, peer: Hs<U>, toX: seq<Rec>, toY: seq<Rec>)
    requires Flow(o, x, p, py, InFlight(h, toX, peer), InFlight(peer, toY, h))
    requires CipherNext(o, x, p, h.readEpoch) && h.inbox.None? && toX != [] && py <= Places(o)
    ensures toX[0] == Rec(h.readEpoch, ChangeCipherSpec)
    ensures Flow(o, x, p + 1, py, InFlight(h, toX[1..], peer), InFlight(peer, toY, h))
  {
    hide At, Records, OnlyBy, Flow;
    var all := InFlight(h, toX, peer);
    assert all == toX + peer.flight;
    FlowHead(o, x, p, py, all, InFlight(peer, toY, h));
    NextPlace(o, p);
    OnePlace(o, p);
    var rest := InFlight(h, toX[1..], peer);
    assert all == [toX[0]] + rest;
    FlowTakes(o, x, p, py, all, InFlight(peer, toY, h), p + 1, rest);
  }

  // The head of what the transport holds, for a machine that waits for a message.
  lemma MessageArrives<T, U>(o: Options, x: bool, p: nat, py: nat, h: Hs<T>, peer: Hs<U>, toX: seq<Rec>, toY: seq<Rec>)
    requires Flow(o, x, p, py, InFlight(h, toX, peer), InFlight(peer, toY, h))
    requires MessageNext(o, x, p, h.readEpoch) && h.inbox.None? && toX != [] && py <= Places(o)
    ensures toX[0].item.Message? && toX[0].epoch == h.readEpoch
  {
    hide At, Flow;
    assert InFlight(h, toX, peer) == toX + peer.flight;
    FlowHead(o, x, p, py, InFlight(h, toX, peer), InFlight(peer, toY, h));
  }

  lemma {:induction false} ClientDoKeeps(c: C.Conf, s: S.Conf, o: Options, y: System, oracle: Oracle)
    requires Inv(c, s, o, y) && y.client.wait.Ok? && !y.client.state.Done?
    ensures Inv(c, s, o, ClientStep(c, y, oracle))
  {
    hide CS.Inv, SS.Inv, Flow, InFlight, Follows, C.Do, InboxFits;
    var p, q := CS.PlaceOf(o.resumed, y.client), SS.PlaceOf(o.resumed, y.server);
    InboxIsNext(o, false, p, q, y.client, y.server, y.toClient, y.toServer);
    CF.ClientFollows(c, o, y.client, oracle.retry);
    var h := C.Do(c, y.client, oracle.retry);
    FollowsFlows(o, false, p, CS.PlaceOf(o.resumed, h), q, y.client, h, y.server, y.toClient, y.toServer);
  }

  lemma {:induction false} ServerDoKeeps(c: C.Conf, s: S.Conf, o: Options, y: System, oracle: Oracle)
    requires Inv(c, s, o, y) && y.server.wait.Ok? && !y.server.state.Done?
    ensures Inv(c, s, o, ServerStep(s, y, oracle)) || Refused(s, o, ServerStep(s, y, oracle))
  {
    hide CS.Inv, SS.Inv, SS.Agreed, Flow, InFlight, Follows, S.Do, InboxFits;
    var p, q := CS.PlaceOf(o.resumed, y.client), SS.PlaceOf(o.resumed, y.server);
    FlowSwap(o, false, p, q, InFlight(y.client, y.toClient, y.server), InFlight(y.server, y.toServer, y.client));
    InboxIsNext(o, true, q, p, y.server, y.client, y.toServer, y.toClient);
    SF.ServerFollows(s, o, y.server, oracle.retry);
    var h := S.Do(s, y.server, oracle.retry);
    if SS.Good(s, o, y.server, h, oracle.retry) {
      FollowsFlows(o, true, q, SS.PlaceOf(o.resumed, h), p, y.server, h, y.client, y.toServer, y.toClient);
      FlowSwap(o, true, SS.PlaceOf(o.resumed, h), p, InFlight(h, y.toServer, y.client), InFlight(y.client, y.toClient, h));
    }
  }

  lemma {:induction false} ClientPauseKeeps(c: C.Conf, s: S.Conf, o: Options, y: System, oracle: Oracle)
    requires Inv(c, s, o, y) && y.client.wait.Paused?
    ensures Inv(c, s, o, ClientStep(c, y, oracle))
  {
    hide CS.Inv, SS.Inv, Flow;
    assert y.toServer + [] == y.toServer;
    CW.PauseEnds(c, o, y.client);
  }

  lemma {:induction false} ClientFlushKeeps(c: C.Conf, s: S.Conf, o: Options, y: System, oracle: Oracle)
    requires Inv(c, s, o, y) && y.client.wait.Flush?
    ensures Inv(c, s, o, ClientStep(c, y, oracle))
  {
    hide CS.Inv, SS.Inv, Flow;
    var h := y.client;
    var k := if oracle.takes >= |h.flight| then |h.flight| else oracle.takes;
    assert h.flight[..k] + h.flight[k..] == h.flight;
    CW.FlushGoesOn(c, o, h, h.flight[k..]);
    CW.FlushEnds(c, o, h);
    FlushFlows(h, y.server, y.toServer, h.flight[..k], h.flight[k..]);
    assert k == |h.flight| ==> h.flight[..k] == h.flight && h.flight[k..] == [];
  }

  lemma {:induction false} ClientReadKeeps(c: C.Conf, s: S.Conf, o: Options, y: System, oracle: Oracle)
    requires Inv(c, s, o, y) && y.client.wait.ReadMessage?
    ensures Inv(c, s, o, ClientStep(c, y, oracle))
  {
    hide CS.Inv, SS.Inv, Flow, MessageNext;
    assert y.toServer + [] == y.toServer;
    var h, p, q := y.client, CS.PlaceOf(o.resumed, y.client), SS.PlaceOf(o.resumed, y.server);
    if y.toClient != [] {
      CW.NeverFails(c, o, h);
      CW.MessageExpected(c, o, h);
      MessageArrives(o, false, p, q, h, y.server, y.toClient, y.toServer);
      CW.MessageComes(c, o, h, y.toClient[0].item.msg);
      ReadFlows(h, y.server, y.toClient);
    }
  }

  lemma {:induction false} ClientCipherKeeps(c: C.Conf, s: S.Conf, o: Options, y: System, oracle: Oracle)
    requires Inv(c, s, o, y) && y.client.wait.ReadChangeCipherSpec?
    ensures Inv(c, s, o, ClientStep(c, y, oracle))
  {
    hide CS.Inv, SS.Inv, Flow, CipherNext;
    assert y.toServer + [] == y.toServer;
    var h, p, q := y.client, CS.PlaceOf(o.resumed, y.client), SS.PlaceOf(o.resumed, y.server);
    if y.toClient != [] {
      CW.NeverFails(c, o, h);
      CW.CipherComes(c, o, h);
      CipherFlows(o, false, p, q, h, y.server, y.toClient, y.toServer);
    }
  }

  lemma {:induction false} ServerPauseKeeps(c: C.Conf, s: S.Conf, o: Options, y: System, oracle: Oracle)
    requires Inv(c, s, o, y) && y.server.wait.Paused?
    ensures Inv(c, s, o, ServerStep(s, y, oracle))
  {
    hide CS.Inv, SS.Inv, Flow;
    assert y.toClient + [] == y.toClient;
    SW.PauseEnds(s, o, y.server);
  }

  lemma {:induction false} ServerFlushKeeps(c: C.Conf, s: S.Conf, o: Options, y: System, oracle: Oracle)
    requires Inv(c, s, o, y) && y.server.wait.Flush?
    ensures Inv(c, s, o, ServerStep(s, y, oracle))
  {
    hide CS.Inv, SS.Inv, Flow;
    var h := y.server;
    var k := if oracle.takes >= |h.flight| then |h.flight| else oracle.takes;
    assert h.flight[..k] + h.flight[k..] == h.flight;
    SW.FlushGoesOn(s, o, h, h.flight[k..]);
    SW.FlushEnds(s, o, h);
    FlushFlows(h, y.client, y.toClient, h.flight[..k], h.flight[k..]);
    assert k == |h.flight| ==> h.flight[..k] == h.flight && h.flight[k..] == [];
  }

  lemma {:induction false} ServerReadKeeps(c: C.Conf, s: S.Conf, o: Options, y: System, oracle: Oracle)
    requires Inv(c, s, o, y) && y.server.wait.ReadMessage?
    ensures Inv(c, s, o, ServerStep(s, y, oracle))
  {
    hide CS.Inv, SS.Inv, Flow, MessageNext;
    assert y.toClient + [] == y.toClient;
    var h, p, q := y.server, SS.PlaceOf(o.resumed, y.server), CS.PlaceOf(o.resumed, y.client);
    if y.toServer != [] {
      SW.NeverFails(s, o, h);
      SW.MessageExpected(s, o, h);
      FlowSwap(o, false, q, p, InFlight(y.client, y.toClient, h), InFlight(h, y.toServer, y.client));
      MessageArrives(o, true, p, q, h, y.client, y.toServer, y.toClient);
      SW.MessageComes(s, o, h, y.toServer[0].item.msg);
      ReadFlows(h, y.client, y.toServer);
    }
  }

  lemma {:induction false} ServerCipherKeeps(c: C.Conf, s: S.Conf, o: Options, y: System, oracle: Oracle)
    requires Inv(c, s, o, y) && y.server.wait.ReadChangeCipherSpec?
    ensures Inv(c, s, o, ServerStep(s, y, oracle))
  {
    hide CS.Inv, SS.Inv, Flow, CipherNext;
    assert y.toClient + [] == y.toClient;
    var h, p, q := y.server, SS.PlaceOf(o.resumed, y.server), CS.PlaceOf(o.resumed, y.client);
    if y.toServer != [] {
      SW.NeverFails(s, o, h);
      SW.CipherComes(s, o, h);
      FlowSwap(o, false, q, p, InFlight(y.client, y.toClient, h), InFlight(h, y.toServer, y.client));
      CipherFlows(o, true, p, q, h, y.client, y.toServer, y.toClient);
      FlowSwap(o, true, p + 1, q, InFlight(h, y.toServer[1..], y.client), InFlight(y.client, y.toClient, h));
    }
  }

  lemma {:induction false} ClientTurnKeeps(c: C.Conf, s: S.Conf, o: Options, y: System, oracle: Oracle)
    requires Inv(c, s, o, y) && !y.client.wait.Error?
    ensures Inv(c, s, o, ClientStep(c, y, oracle))
  {
    hide Inv;
    match y.client.wait
    case Ok => if !y.client.state.Done? { ClientDoKeeps(c, s, o, y, oracle); }
    case Paused => ClientPauseKeeps(c, s, o, y, oracle);
    case Flush => ClientFlushKeeps(c, s, o, y, oracle);
    case ReadMessage => ClientReadKeeps(c, s, o, y, oracle);
    case ReadChangeCipherSpec => ClientCipherKeeps(c, s, o, y, oracle);
  }

  lemma {:induction false} ServerTurnKeeps(c: C.Conf, s: S.Conf, o: Options, y: System, oracle: Oracle)
    requires Inv(c, s, o, y) && !y.server.wait.Error?
    ensures Inv(c, s, o, ServerStep(s, y, oracle)) || Refused(s, o, ServerStep(s, y, oracle))
  {
    hide Inv, Refused;
    match y.server.wait
    case Ok => if !y.server.state.Done? { ServerDoKeeps(c, s, o, y, oracle); }
    case Paused => ServerPauseKeeps(c, s, o, y, oracle);
    case Flush => ServerFlushKeeps(c, s, o, y, oracle);
    case ReadMessage => ServerReadKeeps(c, s, o, y, oracle);
    case ReadChangeCipherSpec => ServerCipherKeeps(c, s, o, y, oracle);
  }

  // Every step of every schedule.
  lemma {:induction false} StepKeeps(c: C.Conf, s: S.Conf, o: Options, y: System, t: Turn)
    requires Inv(c, s, o, y)
    ensures Inv(c, s, o, Step(c, s, y, t)) || Refused(s, o, Step(c, s, y, t))
  {
    hide CS.Inv, SS.Inv, Flow, ClientStep, ServerStep, Refused;
    match t
    case ClientTurn(oracle) =>
      CW.NeverFails(c, o, y.client);
      ClientTurnKeeps(c, s, o, y, oracle);
    case ServerTurn(oracle) =>
      SW.NeverFails(s, o, y.server);
      ServerTurnKeeps(c, s, o, y, oracle);
  }

  // A refusal is final.
  lemma RefusedForGood(c: C.Conf, s: S.Conf, o: Options, y: System, t: Turn)
    requires Refused(s, o, y)
    ensures Refused(s, o, Step(c, s, y, t))
  {
    hide SS.Agreed, C.Do;
  }

  lemma {:induction false} RunKeeps(c: C.Conf, s: S.Conf, o: Options, y: System, turns: seq<Turn>)
    requires Inv(c, s, o, y) || Refused(s, o, y)
    ensures Inv(c, s, o, Run(c, s, y, turns)) || Refused(s, o, Run(c, s, y, turns))
    decreases |turns|
  {
    hide Inv, Refused, Step;
    if turns != [] {
      if Inv(c, s, o, y) { StepKeeps(c, s, o, y, turns[0]); } else { RefusedForGood(c, s, o, y, turns[0]); }
      RunKeeps(c, s, o, Step(c, s, y, turns[0]), turns[1..]);
    }
  }

  // The conversation these two lead to.
  function Talk(c: C.Conf, s: S.Conf): Options {
    Negotiated(c.offer, c.hasCertificate, s)
  }

  lemma StartInv(c: C.Conf, s: S.Conf)
    requires s.cipher.Valid()
    ensures Inv(c, s, Talk(c, s), Start())
  {
    var o := Talk(c, s);
    NegotiatedValid(c.offer, c.hasCertificate, s);
    hide Negotiated, SS.Agreed;
    CF.StartInv(c, o);
    SF.StartInv(s, o);
    NoPlace(o, 0);
    hide CS.Inv, SS.Inv, At;
  }

  // Safety, over every schedule: unless the server insists on a certificate the client does
  // not have, neither machine fails, what each has hashed is the conversation up to where
  // it is, and so one transcript is a prefix of the other.
  lemma {:induction false} NeitherFails(c: C.Conf, s: S.Conf, turns: seq<Turn>)
    requires s.cipher.Valid() && SS.Agreed(s, Talk(c, s))
    ensures var y, o := Run(c, s, Start(), turns), Talk(c, s);
      var p, q := CS.PlaceOf(o.resumed, y.client), SS.PlaceOf(o.resumed, y.server);
      && !y.client.wait.Error? && !y.server.wait.Error?
      && y.client.transcript.hash == (if p < 2 then None else Some(Log(o, p)))
      && y.server.transcript.hash == (if q < 1 then None else Some(Log(o, q)))
      && (p >= 2 && q >= 1 ==>
            || y.client.transcript.hash.value <= y.server.transcript.hash.value
            || y.server.transcript.hash.value <= y.client.transcript.hash.value)
  {
    var y, o := Run(c, s, Start(), turns), Talk(c, s);
    var p, q := CS.PlaceOf(o.resumed, y.client), SS.PlaceOf(o.resumed, y.server);
    StartInv(c, s);
    RunKeeps(c, s, o, Start(), turns);
    hide Run, Negotiated, At, Log, Flow, CS.Knows, SS.Knows, CS.Epochs, SS.Epochs;
    LogGrows(o, p, q);
    LogGrows(o, q, p);
  }

  lemma {:induction false} LogGrows(o: Options, p: nat, q: nat)
    ensures p <= q ==> Log(o, p) <= Log(o, q)
    decreases q
  {
    if p < q {
      LogGrows(o, p, q - 1);
      LogStep(o, q - 1);
    }
  }

  lemma {:induction false} RunAppend(c: C.Conf, s: S.Conf, y: System, turns1: seq<Turn>, turns2: seq<Turn>)
    ensures Run(c, s, y, turns1 + turns2) == Run(c, s, Run(c, s, y, turns1), turns2)
    decreases |turns1|
  {
    hide Step;
    if turns1 == [] {
      assert turns1 + turns2 == turns2;
    } else {
      assert (turns1 + turns2)[1..] == turns1[1..] + turns2;
      RunAppend(c, s, Step(c, s, y, turns1[0]), turns1[1..], turns2);
    }
  }

  lemma {:induction false} RunMore(c: C.Conf, s: S.Conf, y: System, turns: seq<Turn>, t: Turn)
    ensures Run(c, s, y, turns + [t]) == Step(c, s, Run(c, s, y, turns), t)
    decreases |turns|
  {
    hide Step;
    if turns == [] {
      assert [t][1..] == [];
    } else {
      assert (turns + [t])[1..] == turns[1..] + [t];
      RunMore(c, s, Step(c, s, y, turns[0]), turns[1..], t);
    }
  }
}
