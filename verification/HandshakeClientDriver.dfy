/** The loops that drive a client handshake, ssl_run_handshake and ssl_client_handshake, as
    they update an SSL_HANDSHAKE in place. */
module HandshakeClientDriver {
  import opened Handshake
  import opened HandshakeScript
  import opened HandshakeFlow
  import opened HandshakeRun
  import opened HandshakeEndpoint
  import C = HandshakeClient
  import S = HandshakeServer
  import CS = HandshakeClientStates
  import SS = HandshakeServerStates
  import W = HandshakeClientWaits
  import P = HandshakeProgress

  // A client handshake with its transport. The server stands still meanwhile.
  class ClientConnection {
    const conf: C.Conf
    const io: Endpoint<C.State>
    ghost const peerConf: S.Conf
    ghost const peer: S.Server

    ghost function Sys(): System
      reads io
    {
      System(io.hs, peer, io.incoming, io.outgoing)
    }

    ghost function Conversation(): Options {
      Talk(conf, peerConf)
    }

    ghost predicate Valid()
      reads io
    {
      HandshakeRun.Inv(conf, peerConf, Conversation(), Sys()) && SS.Agreed(peerConf, Conversation())
    }

    constructor (conf: C.Conf, oracles: seq<Oracle>, ghost peerConf: S.Conf)
      requires peerConf.cipher.Valid() && SS.Agreed(peerConf, Talk(conf, peerConf))
      ensures Valid() && Sys() == HandshakeRun.Start() && fresh(io)
    {
      this.conf, this.peerConf, peer := conf, peerConf, S.Start();
      io := new Endpoint(C.Start(), oracles);
      new;
      HandshakeRun.StartInv(conf, peerConf);
    }

    // ssl_client_handshake: from state to state until one has to wait.
    method HandshakeLoop() returns (ghost turns: seq<Turn>)
      requires Valid() && io.hs.wait.Ok?
      modifies io
      ensures Valid() && Sys() == Run(conf, peerConf, old(Sys()), turns)
      ensures io.hs.wait.Ok? ==> io.hs.state.Done?
      ensures !io.hs.wait.Ok? ==> io.hs.wait.Paused? || P.ClientDistance(io.hs) < old(P.ClientDistance(io.hs))
    {
      hide HandshakeRun.Inv, SS.Agreed, C.Do, P.ClientDistance;
      turns := [];
      ghost var before := Sys();
      while !io.hs.state.Done?
        invariant Valid() && io.hs.wait.Ok? && Sys() == Run(conf, peerConf, before, turns)
        invariant P.ClientDistance(io.hs) <= P.ClientDistance(before.client)
        decreases P.ClientDistance(io.hs)
      {
        ghost var y := Sys();
        var oracle := io.NextOracle();
        io.hs := C.Do(conf, io.hs, oracle.retry);
        TurnTaken(conf, peerConf, Conversation(), before, y, turns, oracle);
        turns := turns + [ClientTurn(oracle)];
        if !io.hs.wait.Ok? { return; }
      }
    }

    // The switch of ssl_run_handshake: false when the call has to return.
    method ResolveWait() returns (goOn: bool, ghost turns: seq<Turn>)
      requires Valid() && !io.hs.wait.Ok? && !io.hs.wait.Error?
      modifies io
      ensures Valid() && Sys() == Run(conf, peerConf, old(Sys()), turns)
      ensures goOn ==> io.hs.wait.Ok? && !old(io.hs.wait.Paused?) && P.ClientDistance(io.hs) < old(P.ClientDistance(io.hs))
      ensures !goOn ==> io.HeldUp() || (old(io.hs.wait.Paused?) && io.hs.wait.Ok?)
    {
      hide HandshakeRun.Inv, SS.Agreed, ClientStep, P.ClientDistance, Resolve;
      ghost var y := Sys();
      turns := [];
      if P.Blocked(io.hs, io.incoming) {
        // The transport has nothing to read.
        return false, turns;
      }
      var oracle := io.NextOracle();
      WaitResolved(conf, peerConf, Conversation(), y, y, turns, oracle);
      turns := [ClientTurn(oracle)];
      goOn := io.ResolveWait(oracle);
      assert Sys() == ClientStep(conf, y, oracle);
    }

    // ssl_run_handshake: 1 when the handshake is complete. Otherwise the transport holds it
    // up, or the application has been asked for something, and the call is to be made again.
    method RunHandshake() returns (ret: int, ghost turns: seq<Turn>)
      requires Valid()
      modifies io
      ensures Valid() && Sys() == Run(conf, peerConf, old(Sys()), turns)
      ensures ret == 1 || ret == -1
      ensures ret == 1 ==> io.hs.wait.Ok? && io.hs.state.Done?
      ensures ret == -1 ==> io.HeldUp() || io.hs.wait.Ok?
    {
      hide HandshakeRun.Inv, SS.Agreed, P.ClientDistance, io.HeldUp;
      turns := [];
      ghost var before := Sys();
      while true
        invariant Valid() && Sys() == Run(conf, peerConf, before, turns)
        decreases !io.hs.wait.Paused?, P.ClientDistance(io.hs)
      {
        ghost var more;
        if !io.hs.wait.Ok? {
          NoFailure(conf, peerConf, Conversation(), Sys());
          var goOn;
          goOn, more := ResolveWait();
          RunAppend(conf, peerConf, before, turns, more);
          turns := turns + more;
          if !goOn { return -1, turns; }
        }
        more := HandshakeLoop();
        RunAppend(conf, peerConf, before, turns, more);
        turns := turns + more;
        if io.hs.wait.Ok? { return 1, turns; }
      }
    }
  }

  lemma NoFailure(c: C.Conf, s: S.Conf, o: Options, y: System)
    ensures HandshakeRun.Inv(c, s, o, y) ==> !y.client.wait.Error?
  {
    W.NeverFails(c, o, y.client);
    hide CS.Inv, SS.Inv, Flow;
  }

  lemma StepResolves(c: C.Conf, s: S.Conf, y: System, oracle: Oracle)
    ensures !y.client.wait.Ok? ==>
      ClientStep(c, y, oracle) == var (h, rest, out) := Resolve(y.client, y.toClient, oracle); System(h, y.server, rest, y.toServer + out)
  {
    hide Resolve;
  }

  // One step more of a run that resolves what the handshake waits for.
  lemma {:induction false} WaitResolved(c: C.Conf, s: S.Conf, o: Options, before: System, y: System, turns: seq<Turn>, oracle: Oracle)
    requires HandshakeRun.Inv(c, s, o, y) && SS.Agreed(s, o) && y == Run(c, s, before, turns)
    requires !y.client.wait.Ok?
    ensures var y' := ClientStep(c, y, oracle);
      && HandshakeRun.Inv(c, s, o, y') && y' == Run(c, s, before, turns + [ClientTurn(oracle)])
      && (!P.Blocked(y.client, y.toClient) && (y.client.wait.Flush? ==> oracle.takes >= |y.client.flight|) ==>
            P.ClientDistance(y'.client) < P.ClientDistance(y.client))
      && !y'.client.wait.Error?
      && y' == var (h, rest, out) := Resolve(y.client, y.toClient, oracle); System(h, y.server, rest, y.toServer + out)
  {
    hide CS.Inv, SS.Inv, Flow, InFlight, SS.Agreed, ClientStep, Resolve, P.ClientDistance, P.Blocked;
    StepKeeps(c, s, o, y, ClientTurn(oracle));
    RunMore(c, s, before, turns, ClientTurn(oracle));
    W.NeverFails(c, o, ClientStep(c, y, oracle).client);
    StepResolves(c, s, y, oracle);
    if !P.Blocked(y.client, y.toClient) && (y.client.wait.Flush? ==> oracle.takes >= |y.client.flight|) {
      P.ClientWaitMoves(c, s, o, y, oracle);
    }
  }

  // One turn more of a run, and how far it gets.
  lemma {:induction false} TurnTaken(c: C.Conf, s: S.Conf, o: Options, before: System, y: System, turns: seq<Turn>, oracle: Oracle)
    requires HandshakeRun.Inv(c, s, o, y) && SS.Agreed(s, o) && y == Run(c, s, before, turns)
    requires y.client.wait.Ok? && !y.client.state.Done?
    ensures var h := C.Do(c, y.client, oracle.retry);
      var y' := y.(client := h);
      && HandshakeRun.Inv(c, s, o, y') && y' == Run(c, s, before, turns + [ClientTurn(oracle)])
      && (P.ClientDistance(h) < P.ClientDistance(y.client) || h.wait.Paused?)
  {
    hide HandshakeRun.Inv, SS.Agreed, C.Do, P.ClientDistance;
    StepKeeps(c, s, o, y, ClientTurn(oracle));
    RunMore(c, s, before, turns, ClientTurn(oracle));
    P.ClientDoForward(c, s, o, y, oracle.retry);
  }
}
