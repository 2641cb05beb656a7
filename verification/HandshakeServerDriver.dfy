/** The loops that drive a server handshake, ssl_run_handshake and ssl_server_handshake, as
    they update an SSL_HANDSHAKE in place. */
module HandshakeServerDriver {
  import opened Handshake
  import opened HandshakeScript
  import opened HandshakeFlow
  import opened HandshakeRun
  import opened HandshakeEndpoint
  import C = HandshakeClient
  import S = HandshakeServer
  import CS = HandshakeClientStates
  import SS = HandshakeServerStates
  import W = HandshakeServerWaits
  import P = HandshakeProgress

  // A server handshake with its transport. The client stands still meanwhile.
  class ServerConnection {
    const conf: S.Conf
    const io: Endpoint<S.State>
    ghost const peerConf: C.Conf
    ghost const peer: C.Client

    ghost function Sys(): System
      reads io
    {
      System(peer, io.hs, io.outgoing, io.incoming)
    }

    ghost function Conversation(): Options {
      Talk(peerConf, conf)
    }

    ghost predicate Valid()
      reads io
    {
      HandshakeRun.Inv(peerConf, conf, Conversation(), Sys()) && SS.Agreed(conf, Conversation())
    }

    constructor (conf: S.Conf, oracles: seq<Oracle>, ghost peerConf: C.Conf)
      requires conf.cipher.Valid() && SS.Agreed(conf, Talk(peerConf, conf))
      ensures Valid() && Sys() == HandshakeRun.Start() && fresh(io)
    {
      this.conf, this.peerConf, peer := conf, peerConf, C.Start();
      io := new Endpoint(S.Start(), oracles);
      new;
      HandshakeRun.StartInv(peerConf, conf);
    }

    // ssl_server_handshake: from state to state until one has to wait.
    method HandshakeLoop() returns (ghost turns: seq<Turn>)
      requires Valid() && io.hs.wait.Ok?
      modifies io
      ensures Valid() && Sys() == Run(peerConf, conf, old(Sys()), turns)
      ensures io.hs.wait.Ok? ==> io.hs.state.Done?
      ensures !io.hs.wait.Ok? ==> io.hs.wait.Paused? || P.ServerDistance(io.hs) < old(P.ServerDistance(io.hs))
    {
      hide HandshakeRun.Inv, SS.Agreed, S.Do, P.ServerDistance;
      turns := [];
      ghost var before := Sys();
      while !io.hs.state.Done?
        invariant Valid() && io.hs.wait.Ok? && Sys() == Run(peerConf, conf, before, turns)
        invariant P.ServerDistance(io.hs) <= P.ServerDistance(before.server)
        decreases P.ServerDistance(io.hs)
      {
        ghost var y := Sys();
        var oracle := io.NextOracle();
        io.hs := S.Do(conf, io.hs, oracle.retry);
        TurnTaken(peerConf, conf, Conversation(), before, y, turns, oracle);
        turns := turns + [ServerTurn(oracle)];
        if !io.hs.wait.Ok? { return; }
      }
    }

    // The switch of ssl_run_handshake: false when the call has to return.
    method ResolveWait() returns (goOn: bool, ghost turns: seq<Turn>)
      requires Valid() && !io.hs.wait.Ok? && !io.hs.wait.Error?
      modifies io
      ensures Valid() && Sys() == Run(peerConf, conf, old(Sys()), turns)
      ensures goOn ==> io.hs.wait.Ok? && !old(io.hs.wait.Paused?) && P.ServerDistance(io.hs) < old(P.ServerDistance(io.hs))
      ensures !goOn ==> io.HeldUp() || (old(io.hs.wait.Paused?) && io.hs.wait.Ok?)
    {
      hide HandshakeRun.Inv, SS.Agreed, ServerStep, P.ServerDistance, Resolve;
      ghost var y := Sys();
      turns := [];
      if P.Blocked(io.hs, io.incoming) {
        // The transport has nothing to read.
        return false, turns;
      }
      var oracle := io.NextOracle();
      WaitResolved(peerConf, conf, Conversation(), y, y, turns, oracle);
      turns := [ServerTurn(oracle)];
      goOn := io.ResolveWait(oracle);
      assert Sys() == ServerStep(conf, y, oracle);
    }

    // ssl_run_handshake: 1 when the handshake is complete. Otherwise the transport holds it
    // up, or the application has been asked for something, and the call is to be made again.
    method RunHandshake() returns (ret: int, ghost turns: seq<Turn>)
      requires Valid()
      modifies io
      ensures Valid() && Sys() == Run(peerConf, conf, old(Sys()), turns)
      ensures ret == 1 || ret == -1
      ensures ret == 1 ==> io.hs.wait.Ok? && io.hs.state.Done?
      ensures ret == -1 ==> io.HeldUp() || io.hs.wait.Ok?
    {
      hide HandshakeRun.Inv, SS.Agreed, P.ServerDistance, io.HeldUp;
      turns := [];
      ghost var before := Sys();
      while true
        invariant Valid() && Sys() == Run(peerConf, conf, before, turns)
        decreases !io.hs.wait.Paused?, P.ServerDistance(io.hs)
      {
        ghost var more;
        if !io.hs.wait.Ok? {
          NoFailure(peerConf, conf, Conversation(), Sys());
          var goOn;
          goOn, more := ResolveWait();
          RunAppend(peerConf, conf, before, turns, more);
          turns := turns + more;
          if !goOn { return -1, turns; }
        }
        more := HandshakeLoop();
        RunAppend(peerConf, conf, before, turns, more);
        turns := turns + more;
        if io.hs.wait.Ok? { return 1, turns; }
      }
    }
  }

  lemma NoFailure(c: C.Conf, s: S.Conf, o: Options, y: System)
    ensures HandshakeRun.Inv(c, s, o, y) ==> !y.server.wait.Error?
  {
    W.NeverFails(s, o, y.server);
    hide CS.Inv, SS.Inv, Flow;
  }

  lemma StepResolves(c: C.Conf, s: S.Conf, y: System, oracle: Oracle)
    ensures !y.server.wait.Ok? ==>
      ServerStep(s, y, oracle) == var (h, rest, out) := Resolve(y.server, y.toServer, oracle); System(y.client, h, y.toClient + out, rest)
  {
    hide Resolve;
  }

  // One step more of a run that resolves what the handshake waits for.
  lemma {:induction false} WaitResolved(c: C.Conf, s: S.Conf, o: Options, before: System, y: System, turns: seq<Turn>, oracle: Oracle)
    requires HandshakeRun.Inv(c, s, o, y) && SS.Agreed(s, o) && y == Run(c, s, before, turns)
    requires !y.server.wait.Ok?
    ensures var y' := ServerStep(s, y, oracle);
      && HandshakeRun.Inv(c, s, o, y') && y' == Run(c, s, before, turns + [ServerTurn(oracle)])
      && (!P.Blocked(y.server, y.toServer) && (y.server.wait.Flush? ==> oracle.takes >= |y.server.flight|) ==>
            P.ServerDistance(y'.server) < P.ServerDistance(y.server))
      && !y'.server.wait.Error?
      && y' == var (h, rest, out) := Resolve(y.server, y.toServer, oracle); System(y.client, h, y.toClient + out, rest)
  {
    hide CS.Inv, SS.Inv, Flow, InFlight, SS.Agreed, ServerStep, Resolve, P.ServerDistance, P.Blocked;
    StepKeeps(c, s, o, y, ServerTurn(oracle));
    RunMore(c, s, before, turns, ServerTurn(oracle));
    W.NeverFails(s, o, ServerStep(s, y, oracle).server);
    StepResolves(c, s, y, oracle);
    if !P.Blocked(y.server, y.toServer) && (y.server.wait.Flush? ==> oracle.takes >= |y.server.flight|) {
      P.ServerWaitMoves(c, s, o, y, oracle);
    }
  }

  // One turn more of a run, and how far it gets.
  lemma {:induction false} TurnTaken(c: C.Conf, s: S.Conf, o: Options, before: System, y: System, turns: seq<Turn>, oracle: Oracle)
    requires HandshakeRun.Inv(c, s, o, y) && SS.Agreed(s, o) && y == Run(c, s, before, turns)
    requires y.server.wait.Ok? && !y.server.state.Done?
    ensures var h := S.Do(s, y.server, oracle.retry);
      var y' := y.(server := h);
      && HandshakeRun.Inv(c, s, o, y') && y' == Run(c, s, before, turns + [ServerTurn(oracle)])
      && (P.ServerDistance(h) < P.ServerDistance(y.server) || h.wait.Paused?)
  {
    hide HandshakeRun.Inv, SS.Agreed, S.Do, P.ServerDistance;
    StepKeeps(c, s, o, y, ServerTurn(oracle));
    RunMore(c, s, before, turns, ServerTurn(oracle));
    P.ServerDoForward(c, s, o, y, oracle.retry);
  }
}
