/** Handshakes end: as long as one of the two is not done there is a step that gets it
    further, so every handshake can be brought to its end, whatever happened before, unless
    the server insists on a certificate the client does not have. */
module HandshakeProgress {
  import opened Handshake
  import opened HandshakeScript
  import opened HandshakeFollow
  import opened HandshakeFlow
  import opened HandshakeRun
  import opened HandshakeOutcome
  import C = HandshakeClient
  import S = HandshakeServer
  import CS = HandshakeClientStates
  import SS = HandshakeServerStates
  import CF = HandshakeClientFollows
  import SF = HandshakeServerFollows
  import CW = HandshakeClientWaits
  import SW = HandshakeServerWaits

  // How far a machine is within a state.
  function WaitRank<T>(h: Hs<T>): (r: nat)
    ensures r <= 4
  {
    if h.wait.Ok? then (if h.inbox.Some? then 4 else 2)
    else if h.wait.ReadMessage? then 3
    else if h.wait.Paused? then 1
    else 0
  }

  function ClientDistance(h: C.Client): nat {
    104 - 5 * CS.Rank(h.resumed, h.state) - WaitRank(h)
  }

  function ServerDistance(h: S.Server): nat {
    104 - 5 * SS.Rank(h.resumed, h.state) - WaitRank(h)
  }

  // Nothing holds the machine up but its peer.
  function Willing<T>(h: Hs<T>): Oracle {
    Oracle(false, |h.flight|)
  }

  predicate Blocked<T>(h: Hs<T>, incoming: seq<Rec>) {
    (h.wait.ReadMessage? || h.wait.ReadChangeCipherSpec?) && incoming == []
  }

  // A turn gets the machine further, or it has been told to wait.
  lemma {:induction false} ClientDoForward(c: C.Conf, s: S.Conf, o: Options, y: System, retry: bool)
    requires Inv(c, s, o, y) && y.client.wait.Ok? && !y.client.state.Done?
    ensures ClientDistance(C.Do(c, y.client, retry)) < ClientDistance(y.client) || C.Do(c, y.client, retry).wait.Paused?
  {
    hide CS.Inv, SS.Inv, Flow, InFlight, Follows, C.Do, InboxFits, CS.Rank;
    var p, q := CS.PlaceOf(o.resumed, y.client), SS.PlaceOf(o.resumed, y.server);
    InboxIsNext(o, false, p, q, y.client, y.server, y.toClient, y.toServer);
    CF.ClientFollows(c, o, y.client, retry);
  }

  lemma {:induction false} ServerDoForward(c: C.Conf, s: S.Conf, o: Options, y: System, retry: bool)
    requires Inv(c, s, o, y) && y.server.wait.Ok? && !y.server.state.Done? && SS.Agreed(s, o)
    ensures ServerDistance(S.Do(s, y.server, retry)) < ServerDistance(y.server) || S.Do(s, y.server, retry).wait.Paused?
  {
    hide CS.Inv, SS.Inv, SS.Agreed, Flow, InFlight, Follows, S.Do, InboxFits, SS.Rank;
    var p, q := CS.PlaceOf(o.resumed, y.client), SS.PlaceOf(o.resumed, y.server);
    FlowSwap(o, false, p, q, InFlight(y.client, y.toClient, y.server), InFlight(y.server, y.toServer, y.client));
    InboxIsNext(o, true, q, p, y.server, y.client, y.toServer, y.toClient);
    SF.ServerFollows(s, o, y.server, retry);
  }

  lemma {:induction false} ClientDoMoves(c: C.Conf, s: S.Conf, o: Options, y: System)
    requires Inv(c, s, o, y) && y.client.wait.Ok? && !y.client.state.Done?
    ensures ClientDistance(C.Do(c, y.client, false)) < ClientDistance(y.client)
  {
    hide CS.Inv, SS.Inv, Flow, InFlight, Follows, C.Do, InboxFits, CS.Rank;
    var p, q := CS.PlaceOf(o.resumed, y.client), SS.PlaceOf(o.resumed, y.server);
    InboxIsNext(o, false, p, q, y.client, y.server, y.toClient, y.toServer);
    CF.ClientFollows(c, o, y.client, false);
  }

  lemma {:induction false} ServerDoMoves(c: C.Conf, s: S.Conf, o: Options, y: System)
    requires Inv(c, s, o, y) && y.server.wait.Ok? && !y.server.state.Done? && SS.Agreed(s, o)
    ensures ServerDistance(S.Do(s, y.server, false)) < ServerDistance(y.server)
  {
    hide CS.Inv, SS.Inv, SS.Agreed, Flow, InFlight, Follows, S.Do, InboxFits, SS.Rank;
    var p, q := CS.PlaceOf(o.resumed, y.client), SS.PlaceOf(o.resumed, y.server);
    FlowSwap(o, false, p, q, InFlight(y.client, y.toClient, y.server), InFlight(y.server, y.toServer, y.client));
    InboxIsNext(o, true, q, p, y.server, y.client, y.toServer, y.toClient);
    SF.ServerFollows(s, o, y.server, false);
  }

  // Getting what it waits for gets a machine further.
  predicate Further<T(==)>(h: Hs<T>, h': Hs<T>) {
    h'.wait.Error? || (h'.state == h.state && h'.resumed == h.resumed && WaitRank(h') > WaitRank(h))
  }

  lemma FailureIsFurther<T>(h: Hs<T>, h': Hs<T>)
    ensures h'.wait.Error? ==> Further(h, h')
  {
    hide WaitRank;
  }

  lemma PauseMoves<T>(h: Hs<T>, incoming: seq<Rec>, oracle: Oracle)
    requires h.wait.Paused?
    ensures Further(h, Resolve(h, incoming, oracle).0)
  {}

  lemma FlushMoves<T>(h: Hs<T>, incoming: seq<Rec>, oracle: Oracle)
    requires h.wait.Flush? && oracle.takes >= |h.flight|
    ensures Further(h, Resolve(h, incoming, oracle).0)
  {}

  lemma MessageMoves<T>(h: Hs<T>, incoming: seq<Rec>, oracle: Oracle)
    requires h.wait.ReadMessage? && incoming != []
    requires incoming[0].item.Message? && incoming[0].epoch == h.readEpoch && h.inbox.None?
    ensures Further(h, Resolve(h, incoming, oracle).0)
  {}

  lemma CipherMoves<T>(h: Hs<T>, incoming: seq<Rec>, oracle: Oracle)
    requires h.wait.ReadChangeCipherSpec? && incoming != []
    requires incoming[0].item.ChangeCipherSpec? && incoming[0].epoch == h.readEpoch && h.inbox.None?
    ensures Further(h, Resolve(h, incoming, oracle).0)
  {}

  lemma UnexpectedFails<T>(h: Hs<T>, incoming: seq<Rec>, oracle: Oracle)
    requires (h.wait.ReadMessage? || h.wait.ReadChangeCipherSpec?) && incoming != []
    requires !(incoming[0].item.Message? == h.wait.ReadMessage? && incoming[0].epoch == h.readEpoch && h.inbox.None?)
    ensures Resolve(h, incoming, oracle).0.wait.Error?
  {}

  lemma ResolveMoves<T>(h: Hs<T>, incoming: seq<Rec>, oracle: Oracle)
    requires !h.wait.Ok? && !h.wait.Error? && !Blocked(h, incoming)
    requires h.wait.Flush? ==> oracle.takes >= |h.flight|
    ensures Further(h, Resolve(h, incoming, oracle).0)
  {
    hide Resolve, Further;
    if h.wait.Paused? { PauseMoves(h, incoming, oracle); }
    else if h.wait.Flush? { FlushMoves(h, incoming, oracle); }
    else if !(incoming[0].item.Message? == h.wait.ReadMessage? && incoming[0].epoch == h.readEpoch && h.inbox.None?) {
      UnexpectedFails(h, incoming, oracle);
      FailureIsFurther(h, Resolve(h, incoming, oracle).0);
    }
    else if h.wait.ReadMessage? { MessageMoves(h, incoming, oracle); }
    else { CipherMoves(h, incoming, oracle); }
  }

  lemma {:induction false} ClientWaitMoves(c: C.Conf, s: S.Conf, o: Options, y: System, oracle: Oracle)
    requires Inv(c, s, o, y) && !y.client.wait.Ok? && !Blocked(y.client, y.toClient)
    requires y.client.wait.Flush? ==> oracle.takes >= |y.client.flight|
    ensures var y' := ClientStep(c, y, oracle);
      ClientDistance(y'.client) < ClientDistance(y.client) && y'.server == y.server
  {
    CW.NeverFails(c, o, y.client);
    hide CS.Inv, SS.Inv, Flow, InFlight, C.Do, Resolve, CS.Rank, WaitRank, Blocked;
    ClientTurnKeeps(c, s, o, y, oracle);
    CW.NeverFails(c, o, ClientStep(c, y, oracle).client);
    ResolveMoves(y.client, y.toClient, oracle);
  }

  lemma {:induction false} ClientMoves(c: C.Conf, s: S.Conf, o: Options, y: System)
    requires Inv(c, s, o, y) && !y.client.state.Done? && !Blocked(y.client, y.toClient)
    ensures var y' := ClientStep(c, y, Willing(y.client));
      ClientDistance(y'.client) < ClientDistance(y.client) && y'.server == y.server
  {
    hide CS.Inv, SS.Inv, Flow, InFlight, C.Do, Resolve, CS.Rank, WaitRank, Blocked;
    if y.client.wait.Ok? { ClientDoMoves(c, s, o, y); } else { ClientWaitMoves(c, s, o, y, Willing(y.client)); }
  }

  lemma {:induction false} ServerWaitMoves(c: C.Conf, s: S.Conf, o: Options, y: System, oracle: Oracle)
    requires Inv(c, s, o, y) && !y.server.wait.Ok? && !Blocked(y.server, y.toServer) && SS.Agreed(s, o)
    requires y.server.wait.Flush? ==> oracle.takes >= |y.server.flight|
    ensures var y' := ServerStep(s, y, oracle);
      ServerDistance(y'.server) < ServerDistance(y.server) && y'.client == y.client
  {
    SW.NeverFails(s, o, y.server);
    hide CS.Inv, SS.Inv, SS.Agreed, Flow, InFlight, S.Do, Resolve, SS.Rank, WaitRank, Blocked;
    ServerTurnKeeps(c, s, o, y, oracle);
    SW.NeverFails(s, o, ServerStep(s, y, oracle).server);
    ResolveMoves(y.server, y.toServer, oracle);
  }

  lemma {:induction false} ServerMoves(c: C.Conf, s: S.Conf, o: Options, y: System)
    requires Inv(c, s, o, y) && !y.server.state.Done? && !Blocked(y.server, y.toServer) && SS.Agreed(s, o)
    ensures var y' := ServerStep(s, y, Willing(y.server));
      ServerDistance(y'.server) < ServerDistance(y.server) && y'.client == y.client
  {
    hide CS.Inv, SS.Inv, SS.Agreed, Flow, InFlight, S.Do, Resolve, SS.Rank, WaitRank, Blocked;
    if y.server.wait.Ok? { ServerDoMoves(c, s, o, y); } else { ServerWaitMoves(c, s, o, y, Willing(y.server)); }
  }

  // A machine that can do nothing has nothing in hand and nothing to send; what comes next
  // in the conversation, if anything, is its peer's.
  ghost predicate Idle<T>(o: Options, x: bool, p: nat, h: Hs<T>) {
    && p <= Places(o) && h.inbox.None? && h.flight == []
    && (if p == Places(o) then NextSent(o, p) == p
        else var j := NextSent(o, p); j < Places(o) && At(o, j).Sent? && At(o, j).byServer == !x)
  }

  lemma {:induction false} ClientIdle(c: C.Conf, s: S.Conf, o: Options, y: System)
    requires Inv(c, s, o, y) && (y.client.state.Done? || Blocked(y.client, y.toClient))
    ensures var p := CS.PlaceOf(o.resumed, y.client);
      Idle(o, false, p, y.client) && (!y.client.state.Done? ==> p < Places(o))
  {
    hide CS.Inv, SS.Inv, Flow, InFlight, At;
    var h, p, q := y.client, CS.PlaceOf(o.resumed, y.client), SS.PlaceOf(o.resumed, y.server);
    CW.IdleFacts(c, o, h);
    CW.NeverFails(c, o, h);
    InboxIsNext(o, false, p, q, h, y.server, y.toClient, y.toServer);
    NextPlace(o, p);
    if h.wait.ReadMessage? { CW.MessageExpected(c, o, h); }
    else if h.wait.ReadChangeCipherSpec? { CW.CipherComes(c, o, h); }
  }

  lemma {:induction false} ServerIdle(c: C.Conf, s: S.Conf, o: Options, y: System)
    requires Inv(c, s, o, y) && (y.server.state.Done? || Blocked(y.server, y.toServer))
    ensures var q := SS.PlaceOf(o.resumed, y.server);
      Idle(o, true, q, y.server) && (!y.server.state.Done? ==> q < Places(o))
  {
    hide CS.Inv, SS.Inv, Flow, InFlight, At;
    var h, p, q := y.server, CS.PlaceOf(o.resumed, y.client), SS.PlaceOf(o.resumed, y.server);
    SW.IdleFacts(s, o, h);
    SW.NeverFails(s, o, h);
    FlowSwap(o, false, p, q, InFlight(y.client, y.toClient, h), InFlight(h, y.toServer, y.client));
    InboxIsNext(o, true, q, p, h, y.client, y.toServer, y.toClient);
    NextPlace(o, q);
    if h.wait.ReadMessage? { SW.MessageExpected(s, o, h); }
    else if h.wait.ReadChangeCipherSpec? { SW.CipherComes(s, o, h); }
  }

  // There is always a step to take.
  lemma {:induction false} SomebodyMoves(c: C.Conf, s: S.Conf, o: Options, y: System)
    requires Inv(c, s, o, y) && !BothDone(y)
    ensures (!y.client.state.Done? && !Blocked(y.client, y.toClient))
         || (!y.server.state.Done? && !Blocked(y.server, y.toServer))
  {
    hide CS.Inv, SS.Inv, Flow, Idle;
    if (y.client.state.Done? || Blocked(y.client, y.toClient)) && (y.server.state.Done? || Blocked(y.server, y.toServer)) {
      ClientIdle(c, s, o, y);
      ServerIdle(c, s, o, y);
      NothingUnderway(o, CS.PlaceOf(o.resumed, y.client), SS.PlaceOf(o.resumed, y.server), y);
    }
  }

  // What the transports hold for two machines that can do nothing.
  lemma NothingUnderway(o: Options, p: nat, q: nat, y: System)
    requires Idle(o, false, p, y.client) && Idle(o, true, q, y.server)
    requires Flow(o, false, p, q, InFlight(y.client, y.toClient, y.server), InFlight(y.server, y.toServer, y.client))
    requires p < Places(o) ==> y.toClient == []
    requires q < Places(o) ==> y.toServer == []
    ensures p == Places(o) && q == Places(o)
  {
    hide At, Flow;
    var toX, toY := InFlight(y.client, y.toClient, y.server), InFlight(y.server, y.toServer, y.client);
    assert toX == y.toClient && toY == y.toServer;
    if toX != [] { FlowHead(o, false, p, q, toX, toY); }
    if toY != [] {
      FlowSwap(o, false, p, q, toX, toY);
      FlowHead(o, true, q, p, toY, toX);
    }
    FlowEmpty(o, false, p, q);
  }

  // From every reachable state a handshake can be brought to its end.
  lemma {:induction false} Completes(c: C.Conf, s: S.Conf, o: Options, y: System) returns (turns: seq<Turn>)
    requires Inv(c, s, o, y) && SS.Agreed(s, o)
    ensures BothDone(Run(c, s, y, turns))
    decreases ClientDistance(y.client) + ServerDistance(y.server)
  {
    hide Inv, SS.Agreed, ClientStep, ServerStep, Blocked, ClientDistance, ServerDistance;
    if BothDone(y) { return []; }
    SomebodyMoves(c, s, o, y);
    var t;
    if !y.client.state.Done? && !Blocked(y.client, y.toClient) {
      ClientMoves(c, s, o, y);
      t := ClientTurn(Willing(y.client));
    } else {
      ServerMoves(c, s, o, y);
      t := ServerTurn(Willing(y.server));
    }
    var y' := Step(c, s, y, t);
    StepKeeps(c, s, o, y, t);
    assert Inv(c, s, o, y');
    var rest := Completes(c, s, o, y');
    turns := [t] + rest;
    assert turns[0] == t && turns[1..] == rest;
  }

  // A handshake can be completed exactly when the server's demand for a certificate, if it
  // makes one, can be met.
  lemma {:induction false} CompletesIff(c: C.Conf, s: S.Conf)
    requires s.cipher.Valid()
    ensures (exists turns :: BothDone(Run(c, s, Start(), turns))) <==> SS.Agreed(s, Talk(c, s))
  {
    hide Inv, SS.Agreed, Refused, Run, Talk;
    StartInv(c, s);
    if SS.Agreed(s, Talk(c, s)) {
      var turns := Completes(c, s, Talk(c, s), Start());
    } else {
      forall turns ensures !BothDone(Run(c, s, Start(), turns)) {
        RunKeeps(c, s, Talk(c, s), Start(), turns);
        NeverDone(c, s, Talk(c, s), Run(c, s, Start(), turns));
      }
    }
  }

  lemma NeverDone(c: C.Conf, s: S.Conf, o: Options, y: System)
    requires !SS.Agreed(s, o) && (Inv(c, s, o, y) || Refused(s, o, y))
    ensures !y.server.state.Done?
  {
    hide SS.Agreed, CS.Inv, Flow, SS.Knows, SS.Epochs, Hashes;
  }
}
