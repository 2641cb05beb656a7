/** How handshakes end: with equal transcripts, and with one Finished and one change of
    cipher in each direction. */
module HandshakeOutcome {
  import opened Bytes
  import opened Handshake
  import opened HandshakeScript
  import opened HandshakeFlow
  import opened HandshakeRun
  import C = HandshakeClient
  import S = HandshakeServer
  import CS = HandshakeClientStates
  import SS = HandshakeServerStates
  import CW = HandshakeClientWaits
  import SW = HandshakeServerWaits

  ghost predicate BothDone(y: System) {
    y.client.state.Done? && y.server.state.Done?
  }

  lemma FlowLevel(o: Options, x: bool, p: nat, toX: seq<Rec>, toY: seq<Rec>)
    requires Flow(o, x, p, p, toX, toY)
    ensures toX == [] && toY == []
  {
    hide At;
  }

  // When both are done they have hashed the same messages, both read and write under the
  // new cipher, and nothing is left over.
  lemma {:induction false} DoneTogether(c: C.Conf, s: S.Conf, turns: seq<Turn>)
    requires s.cipher.Valid() && BothDone(Run(c, s, Start(), turns))
    ensures var y, o := Run(c, s, Start(), turns), Talk(c, s);
      && y.client.transcript.hash == y.server.transcript.hash == Some(Log(o, Places(o)))
      && y.client.readEpoch == y.client.writeEpoch == y.server.readEpoch == y.server.writeEpoch == 1
      && InFlight(y.client, y.toClient, y.server) == [] && InFlight(y.server, y.toServer, y.client) == []
      && y.client.resumed == y.server.resumed == o.resumed && y.client.cipher == y.server.cipher
  {
    var y, o := Run(c, s, Start(), turns), Talk(c, s);
    hide Run, Talk, CS.Inv, SS.Inv, SS.Agreed, InFlight, Flow, Log;
    StartInv(c, s);
    RunKeeps(c, s, o, Start(), turns);
    CW.DoneFacts(c, o, y.client);
    SW.DoneFacts(s, o, y.server);
    FlowLevel(o, false, Places(o), InFlight(y.client, y.toClient, y.server), InFlight(y.server, y.toServer, y.client));
  }

  // Where each side says Finished and changes its cipher.
  function FinishedPlace(o: Options, byServer: bool): nat {
    if o.resumed then (if byServer then 4 else 8) else if byServer then 16 else 13
  }

  function ChangePlace(o: Options, byServer: bool): nat {
    if o.resumed then (if byServer then 3 else 5) else if byServer then 15 else 10
  }

  predicate SaysFinished(p: Place, byServer: bool) {
    p.Sent? && p.byServer == byServer && p.rec.item.Message? && p.rec.item.msg.Finished?
  }

  predicate ChangesCipher(p: Place, byServer: bool) {
    p.Sent? && p.byServer == byServer && p.rec.item.ChangeCipherSpec?
  }

  predicate Ends(p: Place, i: nat, byServer: bool, finished: nat, change: nat, log: seq<Msg>) {
    && (SaysFinished(p, byServer) <==> i == finished)
    && (i == finished ==> p == Sent(byServer, Rec(1, Message(Finished(byServer, log)))))
    && (ChangesCipher(p, byServer) <==> i == change)
  }

  lemma FullEnds(o: Options, i: nat, log: seq<Msg>)
    ensures var p := FullPlace(o, i, log); Ends(p, i, false, 13, 10, log)
    ensures var p := FullPlace(o, i, log); Ends(p, i, true, 16, 15, log)
  {}

  lemma ResumedEnds(o: Options, i: nat, log: seq<Msg>)
    ensures Ends(ResumedPlace(o, i, log), i, false, 8, 5, log)
    ensures Ends(ResumedPlace(o, i, log), i, true, 4, 3, log)
  {}

  lemma EndsOfPlace(o: Options, i: nat, byServer: bool)
    requires i < Places(o)
    ensures Ends(At(o, i), i, byServer, FinishedPlace(o, byServer), ChangePlace(o, byServer), Log(o, i))
  {
    hide Log, FullPlace, ResumedPlace;
    FullEnds(o, i, Log(o, i));
    ResumedEnds(o, i, Log(o, i));
  }

  // In the conversation each side says Finished exactly once, over everything before it and
  // under the new cipher, and changes its cipher exactly once, before that.
  lemma OneFinishedEach(o: Options, byServer: bool)
    ensures ChangePlace(o, byServer) < FinishedPlace(o, byServer) < Places(o)
    ensures var n := FinishedPlace(o, byServer);
      At(o, n) == Sent(byServer, Rec(1, Message(Finished(byServer, Log(o, n)))))
    ensures forall i | 0 <= i < Places(o) :: SaysFinished(At(o, i), byServer) <==> i == FinishedPlace(o, byServer)
    ensures forall i | 0 <= i < Places(o) :: ChangesCipher(At(o, i), byServer) <==> i == ChangePlace(o, byServer)
  {
    hide At, Log, SaysFinished, ChangesCipher;
    forall i | 0 <= i < Places(o)
      ensures SaysFinished(At(o, i), byServer) <==> i == FinishedPlace(o, byServer)
      ensures ChangesCipher(At(o, i), byServer) <==> i == ChangePlace(o, byServer)
    {
      EndsOfPlace(o, i, byServer);
    }
    EndsOfPlace(o, FinishedPlace(o, byServer), byServer);
  }

  // Whenever the client is about to sign its CertificateVerify, or the server to check it,
  // the raw transcript is still there, and it is the conversation so far.
  lemma {:induction false} SignedTranscriptIsThere(c: C.Conf, s: S.Conf, turns: seq<Turn>)
    requires s.cipher.Valid() && SS.Agreed(s, Talk(c, s))
    ensures var y, o := Run(c, s, Start(), turns), Talk(c, s);
      && (y.client.state.SendClientCertificateVerify? && y.client.certRequest && c.hasCertificate ==>
            y.client.transcript.buffer == Some(Log(o, 9)))
      && (y.server.state.ReadClientCertificateVerify? && y.server.peerCert ==>
            y.server.transcript.buffer == Some(Log(o, 9)))
  {
    var y, o := Run(c, s, Start(), turns), Talk(c, s);
    hide Run, Talk, CS.Inv, SS.Inv, SS.Agreed, InFlight, Flow, Log;
    StartInv(c, s);
    RunKeeps(c, s, o, Start(), turns);
    CW.SignatureFacts(c, o, y.client);
    SW.SignatureFacts(s, o, y.server);
  }

  function Hashed(t: Transcript): seq<Msg> {
    if t.hash.Some? then t.hash.value else []
  }

  // Pauses, partial writes and the order of turns do not show: under any two schedules a
  // machine that has got to the same place has hashed the same, and otherwise one of its two
  // transcripts continues the other.
  lemma {:induction false} SchedulesAgree(c: C.Conf, s: S.Conf, turns1: seq<Turn>, turns2: seq<Turn>)
    requires s.cipher.Valid() && SS.Agreed(s, Talk(c, s))
    ensures var h1, h2 := Run(c, s, Start(), turns1).client, Run(c, s, Start(), turns2).client;
      CS.PlaceOf(Talk(c, s).resumed, h1) <= CS.PlaceOf(Talk(c, s).resumed, h2) ==>
        Hashed(h1.transcript) <= Hashed(h2.transcript)
    ensures var h1, h2 := Run(c, s, Start(), turns1).server, Run(c, s, Start(), turns2).server;
      SS.PlaceOf(Talk(c, s).resumed, h1) <= SS.PlaceOf(Talk(c, s).resumed, h2) ==>
        Hashed(h1.transcript) <= Hashed(h2.transcript)
  {
    var o, y1, y2 := Talk(c, s), Run(c, s, Start(), turns1), Run(c, s, Start(), turns2);
    hide Run, Talk, CS.Inv, SS.Inv, CS.PlaceOf, SS.PlaceOf, SS.Agreed, InFlight, Flow, Log;
    StartInv(c, s);
    RunKeeps(c, s, o, Start(), turns1);
    RunKeeps(c, s, o, Start(), turns2);
    CW.HashFacts(c, o, y1.client);
    CW.HashFacts(c, o, y2.client);
    SW.HashFacts(s, o, y1.server);
    SW.HashFacts(s, o, y2.server);
    LogGrows(o, CS.PlaceOf(o.resumed, y1.client), CS.PlaceOf(o.resumed, y2.client));
    LogGrows(o, SS.PlaceOf(o.resumed, y1.server), SS.PlaceOf(o.resumed, y2.server));
  }
}
