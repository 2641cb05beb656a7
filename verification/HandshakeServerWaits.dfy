/** What the server waits for, and that it may go on when it gets it. */
module HandshakeServerWaits {
  import opened Bytes
  import opened Handshake
  import opened HandshakeScript
  import opened HandshakeFollow
  import opened HandshakeServer
  import opened HandshakeServerStates

  lemma {:induction false} ClientHelloExpected(s: Conf, o: Options, h: Server)
    requires Inv(s, o, h) && h.wait.ReadMessage? && h.state.ReadClientHello?
    ensures MessageNext(o, true, PlaceOf(o.resumed, h), h.readEpoch)
  {
    hide At, Log, NextSent, Hashes;
    OnePlace(o, 0);
    NextPlace(o, 0);
  }

  lemma {:induction false} ClientCertificateExpected(s: Conf, o: Options, h: Server)
    requires Inv(s, o, h) && h.wait.ReadMessage? && h.state.ReadClientCertificate?
    ensures MessageNext(o, true, PlaceOf(o.resumed, h), h.readEpoch)
  {
    hide At, Log, NextSent, Hashes;
    OnePlace(o, 7);
    NextPlace(o, 7);
  }

  lemma {:induction false} ClientKeyExchangeExpected(s: Conf, o: Options, h: Server)
    requires Inv(s, o, h) && h.wait.ReadMessage? && h.state.ReadClientKeyExchange?
    ensures MessageNext(o, true, PlaceOf(o.resumed, h), h.readEpoch)
  {
    hide At, Log, NextSent, Hashes;
    OnePlace(o, 8);
    NextPlace(o, 8);
  }

  lemma {:induction false} CertificateVerifyExpected(s: Conf, o: Options, h: Server)
    requires Inv(s, o, h) && h.wait.ReadMessage? && h.state.ReadClientCertificateVerify?
    ensures MessageNext(o, true, PlaceOf(o.resumed, h), h.readEpoch)
  {
    hide At, Log, NextSent, Hashes;
    OnePlace(o, 9);
    NextPlace(o, 9);
  }

  lemma {:induction false} NextProtoExpected(s: Conf, o: Options, h: Server)
    requires Inv(s, o, h) && h.wait.ReadMessage? && h.state.ReadNextProto?
    ensures MessageNext(o, true, PlaceOf(o.resumed, h), h.readEpoch)
  {
    hide At, Log, NextSent, Hashes;
    OnePlace(o, 6);
    NextPlace(o, 6);
    OnePlace(o, 11);
    NextPlace(o, 11);
  }

  lemma {:induction false} ChannelIdExpected(s: Conf, o: Options, h: Server)
    requires Inv(s, o, h) && h.wait.ReadMessage? && h.state.ReadChannelId?
    ensures MessageNext(o, true, PlaceOf(o.resumed, h), h.readEpoch)
  {
    hide At, Log, NextSent, Hashes;
    OnePlace(o, 7);
    NextPlace(o, 7);
    OnePlace(o, 12);
    NextPlace(o, 12);
  }

  lemma {:induction false} ClientFinishedExpected(s: Conf, o: Options, h: Server)
    requires Inv(s, o, h) && h.wait.ReadMessage? && h.state.ReadClientFinished?
    ensures MessageNext(o, true, PlaceOf(o.resumed, h), h.readEpoch)
  {
    hide At, Log, NextSent, Hashes;
    OnePlace(o, 8);
    NextPlace(o, 8);
    OnePlace(o, 13);
    NextPlace(o, 13);
  }

  lemma {:induction false} MessageExpected(s: Conf, o: Options, h: Server)
    requires Inv(s, o, h) && h.wait.ReadMessage?
    ensures MessageNext(o, true, PlaceOf(o.resumed, h), h.readEpoch)
  {
    hide MessageNext, Knows, Hashes, Epochs;
    if h.state.ReadClientHello? { ClientHelloExpected(s, o, h); }
    else if h.state.ReadClientCertificate? { ClientCertificateExpected(s, o, h); }
    else if h.state.ReadClientKeyExchange? { ClientKeyExchangeExpected(s, o, h); }
    else if h.state.ReadClientCertificateVerify? { CertificateVerifyExpected(s, o, h); }
    else if h.state.ReadNextProto? { NextProtoExpected(s, o, h); }
    else if h.state.ReadChannelId? { ChannelIdExpected(s, o, h); }
    else if h.state.ReadClientFinished? { ClientFinishedExpected(s, o, h); }
  }

  lemma NeverFails(s: Conf, o: Options, h: Server)
    ensures Inv(s, o, h) ==>
      !h.wait.Error? && (h.wait.ReadMessage? || h.wait.ReadChangeCipherSpec? ==> h.inbox.None?)
  {
    hide Knows, Hashes, Epochs, Options.Valid;
  }

  lemma {:induction false} PauseEnds(s: Conf, o: Options, h: Server)
    requires Inv(s, o, h) && h.wait.Paused?
    ensures Inv(s, o, h.Stop(Ok)) && PlaceOf(o.resumed, h.Stop(Ok)) == PlaceOf(o.resumed, h)
  {
    hide Negotiated, Agreed, Options.Valid, Log;
  }

  // What the server knows does not depend on the flight.
  lemma {:induction false} KnowsAnyway(s: Conf, o: Options, p: nat, h: Server, left: seq<Rec>)
    requires Knows(s, o, p, h)
    ensures Knows(s, o, p, h.(flight := left))
  {}

  lemma {:induction false} FlushGoesOn(s: Conf, o: Options, h: Server, left: seq<Rec>)
    requires Inv(s, o, h) && h.wait.Flush?
    ensures Inv(s, o, h.(flight := left)) && PlaceOf(o.resumed, h.(flight := left)) == PlaceOf(o.resumed, h)
  {
    hide Log, Negotiated, Agreed, Options.Valid, Knows;
    KnowsAnyway(s, o, PlaceOf(o.resumed, h), h, left);
  }

  lemma {:induction false} FlushEnds(s: Conf, o: Options, h: Server)
    requires Inv(s, o, h) && h.wait.Flush?
    ensures Inv(s, o, h.(flight := [], wait := Ok))
    ensures PlaceOf(o.resumed, h.(flight := [], wait := Ok)) == PlaceOf(o.resumed, h)
  {
    hide Log, Negotiated, Agreed, Options.Valid;
  }

  lemma {:induction false} MessageComes(s: Conf, o: Options, h: Server, m: Msg)
    requires Inv(s, o, h) && h.wait.ReadMessage?
    ensures var h' := h.(inbox := Some(m), wait := Ok);
      Inv(s, o, h') && PlaceOf(o.resumed, h') == PlaceOf(o.resumed, h)
  {
    hide Negotiated, Agreed, Options.Valid, Log;
  }

  lemma {:induction false} CipherComes(s: Conf, o: Options, h: Server)
    requires Inv(s, o, h) && h.wait.ReadChangeCipherSpec?
    ensures Inv(s, o, h.Stop(Ok)) && PlaceOf(o.resumed, h.Stop(Ok)) == PlaceOf(o.resumed, h) + 1
    ensures CipherNext(o, true, PlaceOf(o.resumed, h), h.readEpoch)
  {
    hide Negotiated, Agreed, Options.Valid, At, Log;
    OnePlace(o, 5);
    OnePlace(o, 10);
  }

  // At the end.
  lemma DoneFacts(s: Conf, o: Options, h: Server)
    ensures Inv(s, o, h) && h.state.Done? ==>
      && PlaceOf(o.resumed, h) == Places(o)
      && h.transcript.hash == Some(Log(o, Places(o)))
      && h.readEpoch == 1 && h.writeEpoch == 1 && h.resumed == o.resumed && h.cipher == o.cipher
  {
    hide Log, Options.Valid;
  }

  // Where CertificateVerify needs the raw transcript.
  lemma SignatureFacts(s: Conf, o: Options, h: Server)
    ensures Inv(s, o, h) && h.state.ReadClientCertificateVerify? && h.peerCert ==>
      h.transcript.buffer == Some(Log(o, 9))
  {
    hide Log, WaitFits, Epochs;
  }

  // What has been hashed.
  lemma HashFacts(s: Conf, o: Options, h: Server)
    ensures Inv(s, o, h) ==>
      h.transcript.hash == if PlaceOf(o.resumed, h) < 1 then None else Some(Log(o, PlaceOf(o.resumed, h)))
  {
    hide Log, WaitFits, Epochs, Knows;
  }

  // A machine that waits for its peer, or is done, has sent all it had to.
  lemma IdleFacts(s: Conf, o: Options, h: Server)
    ensures Inv(s, o, h) && (h.state.Done? || h.wait.ReadMessage? || h.wait.ReadChangeCipherSpec?) ==>
      && h.flight == []
      && PlaceOf(o.resumed, h) <= Places(o)
      && (h.state.Done? ==> PlaceOf(o.resumed, h) == Places(o))
  {
    hide Log, Hashes, Epochs, Knows;
  }
}
