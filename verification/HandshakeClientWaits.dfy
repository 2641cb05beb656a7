/** What the client waits for, and that it may go on when it gets it. */
module HandshakeClientWaits {
  import opened Bytes
  import opened Handshake
  import opened HandshakeScript
  import opened HandshakeFollow
  import opened HandshakeClient
  import opened HandshakeClientStates

  lemma {:induction false} ServerHelloExpected(c: Conf, o: Options, h: Client)
    requires Inv(c, o, h) && h.wait.ReadMessage? && h.state.ReadServerHello?
    ensures MessageNext(o, false, PlaceOf(o.resumed, h), h.readEpoch)
  {
    hide At, Log, NextSent, Hashes;
    OnePlace(o, 1);
    NextPlace(o, 1);
  }

  lemma {:induction false} ServerCertificateExpected(c: Conf, o: Options, h: Client)
    requires Inv(c, o, h) && h.wait.ReadMessage? && h.state.ReadServerCertificate?
    ensures MessageNext(o, false, PlaceOf(o.resumed, h), h.readEpoch)
  {
    hide At, Log, NextSent, Hashes;
    OnePlace(o, 2);
    NextPlace(o, 2);
  }

  lemma {:induction false} CertificateStatusExpected(c: Conf, o: Options, h: Client)
    requires Inv(c, o, h) && h.wait.ReadMessage? && h.state.ReadCertificateStatus?
    ensures MessageNext(o, false, PlaceOf(o.resumed, h), h.readEpoch)
  {
    hide At, Log, NextSent, Hashes;
    OnePlace(o, 3);
    NextPlace(o, 3);
  }

  lemma {:induction false} ServerKeyExchangeExpected(c: Conf, o: Options, h: Client)
    requires Inv(c, o, h) && h.wait.ReadMessage? && h.state.ReadServerKeyExchange?
    ensures MessageNext(o, false, PlaceOf(o.resumed, h), h.readEpoch)
  {
    hide At, Log, NextSent, Hashes;
    OnePlace(o, 4);
    NextPlace(o, 4);
    OnePlace(o, 5);
    NextPlace(o, 5);
    OnePlace(o, 6);
    NextPlace(o, 6);
  }

  lemma {:induction false} CertificateRequestExpected(c: Conf, o: Options, h: Client)
    requires Inv(c, o, h) && h.wait.ReadMessage? && h.state.ReadCertificateRequest?
    ensures MessageNext(o, false, PlaceOf(o.resumed, h), h.readEpoch)
  {
    hide At, Log, NextSent, Hashes;
    OnePlace(o, 5);
    NextPlace(o, 5);
    OnePlace(o, 6);
    NextPlace(o, 6);
  }

  lemma {:induction false} ServerHelloDoneExpected(c: Conf, o: Options, h: Client)
    requires Inv(c, o, h) && h.wait.ReadMessage? && h.state.ReadServerHelloDone?
    ensures MessageNext(o, false, PlaceOf(o.resumed, h), h.readEpoch)
  {
    hide At, Log, NextSent, Hashes;
    OnePlace(o, 6);
    NextPlace(o, 6);
  }

  lemma {:induction false} SessionTicketExpected(c: Conf, o: Options, h: Client)
    requires Inv(c, o, h) && h.wait.ReadMessage? && h.state.ReadSessionTicket?
    ensures MessageNext(o, false, PlaceOf(o.resumed, h), h.readEpoch)
  {
    hide At, Log, NextSent, Hashes;
    OnePlace(o, 2);
    NextPlace(o, 2);
    OnePlace(o, 14);
    NextPlace(o, 14);
  }

  lemma {:induction false} ServerFinishedExpected(c: Conf, o: Options, h: Client)
    requires Inv(c, o, h) && h.wait.ReadMessage? && h.state.ReadServerFinished?
    ensures MessageNext(o, false, PlaceOf(o.resumed, h), h.readEpoch)
  {
    hide At, Log, NextSent, Hashes;
    OnePlace(o, 4);
    NextPlace(o, 4);
    OnePlace(o, 16);
    NextPlace(o, 16);
  }

  lemma {:induction false} MessageExpected(c: Conf, o: Options, h: Client)
    requires Inv(c, o, h) && h.wait.ReadMessage?
    ensures MessageNext(o, false, PlaceOf(o.resumed, h), h.readEpoch)
  {
    hide MessageNext, Knows, Hashes, Epochs;
    if h.state.ReadServerHello? { ServerHelloExpected(c, o, h); }
    else if h.state.ReadServerCertificate? { ServerCertificateExpected(c, o, h); }
    else if h.state.ReadCertificateStatus? { CertificateStatusExpected(c, o, h); }
    else if h.state.ReadServerKeyExchange? { ServerKeyExchangeExpected(c, o, h); }
    else if h.state.ReadCertificateRequest? { CertificateRequestExpected(c, o, h); }
    else if h.state.ReadServerHelloDone? { ServerHelloDoneExpected(c, o, h); }
    else if h.state.ReadSessionTicket? { SessionTicketExpected(c, o, h); }
    else if h.state.ReadServerFinished? { ServerFinishedExpected(c, o, h); }
  }

  lemma NeverFails(c: Conf, o: Options, h: Client)
    ensures Inv(c, o, h) ==>
      !h.wait.Error? && (h.wait.ReadMessage? || h.wait.ReadChangeCipherSpec? ==> h.inbox.None?)
  {
    hide Knows, Hashes, Epochs, Options.Valid;
  }

  lemma {:induction false} PauseEnds(c: Conf, o: Options, h: Client)
    requires Inv(c, o, h) && h.wait.Paused?
    ensures Inv(c, o, h.Stop(Ok)) && PlaceOf(o.resumed, h.Stop(Ok)) == PlaceOf(o.resumed, h)
  {
    hide Log;
  }

  lemma {:induction false} FlushGoesOn(c: Conf, o: Options, h: Client, left: seq<Rec>)
    requires Inv(c, o, h) && h.wait.Flush?
    ensures Inv(c, o, h.(flight := left)) && PlaceOf(o.resumed, h.(flight := left)) == PlaceOf(o.resumed, h)
  {
    hide Log;
  }

  lemma {:induction false} FlushEnds(c: Conf, o: Options, h: Client)
    requires Inv(c, o, h) && h.wait.Flush?
    ensures Inv(c, o, h.(flight := [], wait := Ok))
    ensures PlaceOf(o.resumed, h.(flight := [], wait := Ok)) == PlaceOf(o.resumed, h)
  {
    hide Log;
  }

  lemma {:induction false} MessageComes(c: Conf, o: Options, h: Client, m: Msg)
    requires Inv(c, o, h) && h.wait.ReadMessage?
    ensures var h' := h.(inbox := Some(m), wait := Ok);
      Inv(c, o, h') && PlaceOf(o.resumed, h') == PlaceOf(o.resumed, h)
  {
    hide Log;
  }

  lemma {:induction false} CipherComes(c: Conf, o: Options, h: Client)
    requires Inv(c, o, h) && h.wait.ReadChangeCipherSpec?
    ensures Inv(c, o, h.Stop(Ok)) && PlaceOf(o.resumed, h.Stop(Ok)) == PlaceOf(o.resumed, h) + 1
    ensures CipherNext(o, false, PlaceOf(o.resumed, h), h.readEpoch)
  {
    hide At, Log;
    OnePlace(o, 3);
    OnePlace(o, 15);
  }

  // At the end.
  lemma DoneFacts(c: Conf, o: Options, h: Client)
    ensures Inv(c, o, h) && h.state.Done? ==>
      && PlaceOf(o.resumed, h) == Places(o)
      && h.transcript.hash == Some(Log(o, Places(o)))
      && h.readEpoch == 1 && h.writeEpoch == 1 && h.resumed == o.resumed && h.cipher == o.cipher
  {
    hide Log, Options.Valid;
  }

  // Where CertificateVerify needs the raw transcript.
  lemma SignatureFacts(c: Conf, o: Options, h: Client)
    ensures Inv(c, o, h) && h.state.SendClientCertificateVerify? && h.certRequest && c.hasCertificate ==>
      h.transcript.buffer == Some(Log(o, 9))
  {
    hide Log, WaitFits, Epochs;
  }

  // What has been hashed.
  lemma HashFacts(c: Conf, o: Options, h: Client)
    ensures Inv(c, o, h) ==>
      h.transcript.hash == if PlaceOf(o.resumed, h) < 2 then None else Some(Log(o, PlaceOf(o.resumed, h)))
  {
    hide Log, WaitFits, Epochs, Knows;
  }

  // A machine that waits for its peer, or is done, has sent all it had to.
  lemma IdleFacts(c: Conf, o: Options, h: Client)
    ensures Inv(c, o, h) && (h.state.Done? || h.wait.ReadMessage? || h.wait.ReadChangeCipherSpec?) ==>
      && h.flight == []
      && PlaceOf(o.resumed, h) <= Places(o)
      && (h.state.Done? ==> PlaceOf(o.resumed, h) == Places(o))
  {
    hide Log, Hashes, Epochs, Knows;
  }
}
