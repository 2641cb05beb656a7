/** The server follows the conversation: what each of its states says or takes in. A state
    with several outcomes has a lemma for each. */
module HandshakeServerFollows {
  import opened Bytes
  import opened Handshake
  import opened HandshakeScript
  import opened HandshakeFollow
  import opened HandshakeServer
  import opened HandshakeServerStates

  lemma StartInv(s: Conf, o: Options)
    requires Fits(s, o)
    ensures Inv(s, o, Start())
  {}

  // What the server finds there.
  lemma ClientHelloFound(s: Conf, o: Options, h: Server)
    ensures Ready(s, o, h) && Selecting(h.state) ==> h.inbox == Some(ClientHello(o.offer))
  {
    hide At, Log, NextSent, Epochs, Fits, Knows, Hashes;
    HelloPlaces(o);
    Head(o, true, 0, h);
  }

  // What do_select_parameters and do_send_server_hello decide is what was to be negotiated.
  lemma ParametersSelected(s: Conf, o: Options, h: Server)
    ensures (Fits(s, o) && h.inbox == Some(ClientHello(o.offer)) && h.transcript.buffer.Some?
             && h.channelId == (o.offer.channelId && s.channelIdEnabled) && h.cipher == s.cipher) ==>
      var h' := DoSelectParameters(s, h, false);
      var hashed := h.transcript.InitHash().Update(ClientHello(o.offer));
      && h.cipher == o.cipher
      && h' == h.(state := SendServerHello, wait := Ok, resumed := o.resumed, certRequest := o.certRequest,
                  ticketExpected := o.ticket, npn := h.npn && !(o.offer.alpn && s.alpnCallback),
                  inbox := None, transcript := if o.certRequest then hashed else hashed.FreeBuffer())
  {}

  lemma HelloAnswered(s: Conf, o: Options, h: Server)
    ensures Fits(s, o) && Knows(s, o, 1, h) && h.state.SendServerHello? ==>
      var h' := DoSendServerHello(s, h);
      && h' == h.(state := if o.resumed then SendServerFinished else SendServerCertificate, wait := Ok,
                  npn := o.npn, channelId := o.channelId, statusExpected := o.status,
                  flight := h.flight + [Rec(h.writeEpoch, Message(ServerHello(o.Answer())))],
                  transcript := h.transcript.Update(ServerHello(o.Answer())))
  {}

  // A client without a certificate, where one is insisted on.
  predicate Refuses(s: Conf, o: Options, h: Server, retry: bool) {
    Do(s, h, retry) == h.Stop(Error) && !Agreed(s, o) && !h.state.Done?
  }

  lemma AppendedAtOnce(f: seq<Rec>, a: Rec, b: Rec)
    ensures f + [a] + [b] == f + [a, b]
  {}

  lemma {:induction false} StartAcceptFollows(s: Conf, o: Options, h: Server)
    requires Ready(s, o, h) && h.state.StartAccept?
    ensures Good(s, o, h, h.GoTo(ReadClientHello), false)
  {
    hide At, PlaceAfter, Log, Records, OnlyBy, InboxFits, Negotiated, Agreed;
    NoPlace(o, 0);
  }

  lemma {:induction false} ClientHelloWaits(s: Conf, o: Options, h: Server, retry: bool)
    requires Ready(s, o, h) && h.state.ReadClientHello? && h.inbox.None?
    ensures Good(s, o, h, DoReadClientHello(s, h, retry), retry)
  {
    hide At, PlaceAfter, Log, Records, OnlyBy, InboxFits, Negotiated, Agreed;
    NoPlace(o, 0);
  }

  lemma {:induction false} ClientHelloPaused(s: Conf, o: Options, h: Server)
    requires Ready(s, o, h) && h.state.ReadClientHello? && h.inbox.Some?
    ensures Good(s, o, h, DoReadClientHello(s, h, true), true)
  {
    hide At, PlaceAfter, Log, Records, OnlyBy, InboxFits, Negotiated, Agreed;
    HelloPlaces(o);
    Head(o, true, 0, h);
    OnePlace(o, 0);
    NoPlace(o, 0);
  }

  lemma {:induction false} ClientHelloRead(s: Conf, o: Options, h: Server)
    requires Ready(s, o, h) && h.state.ReadClientHello? && h.inbox.Some?
    ensures Good(s, o, h, DoReadClientHello(s, h, false), false)
  {
    hide At, PlaceAfter, Log, Records, OnlyBy, InboxFits, Negotiated, Agreed;
    HelloPlaces(o);
    Head(o, true, 0, h);
    OnePlace(o, 0);
    NoPlace(o, 0);
  }

  lemma {:induction false} SelectCertificateWaits(s: Conf, o: Options, h: Server)
    requires Ready(s, o, h) && h.state.SelectCertificate? && s.certCallback
    ensures Good(s, o, h, DoSelectCertificate(s, h, true), true)
  {
    hide At, PlaceAfter, Log, Records, OnlyBy, InboxFits, Negotiated, Agreed;
    NoPlace(o, 0);
  }

  lemma {:induction false} CertificateSelected(s: Conf, o: Options, h: Server, retry: bool)
    requires Ready(s, o, h) && h.state.SelectCertificate? && !(s.certCallback && retry)
    ensures Good(s, o, h, DoSelectCertificate(s, h, retry), retry)
  {
    hide At, PlaceAfter, Log, Records, OnlyBy, InboxFits, Negotiated, Agreed;
    NoPlace(o, 0);
  }

  lemma {:induction false} SelectParametersPaused(s: Conf, o: Options, h: Server)
    requires Ready(s, o, h) && h.state.SelectParameters?
    ensures Good(s, o, h, DoSelectParameters(s, h, true), true)
  {
    hide At, PlaceAfter, Log, Records, OnlyBy, InboxFits, Negotiated, Agreed;
    HelloPlaces(o);
    Head(o, true, 0, h);
    OnePlace(o, 0);
    NoPlace(o, 0);
  }

  lemma {:induction false} SelectParametersTakenInv(s: Conf, o: Options, h: Server)
    requires Ready(s, o, h) && h.state.SelectParameters?
    ensures Inv(s, o, DoSelectParameters(s, h, false))
  {
    hide At, PlaceAfter, Log, Records, OnlyBy, InboxFits, DoSelectParameters, Negotiated;
    ClientHelloFound(s, o, h);
    ParametersSelected(s, o, h);
    HelloPlaces(o);
    Head(o, true, 0, h);
    OnePlace(o, 0);
  }

  lemma {:induction false} SelectParametersTaken(s: Conf, o: Options, h: Server)
    requires Ready(s, o, h) && h.state.SelectParameters?
    ensures var h' := DoSelectParameters(s, h, false);
      Follows(o, true, PlaceOf(o.resumed, h), h, PlaceOf(o.resumed, h'), h') && Forward(h, h', false)
  {
    hide At, PlaceAfter, Log, Records, OnlyBy, InboxFits, DoSelectParameters, Negotiated;
    ClientHelloFound(s, o, h);
    ParametersSelected(s, o, h);
    HelloPlaces(o);
    Head(o, true, 0, h);
    OnePlace(o, 0);
  }

  lemma {:induction false} ServerHelloSentInv(s: Conf, o: Options, h: Server)
    requires Ready(s, o, h) && h.state.SendServerHello?
    ensures Inv(s, o, DoSendServerHello(s, h))
  {
    hide At, PlaceAfter, Log, Records, OnlyBy, InboxFits, DoSendServerHello, Negotiated;
    HelloAnswered(s, o, h);
    HelloPlaces(o);
    OnePlace(o, 1);
  }

  lemma {:induction false} ServerHelloSent(s: Conf, o: Options, h: Server)
    requires Ready(s, o, h) && h.state.SendServerHello?
    ensures var h' := DoSendServerHello(s, h);
      Follows(o, true, PlaceOf(o.resumed, h), h, PlaceOf(o.resumed, h'), h') && Forward(h, h', false)
  {
    hide At, PlaceAfter, Log, Records, OnlyBy, InboxFits, DoSendServerHello, Negotiated;
    HelloAnswered(s, o, h);
    HelloPlaces(o);
    OnePlace(o, 1);
  }

  lemma {:induction false} NoServerCertificate(s: Conf, o: Options, h: Server)
    requires Ready(s, o, h) && h.state.SendServerCertificate? && !h.cipher.certAuth
    ensures Good(s, o, h, DoSendServerCertificate(s, h), false)
  {
    hide At, PlaceAfter, Log, Records, OnlyBy, InboxFits;
    ServerCertificatePlace(o);
    OnePlace(o, 2);
    CertificateStatusPlace(o);
    OnePlace(o, 3);
    LastPlace(o, 2, 3);
  }

  lemma {:induction false} ServerCertificateSent(s: Conf, o: Options, h: Server)
    requires Ready(s, o, h) && h.state.SendServerCertificate? && h.cipher.certAuth && !h.statusExpected
    ensures Good(s, o, h, DoSendServerCertificate(s, h), false)
  {
    hide At, PlaceAfter, Log, Records, OnlyBy, InboxFits;
    ServerCertificatePlace(o);
    OnePlace(o, 2);
    CertificateStatusPlace(o);
    OnePlace(o, 3);
    LastPlace(o, 2, 3);
  }

  lemma {:induction false} CertificateStatusSent(s: Conf, o: Options, h: Server)
    requires Ready(s, o, h) && h.state.SendServerCertificate? && h.cipher.certAuth && h.statusExpected
    ensures Good(s, o, h, DoSendServerCertificate(s, h), false)
  {
    hide At, PlaceAfter, Log, Records, OnlyBy, InboxFits;
    ServerCertificatePlace(o);
    OnePlace(o, 2);
    CertificateStatusPlace(o);
    OnePlace(o, 3);
    LastPlace(o, 2, 3);
    AppendedAtOnce(h.flight, Rec(0, Message(Certificate(true))), Rec(0, Message(CertificateStatus)));
  }

  lemma {:induction false} NoServerKeyExchange(s: Conf, o: Options, h: Server, retry: bool)
    requires Ready(s, o, h) && h.state.SendServerKeyExchange? && !h.serverParams
    ensures Good(s, o, h, DoSendServerKeyExchange(h, retry), retry)
  {
    hide At, PlaceAfter, Log, Records, OnlyBy, InboxFits, Negotiated, Agreed;
    ServerKeyExchangePlace(o);
    OnePlace(o, 4);
  }

  lemma {:induction false} ServerKeyExchangeWaits(s: Conf, o: Options, h: Server)
    requires Ready(s, o, h) && h.state.SendServerKeyExchange? && h.serverParams && h.cipher.certAuth
    ensures Good(s, o, h, DoSendServerKeyExchange(h, true), true)
  {
    hide At, PlaceAfter, Log, Records, OnlyBy, InboxFits, Negotiated, Agreed;
    NoPlace(o, 4);
  }

  lemma {:induction false} ServerKeyExchangeSent(s: Conf, o: Options, h: Server, retry: bool)
    requires Ready(s, o, h) && h.state.SendServerKeyExchange? && h.serverParams && !(h.cipher.certAuth && retry)
    ensures Good(s, o, h, DoSendServerKeyExchange(h, retry), retry)
  {
    hide At, PlaceAfter, Log, Records, OnlyBy, InboxFits, Negotiated, Agreed;
    ServerKeyExchangePlace(o);
    OnePlace(o, 4);
  }

  lemma {:induction false} ServerHelloDoneSent(s: Conf, o: Options, h: Server)
    requires Ready(s, o, h) && h.state.SendServerHelloDone? && !h.certRequest
    ensures Good(s, o, h, DoSendServerHelloDone(h), false)
  {
    hide At, PlaceAfter, Log, Records, OnlyBy, InboxFits, Negotiated, Agreed;
    CertificateRequestPlace(o);
    OnePlace(o, 5);
    ServerHelloDonePlace(o);
    OnePlace(o, 6);
    LastPlace(o, 5, 6);
  }

  lemma {:induction false} CertificateRequestSent(s: Conf, o: Options, h: Server)
    requires Ready(s, o, h) && h.state.SendServerHelloDone? && h.certRequest
    ensures Good(s, o, h, DoSendServerHelloDone(h), false)
  {
    hide At, PlaceAfter, Log, Records, OnlyBy, InboxFits, Negotiated, Agreed;
    CertificateRequestPlace(o);
    OnePlace(o, 5);
    ServerHelloDonePlace(o);
    OnePlace(o, 6);
    LastPlace(o, 5, 6);
    AppendedAtOnce(h.flight, Rec(0, Message(CertificateRequest)), Rec(0, Message(ServerHelloDone)));
  }

  lemma {:induction false} NoClientCertificate(s: Conf, o: Options, h: Server)
    requires Ready(s, o, h) && h.state.ReadClientCertificate? && !h.certRequest
    ensures Good(s, o, h, DoReadClientCertificate(s, h), false)
  {
    hide At, PlaceAfter, Log, Records, OnlyBy, InboxFits, Negotiated;
    ClientCertificatePlace(o);
    OnePlace(o, 7);
  }

  lemma {:induction false} ClientCertificateWaits(s: Conf, o: Options, h: Server)
    requires Ready(s, o, h) && h.state.ReadClientCertificate? && h.certRequest && h.inbox.None?
    ensures Good(s, o, h, DoReadClientCertificate(s, h), false)
  {
    hide At, PlaceAfter, Log, Records, OnlyBy, InboxFits, Negotiated, Agreed;
    NoPlace(o, 7);
  }

  lemma {:induction false} ClientCertificateTaken(s: Conf, o: Options, h: Server)
    requires Ready(s, o, h) && h.state.ReadClientCertificate? && h.certRequest && h.inbox.Some? && o.clientCert
    ensures Good(s, o, h, DoReadClientCertificate(s, h), false)
  {
    hide At, PlaceAfter, Log, Records, OnlyBy, InboxFits, Negotiated;
    ClientCertificatePlace(o);
    Head(o, true, 7, h);
    OnePlace(o, 7);
  }

  lemma {:induction false} EmptyCertificateTaken(s: Conf, o: Options, h: Server)
    requires Ready(s, o, h) && h.state.ReadClientCertificate? && h.certRequest && h.inbox.Some? && !o.clientCert && !s.failIfNoPeerCert
    ensures Good(s, o, h, DoReadClientCertificate(s, h), false)
  {
    hide At, PlaceAfter, Log, Records, OnlyBy, InboxFits, Negotiated;
    ClientCertificatePlace(o);
    Head(o, true, 7, h);
    OnePlace(o, 7);
  }

  lemma {:induction false} EmptyCertificateRefused(s: Conf, o: Options, h: Server)
    requires Ready(s, o, h) && h.state.ReadClientCertificate?
    requires h.certRequest && h.inbox.Some? && !o.clientCert && s.failIfNoPeerCert
    ensures DoReadClientCertificate(s, h) == h.Stop(Error) && !Agreed(s, o)
  {
    hide At, Log, InboxFits, Negotiated, Hashes, Epochs;
    ClientCertificatePlace(o);
    Head(o, true, 7, h);
  }

  lemma {:induction false} VerifyClientCertificateFollows(s: Conf, o: Options, h: Server, retry: bool)
    requires Ready(s, o, h) && h.state.VerifyClientCertificate?
    ensures Good(s, o, h, DoVerifyClientCertificate(h, retry), retry)
  {
    hide At, PlaceAfter, Log, Records, OnlyBy, InboxFits, Negotiated, Agreed;
    NoPlace(o, 8);
  }

  lemma {:induction false} ClientKeyExchangeWaits(s: Conf, o: Options, h: Server, retry: bool)
    requires Ready(s, o, h) && h.state.ReadClientKeyExchange? && h.inbox.None?
    ensures Good(s, o, h, DoReadClientKeyExchange(h, retry), retry)
  {
    hide At, PlaceAfter, Log, Records, OnlyBy, InboxFits, Negotiated, Agreed;
    NoPlace(o, 8);
  }

  lemma {:induction false} ClientKeyExchangePaused(s: Conf, o: Options, h: Server)
    requires Ready(s, o, h) && h.state.ReadClientKeyExchange? && h.inbox.Some? && h.cipher.kex.Rsa?
    ensures Good(s, o, h, DoReadClientKeyExchange(h, true), true)
  {
    hide At, PlaceAfter, Log, Records, OnlyBy, InboxFits, Negotiated, Agreed;
    ClientKeyExchangePlace(o);
    Head(o, true, 8, h);
    OnePlace(o, 8);
    NoPlace(o, 8);
  }

  lemma {:induction false} ClientKeyExchangeTaken(s: Conf, o: Options, h: Server, retry: bool)
    requires Ready(s, o, h) && h.state.ReadClientKeyExchange? && h.inbox.Some? && !(h.cipher.kex.Rsa? && retry)
    ensures Good(s, o, h, DoReadClientKeyExchange(h, retry), retry)
  {
    hide At, PlaceAfter, Log, Records, OnlyBy, InboxFits, Negotiated, Agreed;
    ClientKeyExchangePlace(o);
    Head(o, true, 8, h);
    OnePlace(o, 8);
  }

  lemma {:induction false} NoCertificateVerify(s: Conf, o: Options, h: Server)
    requires Ready(s, o, h) && h.state.ReadClientCertificateVerify? && !h.peerCert
    ensures Good(s, o, h, DoReadClientCertificateVerify(h), false)
  {
    hide At, PlaceAfter, Log, Records, OnlyBy, InboxFits, Negotiated, Agreed;
    CertificateVerifyPlace(o);
    OnePlace(o, 9);
  }

  lemma {:induction false} CertificateVerifyWaits(s: Conf, o: Options, h: Server)
    requires Ready(s, o, h) && h.state.ReadClientCertificateVerify? && h.peerCert && h.inbox.None?
    ensures Good(s, o, h, DoReadClientCertificateVerify(h), false)
  {
    hide At, PlaceAfter, Log, Records, OnlyBy, InboxFits, Negotiated, Agreed;
    NoPlace(o, 9);
  }

  lemma {:induction false} CertificateVerifyTaken(s: Conf, o: Options, h: Server)
    requires Ready(s, o, h) && h.state.ReadClientCertificateVerify? && h.peerCert && h.inbox.Some?
    ensures Good(s, o, h, DoReadClientCertificateVerify(h), false)
  {
    hide At, PlaceAfter, Log, Records, OnlyBy, InboxFits, Negotiated, Agreed;
    CertificateVerifyPlace(o);
    Head(o, true, 9, h);
    OnePlace(o, 9);
  }

  lemma {:induction false} ReadChangeCipherSpecResumed(s: Conf, o: Options, h: Server)
    requires Ready(s, o, h) && h.state.ReadChangeCipherSpec? && o.resumed
    ensures Good(s, o, h, DoReadChangeCipherSpec(h), false)
  {
    hide At, PlaceAfter, Log, Records, OnlyBy, InboxFits, Negotiated, Agreed;
    ResumedClientCipherPlace(o);
    Head(o, true, 5, h);
    OnePlace(o, 5);
    NoPlace(o, 5);
  }

  lemma {:induction false} ProcessChangeCipherSpecResumed(s: Conf, o: Options, h: Server)
    requires Ready(s, o, h) && h.state.ProcessChangeCipherSpec? && o.resumed
    ensures Good(s, o, h, h.ChangeReadCipher(ReadNextProto), false)
  {
    hide At, PlaceAfter, Log, Records, OnlyBy, InboxFits, Negotiated, Agreed;
    NoPlace(o, 6);
  }

  lemma {:induction false} NoNextProtoResumed(s: Conf, o: Options, h: Server)
    requires Ready(s, o, h) && h.state.ReadNextProto? && !h.npn && o.resumed
    ensures Good(s, o, h, DoReadNextProto(h), false)
  {
    hide At, PlaceAfter, Log, Records, OnlyBy, InboxFits, Negotiated, Agreed;
    ResumedNextProtoPlace(o);
    OnePlace(o, 6);
  }

  lemma {:induction false} NextProtoWaitsResumed(s: Conf, o: Options, h: Server)
    requires Ready(s, o, h) && h.state.ReadNextProto? && h.npn && h.inbox.None? && o.resumed
    ensures Good(s, o, h, DoReadNextProto(h), false)
  {
    hide At, PlaceAfter, Log, Records, OnlyBy, InboxFits, Negotiated, Agreed;
    NoPlace(o, 6);
  }

  lemma {:induction false} NextProtoTakenResumed(s: Conf, o: Options, h: Server)
    requires Ready(s, o, h) && h.state.ReadNextProto? && h.npn && h.inbox.Some? && o.resumed
    ensures Good(s, o, h, DoReadNextProto(h), false)
  {
    hide At, PlaceAfter, Log, Records, OnlyBy, InboxFits, Negotiated, Agreed;
    ResumedNextProtoPlace(o);
    Head(o, true, 6, h);
    OnePlace(o, 6);
  }

  lemma {:induction false} NoChannelIdResumed(s: Conf, o: Options, h: Server)
    requires Ready(s, o, h) && h.state.ReadChannelId? && !h.channelId && o.resumed
    ensures Good(s, o, h, DoReadChannelId(h), false)
  {
    hide At, PlaceAfter, Log, Records, OnlyBy, InboxFits, Negotiated, Agreed;
    ResumedChannelIdPlace(o);
    OnePlace(o, 7);
  }

  lemma {:induction false} ChannelIdWaitsResumed(s: Conf, o: Options, h: Server)
    requires Ready(s, o, h) && h.state.ReadChannelId? && h.channelId && h.inbox.None? && o.resumed
    ensures Good(s, o, h, DoReadChannelId(h), false)
  {
    hide At, PlaceAfter, Log, Records, OnlyBy, InboxFits, Negotiated, Agreed;
    NoPlace(o, 7);
  }

  lemma {:induction false} ChannelIdTakenResumed(s: Conf, o: Options, h: Server)
    requires Ready(s, o, h) && h.state.ReadChannelId? && h.channelId && h.inbox.Some? && o.resumed
    ensures Good(s, o, h, DoReadChannelId(h), false)
  {
    hide At, PlaceAfter, Log, Records, OnlyBy, InboxFits, Negotiated, Agreed;
    ResumedChannelIdPlace(o);
    Head(o, true, 7, h);
    OnePlace(o, 7);
  }

  lemma {:induction false} ClientFinishedWaitsResumed(s: Conf, o: Options, h: Server)
    requires Ready(s, o, h) && h.state.ReadClientFinished? && h.inbox.None? && o.resumed
    ensures Good(s, o, h, DoReadClientFinished(h), false)
  {
    hide At, PlaceAfter, Log, Records, OnlyBy, InboxFits, Negotiated, Agreed;
    NoPlace(o, 8);
  }

  lemma {:induction false} ClientFinishedTakenResumed(s: Conf, o: Options, h: Server)
    requires Ready(s, o, h) && h.state.ReadClientFinished? && h.inbox.Some? && o.resumed
    ensures Good(s, o, h, DoReadClientFinished(h), false)
  {
    hide At, PlaceAfter, Log, Records, OnlyBy, InboxFits, Negotiated, Agreed;
    ResumedClientFinishedPlace(o);
    Head(o, true, 8, h);
    OnePlace(o, 8);
  }

  lemma {:induction false} ReadChangeCipherSpecFull(s: Conf, o: Options, h: Server)
    requires Ready(s, o, h) && h.state.ReadChangeCipherSpec? && !o.resumed
    ensures Good(s, o, h, DoReadChangeCipherSpec(h), false)
  {
    hide At, PlaceAfter, Log, Records, OnlyBy, InboxFits, Negotiated, Agreed;
    ClientCipherPlace(o);
    Head(o, true, 10, h);
    OnePlace(o, 10);
    NoPlace(o, 10);
  }

  lemma {:induction false} ProcessChangeCipherSpecFull(s: Conf, o: Options, h: Server)
    requires Ready(s, o, h) && h.state.ProcessChangeCipherSpec? && !o.resumed
    ensures Good(s, o, h, h.ChangeReadCipher(ReadNextProto), false)
  {
    hide At, PlaceAfter, Log, Records, OnlyBy, InboxFits, Negotiated, Agreed;
    NoPlace(o, 11);
  }

  lemma {:induction false} NoNextProtoFull(s: Conf, o: Options, h: Server)
    requires Ready(s, o, h) && h.state.ReadNextProto? && !h.npn && !o.resumed
    ensures Good(s, o, h, DoReadNextProto(h), false)
  {
    hide At, PlaceAfter, Log, Records, OnlyBy, InboxFits, Negotiated, Agreed;
    NextProtoPlace(o);
    OnePlace(o, 11);
  }

  lemma {:induction false} NextProtoWaitsFull(s: Conf, o: Options, h: Server)
    requires Ready(s, o, h) && h.state.ReadNextProto? && h.npn && h.inbox.None? && !o.resumed
    ensures Good(s, o, h, DoReadNextProto(h), false)
  {
    hide At, PlaceAfter, Log, Records, OnlyBy, InboxFits, Negotiated, Agreed;
    NoPlace(o, 11);
  }

  lemma {:induction false} NextProtoTakenFull(s: Conf, o: Options, h: Server)
    requires Ready(s, o, h) && h.state.ReadNextProto? && h.npn && h.inbox.Some? && !o.resumed
    ensures Good(s, o, h, DoReadNextProto(h), false)
  {
    hide At, PlaceAfter, Log, Records, OnlyBy, InboxFits, Negotiated, Agreed;
    NextProtoPlace(o);
    Head(o, true, 11, h);
    OnePlace(o, 11);
  }

  lemma {:induction false} NoChannelIdFull(s: Conf, o: Options, h: Server)
    requires Ready(s, o, h) && h.state.ReadChannelId? && !h.channelId && !o.resumed
    ensures Good(s, o, h, DoReadChannelId(h), false)
  {
    hide At, PlaceAfter, Log, Records, OnlyBy, InboxFits, Negotiated, Agreed;
    ChannelIdPlace(o);
    OnePlace(o, 12);
  }

  lemma {:induction false} ChannelIdWaitsFull(s: Conf, o: Options, h: Server)
    requires Ready(s, o, h) && h.state.ReadChannelId? && h.channelId && h.inbox.None? && !o.resumed
    ensures Good(s, o, h, DoReadChannelId(h), false)
  {
    hide At, PlaceAfter, Log, Records, OnlyBy, InboxFits, Negotiated, Agreed;
    NoPlace(o, 12);
  }

  lemma {:induction false} ChannelIdTakenFull(s: Conf, o: Options, h: Server)
    requires Ready(s, o, h) && h.state.ReadChannelId? && h.channelId && h.inbox.Some? && !o.resumed
    ensures Good(s, o, h, DoReadChannelId(h), false)
  {
    hide At, PlaceAfter, Log, Records, OnlyBy, InboxFits, Negotiated, Agreed;
    ChannelIdPlace(o);
    Head(o, true, 12, h);
    OnePlace(o, 12);
  }

  lemma {:induction false} ClientFinishedWaitsFull(s: Conf, o: Options, h: Server)
    requires Ready(s, o, h) && h.state.ReadClientFinished? && h.inbox.None? && !o.resumed
    ensures Good(s, o, h, DoReadClientFinished(h), false)
  {
    hide At, PlaceAfter, Log, Records, OnlyBy, InboxFits, Negotiated, Agreed;
    NoPlace(o, 13);
  }

  lemma {:induction false} ClientFinishedTakenFull(s: Conf, o: Options, h: Server)
    requires Ready(s, o, h) && h.state.ReadClientFinished? && h.inbox.Some? && !o.resumed
    ensures Good(s, o, h, DoReadClientFinished(h), false)
  {
    hide At, PlaceAfter, Log, Records, OnlyBy, InboxFits, Negotiated, Agreed;
    ClientFinishedPlace(o);
    Head(o, true, 13, h);
    OnePlace(o, 13);
  }

  lemma {:induction false} FinishFollows(s: Conf, o: Options, h: Server)
    requires Ready(s, o, h) && h.state.FinishServerHandshake?
    ensures Good(s, o, h, h.GoTo(Done), false)
  {
    hide At, PlaceAfter, Log, Records, OnlyBy, InboxFits, Negotiated, Agreed;
    NoPlace(o, 9);
    NoPlace(o, 17);
  }

  // The last flight: the ticket if there is to be one, ChangeCipherSpec, and Finished.
  function LastFlight(ticket: bool, empty: bool, over: seq<Msg>): seq<Rec> {
    Push([], ticket, Rec(0, Message(NewSessionTicket(empty)))) + [Rec(0, ChangeCipherSpec)]
    + [Rec(1, Message(Finished(true, over)))]
  }

  lemma LastFlightPlaces(o: Options)
    ensures var a := if o.resumed then 2 else 14;
      var over := Push(Log(o, a), o.ticket, NewSessionTicket(o.emptyTicket));
      && OnlyBy(o, true, a, a + 3)
      && Log(o, a + 3) == over + [Finished(true, over)]
      && Records(o, a, a + 3) == LastFlight(o.ticket, o.emptyTicket, over)
  {
    hide At, Log, Records, OnlyBy;
    var a := if o.resumed then 2 else 14;
    NoPlace(o, a);
    OnePlace(o, a);
    OnePlace(o, a + 1);
    OnePlace(o, a + 2);
    LastPlace(o, a, a);
    LastPlace(o, a, a + 1);
    LastPlace(o, a, a + 2);
  }

  lemma PushedAfter(f: seq<Rec>, b: bool, x: Rec, y: Rec, z: Rec)
    ensures Push(f, b, x) + [y] + [z] == f + (Push([], b, x) + [y] + [z])
  {}

  lemma TicketSent(s: Conf, h: Server)
    ensures h.transcript.hash.Some? ==>
      var h' := SendTicket(s, h);
      && h' == h.(flight := h'.flight, transcript := h'.transcript)
      && h'.transcript.hash == Some(Push(h.transcript.hash.value, h.ticketExpected, NewSessionTicket(s.emptyTicket)))
      && (h.transcript.buffer.None? ==> h'.transcript.buffer.None?)
      && (h.transcript.buffer == h.transcript.hash ==> h'.transcript.buffer == h'.transcript.hash)
      && h'.flight == Push(h.flight, h.ticketExpected, Rec(h.writeEpoch, Message(NewSessionTicket(s.emptyTicket))))
  {}

  // ChangeCipherSpec and Finished, after the ticket.
  lemma CipherAndFinishedSent(h: Server)
    ensures h.transcript.hash.Some? && h.writeEpoch == 0 ==>
      var over := h.transcript.hash.value;
      var h' := h.AddChangeCipherSpec().SendFinished(true);
      && h' == h.(writeEpoch := 1, flight := h'.flight, transcript := h'.transcript)
      && h'.transcript.hash == Some(over + [Finished(true, over)])
      && (h.transcript.buffer.None? ==> h'.transcript.buffer.None?)
      && (h.transcript.buffer == h.transcript.hash ==> h'.transcript.buffer == h'.transcript.hash)
      && h'.flight == h.flight + [Rec(0, ChangeCipherSpec)] + [Rec(1, Message(Finished(true, over)))]
  {}

  lemma LastFlightSent(s: Conf, h: Server)
    ensures h.transcript.hash.Some? && h.writeEpoch == 0 ==>
      var over := Push(h.transcript.hash.value, h.ticketExpected, NewSessionTicket(s.emptyTicket));
      var h' := DoSendServerFinished(s, h);
      && h' == h.(state := if h.resumed then State.ReadChangeCipherSpec else FinishServerHandshake, wait := Flush,
                  writeEpoch := 1, flight := h'.flight, transcript := h'.transcript)
      && h'.transcript.hash == Some(over + [Finished(true, over)])
      && (h.transcript.buffer.None? ==> h'.transcript.buffer.None?)
      && (h.transcript.buffer == h.transcript.hash ==> h'.transcript.buffer == h'.transcript.hash)
      && h'.flight == h.flight + LastFlight(h.ticketExpected, s.emptyTicket, over)
  {
    hide SendTicket, Push, Hs.AddChangeCipherSpec, Hs.SendFinished;
    TicketSent(s, h);
    CipherAndFinishedSent(SendTicket(s, h));
    PushedAfter(h.flight, h.ticketExpected, Rec(0, Message(NewSessionTicket(s.emptyTicket))), Rec(0, ChangeCipherSpec),
                Rec(1, Message(Finished(true, Push(if h.transcript.hash.Some? then h.transcript.hash.value else [],
                                                   h.ticketExpected, NewSessionTicket(s.emptyTicket))))));
  }

  lemma {:induction false} LastFlightFull(s: Conf, o: Options, h: Server)
    requires Ready(s, o, h) && h.state.SendServerFinished? && !o.resumed
    ensures Good(s, o, h, DoSendServerFinished(s, h), false)
  {
    hide At, Log, Records, OnlyBy, InboxFits, DoSendServerFinished, LastFlight, Push;
    LastFlightPlaces(o);
    LastFlightSent(s, h);
  }

  lemma {:induction false} LastFlightResumed(s: Conf, o: Options, h: Server)
    requires Ready(s, o, h) && h.state.SendServerFinished? && o.resumed
    ensures Good(s, o, h, DoSendServerFinished(s, h), false)
  {
    hide At, Log, Records, OnlyBy, InboxFits, DoSendServerFinished, LastFlight, Push;
    LastFlightPlaces(o);
    LastFlightSent(s, h);
  }

  lemma {:induction false} FirstStatesFollow(s: Conf, o: Options, h: Server, retry: bool)
    requires Ready(s, o, h)
    requires h.state.StartAccept? || h.state.ReadClientHello? || h.state.SelectCertificate?
      || h.state.SelectParameters? || h.state.SendServerHello? || h.state.SendServerCertificate? || h.state.SendServerKeyExchange?
    ensures Good(s, o, h, Do(s, h, retry), retry) || Refuses(s, o, h, retry)
  {
    hide Ready, Inv, Follows, Forward, Agreed;
    hide DoReadClientHello, DoSelectCertificate, DoSelectParameters, DoSendServerHello, DoSendServerCertificate;
    hide DoSendServerKeyExchange, DoSendServerHelloDone, DoReadClientCertificate, DoReadClientKeyExchange;
    hide DoReadClientCertificateVerify, DoReadNextProto, DoReadChannelId, DoReadClientFinished, DoSendServerFinished;
    MoreTime(h, Do(s, h, retry), retry);
    if h.state.StartAccept? {
      StartAcceptFollows(s, o, h);
    } else if h.state.ReadClientHello? {
      if h.inbox.None? { ClientHelloWaits(s, o, h, retry); }
      else if retry { ClientHelloPaused(s, o, h); }
      else { ClientHelloRead(s, o, h); }
    } else if h.state.SelectCertificate? {
      if s.certCallback && retry { SelectCertificateWaits(s, o, h); }
      else { CertificateSelected(s, o, h, retry); }
    } else if h.state.SelectParameters? {
      if retry { SelectParametersPaused(s, o, h); }
      else { SelectParametersTakenInv(s, o, h); SelectParametersTaken(s, o, h); }
    } else if h.state.SendServerHello? {
      ServerHelloSentInv(s, o, h);
      ServerHelloSent(s, o, h);
    } else if h.state.SendServerCertificate? {
      if !h.cipher.certAuth { NoServerCertificate(s, o, h); }
      else if h.statusExpected { CertificateStatusSent(s, o, h); }
      else { ServerCertificateSent(s, o, h); }
    } else {
      if !h.serverParams { NoServerKeyExchange(s, o, h, retry); }
      else if h.cipher.certAuth && retry { ServerKeyExchangeWaits(s, o, h); }
      else { ServerKeyExchangeSent(s, o, h, retry); }
    }
  }

  lemma {:induction false} MiddleStatesFollow(s: Conf, o: Options, h: Server, retry: bool)
    requires Ready(s, o, h)
    requires h.state.SendServerHelloDone? || h.state.ReadClientCertificate? || h.state.VerifyClientCertificate?
      || h.state.ReadClientKeyExchange? || h.state.ReadClientCertificateVerify? || h.state.ReadChangeCipherSpec? || h.state.ProcessChangeCipherSpec?
    ensures Good(s, o, h, Do(s, h, retry), retry) || Refuses(s, o, h, retry)
  {
    hide Ready, Inv, Follows, Forward, Agreed;
    hide DoReadClientHello, DoSelectCertificate, DoSelectParameters, DoSendServerHello, DoSendServerCertificate;
    hide DoSendServerKeyExchange, DoSendServerHelloDone, DoReadClientCertificate, DoReadClientKeyExchange;
    hide DoReadClientCertificateVerify, DoReadNextProto, DoReadChannelId, DoReadClientFinished, DoSendServerFinished;
    MoreTime(h, Do(s, h, retry), retry);
    if h.state.SendServerHelloDone? {
      if h.certRequest { CertificateRequestSent(s, o, h); } else { ServerHelloDoneSent(s, o, h); }
    } else if h.state.ReadClientCertificate? {
      if !h.certRequest { NoClientCertificate(s, o, h); }
      else if h.inbox.None? { ClientCertificateWaits(s, o, h); }
      else if o.clientCert { ClientCertificateTaken(s, o, h); }
      else if s.failIfNoPeerCert { EmptyCertificateRefused(s, o, h); }
      else { EmptyCertificateTaken(s, o, h); }
    } else if h.state.VerifyClientCertificate? {
      VerifyClientCertificateFollows(s, o, h, retry);
    } else if h.state.ReadClientKeyExchange? {
      if h.inbox.None? { ClientKeyExchangeWaits(s, o, h, retry); }
      else if h.cipher.kex.Rsa? && retry { ClientKeyExchangePaused(s, o, h); }
      else { ClientKeyExchangeTaken(s, o, h, retry); }
    } else if h.state.ReadClientCertificateVerify? {
      if !h.peerCert { NoCertificateVerify(s, o, h); }
      else if h.inbox.None? { CertificateVerifyWaits(s, o, h); }
      else { CertificateVerifyTaken(s, o, h); }
    } else if h.state.ReadChangeCipherSpec? {
      if o.resumed { ReadChangeCipherSpecResumed(s, o, h); } else { ReadChangeCipherSpecFull(s, o, h); }
    } else {
      if o.resumed { ProcessChangeCipherSpecResumed(s, o, h); } else { ProcessChangeCipherSpecFull(s, o, h); }
    }
  }

  lemma {:induction false} LastStatesFollow(s: Conf, o: Options, h: Server, retry: bool)
    requires Ready(s, o, h)
    requires h.state.ReadNextProto? || h.state.ReadChannelId?
      || h.state.ReadClientFinished? || h.state.SendServerFinished? || h.state.FinishServerHandshake?
    ensures Good(s, o, h, Do(s, h, retry), retry) || Refuses(s, o, h, retry)
  {
    hide Ready, Inv, Follows, Forward, Agreed;
    hide DoReadClientHello, DoSelectCertificate, DoSelectParameters, DoSendServerHello, DoSendServerCertificate;
    hide DoSendServerKeyExchange, DoSendServerHelloDone, DoReadClientCertificate, DoReadClientKeyExchange;
    hide DoReadClientCertificateVerify, DoReadNextProto, DoReadChannelId, DoReadClientFinished, DoSendServerFinished;
    MoreTime(h, Do(s, h, retry), retry);
    if h.state.ReadNextProto? {
      if !h.npn {
        if o.resumed { NoNextProtoResumed(s, o, h); } else { NoNextProtoFull(s, o, h); }
      } else if h.inbox.None? {
        if o.resumed { NextProtoWaitsResumed(s, o, h); } else { NextProtoWaitsFull(s, o, h); }
      } else if o.resumed { NextProtoTakenResumed(s, o, h); }
      else { NextProtoTakenFull(s, o, h); }
    } else if h.state.ReadChannelId? {
      if !h.channelId {
        if o.resumed { NoChannelIdResumed(s, o, h); } else { NoChannelIdFull(s, o, h); }
      } else if h.inbox.None? {
        if o.resumed { ChannelIdWaitsResumed(s, o, h); } else { ChannelIdWaitsFull(s, o, h); }
      } else if o.resumed { ChannelIdTakenResumed(s, o, h); }
      else { ChannelIdTakenFull(s, o, h); }
    } else if h.state.ReadClientFinished? {
      if h.inbox.None? {
        if o.resumed { ClientFinishedWaitsResumed(s, o, h); } else { ClientFinishedWaitsFull(s, o, h); }
      } else if o.resumed { ClientFinishedTakenResumed(s, o, h); }
      else { ClientFinishedTakenFull(s, o, h); }
    } else if h.state.SendServerFinished? {
      if o.resumed { LastFlightResumed(s, o, h); } else { LastFlightFull(s, o, h); }
    } else {
      FinishFollows(s, o, h);
    }
  }

  // Every turn of ssl_server_handshake.
  lemma {:induction false} ServerFollows(s: Conf, o: Options, h: Server, retry: bool)
    requires Ready(s, o, h) && !h.state.Done?
    ensures Good(s, o, h, Do(s, h, retry), retry) || Refuses(s, o, h, retry)
  {
    hide Ready, Good, Refuses;
    match h.state
    case StartAccept => FirstStatesFollow(s, o, h, retry);
    case ReadClientHello => FirstStatesFollow(s, o, h, retry);
    case SelectCertificate => FirstStatesFollow(s, o, h, retry);
    case SelectParameters => FirstStatesFollow(s, o, h, retry);
    case SendServerHello => FirstStatesFollow(s, o, h, retry);
    case SendServerCertificate => FirstStatesFollow(s, o, h, retry);
    case SendServerKeyExchange => FirstStatesFollow(s, o, h, retry);
    case SendServerHelloDone => MiddleStatesFollow(s, o, h, retry);
    case ReadClientCertificate => MiddleStatesFollow(s, o, h, retry);
    case VerifyClientCertificate => MiddleStatesFollow(s, o, h, retry);
    case ReadClientKeyExchange => MiddleStatesFollow(s, o, h, retry);
    case ReadClientCertificateVerify => MiddleStatesFollow(s, o, h, retry);
    case ReadChangeCipherSpec => MiddleStatesFollow(s, o, h, retry);
    case ProcessChangeCipherSpec => MiddleStatesFollow(s, o, h, retry);
    case ReadNextProto => LastStatesFollow(s, o, h, retry);
    case ReadChannelId => LastStatesFollow(s, o, h, retry);
    case ReadClientFinished => LastStatesFollow(s, o, h, retry);
    case SendServerFinished => LastStatesFollow(s, o, h, retry);
    case FinishServerHandshake => LastStatesFollow(s, o, h, retry);
    case Done =>
  }
}
