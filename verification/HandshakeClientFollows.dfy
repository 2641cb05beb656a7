/** The client follows the conversation: what each of its states says or takes in. A state
    with several outcomes has a lemma for each. */
module HandshakeClientFollows {
  import opened Bytes
  import opened Handshake
  import opened HandshakeScript
  import opened HandshakeFollow
  import opened HandshakeClient
  import opened HandshakeClientStates

  lemma StartInv(c: Conf, o: Options)
    requires o.Valid() && o.offer == c.offer && o.clientCert == c.hasCertificate
    ensures Inv(c, o, Start())
  {}

  // What the client finds there, and that it may accept it.
  lemma ServerHelloFound(c: Conf, o: Options, h: Client)
    ensures Ready(c, o, h) && h.state.ReadServerHello? && h.inbox.Some? ==>
      h.inbox.value == ServerHello(o.Answer()) && Acceptable(c.offer, o.Answer())
  {
    hide At, Log, NextSent, Knows, Hashes, Epochs, WaitFits;
    Head(o, false, 1, h);
    HelloPlaces(o);
  }

  lemma {:induction false} StartConnectFollows(c: Conf, o: Options, h: Client)
    requires Ready(c, o, h) && h.state.StartConnect?
    ensures Good(c, o, h, DoStartConnect(c, h), false)
  {
    hide At, PlaceAfter, Log, Records, OnlyBy, InboxFits;
    HelloPlaces(o);
    OnePlace(o, 0);
  }

  lemma {:induction false} EnterEarlyDataFollows(c: Conf, o: Options, h: Client)
    requires Ready(c, o, h) && h.state.EnterEarlyData?
    ensures Good(c, o, h, DoEnterEarlyData(h), false)
  {
    hide At, PlaceAfter, Log, Records, OnlyBy, InboxFits;
    NoPlace(o, 1);
  }

  lemma {:induction false} ServerHelloWaits(c: Conf, o: Options, h: Client)
    requires Ready(c, o, h) && h.state.ReadServerHello? && h.inbox.None?
    ensures Good(c, o, h, DoReadServerHello(c, h), false)
  {
    hide At, PlaceAfter, Log, Records, OnlyBy, InboxFits;
    NoPlace(o, 1);
  }

  lemma {:induction false} ServerHelloResumesInv(c: Conf, o: Options, h: Client)
    requires Ready(c, o, h) && h.state.ReadServerHello? && h.inbox.Some? && o.resumed
    ensures Inv(c, o, DoReadServerHello(c, h))
  {
    hide At, PlaceAfter, Log, Records, OnlyBy, InboxFits, Acceptable;
    ServerHelloFound(c, o, h);
    HelloPlaces(o);
    Head(o, false, 1, h);
    OnePlace(o, 1);
  }

  lemma {:induction false} ServerHelloResumes(c: Conf, o: Options, h: Client)
    requires Ready(c, o, h) && h.state.ReadServerHello? && h.inbox.Some? && o.resumed
    ensures var h' := DoReadServerHello(c, h);
      Follows(o, false, PlaceOf(o.resumed, h), h, PlaceOf(o.resumed, h'), h') && Forward(h, h', false)
  {
    hide At, PlaceAfter, Log, Records, OnlyBy, InboxFits, Acceptable;
    ServerHelloFound(c, o, h);
    HelloPlaces(o);
    Head(o, false, 1, h);
    OnePlace(o, 1);
  }

  lemma {:induction false} ServerHelloWithCertificatesInv(c: Conf, o: Options, h: Client)
    requires Ready(c, o, h) && h.state.ReadServerHello? && h.inbox.Some? && !o.resumed && o.cipher.certAuth
    ensures Inv(c, o, DoReadServerHello(c, h))
  {
    hide At, PlaceAfter, Log, Records, OnlyBy, InboxFits, Acceptable, Options.Valid;
    ServerHelloFound(c, o, h);
    HelloPlaces(o);
    Head(o, false, 1, h);
    OnePlace(o, 1);
  }

  lemma {:induction false} ServerHelloWithCertificates(c: Conf, o: Options, h: Client)
    requires Ready(c, o, h) && h.state.ReadServerHello? && h.inbox.Some? && !o.resumed && o.cipher.certAuth
    ensures var h' := DoReadServerHello(c, h);
      Follows(o, false, PlaceOf(o.resumed, h), h, PlaceOf(o.resumed, h'), h') && Forward(h, h', false)
  {
    hide At, PlaceAfter, Log, Records, OnlyBy, InboxFits, Acceptable, Options.Valid;
    ServerHelloFound(c, o, h);
    HelloPlaces(o);
    Head(o, false, 1, h);
    OnePlace(o, 1);
  }

  lemma {:induction false} ServerHelloWithoutCertificatesInv(c: Conf, o: Options, h: Client)
    requires Ready(c, o, h) && h.state.ReadServerHello? && h.inbox.Some? && !o.resumed && !o.cipher.certAuth
    ensures Inv(c, o, DoReadServerHello(c, h))
  {
    hide At, PlaceAfter, Log, Records, OnlyBy, InboxFits, Acceptable;
    ServerHelloFound(c, o, h);
    HelloPlaces(o);
    Head(o, false, 1, h);
    OnePlace(o, 1);
  }

  lemma {:induction false} ServerHelloWithoutCertificates(c: Conf, o: Options, h: Client)
    requires Ready(c, o, h) && h.state.ReadServerHello? && h.inbox.Some? && !o.resumed && !o.cipher.certAuth
    ensures var h' := DoReadServerHello(c, h);
      Follows(o, false, PlaceOf(o.resumed, h), h, PlaceOf(o.resumed, h'), h') && Forward(h, h', false)
  {
    hide At, PlaceAfter, Log, Records, OnlyBy, InboxFits, Acceptable;
    ServerHelloFound(c, o, h);
    HelloPlaces(o);
    Head(o, false, 1, h);
    OnePlace(o, 1);
  }

  lemma {:induction false} ServerCertificateAbsent(c: Conf, o: Options, h: Client)
    requires Ready(c, o, h) && h.state.ReadServerCertificate? && !h.cipher.certAuth
    ensures Good(c, o, h, DoReadServerCertificate(h), false)
  {
    hide At, PlaceAfter, Log, Records, OnlyBy, InboxFits;
    ServerCertificatePlace(o);
    OnePlace(o, 2);
  }

  lemma {:induction false} ServerCertificateWaits(c: Conf, o: Options, h: Client)
    requires Ready(c, o, h) && h.state.ReadServerCertificate? && h.inbox.None? && h.cipher.certAuth
    ensures Good(c, o, h, DoReadServerCertificate(h), false)
  {
    hide At, PlaceAfter, Log, Records, OnlyBy, InboxFits;
    NoPlace(o, 2);
  }

  lemma {:induction false} ServerCertificateTaken(c: Conf, o: Options, h: Client)
    requires Ready(c, o, h) && h.state.ReadServerCertificate? && h.inbox.Some? && h.cipher.certAuth
    ensures Good(c, o, h, DoReadServerCertificate(h), false)
  {
    hide At, PlaceAfter, Log, Records, OnlyBy, InboxFits;
    ServerCertificatePlace(o);
    Head(o, false, 2, h);
    OnePlace(o, 2);
  }

  lemma {:induction false} CertificateStatusAbsent(c: Conf, o: Options, h: Client)
    requires Ready(c, o, h) && h.state.ReadCertificateStatus? && !h.statusExpected
    ensures Good(c, o, h, DoReadCertificateStatus(h), false)
  {
    hide At, PlaceAfter, Log, Records, OnlyBy, InboxFits;
    CertificateStatusPlace(o);
    OnePlace(o, 3);
  }

  lemma {:induction false} CertificateStatusWaits(c: Conf, o: Options, h: Client)
    requires Ready(c, o, h) && h.state.ReadCertificateStatus? && h.inbox.None? && h.statusExpected
    ensures Good(c, o, h, DoReadCertificateStatus(h), false)
  {
    hide At, PlaceAfter, Log, Records, OnlyBy, InboxFits;
    NoPlace(o, 3);
  }

  lemma {:induction false} CertificateStatusTaken(c: Conf, o: Options, h: Client)
    requires Ready(c, o, h) && h.state.ReadCertificateStatus? && h.inbox.Some? && h.statusExpected
    ensures Good(c, o, h, DoReadCertificateStatus(h), false)
  {
    hide At, PlaceAfter, Log, Records, OnlyBy, InboxFits;
    CertificateStatusPlace(o);
    Head(o, false, 3, h);
    OnePlace(o, 3);
  }

  lemma {:induction false} VerifyServerCertificateWaits(c: Conf, o: Options, h: Client)
    requires Ready(c, o, h) && h.state.VerifyServerCertificate? && h.cipher.certAuth
    ensures Good(c, o, h, DoVerifyServerCertificate(h, true), true)
  {
    hide At, PlaceAfter, Log, Records, OnlyBy, InboxFits;
    NoPlace(o, 4);
  }

  lemma {:induction false} ServerCertificateVerified(c: Conf, o: Options, h: Client, retry: bool)
    requires Ready(c, o, h) && h.state.VerifyServerCertificate? && !(h.cipher.certAuth && retry)
    ensures Good(c, o, h, DoVerifyServerCertificate(h, retry), retry)
  {
    hide At, PlaceAfter, Log, Records, OnlyBy, InboxFits;
    NoPlace(o, 4);
  }

  lemma {:induction false} ServerKeyExchangeWaits(c: Conf, o: Options, h: Client)
    requires Ready(c, o, h) && h.state.ReadServerKeyExchange? && h.inbox.None?
    ensures Good(c, o, h, DoReadServerKeyExchange(h), false)
  {
    hide At, PlaceAfter, Log, Records, OnlyBy, InboxFits;
    NoPlace(o, 4);
  }

  lemma {:induction false} ServerKeyExchangeTaken(c: Conf, o: Options, h: Client)
    requires Ready(c, o, h) && h.state.ReadServerKeyExchange? && h.inbox.Some? && o.keyExchange
    ensures Good(c, o, h, DoReadServerKeyExchange(h), false)
  {
    hide At, PlaceAfter, Log, Records, OnlyBy, InboxFits;
    ServerKeyExchangePlace(o);
    Head(o, false, 4, h);
    OnePlace(o, 4);
  }

  lemma {:induction false} ServerKeyExchangeAbsent(c: Conf, o: Options, h: Client)
    requires Ready(c, o, h) && h.state.ReadServerKeyExchange? && h.inbox.Some? && !o.keyExchange
    ensures Good(c, o, h, DoReadServerKeyExchange(h), false)
  {
    hide At, PlaceAfter, Log, Records, OnlyBy, InboxFits;
    ServerKeyExchangePlace(o);
    Head(o, false, 4, h);
    OnePlace(o, 4);
    CertificateRequestPlace(o);
    Head(o, false, 5, h);
    OnePlace(o, 5);
    ServerHelloDonePlace(o);
    Head(o, false, 6, h);
    OnePlace(o, 6);
  }

  lemma {:induction false} CertificateRequestWaits(c: Conf, o: Options, h: Client)
    requires Ready(c, o, h) && h.state.ReadCertificateRequest? && h.inbox.None? && h.cipher.certAuth
    ensures Good(c, o, h, DoReadCertificateRequest(h), false)
  {
    hide At, PlaceAfter, Log, Records, OnlyBy, InboxFits;
    NoPlace(o, 5);
  }

  lemma {:induction false} NoCertificateRequest(c: Conf, o: Options, h: Client)
    requires Ready(c, o, h) && h.state.ReadCertificateRequest? && !h.cipher.certAuth
    ensures Good(c, o, h, DoReadCertificateRequest(h), false)
  {
    hide At, PlaceAfter, Log, Records, OnlyBy, InboxFits;
    CertificateRequestPlace(o);
    OnePlace(o, 5);
  }

  lemma {:induction false} CertificateRequestTaken(c: Conf, o: Options, h: Client)
    requires Ready(c, o, h) && h.state.ReadCertificateRequest? && h.inbox.Some? && h.cipher.certAuth && o.certRequest
    ensures Good(c, o, h, DoReadCertificateRequest(h), false)
  {
    hide At, PlaceAfter, Log, Records, OnlyBy, InboxFits;
    CertificateRequestPlace(o);
    Head(o, false, 5, h);
    OnePlace(o, 5);
  }

  lemma {:induction false} CertificateRequestAbsent(c: Conf, o: Options, h: Client)
    requires Ready(c, o, h) && h.state.ReadCertificateRequest? && h.inbox.Some? && h.cipher.certAuth && !o.certRequest
    ensures Good(c, o, h, DoReadCertificateRequest(h), false)
  {
    hide At, PlaceAfter, Log, Records, OnlyBy, InboxFits;
    CertificateRequestPlace(o);
    Head(o, false, 5, h);
    OnePlace(o, 5);
    ServerHelloDonePlace(o);
    Head(o, false, 6, h);
    OnePlace(o, 6);
  }

  lemma {:induction false} ServerHelloDoneWaits(c: Conf, o: Options, h: Client)
    requires Ready(c, o, h) && h.state.ReadServerHelloDone? && h.inbox.None?
    ensures Good(c, o, h, DoReadServerHelloDone(h), false)
  {
    hide At, PlaceAfter, Log, Records, OnlyBy, InboxFits;
    NoPlace(o, 6);
  }

  lemma {:induction false} ServerHelloDoneTaken(c: Conf, o: Options, h: Client)
    requires Ready(c, o, h) && h.state.ReadServerHelloDone? && h.inbox.Some?
    ensures Good(c, o, h, DoReadServerHelloDone(h), false)
  {
    hide At, PlaceAfter, Log, Records, OnlyBy, InboxFits;
    ServerHelloDonePlace(o);
    Head(o, false, 6, h);
    OnePlace(o, 6);
  }

  lemma {:induction false} NoClientCertificate(c: Conf, o: Options, h: Client, retry: bool)
    requires Ready(c, o, h) && h.state.SendClientCertificate? && !h.certRequest
    ensures Good(c, o, h, DoSendClientCertificate(c, h, retry), retry)
  {
    hide At, PlaceAfter, Log, Records, OnlyBy, InboxFits;
    ClientCertificatePlace(o);
    OnePlace(o, 7);
  }

  lemma {:induction false} ClientCertificateWaits(c: Conf, o: Options, h: Client)
    requires Ready(c, o, h) && h.state.SendClientCertificate? && h.certRequest && c.certCallback
    ensures Good(c, o, h, DoSendClientCertificate(c, h, true), true)
  {
    hide At, PlaceAfter, Log, Records, OnlyBy, InboxFits;
    NoPlace(o, 7);
  }

  lemma {:induction false} ClientCertificateSent(c: Conf, o: Options, h: Client, retry: bool)
    requires Ready(c, o, h) && h.state.SendClientCertificate? && h.certRequest && !(c.certCallback && retry) && c.hasCertificate
    ensures Good(c, o, h, DoSendClientCertificate(c, h, retry), retry)
  {
    hide At, PlaceAfter, Log, Records, OnlyBy, InboxFits;
    ClientCertificatePlace(o);
    OnePlace(o, 7);
  }

  lemma {:induction false} EmptyCertificateSent(c: Conf, o: Options, h: Client, retry: bool)
    requires Ready(c, o, h) && h.state.SendClientCertificate? && h.certRequest && !(c.certCallback && retry) && !c.hasCertificate
    ensures Good(c, o, h, DoSendClientCertificate(c, h, retry), retry)
  {
    hide At, PlaceAfter, Log, Records, OnlyBy, InboxFits;
    ClientCertificatePlace(o);
    OnePlace(o, 7);
  }

  lemma {:induction false} ClientKeyExchangeSent(c: Conf, o: Options, h: Client)
    requires Ready(c, o, h) && h.state.SendClientKeyExchange?
    ensures Good(c, o, h, DoSendClientKeyExchange(h), false)
  {
    hide At, PlaceAfter, Log, Records, OnlyBy, InboxFits;
    ClientKeyExchangePlace(o);
    OnePlace(o, 8);
  }

  lemma {:induction false} NoCertificateVerify(c: Conf, o: Options, h: Client, retry: bool)
    requires Ready(c, o, h) && h.state.SendClientCertificateVerify? && !(h.certRequest && c.hasCertificate)
    ensures Good(c, o, h, DoSendClientCertificateVerify(c, h, retry), retry)
  {
    hide At, PlaceAfter, Log, Records, OnlyBy, InboxFits;
    CertificateVerifyPlace(o);
    OnePlace(o, 9);
  }

  lemma {:induction false} CertificateVerifyWaits(c: Conf, o: Options, h: Client)
    requires Ready(c, o, h) && h.state.SendClientCertificateVerify? && h.certRequest && c.hasCertificate
    ensures Good(c, o, h, DoSendClientCertificateVerify(c, h, true), true)
  {
    hide At, PlaceAfter, Log, Records, OnlyBy, InboxFits;
    NoPlace(o, 9);
  }

  lemma {:induction false} CertificateVerifySent(c: Conf, o: Options, h: Client)
    requires Ready(c, o, h) && h.state.SendClientCertificateVerify? && h.certRequest && c.hasCertificate
    ensures Good(c, o, h, DoSendClientCertificateVerify(c, h, false), false)
  {
    hide At, PlaceAfter, Log, Records, OnlyBy, InboxFits;
    CertificateVerifyPlace(o);
    OnePlace(o, 9);
  }

  lemma {:induction false} FinishFlightResumed(c: Conf, o: Options, h: Client)
    requires Ready(c, o, h) && h.state.FinishFlight? && o.resumed
    ensures Good(c, o, h, DoFinishFlight(c, h), false)
  {
    hide At, PlaceAfter, Log, Records, OnlyBy, InboxFits;
    NoPlace(o, 9);
  }

  lemma {:induction false} FinishFlightFull(c: Conf, o: Options, h: Client)
    requires Ready(c, o, h) && h.state.FinishFlight? && !o.resumed
    ensures Good(c, o, h, DoFinishFlight(c, h), false)
  {
    hide At, PlaceAfter, Log, Records, OnlyBy, InboxFits;
    NoPlace(o, 14);
  }

  lemma {:induction false} SessionTicketAbsentResumed(c: Conf, o: Options, h: Client)
    requires Ready(c, o, h) && h.state.ReadSessionTicket? && !h.ticketExpected && o.resumed
    ensures Good(c, o, h, DoReadSessionTicket(h), false)
  {
    hide At, PlaceAfter, Log, Records, OnlyBy, InboxFits;
    ResumedTicketPlace(o);
    Head(o, false, 2, h);
    OnePlace(o, 2);
    ResumedServerCipherPlace(o);
    Head(o, false, 3, h);
    OnePlace(o, 3);
  }

  lemma {:induction false} SessionTicketAbsentFull(c: Conf, o: Options, h: Client)
    requires Ready(c, o, h) && h.state.ReadSessionTicket? && !h.ticketExpected && !o.resumed
    ensures Good(c, o, h, DoReadSessionTicket(h), false)
  {
    hide At, PlaceAfter, Log, Records, OnlyBy, InboxFits;
    TicketPlace(o);
    Head(o, false, 14, h);
    OnePlace(o, 14);
    ServerCipherPlace(o);
    Head(o, false, 15, h);
    OnePlace(o, 15);
  }

  lemma {:induction false} SessionTicketWaits(c: Conf, o: Options, h: Client)
    requires Ready(c, o, h) && h.state.ReadSessionTicket? && h.ticketExpected && h.inbox.None?
    ensures Good(c, o, h, DoReadSessionTicket(h), false)
  {
    hide At, PlaceAfter, Log, Records, OnlyBy, InboxFits;
    NoPlace(o, 2);
    NoPlace(o, 14);
  }

  lemma {:induction false} SessionTicketResumed(c: Conf, o: Options, h: Client)
    requires Ready(c, o, h) && h.state.ReadSessionTicket? && h.ticketExpected && h.inbox.Some? && o.resumed
    ensures Good(c, o, h, DoReadSessionTicket(h), false)
  {
    hide At, PlaceAfter, Log, Records, OnlyBy, InboxFits;
    ResumedTicketPlace(o);
    Head(o, false, 2, h);
    OnePlace(o, 2);
  }

  lemma {:induction false} SessionTicketFullInv(c: Conf, o: Options, h: Client)
    requires Ready(c, o, h) && h.state.ReadSessionTicket? && h.ticketExpected && h.inbox.Some? && !o.resumed
    ensures Inv(c, o, DoReadSessionTicket(h))
  {
    hide At, PlaceAfter, Log, Records, OnlyBy, InboxFits;
    TicketPlace(o);
    Head(o, false, 14, h);
    OnePlace(o, 14);
  }

  lemma {:induction false} SessionTicketFull(c: Conf, o: Options, h: Client)
    requires Ready(c, o, h) && h.state.ReadSessionTicket? && h.ticketExpected && h.inbox.Some? && !o.resumed
    ensures var h' := DoReadSessionTicket(h);
      Follows(o, false, PlaceOf(o.resumed, h), h, PlaceOf(o.resumed, h'), h') && Forward(h, h', false)
  {
    hide At, PlaceAfter, Log, Records, OnlyBy, InboxFits;
    TicketPlace(o);
    Head(o, false, 14, h);
    OnePlace(o, 14);
  }

  lemma {:induction false} ChangeCipherSpecFollows(c: Conf, o: Options, h: Client)
    requires Ready(c, o, h) && h.state.ProcessChangeCipherSpec?
    ensures Good(c, o, h, h.ChangeReadCipher(ReadServerFinished), false)
  {
    hide At, PlaceAfter, Log, Records, OnlyBy, InboxFits;
    NoPlace(o, 4);
    NoPlace(o, 16);
  }

  lemma {:induction false} ServerFinishedWaitsResumed(c: Conf, o: Options, h: Client)
    requires Ready(c, o, h) && h.state.ReadServerFinished? && h.inbox.None? && o.resumed
    ensures Good(c, o, h, DoReadServerFinished(h), false)
  {
    hide At, PlaceAfter, Log, Records, OnlyBy, InboxFits;
    NoPlace(o, 4);
  }

  lemma {:induction false} ServerFinishedWaitsFull(c: Conf, o: Options, h: Client)
    requires Ready(c, o, h) && h.state.ReadServerFinished? && h.inbox.None? && !o.resumed
    ensures Good(c, o, h, DoReadServerFinished(h), false)
  {
    hide At, PlaceAfter, Log, Records, OnlyBy, InboxFits;
    NoPlace(o, 16);
  }

  lemma {:induction false} ServerFinishedResumed(c: Conf, o: Options, h: Client)
    requires Ready(c, o, h) && h.state.ReadServerFinished? && h.inbox.Some? && o.resumed
    ensures Good(c, o, h, DoReadServerFinished(h), false)
  {
    hide At, PlaceAfter, Log, Records, OnlyBy, InboxFits;
    ResumedServerFinishedPlace(o);
    Head(o, false, 4, h);
    OnePlace(o, 4);
  }

  lemma {:induction false} ServerFinishedFullInv(c: Conf, o: Options, h: Client)
    requires Ready(c, o, h) && h.state.ReadServerFinished? && h.inbox.Some? && !o.resumed
    ensures Inv(c, o, DoReadServerFinished(h))
  {
    hide At, PlaceAfter, Log, Records, OnlyBy, InboxFits;
    ServerFinishedPlace(o);
    Head(o, false, 16, h);
    OnePlace(o, 16);
  }

  lemma {:induction false} ServerFinishedFull(c: Conf, o: Options, h: Client)
    requires Ready(c, o, h) && h.state.ReadServerFinished? && h.inbox.Some? && !o.resumed
    ensures var h' := DoReadServerFinished(h);
      Follows(o, false, PlaceOf(o.resumed, h), h, PlaceOf(o.resumed, h'), h') && Forward(h, h', false)
  {
    hide At, PlaceAfter, Log, Records, OnlyBy, InboxFits;
    ServerFinishedPlace(o);
    Head(o, false, 16, h);
    OnePlace(o, 16);
  }

  lemma {:induction false} FinishFollows(c: Conf, o: Options, h: Client)
    requires Ready(c, o, h) && h.state.FinishClientHandshake?
    ensures Good(c, o, h, h.GoTo(Done), false)
  {
    hide At, PlaceAfter, Log, Records, OnlyBy, InboxFits;
    NoPlace(o, 9);
    NoPlace(o, 17);
  }

  // The last flight: ChangeCipherSpec, what was negotiated to come under the new cipher, and
  // Finished over all of it.
  function LogWithExtras(log: seq<Msg>, npn: bool, channelId: bool): seq<Msg> {
    Push(Push(log, npn, NextProto), channelId, ChannelId)
  }

  function LastFlight(npn: bool, channelId: bool, over: seq<Msg>): seq<Rec> {
    Push(Push([Rec(0, ChangeCipherSpec)], npn, Rec(1, Message(NextProto))), channelId, Rec(1, Message(ChannelId)))
    + [Rec(1, Message(Finished(false, over)))]
  }

  lemma LastFlightPlaces(o: Options)
    ensures var a := if o.resumed then 5 else 10;
      var over := LogWithExtras(Log(o, a), o.npn, o.channelId);
      && OnlyBy(o, false, a, a + 4)
      && Log(o, a + 4) == over + [Finished(false, over)]
      && Records(o, a, a + 4) == LastFlight(o.npn, o.channelId, over)
  {
    hide At, Log, Records, OnlyBy;
    var a := if o.resumed then 5 else 10;
    OnePlace(o, a);
    OnePlace(o, a + 1);
    OnePlace(o, a + 2);
    OnePlace(o, a + 3);
    LastPlace(o, a, a + 1);
    LastPlace(o, a, a + 2);
    LastPlace(o, a, a + 3);
  }

  lemma ExtrasSent(h: Client)
    ensures h.transcript.hash.Some? ==>
      var h' := SendExtras(h);
      && h' == h.(flight := h'.flight, transcript := h'.transcript)
      && h'.transcript.hash == Some(LogWithExtras(h.transcript.hash.value, h.npn, h.channelId))
      && (h.transcript.buffer.None? ==> h'.transcript.buffer.None?)
      && (h.transcript.buffer == h.transcript.hash ==> h'.transcript.buffer == h'.transcript.hash)
      && h'.flight == Push(Push(h.flight, h.npn, Rec(h.writeEpoch, Message(NextProto))),
                           h.channelId, Rec(h.writeEpoch, Message(ChannelId)))
  {}

  lemma LastFlightSent(h: Client)
    ensures h.transcript.hash.Some? && h.writeEpoch == 0 ==>
      var over := LogWithExtras(h.transcript.hash.value, h.npn, h.channelId);
      var h' := DoSendClientFinished(h, false);
      && h' == h.(state := FinishFlight, wait := Flush, writeEpoch := 1, flight := h'.flight, transcript := h'.transcript)
      && h'.transcript.hash == Some(over + [Finished(false, over)])
      && (h.transcript.buffer.None? ==> h'.transcript.buffer.None?)
      && (h.transcript.buffer == h.transcript.hash ==> h'.transcript.buffer == h'.transcript.hash)
      && h'.flight == h.flight + LastFlight(h.npn, h.channelId, over)
  {
    hide SendExtras, Push;
    ExtrasSent(h.AddChangeCipherSpec());
    PushedAtOnce(h.flight, Rec(0, ChangeCipherSpec), h.npn, Rec(1, Message(NextProto)),
                 h.channelId, Rec(1, Message(ChannelId)),
                 Rec(1, Message(Finished(false, LogWithExtras(
                   if h.transcript.hash.Some? then h.transcript.hash.value else [], h.npn, h.channelId)))));
  }

  lemma {:induction false} LastFlightFull(c: Conf, o: Options, h: Client)
    requires Ready(c, o, h) && h.state.SendClientFinished? && !o.resumed
    ensures Good(c, o, h, DoSendClientFinished(h, false), false)
  {
    hide At, Log, Records, OnlyBy, InboxFits, DoSendClientFinished, LogWithExtras, LastFlight;
    LastFlightPlaces(o);
    LastFlightSent(h);
  }

  lemma {:induction false} LastFlightResumed(c: Conf, o: Options, h: Client)
    requires Ready(c, o, h) && h.state.SendClientFinished? && o.resumed
    ensures Good(c, o, h, DoSendClientFinished(h, false), false)
  {
    hide At, Log, Records, OnlyBy, InboxFits, DoSendClientFinished, LogWithExtras, LastFlight;
    LastFlightPlaces(o);
    LastFlightSent(h);
  }

  lemma {:induction false} LastFlightWaits(c: Conf, o: Options, h: Client)
    requires Ready(c, o, h) && h.state.SendClientFinished? && h.channelId
    ensures Good(c, o, h, DoSendClientFinished(h, true), true)
  {
    hide At, Log, Records, OnlyBy, InboxFits;
    NoPlace(o, 5);
    NoPlace(o, 10);
  }

  lemma {:induction false} FirstStatesFollow(c: Conf, o: Options, h: Client, retry: bool)
    requires Ready(c, o, h)
    requires h.state.StartConnect? || h.state.EnterEarlyData? || h.state.ReadServerHello?
      || h.state.ReadServerCertificate? || h.state.ReadCertificateStatus? || h.state.VerifyServerCertificate?
    ensures Good(c, o, h, Do(c, h, retry), retry)
  {
    hide Ready, Inv, Follows, Forward;
    hide DoStartConnect, DoEnterEarlyData, DoReadServerHello, DoReadServerCertificate, DoReadCertificateStatus;
    hide DoReadServerKeyExchange, DoReadCertificateRequest, DoReadServerHelloDone, DoSendClientKeyExchange;
    hide DoFinishFlight, DoReadSessionTicket, DoReadServerFinished, DoVerifyServerCertificate;
    MoreTime(h, Do(c, h, retry), retry);
    if h.state.StartConnect? {
      StartConnectFollows(c, o, h);
    } else if h.state.EnterEarlyData? {
      EnterEarlyDataFollows(c, o, h);
    } else if h.state.ReadServerHello? {
      if h.inbox.None? { ServerHelloWaits(c, o, h); }
      else if o.resumed { ServerHelloResumesInv(c, o, h); ServerHelloResumes(c, o, h); }
      else if o.cipher.certAuth { ServerHelloWithCertificatesInv(c, o, h); ServerHelloWithCertificates(c, o, h); }
      else { ServerHelloWithoutCertificatesInv(c, o, h); ServerHelloWithoutCertificates(c, o, h); }
    } else if h.state.ReadServerCertificate? {
      if !h.cipher.certAuth { ServerCertificateAbsent(c, o, h); }
      else if h.inbox.None? { ServerCertificateWaits(c, o, h); }
      else { ServerCertificateTaken(c, o, h); }
    } else if h.state.ReadCertificateStatus? {
      if !h.statusExpected { CertificateStatusAbsent(c, o, h); }
      else if h.inbox.None? { CertificateStatusWaits(c, o, h); }
      else { CertificateStatusTaken(c, o, h); }
    } else {
      if h.cipher.certAuth && retry { VerifyServerCertificateWaits(c, o, h); }
      else { ServerCertificateVerified(c, o, h, retry); }
    }
  }

  lemma {:induction false} MiddleStatesFollow(c: Conf, o: Options, h: Client, retry: bool)
    requires Ready(c, o, h)
    requires h.state.ReadServerKeyExchange? || h.state.ReadCertificateRequest? || h.state.ReadServerHelloDone?
      || h.state.SendClientCertificate? || h.state.SendClientKeyExchange? || h.state.SendClientCertificateVerify?
    ensures Good(c, o, h, Do(c, h, retry), retry)
  {
    hide Ready, Inv, Follows, Forward;
    hide DoStartConnect, DoEnterEarlyData, DoReadServerHello, DoReadServerCertificate, DoReadCertificateStatus;
    hide DoReadServerKeyExchange, DoReadCertificateRequest, DoReadServerHelloDone, DoSendClientKeyExchange;
    hide DoFinishFlight, DoReadSessionTicket, DoReadServerFinished, DoVerifyServerCertificate;
    MoreTime(h, Do(c, h, retry), retry);
    if h.state.ReadServerKeyExchange? {
      if h.inbox.None? { ServerKeyExchangeWaits(c, o, h); }
      else if o.keyExchange { ServerKeyExchangeTaken(c, o, h); }
      else { ServerKeyExchangeAbsent(c, o, h); }
    } else if h.state.ReadCertificateRequest? {
      if !h.cipher.certAuth { NoCertificateRequest(c, o, h); }
      else if h.inbox.None? { CertificateRequestWaits(c, o, h); }
      else if o.certRequest { CertificateRequestTaken(c, o, h); }
      else { CertificateRequestAbsent(c, o, h); }
    } else if h.state.ReadServerHelloDone? {
      if h.inbox.None? { ServerHelloDoneWaits(c, o, h); } else { ServerHelloDoneTaken(c, o, h); }
    } else if h.state.SendClientCertificate? {
      if !h.certRequest { NoClientCertificate(c, o, h, retry); }
      else if c.certCallback && retry { ClientCertificateWaits(c, o, h); }
      else if c.hasCertificate { ClientCertificateSent(c, o, h, retry); }
      else { EmptyCertificateSent(c, o, h, retry); }
    } else if h.state.SendClientKeyExchange? {
      ClientKeyExchangeSent(c, o, h);
    } else {
      if !(h.certRequest && c.hasCertificate) { NoCertificateVerify(c, o, h, retry); }
      else if retry { CertificateVerifyWaits(c, o, h); }
      else { CertificateVerifySent(c, o, h); }
    }
  }

  lemma {:induction false} LastStatesFollow(c: Conf, o: Options, h: Client, retry: bool)
    requires Ready(c, o, h)
    requires h.state.SendClientFinished? || h.state.FinishFlight? || h.state.ReadSessionTicket?
      || h.state.ProcessChangeCipherSpec? || h.state.ReadServerFinished? || h.state.FinishClientHandshake?
    ensures Good(c, o, h, Do(c, h, retry), retry)
  {
    hide Ready, Inv, Follows, Forward;
    hide DoStartConnect, DoEnterEarlyData, DoReadServerHello, DoReadServerCertificate, DoReadCertificateStatus;
    hide DoReadServerKeyExchange, DoReadCertificateRequest, DoReadServerHelloDone, DoSendClientKeyExchange;
    hide DoFinishFlight, DoReadSessionTicket, DoReadServerFinished, DoVerifyServerCertificate;
    MoreTime(h, Do(c, h, retry), retry);
    if h.state.SendClientFinished? {
      if retry && h.channelId { LastFlightWaits(c, o, h); }
      else if o.resumed { LastFlightResumed(c, o, h); }
      else { LastFlightFull(c, o, h); }
    } else if h.state.FinishFlight? {
      if o.resumed { FinishFlightResumed(c, o, h); } else { FinishFlightFull(c, o, h); }
    } else if h.state.ReadSessionTicket? {
      if !h.ticketExpected {
        if o.resumed { SessionTicketAbsentResumed(c, o, h); } else { SessionTicketAbsentFull(c, o, h); }
      }
      else if h.inbox.None? { SessionTicketWaits(c, o, h); }
      else if o.resumed { SessionTicketResumed(c, o, h); }
      else { SessionTicketFullInv(c, o, h); SessionTicketFull(c, o, h); }
    } else if h.state.ProcessChangeCipherSpec? {
      ChangeCipherSpecFollows(c, o, h);
    } else if h.state.ReadServerFinished? {
      if h.inbox.None? {
        if o.resumed { ServerFinishedWaitsResumed(c, o, h); } else { ServerFinishedWaitsFull(c, o, h); }
      } else if o.resumed { ServerFinishedResumed(c, o, h); }
      else { ServerFinishedFullInv(c, o, h); ServerFinishedFull(c, o, h); }
    } else {
      FinishFollows(c, o, h);
    }
  }

  // Every turn of ssl_client_handshake.
  lemma {:induction false} ClientFollows(c: Conf, o: Options, h: Client, retry: bool)
    requires Ready(c, o, h) && !h.state.Done?
    ensures Good(c, o, h, Do(c, h, retry), retry)
  {
    hide Ready, Good, Do;
    match h.state
    case StartConnect => FirstStatesFollow(c, o, h, retry);
    case EnterEarlyData => FirstStatesFollow(c, o, h, retry);
    case ReadServerHello => FirstStatesFollow(c, o, h, retry);
    case ReadServerCertificate => FirstStatesFollow(c, o, h, retry);
    case ReadCertificateStatus => FirstStatesFollow(c, o, h, retry);
    case VerifyServerCertificate => FirstStatesFollow(c, o, h, retry);
    case ReadServerKeyExchange => MiddleStatesFollow(c, o, h, retry);
    case ReadCertificateRequest => MiddleStatesFollow(c, o, h, retry);
    case ReadServerHelloDone => MiddleStatesFollow(c, o, h, retry);
    case SendClientCertificate => MiddleStatesFollow(c, o, h, retry);
    case SendClientKeyExchange => MiddleStatesFollow(c, o, h, retry);
    case SendClientCertificateVerify => MiddleStatesFollow(c, o, h, retry);
    case SendClientFinished => LastStatesFollow(c, o, h, retry);
    case FinishFlight => LastStatesFollow(c, o, h, retry);
    case ReadSessionTicket => LastStatesFollow(c, o, h, retry);
    case ProcessChangeCipherSpec => LastStatesFollow(c, o, h, retry);
    case ReadServerFinished => LastStatesFollow(c, o, h, retry);
    case FinishClientHandshake => LastStatesFollow(c, o, h, retry);
    case Done =>
  }

}
