/** The server state machine of handshake_server.cc, TLS 1.0 to 1.2. */
module HandshakeServer {
  import opened Bytes
  import opened Handshake

  datatype State =
    | StartAccept
    | ReadClientHello
    | SelectCertificate
    | SelectParameters
    | SendServerHello
    | SendServerCertificate
    | SendServerKeyExchange
    | SendServerHelloDone
    | ReadClientCertificate
    | VerifyClientCertificate
    | ReadClientKeyExchange
    | ReadClientCertificateVerify
    | ReadChangeCipherSpec
    | ProcessChangeCipherSpec
    | ReadNextProto
    | ReadChannelId
    | ReadClientFinished
    | SendServerFinished
    | FinishServerHandshake
    | Done

  type Server = Hs<State>

  // The cipher it will choose, whether it finds a session the client offers and may resume
  // it, its ticket settings, and the features it has switched on.
  datatype Conf = Conf(
    cipher: Cipher,
    findsSession: bool,
    sessionHasHandshakeHash: bool,
    tickets: bool,
    renewTicket: bool,
    emptyTicket: bool,
    ocspResponse: bool,
    npnCallback: bool,
    npnAdvertises: bool,
    alpnCallback: bool,
    channelIdEnabled: bool,
    verifyPeer: bool,
    verifyPeerIfNoObc: bool,
    failIfNoPeerCert: bool,
    pskHint: bool,
    certCallback: bool)

  function Start(): Server {
    Hs(StartAccept, Ok, false, Cipher(true, Rsa), false, false, false, false, false, false, false, false,
       Transcript(None, Some([])), [], None, 0, 0)
  }

  function DoReadClientHello(c: Conf, h: Server, retry: bool): Server {
    if h.inbox.None? then h.Stop(ReadMessage)
    else if !h.inbox.value.ClientHello? then h.Stop(Error)
    else if retry then h.Stop(Paused)
    else
      var offer := h.inbox.value.offer;
      h.(channelId := offer.channelId && c.channelIdEnabled, npn := offer.npn && c.npnCallback,
         statusRequested := offer.status).GoTo(SelectCertificate)
  }

  function DoSelectCertificate(c: Conf, h: Server, retry: bool): Server {
    if h.inbox.None? then h.Stop(ReadMessage)
    else if c.certCallback && retry then h.Stop(Paused)
    else h.(cipher := c.cipher).GoTo(SelectParameters)
  }

  function DoSelectParameters(c: Conf, h: Server, retry: bool): Server {
    if h.inbox.None? then h.Stop(ReadMessage)
    else if !h.inbox.value.ClientHello? || h.transcript.buffer.None? then h.Stop(Error)
    else if retry then h.Stop(Paused)
    else
      var offer := h.inbox.value.offer;
      var resumed := offer.session && c.findsSession;
      var ticketsSupported := c.tickets && offer.tickets;
      var certRequest :=
        !resumed && c.verifyPeer && !(c.verifyPeerIfNoObc && h.channelId) && h.cipher.certAuth;
      var h1 := h.(resumed := resumed, certRequest := certRequest,
                   ticketExpected := ticketsSupported && (resumed ==> c.renewTicket),
                   npn := h.npn && !(offer.alpn && c.alpnCallback),
                   transcript := h.transcript.InitHash());
      var h2 := h1.TakeMessage();
      (if certRequest then h2 else h2.FreeBuffer()).GoTo(SendServerHello)
  }

  // do_send_server_hello, with the extensions it adds
  function DoSendServerHello(c: Conf, h: Server): Server {
    var h1 := h.(channelId := h.channelId && h.cipher.kex.Ecdhe? && (h.resumed ==> c.sessionHasHandshakeHash),
                 npn := h.npn && c.npnAdvertises,
                 statusExpected := h.statusRequested && c.ocspResponse && !h.resumed && h.cipher.certAuth);
    h1.Add(ServerHello(Answer(h1.resumed, h1.cipher, h1.ticketExpected, h1.statusExpected, h1.npn, h1.channelId)))
      .GoTo(if h.resumed then SendServerFinished else SendServerCertificate)
  }

  function DoSendServerCertificate(c: Conf, h: Server): Server {
    var h1 := if h.cipher.certAuth then h.Add(Certificate(true)) else h;
    var h2 := if h.cipher.certAuth && h.statusExpected then h1.Add(CertificateStatus) else h1;
    h2.(serverParams := h.cipher.kex.Ecdhe? || (!h.cipher.certAuth && c.pskHint)).GoTo(SendServerKeyExchange)
  }

  function DoSendServerKeyExchange(h: Server, retry: bool): Server {
    if !h.serverParams then h.GoTo(SendServerHelloDone)
    else if h.cipher.certAuth && retry then h.Stop(Paused)
    else h.Add(ServerKeyExchange).(serverParams := false).GoTo(SendServerHelloDone)
  }

  function DoSendServerHelloDone(h: Server): Server {
    (if h.certRequest then h.Add(CertificateRequest) else h).Add(ServerHelloDone)
      .(state := ReadClientCertificate, wait := Flush)
  }

  function DoReadClientCertificate(c: Conf, h: Server): Server {
    if !h.certRequest then h.GoTo(VerifyClientCertificate)
    else if h.inbox.None? then h.Stop(ReadMessage)
    else if !h.inbox.value.Certificate? then h.Stop(Error)
    else
      var nonEmpty := h.inbox.value.nonEmpty;
      if !nonEmpty && c.failIfNoPeerCert then h.Stop(Error)
      else
        var h1 := h.TakeMessage().(peerCert := nonEmpty);
        (if nonEmpty then h1 else h1.FreeBuffer()).GoTo(VerifyClientCertificate)
  }

  function DoVerifyClientCertificate(h: Server, retry: bool): Server {
    if h.peerCert && retry then h.Stop(Paused) else h.GoTo(ReadClientKeyExchange)
  }

  function DoReadClientKeyExchange(h: Server, retry: bool): Server {
    if h.inbox.None? then h.Stop(ReadMessage)
    else if !h.inbox.value.ClientKeyExchange? then h.Stop(Error)
    else if h.cipher.kex.Rsa? && retry then h.Stop(Paused)
    else h.TakeMessage().GoTo(ReadClientCertificateVerify)
  }

  // The signature is checked against the raw transcript without this message.
  function DoReadClientCertificateVerify(h: Server): Server {
    if !h.peerCert then h.FreeBuffer().GoTo(State.ReadChangeCipherSpec)
    else if h.inbox.None? then h.Stop(ReadMessage)
    else if h.transcript.buffer.None? || h.inbox.value != CertificateVerify(h.transcript.buffer.value) then h.Stop(Error)
    else h.FreeBuffer().TakeMessage().GoTo(State.ReadChangeCipherSpec)
  }

  function DoReadChangeCipherSpec(h: Server): Server {
    h.(state := ProcessChangeCipherSpec, wait := Wait.ReadChangeCipherSpec)
  }

  function DoReadNextProto(h: Server): Server {
    if !h.npn then h.GoTo(ReadChannelId)
    else if h.inbox.None? then h.Stop(ReadMessage)
    else if !h.inbox.value.NextProto? then h.Stop(Error)
    else h.TakeMessage().GoTo(ReadChannelId)
  }

  function DoReadChannelId(h: Server): Server {
    if !h.channelId then h.GoTo(ReadClientFinished)
    else if h.inbox.None? then h.Stop(ReadMessage)
    else if !h.inbox.value.ChannelId? then h.Stop(Error)
    else h.TakeMessage().GoTo(ReadClientFinished)
  }

  function DoReadClientFinished(h: Server): Server {
    if h.transcript.hash.None? then h.Stop(Error)
    else h.GetFinished(false, if h.resumed then FinishServerHandshake else SendServerFinished)
  }

  function DoSendServerFinished(c: Conf, h: Server): Server {
    if h.transcript.hash.None? then h.Stop(Error)
    else
      SendTicket(c, h).AddChangeCipherSpec().SendFinished(true)
        .(state := if h.resumed then State.ReadChangeCipherSpec else FinishServerHandshake, wait := Flush)
  }

  function SendTicket(c: Conf, h: Server): (h': Server)
    ensures h'.transcript.hash.Some? == h.transcript.hash.Some?
  {
    if h.ticketExpected then h.Add(NewSessionTicket(c.emptyTicket)) else h
  }

  // One turn of the loop of ssl_server_handshake.
  function Do(c: Conf, h: Server, retry: bool): Server {
    match h.state
    case StartAccept => h.GoTo(ReadClientHello)
    case ReadClientHello => DoReadClientHello(c, h, retry)
    case SelectCertificate => DoSelectCertificate(c, h, retry)
    case SelectParameters => DoSelectParameters(c, h, retry)
    case SendServerHello => DoSendServerHello(c, h)
    case SendServerCertificate => DoSendServerCertificate(c, h)
    case SendServerKeyExchange => DoSendServerKeyExchange(h, retry)
    case SendServerHelloDone => DoSendServerHelloDone(h)
    case ReadClientCertificate => DoReadClientCertificate(c, h)
    case VerifyClientCertificate => DoVerifyClientCertificate(h, retry)
    case ReadClientKeyExchange => DoReadClientKeyExchange(h, retry)
    case ReadClientCertificateVerify => DoReadClientCertificateVerify(h)
    case ReadChangeCipherSpec => DoReadChangeCipherSpec(h)
    case ProcessChangeCipherSpec => h.ChangeReadCipher(ReadNextProto)
    case ReadNextProto => DoReadNextProto(h)
    case ReadChannelId => DoReadChannelId(h)
    case ReadClientFinished => DoReadClientFinished(h)
    case SendServerFinished => DoSendServerFinished(c, h)
    case FinishServerHandshake => h.GoTo(Done)
    case Done => h
  }

  // A state that waits for the application has not done anything yet.
  lemma RetryChangesNothing(c: Conf, h: Server)
    ensures Do(c, h, true) == h.Stop(Paused) || Do(c, h, true) == Do(c, h, false)
  {}
}
