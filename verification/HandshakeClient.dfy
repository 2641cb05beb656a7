/** The client state machine of handshake_client.cc, TLS 1.0 to 1.2. */
module HandshakeClient {
  import opened Bytes
  import opened Handshake

  datatype State =
    | StartConnect
    | EnterEarlyData
    | ReadServerHello
    | ReadServerCertificate
    | ReadCertificateStatus
    | VerifyServerCertificate
    | ReadServerKeyExchange
    | ReadCertificateRequest
    | ReadServerHelloDone
    | SendClientCertificate
    | SendClientKeyExchange
    | SendClientCertificateVerify
    | SendClientFinished
    | FinishFlight
    | ReadSessionTicket
    | ProcessChangeCipherSpec
    | ReadServerFinished
    | FinishClientHandshake
    | Done

  type Client = Hs<State>

  // What the client offers, whether it has a certificate once asked for one, whether a
  // callback may delay that, and whether it may write before the handshake is complete.
  datatype Conf = Conf(offer: Offer, hasCertificate: bool, certCallback: bool, falseStart: bool)

  function Start(): Client {
    Hs(StartConnect, Ok, false, Cipher(true, Rsa), false, false, false, false, false, false, false, false,
       Transcript(None, Some([])), [], None, 0, 0)
  }

  function DoStartConnect(c: Conf, h: Client): Client {
    h.Add(ClientHello(c.offer)).(state := EnterEarlyData, wait := Flush)
  }

  // do_enter_early_data, without early data
  function DoEnterEarlyData(h: Client): Client {
    h.GoTo(ReadServerHello)
  }

  // An answer may only take up what was offered.
  predicate Acceptable(offer: Offer, a: Answer) {
    && (a.resumed ==> offer.session)
    && (a.ticket ==> offer.tickets)
    && (a.status ==> offer.status && a.cipher.certAuth)
    && (a.npn ==> offer.npn)
    && (a.channelId ==> offer.channelId)
  }

  function DoReadServerHello(c: Conf, h: Client): Client {
    if h.inbox.None? then h.Stop(ReadMessage)
    else if !h.inbox.value.ServerHello? || !Acceptable(c.offer, h.inbox.value.answer) || h.transcript.buffer.None?
    then h.Stop(Error)
    else
      var a := h.inbox.value.answer;
      var h1 := h.(transcript := h.transcript.InitHash(), resumed := a.resumed, cipher := a.cipher,
                   ticketExpected := a.ticket, statusExpected := a.status, npn := a.npn, channelId := a.channelId);
      var h2 := h1.TakeMessage();
      var h3 := if a.resumed || !a.cipher.certAuth then h2.FreeBuffer() else h2;
      h3.GoTo(if a.resumed then ReadSessionTicket else ReadServerCertificate)
  }

  function DoReadServerCertificate(h: Client): Client {
    if !h.cipher.certAuth then h.GoTo(ReadCertificateStatus)
    else if h.inbox.None? then h.Stop(ReadMessage)
    else if h.inbox.value != Certificate(true) then h.Stop(Error)
    else h.TakeMessage().GoTo(ReadCertificateStatus)
  }

  // A server may announce a CertificateStatus and then not send one.
  function DoReadCertificateStatus(h: Client): Client {
    if !h.statusExpected then h.GoTo(VerifyServerCertificate)
    else if h.inbox.None? then h.Stop(ReadMessage)
    else if !h.inbox.value.CertificateStatus? then h.GoTo(VerifyServerCertificate)
    else h.TakeMessage().GoTo(VerifyServerCertificate)
  }

  function DoVerifyServerCertificate(h: Client, retry: bool): Client {
    if h.cipher.certAuth && retry then h.Stop(Paused) else h.GoTo(ReadServerKeyExchange)
  }

  function DoReadServerKeyExchange(h: Client): Client {
    if h.inbox.None? then h.Stop(ReadMessage)
    else if !h.inbox.value.ServerKeyExchange? then
      if h.cipher.kex.Ecdhe? then h.Stop(Error) else h.GoTo(ReadCertificateRequest)
    else if h.cipher.kex.Rsa? then h.Stop(Error)
    else h.TakeMessage().GoTo(ReadCertificateRequest)
  }

  function DoReadCertificateRequest(h: Client): Client {
    if !h.cipher.certAuth then h.GoTo(ReadServerHelloDone)
    else if h.inbox.None? then h.Stop(ReadMessage)
    else if h.inbox.value.ServerHelloDone? then h.FreeBuffer().GoTo(ReadServerHelloDone)
    else if !h.inbox.value.CertificateRequest? then h.Stop(Error)
    else h.TakeMessage().(certRequest := true).GoTo(ReadServerHelloDone)
  }

  function DoReadServerHelloDone(h: Client): Client {
    if h.inbox.None? then h.Stop(ReadMessage)
    else if !h.inbox.value.ServerHelloDone? then h.Stop(Error)
    else h.TakeMessage().GoTo(SendClientCertificate)
  }

  function DoSendClientCertificate(c: Conf, h: Client, retry: bool): Client {
    if !h.certRequest then h.GoTo(SendClientKeyExchange)
    else if c.certCallback && retry then h.Stop(Paused)
    else (if c.hasCertificate then h else h.FreeBuffer()).Add(Certificate(c.hasCertificate)).GoTo(SendClientKeyExchange)
  }

  function DoSendClientKeyExchange(h: Client): Client {
    h.Add(ClientKeyExchange).GoTo(SendClientCertificateVerify)
  }

  function DoSendClientCertificateVerify(c: Conf, h: Client, retry: bool): Client {
    if !h.certRequest || !c.hasCertificate then h.GoTo(SendClientFinished)
    else if h.transcript.buffer.None? then h.Stop(Error)
    else if retry then h.Stop(Paused)
    else h.Add(CertificateVerify(h.transcript.buffer.value)).FreeBuffer().GoTo(SendClientFinished)
  }

  // Channel ID is resolved before anything that cannot be done twice.
  function DoSendClientFinished(h: Client, retry: bool): Client {
    if h.channelId && retry then h.Stop(Paused)
    else if h.transcript.hash.None? then h.Stop(Error)
    else
      SendExtras(h.AddChangeCipherSpec()).SendFinished(false).(state := FinishFlight, wait := Flush)
  }

  // NextProto and ChannelID, where they were negotiated
  function SendExtras(h: Client): (h': Client)
    ensures h'.transcript.hash.Some? == h.transcript.hash.Some?
  {
    var h1 := if h.npn then h.Add(NextProto) else h;
    if h.channelId then h1.Add(ChannelId) else h1
  }

  function DoFinishFlight(c: Conf, h: Client): Client {
    if h.resumed then h.GoTo(FinishClientHandshake)
    else h.GoTo(ReadSessionTicket).Stop(if c.falseStart then Paused else Ok)
  }

  function DoReadSessionTicket(h: Client): Client {
    if !h.ticketExpected then h.(state := ProcessChangeCipherSpec, wait := ReadChangeCipherSpec)
    else if h.inbox.None? then h.Stop(ReadMessage)
    else if !h.inbox.value.NewSessionTicket? then h.Stop(Error)
    else
      h.TakeMessage().(ticketExpected := !h.inbox.value.empty, state := ProcessChangeCipherSpec,
                       wait := ReadChangeCipherSpec)
  }

  function DoReadServerFinished(h: Client): Client {
    if h.transcript.hash.None? then h.Stop(Error)
    else h.GetFinished(true, if h.resumed then SendClientFinished else FinishClientHandshake)
  }

  // One turn of the loop of ssl_client_handshake.
  function Do(c: Conf, h: Client, retry: bool): Client {
    match h.state
    case StartConnect => DoStartConnect(c, h)
    case EnterEarlyData => DoEnterEarlyData(h)
    case ReadServerHello => DoReadServerHello(c, h)
    case ReadServerCertificate => DoReadServerCertificate(h)
    case ReadCertificateStatus => DoReadCertificateStatus(h)
    case VerifyServerCertificate => DoVerifyServerCertificate(h, retry)
    case ReadServerKeyExchange => DoReadServerKeyExchange(h)
    case ReadCertificateRequest => DoReadCertificateRequest(h)
    case ReadServerHelloDone => DoReadServerHelloDone(h)
    case SendClientCertificate => DoSendClientCertificate(c, h, retry)
    case SendClientKeyExchange => DoSendClientKeyExchange(h)
    case SendClientCertificateVerify => DoSendClientCertificateVerify(c, h, retry)
    case SendClientFinished => DoSendClientFinished(h, retry)
    case FinishFlight => DoFinishFlight(c, h)
    case ReadSessionTicket => DoReadSessionTicket(h)
    case ProcessChangeCipherSpec => h.ChangeReadCipher(ReadServerFinished)
    case ReadServerFinished => DoReadServerFinished(h)
    case FinishClientHandshake => h.GoTo(Done)
    case Done => h
  }

  // A state that waits for the application has not done anything yet: trying again later
  // is the same as not having tried.
  lemma RetryChangesNothing(c: Conf, h: Client)
    ensures Do(c, h, true) == h.Stop(Paused) || Do(c, h, true) == Do(c, h, false)
  {}
}
