/** Where in the conversation the client is, and what holds in each of its states. */
module HandshakeClientStates {
  import opened HandshakeScript
  import opened HandshakeFollow
  import opened HandshakeClient

  // How far in the conversation the client is.
  function PlaceOf(resumed: bool, h: Client): (p: nat)
    ensures p <= if resumed then 9 else 17
  {
    match h.state
    case StartConnect => 0
    case EnterEarlyData => 1
    case ReadServerHello => 1
    case ReadServerCertificate => 2
    case ReadCertificateStatus => 3
    case VerifyServerCertificate => 4
    case ReadServerKeyExchange => 4
    case ReadCertificateRequest => 5
    case ReadServerHelloDone => 6
    case SendClientCertificate => 7
    case SendClientKeyExchange => 8
    case SendClientCertificateVerify => 9
    case SendClientFinished => if resumed then 5 else 10
    case FinishFlight => if resumed then 9 else 14
    case ReadSessionTicket => if resumed then 2 else 14
    case ProcessChangeCipherSpec => (if resumed then 3 else 15) + if h.wait.ReadChangeCipherSpec? then 0 else 1
    case ReadServerFinished => if resumed then 4 else 16
    case FinishClientHandshake => if resumed then 9 else 17
    case Done => if resumed then 9 else 17
  }

  // The states only a full handshake passes through.
  predicate FullOnly(s: State) {
    s.ReadServerCertificate? || s.ReadCertificateStatus? || s.VerifyServerCertificate? || s.ReadServerKeyExchange?
    || s.ReadCertificateRequest? || s.ReadServerHelloDone? || s.SendClientCertificate? || s.SendClientKeyExchange?
    || s.SendClientCertificateVerify?
  }

  // The flight is being built.
  predicate Sending(s: State) {
    s.SendClientCertificate? || s.SendClientKeyExchange? || s.SendClientCertificateVerify? || s.SendClientFinished?
  }

  // The states that need a message of the server before they can do anything.
  predicate NeedsMessage(h: Client) {
    || h.state.ReadServerHello?
    || (h.state.ReadServerCertificate? && h.cipher.certAuth)
    || (h.state.ReadCertificateStatus? && h.statusExpected)
    || h.state.ReadServerKeyExchange?
    || (h.state.ReadCertificateRequest? && h.cipher.certAuth)
    || h.state.ReadServerHelloDone?
    || (h.state.ReadSessionTicket? && h.ticketExpected)
    || h.state.ReadServerFinished?
  }

  predicate WaitFits(h: Client) {
    && !h.wait.Error?
    && (h.wait.Flush? ==> h.state.EnterEarlyData? || h.state.FinishFlight?)
    && (h.wait.ReadMessage? ==> NeedsMessage(h) && h.inbox.None?)
    && (h.wait.ReadChangeCipherSpec? ==> h.state.ProcessChangeCipherSpec?)
    && (h.state.ProcessChangeCipherSpec? ==> h.inbox.None? && (h.wait.Ok? || h.wait.ReadChangeCipherSpec?))
    && (!h.wait.Flush? && !Sending(h.state) ==> h.flight == [])
  }

  // What the client has learnt from ServerHello and CertificateRequest.
  predicate Knows(o: Options, p: nat, h: Client) {
    && (p >= 2 ==>
          && h.resumed == o.resumed && h.cipher == o.cipher && h.statusExpected == o.status
          && h.npn == o.npn && h.channelId == o.channelId)
    && (p >= 2 && !h.state.ProcessChangeCipherSpec? && !h.state.ReadServerFinished? ==>
          TicketKnown(o, h))
    && h.certRequest == (o.certRequest && p >= 6)
  }

  predicate TicketKnown(o: Options, h: Client) {
    PlaceOf(o.resumed, h) <= (if o.resumed then 2 else 14) ==> h.ticketExpected == o.ticket
  }

  // The raw transcript is still there when CertificateVerify is to be signed.
  predicate KeepsBuffer(o: Options, p: nat) {
    p < 2 || (o.certRequest && o.clientCert && p <= 9)
  }

  predicate Epochs(o: Options, p: nat, h: Client) {
    && h.readEpoch == (if p > (if o.resumed then 3 else 15) && !h.state.ProcessChangeCipherSpec? then 1 else 0)
    && h.writeEpoch == (if p > (if o.resumed then 5 else 10) then 1 else 0)
  }

  predicate Inv(c: Conf, o: Options, h: Client) {
    var p := PlaceOf(o.resumed, h);
    && o.Valid() && o.offer == c.offer && o.clientCert == c.hasCertificate
    && (o.resumed ==> !FullOnly(h.state))
    && WaitFits(h)
    && Knows(o, p, h)
    && Hashes(o, p, h.transcript, p >= 2, KeepsBuffer(o, p))
    && Epochs(o, p, h)
  }

  // The states in the order a handshake passes through them. It is an order although the
  // states form a cycle, because whether a session is resumed is settled by ServerHello.
  function Rank(resumed: bool, s: State): (r: nat)
    ensures r <= 20
  {
    match s
    case StartConnect => 0
    case EnterEarlyData => 1
    case ReadServerHello => 2
    case ReadServerCertificate => 3
    case ReadCertificateStatus => 4
    case VerifyServerCertificate => 5
    case ReadServerKeyExchange => 6
    case ReadCertificateRequest => 7
    case ReadServerHelloDone => 8
    case SendClientCertificate => 9
    case SendClientKeyExchange => 10
    case SendClientCertificateVerify => 11
    case SendClientFinished => if resumed then 17 else 12
    case FinishFlight => if resumed then 18 else 13
    case ReadSessionTicket => 14
    case ProcessChangeCipherSpec => 15
    case ReadServerFinished => 16
    case FinishClientHandshake => 19
    case Done => 20
  }

  // To a later state, or to the finding that a message is needed, or that it has to wait.
  predicate Forward(h: Client, h': Client, retry: bool) {
    || Rank(h'.resumed, h'.state) > Rank(h.resumed, h.state)
    || (Rank(h'.resumed, h'.state) == Rank(h.resumed, h.state) && h'.wait.ReadMessage? && h.inbox.None? && h'.inbox.None?)
    || (retry && h'.wait.Paused?)
  }

  lemma MoreTime(h: Client, h': Client, retry: bool)
    ensures Forward(h, h', false) ==> Forward(h, h', retry)
  {
    hide Rank;
  }

  // The turn of the loop keeps the invariant, follows the conversation and gets further.
  predicate Good(c: Conf, o: Options, h: Client, h': Client, retry: bool) {
    && Inv(c, o, h')
    && Follows(o, false, PlaceOf(o.resumed, h), h, PlaceOf(o.resumed, h'), h')
    && Forward(h, h', retry)
  }

  predicate Ready(c: Conf, o: Options, h: Client) {
    Inv(c, o, h) && h.wait.Ok? && InboxFits(o, false, PlaceOf(o.resumed, h), h)
  }
}
