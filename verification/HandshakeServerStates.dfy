/** Where in the conversation the server is, and what holds in each of its states. */
module HandshakeServerStates {
  import opened HandshakeScript
  import opened HandshakeFollow
  import opened HandshakeServer

  // How far in the conversation the server is.
  function PlaceOf(resumed: bool, h: Server): (p: nat)
    ensures p <= if resumed then 9 else 17
  {
    match h.state
    case StartAccept => 0
    case ReadClientHello => 0
    case SelectCertificate => 0
    case SelectParameters => 0
    case SendServerHello => 1
    case SendServerCertificate => 2
    case SendServerKeyExchange => 4
    case SendServerHelloDone => 5
    case ReadClientCertificate => 7
    case VerifyClientCertificate => 8
    case ReadClientKeyExchange => 8
    case ReadClientCertificateVerify => 9
    case ReadChangeCipherSpec => if resumed then 5 else 10
    case ProcessChangeCipherSpec => (if resumed then 5 else 10) + if h.wait.ReadChangeCipherSpec? then 0 else 1
    case ReadNextProto => if resumed then 6 else 11
    case ReadChannelId => if resumed then 7 else 12
    case ReadClientFinished => if resumed then 8 else 13
    case SendServerFinished => if resumed then 2 else 14
    case FinishServerHandshake => if resumed then 9 else 17
    case Done => if resumed then 9 else 17
  }

  // The states only a full handshake passes through.
  predicate FullOnly(s: State) {
    s.SendServerCertificate? || s.SendServerKeyExchange? || s.SendServerHelloDone? || s.ReadClientCertificate?
    || s.VerifyClientCertificate? || s.ReadClientKeyExchange? || s.ReadClientCertificateVerify?
  }

  // The flight is being built.
  predicate Sending(s: State) {
    s.SendServerCertificate? || s.SendServerKeyExchange? || s.SendServerHelloDone? || s.SendServerFinished?
  }

  // The ClientHello is still being looked at.
  predicate Selecting(s: State) {
    s.SelectCertificate? || s.SelectParameters?
  }

  // The states that need a message of the client before they can do anything.
  predicate NeedsMessage(h: Server) {
    || h.state.ReadClientHello?
    || (h.state.ReadClientCertificate? && h.certRequest)
    || h.state.ReadClientKeyExchange?
    || (h.state.ReadClientCertificateVerify? && h.peerCert)
    || (h.state.ReadNextProto? && h.npn)
    || (h.state.ReadChannelId? && h.channelId)
    || h.state.ReadClientFinished?
  }

  predicate WaitFits(h: Server) {
    && !h.wait.Error?
    && (h.wait.Flush? ==>
          h.state.ReadClientCertificate? || h.state.ReadChangeCipherSpec? || h.state.FinishServerHandshake?)
    && (h.wait.ReadMessage? ==> NeedsMessage(h) && h.inbox.None?)
    && (h.wait.ReadChangeCipherSpec? ==> h.state.ProcessChangeCipherSpec?)
    && (h.state.ProcessChangeCipherSpec? ==> h.inbox.None? && (h.wait.Ok? || h.wait.ReadChangeCipherSpec?))
    && (Selecting(h.state) ==> h.inbox.Some?)
    && (!h.wait.Flush? && !Sending(h.state) ==> h.flight == [])
  }

  // What the server has learnt from ClientHello and decided.
  predicate Knows(s: Conf, o: Options, p: nat, h: Server) {
    && (Selecting(h.state) || h.state.SendServerHello? ==>
          h.channelId == (o.offer.channelId && s.channelIdEnabled) && h.statusRequested == o.offer.status)
    && (Selecting(h.state) ==> h.npn == (o.offer.npn && s.npnCallback))
    && (h.state.SelectParameters? ==> h.cipher == s.cipher)
    && (h.state.SendServerHello? ==>
          h.npn == (o.offer.npn && s.npnCallback && !(o.offer.alpn && s.alpnCallback)))
    && (p >= 1 ==>
          && h.resumed == o.resumed && h.cipher == o.cipher && h.ticketExpected == o.ticket
          && h.certRequest == o.certRequest)
    && (p >= 2 ==> h.npn == o.npn && h.channelId == o.channelId && h.statusExpected == o.status)
    && (h.state.SendServerKeyExchange? ==> h.serverParams == o.keyExchange)
    && h.peerCert == (o.certRequest && o.clientCert && p >= 8)
  }

  // The raw transcript is still there when CertificateVerify is to be checked.
  predicate KeepsBuffer(o: Options, p: nat) {
    p < 1 || (o.certRequest && o.clientCert && p <= 9)
  }

  predicate Epochs(o: Options, p: nat, h: Server) {
    && h.readEpoch == (if p > (if o.resumed then 5 else 10) && !h.state.ProcessChangeCipherSpec? then 1 else 0)
    && h.writeEpoch == (if p > (if o.resumed then 3 else 15) then 1 else 0)
  }

  // A client without a certificate is let in.
  predicate Agreed(s: Conf, o: Options) {
    o.certRequest && !o.clientCert ==> !s.failIfNoPeerCert
  }

  predicate Fits(s: Conf, o: Options) {
    o.Valid() && o == Negotiated(o.offer, o.clientCert, s)
  }

  predicate Inv(s: Conf, o: Options, h: Server) {
    var p := PlaceOf(o.resumed, h);
    && Fits(s, o) && (Agreed(s, o) || (!o.resumed && p <= 7))
    && (o.resumed ==> !FullOnly(h.state))
    && WaitFits(h)
    && Knows(s, o, p, h)
    && Hashes(o, p, h.transcript, p >= 1, KeepsBuffer(o, p))
    && Epochs(o, p, h)
  }

  // The states in the order a handshake passes through them. It is an order although the
  // states form a cycle, because whether a session is resumed is settled by the ClientHello.
  function Rank(resumed: bool, s: State): (r: nat)
    ensures r <= 20
  {
    match s
    case StartAccept => 0
    case ReadClientHello => 1
    case SelectCertificate => 2
    case SelectParameters => 3
    case SendServerHello => 4
    case SendServerCertificate => 5
    case SendServerKeyExchange => 6
    case SendServerHelloDone => 7
    case ReadClientCertificate => 8
    case VerifyClientCertificate => 9
    case ReadClientKeyExchange => 10
    case ReadClientCertificateVerify => 11
    case SendServerFinished => if resumed then 12 else 18
    case ReadChangeCipherSpec => 13
    case ProcessChangeCipherSpec => 14
    case ReadNextProto => 15
    case ReadChannelId => 16
    case ReadClientFinished => 17
    case FinishServerHandshake => 19
    case Done => 20
  }

  // To a later state, or to the finding that a message is needed, or that it has to wait.
  predicate Forward(h: Server, h': Server, retry: bool) {
    || Rank(h'.resumed, h'.state) > Rank(h.resumed, h.state)
    || (Rank(h'.resumed, h'.state) == Rank(h.resumed, h.state) && h'.wait.ReadMessage? && h.inbox.None? && h'.inbox.None?)
    || (retry && h'.wait.Paused?)
  }

  lemma MoreTime(h: Server, h': Server, retry: bool)
    ensures Forward(h, h', false) ==> Forward(h, h', retry)
  {
    hide Rank;
  }

  // The turn of the loop keeps the invariant, follows the conversation and gets further.
  predicate Good(s: Conf, o: Options, h: Server, h': Server, retry: bool) {
    && Inv(s, o, h')
    && Follows(o, true, PlaceOf(o.resumed, h), h, PlaceOf(o.resumed, h'), h')
    && Forward(h, h', retry)
  }

  predicate Ready(s: Conf, o: Options, h: Server) {
    Inv(s, o, h) && h.wait.Ok? && InboxFits(o, true, PlaceOf(o.resumed, h), h)
  }
}
