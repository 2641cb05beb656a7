/** The conversation a pair of configurations leads to (section 7.3 of RFC 5246, section 3.1
    of RFC 5077), written down once: which message stands at which place, who sends it and
    under which cipher state. Both machines are proved to follow it. */
module HandshakeScript {
  import opened Handshake
  import S = HandshakeServer

  datatype Options = Options(
    offer: Offer,
    resumed: bool,
    cipher: Cipher,
    ticket: bool,
    emptyTicket: bool,
    status: bool,
    npn: bool,
    channelId: bool,
    keyExchange: bool,
    certRequest: bool,
    clientCert: bool)
  {
    predicate Valid() {
      && cipher.Valid()
      && (resumed ==> offer.session)
      && (certRequest ==> !resumed && cipher.certAuth)
      && (status ==> offer.status && !resumed && cipher.certAuth)
      && (ticket ==> offer.tickets) && (npn ==> offer.npn) && (channelId ==> offer.channelId)
      && (cipher.kex.Ecdhe? ==> keyExchange) && (cipher.kex.Rsa? ==> !keyExchange)
    }

    function Answer(): Answer {
      Handshake.Answer(resumed, cipher, ticket, status, npn, channelId)
    }
  }

  // What a server answers an offer with, when the client does or does not have a certificate.
  function Negotiated(offer: Offer, clientCert: bool, s: S.Conf): Options {
    var resumed := offer.session && s.findsSession;
    var channelId := offer.channelId && s.channelIdEnabled;
    Options(
      offer,
      resumed,
      s.cipher,
      s.tickets && offer.tickets && (resumed ==> s.renewTicket),
      s.emptyTicket,
      offer.status && s.ocspResponse && !resumed && s.cipher.certAuth,
      offer.npn && s.npnCallback && !(offer.alpn && s.alpnCallback) && s.npnAdvertises,
      channelId && s.cipher.kex.Ecdhe? && (resumed ==> s.sessionHasHandshakeHash),
      s.cipher.kex.Ecdhe? || (!s.cipher.certAuth && s.pskHint),
      !resumed && s.verifyPeer && !(s.verifyPeerIfNoObc && channelId) && s.cipher.certAuth,
      clientCert)
  }

  lemma NegotiatedValid(offer: Offer, clientCert: bool, s: S.Conf)
    requires s.cipher.Valid()
    ensures Negotiated(offer, clientCert, s).Valid()
  {
    var o := Negotiated(offer, clientCert, s);
    assert o.offer == offer && o.cipher == s.cipher;
  }

  // One place of the conversation; an optional message may be absent.
  datatype Place = Absent | Sent(byServer: bool, rec: Rec)

  // The number of places.
  function Places(o: Options): nat {
    if o.resumed then 9 else 17
  }

  function Optional(present: bool, byServer: bool, epoch: nat, msg: Msg): Place {
    if present then Sent(byServer, Rec(epoch, Message(msg))) else Absent
  }

  function Always(byServer: bool, epoch: nat, item: Item): Place {
    Sent(byServer, Rec(epoch, item))
  }

  // Place |i|, when |log| are the messages before it.
  function PlaceAfter(o: Options, i: nat, log: seq<Msg>): Place {
    if i == 0 then Always(false, 0, Message(ClientHello(o.offer)))
    else if i == 1 then Always(true, 0, Message(ServerHello(o.Answer())))
    else if o.resumed then ResumedPlace(o, i, log)
    else FullPlace(o, i, log)
  }

  function FullPlace(o: Options, i: nat, log: seq<Msg>): Place {
    if i == 2 then Optional(o.cipher.certAuth, true, 0, Certificate(true))
    else if i == 3 then Optional(o.status, true, 0, CertificateStatus)
    else if i == 4 then Optional(o.keyExchange, true, 0, ServerKeyExchange)
    else if i == 5 then Optional(o.certRequest, true, 0, CertificateRequest)
    else if i == 6 then Always(true, 0, Message(ServerHelloDone))
    else if i == 7 then Optional(o.certRequest, false, 0, Certificate(o.clientCert))
    else if i == 8 then Always(false, 0, Message(ClientKeyExchange))
    else if i == 9 then Optional(o.certRequest && o.clientCert, false, 0, CertificateVerify(log))
    else if i == 10 then Always(false, 0, ChangeCipherSpec)
    else if i == 11 then Optional(o.npn, false, 1, NextProto)
    else if i == 12 then Optional(o.channelId, false, 1, ChannelId)
    else if i == 13 then Always(false, 1, Message(Finished(false, log)))
    else if i == 14 then Optional(o.ticket, true, 0, NewSessionTicket(o.emptyTicket))
    else if i == 15 then Always(true, 0, ChangeCipherSpec)
    else if i == 16 then Always(true, 1, Message(Finished(true, log)))
    else Absent
  }

  function ResumedPlace(o: Options, i: nat, log: seq<Msg>): Place {
    if i == 2 then Optional(o.ticket, true, 0, NewSessionTicket(o.emptyTicket))
    else if i == 3 then Always(true, 0, ChangeCipherSpec)
    else if i == 4 then Always(true, 1, Message(Finished(true, log)))
    else if i == 5 then Always(false, 0, ChangeCipherSpec)
    else if i == 6 then Optional(o.npn, false, 1, NextProto)
    else if i == 7 then Optional(o.channelId, false, 1, ChannelId)
    else if i == 8 then Always(false, 1, Message(Finished(false, log)))
    else Absent
  }

  function MessageOf(p: Place): seq<Msg> {
    if p.Sent? && p.rec.item.Message? then [p.rec.item.msg] else []
  }

  // The transcript up to place |i|.
  function Log(o: Options, i: nat): seq<Msg> {
    if i == 0 then [] else Log(o, i - 1) + MessageOf(PlaceAfter(o, i - 1, Log(o, i - 1)))
  }

  function At(o: Options, i: nat): Place {
    PlaceAfter(o, i, Log(o, i))
  }

  // What stands at each place. These lemmas, like those of HandshakeFollow, say nothing
  // where they do not apply instead of requiring that they do.
  lemma HelloPlaces(o: Options)
    ensures At(o, 0) == Always(false, 0, Message(ClientHello(o.offer)))
    ensures At(o, 1) == Always(true, 0, Message(ServerHello(o.Answer())))
  {}

  lemma ServerCertificatePlace(o: Options)
    ensures !o.resumed ==> At(o, 2) == Optional(o.cipher.certAuth, true, 0, Certificate(true))
  {}

  lemma CertificateStatusPlace(o: Options)
    ensures !o.resumed ==> At(o, 3) == Optional(o.status, true, 0, CertificateStatus)
  {}

  lemma ServerKeyExchangePlace(o: Options)
    ensures !o.resumed ==> At(o, 4) == Optional(o.keyExchange, true, 0, ServerKeyExchange)
  {}

  lemma CertificateRequestPlace(o: Options)
    ensures !o.resumed ==> At(o, 5) == Optional(o.certRequest, true, 0, CertificateRequest)
  {}

  lemma ServerHelloDonePlace(o: Options)
    ensures !o.resumed ==> At(o, 6) == Always(true, 0, Message(ServerHelloDone))
  {}

  lemma ClientCertificatePlace(o: Options)
    ensures !o.resumed ==> At(o, 7) == Optional(o.certRequest, false, 0, Certificate(o.clientCert))
  {}

  lemma ClientKeyExchangePlace(o: Options)
    ensures !o.resumed ==> At(o, 8) == Always(false, 0, Message(ClientKeyExchange))
  {}

  lemma CertificateVerifyPlace(o: Options)
    ensures !o.resumed ==> At(o, 9) == Optional(o.certRequest && o.clientCert, false, 0, CertificateVerify(Log(o, 9)))
  {}

  lemma ClientCipherPlace(o: Options)
    ensures !o.resumed ==> At(o, 10) == Always(false, 0, ChangeCipherSpec)
  {}

  lemma NextProtoPlace(o: Options)
    ensures !o.resumed ==> At(o, 11) == Optional(o.npn, false, 1, NextProto)
  {}

  lemma ChannelIdPlace(o: Options)
    ensures !o.resumed ==> At(o, 12) == Optional(o.channelId, false, 1, ChannelId)
  {}

  lemma ClientFinishedPlace(o: Options)
    ensures !o.resumed ==> At(o, 13) == Always(false, 1, Message(Finished(false, Log(o, 13))))
  {}

  lemma TicketPlace(o: Options)
    ensures !o.resumed ==> At(o, 14) == Optional(o.ticket, true, 0, NewSessionTicket(o.emptyTicket))
  {}

  lemma ServerCipherPlace(o: Options)
    ensures !o.resumed ==> At(o, 15) == Always(true, 0, ChangeCipherSpec)
  {}

  lemma ServerFinishedPlace(o: Options)
    ensures !o.resumed ==> At(o, 16) == Always(true, 1, Message(Finished(true, Log(o, 16))))
  {}

  lemma ResumedTicketPlace(o: Options)
    ensures o.resumed ==> At(o, 2) == Optional(o.ticket, true, 0, NewSessionTicket(o.emptyTicket))
  {}

  lemma ResumedServerCipherPlace(o: Options)
    ensures o.resumed ==> At(o, 3) == Always(true, 0, ChangeCipherSpec)
  {}

  lemma ResumedServerFinishedPlace(o: Options)
    ensures o.resumed ==> At(o, 4) == Always(true, 1, Message(Finished(true, Log(o, 4))))
  {}

  lemma ResumedClientCipherPlace(o: Options)
    ensures o.resumed ==> At(o, 5) == Always(false, 0, ChangeCipherSpec)
  {}

  lemma ResumedNextProtoPlace(o: Options)
    ensures o.resumed ==> At(o, 6) == Optional(o.npn, false, 1, NextProto)
  {}

  lemma ResumedChannelIdPlace(o: Options)
    ensures o.resumed ==> At(o, 7) == Optional(o.channelId, false, 1, ChannelId)
  {}

  lemma ResumedClientFinishedPlace(o: Options)
    ensures o.resumed ==> At(o, 8) == Always(false, 1, Message(Finished(false, Log(o, 8))))
  {}

  lemma LogStep(o: Options, i: nat)
    ensures Log(o, i + 1) == Log(o, i) + MessageOf(At(o, i))
  {}

  // The records of the places from |from| to |to|.
  function Records(o: Options, from: nat, to: nat): seq<Rec>
    decreases if from < to then to - from else 0
  {
    if from >= to then []
    else (if At(o, from).Sent? then [At(o, from).rec] else []) + Records(o, from + 1, to)
  }

  // One side alone speaks at these places.
  predicate OnlyBy(o: Options, byServer: bool, from: nat, to: nat) {
    forall i | from <= i < to && At(o, i).Sent? :: At(o, i).byServer == byServer
  }

  lemma {:induction false} RecordsSplit(o: Options, a: nat, b: nat, d: nat)
    requires a <= b <= d
    ensures Records(o, a, d) == Records(o, a, b) + Records(o, b, d)
    decreases b - a
  {
    hide At;
    if a < b { RecordsSplit(o, a + 1, b, d); }
  }

  // No records, or nobody who could have sent them: nothing at these places.
  predicate AllAbsent(o: Options, from: nat, to: nat) {
    forall i | from <= i < to :: At(o, i).Absent?
  }

  lemma {:induction false} NoRecords(o: Options, from: nat, to: nat)
    ensures Records(o, from, to) == [] <==> AllAbsent(o, from, to)
    decreases if from < to then to - from else 0
  {
    hide At;
    if from < to { NoRecords(o, from + 1, to); }
  }

  // The first place from |i| on that is not absent.
  function NextSent(o: Options, i: nat): (j: nat)
    requires i <= Places(o)
    ensures i <= j <= Places(o)
    ensures j < Places(o) ==> At(o, j).Sent?
    ensures AllAbsent(o, i, j)
    decreases Places(o) - i
  {
    if i == Places(o) || At(o, i).Sent? then i
    else
      var j := NextSent(o, i + 1);
      assert AllAbsent(o, i, j);
      j
  }

  lemma {:induction false} FirstRecord(o: Options, from: nat, to: nat)
    requires from <= to <= Places(o) && Records(o, from, to) != []
    ensures var j := NextSent(o, from);
      j < to && At(o, j).Sent? && Records(o, from, to) == [At(o, j).rec] + Records(o, j + 1, to)
  {
    hide At;
    var j := NextSent(o, from);
    NoRecords(o, from, to);
    assert j < to;
    RecordsSplit(o, from, j, to);
    NoRecords(o, from, j);
  }
}
