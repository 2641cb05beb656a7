/** What the TLS 1.0 to 1.2 client and server handshakes share (handshake.cc,
    ssl_transcript.cc and the message and record calls of SSL_PROTOCOL_METHOD): messages,
    the transcript, the flight being built, and what a handshake may wait for. */
module Handshake {
  import opened Bytes

  datatype Kex = Rsa | Ecdhe | Psk

  // What the state machines ask of a cipher suite. RSA key exchange needs a certificate
  // and plain PSK has none.
  datatype Cipher = Cipher(certAuth: bool, kex: Kex) {
    predicate Valid() {
      (kex.Rsa? ==> certAuth) && (kex.Psk? ==> !certAuth)
    }
  }

  // The parts of ClientHello and ServerHello that decide which messages follow.
  datatype Offer = Offer(session: bool, tickets: bool, status: bool, npn: bool, alpn: bool, channelId: bool)
  datatype Answer = Answer(resumed: bool, cipher: Cipher, ticket: bool, status: bool, npn: bool, channelId: bool)

  // CertificateVerify and Finished are functions of the transcript they cover.
  datatype Msg =
    | ClientHello(offer: Offer)
    | ServerHello(answer: Answer)
    | Certificate(nonEmpty: bool)
    | CertificateStatus
    | ServerKeyExchange
    | CertificateRequest
    | ServerHelloDone
    | ClientKeyExchange
    | CertificateVerify(signed: seq<Msg>)
    | NextProto
    | ChannelId
    | NewSessionTicket(empty: bool)
    | Finished(byServer: bool, over: seq<Msg>)

  datatype Item = Message(msg: Msg) | ChangeCipherSpec

  // A record under the cipher state it was sealed with: 0 before ChangeCipherSpec, 1 after.
  datatype Rec = Rec(epoch: nat, item: Item)

  // ssl_hs_wait_t. Paused is every wait for the application: certificate selection and
  // lookup, certificate verification, private key operations, Channel ID and session
  // lookup, tickets, and the return of False Start.
  datatype Wait = Ok | Error | Flush | ReadMessage | ReadChangeCipherSpec | Paused

  // SSLTranscript: the rolling hash, once its algorithm is known, and the raw messages
  // until they are let go.
  datatype Transcript = Transcript(hash: Option<seq<Msg>>, buffer: Option<seq<Msg>>) {
    function Update(m: Msg): Transcript {
      Transcript(if hash.Some? then Some(hash.value + [m]) else None,
                 if buffer.Some? then Some(buffer.value + [m]) else None)
    }

    function InitHash(): Transcript
      requires buffer.Some?
    {
      this.(hash := buffer)
    }

    function FreeBuffer(): Transcript {
      this.(buffer := None)
    }
  }

  // SSL_HANDSHAKE, with the parts of SSL and SSL3_STATE a handshake works on. |resumed|
  // says whether ssl->session is set.
  datatype Hs<S> = Hs(
    state: S,
    wait: Wait,
    resumed: bool,
    cipher: Cipher,
    certRequest: bool,
    statusRequested: bool,
    statusExpected: bool,
    ticketExpected: bool,
    npn: bool,
    channelId: bool,
    peerCert: bool,
    serverParams: bool,
    transcript: Transcript,
    flight: seq<Rec>,
    inbox: Option<Msg>,
    readEpoch: nat,
    writeEpoch: nat)
  {
    // add_message
    function Add(m: Msg): Hs<S> {
      this.(flight := flight + [Rec(writeEpoch, Message(m))], transcript := transcript.Update(m))
    }

    // add_change_cipher_spec and tls1_change_cipher_state(evp_aead_seal)
    function AddChangeCipherSpec(): Hs<S> {
      this.(flight := flight + [Rec(writeEpoch, ChangeCipherSpec)], writeEpoch := writeEpoch + 1)
    }

    // ssl_hash_message and next_message
    function TakeMessage(): Hs<S>
      requires inbox.Some?
    {
      this.(transcript := transcript.Update(inbox.value), inbox := None)
    }

    function FreeBuffer(): Hs<S> {
      this.(transcript := transcript.FreeBuffer())
    }

    function GoTo(next: S): Hs<S> {
      this.(state := next, wait := Ok)
    }

    function Stop(w: Wait): Hs<S> {
      this.(wait := w)
    }

    // ssl_send_finished
    function SendFinished(byServer: bool): Hs<S>
      requires transcript.hash.Some?
    {
      Add(Finished(byServer, transcript.hash.value))
    }

    // ssl_get_finished: the Finished of the other side covers what this side has hashed.
    function GetFinished(fromServer: bool, next: S): Hs<S>
      requires transcript.hash.Some?
    {
      if inbox.None? then Stop(ReadMessage)
      else if inbox.value != Finished(fromServer, transcript.hash.value) then Stop(Error)
      else TakeMessage().GoTo(next)
    }

    // tls1_change_cipher_state(evp_aead_open): no data of the old cipher may be left.
    function ChangeReadCipher(next: S): Hs<S> {
      if inbox.Some? then Stop(Error) else this.(readEpoch := readEpoch + 1).GoTo(next)
    }
  }

  // The application and the transport at one step: whether a callback asks for more time,
  // and how many records of the flight the transport takes.
  datatype Oracle = Oracle(retry: bool, takes: nat)

  // The switch of ssl_run_handshake. |incoming| is what the peer has sent and this side
  // has not read; the result's sequences are what is left of it and what is sent.
  function Resolve<S>(h: Hs<S>, incoming: seq<Rec>, oracle: Oracle): (Hs<S>, seq<Rec>, seq<Rec>) {
    match h.wait
    case Ok => (h, incoming, [])
    case Error => (h, incoming, [])
    case Paused => (h.Stop(Ok), incoming, [])
    case Flush =>
      if oracle.takes >= |h.flight| then (h.(flight := [], wait := Ok), incoming, h.flight)
      else (h.(flight := h.flight[oracle.takes..]), incoming, h.flight[..oracle.takes])
    case ReadMessage =>
      if incoming == [] then (h, incoming, [])
      else if incoming[0].item.Message? && incoming[0].epoch == h.readEpoch && h.inbox.None? then
        (h.(inbox := Some(incoming[0].item.msg), wait := Ok), incoming[1..], [])
      else (h.Stop(Error), incoming[1..], [])
    case ReadChangeCipherSpec =>
      if incoming == [] then (h, incoming, [])
      else if incoming[0].item.ChangeCipherSpec? && incoming[0].epoch == h.readEpoch && h.inbox.None? then
        (h.Stop(Ok), incoming[1..], [])
      else (h.Stop(Error), incoming[1..], [])
  }
}
