/** The DTLS handshake header and fragment format of section 4.2.2 of RFC 6347
    (dtls1_parse_fragment, dtls1_init_message, dtls1_finish_message). */
module HandshakeWire {
  import opened Bytes

  // DTLS1_HM_HEADER_LENGTH and SSL_MAX_HANDSHAKE_FLIGHT
  const HEADER_LENGTH: nat := 12
  const MAX_FLIGHT: nat := 7

  datatype Header = Header(typ: u8, msgLen: nat, seq_: nat, fragOff: nat, fragLen: nat) {
    predicate Valid() {
      msgLen < U24 && seq_ < U16 && fragOff < U24 && fragLen < U24
    }
  }

  datatype Parsed = Parsed(hdr: Header, body: bytes, rest: bytes)

  function PutHeader(h: Header): (b: bytes)
    requires h.Valid()
    ensures |b| == HEADER_LENGTH
  {
    [h.typ] + Put24(h.msgLen) + Put16(h.seq_) + Put24(h.fragOff) + Put24(h.fragLen)
  }

  function GetHeader(b: bytes): (h: Header)
    requires |b| == HEADER_LENGTH
    ensures h.Valid()
  {
    Header(b[0], Get24(b[1..4]), Get16(b[4..6]), Get24(b[6..9]), Get24(b[9..12]))
  }

  lemma GetPutHeader(h: Header)
    requires h.Valid()
    ensures GetHeader(PutHeader(h)) == h
  {
    Get24Put24(h.msgLen); Get16Put16(h.seq_); Get24Put24(h.fragOff); Get24Put24(h.fragLen);
    Slices(h.typ, Put24(h.msgLen), Put16(h.seq_), Put24(h.fragOff), Put24(h.fragLen));
    hide Put24, Put16, Get24, Get16;
  }

  // The five parts of a header are where GetHeader looks for them.
  lemma Slices(typ: u8, len: bytes, seq_: bytes, off: bytes, fragLen: bytes)
    requires |len| == 3 && |seq_| == 2 && |off| == 3 && |fragLen| == 3
    ensures var b := [typ] + len + seq_ + off + fragLen;
      |b| == HEADER_LENGTH && b[0] == typ && b[1..4] == len && b[4..6] == seq_ && b[6..9] == off && b[9..12] == fragLen
  {}

  lemma PutGetHeader(b: bytes)
    requires |b| == HEADER_LENGTH
    ensures PutHeader(GetHeader(b)) == b
  {
    Put24Get24(b[1..4]); Put16Get16(b[4..6]); Put24Get24(b[6..9]); Put24Get24(b[9..12]);
  }

  // dtls1_parse_fragment: None when the header or the body is cut short.
  function ParseFragment(b: bytes): (r: Option<Parsed>)
    ensures r.Some? ==> |r.value.rest| < |b|
  {
    if |b| < HEADER_LENGTH then None
    else
      var h := GetHeader(b[..HEADER_LENGTH]);
      if |b| - HEADER_LENGTH < h.fragLen then None
      else Some(Parsed(h, b[HEADER_LENGTH..HEADER_LENGTH + h.fragLen], b[HEADER_LENGTH + h.fragLen..]))
  }

  // The parser accepts exactly the byte strings that start with a serialised
  // fragment, and finds that fragment.
  lemma ParseInvertsSerialise(h: Header, body: bytes, rest: bytes)
    requires h.Valid() && h.fragLen == |body|
    ensures ParseFragment(PutHeader(h) + body + rest) == Some(Parsed(h, body, rest))
  {
    var b := PutHeader(h) + body + rest;
    assert b[..HEADER_LENGTH] == PutHeader(h);
    GetPutHeader(h);
    assert b[HEADER_LENGTH..HEADER_LENGTH + |body|] == body;
    assert b[HEADER_LENGTH + |body|..] == rest;
  }

  lemma SerialiseInvertsParse(b: bytes)
    requires ParseFragment(b).Some?
    ensures var p := ParseFragment(b).value;
            p.hdr.Valid() && p.hdr.fragLen == |p.body| && PutHeader(p.hdr) + p.body + p.rest == b
  {
    PutGetHeader(b[..HEADER_LENGTH]);
  }

  // A whole message as one fragment: the form in which it is queued, hashed and delivered.
  function WholeMessage(typ: u8, seq_: nat, body: bytes): (m: bytes)
    requires seq_ < U16 && |body| < U24
  {
    PutHeader(Header(typ, |body|, seq_, 0, |body|)) + body
  }

  // dtls1_init_message followed by the caller's body: the total length is a placeholder.
  function InitMessage(typ: u8, seq_: nat, body: bytes): (m: bytes)
    requires seq_ < U16 && |body| < U24
  {
    [typ] + Put24(0) + Put16(seq_) + Put24(0) + Put24(|body|) + body
  }

  // dtls1_finish_message copies the fragment length over the total length.
  function FinishMessage(m: bytes): (r: Option<bytes>) {
    if |m| < HEADER_LENGTH then None
    else Some(m[..1] + m[HEADER_LENGTH - 3..HEADER_LENGTH] + m[4..])
  }

  lemma FinishedMessageIsWhole(typ: u8, seq_: nat, body: bytes)
    requires seq_ < U16 && |body| < U24
    ensures FinishMessage(InitMessage(typ, seq_, body)) == Some(WholeMessage(typ, seq_, body))
  {
    var m := InitMessage(typ, seq_, body);
    assert m[HEADER_LENGTH - 3..HEADER_LENGTH] == Put24(|body|);
    assert m[..1] == [typ];
    var tail := Put16(seq_) + Put24(0) + Put24(|body|) + body;
    assert m[4..] == tail;
    assert WholeMessage(typ, seq_, body) == [typ] + Put24(|body|) + tail;
  }

  lemma ParseWholeMessage(typ: u8, seq_: nat, body: bytes)
    requires seq_ < U16 && |body| < U24
    ensures ParseFragment(WholeMessage(typ, seq_, body)) ==
            Some(Parsed(Header(typ, |body|, seq_, 0, |body|), body, []))
  {
    var h := Header(typ, |body|, seq_, 0, |body|);
    ParseInvertsSerialise(h, body, []);
    assert PutHeader(h) + body + [] == WholeMessage(typ, seq_, body);
  }
}
