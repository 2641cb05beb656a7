/** Handshake messages in a TLS stream of records (s3_both.cc): the buffer that collects
    record bodies, and taking messages off its front. Section 7.4 of RFC 5246. */
module TlsFraming {
  import opened Bytes
  import opened RecordTypes

  // SSL3_HM_HEADER_LENGTH
  const HM_HEADER: nat := 4

  datatype Message = Message(typ: u8, body: bytes) {
    predicate Valid() {
      |body| < U24
    }

    // ssl3_init_message and ssl3_finish_message
    function Raw(): (b: bytes)
      requires Valid()
      ensures |b| == HM_HEADER + |body|
    {
      [typ] + Put24(|body|) + body
    }
  }

  datatype Parsed = Need(octets: nat) | Got(msg: Message)

  // parse_message
  function Parse(buf: bytes): (p: Parsed)
    ensures p.Got? ==> p.msg.Valid() && |buf| >= HM_HEADER + |p.msg.body|
  {
    if |buf| < HM_HEADER then Need(HM_HEADER)
    else
      var len := Get24(buf[1..4]);
      if |buf| - HM_HEADER < len then Need(HM_HEADER + len)
      else Got(Message(buf[0], buf[HM_HEADER..HM_HEADER + len]))
  }

  // A message is recognised as soon as its last octet is there, whatever follows it.
  lemma ParseRaw(m: Message, rest: bytes)
    requires m.Valid()
    ensures Parse(m.Raw() + rest) == Got(m)
    ensures (m.Raw() + rest)[|m.Raw()|..] == rest
  {
    var b := m.Raw() + rest;
    Get24Put24(|m.body|);
    assert b[1..4] == Put24(|m.body|);
    assert b[HM_HEADER..HM_HEADER + |m.body|] == m.body;
  }

  // What is recognised is what the buffer starts with.
  lemma ParseSound(buf: bytes)
    requires Parse(buf).Got?
    ensures var raw := Parse(buf).msg.Raw();
      buf == raw + buf[|raw|..]
  {
    Put24Get24(buf[1..4]);
    var m := Parse(buf).msg;
    assert buf[..HM_HEADER] == [buf[0]] + buf[1..4];
  }

  // Short of its last octet a message is not recognised, and what is asked for is no more
  // than the message.
  lemma ParseShort(m: Message, buf: bytes)
    requires m.Valid() && buf <= m.Raw() && |buf| < |m.Raw()|
    ensures Parse(buf) == Need(if |buf| < HM_HEADER then HM_HEADER else |m.Raw()|)
  {
    var raw := m.Raw();
    assert buf == raw[..|buf|];
    if |buf| >= HM_HEADER {
      Get24Put24(|m.body|);
      assert buf[1..4] == raw[1..4] == Put24(|m.body|);
    }
  }

  datatype OpenError = WaitingMessage | Excessive | UnexpectedRecord

  // The reading fields of SSL3_STATE. No hs_buf is not the same as an empty one.
  datatype Reader = Reader(hsBuf: Option<bytes>, hasMessage: bool) {
    function Buffered(): bytes {
      if hsBuf.None? then [] else hsBuf.value
    }

    // parse_message
    function Front(): Parsed {
      if hsBuf.None? then Need(HM_HEADER) else Parse(hsBuf.value)
    }

    // ssl3_get_message
    function GetMessage(): (Reader, Option<Message>) {
      var p := Front();
      if p.Need? then (this, None) else (this.(hasMessage := true), Some(p.msg))
    }

    // tls_can_accept_handshake_data, with ssl_max_handshake_message_len
    function CanAccept(maxLen: nat): Option<OpenError> {
      var p := Front();
      if p.Got? then Some(WaitingMessage) else if p.octets > HM_HEADER + maxLen then Some(Excessive) else None
    }

    // tls_has_unprocessed_handshake_data
    function HasUnprocessedData(): bool {
      var len := if hasMessage && Front().Got? then HM_HEADER + |Front().msg.body| else 0;
      hsBuf.Some? && |hsBuf.value| > len
    }

    // ssl3_open_handshake, for a record that opens to |typ| and |body|.
    function OpenHandshake(maxLen: nat, typ: u8, body: bytes): (Reader, Option<OpenError>) {
      var r := this.(hsBuf := Some(Buffered()));
      if r.CanAccept(maxLen).Some? then (r, r.CanAccept(maxLen))
      else if typ != HANDSHAKE then (r, Some(UnexpectedRecord))
      else (r.(hsBuf := Some(Buffered() + body)), None)
    }

    // ssl3_next_message
    function NextMessage(inInit: bool): (r: Reader)
      requires Front().Got?
    {
      var left := hsBuf.value[HM_HEADER + |Front().msg.body|..];
      Reader(if !inInit && left == [] then None else Some(left), false)
    }
  }

  // The octets of a list of messages.
  function Wire(ms: seq<Message>): bytes
    requires forall i | 0 <= i < |ms| :: ms[i].Valid()
  {
    if ms == [] then [] else ms[0].Raw() + Wire(ms[1..])
  }

  lemma {:induction false} WireSnoc(ms: seq<Message>, m: Message)
    requires (forall i | 0 <= i < |ms| :: ms[i].Valid()) && m.Valid()
    ensures Wire(ms + [m]) == Wire(ms) + m.Raw()
  {
    if ms == [] {
      assert Wire([m][1..]) == [];
    } else {
      assert (ms + [m])[1..] == ms[1..] + [m];
      WireSnoc(ms[1..], m);
    }
  }

  // The octets of a list of messages determine it: no list of messages is another one cut
  // short inside a message.
  lemma {:induction false} WirePrefix(got: seq<Message>, ms: seq<Message>)
    requires (forall i | 0 <= i < |got| :: got[i].Valid()) && (forall i | 0 <= i < |ms| :: ms[i].Valid())
    requires Wire(got) <= Wire(ms)
    ensures got <= ms
    ensures |got| < |ms| ==> |Wire(got)| < |Wire(ms)|
  {
    if got != [] {
      var g, gs := got[0], Wire(got[1..]);
      assert ms != [] by { assert |Wire(got)| >= HM_HEADER; }
      var m, rest := ms[0], Wire(ms[1..]);
      ParseRaw(m, rest);
      assert Wire(ms) == g.Raw() + Wire(ms)[|g.Raw()|..] by {
        assert Wire(ms)[..|g.Raw()|] == Wire(got)[..|g.Raw()|] == g.Raw();
      }
      ParseRaw(g, Wire(ms)[|g.Raw()|..]);
      assert g == m;
      assert gs == Wire(got)[|m.Raw()|..] && rest == Wire(ms)[|m.Raw()|..];
      assert gs <= rest;
      WirePrefix(got[1..], ms[1..]);
      assert got == [g] + got[1..] && ms == [m] + ms[1..];
    }
  }

  // What a handshake does with the buffer: open the next record, look at a message, or be
  // done with it.
  datatype Event = Open(typ: u8, body: bytes) | Get | Next(inInit: bool)

  // A reader, the bodies it has taken in, and the messages it has been done with.
  datatype Reading = Reading(reader: Reader, taken: bytes, done: seq<Message>)

  ghost function Step(s: Reading, maxLen: nat, e: Event): Reading {
    match e
    case Open(typ, body) =>
      var (r, err) := s.reader.OpenHandshake(maxLen, typ, body);
      Reading(r, if err.None? then s.taken + body else s.taken, s.done)
    case Get => s.(reader := s.reader.GetMessage().0)
    case Next(inInit) =>
      if s.reader.Front().Need? then s
      else Reading(s.reader.NextMessage(inInit), s.taken, s.done + [s.reader.Front().msg])
  }

  ghost function Steps(s: Reading, maxLen: nat, es: seq<Event>): Reading
    decreases |es|
  {
    if es == [] then s else Steps(Step(s, maxLen, es[0]), maxLen, es[1..])
  }

  // Messages done with, then what is buffered, are the bodies taken in.
  ghost predicate Framed(s: Reading) {
    && (forall i | 0 <= i < |s.done| :: s.done[i].Valid())
    && Wire(s.done) + s.reader.Buffered() == s.taken
  }

  lemma StepKeepsFramed(s: Reading, maxLen: nat, e: Event)
    requires Framed(s)
    ensures Framed(Step(s, maxLen, e))
  {
    hide Wire;
    match e
    case Open(typ, body) =>
      assert Wire(s.done) + (s.reader.Buffered() + body) == Wire(s.done) + s.reader.Buffered() + body;
    case Get =>
    case Next(inInit) =>
      if s.reader.Front().Got? {
        var m, buf := s.reader.Front().msg, s.reader.hsBuf.value;
        ParseSound(buf);
        WireSnoc(s.done, m);
        hide Parse;
        var left := buf[|m.Raw()|..];
        assert Wire(s.done) + m.Raw() + left == Wire(s.done) + (m.Raw() + left);
      }
  }

  lemma {:induction false} StepsKeepFramed(s: Reading, maxLen: nat, es: seq<Event>)
    requires Framed(s)
    ensures Framed(Steps(s, maxLen, es))
    decreases |es|
  {
    hide Framed, Step;
    if es != [] {
      StepKeepsFramed(s, maxLen, es[0]);
      StepsKeepFramed(Step(s, maxLen, es[0]), maxLen, es[1..]);
    }
  }

  // Whatever the order of calls and however the messages were cut into records, what the
  // reader has been done with is a prefix of what was sent; and when everything has been
  // taken in and no message waits, it is all of it.
  lemma FramingRoundTrip(maxLen: nat, es: seq<Event>, ms: seq<Message>)
    requires forall i | 0 <= i < |ms| :: ms[i].Valid()
    requires Steps(Reading(Reader(None, false), [], []), maxLen, es).taken <= Wire(ms)
    ensures var s := Steps(Reading(Reader(None, false), [], []), maxLen, es);
      && s.done <= ms
      && (s.taken == Wire(ms) && s.reader.Front().Need? ==> s.done == ms && s.reader.Buffered() == [])
  {
    hide Wire, Steps;
    var start := Reading(Reader(None, false), [], []);
    assert Framed(start) by { assert Wire([]) == [] by { EmptyWire(); } }
    StepsKeepFramed(start, maxLen, es);
    var s := Steps(start, maxLen, es);
    assert Wire(s.done) <= s.taken;
    WirePrefix(s.done, ms);
    if s.taken == Wire(ms) && s.reader.Front().Need? {
      RestParses(s.done, ms, s.reader.Buffered());
    }
  }

  lemma EmptyWire()
    ensures Wire([]) == []
  {}

  // Behind the messages done with, the next one is at the front.
  lemma {:induction false} RestParses(done: seq<Message>, ms: seq<Message>, buf: bytes)
    requires (forall i | 0 <= i < |ms| :: ms[i].Valid()) && done <= ms && Wire(done) + buf == Wire(ms)
    ensures if done == ms then buf == [] else Parse(buf).Got?
  {
    if done == ms {
      assert |buf| == 0;
    } else {
      var rest := ms[|done|..];
      WireJoin(done, rest);
      assert ms == done + rest;
      assert buf == (Wire(done) + buf)[|Wire(done)|..] == (Wire(done) + Wire(rest))[|Wire(done)|..] == Wire(rest);
      ParseRaw(rest[0], Wire(rest[1..]));
    }
  }

  lemma {:induction false} WireJoin(a: seq<Message>, b: seq<Message>)
    requires (forall i | 0 <= i < |a| :: a[i].Valid()) && (forall i | 0 <= i < |b| :: b[i].Valid())
    ensures Wire(a + b) == Wire(a) + Wire(b)
  {
    if a == [] {
      assert a + b == b;
    } else {
      assert (a + b)[1..] == a[1..] + b;
      WireJoin(a[1..], b);
    }
  }

  // A record is turned away exactly when a message waits, or the one that has begun is
  // longer than allowed, or it is not a handshake record.
  lemma OpenVerdict(s: Reader, maxLen: nat, typ: u8, body: bytes, m: Message, rest: bytes)
    requires m.Valid() && s.Buffered() <= m.Raw() + rest
    ensures s.OpenHandshake(maxLen, typ, body).1.None? <==>
      && |s.Buffered()| < |m.Raw()|
      && (|s.Buffered()| < HM_HEADER || |m.body| <= maxLen)
      && typ == HANDSHAKE
  {
    var buf := s.Buffered();
    if |buf| < |m.Raw()| {
      assert buf <= m.Raw() by {
        assert buf == (m.Raw() + rest)[..|buf|] == m.Raw()[..|buf|];
      }
      ParseShort(m, buf);
    } else {
      var extra := buf[|m.Raw()|..];
      assert buf[..|m.Raw()|] == (m.Raw() + rest)[..|m.Raw()|] == m.Raw();
      assert buf == m.Raw() + extra;
      ParseRaw(m, extra);
    }
  }
}
