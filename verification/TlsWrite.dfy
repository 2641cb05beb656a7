/** What the writing half of a TLS connection does, as functions on values: application
    data (s3_pkt.cc), handshake flights (s3_both.cc), alerts, and the write buffer
    (ssl_buffer.cc). A BIO may take any part of what it is offered, or fail. */
module TlsWrite {
  import opened Bytes
  import opened RecordTypes

  // SSLBuffer lengths are 16 bits wide.
  const BUFFER_MAX: nat := 0xffff
  const INT_MAX: nat := 0x7fff_ffff

  // A record tls_seal_record produced.
  datatype Sealed = Sealed(typ: u8, payload: bytes, wire: bytes)

  // What does not change while writing. |seal| gives the octets of the record with a
  // given number, type and plaintext, and nothing when sealing fails.
  datatype Conf = Conf(
    maxSendFragment: nat,
    movingBuffer: bool,
    partialWrite: bool,
    overhead: nat,
    alertAddress: nat,
    seal: (nat, u8, bytes) -> Option<bytes>)

  // The transport: what its coming calls return, and the octets it has taken.
  datatype Bio = Bio(script: seq<int>, wire: bytes)

  // An SSLBuffer: the octets in use, and how many there may be.
  datatype Buffer = Buffer(data: bytes, cap: nat)

  // The wpend_ fields: the record that is being written.
  datatype Pending = Pending(active: bool, tot: nat, address: nat, typ: u8, ret: nat)

  // The writing fields of SSL3_STATE, with the records sealed so far.
  datatype Writer = Writer(
    sealed: seq<Sealed>,
    bio: Bio,
    buffer: Buffer,
    flight: Option<bytes>,
    flightOffset: nat,
    wnum: nat,
    pend: Pending,
    shutdown: bool,
    alertDispatch: bool,
    sendAlert: bytes,
    transcript: Option<bytes>)
  {
    predicate Valid() {
      && |buffer.data| <= buffer.cap <= BUFFER_MAX
      && flightOffset <= |Flight()|
      && (pend.active ==> pend.ret == pend.tot > 0)
      && |sendAlert| == 2
    }

    function Flight(): bytes {
      if flight.None? then [] else flight.value
    }

    function Unsent(): bytes
      requires flightOffset <= |Flight()|
    {
      Flight()[flightOffset..]
    }
  }

  // A connection before it has written anything.
  function NewWriter(script: seq<int>): (w: Writer)
    ensures w.Valid()
  {
    Writer([], Bio(script, []), Buffer([], 0), None, 0, 0, Pending(false, 0, 0, 0, 0), false, false, [0, 0], None)
  }

  // A BIO call that offers |len| octets: what it returns, at most |len|.
  function BioResult(b: Bio, len: nat): (ret: int)
    ensures ret <= len
  {
    if b.script == [] then -1 else if b.script[0] > len then len else b.script[0]
  }

  function BioCall(b: Bio): (r: Bio)
    ensures r.wire == b.wire
  {
    b.(script := if b.script == [] then [] else b.script[1..])
  }

  // BIO_write
  function BioWrite(b: Bio, data: bytes): (r: (Bio, int))
    ensures r.1 <= |data|
    ensures r.0.wire == b.wire + if r.1 > 0 then data[..r.1] else []
  {
    var ret := BioResult(b, |data|);
    (BioCall(b).(wire := b.wire + if ret > 0 then data[..ret] else []), ret)
  }

  // tls_write_buffer_flush
  function BufferDrained(b: Bio, u: Buffer): (r: (Bio, Buffer, int))
    requires |u.data| <= u.cap
    ensures |r.1.data| <= r.1.cap <= u.cap
    ensures r.2 > 0 ==> r.2 == 1 && r.1 == Buffer([], 0)
    decreases |u.data|
  {
    if u.data == [] then (b, Buffer([], 0), 1)
    else
      var (b', ret) := BioWrite(b, u.data);
      if ret <= 0 then (b', u, ret) else BufferDrained(b', Buffer(u.data[ret..], u.cap - ret))
  }

  // The loop of ssl3_flush_flight, with pending_flight_offset.
  function FlightDrained(b: Bio, flight: bytes, offset: nat): (r: (Bio, nat, int))
    requires offset <= |flight|
    ensures r.1 <= |flight| && (r.2 > 0 ==> r.2 == 1 && r.1 == |flight|)
    decreases |flight| - offset
  {
    if offset >= |flight| then (b, offset, 1)
    else
      var (b', ret) := BioWrite(b, flight[offset..]);
      if ret <= 0 then (b', offset, ret) else FlightDrained(b', flight, offset + ret)
  }

  // ssl_write_buffer_flush
  function FlushBuffer(w: Writer): (r: (Writer, int))
    requires w.Valid()
    ensures r.0.Valid() && (r.1 > 0 ==> r.1 == 1 && r.0.buffer.data == [])
    ensures r.0 == w.(bio := r.0.bio, buffer := r.0.buffer)
  {
    var (b, u, ret) := BufferDrained(w.bio, w.buffer);
    (w.(bio := b, buffer := u), ret)
  }

  // ssl3_flush_flight
  function FlushFlight(w: Writer): (r: (Writer, int))
    requires w.Valid()
    ensures r.0.Valid()
    ensures r.0 == w.(bio := r.0.bio, buffer := r.0.buffer, flight := r.0.flight, flightOffset := r.0.flightOffset)
    ensures r.1 > 0 ==> r.0.flight.None? && (w.flight.Some? ==> r.0.buffer.data == [])
  {
    if w.flight.None? then (w, 1)
    else if w.shutdown || |w.flight.value| > INT_MAX then (w, -1)
    else
      var (w1, ret1) := if w.buffer.data != [] then FlushBuffer(w) else (w, 1);
      if ret1 <= 0 then (w1, ret1)
      else
        var (b, offset, ret2) := FlightDrained(w1.bio, w1.flight.value, w1.flightOffset);
        var w2 := w1.(bio := b, flightOffset := offset);
        if ret2 <= 0 then (w2, ret2)
        else
          var w3 := w2.(bio := BioCall(b));
          if BioResult(b, 1) <= 0 then (w3, -1)
          else (w3.(flight := None, flightOffset := 0), 1)
  }

  // tls_seal_record into a buffer of |maxOut| octets.
  function SealRecord(c: Conf, w: Writer, maxOut: nat, typ: u8, payload: bytes): (r: (Writer, Option<bytes>))
    ensures r.1.Some? ==>
      |r.1.value| <= maxOut && r.0 == w.(sealed := w.sealed + [Sealed(typ, payload, r.1.value)])
    ensures r.1.None? ==> r.0 == w
  {
    var out := c.seal(|w.sealed|, typ, payload);
    if out.None? || |out.value| > maxOut then (w, None)
    else (w.(sealed := w.sealed + [Sealed(typ, payload, out.value)]), out)
  }

  // add_record_to_flight
  function AddRecord(c: Conf, w: Writer, typ: u8, payload: bytes): (r: (Writer, bool))
    requires w.Valid() && w.flightOffset == 0
    ensures r.0.Valid()
    ensures r.0 == w.(sealed := r.0.sealed, flight := r.0.flight)
  {
    var (w', out) := SealRecord(c, w, |payload| + c.overhead, typ, payload);
    if out.None? then (w'.(flight := Some(w.Flight())), false)
    else (w'.(flight := Some(w.Flight() + out.value)), true)
  }

  // The loop of ssl3_add_message: at least one record, and none longer than allowed.
  function AddChunks(c: Conf, w: Writer, rest: bytes): (r: (Writer, bool))
    requires w.Valid() && w.flightOffset == 0 && c.maxSendFragment >= 1
    ensures r.0.Valid()
    ensures r.0 == w.(sealed := r.0.sealed, flight := r.0.flight)
    decreases |rest|
  {
    var n := if |rest| < c.maxSendFragment then |rest| else c.maxSendFragment;
    var (w', ok) := AddRecord(c, w, HANDSHAKE, rest[..n]);
    if !ok then (w', false)
    else if rest[n..] == [] then (w', true)
    else AddChunks(c, w', rest[n..])
  }

  // ssl3_add_message
  function AddMessage(c: Conf, w: Writer, msg: bytes): (r: (Writer, bool))
    requires w.Valid() && w.flightOffset == 0 && c.maxSendFragment >= 1
    ensures r.0.Valid()
    ensures r.0 == w.(sealed := r.0.sealed, flight := r.0.flight, transcript := r.0.transcript)
  {
    var (w', ok) := AddChunks(c, w, msg);
    if !ok then (w', false)
    else if w'.transcript.None? then (w', true)
    else (w'.(transcript := Some(w'.transcript.value + msg)), true)
  }

  // ssl3_write_pending
  function WritePending(c: Conf, w: Writer, typ: u8, address: nat, len: nat): (r: (Writer, int))
    requires w.Valid()
    ensures r.0.Valid()
    ensures r.0 == w.(bio := r.0.bio, buffer := r.0.buffer, pend := w.pend.(active := r.0.pend.active))
    ensures if r.1 > 0 then !r.0.pend.active else r.0.pend.active == w.pend.active || w.pend.ret == 0
    ensures r.1 > 0 ==> r.1 == w.pend.ret && w.pend.tot <= len && w.pend.typ == typ
  {
    if w.pend.tot > len || (!c.movingBuffer && w.pend.address != address) || w.pend.typ != typ then (w, -1)
    else
      var (w', ret) := FlushBuffer(w);
      if ret <= 0 then (w', ret) else (w'.(pend := w.pend.(active := false)), w.pend.ret)
  }

  // do_ssl3_write up to the sealing: the unsent flight becomes the start of the write buffer.
  function StageFlight(c: Conf, w: Writer, len: nat): (r: Option<Writer>)
    requires w.Valid() && w.buffer.data == []
    ensures r.Some? ==>
      && r.value.Valid()
      && r.value == w.(buffer := Buffer(w.Unsent(), r.value.buffer.cap), flight := None, flightOffset := 0)
  {
    var maxOut := len + c.overhead + |w.Unsent()|;
    if maxOut > BUFFER_MAX then None
    else Some(w.(buffer := Buffer(w.Unsent(), if w.buffer.cap >= maxOut then w.buffer.cap else maxOut),
                 flight := None, flightOffset := 0))
  }

  // do_ssl3_write from the sealing to the call of ssl3_write_pending
  function SealPending(c: Conf, w: Writer, typ: u8, address: nat, input: bytes): (r: (Writer, bool))
    requires w.Valid() && |input| > 0
    ensures r.0.Valid()
    ensures r.1 ==>
      && |r.0.sealed| == |w.sealed| + 1 && r.0.sealed == w.sealed + [r.0.sealed[|w.sealed|]]
      && r.0.sealed[|w.sealed|].typ == typ && r.0.sealed[|w.sealed|].payload == input
      && r.0.pend == Pending(true, |input|, address, typ, |input|)
    ensures r.0 == if r.1 then w.(sealed := r.0.sealed, buffer := r.0.buffer, pend := r.0.pend) else w
  {
    var (w', out) := SealRecord(c, w, w.buffer.cap - |w.buffer.data|, typ, input);
    if out.None? then (w', false)
    else (w'.(buffer := w.buffer.(data := w.buffer.data + out.value),
              pend := Pending(true, |input|, address, typ, |input|)), true)
  }

  // do_ssl3_write
  function DoWrite(c: Conf, w: Writer, typ: u8, address: nat, input: bytes): (r: (Writer, int))
    requires w.Valid()
    ensures r.0.Valid() && r.0.wnum == w.wnum && r.0.transcript == w.transcript && r.0.sendAlert == w.sendAlert
    ensures r.0.shutdown == w.shutdown
    ensures r.1 > 0 ==> r.1 <= |input| && !r.0.pend.active
  {
    if w.pend.active then WritePending(c, w, typ, address, |input|)
    else if |input| > MAX_PLAIN || |w.buffer.data| > 0 then (w, -1)
    else if |input| == 0 then (w, 0)
    else
      var staged := StageFlight(c, w, |input|);
      if staged.None? then (w, -1)
      else
        var (w', ok) := SealPending(c, staged.value, typ, address, input);
        if !ok then (w', -1) else WritePending(c, w', typ, address, |input|)
  }

  // The loop of ssl3_write_app_data.
  function WriteLoop(c: Conf, w: Writer, address: nat, input: bytes, tot: nat): (r: (Writer, int))
    requires w.Valid() && tot <= |input|
    ensures r.0.Valid() && r.1 <= |input|
    decreases |input| - tot
  {
    var n := |input| - tot;
    var nw := if n > c.maxSendFragment then c.maxSendFragment else n;
    var (w', ret) := DoWrite(c, w, APPLICATION_DATA, address + tot, input[tot..tot + nw]);
    if ret <= 0 then (w'.(wnum := tot), ret)
    else if ret == n || c.partialWrite then (w', tot + ret)
    else WriteLoop(c, w', address, input, tot + ret)
  }

  // ssl3_write_app_data of |len| octets at |address|.
  function WriteAppData(c: Conf, w: Writer, address: nat, input: bytes, len: int): (r: (Writer, int))
    requires w.Valid() && (if len < 0 then input == [] else len == |input|)
    ensures r.0.Valid() && r.1 <= |input|
  {
    if w.shutdown then (w, -1)
    else
      var w' := w.(wnum := 0);
      if len < w.wnum then (w', -1) else WriteLoop(c, w', address, input, w.wnum)
  }

  const ALERT_FATAL: u8 := 2

  // ssl3_dispatch_alert
  function DispatchAlert(c: Conf, w: Writer): (r: (Writer, int))
    requires w.Valid()
    ensures r.0.Valid()
  {
    var (w', ret) := DoWrite(c, w, ALERT, c.alertAddress, w.sendAlert);
    if ret <= 0 then (w', ret)
    else
      var w'' := w'.(alertDispatch := false);
      (if w.sendAlert[0] == ALERT_FATAL then w''.(bio := BioCall(w''.bio)) else w'', 1)
  }

  // ssl_send_alert
  function SendAlert(c: Conf, w: Writer, level: u8, desc: u8): (r: (Writer, int))
    requires w.Valid()
    ensures r.0.Valid()
  {
    if w.shutdown then (w, -1)
    else
      var w' := w.(shutdown := true, alertDispatch := true, sendAlert := [level, desc]);
      if w'.buffer.data == [] then DispatchAlert(c, w') else (w', -1)
  }
}
