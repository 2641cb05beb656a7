/** The writing fields of SSL3_STATE and its write buffer, updated in place, refining
    TlsWrite. */
module TlsWriter {
  import opened Bytes
  import opened RecordTypes
  import opened TlsWrite

  // A stream BIO: |script| decides how much the coming calls take.
  class StreamBio {
    var script: seq<int>
    var wire: bytes

    ghost function Abs(): Bio
      reads this
    {
      Bio(script, wire)
    }

    constructor (script: seq<int>)
      ensures Abs() == Bio(script, [])
    {
      this.script, wire := script, [];
    }

    // BIO_write
    method Write(data: bytes) returns (ret: int)
      modifies this
      ensures (Abs(), ret) == BioWrite(old(Abs()), data)
    {
      ret := Flush(|data|);
      assert wire + [] == wire;
      if ret > 0 { wire := wire + data[..ret]; }
    }

    // What a call that offers |most| octets returns; BIO_flush when that is 1.
    method Flush(most: nat) returns (ret: int)
      modifies this
      ensures Abs() == BioCall(old(Abs())) && ret == BioResult(old(Abs()), most)
    {
      if script == [] { return -1; }
      ret, script := script[0], script[1..];
      if ret > most { ret := most; }
    }
  }

  // SSLBuffer: |cap| octets from |offset| on, of which the first |size| are in use.
  class SslBuffer {
    var buf: array?<u8>
    var offset: nat
    var size: nat
    var cap: nat

    predicate Valid()
      reads this
    {
      && size <= cap <= BUFFER_MAX
      && (if buf == null then cap == 0 else offset + cap <= buf.Length)
    }

    // The octets in use, at data().
    function Contents(): (data: bytes)
      requires Valid()
      reads this, buf
      ensures |data| == size
    {
      if buf == null then [] else buf[offset..offset + size]
    }

    ghost function Abs(): (b: Buffer)
      requires Valid()
      reads this, buf
      ensures |b.data| == size
    {
      Buffer(Contents(), cap)
    }

    constructor ()
      ensures Valid() && buf == null && Contents() == []
    {
      buf, offset, size, cap := null, 0, 0, 0;
    }

    method Clear()
      modifies this
      ensures Valid() && buf == null && Abs() == Buffer([], 0) && size == 0
    {
      buf, offset, size, cap := null, 0, 0, 0;
    }

    // EnsureCap; |address| is where the new allocation lies.
    method EnsureCap(headerLen: nat, newCap: nat, address: nat) returns (ok: bool)
      requires Valid()
      modifies this
      ensures Valid() && Contents() == old(Contents()) && size == old(size)
      ensures ok <==> newCap <= BUFFER_MAX
      ensures cap == if ok && old(cap) < newCap then newCap else old(cap)
      ensures buf == old(buf) || fresh(buf)
      ensures buf != old(buf) ==> (offset + headerLen + address) % 8 == 0
    {
      if newCap > BUFFER_MAX { return false; }
      if cap >= newCap { return true; }
      var newOffset := (0 - headerLen - address) % 8;
      var data := Contents();
      var newBuf := new u8[newCap + 7](_ => 0);
      CopyInto(newBuf, newOffset, data);
      buf, offset, cap := newBuf, newOffset, newCap;
      ok := true;
    }

    // OPENSSL_memcpy
    static method CopyInto(a: array<u8>, at: nat, data: bytes)
      requires at + |data| <= a.Length
      modifies a
      ensures a[at..at + |data|] == data && a[..at] == old(a[..at])
    {
      for i := 0 to |data|
        invariant a[at..at + i] == data[..i] && a[..at] == old(a[..at])
      {
        a[at + i] := data[i];
        assert data[..i + 1] == data[..i] + [data[i]];
        assert a[at..at + (i + 1)] == a[at..at + i] + [data[i]];
      }
    }

    // A copy to remaining(), then DidWrite.
    method Append(data: bytes)
      requires Valid() && |data| <= cap - size
      modifies this, buf
      ensures Valid() && Contents() == old(Contents()) + data
      ensures buf == old(buf) && cap == old(cap) && size == old(size) + |data|
    {
      if buf == null { return; }
      CopyInto(buf, offset + size, data);
      assert buf[offset..offset + size] == old(Contents());
      assert buf[offset..offset + (size + |data|)] == buf[offset..offset + size] + buf[offset + size..offset + size + |data|];
      size := size + |data|;
    }

    // Consume
    method Consume(len: nat)
      requires Valid() && len <= size
      modifies this
      ensures Valid() && Abs() == Buffer(old(Contents())[len..], old(cap) - len)
      ensures buf == old(buf) && size == old(size) - len
    {
      offset, size, cap := offset + len, size - len, cap - len;
    }
  }

  // tls_write_buffer_flush
  method DrainBuffer(bio: StreamBio, buffer: SslBuffer) returns (ret: int)
    requires buffer.Valid()
    modifies bio, buffer
    ensures buffer.Valid()
    ensures (bio.Abs(), buffer.Abs(), ret) == BufferDrained(old(bio.Abs()), old(buffer.Abs()))
    ensures buffer.buf == old(buffer.buf) || buffer.buf == null
  {
    hide BioWrite, BufferDrained, SslBuffer.Contents;
    ghost var spec := BufferDrained(bio.Abs(), buffer.Abs());
    while buffer.size != 0
      invariant buffer.Valid() && buffer.buf == old(buffer.buf)
      invariant BufferDrained(bio.Abs(), buffer.Abs()) == spec
      decreases buffer.size
    {
      DrainTurn(bio.Abs(), buffer.Abs());
      ret := bio.Write(buffer.Contents());
      if ret <= 0 { return; }
      buffer.Consume(ret);
    }
    DrainTurn(bio.Abs(), buffer.Abs());
    buffer.Clear();
    ret := 1;
  }

  // One turn of the loop.
  lemma DrainTurn(b: Bio, u: Buffer)
    ensures |u.data| <= u.cap ==>
      var (b', ret) := BioWrite(b, u.data);
      BufferDrained(b, u) ==
        if u.data == [] then (b, Buffer([], 0), 1)
        else if ret <= 0 then (b', u, ret)
        else BufferDrained(b', Buffer(u.data[ret..], u.cap - ret))
  {
    hide BioWrite;
  }

  // The loop of ssl3_flush_flight.
  method DrainFlight(bio: StreamBio, flight: bytes, from: nat) returns (offset: nat, ret: int)
    requires from <= |flight|
    modifies bio
    ensures (bio.Abs(), offset, ret) == FlightDrained(old(bio.Abs()), flight, from)
  {
    hide BioWrite;
    offset := from;
    while offset < |flight|
      invariant offset <= |flight|
      invariant FlightDrained(bio.Abs(), flight, offset) == FlightDrained(old(bio.Abs()), flight, from)
    {
      ret := bio.Write(flight[offset..]);
      if ret <= 0 { return; }
      offset := offset + ret;
    }
    ret := 1;
  }

  class Connection {
    const conf: Conf
    const bio: StreamBio
    const buffer: SslBuffer
    ghost var sealed: seq<Sealed>
    var number: nat
    var flight: Option<bytes>
    var flightOffset: nat
    var wnum: nat
    var pend: Pending
    var shutdown: bool
    var alertDispatch: bool
    var sendAlert: bytes
    var transcript: Option<bytes>

    ghost predicate Valid()
      reads this, bio, buffer, buffer.buf
    {
      buffer.Valid() && number == |sealed| && Abs().Valid()
    }

    ghost function Abs(): Writer
      requires buffer.Valid()
      reads this, bio, buffer, buffer.buf
    {
      Writer(sealed, bio.Abs(), buffer.Abs(), flight, flightOffset, wnum,
             pend, shutdown, alertDispatch, sendAlert, transcript)
    }

    constructor (conf: Conf, script: seq<int>)
      ensures Valid() && fresh(bio) && fresh(buffer) && buffer.buf == null
      ensures Abs() == NewWriter(script)
    {
      this.conf := conf;
      bio := new StreamBio(script);
      buffer := new SslBuffer();
      sealed, number, flight, flightOffset, wnum := [], 0, None, 0, 0;
      pend := Pending(false, 0, 0, 0, 0);
      shutdown, alertDispatch, sendAlert, transcript := false, false, [0, 0], None;
    }

    // ssl3_flush_flight
    method FlushFlight() returns (ret: int)
      requires Valid()
      modifies this, bio, buffer
      ensures Valid() && (Abs(), ret) == TlsWrite.FlushFlight(old(Abs()))
      ensures buffer.buf == old(buffer.buf) || buffer.buf == null
    {
      hide BufferDrained, FlightDrained, BioCall, BioResult;
      if flight.None? { return 1; }
      if shutdown || |flight.value| > INT_MAX { return -1; }
      if buffer.size != 0 {
        ret := DrainBuffer(bio, buffer);
        if ret <= 0 { return; }
      }
      flightOffset, ret := DrainFlight(bio, flight.value, flightOffset);
      if ret <= 0 { return; }
      ret := bio.Flush(1);
      if ret <= 0 { return -1; }
      flight, flightOffset := None, 0;
      ret := 1;
    }

    // tls_seal_record
    method SealRecord(maxOut: nat, typ: u8, payload: bytes) returns (out: Option<bytes>)
      requires Valid()
      modifies `sealed, `number
      ensures Valid() && (Abs(), out) == TlsWrite.SealRecord(conf, old(Abs()), maxOut, typ, payload)
    {
      out := conf.seal(number, typ, payload);
      if out.None? || |out.value| > maxOut { return None; }
      sealed, number := sealed + [Sealed(typ, payload, out.value)], number + 1;
    }

    // add_record_to_flight
    method AddRecord(typ: u8, payload: bytes) returns (ok: bool)
      requires Valid() && flightOffset == 0
      modifies this
      ensures Valid() && (Abs(), ok) == TlsWrite.AddRecord(conf, old(Abs()), typ, payload)
    {
      if flight.None? { flight := Some([]); }
      var out := SealRecord(|payload| + conf.overhead, typ, payload);
      if out.None? { return false; }
      flight := Some(flight.value + out.value);
      ok := true;
    }

    // ssl3_add_message
    method AddMessage(msg: bytes) returns (ok: bool)
      requires Valid() && flightOffset == 0 && conf.maxSendFragment >= 1
      modifies this
      ensures Valid() && (Abs(), ok) == TlsWrite.AddMessage(conf, old(Abs()), msg)
    {
      var rest := msg;
      hide TlsWrite.AddRecord;
      var more := true;
      ghost var spec := AddChunks(conf, Abs(), msg);
      while more
        invariant Valid() && flightOffset == 0 && transcript == old(transcript)
        invariant if more then AddChunks(conf, Abs(), rest) == spec else spec == (Abs(), true)
        decreases more, |rest|
      {
        var n := if |rest| < conf.maxSendFragment then |rest| else conf.maxSendFragment;
        var chunk := rest[..n];
        ok := AddRecord(HANDSHAKE, chunk);
        if !ok { return; }
        rest := rest[n..];
        more := rest != [];
      }
      if transcript.Some? { transcript := Some(transcript.value + msg); }
      ok := true;
    }

    // ssl3_write_pending
    method WritePending(typ: u8, address: nat, len: nat) returns (ret: int)
      requires Valid()
      modifies this, bio, buffer
      ensures Valid() && (Abs(), ret) == TlsWrite.WritePending(conf, old(Abs()), typ, address, len)
      ensures buffer.buf == old(buffer.buf) || buffer.buf == null
    {
      hide BufferDrained;
      if pend.tot > len || (!conf.movingBuffer && pend.address != address) || pend.typ != typ { return -1; }
      ret := DrainBuffer(bio, buffer);
      if ret <= 0 { return; }
      pend := pend.(active := false);
      ret := pend.ret;
    }

    // do_ssl3_write up to the sealing
    method StageFlight(len: nat, memory: nat) returns (ok: bool)
      requires Valid() && buffer.size == 0
      modifies this, buffer, buffer.buf
      ensures Valid() && sealed == old(sealed) && bio.Abs() == old(bio.Abs())
      ensures ok <==> TlsWrite.StageFlight(conf, old(Abs()), len).Some?
      ensures Abs() == if ok then TlsWrite.StageFlight(conf, old(Abs()), len).value else old(Abs())
      ensures buffer.buf == old(buffer.buf) || fresh(buffer.buf)
    {
      hide SslBuffer.Valid;
      ghost var w := Abs();
      var flightLen := if flight.None? then 0 else |flight.value| - flightOffset;
      var maxOut := len + conf.overhead + flightLen;
      ok := buffer.EnsureCap(flightLen, maxOut, memory);
      if !ok { return; }
      if flight.Some? {
        buffer.Append(flight.value[flightOffset..]);
        flight, flightOffset := None, 0;
      }
      assert buffer.Contents() == w.Unsent();
    }

    // do_ssl3_write from the sealing to the call of ssl3_write_pending
    method SealPending(typ: u8, address: nat, input: bytes) returns (ok: bool)
      requires Valid() && |input| > 0
      modifies this, buffer, buffer.buf
      ensures Valid() && bio.Abs() == old(bio.Abs()) && buffer.buf == old(buffer.buf)
      ensures (Abs(), ok) == TlsWrite.SealPending(conf, old(Abs()), typ, address, input)
    {
      var out := SealRecord(buffer.cap - buffer.size, typ, input);
      if out.None? { return false; }
      buffer.Append(out.value);
      pend := Pending(true, |input|, address, typ, |input|);
      ok := true;
    }

    // do_ssl3_write
    method DoWrite(typ: u8, address: nat, input: bytes, memory: nat) returns (ret: int)
      requires Valid()
      modifies this, bio, buffer, buffer.buf
      ensures Valid() && (Abs(), ret) == TlsWrite.DoWrite(conf, old(Abs()), typ, address, input)
      ensures buffer.buf == old(buffer.buf) || buffer.buf == null || fresh(buffer.buf)
    {
      hide TlsWrite.WritePending, TlsWrite.SealPending, TlsWrite.StageFlight;
      if pend.active {
        ret := WritePending(typ, address, |input|);
        return;
      }
      if |input| > MAX_PLAIN || buffer.size > 0 { return -1; }
      if |input| == 0 { return 0; }
      var staged := StageFlight(|input|, memory);
      if !staged { return -1; }
      var ok := SealPending(typ, address, input);
      if !ok { return -1; }
      ret := WritePending(typ, address, |input|);
    }

    // ssl3_dispatch_alert
    method DispatchAlert(memory: nat) returns (ret: int)
      requires Valid()
      modifies this, bio, buffer, buffer.buf
      ensures Valid() && (Abs(), ret) == TlsWrite.DispatchAlert(conf, old(Abs()))
    {
      hide TlsWrite.DoWrite, BioCall;
      ret := DoWrite(ALERT, conf.alertAddress, sendAlert, memory);
      if ret <= 0 { return; }
      alertDispatch := false;
      if sendAlert[0] == ALERT_FATAL { var _ := bio.Flush(1); }
      ret := 1;
    }

    // ssl_send_alert
    method SendAlert(level: u8, desc: u8, memory: nat) returns (ret: int)
      requires Valid()
      modifies this, bio, buffer, buffer.buf
      ensures Valid() && (Abs(), ret) == TlsWrite.SendAlert(conf, old(Abs()), level, desc)
    {
      hide TlsWrite.DispatchAlert;
      if shutdown { return -1; }
      shutdown, alertDispatch, sendAlert := true, true, [level, desc];
      if buffer.size == 0 { ret := DispatchAlert(memory); } else { ret := -1; }
    }

    // ssl3_write_app_data
    method WriteAppData(address: nat, input: bytes, len: int, memory: nat) returns (ret: int)
      requires Valid() && (if len < 0 then input == [] else len == |input|)
      modifies this, bio, buffer, buffer.buf
      ensures Valid() && (Abs(), ret) == TlsWrite.WriteAppData(conf, old(Abs()), address, input, len)
      ensures buffer.buf == old(buffer.buf) || buffer.buf == null || fresh(buffer.buf)
    {
      if shutdown { return -1; }
      var tot := wnum;
      wnum := 0;
      if len < 0 || len < tot { return -1; }
      hide TlsWrite.WriteLoop;
      ret := WriteRest(address, input, tot, memory);
    }

    // The loop of ssl3_write_app_data.
    method WriteRest(address: nat, input: bytes, from: nat, memory: nat) returns (ret: int)
      requires Valid() && from <= |input| && wnum == 0
      modifies this, bio, buffer, buffer.buf
      ensures Valid() && (Abs(), ret) == WriteLoop(conf, old(Abs()), address, input, from)
      ensures buffer.buf == old(buffer.buf) || buffer.buf == null || fresh(buffer.buf)
    {
      hide TlsWrite.DoWrite, WriteLoop;
      ghost var spec := WriteLoop(conf, Abs(), address, input, from);
      var tot: nat, n := from, |input| - from;
      while true
        invariant Valid() && 0 <= n == |input| - tot
        invariant buffer.buf == old(buffer.buf) || buffer.buf == null || fresh(buffer.buf)
        invariant WriteLoop(conf, Abs(), address, input, tot) == spec
        decreases n
      {
        var nw := if n > conf.maxSendFragment then conf.maxSendFragment else n;
        LoopTurn(conf, Abs(), address, input, tot);
        ret := DoWrite(APPLICATION_DATA, address + tot, input[tot..tot + nw], memory);
        if ret <= 0 {
          wnum := tot;
          return;
        }
        if ret == n || conf.partialWrite { return tot + ret; }
        n := n - ret;
        tot := tot + ret;
      }
    }
  }

  // One turn of the loop of ssl3_write_app_data.
  lemma LoopTurn(c: Conf, w: Writer, address: nat, input: bytes, tot: int)
    ensures w.Valid() && 0 <= tot <= |input| ==>
      var n := |input| - tot;
      var nw := if n > c.maxSendFragment then c.maxSendFragment else n;
      var (w', ret) := TlsWrite.DoWrite(c, w, APPLICATION_DATA, address + tot, input[tot..tot + nw]);
      WriteLoop(c, w, address, input, tot) ==
      if ret <= 0 then (w'.(wnum := tot), ret)
      else if ret == n || c.partialWrite then (w', tot + ret)
      else WriteLoop(c, w', address, input, tot + ret)
  {
    hide TlsWrite.DoWrite;
  }
}
