/** The growing buffer of handshake octets (BUF_MEM in crypto/buf/buf.c) and what s3_both.cc
    does with it in place: append record bodies, parse the front, move the rest down. */
module TlsReadBuffer {
  import opened Bytes
  import opened RecordTypes
  import opened TlsFraming

  // BUF_MEM: |data.Length| is its max.
  class BufMem {
    var data: array<u8>
    var length: nat

    ghost predicate Valid()
      reads this
    {
      length <= data.Length
    }

    ghost function Contents(): (b: bytes)
      requires Valid()
      reads this, data
      ensures |b| == length
    {
      data[..length]
    }

    constructor ()
      ensures Valid() && fresh(data) && Contents() == []
    {
      data, length := new u8[0], 0;
    }

    // BUF_MEM_reserve: a third more than asked for.
    method Reserve(cap: nat)
      requires Valid()
      modifies `data
      ensures Valid() && Contents() == old(Contents())
      ensures data.Length == if old(data.Length) >= cap then old(data.Length) else (cap + 3) / 3 * 4
      ensures cap <= data.Length
      ensures data == old(data) || fresh(data)
    {
      if data.Length >= cap { return; }
      var n := (cap + 3) / 3;
      var newBuf := new u8[n * 4](_ => 0);
      for i := 0 to length
        modifies newBuf
        invariant newBuf[..i] == data[..i]
      {
        newBuf[i] := data[i];
        assert newBuf[..i + 1] == newBuf[..i] + [newBuf[i]] && data[..i + 1] == data[..i] + [data[i]];
      }
      data := newBuf;
    }

    // BUF_MEM_append
    method Append(input: bytes)
      requires Valid()
      modifies this, data
      ensures Valid() && Contents() == old(Contents()) + input
      ensures data == old(data) || fresh(data)
    {
      Reserve(length + |input|);
      ghost var before := data[..length];
      for i := 0 to |input|
        modifies data
        invariant data[..length + i] == before + input[..i]
      {
        data[length + i] := input[i];
        assert data[..length + (i + 1)] == data[..length + i] + [input[i]];
        assert input[..i + 1] == input[..i] + [input[i]];
      }
      length := length + |input|;
      assert input[..|input|] == input;
    }

    // The OPENSSL_memmove of ssl3_next_message, front to back, and the new length.
    method MoveDown(n: nat)
      requires Valid() && n <= length
      modifies `length, data
      ensures Valid() && Contents() == old(Contents())[n..] && data == old(data)
    {
      ghost var was := data[..];
      for i := 0 to length - n
        modifies data
        invariant data[..i] == was[n..n + i] && data[i..] == was[i..]
      {
        assert data[i + n] == data[i..][n] == was[i..][n];
        data[i] := data[i + n];
        assert data[..i + 1] == data[..i] + [was[n + i]] && was[n..n + (i + 1)] == was[n..n + i] + [was[n + i]];
        assert data[i + 1..] == was[i..][1..] == was[i + 1..];
      }
      assert was[..length][n..] == was[n..length];
      length := length - n;
    }
  }

  // hs_buf and has_message.
  class HandshakeBuffer {
    var hsBuf: BufMem?
    var hasMessage: bool

    ghost predicate Valid()
      reads this, hsBuf
    {
      hsBuf != null ==> hsBuf.Valid()
    }

    ghost function Contents(): bytes
      requires Valid()
      reads this, hsBuf, if hsBuf == null then {} else {hsBuf.data}
    {
      if hsBuf == null then [] else hsBuf.Contents()
    }

    ghost function Abs(): Reader
      requires Valid()
      reads this, hsBuf, if hsBuf == null then {} else {hsBuf.data}
    {
      Reader(if hsBuf == null then None else Some(hsBuf.Contents()), hasMessage)
    }

    constructor ()
      ensures Valid() && Abs() == Reader(None, false)
    {
      hsBuf, hasMessage := null, false;
    }

    // parse_message: the message the buffer begins with, if all of it is there.
    method ParseFront() returns (p: Parsed)
      requires Valid()
      ensures p == Abs().Front()
      ensures p.Got? ==> p.msg.Valid() && p.msg.Raw() <= Contents()
      ensures p.Need? ==> forall m: Message | m.Valid() :: !(m.Raw() <= Contents())
    {
      WhatFrontMeans(Abs());
      if hsBuf == null || hsBuf.length < HM_HEADER { return Need(HM_HEADER); }
      var data := hsBuf.data;
      SliceOfFront(data[..], hsBuf.length, 1, 4);
      var len := Get24(data[1..4]);
      if hsBuf.length - HM_HEADER < len { return Need(HM_HEADER + len); }
      SliceOfFront(data[..], hsBuf.length, HM_HEADER, HM_HEADER + len);
      p := Got(Message(data[0], data[HM_HEADER..HM_HEADER + len]));
    }

    // ssl3_get_message
    method GetMessage() returns (m: Option<Message>)
      requires Valid()
      modifies `hasMessage
      ensures Valid() && (Abs(), m) == old(Abs()).GetMessage()
      ensures Contents() == old(Contents())
      ensures m.Some? ==> m.value.Valid() && m.value.Raw() <= Contents() && hasMessage
      ensures m.None? ==> (forall x: Message | x.Valid() :: !(x.Raw() <= Contents())) && hasMessage == old(hasMessage)
    {
      var p := ParseFront();
      if p.Need? { return None; }
      hasMessage := true;
      m := Some(p.msg);
    }

    // ssl3_open_handshake behind tls_open_record
    method OpenHandshake(maxLen: nat, typ: u8, body: bytes) returns (err: Option<OpenError>)
      requires Valid()
      modifies this, hsBuf, if hsBuf == null then {} else {hsBuf.data}
      ensures Valid() && (Abs(), err) == old(Abs()).OpenHandshake(maxLen, typ, body)
      ensures Contents() == if err.None? then old(Contents()) + body else old(Contents())
    {
      if hsBuf == null { hsBuf := new BufMem(); }
      var p := ParseFront();
      if p.Got? { return Some(WaitingMessage); }
      if p.octets > HM_HEADER + maxLen { return Some(Excessive); }
      if typ != HANDSHAKE { return Some(UnexpectedRecord); }
      hsBuf.Append(body);
      err := None;
    }

    // ssl3_next_message
    method NextMessage(inInit: bool)
      requires Valid() && Abs().Front().Got?
      modifies this, hsBuf, if hsBuf == null then {} else {hsBuf.data}
      ensures Valid() && Abs() == old(Abs()).NextMessage(inInit)
      ensures old(Contents()) == old(Abs()).Front().msg.Raw() + Contents() && !hasMessage
    {
      ghost var was := Contents();
      var p := ParseFront();
      ParseSound(was);
      hsBuf.MoveDown(HM_HEADER + |p.msg.body|);
      hasMessage := false;
      if !inInit && hsBuf.length == 0 { hsBuf := null; }
    }
  }

  lemma SliceOfFront(b: bytes, n: nat, from: nat, to: nat)
    requires from <= to <= n <= |b|
    ensures b[..n][from..to] == b[from..to]
  {}

  // What the parse of a reader's front says about its octets.
  lemma WhatFrontMeans(r: Reader)
    ensures r.Front().Got? ==> r.Front().msg.Valid() && r.Front().msg.Raw() <= r.Buffered()
    ensures r.Front().Need? ==> forall m: Message | m.Valid() :: !(m.Raw() <= r.Buffered())
  {
    var b := r.Buffered();
    if r.Front().Got? {
      ParseSound(b);
    } else {
      forall m: Message | m.Valid() && m.Raw() <= b ensures false {
        var rest := b[|m.Raw()|..];
        assert b == m.Raw() + rest;
        ParseRaw(m, rest);
      }
    }
  }
}
