/** What the packets of one pass over a flight contain: the fragments of each message
    tile it, from the send cursor before the pass to the send cursor after it. */
module DtlsTiling {
  import opened HandshakeWire
  import opened DtlsRecord
  import opened RecordTypes
  import opened DtlsSend

  // The send cursor: |written| whole messages, then |offset| bytes of the next one.
  datatype Cursor = Cursor(written: nat, offset: nat)

  function At(s: Sender): Cursor {
    Cursor(s.written, s.offset)
  }

  // |rec| is a fragment of the message |p| that starts at |off|, and is empty only at its end.
  predicate OwedFragment(p: Parsed, off: nat, rec: Record) {
    && rec.typ == HANDSHAKE && rec.Valid()
    && HEADER_LENGTH <= |rec.payload|
    && p.hdr.Valid() && p.hdr.msgLen == |p.body|
    && var n := Carried(rec);
       && off + n <= |p.body|
       && (n > 0 || off == |p.body|)
       && rec.payload == FragmentBytes(p.hdr, off, p.body[off..off + n])
  }

  function Carried(rec: Record): nat
    requires HEADER_LENGTH <= |rec.payload|
  {
    |rec.payload| - HEADER_LENGTH
  }

  // |rec| is the record the sender owes at cursor |c|, sealed under its message's epoch.
  predicate Owed(q: seq<Outgoing>, c: Cursor, rec: Record) {
    && c.written < |q| && SealedUnder(q[c.written].epoch, rec)
    && if q[c.written].isCcs then c.offset == 0 && rec.typ == CHANGE_CIPHER_SPEC && rec.payload == CCS_BODY
       else
         var parsed := ParseFragment(q[c.written].data);
         Queueable(parsed) && OwedFragment(parsed.value, c.offset, rec)
  }

  function NextCursor(q: seq<Outgoing>, c: Cursor, rec: Record): Cursor
    requires Owed(q, c, rec)
  {
    if q[c.written].isCcs then Cursor(c.written + 1, 0)
    else
      var end := c.offset + Carried(rec);
      if end == |ParseFragment(q[c.written].data).value.body| then Cursor(c.written + 1, 0)
      else Cursor(c.written, end)
  }

  // |recs| carry the cursor from |c| to |d|, each record starting where the last ended.
  predicate Tiles(q: seq<Outgoing>, c: Cursor, recs: Packet, d: Cursor)
    decreases |recs|
  {
    if recs == [] then c == d
    else Owed(q, c, recs[0]) && Tiles(q, NextCursor(q, c, recs[0]), recs[1..], d)
  }

  lemma {:induction false} TilesCompose(q: seq<Outgoing>, c: Cursor, r: Packet, d: Cursor, t: Packet, e: Cursor)
    requires Tiles(q, c, r, d) && Tiles(q, d, t, e)
    ensures Tiles(q, c, r + t, e)
    decreases |r|
  {
    hide Owed, NextCursor;
    if r == [] {
      assert r + t == t;
    } else {
      TilesCompose(q, NextCursor(q, c, r[0]), r[1..], d, t, e);
      assert (r + t)[0] == r[0] && (r + t)[1..] == r[1..] + t;
    }
  }

  lemma {:induction false} TilesUnique(q: seq<Outgoing>, c: Cursor, r: Packet, d: Cursor, e: Cursor)
    requires Tiles(q, c, r, d) && Tiles(q, c, r, e)
    ensures d == e
    decreases |r|
  {
    if r != [] { TilesUnique(q, NextCursor(q, c, r[0]), r[1..], d, e); }
  }

  lemma FragmentTiles(s: Sender, maxOut: nat, p: Parsed, previous: bool)
    requires s.Valid() && (previous ==> s.wEpoch >= 1)
    requires s.written < |s.outgoing| && !s.outgoing[s.written].isCcs
    requires p.hdr.Valid() && p.hdr.msgLen == |p.body| && s.offset <= |p.body|
    ensures var (s', out) := SealFragment(s, maxOut, p, previous);
      if out.Partial? || out.Done? then
        && OwedFragment(p, s.offset, out.rec)
        && (out.Done? <==> s.offset + Carried(out.rec) == |p.body|)
        && s'.offset == if out.Done? then 0 else s.offset + Carried(out.rec)
      else s'.offset == s.offset
  {
    hide ParseFragment, SealRecord, PutHeader;
  }

  // Every record sealed moves the cursor by exactly what it carries.
  lemma StepTiles(s: Sender, maxOut: nat)
    requires s.Valid() && s.written < |s.outgoing|
    ensures var (s', out) := PacketStep(s, maxOut);
      if out.Partial? || out.Done? then Owed(s.outgoing, At(s), out.rec) && At(s') == NextCursor(s.outgoing, At(s), out.rec)
      else At(s') == At(s)
  {
    hide ParseFragment, SealFragment;
    var msg := s.outgoing[s.written];
    var previous := s.wEpoch >= 1 && msg.epoch == s.wEpoch - 1;
    if !msg.isCcs && (previous || msg.epoch == s.wEpoch) {
      var parsed := ParseFragment(msg.data);
      if Queueable(parsed) && s.offset <= |parsed.value.body| {
        SerialiseInvertsParse(msg.data);
        FragmentTiles(s, maxOut, parsed.value, previous);
      }
    }
  }

  // A packet tiles from the cursor before it to the cursor after it, even one that is
  // given up because sealing failed half-way.
  lemma {:induction false} PacketTiles(s: Sender, maxOut: nat, recs: Packet, len: nat, c: Cursor)
    requires s.Valid() && Tiles(s.outgoing, c, recs, At(s))
    ensures var r := SealNextPacket(s, maxOut, recs, len); Tiles(s.outgoing, c, r.recs, At(r.s))
    decreases |s.outgoing| - s.written
  {
    hide PacketStep, ParseFragment, Tiles, Owed, NextCursor;
    if s.written < |s.outgoing| {
      StepTiles(s, maxOut);
      var (s', out) := PacketStep(s, maxOut);
      if out.Partial? || out.Done? {
        TilesOne(s.outgoing, At(s), out.rec);
        TilesCompose(s.outgoing, c, recs, At(s), [out.rec], At(s'));
        if out.Done? { PacketTiles(s', maxOut - out.len, recs + [out.rec], len + out.len, c); }
      }
    }
  }

  lemma TilesOne(q: seq<Outgoing>, c: Cursor, rec: Record)
    requires Owed(q, c, rec)
    ensures Tiles(q, c, [rec], NextCursor(q, c, rec))
  {
    assert [rec][1..] == [];
  }

  function Flatten(packets: seq<Packet>): Packet {
    if packets == [] then [] else packets[0] + Flatten(packets[1..])
  }

  // The last packet of a run was given up by a failed seal after some of its records
  // had already moved the cursor.
  predicate Loses(s: Sender, script: seq<int>)
    requires s.Valid()
    decreases |s.outgoing| - s.written, Left(s)
  {
    if s.written >= |s.outgoing| then false
    else
      var p := SealNextPacket(s, s.mtu, [], 0);
      if !p.err.NoErr? then p.recs != []
      else NextResult(script) > 0 && Loses(p.s, AfterCall(script))
  }

  // Main result on the sender: the packets a run hands to the BIO tile the flight from
  // the cursor it starts at to the cursor it leaves, if and only if no partly sealed
  // packet was given up. (A failed write rolls the cursor back; a failed seal does not.)
  lemma {:induction false} RunTiles(s: Sender, script: seq<int>)
    requires s.Valid()
    ensures var r := SendLoop(s, script);
      Tiles(s.outgoing, At(s), Flatten(r.sent), At(r.s)) <==> !Loses(s, script)
    decreases |s.outgoing| - s.written, Left(s)
  {
    if s.written < |s.outgoing| {
      var p := SealNextPacket(s, s.mtu, [], 0);
      PacketTiles(s, s.mtu, [], 0, At(s));
      if p.err.NoErr? && NextResult(script) > 0 {
        var script' := AfterCall(script);
        RunTiles(p.s, script');
        var r, r' := SendLoop(s, script), SendLoop(p.s, script');
        assert r.sent[0] == p.recs && r.sent[1..] == r'.sent;
        assert Flatten(r.sent) == p.recs + Flatten(r'.sent);
        if Tiles(s.outgoing, At(p.s), Flatten(r'.sent), At(r'.s)) {
          TilesCompose(s.outgoing, At(s), p.recs, At(p.s), Flatten(r'.sent), At(r'.s));
        } else {
          if Tiles(s.outgoing, At(s), Flatten(r.sent), At(r.s)) {
            TilesSplit(s.outgoing, At(s), p.recs, At(p.s), Flatten(r'.sent), At(r.s));
          }
        }
      } else if !p.err.NoErr? && p.recs != [] {
        TilesMoves(s.outgoing, At(s), p.recs, At(p.s));
      }
    }
  }

  lemma {:induction false} TilesSplit(q: seq<Outgoing>, c: Cursor, r: Packet, d: Cursor, t: Packet, e: Cursor)
    requires Tiles(q, c, r, d) && Tiles(q, c, r + t, e)
    ensures Tiles(q, d, t, e)
    decreases |r|
  {
    hide Owed, NextCursor;
    if r == [] {
      assert r + t == t;
    } else {
      assert (r + t)[0] == r[0] && (r + t)[1..] == r[1..] + t;
      TilesSplit(q, NextCursor(q, c, r[0]), r[1..], d, t, e);
    }
  }

  predicate Before(c: Cursor, d: Cursor) {
    c.written < d.written || (c.written == d.written && c.offset < d.offset)
  }

  // Each record moves the cursor strictly forward.
  lemma {:induction false} TilesMoves(q: seq<Outgoing>, c: Cursor, r: Packet, d: Cursor)
    requires Tiles(q, c, r, d) && r != []
    ensures Before(c, d)
    decreases |r|
  {
    if |r| > 1 { TilesMoves(q, NextCursor(q, c, r[0]), r[1..], d); }
  }

  // How many records of a tiling carry byte |i| of message |k|.
  function Copies(q: seq<Outgoing>, c: Cursor, recs: Packet, d: Cursor, k: nat, i: nat): nat
    requires Tiles(q, c, recs, d)
    decreases |recs|
  {
    if recs == [] then 0
    else
      var here := k == c.written && !q[k].isCcs && c.offset <= i < c.offset + Carried(recs[0]);
      (if here then 1 else 0) + Copies(q, NextCursor(q, c, recs[0]), recs[1..], d, k, i)
  }

  predicate IsByte(q: seq<Outgoing>, k: nat, i: nat) {
    && k < |q| && !q[k].isCcs
    && Queueable(ParseFragment(q[k].data))
    && i < |ParseFragment(q[k].data).value.body|
  }

  // No gap and no overlap: each byte between the two cursors is carried exactly once,
  // and no byte outside them is carried at all.
  lemma {:induction false} EachByteOnce(q: seq<Outgoing>, c: Cursor, recs: Packet, d: Cursor, k: nat, i: nat)
    requires Tiles(q, c, recs, d) && IsByte(q, k, i)
    ensures Copies(q, c, recs, d, k, i) ==
            if !Before(Cursor(k, i), c) && Before(Cursor(k, i), d) then 1 else 0
    decreases |recs|
  {
    hide ParseFragment;
    if recs != [] {
      var c' := NextCursor(q, c, recs[0]);
      EachByteOnce(q, c', recs[1..], d, k, i);
      if |recs| > 1 { TilesMoves(q, c', recs[1..], d); }
    }
  }
}
