/** The calls into the sending half of a DTLS connection, and how each of them spends record
    numbers: one after another from the counter of the epoch it seals under. */
module DtlsAttempts {
  import opened Bytes
  import opened HandshakeWire
  import opened DtlsRecord
  import opened RecordTypes
  import opened DtlsSend

  // One call into the sending half of the connection.
  datatype Call =
    | Add(isCcs: bool, data: bytes)
    | Flush(mayQuery: bool, query: int, script: seq<int>)
    | Resend(mayQuery: bool, query: int, script: seq<int>)
    | Switch(aead: Aead)
    | Other(maxOut: nat, typ: u8, payload: bytes)

  datatype Result = Result(s: Sender, sealed: Packet, err: Err)

  // The state after a call, the records it sealed (sent or not), and its error.
  function Perform(s: Sender, c: Call): (r: Result)
    requires s.Valid()
    ensures r.s.Valid()
  {
    match c
    case Add(isCcs, data) => Result(AddOutgoing(s, isCcs, data).0, [], NoErr)
    case Flush(mayQuery, query, script) =>
      var r := FlushFlight(s, mayQuery, query, script); Result(r.s, r.sealed, r.err)
    case Resend(mayQuery, query, script) =>
      var r := Retransmit(s, mayQuery, query, script); Result(r.s, r.sealed, r.err)
    case Switch(aead) => Result(SetWriteState(s, aead), [], NoErr)
    case Other(maxOut, typ, payload) =>
      var (s', sealed) := SealRecord(s, maxOut, typ, payload, false);
      if sealed.NotSealed? then Result(s', [], sealed.err) else Result(s', [sealed.rec], NoErr)
  }

  // --- The attempts of a run ---

  // An attempt to seal that spent a record number. |age| counts epoch switches and does
  // not wrap as the 16-bit epoch does; |rec| is missing when the attempt failed.
  datatype Attempt = Attempt(age: int, rec: Option<Record>)

  // The next record numbers of the previous and of the current epoch.
  datatype Counters = Counters(last: nat, current: nat) {
    function Number(previous: bool): nat {
      if previous then last else current
    }

    function Spend(previous: bool): Counters {
      if previous then this.(last := NextCount(last)) else this.(current := NextCount(current))
    }
  }

  function CountersOf(s: Sender): Counters {
    Counters(BigEndian(s.lastWriteSequence), BigEndian(s.writeSequence))
  }

  // |rec| is sealed under epoch |epoch| with number |n|, which is not the last of all.
  predicate Numbers(rec: Record, epoch: nat, n: nat) {
    SealedUnder(epoch, rec) && rec.Count() == n < U48 - 1
  }

  // The attempts |a|, one after another, in epoch |epoch| of age |age| or the one before,
  // take the counters from |c| to |d|. If |strict|, only the last number of all is wasted.
  predicate Spends(strict: bool, epoch: nat, age: int, c: Counters, a: seq<Attempt>, d: Counters)
    decreases |a|
  {
    if a == [] then c == d
    else
      var previous := a[0].age != age;
      && One(strict, epoch, age, c, a[0])
      && Spends(strict, epoch, age, c.Spend(previous), a[1..], d)
  }

  predicate One(strict: bool, epoch: nat, age: int, c: Counters, a: Attempt) {
    var previous := a.age != age;
    && (previous ==> a.age == age - 1 && epoch >= 1)
    && match a.rec
       case Some(rec) => Numbers(rec, if previous then epoch - 1 else epoch, c.Number(previous))
       case None => strict ==> c.Number(previous) == U48 - 1
  }

  lemma {:induction false} SpendsCompose(strict: bool, epoch: nat, age: int, c: Counters, a: seq<Attempt>, d: Counters,
                                         b: seq<Attempt>, e: Counters)
    requires Spends(strict, epoch, age, c, a, d) && Spends(strict, epoch, age, d, b, e)
    ensures Spends(strict, epoch, age, c, a + b, e)
    decreases |a|
  {
    hide One;
    if a == [] {
      assert a + b == b;
    } else {
      SpendsCompose(strict, epoch, age, c.Spend(a[0].age != age), a[1..], d, b, e);
      assert (a + b)[0] == a[0] && (a + b)[1..] == a[1..] + b;
    }
  }

  // --- Each call spends numbers one after another ---

  // The error of an attempt that failed but spent its number.
  predicate Wasted(err: Err) {
    err.SequenceOverflow? || err.RecordTooLong?
  }

  // With |age| the age of epoch |epoch|: the attempts behind records of it and the one before.
  function AgeOf(epoch: nat, age: int, e: nat): int {
    if e == epoch then age else age - 1
  }

  function Sealing(epoch: nat, age: int, rec: Record): Attempt {
    Attempt(if rec.Valid() then AgeOf(epoch, age, rec.Epoch()) else age, Some(rec))
  }

  function Sealings(epoch: nat, age: int, recs: Packet): seq<Attempt>
    decreases |recs|
  {
    if recs == [] then [] else [Sealing(epoch, age, recs[0])] + Sealings(epoch, age, recs[1..])
  }

  lemma {:induction false} SealingsCompose(epoch: nat, age: int, a: Packet, b: Packet)
    ensures Sealings(epoch, age, a + b) == Sealings(epoch, age, a) + Sealings(epoch, age, b)
    decreases |a|
  {
    hide Sealing;
    if a == [] {
      assert a + b == b;
    } else {
      SealingsCompose(epoch, age, a[1..], b);
      assert (a + b)[0] == a[0] && (a + b)[1..] == a[1..] + b;
    }
  }

  // What a pass that failed at the message at the cursor wasted there.
  function Waste(s: Sender, age: int, err: Err): seq<Attempt> {
    if Wasted(err) && s.written < |s.outgoing| then [Attempt(AgeOf(s.wEpoch, age, s.outgoing[s.written].epoch), None)] else []
  }

  function StepAttempts(s: Sender, age: int, out: SealOutcome): seq<Attempt> {
    match out
    case Partial(rec, _) => [Sealing(s.wEpoch, age, rec)]
    case Done(rec, _) => [Sealing(s.wEpoch, age, rec)]
    case SealError(err) => Waste(s, age, err)
    case NoProgress => []
  }

  function SealedAttempt(s: Sender, age: int, sealed: Sealed, previous: bool): seq<Attempt> {
    match sealed
    case SealedRecord(rec, _) => [Sealing(s.wEpoch, age, rec)]
    case NotSealed(err) => if Wasted(err) then [Attempt(if previous then age - 1 else age, None)] else []
  }

  lemma SealSpends(strict: bool, s: Sender, age: int, maxOut: nat, typ: u8, payload: bytes, previous: bool)
    requires s.Valid() && (previous ==> s.wEpoch >= 1) && (strict ==> maxOut < U16)
    ensures var (s', sealed) := SealRecord(s, maxOut, typ, payload, previous);
      Spends(strict, s.wEpoch, age, CountersOf(s), SealedAttempt(s, age, sealed, previous), CountersOf(s'))
  {
    IncrementCounts(s.NumberFor(previous));
    var (s', sealed) := SealRecord(s, maxOut, typ, payload, previous);
    if sealed.SealedRecord? { Numbered(sealed.rec, s.EpochFor(previous), s.NumberFor(previous)); }
    hide BigEndian, Increment;
    OneAttempt(strict, s.wEpoch, age, CountersOf(s), SealedAttempt(s, age, sealed, previous));
  }

  lemma OneAttempt(strict: bool, epoch: nat, age: int, c: Counters, a: seq<Attempt>)
    ensures a == [] ==> Spends(strict, epoch, age, c, a, c)
    ensures |a| == 1 && One(strict, epoch, age, c, a[0]) ==>
              Spends(strict, epoch, age, c, a, c.Spend(a[0].age != age))
  {
    hide One;
    if |a| == 1 { assert a[1..] == []; }
  }

  lemma CcsSpends(strict: bool, s: Sender, age: int, maxOut: nat, previous: bool)
    requires s.Valid() && s.written < |s.outgoing| && (strict ==> maxOut < U16)
    requires previous ==> s.wEpoch >= 1
    requires s.outgoing[s.written].epoch == s.EpochFor(previous)
    ensures var (s', out) := SealCcs(s, maxOut, previous);
      Spends(strict, s.wEpoch, age, CountersOf(s), StepAttempts(s, age, out), CountersOf(s'))
  {
    hide SealRecord, Spends, BigEndian;
    OneAttempt(strict, s.wEpoch, age, CountersOf(s), []);
    SealSpends(strict, s, age, maxOut, CHANGE_CIPHER_SPEC, CCS_BODY, previous);
  }

  lemma FragmentSpends(strict: bool, s: Sender, age: int, maxOut: nat, p: Parsed, previous: bool)
    requires s.Valid() && s.written < |s.outgoing| && (strict ==> maxOut < U16)
    requires previous ==> s.wEpoch >= 1
    requires s.outgoing[s.written].epoch == s.EpochFor(previous)
    requires !s.outgoing[s.written].isCcs
    requires p.hdr.Valid() && p.hdr.msgLen == |p.body| && s.offset <= |p.body|
    ensures var (s', out) := SealFragment(s, maxOut, p, previous);
      Spends(strict, s.wEpoch, age, CountersOf(s), StepAttempts(s, age, out), CountersOf(s'))
  {
    hide SealRecord, Spends, BigEndian, PutHeader;
    OneAttempt(strict, s.wEpoch, age, CountersOf(s), []);
    var left, room := |p.body| - s.offset, maxOut - HEADER_LENGTH - s.Overhead(previous);
    if room > 0 {
      var todo := if left > room then room else left;
      var frag := FragmentBytes(p.hdr, s.offset, p.body[s.offset..s.offset + todo]);
      SealSpends(strict, s, age, maxOut, HANDSHAKE, frag, previous);
    }
  }

  lemma StepSpends(strict: bool, s: Sender, age: int, maxOut: nat)
    requires s.Valid() && s.written < |s.outgoing| && (strict ==> maxOut < U16)
    ensures var (s', out) := PacketStep(s, maxOut);
      Spends(strict, s.wEpoch, age, CountersOf(s), StepAttempts(s, age, out), CountersOf(s'))
  {
    hide SealCcs, SealFragment, Spends, BigEndian, ParseFragment;
    OneAttempt(strict, s.wEpoch, age, CountersOf(s), []);
    var msg := s.outgoing[s.written];
    var previous := s.wEpoch >= 1 && msg.epoch == s.wEpoch - 1;
    if previous || msg.epoch == s.wEpoch {
      if msg.isCcs {
        CcsSpends(strict, s, age, maxOut, previous);
      } else {
        var parsed := ParseFragment(msg.data);
        if Queueable(parsed) && s.offset <= |parsed.value.body| {
          SerialiseInvertsParse(msg.data);
          FragmentSpends(strict, s, age, maxOut, parsed.value, previous);
        }
      }
    }
  }

  lemma {:induction false} PacketSpends(strict: bool, s: Sender, age: int, maxOut: nat, recs: Packet, len: nat, c: Counters)
    requires s.Valid() && (strict ==> maxOut < U16)
    requires Spends(strict, s.wEpoch, age, c, Sealings(s.wEpoch, age, recs), CountersOf(s))
    ensures var r := SealNextPacket(s, maxOut, recs, len);
      Spends(strict, s.wEpoch, age, c, Sealings(s.wEpoch, age, r.recs) + Waste(r.s, age, r.err), CountersOf(r.s))
    decreases |s.outgoing| - s.written
  {
    hide Spends, PacketStep, CountersOf, Sealings;
    var before := Sealings(s.wEpoch, age, recs);
    assert before + [] == before;
    if s.written < |s.outgoing| {
      StepSpends(strict, s, age, maxOut);
      var (s', out) := PacketStep(s, maxOut);
      SpendsCompose(strict, s.wEpoch, age, c, before, CountersOf(s), StepAttempts(s, age, out), CountersOf(s'));
      if out.Partial? || out.Done? {
        SealingsAppend(s.wEpoch, age, recs, out.rec);
        var done := Sealings(s.wEpoch, age, recs + [out.rec]);
        assert done + [] == done;
        if out.Done? { PacketSpends(strict, s', age, maxOut - out.len, recs + [out.rec], len + out.len, c); }
      }
    }
  }

  lemma SealingsAppend(epoch: nat, age: int, recs: Packet, rec: Record)
    ensures Sealings(epoch, age, recs + [rec]) == Sealings(epoch, age, recs) + [Sealing(epoch, age, rec)]
  {
    SealingsCompose(epoch, age, recs, [rec]);
    assert [rec][1..] == [];
  }

  lemma {:induction false} LoopSpends(strict: bool, s: Sender, age: int, script: seq<int>)
    requires s.Valid() && (strict ==> s.mtu < U16)
    ensures var r := SendLoop(s, script);
      && Spends(strict, s.wEpoch, age, CountersOf(s),
                Sealings(s.wEpoch, age, r.sealed) + Waste(r.s, age, r.err), CountersOf(r.s))
      && r.s.wEpoch == s.wEpoch && r.s.mtu == s.mtu
    decreases |s.outgoing| - s.written, Left(s)
  {
    hide Spends, SealNextPacket;
    var c, none: seq<Attempt> := CountersOf(s), [];
    OneAttempt(strict, s.wEpoch, age, c, none);
    assert none + none == none;
    if s.written < |s.outgoing| {
      PacketSpends(strict, s, age, s.mtu, [], 0, c);
      var p := SealNextPacket(s, s.mtu, [], 0);
      var first := Sealings(s.wEpoch, age, p.recs);
      assert first + [] == first;
      if p.err.NoErr? && NextResult(script) > 0 {
        LoopSpends(strict, p.s, age, AfterCall(script));
        var r := SendLoop(p.s, AfterCall(script));
        var rest := Sealings(s.wEpoch, age, r.sealed) + Waste(r.s, age, r.err);
        SpendsCompose(strict, s.wEpoch, age, c, first, CountersOf(p.s), rest, CountersOf(r.s));
        SealingsCompose(s.wEpoch, age, p.recs, r.sealed);
        assert first + rest == first + Sealings(s.wEpoch, age, r.sealed) + Waste(r.s, age, r.err);
      }
    }
  }

  // All attempts of one call.
  function CallAttempts(s: Sender, age: int, c: Call): seq<Attempt>
    requires s.Valid()
  {
    var r := Perform(s, c);
    match c
    case Add(_, _) => []
    case Switch(_) => []
    case Other(_, _, _) =>
      Sealings(s.wEpoch, age, r.sealed) + if Wasted(r.err) then [Attempt(age, None)] else []
    case _ => Sealings(s.wEpoch, age, r.sealed) + Waste(r.s, age, r.err)
  }

  // No answer of a BIO and no buffer of 2^16 octets or more, with which a record could be
  // too long for its length field.
  predicate Small(c: Call) {
    match c
    case Flush(_, query, _) => query < U16
    case Resend(_, query, _) => query < U16
    case Other(maxOut, _, _) => maxOut < U16
    case _ => true
  }

  lemma FlightSpends(strict: bool, s: Sender, age: int, mayQuery: bool, query: int, script: seq<int>)
    requires s.Valid() && (strict ==> s.mtu < U16 && query < U16)
    ensures var r := SendFlight(s, mayQuery, query, script);
      && Spends(strict, s.wEpoch, age, CountersOf(s),
                Sealings(s.wEpoch, age, r.sealed) + Waste(r.s, age, r.err), CountersOf(r.s))
      && r.s.wEpoch == s.wEpoch && (s.mtu < U16 && query < U16 ==> r.s.mtu < U16)
  {
    hide SendLoop, Spends, BigEndian;
    var none: seq<Attempt> := [];
    OneAttempt(strict, s.wEpoch, age, CountersOf(s), none);
    assert none + none == none;
    if !s.shutdown { LoopSpends(strict, UpdateMtu(s, mayQuery, query), age, script); }
  }

  lemma CallSpends(strict: bool, s: Sender, age: int, c: Call)
    requires s.Valid() && !c.Switch? && (strict ==> s.mtu < U16 && Small(c))
    ensures var r := Perform(s, c);
      && Spends(strict, s.wEpoch, age, CountersOf(s), CallAttempts(s, age, c), CountersOf(r.s))
      && r.s.wEpoch == s.wEpoch && (s.mtu < U16 && Small(c) ==> r.s.mtu < U16)
  {
    hide SendFlight, SealRecord, Spends, BigEndian, Sealings, Waste;
    match c
    case Add(_, _) => OneAttempt(strict, s.wEpoch, age, CountersOf(s), []);
    case Other(maxOut, typ, payload) =>
      SealSpends(strict, s, age, maxOut, typ, payload, false);
      OtherAttempts(s, age, c);
      hide CallAttempts;
    case Flush(mayQuery, query, script) =>
      FlightSpends(strict, s.(complete := true), age, mayQuery, query, script);
    case Resend(mayQuery, query, script) =>
      FlightSpends(strict, s.(written := 0, offset := 0), age, mayQuery, query, script);
  }

  lemma OtherAttempts(s: Sender, age: int, c: Call)
    requires s.Valid() && c.Other?
    ensures CallAttempts(s, age, c) == SealedAttempt(s, age, SealRecord(s, c.maxOut, c.typ, c.payload, false).1, false)
  {
    hide SealRecord;
    var sealed := SealRecord(s, c.maxOut, c.typ, c.payload, false).1;
    var one, none: seq<Attempt> := SealedAttempt(s, age, sealed, false), [];
    assert one + none == one && none + one == one;
    if sealed.SealedRecord? { SealingsAppend(s.wEpoch, age, [], sealed.rec); assert [] + [sealed.rec] == [sealed.rec]; }
  }
}
