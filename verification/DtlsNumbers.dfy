/** Record numbers of the sender over any run of queueing, writing, rolling back,
    retransmitting, sending application data and switching epochs: which number each seal
    uses, exactly when two seals use the same one, and what keeps that from happening
    (section 4.1 of RFC 6347). */
module DtlsNumbers {
  import opened Bytes
  import opened DtlsRecord
  import opened DtlsSend
  import opened DtlsAttempts

  function Log(s: Sender, calls: seq<Call>): Packet
    requires s.Valid()
    decreases |calls|
  {
    if calls == [] then []
    else var r := Perform(s, calls[0]); r.sealed + Log(r.s, calls[1..])
  }

  function AgeAfter(age: int, c: Call): int {
    if c.Switch? then age + 1 else age
  }

  // The sender after a run, and the number of its epoch switches.
  function End(s: Sender, calls: seq<Call>): (s': Sender)
    requires s.Valid()
    ensures s'.Valid()
    decreases |calls|
  {
    if calls == [] then s else End(Perform(s, calls[0]).s, calls[1..])
  }

  function Switches(calls: seq<Call>): nat {
    if calls == [] then 0 else (if calls[0].Switch? then 1 else 0) + Switches(calls[1..])
  }

  // Every attempt of a run, with |age| the age of the epoch being written at its start.
  function Attempts(s: Sender, age: int, calls: seq<Call>): seq<Attempt>
    requires s.Valid()
    decreases |calls|
  {
    if calls == [] then []
    else CallAttempts(s, age, calls[0]) + Attempts(Perform(s, calls[0]).s, AgeAfter(age, calls[0]), calls[1..])
  }

  // Where a run starts: the age of the epoch being written, and the counters.
  datatype Origin = Origin(age: nat, c: Counters) {
    // The first number of the epoch of age |g|: a later one starts at zero.
    function First(g: int): nat {
      if g == age then c.current else if g == age - 1 then c.last else 0
    }
  }

  function OriginOf(s: Sender): Origin {
    Origin(s.wEpoch, CountersOf(s))
  }

  function Count(a: seq<Attempt>, g: int): nat {
    if a == [] then 0
    else var n := |a| - 1; Count(a[..n], g) + if a[n].age == g then 1 else 0
  }

  // The number the counter of age |g| holds after the attempts |a|: 48 bits wide.
  function Value(o: Origin, a: seq<Attempt>, g: int): nat {
    (o.First(g) + Count(a, g)) % U48
  }

  // Attempt |k| used the number its counter held, and sealed no record under the last of
  // all; if |strict|, every other attempt sealed one.
  predicate InOrder(strict: bool, o: Origin, a: seq<Attempt>, k: nat)
    requires k < |a|
  {
    var n := Value(o, a[..k], a[k].age);
    match a[k].rec
    case Some(rec) => Numbers(rec, a[k].age % U16, n)
    case None => strict ==> n == U48 - 1
  }

  predicate AllInOrder(strict: bool, o: Origin, a: seq<Attempt>) {
    forall k | 0 <= k < |a| :: InOrder(strict, o, a, k)
  }

  // After the attempts |a|, in epoch |epoch| of age |age|, the counters are |c|.
  predicate Inv(strict: bool, o: Origin, a: seq<Attempt>, age: int, epoch: nat, c: Counters) {
    && o.age <= age && epoch == age % U16
    && c.current == Value(o, a, age) && c.last == Value(o, a, age - 1)
    && (forall k | 0 <= k < |a| :: 0 <= a[k].age <= age)
    && AllInOrder(strict, o, a)
  }

  lemma NextValue(o: Origin, a: seq<Attempt>, x: Attempt, g: int)
    ensures Value(o, a + [x], g) == if x.age == g then NextCount(Value(o, a, g)) else Value(o, a, g)
  {
    assert (a + [x])[..|a|] == a;
  }

  lemma NewInOrder(strict: bool, o: Origin, a: seq<Attempt>, age: int, epoch: nat, c: Counters, x: Attempt)
    requires Inv(strict, o, a, age, epoch, c) && One(strict, epoch, age, c, x)
    ensures 0 <= x.age <= age && InOrder(strict, o, a + [x], |a|)
  {
    hide Numbers, Value, AllInOrder;
    assert (a + [x])[..|a|] == a;
  }

  lemma AttemptKeeps(strict: bool, o: Origin, a: seq<Attempt>, age: int, epoch: nat, c: Counters, x: Attempt)
    requires Inv(strict, o, a, age, epoch, c) && One(strict, epoch, age, c, x)
    ensures Inv(strict, o, a + [x], age, epoch, c.Spend(x.age != age))
  {
    NextValue(o, a, x, age);
    NextValue(o, a, x, age - 1);
    NewInOrder(strict, o, a, age, epoch, c, x);
    hide Numbers, NextCount, Value, InOrder;
    var b := a + [x];
    forall k | 0 <= k < |b| ensures InOrder(strict, o, b, k) {
      if k < |a| { SameOrder(strict, o, a, x, k); }
    }
  }

  lemma SameOrder(strict: bool, o: Origin, a: seq<Attempt>, x: Attempt, k: nat)
    requires k < |a|
    ensures InOrder(strict, o, a + [x], k) == InOrder(strict, o, a, k)
  {
    assert (a + [x])[..k] == a[..k];
  }

  lemma {:induction false} SpendsKeeps(strict: bool, o: Origin, a: seq<Attempt>, age: int, epoch: nat, c: Counters,
                                       b: seq<Attempt>, d: Counters)
    requires Inv(strict, o, a, age, epoch, c) && Spends(strict, epoch, age, c, b, d)
    ensures Inv(strict, o, a + b, age, epoch, d)
    decreases |b|
  {
    hide Inv, One, Value;
    if b == [] {
      assert a + b == a;
    } else {
      AttemptKeeps(strict, o, a, age, epoch, c, b[0]);
      SpendsKeeps(strict, o, a + [b[0]], age, epoch, c.Spend(b[0].age != age), b[1..], d);
      assert a + [b[0]] + b[1..] == a + b;
    }
  }

  lemma {:induction false} CountNone(a: seq<Attempt>, g: int)
    requires forall k | 0 <= k < |a| :: a[k].age < g
    ensures Count(a, g) == 0
  {
    if a != [] { CountNone(a[..|a| - 1], g); }
  }

  lemma SwitchKeeps(strict: bool, o: Origin, a: seq<Attempt>, age: int, epoch: nat, c: Counters)
    requires Inv(strict, o, a, age, epoch, c)
    ensures Inv(strict, o, a, age + 1, (epoch + 1) % U16, Counters(c.current, 0))
  {
    CountNone(a, age + 1);
  }

  lemma {:induction false} RunKeeps(strict: bool, o: Origin, a: seq<Attempt>, s: Sender, age: int, calls: seq<Call>)
    requires s.Valid() && Inv(strict, o, a, age, s.wEpoch, CountersOf(s))
    requires strict ==> s.mtu < U16 && forall c | c in calls :: Small(c)
    ensures var s' := End(s, calls);
      Inv(strict, o, a + Attempts(s, age, calls), age + Switches(calls), s'.wEpoch, CountersOf(s'))
    decreases |calls|
  {
    hide Perform, Spends, Inv, CallAttempts, BigEndian;
    if calls == [] {
      assert a + [] == a;
    } else {
      var r, b := Perform(s, calls[0]), CallAttempts(s, age, calls[0]);
      CallKeeps(strict, o, a, s, age, calls[0]);
      RunKeeps(strict, o, a + b, r.s, AgeAfter(age, calls[0]), calls[1..]);
      assert a + b + Attempts(r.s, AgeAfter(age, calls[0]), calls[1..]) == a + Attempts(s, age, calls);
    }
  }

  lemma CallKeeps(strict: bool, o: Origin, a: seq<Attempt>, s: Sender, age: int, c: Call)
    requires s.Valid() && Inv(strict, o, a, age, s.wEpoch, CountersOf(s))
    requires strict ==> s.mtu < U16 && Small(c)
    ensures var s' := Perform(s, c).s;
      && Inv(strict, o, a + CallAttempts(s, age, c), AgeAfter(age, c), s'.wEpoch, CountersOf(s'))
      && (strict ==> s'.mtu < U16)
  {
    hide Spends, Inv, BigEndian, SendLoop, SealRecord;
    if c.Switch? {
      assert a + [] == a;
      SwitchKeeps(strict, o, a, age, s.wEpoch, CountersOf(s));
      Extremes([0, 0, 0, 0, 0, 0]);
    } else {
      CallSpends(strict, s, age, c);
      hide Perform;
      SpendsKeeps(strict, o, a, age, s.wEpoch, CountersOf(s), CallAttempts(s, age, c), CountersOf(Perform(s, c).s));
    }
  }

  lemma Starts(strict: bool, s: Sender)
    requires s.Valid()
    ensures Inv(strict, OriginOf(s), [], s.wEpoch, s.wEpoch, CountersOf(s))
  {
    hide BigEndian;
    IncrementCounts(s.writeSequence);
    IncrementCounts(s.lastWriteSequence);
  }

  // Main result: over every run from every sender, attempt |k| seals its record under the
  // epoch of its age and with the number that counting the attempts of that age gives,
  // modulo 2^16 and 2^48. If no record can be too long, an attempt fails at the last
  // number of all and nowhere else.
  lemma NumberOfAttempt(strict: bool, s: Sender, calls: seq<Call>)
    requires s.Valid()
    requires strict ==> s.mtu < U16 && forall c | c in calls :: Small(c)
    ensures AllInOrder(strict, OriginOf(s), Attempts(s, s.wEpoch, calls))
    ensures forall x | x in Attempts(s, s.wEpoch, calls) :: 0 <= x.age <= s.wEpoch + Switches(calls)
  {
    hide BigEndian, Inv, AllInOrder, Attempts, Switches, End;
    Starts(strict, s);
    RunKeeps(strict, OriginOf(s), [], s, s.wEpoch, calls);
    assert [] + Attempts(s, s.wEpoch, calls) == Attempts(s, s.wEpoch, calls);
    var s' := End(s, calls);
    InvOrdered(strict, OriginOf(s), Attempts(s, s.wEpoch, calls), s.wEpoch + Switches(calls), s'.wEpoch, CountersOf(s'));
  }

  lemma InvOrdered(strict: bool, o: Origin, a: seq<Attempt>, age: int, epoch: nat, c: Counters)
    ensures Inv(strict, o, a, age, epoch, c) ==> AllInOrder(strict, o, a) && forall x | x in a :: 0 <= x.age <= age
  {
    hide AllInOrder, Value;
  }

  // Two attempts that seal records under the same epoch and number.
  predicate Clash(o: Origin, a: seq<Attempt>, i: nat, j: nat)
    requires i < j < |a|
  {
    && a[i].rec.Some? && a[j].rec.Some?
    && a[i].age % U16 == a[j].age % U16
    && Value(o, a[..i], a[i].age) == Value(o, a[..j], a[j].age)
  }

  // Epoch and number are all there is to the sequence field.
  lemma SameSequence(x: Record, y: Record)
    requires x.Valid() && y.Valid()
    ensures x.sequence == y.sequence <==> x.Epoch() == y.Epoch() && x.Count() == y.Count()
  {
    if x.Epoch() == y.Epoch() && x.Count() == y.Count() {
      BigEndianInjective(x.sequence[2..], y.sequence[2..]);
      Put16Get16(x.sequence[..2]);
      Put16Get16(y.sequence[..2]);
      assert x.sequence == x.sequence[..2] + x.sequence[2..];
      assert y.sequence == y.sequence[..2] + y.sequence[2..];
    }
  }

  predicate Repeats(a: seq<Attempt>, i: nat, j: nat)
    requires i < j < |a|
  {
    a[i].rec.Some? && a[j].rec.Some? && a[i].rec.value.sequence == a[j].rec.value.sequence
  }

  lemma ClashRepeats(o: Origin, a: seq<Attempt>, i: nat, j: nat)
    requires AllInOrder(false, o, a) && i < j < |a|
    ensures Repeats(a, i, j) <==> Clash(o, a, i, j)
  {
    assert InOrder(false, o, a, i) && InOrder(false, o, a, j);
    hide Value;
    if a[i].rec.Some? && a[j].rec.Some? { SameSequence(a[i].rec.value, a[j].rec.value); }
  }

  function Records(a: seq<Attempt>): Packet {
    if a == [] then []
    else RecordOf(a[0]) + Records(a[1..])
  }

  function RecordOf(x: Attempt): Packet {
    if x.rec.Some? then [x.rec.value] else []
  }

  lemma {:induction false} RecordsCompose(a: seq<Attempt>, b: seq<Attempt>)
    ensures Records(a + b) == Records(a) + Records(b)
  {
    hide RecordOf;
    if a == [] {
      assert a + b == b;
    } else {
      RecordsCompose(a[1..], b);
      assert (a + b)[0] == a[0] && (a + b)[1..] == a[1..] + b;
    }
  }

  lemma {:induction false} SealingsRecords(epoch: nat, age: int, recs: Packet)
    ensures Records(Sealings(epoch, age, recs)) == recs
  {
    if recs != [] {
      SealingsRecords(epoch, age, recs[1..]);
      var a := Sealings(epoch, age, recs);
      assert a[1..] == Sealings(epoch, age, recs[1..]);
    }
  }

  lemma CallRecords(s: Sender, age: int, c: Call)
    requires s.Valid()
    ensures Records(CallAttempts(s, age, c)) == Perform(s, c).sealed
  {
    var r := Perform(s, c);
    var a := Sealings(s.wEpoch, age, r.sealed);
    var waste: seq<Attempt> :=
      if !c.Other? then Waste(r.s, age, r.err) else if Wasted(r.err) then [Attempt(age, None)] else [];
    if !c.Add? && !c.Switch? {
      hide Perform;
      SealingsRecords(s.wEpoch, age, r.sealed);
      RecordsCompose(a, waste);
      assert CallAttempts(s, age, c) == a + waste;
      assert Records(waste) == [];
    }
  }

  // The attempts that succeeded are the records the run sealed, in order.
  lemma {:induction false} LogIsRecords(s: Sender, age: int, calls: seq<Call>)
    requires s.Valid()
    ensures Log(s, calls) == Records(Attempts(s, age, calls))
    decreases |calls|
  {
    hide Perform, CallAttempts;
    if calls != [] {
      var s', age' := Perform(s, calls[0]).s, AgeAfter(age, calls[0]);
      LogIsRecords(s', age', calls[1..]);
      CallRecords(s, age, calls[0]);
      RecordsCompose(CallAttempts(s, age, calls[0]), Attempts(s', age', calls[1..]));
    }
  }

  lemma {:induction false} AmongRecords(a: seq<Attempt>, k: nat)
    requires k < |a| && a[k].rec.Some?
    ensures a[k].rec.value in Records(a)
  {
    if k > 0 { AmongRecords(a[1..], k - 1); }
  }

  lemma {:induction false} BehindRecord(a: seq<Attempt>, rec: Record) returns (k: nat)
    requires rec in Records(a)
    ensures k < |a| && a[k].rec == Some(rec)
  {
    if rec in RecordOf(a[0]) { k := 0; } else { k := BehindRecord(a[1..], rec); k := k + 1; }
  }

  predicate Repeatless(a: seq<Attempt>) {
    forall i, j | 0 <= i < j < |a| :: !Repeats(a, i, j)
  }

  lemma {:induction false} DistinctRecords(a: seq<Attempt>)
    ensures Distinct(Records(a)) <==> Repeatless(a)
  {
    if a != [] {
      var rest := a[1..];
      DistinctRecords(rest);
      DistinctCons(RecordOf(a[0]), Records(rest));
      RepeatlessCons(a);
      if Fresh(RecordOf(a[0]), Records(rest)) {
        forall j | 0 < j < |a| ensures !Repeats(a, 0, j) {
          if a[j].rec.Some? { AmongRecords(rest, j - 1); }
        }
      } else {
        var y :| y in Records(rest) && y.sequence == a[0].rec.value.sequence;
        var k := BehindRecord(rest, y);
        assert Repeats(a, 0, k + 1);
      }
    }
  }

  predicate Fresh(one: Packet, log: Packet) {
    forall x, y | x in one && y in log :: x.sequence != y.sequence
  }

  lemma DistinctCons(one: Packet, log: Packet)
    requires |one| <= 1
    ensures Distinct(one + log) <==> Fresh(one, log) && Distinct(log)
  {
    var all := one + log;
    if one == [] {
      assert all == log;
    } else {
      assert all[0] == one[0] && forall i | 0 < i < |all| :: all[i] == log[i - 1];
      if Distinct(all) {
        forall i | 0 <= i < |log| ensures log[i].sequence != one[0].sequence { assert all[i + 1] == log[i]; }
        forall i, j | 0 <= i < j < |log| ensures log[i].sequence != log[j].sequence {
          assert all[i + 1] == log[i] && all[j + 1] == log[j];
        }
      }
    }
  }

  lemma RepeatlessCons(a: seq<Attempt>)
    requires a != []
    ensures Repeatless(a) <==> Repeatless(a[1..]) && forall j | 0 < j < |a| :: !Repeats(a, 0, j)
  {
    var rest := a[1..];
    assert forall i, j | 0 <= i < j < |rest| :: Repeats(rest, i, j) == Repeats(a, i + 1, j + 1);
    if Repeatless(rest) && forall j | 0 < j < |a| :: !Repeats(a, 0, j) {
      forall i, j | 0 <= i < j < |a| ensures !Repeats(a, i, j) {
        if i > 0 { assert !Repeats(rest, i - 1, j - 1); }
      }
    }
  }

  // Main result: two records of a run carry the same epoch and number exactly when the
  // attempts behind them clash, so the log has no repetition exactly when no two clash.
  lemma RepeatsExactly(s: Sender, calls: seq<Call>)
    requires s.Valid()
    ensures var o, a := OriginOf(s), Attempts(s, s.wEpoch, calls);
      Distinct(Log(s, calls)) <==> forall i, j | 0 <= i < j < |a| :: !Clash(o, a, i, j)
  {
    hide Clash, Repeats, Distinct, AllInOrder;
    var o, a := OriginOf(s), Attempts(s, s.wEpoch, calls);
    NumberOfAttempt(false, s, calls);
    LogIsRecords(s, s.wEpoch, calls);
    DistinctRecords(a);
    forall i, j | 0 <= i < j < |a| ensures Repeats(a, i, j) <==> Clash(o, a, i, j) { ClashRepeats(o, a, i, j); }
  }
}
