/** When the sender reuses a record number: a guard that a caller can check before each call
    and that rules it out, the exact number of records an epoch has room for, and the runs
    that go beyond it. */
module DtlsReuse {
  import opened Bytes
  import opened HandshakeWire
  import opened DtlsRecord
  import opened RecordTypes
  import opened DtlsSend
  import opened DtlsTiling
  import opened DtlsProgress
  import opened DtlsAttempts
  import opened DtlsNumbers

  // --- A pass makes no more attempts than the work it has to do ---

  function WorkOf(s: Sender): nat {
    Work(s.outgoing, s.written, s.offset)
  }

  lemma StepWork(s: Sender, maxOut: nat)
    requires s.Valid() && s.written < |s.outgoing|
    ensures var (s', out) := PacketStep(s, maxOut);
      WorkOf(s') + (if out.Partial? || out.Done? then 1 else 0) <= WorkOf(s)
  {
    hide ParseFragment, SealFragment, SealCcs, Owed;
    StepTiles(s, maxOut);
    PartialWithin(s, maxOut);
  }

  lemma PartialWithin(s: Sender, maxOut: nat)
    requires s.Valid() && s.written < |s.outgoing|
    ensures var (s', out) := SealNextMessage(s, maxOut);
      out.Partial? ==> s.offset < s'.offset < |s.outgoing[s.written].data| - HEADER_LENGTH
  {
    hide SealFragment, ParseFragment, SealCcs;
    var msg := s.outgoing[s.written];
    if Queueable(ParseFragment(msg.data)) { SerialiseInvertsParse(msg.data); }
  }

  lemma {:induction false} PacketWork(s: Sender, maxOut: nat, recs: Packet, len: nat)
    requires s.Valid()
    ensures var r := SealNextPacket(s, maxOut, recs, len);
      |r.recs| + WorkOf(r.s) <= |recs| + WorkOf(s)
    decreases |s.outgoing| - s.written
  {
    hide PacketStep, Work;
    if s.written < |s.outgoing| {
      StepWork(s, maxOut);
      var (s', out) := PacketStep(s, maxOut);
      if out.Done? { PacketWork(s', maxOut - out.len, recs + [out.rec], len + out.len); }
    }
  }

  lemma {:induction false} LoopWork(s: Sender, age: int, script: seq<int>)
    requires s.Valid()
    ensures var r := SendLoop(s, script);
      |r.sealed| + |Waste(r.s, age, r.err)| <= WorkOf(s)
    decreases |s.outgoing| - s.written, Left(s)
  {
    hide SealNextPacket;
    if s.written < |s.outgoing| {
      PacketWork(s, s.mtu, [], 0);
      var p := SealNextPacket(s, s.mtu, [], 0);
      if p.err.NoErr? && NextResult(script) > 0 { LoopWork(p.s, age, AfterCall(script)); }
    }
  }

  // --- A guard against reuse ---

  predicate HasNumbers(s: Sender, n: nat) {
    BigEndian(s.writeSequence) + n < U48 && BigEndian(s.lastWriteSequence) + n < U48
  }

  // What a caller can check before a call: as many numbers are left as the call can spend,
  // and the epoch has a successor.
  predicate Guard(s: Sender, c: Call) {
    match c
    case Add(_, _) => true
    case Switch(_) => s.wEpoch + 1 < U16
    case Other(_, _, _) => HasNumbers(s, 1)
    case Flush(_, _, _) => HasNumbers(s, WorkOf(s))
    case Resend(_, _, _) => HasNumbers(s, Work(s.outgoing, 0, 0))
  }

  predicate Guarded(s: Sender, calls: seq<Call>)
    requires s.Valid()
    decreases |calls|
  {
    calls == [] || (Guard(s, calls[0]) && Guarded(Perform(s, calls[0]).s, calls[1..]))
  }

  function Spending(s: Sender, c: Call): nat {
    match c
    case Add(_, _) => 0
    case Switch(_) => 0
    case Other(_, _, _) => 1
    case Flush(_, _, _) => WorkOf(s)
    case Resend(_, _, _) => Work(s.outgoing, 0, 0)
  }

  lemma {:induction false} SealingsLength(epoch: nat, age: int, recs: Packet)
    ensures |Sealings(epoch, age, recs)| == |recs|
  {
    if recs != [] { SealingsLength(epoch, age, recs[1..]); }
  }

  // No call makes more attempts than the guard leaves numbers for.
  lemma CallSpending(s: Sender, age: int, c: Call)
    requires s.Valid()
    ensures |CallAttempts(s, age, c)| <= Spending(s, c)
  {
    hide SendLoop, SealRecord, Work, Sealings;
    var r := Perform(s, c);
    SealingsLength(s.wEpoch, age, r.sealed);
    match c
    case Flush(mayQuery, query, script) =>
      LoopWork(UpdateMtu(s.(complete := true), mayQuery, query), age, script);
    case Resend(mayQuery, query, script) =>
      LoopWork(UpdateMtu(s.(written := 0, offset := 0), mayQuery, query), age, script);
    case _ =>
  }

  // The counter of age |g| has not wrapped.
  predicate Below(o: Origin, a: seq<Attempt>, g: int) {
    o.First(g) + Count(a, g) < U48
  }

  predicate NoneWrapped(o: Origin, a: seq<Attempt>) {
    forall k | 0 <= k < |a| :: 0 <= a[k].age < U16 && Below(o, a[..k], a[k].age)
  }

  predicate Unwrapped(o: Origin, a: seq<Attempt>, age: int) {
    Below(o, a, age) && Below(o, a, age - 1) && NoneWrapped(o, a)
  }

  lemma BelowValue(o: Origin, a: seq<Attempt>, g: int)
    ensures Below(o, a, g) ==> Value(o, a, g) == o.First(g) + Count(a, g)
  {}

  lemma AttemptUnwrapped(o: Origin, a: seq<Attempt>, age: int, c: Counters, x: Attempt)
    requires Unwrapped(o, a, age) && c.current == Value(o, a, age) && c.last == Value(o, a, age - 1)
    requires (x.age == age || x.age == age - 1) && 0 <= x.age < U16 && c.Number(x.age != age) + 1 < U48
    ensures Unwrapped(o, a + [x], age)
  {
    BelowValue(o, a, age);
    BelowValue(o, a, age - 1);
    var b := a + [x];
    assert b[..|a|] == a;
    forall k | 0 <= k < |b| ensures 0 <= b[k].age < U16 && Below(o, b[..k], b[k].age) {
      if k < |a| { assert b[..k] == a[..k]; }
    }
  }

  lemma BothKept(o: Origin, a: seq<Attempt>, age: nat, c: Counters, x: Attempt)
    requires Inv(false, o, a, age, age, c) && age < U16 && Unwrapped(o, a, age)
    requires One(false, age, age, c, x) && Covers(c, 1)
    ensures Inv(false, o, a + [x], age, age, c.Spend(x.age != age)) && Unwrapped(o, a + [x], age)
  {
    hide AllInOrder, Numbers, Unwrapped, Value;
    AttemptKeeps(false, o, a, age, age, c, x);
    AttemptUnwrapped(o, a, age, c, x);
  }

  lemma {:induction false} SpendsUnwrapped(o: Origin, a: seq<Attempt>, age: nat, c: Counters, b: seq<Attempt>, d: Counters)
    requires Inv(false, o, a, age, age, c) && age < U16 && Unwrapped(o, a, age)
    requires Spends(false, age, age, c, b, d) && Covers(c, |b|)
    ensures Unwrapped(o, a + b, age)
    decreases |b|
  {
    hide Inv, Unwrapped, One;
    if b == [] {
      assert a + b == a;
    } else {
      BothKept(o, a, age, c, b[0]);
      SpendsUnwrapped(o, a + [b[0]], age, c.Spend(b[0].age != age), b[1..], d);
      assert a + [b[0]] + b[1..] == a + b;
    }
  }

  predicate Covers(c: Counters, n: nat) {
    n > 0 ==> c.current + n < U48 && c.last + n < U48
  }

  lemma GuardCovers(s: Sender, c: Call, n: nat)
    ensures Guard(s, c) && n <= Spending(s, c) ==> Covers(CountersOf(s), n)
  {
    hide BigEndian, Work;
  }

  // The run has come to |s| with the attempts |a|, and no counter has wrapped.
  predicate SoFar(o: Origin, a: seq<Attempt>, s: Sender) {
    s.Valid() && Inv(false, o, a, s.wEpoch, s.wEpoch, CountersOf(s)) && Unwrapped(o, a, s.wEpoch)
  }

  lemma CallUnwrapped(o: Origin, a: seq<Attempt>, s: Sender, c: Call)
    requires SoFar(o, a, s) && Guard(s, c)
    ensures var s' := Perform(s, c).s;
      s'.wEpoch == AgeAfter(s.wEpoch, c) && SoFar(o, a + CallAttempts(s, s.wEpoch, c), s')
  {
    hide Inv, Unwrapped, Spends, SendLoop, SealRecord, BigEndian, Work;
    CallKeeps(false, o, a, s, s.wEpoch, c);
    if c.Switch? {
      assert a + [] == a;
      SwitchUnwrapped(o, a, s.wEpoch, CountersOf(s));
    } else {
      CallSpends(false, s, s.wEpoch, c);
      CallSpending(s, s.wEpoch, c);
      GuardCovers(s, c, |CallAttempts(s, s.wEpoch, c)|);
      hide Perform, CallAttempts;
      SpendsUnwrapped(o, a, s.wEpoch, CountersOf(s), CallAttempts(s, s.wEpoch, c), CountersOf(Perform(s, c).s));
    }
  }

  lemma SwitchUnwrapped(o: Origin, a: seq<Attempt>, age: nat, c: Counters)
    requires Inv(false, o, a, age, age, c) && Unwrapped(o, a, age)
    ensures Unwrapped(o, a, age + 1)
  {
    CountNone(a, age + 1);
  }

  lemma {:induction false} RunUnwrapped(o: Origin, a: seq<Attempt>, s: Sender, calls: seq<Call>)
    requires s.Valid() && SoFar(o, a, s) && Guarded(s, calls)
    ensures NoneWrapped(o, a + Attempts(s, s.wEpoch, calls))
    decreases |calls|
  {
    hide NoneWrapped, Perform, SoFar, CallAttempts, Guard;
    if calls == [] {
      assert a + [] == a;
      SoFarSo(o, a, s);
    } else {
      var r, b := Perform(s, calls[0]), CallAttempts(s, s.wEpoch, calls[0]);
      CallUnwrapped(o, a, s, calls[0]);
      RunUnwrapped(o, a + b, r.s, calls[1..]);
      assert a + b + Attempts(r.s, r.s.wEpoch, calls[1..]) == a + Attempts(s, s.wEpoch, calls);
    }
  }

  lemma SoFarSo(o: Origin, a: seq<Attempt>, s: Sender)
    ensures SoFar(o, a, s) ==> NoneWrapped(o, a)
  {}

  lemma {:induction false} CountGrows(a: seq<Attempt>, i: nat, j: nat)
    requires i < j <= |a|
    ensures Count(a[..i], a[i].age) < Count(a[..j], a[i].age)
    decreases j
  {
    assert a[..j][..j - 1] == a[..j - 1];
    if i < j - 1 { CountGrows(a, i, j - 1); }
  }

  // Main result: if the guard holds before every call, no two records of the run carry the
  // same epoch and number, whatever fails, is rolled back or is retransmitted.
  lemma NumbersAreUnique(s: Sender, calls: seq<Call>)
    requires s.Valid() && Guarded(s, calls)
    ensures Distinct(Log(s, calls))
  {
    hide Distinct, Attempts, Log, SoFar, Guarded, Clash, NoneWrapped;
    var o, a := OriginOf(s), Attempts(s, s.wEpoch, calls);
    StartsUnwrapped(s);
    RunUnwrapped(o, [], s, calls);
    assert [] + a == a;
    RepeatsExactly(s, calls);
    forall i, j | 0 <= i < j < |a| ensures !Clash(o, a, i, j) { NoClash(o, a, i, j); }
  }

  lemma NoClash(o: Origin, a: seq<Attempt>, i: nat, j: nat)
    requires NoneWrapped(o, a) && i < j < |a|
    ensures !Clash(o, a, i, j)
  {
    hide Count, Value;
    CountGrows(a, i, j);
    BelowValue(o, a[..i], a[i].age);
    BelowValue(o, a[..j], a[j].age);
  }

  lemma StartsUnwrapped(s: Sender)
    requires s.Valid()
    ensures SoFar(OriginOf(s), [], s)
  {
    hide BigEndian, Inv;
    Starts(false, s);
    IncrementCounts(s.writeSequence);
    IncrementCounts(s.lastWriteSequence);
  }

  // --- Exactly when a number is reused ---

  // As dtls1_new leaves a connection: in epoch zero, with both counters at zero.
  predicate AtZero(s: Sender) {
    s.Valid() && s.wEpoch == 0 && CountersOf(s) == Counters(0, 0)
  }

  ghost predicate AllSmall(s: Sender, calls: seq<Call>) {
    s.mtu < U16 && forall c | c in calls :: Small(c)
  }

  function RecordsIn(log: Packet, e: nat): nat {
    if log == [] then 0
    else (if log[0].Valid() && log[0].Epoch() == e then 1 else 0) + RecordsIn(log[1..], e)
  }

  // No epoch has sealed 2^48 records or more.
  ghost predicate NoneFull(log: Packet) {
    forall e: nat :: RecordsIn(log, e) < U48
  }

  lemma {:induction false} RecordsInSum(a: Packet, b: Packet, e: nat)
    ensures RecordsIn(a + b, e) == RecordsIn(a, e) + RecordsIn(b, e)
  {
    if a == [] {
      assert a + b == b;
    } else {
      RecordsInSum(a[1..], b, e);
      assert (a + b)[0] == a[0] && (a + b)[1..] == a[1..] + b;
    }
  }

  // Every attempt in the epoch seals a record but those at the last number of all.
  lemma {:induction false} AttemptsToRecords(o: Origin, a: seq<Attempt>, e: nat)
    requires AllInOrder(true, o, a) && o.First(e) == 0
    requires forall k | 0 <= k < |a| :: 0 <= a[k].age < U16
    ensures RecordsIn(Records(a), e) == Count(a, e) - Count(a, e) / U48
  {
    if a != [] {
      var n := |a| - 1;
      var b, x := a[..n], a[n];
      forall k | 0 <= k < |b| ensures InOrder(true, o, b, k) {
        assert InOrder(true, o, a, k) && a[..k] == b[..k];
      }
      AttemptsToRecords(o, b, e);
      assert a == b + [x];
      RecordsCompose(b, [x]);
      RecordsInSum(Records(b), Records([x]), e);
      LastRecord(o, a, e);
    }
  }

  lemma LastRecord(o: Origin, a: seq<Attempt>, e: nat)
    requires a != [] && AllInOrder(true, o, a) && o.First(e) == 0 && 0 <= a[|a| - 1].age < U16
    ensures var n := |a| - 1; var c := Count(a[..n], e);
      RecordsIn(Records([a[n]]), e) == if a[n].age == e && c % U48 != U48 - 1 then 1 else 0
  {
    var n := |a| - 1;
    assert InOrder(true, o, a, n);
    assert [a[n]][1..] == [];
    assert Records([a[n]]) == RecordOf(a[n]) + [];
    if a[n].rec.Some? { assert RecordOf(a[n])[1..] == []; }
  }

  lemma {:induction false} NthAttempt(a: seq<Attempt>, g: int, n: nat) returns (k: nat)
    requires n < Count(a, g)
    ensures k < |a| && a[k].age == g && Count(a[..k], g) == n
  {
    var m := |a| - 1;
    if n < Count(a[..m], g) {
      k := NthAttempt(a[..m], g, n);
      assert a[..m][..k] == a[..k];
    } else {
      k := m;
    }
  }

  // What a run from zero with no record too long makes of its attempts.
  predicate Plainly(o: Origin, a: seq<Attempt>) {
    && o.age == 0 && o.c == Counters(0, 0) && AllInOrder(true, o, a)
    && forall k | 0 <= k < |a| :: 0 <= a[k].age < U16
  }

  lemma RunPlainly(s: Sender, calls: seq<Call>)
    requires AtZero(s) && AllSmall(s, calls) && Switches(calls) < U16
    ensures Plainly(OriginOf(s), Attempts(s, 0, calls))
  {
    hide BigEndian, AllInOrder, Attempts;
    NumberOfAttempt(true, s, calls);
  }

  // The 2^48th attempt after one that sealed a record under number zero seals another.
  lemma TooManyClash(o: Origin, a: seq<Attempt>, e: nat) returns (i: nat, j: nat)
    requires Plainly(o, a) && Count(a, e) > U48
    ensures i < j < |a| && Clash(o, a, i, j)
  {
    i := NthAttempt(a, e, 0);
    j := NthAttempt(a, e, U48);
    if j <= i { CountMonotone(a, j, i, e); }
    assert InOrder(true, o, a, i) && InOrder(true, o, a, j);
  }

  lemma {:induction false} CountMonotone(a: seq<Attempt>, i: nat, j: nat, g: int)
    requires i <= j <= |a|
    ensures Count(a[..i], g) <= Count(a[..j], g)
    decreases j
  {
    if i < j {
      assert a[..j][..j - 1] == a[..j - 1];
      CountMonotone(a, i, j - 1, g);
    }
  }

  lemma FewDoNotClash(o: Origin, a: seq<Attempt>, i: nat, j: nat)
    requires Plainly(o, a) && i < j < |a| && Count(a, a[i].age) <= U48
    ensures !Clash(o, a, i, j)
  {
    hide AllInOrder, Value, Count;
    if a[i].age == a[j].age {
      CountGrows(a, i, j);
      CountGrows(a, j, |a|);
      assert a[..|a|] == a;
      BelowValue(o, a[..i], a[i].age);
      BelowValue(o, a[..j], a[j].age);
    }
  }

  lemma Quotient(c: nat)
    ensures c - c / U48 <= U48 - 1 <==> c <= U48
  {}

  // Main result: for a connection that starts at zero and whose records fit their length
  // field, and that switches epochs fewer than 2^16 times, some number is reused exactly
  // when some epoch has sealed 2^48 records or more.
  lemma ReusedExactly(s: Sender, calls: seq<Call>)
    requires AtZero(s) && AllSmall(s, calls) && Switches(calls) < U16
    ensures Distinct(Log(s, calls)) <==> NoneFull(Log(s, calls))
  {
    hide BigEndian, Attempts, Log, Distinct, AllInOrder, RecordsIn, Clash, Count;
    var o, a := OriginOf(s), Attempts(s, 0, calls);
    RunPlainly(s, calls);
    RepeatsExactly(s, calls);
    LogIsRecords(s, 0, calls);
    forall e: nat ensures RecordsIn(Log(s, calls), e) <= U48 - 1 <==> Count(a, e) <= U48 {
      AttemptsToRecords(o, a, e);
      Quotient(Count(a, e));
    }
    if NoneFull(Log(s, calls)) {
      forall i, j | 0 <= i < j < |a| ensures !Clash(o, a, i, j) {
        assert RecordsIn(Log(s, calls), a[i].age) < U48;
        FewDoNotClash(o, a, i, j);
      }
    } else {
      var e: nat :| RecordsIn(Log(s, calls), e) >= U48;
      var i, j := TooManyClash(o, a, e);
      assert Clash(o, a, i, j);
    }
  }

  lemma {:induction false} LogAppend(s: Sender, calls: seq<Call>, c: Call)
    requires s.Valid()
    ensures Log(s, calls + [c]) == Log(s, calls) + Perform(End(s, calls), c).sealed
    decreases |calls|
  {
    hide Perform;
    if calls == [] {
      assert [c][1..] == [];
      assert [] + [c] == [c];
      assert Log(Perform(s, c).s, []) == [];
    } else {
      LogAppend(Perform(s, calls[0]).s, calls[1..], c);
      assert (calls + [c])[0] == calls[0] && (calls + [c])[1..] == calls[1..] + [c];
    }
  }

  lemma {:induction false} SwitchesAppend(calls: seq<Call>, c: Call)
    ensures Switches(calls + [c]) == Switches(calls) + if c.Switch? then 1 else 0
  {
    if calls == [] {
      assert [c][1..] == [] && [] + [c] == [c];
    } else {
      SwitchesAppend(calls[1..], c);
      assert (calls + [c])[0] == calls[0] && (calls + [c])[1..] == calls[1..] + [c];
    }
  }

  // One further record repeats a number exactly when its epoch is full: 2^48 - 1 records
  // have been sealed in it already.
  lemma FurtherSealRepeats(s: Sender, calls: seq<Call>, c: Call, rec: Record)
    requires AtZero(s) && AllSmall(s, calls) && Switches(calls) < U16 && Distinct(Log(s, calls))
    requires c.Other? && Small(c) && Perform(End(s, calls), c).sealed == [rec]
    ensures rec.Valid()
    ensures (exists x | x in Log(s, calls) :: x.sequence == rec.sequence) <==>
            RecordsIn(Log(s, calls), rec.Epoch()) == U48 - 1
  {
    assert rec.Valid() by { hide Log, End; }
    hide Log, Perform, End, AtZero, Distinct, RecordsIn, Switches, Record.Epoch;
    LogAppend(s, calls, c);
    SwitchesAppend(calls, c);
    ReusedExactly(s, calls);
    ReusedExactly(s, calls + [c]);
    OneMoreRepeats(Log(s, calls), rec);
  }

  lemma OneMoreRepeats(log: Packet, rec: Record)
    requires rec.Valid() && Distinct(log)
    requires Distinct(log) <==> NoneFull(log)
    requires Distinct(log + [rec]) <==> NoneFull(log + [rec])
    ensures (exists x | x in log :: x.sequence == rec.sequence) <==> RecordsIn(log, rec.Epoch()) == U48 - 1
  {
    hide Distinct, RecordsIn, Record.Epoch;
    OneMore(log, rec);
    assert RecordsIn(log, rec.Epoch()) < U48;
    if RecordsIn(log, rec.Epoch()) == U48 - 1 {
      assert RecordsIn(log + [rec], rec.Epoch()) == U48;
    } else {
      forall e: nat ensures RecordsIn(log + [rec], e) < U48 { assert RecordsIn(log, e) < U48; }
    }
  }

  lemma OneMore(log: Packet, rec: Record)
    requires rec.Valid() && Distinct(log)
    ensures Distinct(log + [rec]) <==> !exists x | x in log :: x.sequence == rec.sequence
    ensures forall e: nat :: RecordsIn(log + [rec], e) == RecordsIn(log, e) + if rec.Epoch() == e then 1 else 0
  {
    var all := log + [rec];
    forall e: nat ensures RecordsIn(all, e) == RecordsIn(log, e) + if rec.Epoch() == e then 1 else 0 {
      RecordsInSum(log, [rec], e);
      assert [rec][1..] == [];
    }
    if x :| x in log && x.sequence == rec.sequence {
      var i :| 0 <= i < |log| && log[i] == x;
      assert all[i] == x && all[|log|] == rec;
    }
  }

  // --- Runs that reuse a number ---

  function NewSender(): Sender {
    Ready([], [0, 0, 0, 0, 0, 0], DEFAULT_MTU)
  }

  const EMPTY_DATA: Call := Other(100, APPLICATION_DATA, [])
  const NULL_SWITCH: Call := Switch(NULL_AEAD)

  function Times(c: Call, n: nat): seq<Call> {
    if n == 0 then [] else [c] + Times(c, n - 1)
  }

  lemma {:induction false} TimesSmall(c: Call, n: nat)
    requires Small(c)
    ensures (forall x | x in Times(c, n) :: Small(x)) && (!c.Switch? ==> Switches(Times(c, n)) == 0)
  {
    if n > 0 { TimesSmall(c, n - 1); }
  }

  lemma OneSeal(s: Sender, age: int)
    requires s.Valid() && s.aead == NULL_AEAD
    ensures var r, a := Perform(s, EMPTY_DATA), CallAttempts(s, age, EMPTY_DATA);
      && r.s.aead == NULL_AEAD && r.s.wEpoch == s.wEpoch
      && |a| == 1 && a[0].age == age
      && BigEndian(r.s.writeSequence) == NextCount(BigEndian(s.writeSequence))
      && (BigEndian(s.writeSequence) < U48 - 1 ==>
            |r.sealed| == 1 && r.sealed[0].sequence == Put16(s.wEpoch) + s.writeSequence)
  {
    hide BigEndian, CallAttempts;
    IncrementCounts(s.writeSequence);
    OtherAttempts(s, age, EMPTY_DATA);
    assert NULL_AEAD.tagLen(0) == 0;
  }

  lemma {:induction false} CountTimes(s: Sender, age: int, n: nat, g: int)
    requires s.Valid() && s.aead == NULL_AEAD
    ensures Count(Attempts(s, age, Times(EMPTY_DATA, n)), g) == if g == age then n else 0
    decreases n
  {
    hide Perform, CallAttempts, BigEndian, Count;
    if n == 0 {
      CountNothing(g);
    } else {
      var calls := Times(EMPTY_DATA, n);
      assert calls[0] == EMPTY_DATA && calls[1..] == Times(EMPTY_DATA, n - 1);
      OneSeal(s, age);
      var s', a := Perform(s, EMPTY_DATA).s, CallAttempts(s, age, EMPTY_DATA);
      CountTimes(s', age, n - 1, g);
      CountFirst(a[0], Attempts(s', age, calls[1..]), g);
      assert a == [a[0]];
    }
  }

  lemma CountNothing(g: int)
    ensures Count([], g) == 0
  {}

  lemma {:induction false} CountFirst(x: Attempt, a: seq<Attempt>, g: int)
    ensures Count([x] + a, g) == (if x.age == g then 1 else 0) + Count(a, g)
  {
    if a == [] {
      assert [x] + a == [x];
    } else {
      var n := |a| - 1;
      CountFirst(x, a[..n], g);
      assert ([x] + a)[..n + 1] == [x] + a[..n];
    }
  }

  // A new connection that does nothing but send |n| records of application data repeats a
  // number exactly when |n| is above 2^48: the 2^48th attempt fails and the next succeeds.
  lemma SealingRun(n: nat)
    ensures Distinct(Log(NewSender(), Times(EMPTY_DATA, n))) <==> n <= U48
  {
    hide Log, Distinct, AllInOrder, RecordsIn, Clash, Count, Perform, Attempts, BigEndian;
    var s, calls := NewSender(), Times(EMPTY_DATA, n);
    var o, a := OriginOf(s), Attempts(s, 0, calls);
    ZeroNumber();
    TimesSmall(EMPTY_DATA, n);
    ReusedExactly(s, calls);
    RunPlainly(s, calls);
    LogIsRecords(s, 0, calls);
    forall e: nat ensures RecordsIn(Log(s, calls), e) == if e == 0 then n - n / U48 else 0 {
      AttemptsToRecords(o, a, e);
      CountTimes(s, 0, n, e);
    }
    Quotient(n);
    if NoneFull(Log(s, calls)) { assert RecordsIn(Log(s, calls), 0) < U48; }
  }

  lemma {:induction false} LogCompose(s: Sender, a: seq<Call>, b: seq<Call>)
    requires s.Valid()
    ensures Log(s, a + b) == Log(s, a) + Log(End(s, a), b)
    decreases |a|
  {
    hide Perform;
    if a == [] {
      assert a + b == b;
    } else {
      LogCompose(Perform(s, a[0]).s, a[1..], b);
      assert (a + b)[0] == a[0] && (a + b)[1..] == a[1..] + b;
    }
  }

  lemma {:induction false} SwitchTimes(s: Sender, k: nat)
    requires s.Valid() && s.aead == NULL_AEAD
    ensures var s' := End(s, Times(NULL_SWITCH, k));
      && Log(s, Times(NULL_SWITCH, k)) == []
      && s'.aead == NULL_AEAD && s'.wEpoch == (s.wEpoch + k) % U16
      && s'.writeSequence == if k == 0 then s.writeSequence else [0, 0, 0, 0, 0, 0]
    decreases k
  {
    hide Perform;
    if k > 0 {
      var calls := Times(NULL_SWITCH, k);
      assert calls[0] == NULL_SWITCH && calls[1..] == Times(NULL_SWITCH, k - 1);
      OneSwitch(s);
      SwitchTimes(Perform(s, NULL_SWITCH).s, k - 1);
    }
  }

  lemma OneSwitch(s: Sender)
    requires s.Valid()
    ensures var r := Perform(s, NULL_SWITCH);
      && r.sealed == [] && r.s.aead == NULL_AEAD
      && r.s.wEpoch == (s.wEpoch + 1) % U16 && r.s.writeSequence == [0, 0, 0, 0, 0, 0]
  {}

  // A new connection that seals one record, switches epochs |k| times and seals another
  // repeats a number exactly when the 16-bit epoch has come round.
  lemma SwitchingRun(k: nat)
    ensures Distinct(Log(NewSender(), [EMPTY_DATA] + Times(NULL_SWITCH, k) + [EMPTY_DATA])) <==>
            k == 0 || k % U16 != 0
  {
    hide Perform, BigEndian, Log, End, Times, CallAttempts;
    var s, one, mid := NewSender(), [EMPTY_DATA], Times(NULL_SWITCH, k);
    var s1 := Perform(s, EMPTY_DATA).s;
    var s2 := End(s1, mid);
    ZeroNumber();
    OneSeal(s, 0);
    SwitchTimes(s1, k);
    OneSeal(s2, 0);
    LogCompose(s, one + mid, one);
    LogCompose(s, one, mid);
    EndCompose(s, one, mid);
    OneCall(s, EMPTY_DATA);
    OneCall(s2, EMPTY_DATA);
    var x, y := Perform(s, EMPTY_DATA).sealed, Perform(s2, EMPTY_DATA).sealed;
    assert Log(s, one + mid + one) == x + y;
    assert |x| == 1 && |y| == 1;
    assert Distinct(x + y) <==> x[0].sequence != y[0].sequence by { assert (x + y)[0] == x[0] && (x + y)[1] == y[0]; }
    TwoApart(k % U16, s2.writeSequence);
  }

  lemma TwoApart(epoch: nat, number: bytes)
    requires epoch < U16 && |number| == 6
    ensures Put16(0) + [0, 0, 0, 0, 0, 0] == Put16(epoch) + number <==> epoch == 0 && number == [0, 0, 0, 0, 0, 0]
  {
    var x, y := Put16(0) + [0, 0, 0, 0, 0, 0], Put16(epoch) + number;
    Get16Put16(epoch);
    assert x[..2] == Put16(0) && y[..2] == Put16(epoch) && y[2..] == number && x[2..] == [0, 0, 0, 0, 0, 0];
  }

  lemma OneCall(s: Sender, c: Call)
    requires s.Valid()
    ensures Log(s, [c]) == Perform(s, c).sealed && End(s, [c]) == Perform(s, c).s
  {
    hide Perform;
    assert [c][1..] == [];
    assert Log(Perform(s, c).s, []) == [];
  }

  lemma {:induction false} EndCompose(s: Sender, a: seq<Call>, b: seq<Call>)
    requires s.Valid()
    ensures End(s, a + b) == End(End(s, a), b)
    decreases |a|
  {
    hide Perform;
    if a == [] {
      assert a + b == b;
    } else {
      EndCompose(Perform(s, a[0]).s, a[1..], b);
      assert (a + b)[0] == a[0] && (a + b)[1..] == a[1..] + b;
    }
  }
}
