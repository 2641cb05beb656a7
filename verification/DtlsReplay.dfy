/** Which records the receiver accepts over any run, epoch switches included: no record
    twice before its 16-bit epoch has come round, and then again (section 4.1.2.6 of RFC 6347). */
module DtlsReplay {
  import opened Bytes
  import opened ReplayWindow
  import opened DtlsRecord
  import opened RecordTypes
  import opened DtlsReceive

  datatype Event =
    | Arrive(rec: Record)
    | ArriveForCcs(rec: Record)
    | Get
    | Next
    | SwitchRead(nullCipher: bool)

  predicate ValidEvent(e: Event) {
    match e
    case Arrive(rec) => rec.Valid()
    case ArriveForCcs(rec) => rec.Valid()
    case _ => true
  }

  predicate ValidEvents(es: seq<Event>) {
    forall e | e in es :: ValidEvent(e)
  }

  // The record that dtls_open_record is given during |e|, if it is called at all.
  function Offered(r: Receiver, e: Event): Option<Record> {
    match e
    case Arrive(rec) => Some(rec)
    case ArriveForCcs(rec) => if r.hasCcs then None else Some(rec)
    case _ => None
  }

  function Accepted(r: Receiver, e: Event): seq<Record>
    requires r.Valid() && ValidEvent(e)
  {
    match Offered(r, e)
    case None => []
    case Some(rec) =>
      var out := OpenRecord(r, rec).1;
      if out == Success || out == AlertReceived then [rec] else []
  }

  function Handle(r: Receiver, e: Event): (r': Receiver)
    requires r.Valid() && ValidEvent(e)
    ensures r'.Valid()
  {
    match e
    case Arrive(rec) => OpenHandshake(r, rec).0
    case ArriveForCcs(rec) => OpenChangeCipherSpec(r, rec).0
    case Get => GetMessage(r).0
    case Next => if r.hasMessage && r.CurrentComplete() then NextMessage(r) else r
    case SwitchRead(nullCipher) => SetReadState(r, nullCipher).0
  }

  function AcceptedLog(r: Receiver, es: seq<Event>): seq<Record>
    requires r.Valid() && ValidEvents(es)
    decreases |es|
  {
    if es == [] then [] else Accepted(r, es[0]) + AcceptedLog(Handle(r, es[0]), es[1..])
  }

  function Switches(es: seq<Event>): nat {
    if es == [] then 0 else (if es[0].SwitchRead? then 1 else 0) + Switches(es[1..])
  }

  // |ages| says after how many epoch switches each record of |log| was accepted, the run
  // having begun in epoch |e0| and switched |age| times. What was accepted in the epoch
  // being read is in the window.
  predicate Remembered(e0: nat, age: nat, ages: seq<nat>, log: seq<Record>, r: Receiver) {
    && r.rEpoch == (e0 + age) % U16 && |ages| == |log|
    && forall i | 0 <= i < |log| ::
         && log[i].Valid() && ages[i] <= age && log[i].Epoch() == (e0 + ages[i]) % U16
         && (ages[i] == age ==> log[i].Number() in r.window.seen)
  }

  // Two records accepted under the same epoch and number were accepted a multiple of 2^16
  // switches apart.
  predicate Apart(ages: seq<nat>, log: seq<Record>)
    requires |ages| == |log|
  {
    forall i, j | 0 <= i < j < |log| && log[i].sequence == log[j].sequence ::
      ages[i] < ages[j] && (ages[j] - ages[i]) % U16 == 0
  }

  lemma AcceptRemembers(e0: nat, age: nat, ages: seq<nat>, log: seq<Record>, r: Receiver, rec: Record)
    requires r.Valid() && rec.Valid() && Remembered(e0, age, ages, log, r)
    ensures var (r', out) := OpenRecord(r, rec);
      if out == Success || out == AlertReceived then Remembered(e0, age, ages + [age], log + [rec], r')
      else Remembered(e0, age, ages, log, r')
  {
    hide Record.Number, Record.Epoch;
  }

  // The window discards what was accepted in the epoch being read, and the epoch field
  // tells the others apart.
  lemma AcceptApart(e0: nat, age: nat, ages: seq<nat>, log: seq<Record>, r: Receiver, rec: Record)
    requires r.Valid() && rec.Valid() && Remembered(e0, age, ages, log, r) && Apart(ages, log)
    requires OpenRecord(r, rec).1 == Success || OpenRecord(r, rec).1 == AlertReceived
    ensures Apart(ages + [age], log + [rec])
  {
    forall i | 0 <= i < |log| && log[i].sequence == rec.sequence
      ensures ages[i] < age && (age - ages[i]) % U16 == 0
    {
      assert log[i].Epoch() == rec.Epoch() && log[i].Number() == rec.Number();
    }
    hide Remembered, OpenRecord, Record.Number, Record.Epoch;
  }

  // What an event does to the window and the epoch, and nothing else is said here.
  lemma EventWindow(r: Receiver, e: Event)
    requires r.Valid() && ValidEvent(e)
    ensures var r' := Handle(r, e);
      match Offered(r, e)
      case Some(rec) => r'.window == OpenRecord(r, rec).0.window && r'.rEpoch == r.rEpoch
      case None =>
        || (r'.window == r.window && r'.rEpoch == r.rEpoch)
        || (e.SwitchRead? && r'.window == EMPTY && r'.rEpoch == (r.rEpoch + 1) % U16)
  {
    hide TakeFragments;
    match e
    case Arrive(rec) => SameWindow(r, rec);
    case ArriveForCcs(rec) => SameWindow(r, rec);
    case _ =>
  }

  lemma SameWindow(r: Receiver, rec: Record)
    requires r.Valid() && rec.Valid()
    ensures var r1, r2 := OpenRecord(r, rec).0, OpenHandshake(r, rec).0;
      r2.window == r1.window && r2.rEpoch == r1.rEpoch == r.rEpoch
  {
    hide TakeFragments;
  }

  lemma EventKeeps(e0: nat, age: nat, ages: seq<nat>, log: seq<Record>, r: Receiver, e: Event)
    returns (age': nat, ages': seq<nat>)
    requires r.Valid() && ValidEvent(e) && Remembered(e0, age, ages, log, r) && Apart(ages, log)
    ensures |ages'| == |log + Accepted(r, e)| && age <= age' <= age + (if e.SwitchRead? then 1 else 0)
    ensures Remembered(e0, age', ages', log + Accepted(r, e), Handle(r, e)) && Apart(ages', log + Accepted(r, e))
  {
    hide Handle, OpenRecord, Record.Number, Record.Epoch;
    assert log + [] == log;
    EventWindow(r, e);
    age', ages' := age, ages;
    match Offered(r, e)
    case Some(rec) =>
      AcceptRemembers(e0, age, ages, log, r, rec);
      if Accepted(r, e) != [] {
        AcceptApart(e0, age, ages, log, r, rec);
        ages' := ages + [age];
      }
    case None =>
      if Handle(r, e).rEpoch != r.rEpoch { age' := age + 1; }
  }

  lemma {:induction false} RunKeeps(e0: nat, age: nat, ages: seq<nat>, log: seq<Record>, r: Receiver, es: seq<Event>)
    returns (ages': seq<nat>)
    requires r.Valid() && ValidEvents(es) && Remembered(e0, age, ages, log, r) && Apart(ages, log)
    ensures |ages'| == |log + AcceptedLog(r, es)| && Apart(ages', log + AcceptedLog(r, es))
    ensures forall i | 0 <= i < |ages'| :: ages'[i] <= age + Switches(es)
    decreases |es|
  {
    hide Accepted, Handle;
    if es == [] {
      assert log + [] == log;
      ages' := ages;
    } else {
      hide Remembered, Apart;
      var age1, ages1 := EventKeeps(e0, age, ages, log, r, es[0]);
      ages' := RunKeeps(e0, age1, ages1, log + Accepted(r, es[0]), Handle(r, es[0]), es[1..]);
      assert log + Accepted(r, es[0]) + AcceptedLog(Handle(r, es[0]), es[1..]) == log + AcceptedLog(r, es);
    }
  }

  // Main result: with fewer than 2^16 epoch switches nothing passes the window twice,
  // whatever arrives in whatever order.
  lemma NeverAcceptedTwice(r: Receiver, es: seq<Event>)
    requires r.Valid() && ValidEvents(es) && Switches(es) < U16
    ensures Distinct(AcceptedLog(r, es))
  {
    hide AcceptedLog, Remembered, Apart, Distinct, Switches;
    NothingYet(r);
    var ages := RunKeeps(r.rEpoch, 0, [], [], r, es);
    assert [] + AcceptedLog(r, es) == AcceptedLog(r, es);
    SoonDistinct(ages, AcceptedLog(r, es));
  }

  lemma NothingYet(r: Receiver)
    requires r.Valid()
    ensures Remembered(r.rEpoch, 0, [], [], r) && Apart([], [])
  {}

  lemma SoonDistinct(ages: seq<nat>, log: seq<Record>)
    requires |ages| == |log| && Apart(ages, log) && forall i | 0 <= i < |ages| :: ages[i] < U16
    ensures Distinct(log)
  {
    forall i, j | 0 <= i < j < |log| ensures log[i].sequence != log[j].sequence {
      assert ages[i] < U16 && ages[j] < U16;
    }
  }

  // --- The epoch coming round ---

  // |rec| is application data that |r| accepts now, and nothing keeps |r| from switching.
  predicate Acceptable(r: Receiver, rec: Record) {
    && r.Valid() && !r.nullCipher && !HasUnprocessedData(r)
    && rec.Valid() && rec.authentic && rec.typ == APPLICATION_DATA
    && |rec.payload| <= MAX_PLAIN && rec.bodyLen <= MAX_ENCRYPTED
    && rec.Epoch() == r.rEpoch && !r.window.Discards(rec.Number())
  }

  function Times(e: Event, n: nat): (es: seq<Event>)
    ensures |es| == n && forall x | x in es :: x == e
  {
    if n == 0 then [] else [e] + Times(e, n - 1)
  }

  function After(r: Receiver, es: seq<Event>): (r': Receiver)
    requires r.Valid() && ValidEvents(es)
    ensures r'.Valid()
    decreases |es|
  {
    if es == [] then r else After(Handle(r, es[0]), es[1..])
  }

  lemma {:induction false} LogCompose(r: Receiver, a: seq<Event>, b: seq<Event>)
    requires r.Valid() && ValidEvents(a) && ValidEvents(b)
    ensures AcceptedLog(r, a + b) == AcceptedLog(r, a) + AcceptedLog(After(r, a), b)
    ensures After(r, a + b) == After(After(r, a), b)
    decreases |a|
  {
    hide Accepted, Handle, ValidEvent;
    if a == [] {
      assert a + b == b;
    } else {
      LogCompose(Handle(r, a[0]), a[1..], b);
      assert (a + b)[0] == a[0] && (a + b)[1..] == a[1..] + b;
    }
  }

  lemma {:induction false} SwitchesCompose(a: seq<Event>, b: seq<Event>)
    ensures Switches(a + b) == Switches(a) + Switches(b)
  {
    if a == [] {
      assert a + b == b;
    } else {
      SwitchesCompose(a[1..], b);
      assert (a + b)[0] == a[0] && (a + b)[1..] == a[1..] + b;
    }
  }

  lemma OneEvent(r: Receiver, e: Event)
    requires r.Valid() && ValidEvent(e)
    ensures AcceptedLog(r, [e]) == Accepted(r, e) && After(r, [e]) == Handle(r, e)
    ensures Switches([e]) == if e.SwitchRead? then 1 else 0
  {
    hide Accepted, Handle;
    assert [e][1..] == [];
    assert AcceptedLog(Handle(r, e), []) == [];
  }

  // Ready to switch, to another epoch with encryption.
  predicate Quiet(r: Receiver) {
    r.Valid() && !r.nullCipher && !HasUnprocessedData(r)
  }

  function Switched(r: Receiver, n: nat): Receiver {
    if n == 0 then r else r.(rEpoch := (r.rEpoch + n) % U16, window := EMPTY)
  }

  lemma OneSwitch(r: Receiver)
    requires Quiet(r)
    ensures Handle(r, SwitchRead(false)) == Switched(r, 1) && Quiet(Switched(r, 1))
    ensures Accepted(r, SwitchRead(false)) == []
  {}

  lemma {:induction false} SwitchTimes(r: Receiver, n: nat)
    requires Quiet(r)
    ensures var es := Times(SwitchRead(false), n);
      After(r, es) == Switched(r, n) && Quiet(Switched(r, n)) && AcceptedLog(r, es) == [] && Switches(es) == n
    decreases n
  {
    hide Handle, Quiet, Accepted;
    if n > 0 {
      var es := Times(SwitchRead(false), n);
      assert es[0] == SwitchRead(false) && es[1..] == Times(SwitchRead(false), n - 1);
      OneSwitch(r);
      SwitchTimes(Switched(r, 1), n - 1);
      assert Switched(Switched(r, 1), n - 1) == Switched(r, n);
    }
  }

  lemma DataArrives(r: Receiver, rec: Record)
    requires Acceptable(r, rec)
    ensures Accepted(r, Arrive(rec)) == [rec]
    ensures Handle(r, Arrive(rec)) == r.(window := r.window.Recorded(rec.Number())) && Quiet(Handle(r, Arrive(rec)))
  {}

  // The same record before and after |k| switches: it is accepted both times exactly
  // when the epoch has come round in between.
  lemma SwitchingRun(r: Receiver, rec: Record, k: nat)
    requires Acceptable(r, rec)
    ensures var es := [Arrive(rec)] + Times(SwitchRead(false), k) + [Arrive(rec)];
      && ValidEvents(es) && Switches(es) == k
      && (Distinct(AcceptedLog(r, es)) <==> k == 0 || k % U16 != 0)
  {
    var one, mid := [Arrive(rec)], Times(SwitchRead(false), k);
    assert ValidEvents(one) && ValidEvents(mid);
    var r1 := Handle(r, Arrive(rec));
    DataArrives(r, rec);
    hide AcceptedLog, After, Handle;
    OneEvent(r, Arrive(rec));
    SwitchTimes(r1, k);
    var r2 := Switched(r1, k);
    OneEvent(r2, Arrive(rec));
    LogCompose(r, one + mid, one);
    LogCompose(r, one, mid);
    SwitchesCompose(one + mid, one);
    SwitchesCompose(one, mid);
    SecondArrival(r1, rec, k);
    DistinctPair(rec);
  }

  lemma DistinctPair(rec: Record)
    ensures Distinct([rec]) && !Distinct([rec] + [rec])
  {
    assert ([rec] + [rec])[0] == rec && ([rec] + [rec])[1] == rec;
  }

  lemma SecondArrival(r: Receiver, rec: Record, k: nat)
    requires Quiet(r) && Quiet(Switched(r, k)) && rec.Valid() && rec.authentic && rec.Epoch() == r.rEpoch
    requires |rec.payload| <= MAX_PLAIN && rec.bodyLen <= MAX_ENCRYPTED && rec.Number() in r.window.seen
    ensures Accepted(Switched(r, k), Arrive(rec)) == if k > 0 && k % U16 == 0 then [rec] else []
  {
    hide Record.Epoch, Record.Number, HasUnprocessedData;
  }

  // How many switches are safe: no run with up to |k| of them accepts a record twice if
  // and only if |k| is below 2^16.
  lemma SafeSwitches(r: Receiver, rec: Record, k: nat)
    requires Acceptable(r, rec)
    ensures (forall es | ValidEvents(es) && Switches(es) <= k :: Distinct(AcceptedLog(r, es))) <==> k < U16
  {
    hide AcceptedLog, Switches, Distinct;
    if k < U16 {
      forall es | ValidEvents(es) && Switches(es) <= k ensures Distinct(AcceptedLog(r, es)) {
        NeverAcceptedTwice(r, es);
      }
    } else {
      SwitchingRun(r, rec, U16);
    }
  }

  // A record that does not open leaves the window, and so later numbers, untouched.
  lemma ForgeryLeavesWindow(r: Receiver, rec: Record)
    requires r.Valid() && rec.Valid() && !rec.authentic
    ensures OpenHandshake(r, rec) == (r, Discard)
  {}
}
