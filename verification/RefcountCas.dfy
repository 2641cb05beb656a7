/** The compare-and-swap loops of refcount_c11.c, run by any number of threads in any
    interleaving, with weak exchanges that may fail for no reason. */
module RefcountCas {
  import opened Bytes
  import opened Refcount

  // Where a thread is in CRYPTO_refcount_inc or CRYPTO_refcount_dec_and_test_zero: before
  // the load, at the head of its loop with |expected|, or about to return.
  datatype Local = Resting | Entered(op: Op) | Looping(op: Op, expected: nat) | Leaving(op: Op, res: Result)

  datatype State = State(count: nat, threads: seq<Local>, dead: bool, h: History)

  // A thread's next step; |spurious| lets the exchange fail although the count is as expected.
  datatype Action = Call(t: nat, op: Op) | Load(t: nat) | Turn(t: nat, spurious: bool) | Ret(t: nat)

  predicate Enabled(s: State, a: Action) {
    && !s.dead && a.t < |s.threads|
    && match a
       case Call(t, _) => s.threads[t].Resting?
       case Load(t) => s.threads[t].Entered?
       case Turn(t, _) => s.threads[t].Looping?
       case Ret(t) => s.threads[t].Leaving?
  }

  // |expected| becomes the count. A release that reads zero is lost from then on: it will
  // abort, whatever the others do meanwhile.
  function Reload(s: State, t: nat, op: Op): State
    requires t < |s.threads|
  {
    s.(threads := s.threads[t := Looping(op, s.count)],
       h := if op == Dec && s.count == 0 then s.h + [Take(t, Dec, Aborted)] else s.h)
  }

  function Finish(s: State, t: nat, op: Op, res: Result, count: nat): State
    requires t < |s.threads|
  {
    s.(count := count, threads := s.threads[t := Leaving(op, res)], h := s.h + [Take(t, op, res)])
  }

  // One turn of either loop, with |expected| as it is at its head.
  function LoopTurn(s: State, t: nat, op: Op, expected: nat, spurious: bool): State
    requires t < |s.threads|
  {
    if op.Dec? && expected == 0 then s.(dead := true)
    else if expected == MAX then Finish(s, t, op, if op == Inc then Counted else ReachedZero(false), s.count)
    else
      var newValue := if op.Inc? then expected + 1 else expected - 1;
      if s.count == expected && !spurious then
        Finish(s, t, op, if op == Inc then Counted else ReachedZero(newValue == 0), newValue)
      else Reload(s, t, op)
  }

  function Step(s: State, a: Action): State
    requires Enabled(s, a)
  {
    match a
    case Call(t, op) => s.(threads := s.threads[t := Entered(op)], h := s.h + [Invoke(t, op)])
    case Load(t) => Reload(s, t, s.threads[t].op)
    case Turn(t, spurious) => LoopTurn(s, t, s.threads[t].op, s.threads[t].expected, spurious)
    case Ret(t) =>
      var l := s.threads[t];
      s.(threads := s.threads[t := Resting], h := s.h + [Return(t, l.op, l.res)])
  }

  // What a thread's place says about its call.
  predicate Agrees(l: Local, p: Phase, count: nat) {
    match l
    case Resting => p == Idle
    case Entered(op) => p == Called(op)
    case Looping(op, expected) =>
      if op == Dec && expected == 0 then p == Taken(Dec, Aborted)
      else p == Called(op) && expected <= MAX && (expected == MAX ==> count == MAX)
    case Leaving(op, res) => p == Taken(op, res)
  }

  ghost predicate Inv(v0: nat, s: State) {
    && s.count <= MAX
    && Replay(v0, s.h) == Some(s.count)
    && (forall t | 0 <= t < |s.threads| :: Agrees(s.threads[t], PhaseOf(s.h, t), s.count))
    && (forall t | t >= |s.threads| :: PhaseOf(s.h, t) == Idle)
  }

  lemma StepKeepsInv(v0: nat, s: State, a: Action)
    requires Inv(v0, s) && Enabled(s, a)
    ensures Inv(v0, Step(s, a))
  {
    hide PhaseOf, Replay;
    var t := a.t;
    var l := s.threads[t];
    assert Agrees(l, PhaseOf(s.h, t), s.count);
    match a
    case Call(_, op) => Snoc(v0, s.h, Invoke(t, op));
    case Load(_) => Snoc(v0, s.h, Take(t, Dec, Aborted));
    case Ret(_) => Snoc(v0, s.h, Return(t, l.op, l.res));
    case Turn(_, spurious) =>
      Snoc(v0, s.h, Take(t, Dec, Aborted));
      Snoc(v0, s.h, Take(t, l.op, Apply(s.count, l.op).1));
  }

  // Any interleaving: the actions that are not enabled when their turn comes do nothing.
  function Run(s: State, run: seq<Action>): State
    decreases |run|
  {
    if run == [] then s else Run(if Enabled(s, run[0]) then Step(s, run[0]) else s, run[1..])
  }

  function Start(count: nat, threads: nat): State {
    State(count, seq(threads, _ => Resting), false, [])
  }

  lemma {:induction false} RunKeepsInv(v0: nat, s: State, run: seq<Action>)
    requires Inv(v0, s)
    ensures Inv(v0, Run(s, run))
    decreases |run|
  {
    hide Inv, Step;
    if run != [] {
      if Enabled(s, run[0]) { StepKeepsInv(v0, s, run[0]); }
      RunKeepsInv(v0, if Enabled(s, run[0]) then Step(s, run[0]) else s, run[1..]);
    }
  }

  // The loops implement the atomic counter.
  lemma CasLinearizable(count: nat, threads: nat, run: seq<Action>)
    requires count <= MAX
    ensures var s := Run(Start(count, threads), run); Linearizable(count, s.h, s.count)
  {
    RunKeepsInv(count, Start(count, threads), run);
    var s := Run(Start(count, threads), run);
    forall t: nat ensures PhaseOf(s.h, t) != Broken {
      if t < |s.threads| { assert Agrees(s.threads[t], PhaseOf(s.h, t), s.count); }
    }
  }

  // An operation of a thread other than |t| took place between history |h| and |h'|.
  predicate OthersDid(h: History, h': History, t: nat) {
    exists k | |h| <= k < |h'| :: h'[k].Take? && h'[k].t != t
  }

  // While only others move, |t| stays where it is, and the count changes by their operations.
  lemma {:induction false} OthersMove(s: State, run: seq<Action>, t: nat)
    requires t < |s.threads| && forall a | a in run :: a.t != t
    ensures var s' := Run(s, run);
      && |s'.threads| == |s.threads| && s'.threads[t] == s.threads[t] && s.h <= s'.h
      && (s'.count != s.count ==> OthersDid(s.h, s'.h, t))
    decreases |run|
  {
    if run != [] {
      var s1 := if Enabled(s, run[0]) then Step(s, run[0]) else s;
      assert s1.count != s.count ==> s1.h[|s.h|].Take? && s1.h[|s.h|].t != t && |s1.h| > |s.h|;
      hide Step, Enabled;
      OthersMove(s1, run[1..], t);
      assert s1.count != s.count ==> OthersDid(s.h, Run(s, run).h, t) by {
        if s1.count != s.count { assert Run(s, run).h[|s.h|] == s1.h[|s.h|]; }
      }
    }
  }

  // Unless an exchange fails for no reason, a turn that does not end its call is some other
  // thread's doing: since this thread read the count, another operation has taken place.
  lemma FailureMeansProgress(s: State, run: seq<Action>, t: nat)
    requires t < |s.threads| && s.threads[t].Looping? && s.threads[t].expected == s.count
    requires forall a | a in run :: a.t != t
    requires var s' := Run(s, run);
      Enabled(s', Turn(t, false)) && !Step(s', Turn(t, false)).dead && Step(s', Turn(t, false)).threads[t].Looping?
    ensures OthersDid(s.h, Run(s, run).h, t)
  {
    hide Run;
    OthersMove(s, run, t);
  }
}
