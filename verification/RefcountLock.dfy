/** The reference count of refcount_lock.c: plain reads and writes under one lock, by any
    number of threads in any interleaving. */
module RefcountLock {
  import opened Bytes
  import opened Refcount

  // Where a thread is: waiting for the lock, holding it, having read the count, having
  // written it, or having released the lock.
  datatype Local =
    | Resting
    | Waiting(op: Op)
    | Holding(op: Op)
    | Read(op: Op, value: nat)
    | Wrote(op: Op, res: Result)
    | Leaving(op: Op, res: Result)
  {
    predicate Inside() {
      Holding? || Read? || Wrote?
    }
  }

  datatype State = State(count: nat, holder: Option<nat>, threads: seq<Local>, dead: bool, h: History)

  datatype Action = Call(t: nat, op: Op) | Go(t: nat)

  predicate Enabled(s: State, a: Action) {
    && !s.dead && a.t < |s.threads|
    && (a.Call? ==> s.threads[a.t].Resting?)
    && (a.Go? ==> !s.threads[a.t].Resting?)
    // CRYPTO_STATIC_MUTEX_lock_write
    && (a.Go? && s.threads[a.t].Waiting? ==> s.holder.None?)
  }

  // The body between lock and unlock, once the count has been read.
  function Body(s: State, t: nat, op: Op, value: nat): State
    requires t < |s.threads|
  {
    if op.Dec? && value == 0 then s.(dead := true, h := s.h + [Take(t, Dec, Aborted)])
    else
      var count := if value >= MAX then s.count else if op.Inc? then value + 1 else value - 1;
      var res := if op == Inc then Counted else ReachedZero(count == 0);
      s.(count := count, threads := s.threads[t := Wrote(op, res)], h := s.h + [Take(t, op, res)])
  }

  function Step(s: State, a: Action): State
    requires Enabled(s, a)
  {
    var t := a.t;
    var l := s.threads[t];
    if a.Call? then s.(threads := s.threads[t := Waiting(a.op)], h := s.h + [Invoke(t, a.op)])
    else if l.Waiting? then s.(holder := Some(t), threads := s.threads[t := Holding(l.op)])
    else if l.Holding? then s.(threads := s.threads[t := Read(l.op, s.count)])
    else if l.Read? then Body(s, t, l.op, l.value)
    else if l.Wrote? then s.(holder := None, threads := s.threads[t := Leaving(l.op, l.res)])
    else s.(threads := s.threads[t := Resting], h := s.h + [Return(t, l.op, l.res)])
  }

  predicate Agrees(l: Local, p: Phase, count: nat, dead: bool) {
    match l
    case Resting => p == Idle
    case Waiting(op) => p == Called(op)
    case Holding(op) => p == Called(op)
    case Read(op, value) => value == count && if dead then p == Taken(Dec, Aborted) else p == Called(op)
    case Wrote(op, res) => p == Taken(op, res)
    case Leaving(op, res) => p == Taken(op, res)
  }

  // Mutual exclusion, and a reader that still sees the count it read.
  ghost predicate Inv(v0: nat, s: State) {
    && s.count <= MAX
    && Replay(v0, s.h) == Some(s.count)
    && (forall t | 0 <= t < |s.threads| :: s.threads[t].Inside() <==> s.holder == Some(t))
    && (forall t | 0 <= t < |s.threads| :: Agrees(s.threads[t], PhaseOf(s.h, t), s.count, s.dead))
    && (forall t | t >= |s.threads| :: PhaseOf(s.h, t) == Idle)
  }

  lemma StepKeepsInv(v0: nat, s: State, a: Action)
    requires Inv(v0, s) && Enabled(s, a)
    ensures Inv(v0, Step(s, a))
  {
    hide PhaseOf, Replay;
    var t := a.t;
    var l := s.threads[t];
    assert Agrees(l, PhaseOf(s.h, t), s.count, s.dead);
    assert l.Inside() <==> s.holder == Some(t);
    if a.Call? {
      Snoc(v0, s.h, Invoke(t, a.op));
    } else if l.Read? {
      Snoc(v0, s.h, Take(t, l.op, Apply(s.count, l.op).1));
    } else if l.Leaving? {
      Snoc(v0, s.h, Return(t, l.op, l.res));
    }
  }

  function Run(s: State, run: seq<Action>): State
    decreases |run|
  {
    if run == [] then s else Run(if Enabled(s, run[0]) then Step(s, run[0]) else s, run[1..])
  }

  function Start(count: nat, threads: nat): State {
    State(count, None, seq(threads, _ => Resting), false, [])
  }

  lemma {:induction false} RunKeepsInv(v0: nat, s: State, run: seq<Action>)
    requires Inv(v0, s)
    ensures Inv(v0, Run(s, run))
    decreases |run|
  {
    hide Inv, Step;
    if run != [] {
      if Enabled(s, run[0]) { StepKeepsInv(v0, s, run[0]); }
      RunKeepsInv(v0, if Enabled(s, run[0]) then Step(s, run[0]) else s, run[1..]);
    }
  }

  // The locked version implements the same atomic counter.
  lemma LockLinearizable(count: nat, threads: nat, run: seq<Action>)
    requires count <= MAX
    ensures var s := Run(Start(count, threads), run); Linearizable(count, s.h, s.count)
  {
    RunKeepsInv(count, Start(count, threads), run);
    var s := Run(Start(count, threads), run);
    forall t: nat ensures PhaseOf(s.h, t) != Broken {
      if t < |s.threads| { assert Agrees(s.threads[t], PhaseOf(s.h, t), s.count, s.dead); }
    }
  }
}
