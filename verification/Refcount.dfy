/** The saturating reference count (crypto/internal.h) as one atomic object, histories of
    concurrent calls on it, and what follows for any history that is explained by it. */
module Refcount {
  import opened Bytes


  // CRYPTO_REFCOUNT_MAX
  const MAX: nat := 0xffff_ffff

  datatype Op = Inc | Dec

  // Aborted is the call of abort() on a count of zero.
  datatype Result = Counted | ReachedZero(yes: bool) | Aborted

  // The operation the declarations promise to perform atomically.
  function Apply(v: nat, op: Op): (r: (nat, Result))
    ensures v <= MAX ==> r.0 <= MAX
  {
    match op
    case Inc => (if v < MAX then v + 1 else v, Counted)
    case Dec =>
      if v == 0 then (0, Aborted) else if v >= MAX then (v, ReachedZero(false)) else (v - 1, ReachedZero(v == 1))
  }

  // A thread calls, at one instant between call and return the operation takes place, and
  // the thread returns.
  datatype Event = Invoke(t: nat, op: Op) | Take(t: nat, op: Op, res: Result) | Return(t: nat, op: Op, res: Result)

  type History = seq<Event>

  datatype Phase = Idle | Called(op: Op) | Taken(op: Op, res: Result) | Broken

  function Next(p: Phase, e: Event): Phase {
    match e
    case Invoke(_, op) => if p == Idle then Called(op) else Broken
    case Take(_, op, res) => if p == Phase.Called(op) then Taken(op, res) else Broken
    case Return(_, op, res) => if p == Taken(op, res) then Idle else Broken
  }

  // How far thread |t| is.
  function PhaseOf(h: History, t: nat): Phase {
    if h == [] then Idle
    else
      var p, e := PhaseOf(h[..|h| - 1], t), h[|h| - 1];
      if e.t == t then Next(p, e) else p
  }

  // The count after the operations of |h| in the order they take place, if each has the
  // result the atomic object gives there.
  function Replay(v0: nat, h: History): (r: Option<nat>) {
    if h == [] then Some(v0)
    else
      var before, e := Replay(v0, h[..|h| - 1]), h[|h| - 1];
      if before.None? || !e.Take? then before
      else if Apply(before.value, e.op).1 == e.res then Some(Apply(before.value, e.op).0)
      else None
  }

  // The calls can be explained by an atomic counter that starts at |v0| and is at |v|.
  ghost predicate Linearizable(v0: nat, h: History, v: nat) {
    && (forall t: nat :: PhaseOf(h, t) != Broken)
    && Replay(v0, h) == Some(v)
  }

  lemma Snoc(v0: nat, h: History, e: Event)
    ensures forall t: nat :: PhaseOf(h + [e], t) == if e.t == t then Next(PhaseOf(h, t), e) else PhaseOf(h, t)
    ensures Replay(v0, h + [e]) ==
      var before := Replay(v0, h);
      if before.None? || !e.Take? then before
      else if Apply(before.value, e.op).1 == e.res then Some(Apply(before.value, e.op).0)
      else None
  {
    assert (h + [e])[..|h|] == h;
  }

  // A prefix of an explained history is explained.
  lemma {:induction false} ReplayPrefix(v0: nat, h: History, n: nat)
    requires n <= |h| && Replay(v0, h).Some?
    ensures Replay(v0, h[..n]).Some?
    decreases |h|
  {
    if n < |h| {
      ReplayPrefix(v0, h[..|h| - 1], n);
      assert h[..|h| - 1][..n] == h[..n];
    } else {
      assert h[..n] == h;
    }
  }

  // Once at the maximum, always at the maximum.
  lemma {:induction false} MaxAbsorbs(v0: nat, h: History, n: nat)
    requires n <= |h| && Replay(v0, h).Some? && Replay(v0, h[..n]) == Some(MAX)
    ensures Replay(v0, h) == Some(MAX)
    decreases |h|
  {
    if n < |h| {
      assert h[..|h| - 1][..n] == h[..n];
      MaxAbsorbs(v0, h[..|h| - 1], n);
    } else {
      assert h[..n] == h;
    }
  }

  function Incs(h: History): nat {
    if h == [] then 0
    else
      var e := h[|h| - 1];
      Incs(h[..|h| - 1]) + if e.Take? && e.op == Inc then 1 else 0
  }

  function Decs(h: History): nat {
    if h == [] then 0
    else
      var e := h[|h| - 1];
      Decs(h[..|h| - 1]) + if e.Take? && e.op == Dec && e.res != Aborted then 1 else 0
  }

  function Zeros(h: History): nat {
    if h == [] then 0
    else
      var e := h[|h| - 1];
      Zeros(h[..|h| - 1]) + if e.Take? && e.res == ReachedZero(true) then 1 else 0
  }

  // Below the maximum the count is what was added less what was taken away.
  lemma {:induction false} CountBalances(v0: nat, h: History)
    requires Replay(v0, h).Some? && v0 <= MAX
    ensures Replay(v0, h).value <= MAX
    ensures Replay(v0, h).value < MAX ==> Replay(v0, h).value == v0 + Incs(h) - Decs(h)
  {
    if h != [] { CountBalances(v0, h[..|h| - 1]); }
  }

  // Nobody takes a reference on an object whose count has reached zero, or releases one.
  ghost predicate Disciplined(v0: nat, h: History) {
    forall n | 0 <= n < |h| && h[n].Take? :: Replay(v0, h[..n]) != Some(0)
  }

  // Among all threads exactly one release reports zero, and it does so when the count is
  // zero: the object is freed once, and never while a reference is held.
  lemma {:induction false} FreedOnce(v0: nat, h: History)
    requires 0 < v0 <= MAX && Replay(v0, h).Some? && Disciplined(v0, h)
    ensures Zeros(h) == if Replay(v0, h) == Some(0) then 1 else 0
  {
    if h != [] {
      var n := |h| - 1;
      assert Disciplined(v0, h[..n]) by {
        forall k | 0 <= k < n && h[..n][k].Take? ensures Replay(v0, h[..n][..k]) != Some(0) {
          assert h[..n][..k] == h[..k] && h[k].Take?;
        }
      }
      FreedOnce(v0, h[..n]);
    }
  }
}
