/** The two loops of refcount_c11.c and the two locked bodies of refcount_lock.c as the
    calling thread runs them. */
module RefcountLoops {
  import opened Refcount

  // What one operation found and what it left.
  datatype Change = Change(before: nat, after: nat)

  // An atomic count shared with other threads. |others| are the values their operations
  // leave in it before this thread's coming accesses, |spurious| the exchanges that fail
  // for no reason; both run out. |mine| are this thread's operations.
  class AtomicCount {
    var value: nat
    var others: seq<nat>
    var spurious: seq<bool>
    ghost var mine: seq<Change>

    ghost predicate Valid()
      reads this
    {
      value <= MAX && forall i | 0 <= i < |others| :: others[i] <= MAX
    }

    ghost function Patience(): nat
      reads this
    {
      |others| + |spurious|
    }

    method Interfere()
      requires Valid()
      modifies `value, `others
      ensures Valid() && |others| <= |old(others)|
      ensures |others| == |old(others)| ==> value == old(value)
    {
      if others != [] { value, others := others[0], others[1..]; }
    }

    // atomic_load
    method Load() returns (v: nat)
      requires Valid()
      modifies `value, `others
      ensures Valid() && v == value
    {
      Interfere();
      v := value;
    }

    // atomic_compare_exchange_weak: on failure |expected| becomes what was found.
    method CompareExchangeWeak(expected: nat, desired: nat) returns (ok: bool, found: nat)
      requires Valid() && desired <= MAX
      modifies this
      ensures Valid() && found <= MAX
      ensures ok ==> found == expected && value == desired && mine == old(mine) + [Change(expected, desired)]
      ensures !ok ==> mine == old(mine) && found == value
      ensures !ok && old(value) == expected ==> Patience() < old(Patience())
      ensures Patience() <= old(Patience())
    {
      Interfere();
      found := value;
      ok := found == expected && (spurious == [] || !spurious[0]);
      if spurious != [] { spurious := spurious[1..]; }
      if ok {
        value := desired;
        mine := mine + [Change(expected, desired)];
      }
    }
  }

  // CRYPTO_refcount_inc: one operation of the atomic counter, or none at the maximum.
  method RefcountInc(count: AtomicCount) returns (atMax: bool)
    requires count.Valid()
    modifies count
    ensures count.Valid()
    ensures atMax ==> count.mine == old(count.mine)
    ensures !atMax ==>
      && |count.mine| == |old(count.mine)| + 1 && count.mine[..|old(count.mine)|] == old(count.mine)
      && var c := count.mine[|old(count.mine)|];
         c.before < MAX && (c.after, Counted) == Apply(c.before, Inc)
  {
    var expected: nat := count.Load();
    while expected != MAX
      invariant count.Valid() && expected <= MAX && count.mine == old(count.mine)
      decreases count.Patience(), count.value != expected
    {
      var newValue: nat := expected + 1;
      var ok, found := count.CompareExchangeWeak(expected, newValue);
      if ok { return false; }
      expected := found;
    }
    atMax := true;
  }

  // CRYPTO_refcount_dec_and_test_zero: one operation of the atomic counter with its result,
  // or none where there is nothing to take away. |Aborted| stands for abort().
  method RefcountDec(count: AtomicCount) returns (res: Result)
    requires count.Valid()
    modifies count
    ensures count.Valid() && res != Counted
    ensures count.mine == old(count.mine) ==> res == Aborted || res == ReachedZero(false)
    ensures count.mine != old(count.mine) ==>
      && |count.mine| == |old(count.mine)| + 1 && count.mine[..|old(count.mine)|] == old(count.mine)
      && var c := count.mine[|old(count.mine)|];
         0 < c.before < MAX && (c.after, res) == Apply(c.before, Dec)
  {
    var expected: nat := count.Load();
    while true
      invariant count.Valid() && expected <= MAX && count.mine == old(count.mine)
      decreases count.Patience(), count.value != expected
    {
      if expected == 0 { return Aborted; }
      if expected == MAX { return ReachedZero(false); }
      var newValue: nat := expected - 1;
      var ok, found := count.CompareExchangeWeak(expected, newValue);
      if ok { return ReachedZero(newValue == 0); }
      expected := found;
    }
  }

  // A count behind g_refcount_lock: nobody else touches it while these bodies run.
  class LockedCount {
    var value: nat

    method Inc()
      modifies this
      ensures value == Apply(old(value), Op.Inc).0
    {
      if value < MAX { value := value + 1; }
    }

    method Dec() returns (res: Result)
      requires value <= MAX
      modifies this
      ensures (value, res) == Apply(old(value), Op.Dec)
    {
      if value == 0 { return Aborted; }
      if value < MAX { value := value - 1; }
      res := ReachedZero(value == 0);
    }
  }
}
