/** C's unsigned words as natural numbers: the operators are written as the
    arithmetic the C standard gives them, and related to single bits here. */
module Words {

  function Pow2(n: nat): (p: nat)
    ensures p > 0
  {
    if n == 0 then 1 else 2 * Pow2(n - 1)
  }

  lemma {:induction false} Pow2Sum(m: nat, n: nat)
    ensures Pow2(m + n) == Pow2(m) * Pow2(n)
  {
    if m > 0 {
      Pow2Sum(m - 1, n);
      assert Pow2(m) * Pow2(n) == 2 * (Pow2(m - 1) * Pow2(n));
    }
  }

  lemma {:induction false} Pow2Monotone(m: nat, n: nat)
    requires m <= n
    ensures Pow2(m) <= Pow2(n)
  {
    if m < n { Pow2Monotone(m, n - 1); }
  }

  const WORD64: nat := 0x1_0000_0000_0000_0000

  // Bit |i| of |x|, least significant first; x & (1 << i) is nonzero exactly when it is set.
  predicate Bit(x: nat, i: nat) {
    if i == 0 then x % 2 == 1 else Bit(x / 2, i - 1)
  }

  // x << n on a uint64_t: bits shifted past the top are lost.
  function Shl64(x: nat, n: nat): (r: nat)
    requires x < WORD64
    ensures r < WORD64
  {
    if n == 0 then x else 2 * Shl64(x, n - 1) % WORD64
  }

  // x | (1 << i).
  function SetBit(x: nat, i: nat): nat {
    if Bit(x, i) then x else x + Pow2(i)
  }

  // x | y, bit by bit.
  function Or(x: nat, y: nat): nat
    decreases x + y
  {
    if x == 0 then y
    else if y == 0 then x
    else 2 * Or(x / 2, y / 2) + (if x % 2 == 1 || y % 2 == 1 then 1 else 0)
  }

  lemma {:induction false} BitOfZero(i: nat)
    ensures !Bit(0, i)
  {
    if i > 0 { BitOfZero(i - 1); }
  }

  lemma HalfMod(x: nat, p: nat)
    requires p > 0
    ensures x % (2 * p) / 2 == x / 2 % p
    ensures x % (2 * p) % 2 == x % 2
  {
    var q, r := x / (2 * p), x % (2 * p);
    assert x == 2 * (p * q) + r;
    assert x / 2 == p * q + r / 2;
    assert r / 2 < p;
    ModUnique(x / 2, p, q, r / 2);
  }

  lemma {:induction false} MulMonotone(p: nat, a: int, b: int)
    requires a < b
    ensures p * a + p <= p * b
    decreases b - a
  {
    if b == a + 1 {
      assert p * b == p * a + p;
    } else {
      MulMonotone(p, a, b - 1);
      assert p * b == p * (b - 1) + p;
    }
  }

  lemma ModUnique(x: int, p: nat, q: int, r: nat)
    requires p > 0 && x == p * q + r && r < p
    ensures x % p == r && x / p == q
  {
    var q', r' := x / p, x % p;
    assert x == p * q' + r';
    if q < q' {
      MulMonotone(p, q, q');
    } else if q' < q {
      MulMonotone(p, q', q);
    }
  }

  lemma Pow2Of64()
    ensures Pow2(64) == WORD64
  {
    assert Pow2(8) == 0x100 && Pow2(16) == 0x1_0000;
    assert Pow2(24) == 0x100_0000 && Pow2(32) == 0x1_0000_0000;
    assert Pow2(40) == 0x100_0000_0000 && Pow2(48) == 0x1_0000_0000_0000;
    assert Pow2(56) == 0x100_0000_0000_0000;
  }

  lemma {:induction false} BitOfMod(x: nat, n: nat, i: nat)
    requires i < n
    ensures Bit(x % Pow2(n), i) == Bit(x, i)
  {
    HalfMod(x, Pow2(n - 1));
    if i > 0 { BitOfMod(x / 2, n - 1, i - 1); }
  }

  // Shifting moves every bit up by |n| and clears the places it leaves.
  lemma {:induction false} BitOfShl64(x: nat, n: nat, i: nat)
    requires x < WORD64 && i < 64
    ensures Bit(Shl64(x, n), i) == (i >= n && Bit(x, i - n))
  {
    if n > 0 {
      var y := Shl64(x, n - 1);
      Pow2Of64();
      BitOfMod(2 * y, 64, i);
      if i > 0 {
        assert 2 * y / 2 == y;
        BitOfShl64(x, n - 1, i - 1);
      }
    }
  }

  // x | (1 << i) sets bit |i| and leaves the others alone.
  lemma {:induction false} BitOfSetBit(x: nat, i: nat, j: nat)
    ensures Bit(SetBit(x, i), j) == (i == j || Bit(x, j))
  {
    if !Bit(x, i) {
      var y := x + Pow2(i);
      if i == 0 {
        assert y / 2 == x / 2;
      } else {
        assert y / 2 == SetBit(x / 2, i - 1);
        if j > 0 { BitOfSetBit(x / 2, i - 1, j - 1); }
      }
    }
  }

  lemma SetBitHalf(x: nat, i: nat)
    requires i > 0
    ensures SetBit(x, i) == 2 * SetBit(x / 2, i - 1) + x % 2
  {}

  // Setting the lowest bit of an even number stays below an even bound.
  lemma HalfBelow(x: nat, n: nat)
    requires n > 0 && x < Pow2(n)
    ensures SetBit(x, 0) < Pow2(n)
  {
    var p := Pow2(n - 1);
    assert Pow2(n) == 2 * p;
  }

  lemma {:induction false} SetBitBound(x: nat, i: nat, n: nat)
    requires i < n && x < Pow2(n)
    ensures SetBit(x, i) < Pow2(n)
  {
    if i > 0 {
      SetBitBound(x / 2, i - 1, n - 1);
      SetBitHalf(x, i);
    } else {
      HalfBelow(x, n);
    }
  }

  lemma TwiceProduct(x: nat, p: nat)
    ensures x * (2 * p) == 2 * (x * p)
  {}

  // Where no bit is lost a shift is a product, and where no bits overlap | is a sum.
  lemma {:induction false} Shl64IsProduct(x: nat, n: nat)
    requires x * Pow2(n) < WORD64
    ensures x < WORD64 && Shl64(x, n) == x * Pow2(n)
  {
    if n > 0 {
      var p, y := Pow2(n - 1), Shl64(x, n - 1);
      assert Pow2(n) == 2 * p && Shl64(x, n) == 2 * y % WORD64;
      hide Pow2, Shl64;
      TwiceProduct(x, p);
      Shl64IsProduct(x, n - 1);
      assert 2 * y < WORD64;
    }
  }

  lemma {:induction false} OrIsSum(x: nat, y: nat, n: nat)
    requires x % Pow2(n) == 0 && y < Pow2(n)
    ensures Or(x, y) == x + y
  {
    if n > 0 && x > 0 && y > 0 {
      HalfMod(x, Pow2(n - 1));
      OrIsSum(x / 2, y / 2, n - 1);
    }
  }

  lemma {:induction false} OrBound(x: nat, y: nat, n: nat)
    requires x < Pow2(n) && y < Pow2(n)
    ensures Or(x, y) < Pow2(n)
  {
    if n > 0 && x > 0 && y > 0 { OrBound(x / 2, y / 2, n - 1); }
  }
}
