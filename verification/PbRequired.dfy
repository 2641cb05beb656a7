/** The presence check of pb_decode_noinit: two 32-bit words of fields_seen, numbered by
    required_field_index, and their comparison with all-ones masks. */
module PbRequired {
  import opened Words
  import opened PbTypes
  import opened PbVarint
  import opened PbDecode
  import opened PbIter

  const ALL_BITS: nat := WORD32 - 1

  // The required field numbered |k| is in |seen|.
  ghost predicate Has(d: Desc, seen: set<nat>, k: nat) {
    exists i | 0 <= i < |d| :: i in seen && d[i].htype.Required? && RequiredBefore(d, i) == k
  }

  // The two words have exactly the bits of |seen|.
  ghost predicate Records(d: Desc, words: seq<nat>, seen: set<nat>) {
    && |words| == 2 && words[0] < WORD32 && words[1] < WORD32
    && forall k | 0 <= k < MAX_REQUIRED :: BitSeen(words, k) == Has(d, seen, k)
  }

  predicate BitSeen(words: seq<nat>, k: nat)
    requires |words| == 2 && k < MAX_REQUIRED
  {
    Bit(words[k / 32], k % 32)
  }

  lemma {:induction false} ZeroWords(d: Desc)
    ensures Records(d, [0, 0], {})
  {
    forall k | 0 <= k < MAX_REQUIRED ensures !BitSeen([0, 0], k) {
      BitOfZero(k % 32);
    }
  }

  // fields_seen[index >> 5] |= 1 << (index & 31)
  lemma {:induction false} MarkWords(d: Desc, words: seq<nat>, seen: set<nat>, i: nat)
    requires Records(d, words, seen) && i < |d| && d[i].htype.Required? && RequiredBefore(d, i) < MAX_REQUIRED
    ensures var n := RequiredBefore(d, i);
      Records(d, words[n / 32 := SetBit(words[n / 32], n % 32)], Mark(d, i, seen))
  {
    hide Bit, SetBit;
    var n := RequiredBefore(d, i);
    var words' := words[n / 32 := SetBit(words[n / 32], n % 32)];
    SmallPowers();
    SetBitBound(words[n / 32], n % 32, 32);
    forall k | 0 <= k < MAX_REQUIRED ensures BitSeen(words', k) == Has(d, Mark(d, i, seen), k) {
      assert BitSeen(words, k) == Has(d, seen, k);
      if k / 32 == n / 32 { BitOfSetBit(words[n / 32], n % 32, k % 32); }
      HasMark(d, seen, i, k);
    }
  }

  lemma HasMark(d: Desc, seen: set<nat>, i: nat, k: nat)
    requires i < |d| && d[i].htype.Required? && RequiredBefore(d, i) < MAX_REQUIRED
    ensures Has(d, Mark(d, i, seen), k) <==> Has(d, seen, k) || k == RequiredBefore(d, i)
  {
    hide RequiredBefore;
    assert i in Mark(d, i, seen);
    if Has(d, seen, k) {
      var j :| 0 <= j < |d| && j in seen && d[j].htype.Required? && RequiredBefore(d, j) == k;
      assert j in Mark(d, i, seen);
    }
  }

  // required_field_index numbers the required fields from zero, without gaps.
  lemma {:induction false} RequiredStrict(d: Desc, i: nat, j: nat)
    requires i < j <= |d| && d[i].htype.Required?
    ensures RequiredBefore(d, i) < RequiredBefore(d, j)
  {
    if i + 1 < j { RequiredStrict(d, i, j - 1); }
  }

  lemma {:induction false} NthRequired(d: Desc, n: nat, k: nat) returns (i: nat)
    requires n <= |d| && k < RequiredBefore(d, n)
    ensures i < n && d[i].htype.Required? && RequiredBefore(d, i) == k
  {
    if RequiredBefore(d, n - 1) <= k { i := n - 1; } else { i := NthRequired(d, n - 1, k); }
  }

  // The required fields are all there exactly when every bit in use is set.
  lemma {:induction false} SeenIffBits(d: Desc, seen: set<nat>, n: nat)
    requires n == Min(RequiredBefore(d, |d|), MAX_REQUIRED)
    ensures RequiredSeen(d, seen) <==> forall k | 0 <= k < n :: Has(d, seen, k)
  {
    hide RequiredBefore;
    if RequiredSeen(d, seen) {
      forall k | 0 <= k < n ensures Has(d, seen, k) {
        var i := NthRequired(d, |d|, k);
      }
    }
    if forall k | 0 <= k < n :: Has(d, seen, k) {
      forall i | 0 <= i < |d| && d[i].htype.Required? && RequiredBefore(d, i) < MAX_REQUIRED ensures i in seen {
        RequiredStrict(d, i, |d|);
        assert Has(d, seen, RequiredBefore(d, i));
        var j :| 0 <= j < |d| && j in seen && d[j].htype.Required? && RequiredBefore(d, j) == RequiredBefore(d, i);
        if i < j { RequiredStrict(d, i, j); } else if j < i { RequiredStrict(d, j, i); }
      }
    }
  }

  function Min(a: nat, b: nat): nat {
    if a <= b then a else b
  }

  ghost predicate BitsSet(w: nat, r: nat) {
    forall i | 0 <= i < r :: Bit(w, i)
  }

  ghost predicate BitsClear(w: nat, r: nat, n: nat) {
    forall i | r <= i < n :: !Bit(w, i)
  }

  lemma BitsOfHalf(w: nat, r: nat, n: nat)
    requires r <= n && n > 0
    ensures r > 0 ==> (BitsSet(w, r) <==> w % 2 == 1 && BitsSet(w / 2, r - 1))
    ensures BitsClear(w, r, n) ==> BitsClear(w / 2, if r > 0 then r - 1 else 0, n - 1) && (r == 0 ==> w % 2 == 0)
  {
    assert Bit(w, 0) == (w % 2 == 1);
    assert forall i: nat :: Bit(w / 2, i) == Bit(w, i + 1);
    if BitsSet(w, r) {
      forall i | 0 <= i < r - 1 ensures Bit(w / 2, i) { assert Bit(w, i + 1); }
    }
    if r > 0 && w % 2 == 1 && BitsSet(w / 2, r - 1) {
      forall i | 0 <= i < r ensures Bit(w, i) { assert i > 0 ==> Bit(w / 2, i - 1); }
    }
  }

  // A word with no bit from |r| on is the mask of |r| ones exactly when those are set.
  lemma {:induction false} OnesIffBits(w: nat, r: nat, n: nat)
    requires r <= n && w < Pow2(n) && BitsClear(w, r, n)
    ensures w == Pow2(r) - 1 <==> BitsSet(w, r)
    decreases n
  {
    if n > 0 {
      BitsOfHalf(w, r, n);
      OnesIffBits(w / 2, if r > 0 then r - 1 else 0, n - 1);
    }
  }

  // allbits >> (32 - r)
  lemma MaskOfOnes(r: nat)
    requires r <= 32
    ensures ALL_BITS / Pow2(32 - r) == Pow2(r) - 1
  {
    SmallPowers();
    Pow2Sum(32 - r, r);
    var p := Pow2(32 - r);
    assert p * Pow2(r) == p * (Pow2(r) - 1) + p;
    ModUnique(ALL_BITS, p, Pow2(r) - 1, p - 1);
  }

  // The number of required fields, from wherever the iterator is.
  method CountRequired(iter: FieldIter) returns (count: nat)
    requires iter.Valid()
    modifies iter
    ensures iter.Valid() && iter.pos == 0
    ensures count == RequiredBefore(iter.fields, |iter.fields|)
  {
    var lastRequired := true;
    while true
      invariant iter.Valid()
      decreases |iter.fields| - iter.pos
    {
      count := iter.requiredFieldIndex;
      lastRequired := iter.fields == [] || iter.fields[iter.pos].htype.Required?;
      var more := iter.Next();
      if !more { break; }
    }
    if lastRequired && iter.fields != [] { count := count + 1; }
  }

  // The end of pb_decode_noinit: whole words first, then the remaining bits.
  method AllRequiredSeen(iter: FieldIter, words: seq<nat>, ghost seen: set<nat>) returns (ok: bool)
    requires iter.Valid() && Records(iter.fields, words, seen)
    modifies iter
    ensures ok <==> RequiredSeen(iter.fields, seen)
  {
    var count := CountRequired(iter);
    var n := if count > MAX_REQUIRED then MAX_REQUIRED else count;
    SeenIffBits(iter.fields, seen, n);
    SmallPowers();
    hide RequiredSeen, RequiredBefore, Bit, Pow2;
    ghost var d := iter.fields;
    for j := 0 to n / 32
      invariant forall k | 0 <= k < 32 * j :: Has(d, seen, k)
    {
      WordFull(d, words, seen, n, j, 32);
      if words[j] != ALL_BITS { return false; }
    }
    if n % 32 != 0 {
      MaskOfOnes(n % 32);
      WordFull(d, words, seen, n, n / 32, n % 32);
      if words[n / 32] != ALL_BITS / Pow2(32 - n % 32) { return false; }
    }
    ok := true;
  }

  lemma {:induction false} WordFull(d: Desc, words: seq<nat>, seen: set<nat>, n: nat, j: nat, r: nat)
    requires Records(d, words, seen) && n == Min(RequiredBefore(d, |d|), MAX_REQUIRED)
    requires j < 2 && r <= 32 && (if n / 32 == j then r == n % 32 else r == 32 && 32 * (j + 1) <= n)
    ensures words[j] == Pow2(r) - 1 <==> forall k | 32 * j <= k < 32 * j + r :: Has(d, seen, k)
  {
    hide RequiredBefore, Bit, Pow2;
    SmallPowers();
    forall i | 0 <= i < 32 ensures Bit(words[j], i) == Has(d, seen, 32 * j + i) {
      assert BitSeen(words, 32 * j + i) == Has(d, seen, 32 * j + i);
    }
    forall i | r <= i < 32 ensures !Bit(words[j], i) {
      if Has(d, seen, 32 * j + i) { HasIsCounted(d, seen, 32 * j + i); }
    }
    OnesIffBits(words[j], r, 32);
    hide Has;
    forall k | 32 * j <= k < 32 * j + r ensures Has(d, seen, k) == Bit(words[j], k - 32 * j) {}
    if forall k | 32 * j <= k < 32 * j + r :: Has(d, seen, k) {
      forall i | 0 <= i < r ensures Bit(words[j], i) { assert Has(d, seen, 32 * j + i); }
    }
  }

  lemma HasIsCounted(d: Desc, seen: set<nat>, k: nat)
    requires Has(d, seen, k)
    ensures k < RequiredBefore(d, |d|)
  {
    var i :| 0 <= i < |d| && i in seen && d[i].htype.Required? && RequiredBefore(d, i) == k;
    RequiredStrict(d, i, |d|);
  }
}
