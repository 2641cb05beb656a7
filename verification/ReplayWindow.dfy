/** The DTLS replay window (dtls_record.cc): a 64-bit map of the most recent
    record numbers, refining the set of all numbers recorded since it was reset. */
module ReplayWindow {
  import opened Bytes
  import opened Words

  const WINDOW_SIZE: nat := 64

  // What the window stands for: the largest number recorded and every number recorded.
  datatype Window = Window(max: nat, seen: set<nat>) {
    predicate Valid() {
      max < WORD64 && forall n | n in seen :: n <= max
    }

    // RFC 6347 section 4.1.2.6: reject duplicates and whatever is left of the window.
    predicate Discards(n: nat) {
      n <= max && (max - n >= WINDOW_SIZE || n in seen)
    }

    function Recorded(n: nat): (w: Window)
      ensures Valid() && n < WORD64 ==> w.Valid()
    {
      Window(if n > max then n else max, seen + {n})
    }
  }

  const EMPTY: Window := Window(0, {})

  // to_u64_be
  method ToU64Be(input: seq<u8>) returns (ret: nat)
    requires |input| == 8
    ensures ret == BigEndian(input) && ret < WORD64
  {
    ret := 0;
    for i := 0 to 8
      invariant ret == BigEndian(input[..i]) && ret < Pow2(8 * i)
    {
      ghost var before := ret;
      assert input[..i + 1][..i] == input[..i];
      ByteStep(before, input[i], i);
      ret := Shl64(ret, 8);
      ret := Or(ret, input[i]);
    }
    assert input[..8] == input;
    Pow2Of64();
  }

  lemma ByteStep(x: nat, b: u8, i: nat)
    requires i < 8 && x < Pow2(8 * i)
    ensures x < WORD64 && Or(Shl64(x, 8), b) == x * 0x100 + b
    ensures x * 0x100 + b < Pow2(8 * (i + 1)) <= WORD64
  {
    hide Or, Shl64, Pow2;
    ByteFits(x, b, i);
    ByteOr(x, b);
  }

  lemma ByteFits(x: nat, b: u8, i: nat)
    ensures i < 8 && x < Pow2(8 * i) ==> x * 0x100 + b < Pow2(8 * (i + 1)) <= WORD64
  {
    var p := Pow2(8 * i);
    assert Pow2(8) == 0x100;
    Pow2Sum(8 * i, 8);
    assert 8 * (i + 1) == 8 * i + 8;
    Pow2Of64();
    hide Pow2;
    if i < 8 { Pow2Monotone(8 * (i + 1), 64); }
    assert Pow2(8 * (i + 1)) == p * 0x100;
  }

  lemma ByteOr(x: nat, b: u8)
    ensures x * 0x100 + b < WORD64 ==> Or(Shl64(x, 8), b) == x * 0x100 + b
  {
    assert Pow2(8) == 0x100;
    hide Or, Shl64, Pow2;
    if x * 0x100 + b < WORD64 {
      Shl64IsProduct(x, 8);
      OrIsSum(x * 0x100, b, 8);
    }
  }

  class Bitmap {
    var map_: nat
    var maxSeqNum: nat
    ghost var seen: set<nat>

    // Bit i of the map is set exactly when maxSeqNum - i was recorded.
    ghost predicate Valid()
      reads this
    {
      && map_ < WORD64
      && Abs().Valid()
      && forall i | 0 <= i < WINDOW_SIZE :: Bit(map_, i) <==> i <= maxSeqNum && maxSeqNum - i in seen
    }

    ghost function Abs(): Window
      reads this
    {
      Window(maxSeqNum, seen)
    }

    constructor ()
      ensures Valid() && Abs() == EMPTY
    {
      map_, maxSeqNum, seen := 0, 0, {};
      new;
      forall i | 0 <= i < WINDOW_SIZE ensures !Bit(map_, i) { BitOfZero(i); }
    }

    // OPENSSL_memset of the bitmap to zero on an epoch switch.
    method Reset()
      modifies this
      ensures Valid() && Abs() == EMPTY
    {
      map_, maxSeqNum, seen := 0, 0, {};
      forall i | 0 <= i < WINDOW_SIZE ensures !Bit(map_, i) { BitOfZero(i); }
    }

    // dtls1_bitmap_should_discard
    method ShouldDiscard(seqNum: seq<u8>) returns (discard: bool)
      requires Valid() && |seqNum| == 8
      ensures discard == Abs().Discards(BigEndian(seqNum))
    {
      var n := ToU64Be(seqNum);
      if n > maxSeqNum { return false; }
      var idx := maxSeqNum - n;
      discard := idx >= WINDOW_SIZE || Bit(map_, idx);
    }

    // dtls1_bitmap_record
    method Record(seqNum: seq<u8>)
      requires Valid() && |seqNum| == 8
      modifies this
      ensures Valid() && Abs() == old(Abs()).Recorded(BigEndian(seqNum))
    {
      var n := ToU64Be(seqNum);
      if n > maxSeqNum {
        ghost var was, oldMax := map_, maxSeqNum;
        var shift := n - maxSeqNum;
        if shift >= WINDOW_SIZE {
          map_ := 0;
        } else {
          map_ := Shl64(map_, shift);
        }
        maxSeqNum := n;
        forall i | 0 <= i < WINDOW_SIZE
          ensures Bit(map_, i) <==> i <= maxSeqNum && maxSeqNum - i in seen
        {
          if shift >= WINDOW_SIZE { BitOfZero(i); } else { BitOfShl64(was, shift, i); }
        }
      }
      var idx := maxSeqNum - n;
      ghost var before := map_;
      seen := seen + {n};
      if idx < WINDOW_SIZE {
        map_ := SetBit(map_, idx);
        Pow2Of64();
        SetBitBound(before, idx, 64);
        forall i | 0 <= i < WINDOW_SIZE ensures Bit(map_, i) <==> i == idx || Bit(before, i) {
          BitOfSetBit(before, idx, i);
        }
      }
    }
  }
}
