/** DTLS records, record numbers and the sealing of one record (dtls_record.cc,
    ssl_record_sequence_update in tls_record.cc). */
module DtlsRecord {
  import opened Bytes

  // DTLS1_RT_HEADER_LENGTH
  const RECORD_HEADER: nat := 13

  // A record on the wire. |sequence| is the epoch and the record number as transmitted;
  // |authentic| is whether the AEAD of the matching epoch opens it, to |payload|, and
  // |bodyLen| the length of what is opened.
  datatype Record = Record(typ: u8, sequence: bytes, payload: bytes, bodyLen: nat, authentic: bool) {
    predicate Valid() {
      |sequence| == 8
    }

    function Epoch(): (e: nat)
      requires Valid()
      ensures e < U16
    {
      Get16(sequence[..2])
    }

    // Epoch and record number together, as the replay window sees them.
    function Number(): nat {
      BigEndian(sequence)
    }

    // The record number within the epoch.
    function Count(): nat
      requires Valid()
    {
      BigEndian(sequence[2..])
    }
  }

  // No two records carry the same epoch and number.
  predicate Distinct(log: seq<Record>) {
    forall i, j | 0 <= i < j < |log| :: log[i].sequence != log[j].sequence
  }

  lemma Numbered(rec: Record, epoch: nat, number: bytes)
    requires epoch < U16 && |number| == 6 && rec.sequence == Put16(epoch) + number
    ensures rec.Valid() && rec.Epoch() == epoch && rec.Count() == BigEndian(number)
  {
    assert rec.sequence[..2] == Put16(epoch) && rec.sequence[2..] == number;
    Get16Put16(epoch);
  }

  // An AEAD as the record layer sees it: the explicit nonce, and a tag whose length
  // depends on the plaintext but is bounded.
  datatype Aead = Aead(nonceLen: nat, maxTag: nat, tagLen: nat -> nat) {
    ghost predicate Valid() {
      forall n: nat :: tagLen(n) <= maxTag
    }

    function MaxOverhead(): nat {
      nonceLen + maxTag
    }

    function SealedLen(n: nat): nat {
      nonceLen + n + tagLen(n)
    }
  }

  // ssl_record_sequence_update: big-endian increment; false, with every octet
  // wrapped to zero, when there is no next number.
  function Increment(b: bytes): (r: (bytes, bool))
    ensures |r.0| == |b|
  {
    if b == [] then ([], false)
    else
      var n := |b| - 1;
      if b[n] < 0xff then (b[..n] + [b[n] + 1], true)
      else
        var (high, ok) := Increment(b[..n]);
        (high + [0], ok)
  }

  lemma {:induction false} IncrementAddsOne(b: bytes)
    ensures var (r, ok) := Increment(b);
            && (ok ==> BigEndian(r) == BigEndian(b) + 1)
            && (!ok ==> forall i | 0 <= i < |b| :: b[i] == 0xff && r[i] == 0)
  {
    if b != [] {
      var n := |b| - 1;
      if b[n] < 0xff {
        assert (b[..n] + [b[n] + 1])[..n] == b[..n];
      } else {
        IncrementAddsOne(b[..n]);
        var (high, ok) := Increment(b[..n]);
        assert (high + [0])[..n] == high;
      }
    }
  }

  // On the six octets of a record number: counting modulo 2^48, failing at the last number.
  lemma IncrementCounts(b: bytes)
    requires |b| == 6
    ensures BigEndian(b) < U48
    ensures Increment(b).1 <==> BigEndian(b) < U48 - 1
    ensures BigEndian(Increment(b).0) == NextCount(BigEndian(b))
    ensures !Increment(b).1 ==> Increment(b).0 == [0, 0, 0, 0, 0, 0]
  {
    hide BigEndian, Increment, Pow256;
    IncrementAddsOne(b);
    Below48(b);
    Below48(Increment(b).0);
    Extremes(b);
    Extremes(Increment(b).0);
  }

  function NextCount(n: nat): nat {
    if n + 1 == U48 then 0 else n + 1
  }

  lemma Below48(b: bytes)
    requires |b| == 6
    ensures BigEndian(b) < U48 == Pow256(6)
  {
    BigEndianBound(b);
    assert Pow256(3) == U24;
    assert Pow256(6) == U48;
  }

  lemma {:induction false} Extremes(b: bytes)
    ensures (forall i | 0 <= i < |b| :: b[i] == 0xff) ==> BigEndian(b) == Pow256(|b|) - 1
    ensures (forall i | 0 <= i < |b| :: b[i] == 0) ==> BigEndian(b) == 0
  {
    if b != [] { Extremes(b[..|b| - 1]); }
  }

  method SequenceUpdate(a: array<u8>, from: nat) returns (ok: bool)
    requires from <= a.Length
    modifies a
    ensures a[..from] == old(a[..from])
    ensures (a[from..], ok) == Increment(old(a[from..]))
  {
    var i := a.Length;
    ghost var start := a[..];
    ghost var tail := a[from..];
    assert start[from..i] == tail && Increment(tail).0 + a[i..] == Increment(tail).0;
    while i > from
      invariant from <= i <= a.Length
      invariant a[..i] == start[..i]
      invariant Increment(tail).0 == Increment(start[from..i]).0 + a[i..]
      invariant Increment(tail).1 == Increment(start[from..i]).1
    {
      i := i - 1;
      ghost var part, rest := start[from..i + 1], a[i + 1..];
      assert part[..|part| - 1] == start[from..i] && part[|part| - 1] == a[i];
      if a[i] < 0xff {
        a[i] := a[i] + 1;
        ok := true;
        assert a[i + 1..] == rest;
        assert Increment(part) == (start[from..i] + [a[i]], true);
        assert a[from..] == start[from..i] + [a[i]] + rest;
        assert a[..from] == start[..from];
        return;
      }
      a[i] := 0;
      assert a[i..] == [0] + rest;
      assert Increment(part).0 + rest == Increment(start[from..i]).0 + a[i..];
    }
    ok := false;
    assert Increment(start[from..i]) == ([], false);
    assert a[from..] == Increment(tail).0;
    assert a[..from] == start[..from];
  }
}
