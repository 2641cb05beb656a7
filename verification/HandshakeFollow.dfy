/** What it means for one machine to follow the conversation, for either side. */
module HandshakeFollow {
  import opened Bytes
  import opened Handshake
  import opened HandshakeScript

  // The message a machine has read and is not done with, as the record it came in.
  function InboxRecords<S>(h: Hs<S>): seq<Rec> {
    if h.inbox.Some? then [Rec(h.readEpoch, Message(h.inbox.value))] else []
  }

  // A machine at place |p| has read nothing but the next record of the conversation, and
  // that is the peer's.
  predicate InboxFits<S>(o: Options, byServer: bool, p: nat, h: Hs<S>) {
    && p <= Places(o)
    && (h.inbox.Some? ==>
          var j := NextSent(o, p);
          j < Places(o) && At(o, j) == Sent(!byServer, Rec(h.readEpoch, Message(h.inbox.value))))
  }

  // From |p| to |q| a machine either says what is its to say there, or takes in what the
  // peer says there.
  predicate Follows<S>(o: Options, byServer: bool, p: nat, h: Hs<S>, q: nat, h': Hs<S>) {
    && p <= q <= Places(o)
    && (Says(o, byServer, p, h, q, h') || Takes(o, byServer, p, h, q, h'))
  }

  predicate Says<S>(o: Options, byServer: bool, p: nat, h: Hs<S>, q: nat, h': Hs<S>) {
    && OnlyBy(o, byServer, p, q)
    && h'.flight == (if Records(o, p, q) == [] then h.flight else h.flight + Records(o, p, q))
    && h'.inbox == h.inbox && (h.inbox.Some? ==> h'.readEpoch == h.readEpoch)
  }

  predicate Takes<S>(o: Options, byServer: bool, p: nat, h: Hs<S>, q: nat, h': Hs<S>) {
    && OnlyBy(o, !byServer, p, q)
    && h'.flight == h.flight
    && (if Records(o, p, q) == [] then h'.inbox == h.inbox && (h.inbox.Some? ==> h'.readEpoch == h.readEpoch)
        else Records(o, p, q) == InboxRecords(h) && h'.inbox.None?)
  }

  // The hash is the transcript so far; the raw transcript, while it is kept, is the same.
  predicate Hashes(o: Options, p: nat, t: Transcript, hashed: bool, keep: bool) {
    && t.hash == (if hashed then Some(Log(o, p)) else None)
    && (t.buffer.Some? ==> t.buffer.value == Log(o, p))
    && (keep ==> t.buffer.Some?)
  }

  // What the peer says next is a message under the cipher state |epoch|.
  predicate MessageNext(o: Options, byServer: bool, p: nat, epoch: nat) {
    p <= Places(o) &&
    var j := NextSent(o, p);
    j < Places(o) && At(o, j).Sent? && At(o, j).byServer == !byServer
    && At(o, j).rec.item.Message? && At(o, j).rec.epoch == epoch
  }

  // What the peer says next is ChangeCipherSpec.
  predicate CipherNext(o: Options, byServer: bool, p: nat, epoch: nat) {
    p < Places(o) && At(o, p) == Sent(!byServer, Rec(epoch, ChangeCipherSpec))
  }

  // One place at a time: what stands there, what it adds, and whose it is. The lemmas here
  // say nothing where they do not apply instead of requiring that they do.
  lemma OnePlace(o: Options, p: int)
    ensures 0 <= p < Places(o) ==>
      && At(o, p) == PlaceAfter(o, p, Log(o, p))
      && Log(o, p + 1) == (
          if At(o, p).Sent? && At(o, p).rec.item.Message? then Log(o, p) + [At(o, p).rec.item.msg] else Log(o, p))
      && Records(o, p, p + 1) == (if At(o, p).Sent? then [At(o, p).rec] else [])
      && (OnlyBy(o, true, p, p + 1) <==> (At(o, p).Sent? ==> At(o, p).byServer))
      && (OnlyBy(o, false, p, p + 1) <==> (At(o, p).Sent? ==> !At(o, p).byServer))
  {
    if 0 <= p < Places(o) {
      LogStep(o, p);
      hide At;
      assert Records(o, p + 1, p + 1) == [];
    }
  }

  // What a machine at |p| has read is what is said at |p|, or later if nothing is.
  lemma Head<S>(o: Options, byServer: bool, p: int, h: Hs<S>)
    ensures 0 <= p < Places(o) && InboxFits(o, byServer, p, h) ==>
      && (At(o, p).Sent? && h.inbox.Some? ==>
            At(o, p) == Sent(!byServer, Rec(h.readEpoch, Message(h.inbox.value))))
      && (At(o, p).Absent? ==> InboxFits(o, byServer, p + 1, h))
  {
    hide At;
  }

  lemma NextPlace(o: Options, p: int)
    ensures 0 <= p < Places(o) ==> NextSent(o, p) == if At(o, p).Sent? then p else NextSent(o, p + 1)
  {
    hide At;
  }

  lemma NoPlace(o: Options, p: int)
    ensures p >= 0 ==> Records(o, p, p) == [] && OnlyBy(o, true, p, p) && OnlyBy(o, false, p, p)
  {}

  // One more place at the end.
  lemma LastPlace(o: Options, p: int, q: int)
    ensures 0 <= p <= q ==>
      && Records(o, p, q + 1) == Push(Records(o, p, q), At(o, q).Sent?, RecordAt(o, q))
      && (OnlyBy(o, true, p, q + 1) <==> OnlyBy(o, true, p, q) && (At(o, q).Sent? ==> At(o, q).byServer))
      && (OnlyBy(o, false, p, q + 1) <==> OnlyBy(o, false, p, q) && (At(o, q).Sent? ==> !At(o, q).byServer))
  {
    if 0 <= p <= q {
      RecordsSplit(o, p, q, q + 1);
      hide At;
      assert Records(o, q + 1, q + 1) == [];
      assert Records(o, p, q) + [] == Records(o, p, q);
    }
  }

  function RecordAt(o: Options, p: nat): Rec {
    if At(o, p).Sent? then At(o, p).rec else Rec(0, ChangeCipherSpec)
  }

  function Push<T>(s: seq<T>, really: bool, x: T): seq<T> {
    if really then s + [x] else s
  }

  // Appending one by one is appending all at once.
  lemma PushedAtOnce(f: seq<Rec>, w: Rec, b1: bool, x: Rec, b2: bool, y: Rec, z: Rec)
    ensures Push(Push(f + [w], b1, x), b2, y) + [z] == f + (Push(Push([w], b1, x), b2, y) + [z])
  {}

  lemma JoinPlaces(o: Options, b: bool, p: int, q: int, r: int)
    ensures 0 <= p <= q <= r ==>
      && Records(o, p, r) == Records(o, p, q) + Records(o, q, r)
      && (OnlyBy(o, b, p, q) && OnlyBy(o, b, q, r) ==> OnlyBy(o, b, p, r))
  {
    hide At;
    if 0 <= p <= q <= r { RecordsSplit(o, p, q, r); }
  }
}
