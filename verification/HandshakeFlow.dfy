/** Two machines at two places of one conversation: what is on its way between them. */
module HandshakeFlow {
  import opened Handshake
  import opened HandshakeScript
  import opened HandshakeFollow

  // Side |x| is at |px| and the other side at |py|. Whoever is ahead has said everything in
  // between, and that is exactly what is on its way to the one behind.
  predicate Flow(o: Options, x: bool, px: nat, py: nat, toX: seq<Rec>, toY: seq<Rec>) {
    if px <= py then OnlyBy(o, !x, px, py) && toX == Records(o, px, py) && toY == []
    else OnlyBy(o, x, py, px) && toY == Records(o, py, px) && toX == []
  }

  lemma FlowSwap(o: Options, x: bool, px: nat, py: nat, toX: seq<Rec>, toY: seq<Rec>)
    requires Flow(o, x, px, py, toX, toY)
    ensures Flow(o, !x, py, px, toY, toX)
  {
    hide At;
    if px == py { NoPlace(o, px); }
  }

  // Places where both sides alone speak are places where nobody does.
  lemma NobodySpeaks(o: Options, from: nat, to: nat)
    requires OnlyBy(o, true, from, to) && OnlyBy(o, false, from, to)
    ensures Records(o, from, to) == []
  {
    hide At;
    NoRecords(o, from, to);
  }

  lemma OnlyByPart(o: Options, b: bool, from: nat, to: nat, a: nat, z: nat)
    requires OnlyBy(o, b, from, to) && from <= a && z <= to
    ensures OnlyBy(o, b, a, z)
  {
    hide At;
  }

  // To say more is to send it after what is on its way already.
  lemma FlowSays(o: Options, x: bool, px: nat, py: nat, toX: seq<Rec>, toY: seq<Rec>, qx: nat)
    requires Flow(o, x, px, py, toX, toY) && px <= qx && OnlyBy(o, x, px, qx)
    ensures Flow(o, x, qx, py, toX, toY + Records(o, px, qx))
  {
    hide At, Records, OnlyBy;
    if px > py {
      JoinPlaces(o, x, py, px, qx);
    } else if qx <= py {
      OnlyByPart(o, !x, px, py, px, qx);
      OnlyByPart(o, !x, px, py, qx, py);
      NobodySpeaks(o, px, qx);
      JoinPlaces(o, x, px, qx, py);
      assert [] + Records(o, qx, py) == Records(o, qx, py);
    } else {
      OnlyByPart(o, x, px, qx, px, py);
      OnlyByPart(o, x, px, qx, py, qx);
      NobodySpeaks(o, px, py);
      JoinPlaces(o, x, px, py, qx);
      assert [] + Records(o, py, qx) == Records(o, py, qx);
    }
  }

  // To take in what comes next is to take it off what is on its way.
  lemma FlowTakes(o: Options, x: bool, px: nat, py: nat, toX: seq<Rec>, toY: seq<Rec>, qx: nat, rest: seq<Rec>)
    requires Flow(o, x, px, py, toX, toY) && px <= qx && OnlyBy(o, !x, px, qx) && toX == Records(o, px, qx) + rest
    ensures Flow(o, x, qx, py, rest, toY)
  {
    hide At, Records, OnlyBy;
    if px > py {
      assert Records(o, px, qx) == [] && rest == [];
      JoinPlaces(o, x, py, px, qx);
      NoneByAnybody(o, px, qx, x);
      assert Records(o, py, px) + [] == Records(o, py, px);
    } else if qx <= py {
      JoinPlaces(o, x, px, qx, py);
      OnlyByPart(o, !x, px, py, qx, py);
      Cancel(Records(o, px, qx), Records(o, qx, py), rest);
    } else {
      JoinPlaces(o, x, px, py, qx);
      assert |Records(o, py, qx)| == 0 && rest == [];
      NoneByAnybody(o, py, qx, x);
    }
  }

  lemma Cancel(a: seq<Rec>, b: seq<Rec>, d: seq<Rec>)
    requires a + b == a + d
    ensures b == d
  {
    assert (a + b)[|a|..] == b && (a + d)[|a|..] == d;
  }

  lemma NoneByAnybody(o: Options, from: nat, to: nat, b: bool)
    requires Records(o, from, to) == []
    ensures OnlyBy(o, b, from, to)
  {
    hide At;
    NoRecords(o, from, to);
  }

  // What comes first on the way to a machine is what the conversation has next for it.
  lemma FlowHead(o: Options, x: bool, px: nat, py: nat, toX: seq<Rec>, toY: seq<Rec>)
    requires Flow(o, x, px, py, toX, toY) && px <= Places(o) && py <= Places(o) && toX != []
    ensures var j := NextSent(o, px);
      j < Places(o) && At(o, j) == Sent(!x, toX[0])
  {
    hide At;
    FirstRecord(o, px, py);
  }

  // Two machines of which neither is ahead of what the other has yet to say.
  lemma FlowEmpty(o: Options, x: bool, px: nat, py: nat)
    requires Flow(o, x, px, py, [], []) && px <= Places(o) && py <= Places(o)
    ensures NextSent(o, px) == NextSent(o, py)
  {
    hide At;
    if px <= py { SameNext(o, px, py); } else { SameNext(o, py, px); }
  }

  lemma {:induction false} SameNext(o: Options, p: nat, q: nat)
    requires p <= q <= Places(o) && Records(o, p, q) == []
    ensures NextSent(o, p) == NextSent(o, q)
    decreases q - p
  {
    hide At;
    if p < q {
      NoRecords(o, p, q);
      NoRecords(o, p + 1, q);
      SameNext(o, p + 1, q);
    }
  }
}
