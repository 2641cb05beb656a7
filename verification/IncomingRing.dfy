/** The ring of messages under reassembly (incoming_messages in DTLS1_STATE). */
module IncomingRing {
  import opened Bytes
  import opened HandshakeWire
  import opened Reassembly

  class Ring {
    const frags: array<HmFragment?>
    ghost var Repr: set<object>

    ghost predicate Valid()
      reads this, Repr
      ensures Valid() ==> this in Repr
    {
      && {this, frags} <= Repr
      && frags.Length == MAX_FLIGHT
      && (forall i | 0 <= i < MAX_FLIGHT && frags[i] != null ::
            && frags[i] in Repr
            && frags[i].Footprint() <= Repr - {this, frags}
            && frags[i].Valid())
      && (forall i, j | 0 <= i < j < MAX_FLIGHT && frags[i] != null && frags[j] != null ::
            frags[i].Footprint() !! frags[j].Footprint())
    }

    ghost function SlotOf(i: nat): Option<Slot>
      requires Valid() && i < MAX_FLIGHT
      reads this, Repr
    {
      if frags[i] == null then None else Some(frags[i].Abs())
    }

    ghost function Abs(): (slots: seq<Option<Slot>>)
      requires Valid()
      reads this, Repr
      ensures |slots| == MAX_FLIGHT
    {
      seq(MAX_FLIGHT, i requires 0 <= i < MAX_FLIGHT && Valid() reads this, Repr => SlotOf(i))
    }

    constructor ()
      ensures Valid() && fresh(Repr)
      ensures Abs() == seq(MAX_FLIGHT, _ => None)
    {
      frags := new HmFragment?[MAX_FLIGHT](_ => null);
      new;
      Repr := {this, frags};
      assert forall i | 0 <= i < MAX_FLIGHT :: frags[i] == null;
    }

    // The ring access of dtls1_is_current_message_complete.
    method IsComplete(i: nat) returns (complete: bool)
      requires Valid() && i < MAX_FLIGHT
      ensures complete == (Abs()[i].Some? && Abs()[i].value.Complete())
    {
      var frag := frags[i];
      complete := frag != null && frag.reassembly == null;
      if frag != null { CompleteMeansNoMask(frag); }
    }

    // incoming_messages[i].reset()
    method Reset(i: nat)
      requires Valid() && i < MAX_FLIGHT
      modifies Repr
      ensures Valid() && Repr == old(Repr)
      ensures Abs() == old(Abs())[i := None]
    {
      ghost var was := Abs();
      frags[i] := null;
      assert forall j | 0 <= j < MAX_FLIGHT && j != i :: SlotOf(j) == was[j];
    }

    // The entry for a message's first fragment.
    method Insert(i: nat, hdr: Header)
      requires Valid() && i < MAX_FLIGHT && hdr.Valid() && frags[i] == null
      modifies Repr
      ensures Valid() && fresh(Repr - old(Repr))
      ensures Abs() == old(Abs())[i := Some(FreshSlot(hdr))]
    {
      hide HmFragment.Valid, HmFragment.Abs, FreshSlot;
      ghost var was, others := Abs(), Repr;
      var frag := new HmFragment(hdr);
      frags[i] := frag;
      Repr := Repr + frag.Footprint();
      assert forall j | 0 <= j < MAX_FLIGHT && j != i && frags[j] != null ::
        frags[j].Footprint() <= others - {this, frags} && frags[j].Valid();
      assert frag.Valid() && frag.Footprint() !! others;
      assert Valid();
      assert SlotOf(i) == Some(FreshSlot(hdr));
      assert forall j | 0 <= j < MAX_FLIGHT && j != i :: SlotOf(j) == was[j];
    }

    // Copy a fragment's body into entry |i|.
    method Accept(i: nat, off: nat, body: bytes)
      requires Valid() && i < MAX_FLIGHT && frags[i] != null && frags[i].reassembly != null
      requires off + |body| <= frags[i].msgLen
      modifies Repr
      ensures Valid() && Repr == old(Repr)
      ensures Abs() == old(Abs())[i := Some(old(Abs())[i].value.Marked(off, body))]
    {
      hide HmFragment.Valid, HmFragment.Abs, Slot.Marked;
      ghost var was := Abs();
      var frag := frags[i];
      frag.Accept(off, body);
      assert Valid();
      assert forall j | 0 <= j < MAX_FLIGHT && j != i :: SlotOf(j) == was[j];
    }

    // dtls1_get_incoming_message within the window, then the copy; false on a mismatch.
    method Take(i: nat, hdr: Header, body: bytes) returns (ok: bool)
      requires Valid() && i < MAX_FLIGHT && hdr.Valid() && hdr.fragOff + |body| <= hdr.msgLen
      modifies Repr
      ensures Valid() && fresh(Repr - old(Repr))
      ensures var r := TakeInto(old(Abs())[i], hdr, body);
              ok == r.Some? && Abs() == if ok then old(Abs())[i := r] else old(Abs())
    {
      var frag := frags[i];
      if frag != null {
        if frag.typ != hdr.typ || frag.msgLen != hdr.msgLen { return false; }
      } else {
        Insert(i, hdr);
      }
      var complete := IsComplete(i);
      if !complete { Accept(i, hdr.fragOff, body); }
      ok := true;
    }
  }

  lemma CompleteMeansNoMask(f: HmFragment)
    requires f.Valid()
    ensures f.Abs().Complete() <==> f.reassembly == null
  {
    if f.reassembly != null {
      var i :| 0 <= i < f.msgLen && !MaskBit(f.reassembly[..], i);
      assert !f.Has(i);
      assert f.Abs().got[i] == None;
    }
  }
}
