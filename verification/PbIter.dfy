/** The field iterator of pb_common.c: it walks a descriptor in a cycle and keeps the
    address of the current member by adding up relative offsets. */
module PbIter {
  import opened PbTypes
  import opened PbDecode

  // The size a static member takes in the struct.
  function MemberSize(f: Field): nat {
    if f.htype.Repeated? then f.dataSize * f.arraySize else f.dataSize
  }

  // A oneof member that shares the address of the member before it.
  predicate SharesUnion(prev: Field, f: Field) {
    prev.htype.Oneof? && f.htype.Oneof? && f.dataOffset == SIZE_MAX
  }

  // |d| was generated (by the PB_DATAOFFSET macros of pb.h) from a struct whose members
  // are at |at| and whose has_, _count and which_ companions are at |sizeAt|.
  predicate Generated(d: Desc, at: seq<nat>, sizeAt: seq<int>) {
    |at| == |sizeAt| == |d| && forall i | 0 <= i < |d| :: Placed(d, at, sizeAt, i)
  }

  predicate Placed(d: Desc, at: seq<nat>, sizeAt: seq<int>, i: nat)
    requires i < |d| && i < |at| && i < |sizeAt|
  {
    if i == 0 then at[0] == d[0].dataOffset && sizeAt[0] == at[0] + d[0].sizeOffset
    else if SharesUnion(d[i - 1], d[i]) then at[i] == at[i - 1] && sizeAt[i] == sizeAt[i - 1]
    else at[i] == at[i - 1] + MemberSize(d[i - 1]) + d[i].dataOffset && sizeAt[i] == at[i] + d[i].sizeOffset
  }

  // The addresses a descriptor says its members and their companions have.
  function Layout(d: Desc): (r: (seq<nat>, seq<int>))
    ensures |r.0| == |r.1| == |d|
    decreases |d|
  {
    if d == [] then ([], [])
    else
      var n := |d| - 1;
      var (at, sizeAt) := Layout(d[..n]);
      if n > 0 && SharesUnion(d[n - 1], d[n]) then (at + [at[n - 1]], sizeAt + [sizeAt[n - 1]])
      else
        var here := d[n].dataOffset + if n == 0 then 0 else at[n - 1] + MemberSize(d[n - 1]);
        (at + [here], sizeAt + [here + d[n].sizeOffset])
  }

  // There is exactly one struct a descriptor can have been generated from.
  lemma {:induction false} LayoutIsTheOne(d: Desc, at: seq<nat>, sizeAt: seq<int>)
    ensures Generated(d, at, sizeAt) <==> (at, sizeAt) == Layout(d)
    decreases |d|
  {
    if d != [] && |at| == |sizeAt| == |d| {
      var n := |d| - 1;
      LayoutIsTheOne(d[..n], at[..n], sizeAt[..n]);
      GeneratedSnoc(d, at, sizeAt);
      LayoutPlaced(d);
      hide Generated, Placed, Layout;
      PlacedOnce(d, at, sizeAt, Layout(d).0, Layout(d).1);
    }
  }

  lemma LayoutPlaced(d: Desc)
    requires d != []
    ensures var n, (at, sizeAt) := |d| - 1, Layout(d);
      (at[..n], sizeAt[..n]) == Layout(d[..n]) && Placed(d, at, sizeAt, n)
  {}

  // The place of a member is determined by what is before it.
  lemma PlacedOnce(d: Desc, at: seq<nat>, sizeAt: seq<int>, at': seq<nat>, sizeAt': seq<int>)
    ensures d != [] && |at| == |sizeAt| == |at'| == |sizeAt'| == |d| ==>
      var n := |d| - 1;
      at[..n] == at'[..n] && sizeAt[..n] == sizeAt'[..n] && Placed(d, at, sizeAt, n) && Placed(d, at', sizeAt', n) ==>
        at == at' && sizeAt == sizeAt'
  {
    if d != [] && |at| == |sizeAt| == |at'| == |sizeAt'| == |d| {
      var n := |d| - 1;
      assert at == at[..n] + [at[n]] && sizeAt == sizeAt[..n] + [sizeAt[n]];
      assert at' == at'[..n] + [at'[n]] && sizeAt' == sizeAt'[..n] + [sizeAt'[n]];
      if n > 0 {
        assert at[..n][n - 1] == at[n - 1] && at'[..n][n - 1] == at'[n - 1];
        assert sizeAt[..n][n - 1] == sizeAt[n - 1] && sizeAt'[..n][n - 1] == sizeAt'[n - 1];
      }
    }
  }

  lemma GeneratedSnoc(d: Desc, at: seq<nat>, sizeAt: seq<int>)
    requires d != [] && |at| == |sizeAt| == |d|
    ensures var n := |d| - 1;
      Generated(d, at, sizeAt) <==> Generated(d[..n], at[..n], sizeAt[..n]) && Placed(d, at, sizeAt, n)
  {
    var n := |d| - 1;
    forall i | 0 <= i < n
      ensures Placed(d, at, sizeAt, i) <==> Placed(d[..n], at[..n], sizeAt[..n], i)
    {}
    hide Placed;
  }

  // pb_field_iter_t; a position past the last field is the terminator, with tag 0.
  class FieldIter {
    const fields: Desc
    ghost const at: seq<nat>
    ghost const sizeAt: seq<int>
    var pos: nat
    var requiredFieldIndex: nat
    var pData: nat
    var pSize: int

    // The iterator is on a field, with that field's address and required index.
    ghost predicate Valid()
      reads this
    {
      && Generated(fields, at, sizeAt)
      && (if fields == [] then pos == 0 && requiredFieldIndex == 0
          else
            && pos < |fields|
            && pData == at[pos] && pSize == sizeAt[pos]
            && requiredFieldIndex == RequiredBefore(fields, pos))
    }

    // pb_field_iter_begin
    constructor (fields: Desc, ghost at: seq<nat>, ghost sizeAt: seq<int>)
      requires Generated(fields, at, sizeAt)
      ensures Valid() && pos == 0 && this.fields == fields
    {
      assert fields != [] ==> Placed(fields, at, sizeAt, 0);
      this.fields, this.at, this.sizeAt := fields, at, sizeAt;
      pos, requiredFieldIndex := 0, 0;
      pData := if fields == [] then 0 else fields[0].dataOffset;
      pSize := if fields == [] then 0 else fields[0].dataOffset + fields[0].sizeOffset;
    }

    // The reinitialisation in pb_field_iter_next.
    method Restart()
      requires Generated(fields, at, sizeAt) && fields != []
      modifies this
      ensures Valid() && pos == 0
    {
      assert Placed(fields, at, sizeAt, 0);
      pos, requiredFieldIndex := 0, 0;
      pData := fields[0].dataOffset;
      pSize := pData + fields[0].sizeOffset;
    }

    // pb_field_iter_next: false when it wraps around to the first field.
    method Next() returns (more: bool)
      requires Valid()
      modifies this
      ensures Valid()
      ensures pos == if old(pos) + 1 < |fields| then old(pos) + 1 else 0
      ensures more <==> pos != 0
    {
      if |fields| == 0 { return false; }
      var prev := fields[pos];
      if pos + 1 == |fields| {
        Restart();
        return false;
      }
      pos := pos + 1;
      assert Placed(fields, at, sizeAt, pos);
      if !SharesUnion(prev, fields[pos]) {
        if prev.htype.Required? { requiredFieldIndex := requiredFieldIndex + 1; }
        pData := pData + MemberSize(prev) + fields[pos].dataOffset;
        pSize := pData + fields[pos].sizeOffset;
      }
      more := true;
    }

    // pb_field_iter_find: one cycle from wherever the iterator is. With an empty
    // descriptor the terminator itself answers to tag 0.
    method FindTag(tag: nat) returns (found: bool)
      requires Valid() && ValidDesc(fields)
      modifies this
      ensures Valid()
      ensures found <==> Find(fields, tag).Some? || (fields == [] && tag == 0)
      ensures found && fields != [] ==> pos == Find(fields, tag).value
      ensures !found ==> pos == old(pos)
    {
      if |fields| == 0 {
        return tag == 0;
      }
      var start := pos;
      ghost var wrapped := false;
      while true
        invariant Valid()
        invariant if wrapped then pos < start else start <= pos
        invariant NoTag(tag, if wrapped then 0 else start, pos)
        invariant wrapped ==> NoTag(tag, start, |fields|)
        decreases !wrapped, |fields| - pos
      {
        if fields[pos].tag == tag { return true; }
        var more := Next();
        wrapped := wrapped || !more;
        if pos == start { return false; }
      }
    }

    ghost predicate NoTag(tag: nat, from: nat, to: nat)
      requires to <= |fields|
    {
      forall i | from <= i < to :: fields[i].tag != tag
    }
  }
}
