/** The operations on packed record sets (rdataset.c) as set operations. */
module RdatasetOps {
  import opened Bytes
  import opened Memory
  import opened Rdataset

  datatype Code = EOK | EINVAL | ESPACE

  // ---- Reading a buffer ----

  /** rr_seek. */
  method Seek(b: Key, pos: nat, ghost rs: seq<Rdata>) returns (off: nat)
    requires b == Encode(rs) && pos < |rs|
    ensures off == Offset(rs, pos)
  {
    hide Encode;
    off := 0;
    var i := 0;
    StartOffset(rs);
    while i < pos
      invariant 0 <= i <= pos && off == Offset(rs, i)
    {
      RecordAt(rs, i);
      off := off + RSize(LenAt(b, off));
      i := i + 1;
    }
  }

  lemma StartOffset(rs: seq<Rdata>)
    ensures Offset(rs, 0) == 0
    ensures Offset(rs, |rs|) == |Encode(rs)|
  {
    assert rs[..0] == [] && rs[..|rs|] == rs;
  }

  /** knot_rdataset_member: an early exit at the first greater record. */
  method MemberOf(b: Key, count: nat, r: Rdata, ghost rs: seq<Rdata>) returns (found: bool)
    requires b == Encode(rs) && count == |rs| && Sorted(rs)
    ensures found <==> r in SetOf(rs)
  {
    hide Encode, LexLess;
    var off, i := 0, 0;
    StartOffset(rs);
    while i < count
      invariant 0 <= i <= count && off == Offset(rs, i)
      invariant forall j :: 0 <= j < i ==> LexLess(rs[j], r)
    {
      RecordAt(rs, i);
      var cmp := Compare(DataAt(b, off), r);
      if cmp == 0 {
        return true;
      } else if cmp > 0 {
        NotBetween(rs, i, r);
        return false;
      }
      off := off + RSize(LenAt(b, off));
      i := i + 1;
    }
    NotBetween(rs, i, r);
    return false;
  }

  lemma NotBetween(rs: seq<Rdata>, i: nat, r: Rdata)
    requires Sorted(rs) && i <= |rs| && (forall j :: 0 <= j < i ==> LexLess(rs[j], r))
    requires i < |rs| ==> LexLess(r, rs[i])
    ensures r !in SetOf(rs)
  {
    InsertSorted(rs, i, r);
  }

  /** find_rr_pos: the position of a record, or |rs| if there is none. */
  method FindPos(b: Key, count: nat, r: Rdata, ghost rs: seq<Rdata>) returns (pos: nat)
    requires b == Encode(rs) && count == |rs|
    ensures pos <= count && (pos < count ==> rs[pos] == r)
    ensures pos == count <==> r !in SetOf(rs)
  {
    hide Encode;
    var off := 0;
    pos := 0;
    StartOffset(rs);
    while pos < count
      invariant 0 <= pos <= count && off == Offset(rs, pos)
      invariant forall j :: 0 <= j < pos ==> rs[j] != r
    {
      RecordAt(rs, pos);
      if Compare(r, DataAt(b, off)) == 0 {
        return;
      }
      off := off + RSize(LenAt(b, off));
      pos := pos + 1;
    }
  }

  // ---- The set ----

  class Set {
    var count: nat
    var size: nat
    var rdata: array?<Byte>
    ghost var recs: seq<Rdata>

    /** The buffer was not released and is the records in strictly increasing order, `size`
        octets in all. */
    ghost predicate Valid(mm: Mm)
      reads this, mm, rdata
    {
      && count == |recs| <= COUNT_MAX && Sorted(recs)
      && size == |Encode(recs)| <= 0xFFFFFFFF
      && (rdata == null <==> count == 0)
      && At(rdata) <= mm.live
      && (rdata != null ==> rdata[..] == Encode(recs))
    }

    /** knot_rdataset_init. */
    constructor Init(ghost mm: Mm)
      ensures Valid(mm) && recs == [] && rdata == null
    {
      count, size, rdata, recs := 0, 0, null, [];
    }

    /** knot_rdataset_init on a set in use: the buffer is forgotten, not released. */
    method Reset(ghost mm: Mm)
      modifies this
      ensures Valid(mm) && recs == [] && rdata == null
    {
      count, size, rdata, recs := 0, 0, null, [];
    }

    function Bytes(ghost mm: Mm): (b: Key)
      requires At(rdata) <= mm.live
      reads this, mm, rdata
      ensures Valid(mm) ==> b == Encode(recs)
    {
      Read(mm, rdata)
    }

    /** knot_rdataset_clear. */
    method Clear(mm: Mm)
      requires At(rdata) <= mm.live
      modifies this, mm
      ensures Valid(mm) && recs == [] && rdata == null && mm.live == old(mm.live) - At(old(rdata))
    {
      mm.Free(rdata);
      Reset(mm);
    }

    method Member(ghost mm: Mm, r: Rdata) returns (found: bool)
      requires Valid(mm)
      ensures found <==> r in SetOf(recs)
    {
      found := MemberOf(Bytes(mm), count, r, recs);
    }

    /** add_rr_at: refuses a full set; otherwise moves to a larger buffer, releasing the
        old one, and opens a gap at the offset. */
    method AddAt(mm: Mm, r: Rdata, off: nat, ghost i: nat) returns (ret: Code)
      requires Valid(mm) && i <= |recs| && off == Offset(recs, i)
      requires i > 0 ==> LexLess(recs[i - 1], r)
      requires i < |recs| ==> LexLess(r, recs[i])
      modifies this, mm
      ensures Valid(mm) && r !in SetOf(old(recs))
      ensures ret == if old(count) == 65535 || old(size) > 4294901757 then ESPACE else EOK
      ensures ret == ESPACE ==> recs == old(recs) && rdata == old(rdata) && mm.live == old(mm.live)
      ensures ret == EOK ==> recs == old(recs)[..i] + [r] + old(recs)[i..] && size == old(size) + RSize(|r|)
      ensures ret == EOK ==> SetOf(recs) == SetOf(old(recs)) + {r}
      ensures ret == EOK ==> rdata != null && fresh(rdata) && mm.live == old(mm.live) - At(old(rdata)) + {rdata}
    {
      hide Encode, LexLess, Record;
      InsertSorted(recs, i, r);
      if count == COUNT_MAX {
        return ESPACE;
      } else if size > SIZE_MAX {
        return ESPACE;
      }
      Opened(recs, i, r);
      StartOffset(recs);
      var rrSize := RSize(|r|);
      rdata := OpenGap(mm, rdata, size, off, Record(r));
      count := count + 1;
      size := size + rrSize;
      recs := recs[..i] + [r] + recs[i..];
      return EOK;
    }

    /** knot_rdataset_add: set insertion. */
    method Add(mm: Mm, rr: Rdata) returns (ret: Code)
      requires Valid(mm)
      modifies this, mm
      ensures Valid(mm)
      ensures rr in SetOf(old(recs)) ==> ret == EOK
      ensures rr !in SetOf(old(recs)) ==>
                ret == if old(count) == 65535 || old(size) > 4294901757 then ESPACE else EOK
      ensures ret == EOK ==> SetOf(recs) == SetOf(old(recs)) + {rr}
      ensures ret == ESPACE || rr in SetOf(old(recs)) ==>
                recs == old(recs) && rdata == old(rdata) && mm.live == old(mm.live)
      ensures ret == EOK && rr !in SetOf(old(recs)) ==>
                && size == old(size) + RSize(|rr|) && rdata != null && fresh(rdata)
                && mm.live == old(mm.live) - At(old(rdata)) + {rdata}
      ensures ret != EINVAL
    {
      hide Encode, LexLess, Sorted;
      var dup, off, i := Place(Bytes(mm), count, rr, recs);
      if dup {
        return EOK;
      }
      ret := AddAt(mm, rr, off, i);
    }

    /** Another set beside an insertion: it is lost exactly if it shares the buffer and
        the record was added, and otherwise as before. */
    method AddBeside(mm: Mm, rr: Rdata, other: Set) returns (ret: Code)
      requires Valid(mm) && other != this && other.Valid(mm)
      modifies this, mm
      ensures Valid(mm) && (ret == EOK ==> SetOf(recs) == SetOf(old(recs)) + {rr})
      ensures other.recs == old(other.recs)
      ensures other.Valid(mm) <==> rdata == old(rdata) || other.rdata != old(rdata) || other.rdata == null
      ensures rdata == old(rdata) <==> ret == ESPACE || rr in SetOf(old(recs))
    {
      hide Encode, LexLess, Sorted, SetOf;
      ret := Add(mm, rr);
    }

    /** knot_rdataset_remove_at: closes the gap in place and gives back the memory. */
    method RemoveAt(mm: Mm, pos: nat)
      requires Valid(mm) && pos < count
      modifies this, mm, rdata
      ensures Valid(mm) && recs == old(recs)[..pos] + old(recs)[pos + 1..] && count == old(count) - 1
      ensures SetOf(recs) == SetOf(old(recs)) - {old(recs)[pos]}
      ensures mm.live == old(mm.live) - At(old(rdata)) + At(rdata) && (rdata != null ==> fresh(rdata))
    {
      hide Encode, LexLess, Record, Sorted, SetOf, LenAt, DataAt, Offset;
      var b := Bytes(mm);
      var old_ := Seek(b, pos, recs);
      var last := Seek(b, count - 1, recs);
      RecordAt(recs, pos);
      RecordAt(recs, count - 1);
      StartOffset(recs);
      Closed(recs, pos);
      WithoutSorted(recs, pos);
      var oldSize := RSize(LenAt(b, old_));
      var oldThreshold := old_ + oldSize;
      var lastThreshold := last + RSize(LenAt(b, last));
      rdata := CloseGap(mm, rdata, old_, oldThreshold, lastThreshold, count > 1);
      count := count - 1;
      size := size - oldSize;
      recs := recs[..pos] + recs[pos + 1..];
    }

    /** Another set beside a removal: it is lost exactly if it shares the buffer. */
    method RemoveBeside(mm: Mm, pos: nat, other: Set)
      requires Valid(mm) && pos < count && other != this && other.Valid(mm)
      modifies this, mm, rdata
      ensures Valid(mm) && recs == old(recs)[..pos] + old(recs)[pos + 1..]
      ensures other.recs == old(other.recs) && (other.Valid(mm) <==> other.rdata != old(rdata))
    {
      hide Encode, LexLess, Sorted, SetOf;
      RemoveAt(mm, pos);
    }

    /** knot_rdataset_eq: equal sets. */
    method Eq(ghost mm: Mm, rrs2: Set?) returns (eq: bool)
      requires Valid(mm) && (rrs2 != null ==> rrs2.Valid(mm))
      ensures eq <==> rrs2 != null && SetOf(recs) == SetOf(rrs2.recs)
    {
      hide Encode, LexLess, SetOf;
      if rrs2 != null {
        SameSet(recs, rrs2.recs);
      }
      if rrs2 == null || count != rrs2.count {
        return false;
      }
      eq := SameRecords(Bytes(mm), rrs2.Bytes(mm), count, recs, rrs2.recs);
    }

    /** knot_rdataset_subset. Sharing a buffer decides at once. */
    method Subset(ghost mm: Mm, of: Set?) returns (sub: bool)
      requires Valid(mm) && (of != null ==> of.Valid(mm))
      ensures sub <==> SetOf(recs) <= if of == null then {} else SetOf(of.recs)
    {
      hide Encode, LexLess;
      if of != null && rdata == of.rdata {
        SameBuffer(recs, of.recs);
        return true;
      }
      var b, off, i := Bytes(mm), 0, 0;
      StartOffset(recs);
      while i < count
        invariant 0 <= i <= count && off == Offset(recs, i)
        invariant forall j :: 0 <= j < i ==> of != null && recs[j] in SetOf(of.recs)
      {
        RecordAt(recs, i);
        var found := false;
        if of != null {
          found := of.Member(mm, DataAt(b, off));
        }
        if !found {
          assert recs[i] in SetOf(recs);
          return false;
        }
        off := off + RSize(LenAt(b, off));
        i := i + 1;
      }
      return true;
    }

    /** knot_rdataset_merge: set union; without room, the union with the first records
        of the other set that were new or fitted. The other set is read while this one
        grows; sharing its buffer, or being it, is harmless since nothing is then new. */
    method Merge(mm: Mm, rrs2: Set?) returns (ret: Code)
      requires Valid(mm) && (rrs2 != null ==> rrs2.Valid(mm))
      modifies this, mm
      ensures Valid(mm) && (ret == EINVAL <==> rrs2 == null)
      ensures ret == EINVAL ==> recs == old(recs) && rdata == old(rdata) && mm.live == old(mm.live)
      ensures ret == EOK ==> SetOf(recs) == SetOf(old(recs)) + SetOf(old(rrs2.recs))
      ensures ret == ESPACE ==>
                && (count == 65535 || size > 4294901757)
                && exists k :: 0 <= k < |old(rrs2.recs)| && old(rrs2.recs)[k] !in SetOf(recs)
                               && SetOf(recs) == SetOf(old(recs)) + SetOf(old(rrs2.recs)[..k])
      ensures rrs2 != null ==> rrs2.Valid(mm) && rrs2.recs == old(rrs2.recs)
      ensures rrs2 != null && old(rdata) == old(rrs2.rdata) ==>
                ret == EOK && recs == old(recs) && rdata == old(rdata) && mm.live == old(mm.live)
    {
      hide Encode, LexLess, SetOf, Sorted, LenAt, DataAt, Offset, RSize;
      if rrs2 == null {
        return EINVAL;
      }
      ghost var rs, shared := rrs2.recs, rdata == rrs2.rdata;
      if shared {
        SameBuffer(recs, rs);
      }
      var rr2, off, i := rrs2.rdata, 0, 0;
      StartOffset(rs);
      UpToNothing(rs);
      while i < rrs2.count
        invariant Valid(mm) && rrs2.Valid(mm) && rrs2.recs == rs && rrs2.rdata == rr2
        invariant 0 <= i <= |rs| && off == Offset(rs, i)
        invariant SetOf(recs) == SetOf(old(recs)) + SetOf(rs[..i])
        invariant shared ==> recs == rs == old(recs) && rdata == rr2 == old(rdata) && mm.live == old(mm.live)
        invariant !shared ==> rdata == old(rdata) || rdata == null || fresh(rdata)
      {
        RecordAt(rs, i);
        UpToNext(rs, i);
        var rr := DataAt(Read(mm, rr2), off);
        ret := Add(mm, rr);
        if ret != EOK {
          return;
        }
        off := off + RSize(LenAt(Read(mm, rr2), off));
        i := i + 1;
      }
      assert rs[..i] == rs;
      return EOK;
    }

    /** knot_rdataset_intersect2: set intersection in place. */
    method Intersect2(mm: Mm, what: Set?) returns (ret: Code)
      requires Valid(mm) && (what != null ==> what.Valid(mm))
      modifies this, mm, rdata
      ensures Valid(mm) && ret == if what == null then EINVAL else EOK
      ensures what == null ==> recs == old(recs)
      ensures what != null ==> SetOf(recs) == SetOf(old(recs)) * SetOf(old(what.recs))
      ensures what != null ==> what.Valid(mm) && what.recs == old(what.recs)
      ensures mm.live == old(mm.live) - At(old(rdata)) + At(rdata)
    {
      hide Encode, LexLess, Sorted, LenAt, DataAt, Offset, RSize;
      if what == null {
        return EINVAL;
      }
      if rdata == what.rdata {
        SameBuffer(recs, what.recs);
        return EOK;
      }
      var off, i := 0, 0;
      StartOffset(recs);
      while i < count
        invariant Valid(mm) && what.Valid(mm) && what != this && what.recs == old(what.recs)
        invariant what.rdata == old(what.rdata) && (rdata != null && rdata != old(rdata) ==> fresh(rdata))
        invariant mm.live == old(mm.live) - At(old(rdata)) + At(rdata)
        invariant 0 <= i <= count && (i < count ==> off == Offset(recs, i))
        invariant forall j :: 0 <= j < i ==> recs[j] in SetOf(what.recs)
        invariant SetOf(old(recs)) * SetOf(what.recs) <= SetOf(recs) <= SetOf(old(recs))
        decreases count - i
      {
        RecordAt(recs, i);
        assert recs[i] in SetOf(recs);
        var found := what.Member(mm, DataAt(Bytes(mm), off));
        if !found {
          RemoveAt(mm, i);
          if i < count {
            off := Seek(Bytes(mm), i, recs);
          }
        } else {
          off := off + RSize(LenAt(Bytes(mm), off));
          i := i + 1;
        }
      }
      return EOK;
    }

    /** knot_rdataset_subtract: set difference. A set that shares the buffer is emptied
        too, and the buffer released once. */
    method Subtract(mm: Mm, what: Set?) returns (ret: Code)
      requires Valid(mm) && (what != null ==> what.Valid(mm))
      modifies this, mm, rdata, if what == null then {} else {what}
      ensures Valid(mm) && ret == if what == null then EINVAL else EOK
      ensures what == null ==> recs == old(recs)
      ensures what != null ==> what.Valid(mm) && SetOf(recs) == SetOf(old(recs)) - SetOf(old(what.recs))
      ensures what != null && what != this ==>
                what.recs == if old(rdata) == old(what.rdata) then [] else old(what.recs)
      ensures mm.live == old(mm.live) - At(old(rdata)) + At(rdata)
    {
      hide Encode, LexLess, Sorted;
      if what == null {
        return EINVAL;
      }
      if rdata == what.rdata {
        SameBuffer(recs, what.recs);
        Clear(mm);
        what.Reset(mm);
        return EOK;
      }
      ghost var rs := what.recs;
      var toRemove, off, i := what.rdata, 0, 0;
      StartOffset(rs);
      while i < what.count
        invariant Valid(mm) && what.Valid(mm) && what != this && what.recs == rs && what.rdata == toRemove
        invariant rdata != null && rdata != old(rdata) ==> fresh(rdata)
        invariant mm.live == old(mm.live) - At(old(rdata)) + At(rdata)
        invariant 0 <= i <= |rs| && off == Offset(rs, i)
        invariant SetOf(recs) == SetOf(old(recs)) - SetOf(rs[..i])
      {
        RecordAt(rs, i);
        UpToNext(rs, i);
        var pos := FindPos(Bytes(mm), count, DataAt(Read(mm, toRemove), off), recs);
        if pos < count {
          RemoveAt(mm, pos);
        }
        off := off + RSize(LenAt(Read(mm, toRemove), off));
        i := i + 1;
      }
      assert rs[..i] == rs;
      return EOK;
    }

    /** knot_rdataset_add of a record behind all others. */
    method AddLast(mm: Mm, rr: Rdata) returns (ret: Code)
      requires Valid(mm) && count < 65535 && Sorted(recs + [rr]) && rr !in SetOf(recs)
      modifies this, mm
      ensures Valid(mm) && ret == if old(size) > 4294901757 then ESPACE else EOK
      ensures ret == ESPACE ==> recs == old(recs) && rdata == old(rdata) && mm.live == old(mm.live)
      ensures ret == EOK ==>
                && recs == old(recs) + [rr] && rdata != null && fresh(rdata)
                && mm.live == old(mm.live) - At(old(rdata)) + {rdata}
    {
      hide Encode, LexLess, Sorted, SetOf;
      ghost var f := recs;
      ret := Add(mm, rr);
      SetSnoc(f, rr);
      if ret == EOK {
        SameSet(recs, f + [rr]);
      }
    }

    /** knot_rdataset_intersect: the intersection as a new set. */
    method Intersect(mm: Mm, rrs2: Set?, out: Set?) returns (ret: Code)
      requires Valid(mm) && (rrs2 != null ==> rrs2.Valid(mm)) && out != this && (out != null ==> out != rrs2)
      modifies mm, if out == null then {} else {out}
      ensures ret == EINVAL <==> rrs2 == null || out == null
      ensures ret == ESPACE <==> ret != EINVAL && NoRoomFor(Filter(recs, rrs2.recs, true))
      ensures ret != EINVAL ==> out.Valid(mm) && mm.live == old(mm.live) + At(out.rdata)
      ensures ret == EOK ==> SetOf(out.recs) == SetOf(recs) * SetOf(rrs2.recs)
      ensures ret == ESPACE ==> out.recs == []
      ensures Valid(mm) && (rrs2 != null ==> rrs2.Valid(mm))
    {
      hide Encode, LexLess, Sorted, SetOf, Filter, LenAt, DataAt, Offset, RSize;
      if rrs2 == null || out == null {
        return EINVAL;
      }
      out.Reset(mm);
      var off, i := 0, 0;
      StartOffset(recs);
      FilterStart(recs, rrs2.recs);
      while i < count
        invariant Valid(mm) && rrs2.Valid(mm) && out.Valid(mm) && 0 <= i <= count && off == Offset(recs, i)
        invariant (out.rdata != null ==> fresh(out.rdata)) && mm.live == old(mm.live) + At(out.rdata)
        invariant out.recs == Filter(recs[..i], rrs2.recs, true) && !NoRoomFor(out.recs)
      {
        RecordAt(recs, i);
        FilterStep(recs, rrs2.recs, i);
        var rr1 := DataAt(Bytes(mm), off);
        var found := rrs2.Member(mm, rr1);
        if found {
          ret := out.AddLast(mm, rr1);
          if ret != EOK {
            out.Clear(mm);
            return;
          }
        }
        off := off + RSize(LenAt(Bytes(mm), off));
        i := i + 1;
      }
      assert recs[..i] == recs;
      FilterSet(recs, rrs2.recs, true);
      return EOK;
    }
  }

  /** The buffer work of add_rr_at: room for a record, the records behind it moved up. */
  method OpenGap(mm: Mm, rdata: array?<Byte>, size: nat, off: nat, rr: Key) returns (tmp: array<Byte>)
    requires At(rdata) <= mm.live && off <= size == if rdata == null then 0 else rdata.Length
    modifies mm
    ensures fresh(tmp) && mm.live == old(mm.live) - At(rdata) + {tmp}
    ensures var b := if rdata == null then [] else rdata[..]; tmp[..] == b[..off] + rr + b[off..]
  {
    ghost var b := Read(mm, rdata);
    tmp := mm.Realloc(rdata, size + |rr|, size);
    ghost var w := tmp[..];
    Front(w, b);
    MemMove(tmp, off + |rr|, off, size - off);
    ghost var w' := tmp[..];
    MemCpy(tmp, off, rr);
    GapFilled(b, w, w', tmp[..], off, rr);
  }

  lemma Front(w: Key, b: Key)
    requires |b| <= |w| && (|b| > 0 ==> w[..|b|] == b[..|b|])
    ensures w[..|b|] == b
  {
  }

  /** The buffer work of knot_rdataset_remove_at: the records behind move down in place,
      and the memory is given back. */
  method CloseGap(mm: Mm, rdata: array<Byte>, at: nat, threshold: nat, end: nat, some: bool)
    returns (tmp: array?<Byte>)
    requires rdata in mm.live && at <= threshold <= end == rdata.Length
    modifies mm, rdata
    ensures mm.live == old(mm.live) - {rdata} + At(tmp) && (some <==> tmp != null)
    ensures some ==> fresh(tmp) && tmp[..] == old(rdata[..at]) + old(rdata[threshold..])
  {
    ghost var b := rdata[..];
    MemMove(rdata, at, threshold, end - threshold);
    GapClosed(b, rdata[..], at, threshold);
    if some {
      var n := at + (end - threshold);
      tmp := mm.Realloc(rdata, n, end);
      assert tmp[..] == tmp[..n];
    } else {
      mm.Free(rdata);
      tmp := null;
    }
  }

  /** A buffer grown, its end moved up and the gap written. */
  lemma GapFilled(b: Key, w: Key, w': Key, w'': Key, off: nat, r: Key)
    requires off <= |b| && |w| == |w'| == |w''| == |b| + |r| && w[..|b|] == b
    requires w'[..off + |r|] == w[..off + |r|] && w'[off + |r|..off + |r| + (|b| - off)] == w[off..off + (|b| - off)]
    requires w''[..off] == w'[..off] && w''[off..off + |r|] == r && w''[off + |r|..] == w'[off + |r|..]
    ensures w'' == b[..off] + r + b[off..]
  {
    assert w'[..off] == w'[..off + |r|][..off] && w[..off] == w[..off + |r|][..off];
    assert w[..off] == w[..|b|][..off] && w[off..|b|] == w[..|b|][off..];
    assert w'' == w''[..off] + w''[off..off + |r|] + w''[off + |r|..];
  }

  /** A buffer whose end was moved down. */
  lemma GapClosed(b: Key, w: Key, lo: nat, hi: nat)
    requires lo <= hi <= |b| == |w|
    requires w[..lo] == b[..lo] && w[lo..lo + (|b| - hi)] == b[hi..]
    ensures w[..lo + (|b| - hi)] == b[..lo] + b[hi..]
  {
    assert w[..lo + (|b| - hi)] == w[..lo] + w[lo..lo + (|b| - hi)];
  }

  /** The records before the last already take more than a set may grow from. */
  ghost predicate NoRoomFor(rs: seq<Rdata>) {
    |rs| > 0 && |Encode(rs[..|rs| - 1])| > 4294901757
  }

  lemma FilterStart(rs: seq<Rdata>, what: seq<Rdata>)
    ensures Filter(rs[..0], what, true) == []
  {
  }

  /** One more record: it is new to the result, behind all of it, and the result stays
      the front of the final one. */
  lemma FilterStep(rs: seq<Rdata>, what: seq<Rdata>, i: nat)
    requires Sorted(rs) && i < |rs| <= COUNT_MAX
    ensures var f := Filter(rs[..i], what, true);
            && Filter(rs[..i + 1], what, true) == (if rs[i] in SetOf(what) then f + [rs[i]] else f)
            && rs[i] !in SetOf(f) && |f| < COUNT_MAX && Sorted(f + [rs[i]])
            && (|Encode(f)| > 4294901757 <==> NoRoomFor(f + [rs[i]]))
            && (NoRoomFor(f + [rs[i]]) && rs[i] in SetOf(what) ==> NoRoomFor(Filter(rs, what, true)))
  {
    var f := Filter(rs[..i], what, true);
    assert rs[..i + 1][..i] == rs[..i] && f + [] == f;
    FilterBelow(rs, what, i);
    assert (f + [rs[i]])[..|f|] == f;
    if NoRoomFor(f + [rs[i]]) && rs[i] in SetOf(what) {
      FilterPrefix(rs, what, i + 1);
      var g := Filter(rs, what, true);
      LongerPrefix(f, g);
    }
  }

  lemma FilterBelow(rs: seq<Rdata>, what: seq<Rdata>, i: nat)
    requires Sorted(rs) && i < |rs|
    ensures var f := Filter(rs[..i], what, true);
            |f| <= i && rs[i] !in SetOf(f) && Sorted(f + [rs[i]])
  {
    var f := Filter(rs[..i], what, true);
    FilterSet(rs[..i], what, true);
    FilterSorted(rs[..i], what, true);
    FilterLen(rs[..i], what);
    LexIrreflexive(rs[i]);
    forall j | 0 <= j < |f|
      ensures LexLess(f[j], rs[i])
    {
      assert f[j] in SetOf(f);
      var k :| 0 <= k < i && rs[..i][k] == f[j];
      assert rs[k] == f[j];
    }
  }

  lemma {:induction false} FilterLen(rs: seq<Rdata>, what: seq<Rdata>)
    ensures |Filter(rs, what, true)| <= |rs|
    decreases |rs|
  {
    if |rs| > 0 {
      FilterLen(rs[..|rs| - 1], what);
    }
  }

  lemma {:induction false} FilterPrefix(rs: seq<Rdata>, what: seq<Rdata>, i: nat)
    requires i <= |rs|
    ensures var f, g := Filter(rs[..i], what, true), Filter(rs, what, true); |f| <= |g| && g[..|f|] == f
    decreases |rs|
  {
    if i == |rs| {
      assert rs[..i] == rs;
    } else {
      var n := |rs| - 1;
      assert rs[..n][..i] == rs[..i];
      FilterPrefix(rs[..n], what, i);
    }
  }

  lemma LongerPrefix(f: seq<Rdata>, g: seq<Rdata>)
    requires |f| < |g| && g[..|f|] == f && |Encode(f)| > 4294901757
    ensures NoRoomFor(g)
  {
    var h := g[..|g| - 1];
    assert h[..|f|] == f;
    EncodeCut(h, |f|);
  }

  /** Sets are stored in one way only: equal sets have equal buffers, and in particular
      the intersection in place stores what the intersection as a new set stores. */
  lemma SameSet(a: seq<Rdata>, b: seq<Rdata>)
    requires Sorted(a) && Sorted(b)
    ensures SetOf(a) == SetOf(b) <==> a == b
    ensures SetOf(a) == SetOf(b) <==> Encode(a) == Encode(b)
  {
    if Encode(a) == Encode(b) {
      EncodeInjective(a, b);
    }
    if SetOf(a) == SetOf(b) {
      SortedUnique(a, b);
    }
  }

  lemma SameBuffer(a: seq<Rdata>, b: seq<Rdata>)
    requires Encode(a) == Encode(b)
    ensures a == b
  {
    EncodeInjective(a, b);
  }

  lemma UpToNothing(rs: seq<Rdata>)
    ensures SetOf(rs[..0]) == {}
  {
  }

  lemma UpToNext(rs: seq<Rdata>, i: nat)
    requires i < |rs|
    ensures SetOf(rs[..i + 1]) == SetOf(rs[..i]) + {rs[i]} && rs[i] in SetOf(rs)
  {
    CutLast(rs, i);
    SetSnoc(rs[..i], rs[i]);
  }

  method SameRecords(b1: Key, b2: Key, count: nat, ghost r1: seq<Rdata>, ghost r2: seq<Rdata>) returns (eq: bool)
    requires b1 == Encode(r1) && b2 == Encode(r2) && count == |r1| == |r2|
    ensures eq <==> r1 == r2
  {
    hide Encode;
    var o1, o2, i := 0, 0, 0;
    StartOffset(r1);
    StartOffset(r2);
    while i < count
      invariant 0 <= i <= count && o1 == Offset(r1, i) && o2 == Offset(r2, i)
      invariant forall j :: 0 <= j < i ==> r1[j] == r2[j]
    {
      RecordAt(r1, i);
      RecordAt(r2, i);
      if Compare(DataAt(b1, o1), DataAt(b2, o2)) != 0 {
        return false;
      }
      o1 := o1 + RSize(LenAt(b1, o1));
      o2 := o2 + RSize(LenAt(b2, o2));
      i := i + 1;
    }
    return true;
  }

  lemma Closed(rs: seq<Rdata>, i: nat)
    requires i < |rs|
    ensures var off, n := Offset(rs, i), RSize(|rs[i]|);
            && off + n <= |Encode(rs)|
            && Encode(rs[..i] + rs[i + 1..]) == Encode(rs)[..off] + Encode(rs)[off + n..]
            && |Encode(rs[..i] + rs[i + 1..])| == |Encode(rs)| - n
  {
    hide Encode, Record;
    RecordAt(rs, i);
    EncodeConcat(rs[..i], rs[i + 1..]);
  }

  lemma WithoutSorted(rs: seq<Rdata>, i: nat)
    requires Sorted(rs) && i < |rs|
    ensures var c := rs[..i] + rs[i + 1..]; Sorted(c) && SetOf(c) == SetOf(rs) - {rs[i]}
  {
    hide LexLess;
    var c := rs[..i] + rs[i + 1..];
    LexIrreflexive(rs[i]);
    forall x
      ensures x in SetOf(c) <==> x in SetOf(rs) && x != rs[i]
    {
      if x in SetOf(c) {
        var j :| 0 <= j < |c| && c[j] == x;
        assert rs[if j < i then j else j + 1] == x;
      }
      if x in SetOf(rs) && x != rs[i] {
        var j :| 0 <= j < |rs| && rs[j] == x;
        assert c[if j < i then j else j - 1] == x;
      }
    }
  }

  /** The search of knot_rdataset_add: behind the last record of larger sets if that is
      smaller, otherwise in front of the first greater one. */
  method Place(b: Key, count: nat, rr: Rdata, ghost rs: seq<Rdata>) returns (dup: bool, off: nat, i: nat)
    requires b == Encode(rs) && count == |rs| && Sorted(rs)
    ensures dup ==> rr in SetOf(rs) && SetOf(rs) == SetOf(rs) + {rr}
    ensures !dup ==> i <= |rs| && off == Offset(rs, i) && rr !in SetOf(rs)
    ensures !dup && i > 0 ==> LexLess(rs[i - 1], rr)
    ensures !dup && i < |rs| ==> LexLess(rr, rs[i])
  {
    hide Encode, LexLess;
    if count > 4 {
      var last := Seek(b, count - 1, rs);
      RecordAt(rs, count - 1);
      if Compare(DataAt(b, last), rr) < 0 {
        InsertSorted(rs, count, rr);
        return false, last + RSize(LenAt(b, last)), count;
      }
    }
    dup, off, i := false, 0, 0;
    StartOffset(rs);
    while i < count
      invariant 0 <= i <= count && off == Offset(rs, i)
      invariant i > 0 ==> LexLess(rs[i - 1], rr)
    {
      RecordAt(rs, i);
      var cmp := Compare(DataAt(b, off), rr);
      if cmp == 0 {
        assert rs[i] in SetOf(rs);
        return true, off, i;
      } else if cmp > 0 {
        InsertSorted(rs, i, rr);
        return;
      }
      off := off + RSize(LenAt(b, off));
      i := i + 1;
    }
    InsertSorted(rs, i, rr);
  }

  lemma Opened(rs: seq<Rdata>, i: nat, r: Rdata)
    requires i <= |rs|
    ensures Offset(rs, i) <= |Encode(rs)|
    ensures Encode(rs[..i] + [r] + rs[i..]) == Encode(rs)[..Offset(rs, i)] + Record(r) + Encode(rs)[Offset(rs, i)..]
    ensures |Encode(rs[..i] + [r] + rs[i..])| == |Encode(rs)| + RSize(|r|)
  {
    hide Encode, Record;
    EncodeCut(rs, i);
    EncodeConcat(rs[..i] + [r], rs[i..]);
    EncodeConcat(rs[..i], [r]);
    EncodeOne(r);
  }
}
