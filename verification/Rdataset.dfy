/** Packed sets of resource record data (rdataset.c, rdata.h): records with a 16-bit
    length, padded to even size, back to back in one buffer, in the order of
    section 6.3 of RFC 4034. */
module Rdataset {
  import opened Bytes

  type Rdata = r: Key | |r| <= 65535

  const COUNT_MAX := 65535
  const SIZE_MAX := 0xFFFFFFFF - RSize(65535)

  // ---- One record ----

  /** knot_rdata_size. */
  function RSize(len: nat): nat {
    2 + len + len % 2
  }

  /** knot_rdata_init: length (low octet first), data, padding. */
  function Record(r: Rdata): (b: Key)
    ensures |b| == RSize(|r|)
  {
    [|r| % 256, |r| / 256] + r + if |r| % 2 == 1 then [0] else []
  }

  function LenAt(b: Key, off: nat): nat
    requires off + 2 <= |b|
  {
    b[off] as nat + 256 * b[off + 1] as nat
  }

  function DataAt(b: Key, off: nat): Key
    requires off + 2 <= |b| && off + 2 + LenAt(b, off) <= |b|
  {
    b[off + 2..off + 2 + LenAt(b, off)]
  }

  // ---- The buffer ----

  ghost function Encode(rs: seq<Rdata>): Key {
    if |rs| == 0 then [] else Record(rs[0]) + Encode(rs[1..])
  }

  ghost predicate Sorted(rs: seq<Rdata>) {
    forall i, j :: 0 <= i < j < |rs| ==> LexLess(rs[i], rs[j])
  }

  ghost function Offset(rs: seq<Rdata>, i: nat): nat
    requires i <= |rs|
  {
    |Encode(rs[..i])|
  }

  lemma {:induction false} EncodeConcat(a: seq<Rdata>, b: seq<Rdata>)
    ensures Encode(a + b) == Encode(a) + Encode(b)
    decreases |a|
  {
    if |a| == 0 {
      assert a + b == b;
    } else {
      assert (a + b)[1..] == a[1..] + b;
      EncodeConcat(a[1..], b);
    }
  }

  lemma EncodeOne(r: Rdata)
    ensures Encode([r]) == Record(r)
  {
    var one: seq<Rdata> := [r];
    assert one[1..] == [];
  }

  /** Cutting the records cuts the buffer. */
  lemma EncodeCut(rs: seq<Rdata>, i: nat)
    requires i <= |rs|
    ensures Encode(rs) == Encode(rs[..i]) + Encode(rs[i..])
  {
    hide Encode;
    assert rs == rs[..i] + rs[i..];
    EncodeConcat(rs[..i], rs[i..]);
  }

  /** The record at position i is found at its offset, and the next one behind it. */
  lemma RecordAt(rs: seq<Rdata>, i: nat)
    requires i < |rs|
    ensures var b, off := Encode(rs), Offset(rs, i);
            && off + RSize(|rs[i]|) <= |b| && LenAt(b, off) == |rs[i]| && DataAt(b, off) == rs[i]
            && Offset(rs, i + 1) == off + RSize(|rs[i]|)
            && b == Encode(rs[..i]) + Record(rs[i]) + Encode(rs[i + 1..])
  {
    hide Encode;
    var a, r, c := Encode(rs[..i]), Record(rs[i]), Encode(rs[i + 1..]);
    EncodeCut(rs, i + 1);
    CutLast(rs, i);
    EncodeConcat(rs[..i], [rs[i]]);
    EncodeOne(rs[i]);
    ReadRecord(a, rs[i], c);
    assert Encode(rs) == a + r + c;
  }

  lemma CutLast(rs: seq<Rdata>, i: nat)
    requires i < |rs|
    ensures rs[..i + 1] == rs[..i] + [rs[i]]
  {
  }

  lemma ReadRecord(a: Key, r: Rdata, c: Key)
    ensures var b := a + Record(r) + c;
            LenAt(b, |a|) == |r| && DataAt(b, |a|) == r
  {
    var b := a + Record(r) + c;
    assert b[|a|] == Record(r)[0] && b[|a| + 1] == Record(r)[1];
    assert |r| == |r| % 256 + 256 * (|r| / 256);
    assert b[|a| + 2..|a| + 2 + |r|] == r;
  }

  /** How a record lies in memory, octet by octet: its length, low octet first, its data,
      and a zero octet if that makes the size even. All records start at even offsets. */
  lemma RecordLayout(rs: seq<Rdata>, i: nat)
    requires i < |rs|
    ensures var b, off, n := Encode(rs), Offset(rs, i), |rs[i]|;
            && off % 2 == 0 && Offset(rs, i + 1) % 2 == 0 && Offset(rs, i + 1) <= |b|
            && Offset(rs, i + 1) - off == 2 + n + n % 2
            && b[off] == n % 256 && b[off + 1] == n / 256 && b[off + 2..off + 2 + n] == rs[i]
            && (n % 2 == 1 ==> b[off + 2 + n] == 0)
  {
    hide Encode;
    RecordAt(rs, i);
    EvenOffset(rs, i);
    OctetsOf(Encode(rs[..i]), rs[i], Encode(rs[i + 1..]));
  }

  lemma {:induction false} EvenSize(rs: seq<Rdata>)
    ensures |Encode(rs)| % 2 == 0
    decreases |rs|
  {
    hide Record;
    if |rs| > 0 {
      EvenSize(rs[1..]);
      EvenRecord(|rs[0]|, |Encode(rs[1..])|);
    }
  }

  lemma EvenRecord(n: nat, m: nat)
    requires m % 2 == 0
    ensures RSize(n) % 2 == 0 && (RSize(n) + m) % 2 == 0 && 2 + n <= RSize(n) <= 3 + n
  {
  }

  lemma EvenOffset(rs: seq<Rdata>, i: nat)
    requires i < |rs|
    ensures Offset(rs, i) % 2 == 0 && Offset(rs, i + 1) % 2 == 0
  {
    EvenSize(rs[..i]);
    EvenSize(rs[..i + 1]);
  }

  lemma OctetsOf(a: Key, r: Rdata, c: Key)
    ensures var b, off := a + Record(r) + c, |a|;
            && b[off] == |r| % 256 && b[off + 1] == |r| / 256 && b[off + 2..off + 2 + |r|] == r
            && (|r| % 2 == 1 ==> b[off + 2 + |r|] == 0)
  {
    var b, w := a + Record(r) + c, Record(r);
    assert forall k :: 0 <= k < |w| ==> b[|a| + k] == w[k];
    assert w[2..2 + |r|] == r;
    assert |r| % 2 == 1 ==> w[2 + |r|] == 0;
    assert b[|a| + 2..|a| + 2 + |r|] == r;
  }

  /** The buffer determines its records. */
  lemma {:induction false} EncodeInjective(a: seq<Rdata>, b: seq<Rdata>)
    requires Encode(a) == Encode(b)
    ensures a == b
    decreases |a|
  {
    if |a| > 0 && |b| > 0 {
      FirstRecord(a);
      FirstRecord(b);
      EncodeInjective(a[1..], b[1..]);
      assert a == [a[0]] + a[1..] && b == [b[0]] + b[1..];
    }
  }

  lemma EncodeCons(a: seq<Rdata>)
    requires |a| > 0
    ensures Encode(a) == Record(a[0]) + Encode(a[1..])
  {
  }

  lemma FirstRecord(a: seq<Rdata>)
    requires |a| > 0
    ensures var b := Encode(a); |b| >= RSize(|a[0]|) && LenAt(b, 0) == |a[0]| && DataAt(b, 0) == a[0]
    ensures Encode(a[1..]) == Encode(a)[RSize(|a[0]|)..]
  {
    hide Encode, Record;
    EncodeCons(a);
    ReadRecord([], a[0], Encode(a[1..]));
    assert [] + Record(a[0]) == Record(a[0]);
  }

  // ---- Sorted lists as sets ----

  ghost function SetOf(rs: seq<Rdata>): set<Rdata> {
    set i | 0 <= i < |rs| :: rs[i]
  }

  lemma EmptySet(a: seq<Rdata>)
    ensures SetOf(a) == {} <==> a == []
  {
    if |a| > 0 {
      assert a[0] in SetOf(a);
    }
  }

  /** Sorted lists of the same set are the same list. */
  lemma {:induction false} SortedUnique(a: seq<Rdata>, b: seq<Rdata>)
    requires Sorted(a) && Sorted(b) && SetOf(a) == SetOf(b)
    ensures a == b
    decreases |a|
  {
    EmptySet(a);
    EmptySet(b);
    if |a| > 0 {
      var n, m := |a| - 1, |b| - 1;
      SameLast(a, b);
      forall x
        ensures x in SetOf(a[..n]) <==> x in SetOf(b[..m])
      {
        LastElsewhere(a, x);
        LastElsewhere(b, x);
      }
      SortedUnique(a[..n], b[..m]);
      assert a == a[..n] + [a[n]] && b == b[..m] + [b[m]];
    }
  }

  lemma SameLast(a: seq<Rdata>, b: seq<Rdata>)
    requires Sorted(a) && Sorted(b) && SetOf(a) == SetOf(b) && |a| > 0 && |b| > 0
    ensures a[|a| - 1] == b[|b| - 1]
  {
    var x, y := a[|a| - 1], b[|b| - 1];
    assert x in SetOf(b) && y in SetOf(a);
    var i :| 0 <= i < |b| && b[i] == x;
    var j :| 0 <= j < |a| && a[j] == y;
    LexTotal(x, y);
  }

  lemma LastElsewhere(a: seq<Rdata>, x: Rdata)
    requires Sorted(a) && |a| > 0
    ensures x in SetOf(a[..|a| - 1]) <==> x in SetOf(a) && x != a[|a| - 1]
  {
    LexIrreflexive(x);
    if x in SetOf(a) {
      var i :| 0 <= i < |a| && a[i] == x;
      assert i < |a| - 1 ==> a[..|a| - 1][i] == x;
    }
    if x in SetOf(a[..|a| - 1]) {
      var i :| 0 <= i < |a| - 1 && a[..|a| - 1][i] == x;
      assert a[i] == x;
    }
  }

  /** The place of a new record: everything before is smaller, everything after greater. */
  lemma InsertSorted(rs: seq<Rdata>, i: nat, r: Rdata)
    requires Sorted(rs) && i <= |rs|
    requires i > 0 ==> LexLess(rs[i - 1], r)
    requires i < |rs| ==> LexLess(r, rs[i])
    ensures Sorted(rs[..i] + [r] + rs[i..]) && SetOf(rs[..i] + [r] + rs[i..]) == SetOf(rs) + {r} && r !in SetOf(rs)
  {
    hide LexLess;
    AroundSorted(rs, i, r);
    var c := rs[..i] + [r] + rs[i..];
    assert c[i] == r;
    forall x
      ensures x in SetOf(c) <==> x in SetOf(rs) || x == r
    {
      if x in SetOf(rs) {
        var j :| 0 <= j < |rs| && rs[j] == x;
        assert c[if j < i then j else j + 1] == x;
      }
      if x in SetOf(c) && x != r {
        var j :| 0 <= j < |c| && c[j] == x;
        assert rs[if j < i then j else j - 1] == x;
      }
    }
    if r in SetOf(rs) {
      var j :| 0 <= j < |rs| && rs[j] == r;
      LexIrreflexive(r);
    }
  }

  lemma AroundSorted(rs: seq<Rdata>, i: nat, r: Rdata)
    requires Sorted(rs) && i <= |rs|
    requires i > 0 ==> LexLess(rs[i - 1], r)
    requires i < |rs| ==> LexLess(r, rs[i])
    ensures forall j :: 0 <= j < i ==> LexLess(rs[j], r)
    ensures forall j :: i <= j < |rs| ==> LexLess(r, rs[j])
  {
    forall j | 0 <= j < i
      ensures LexLess(rs[j], r)
    {
      if j < i - 1 {
        LexTransitive(rs[j], rs[i - 1], r);
      }
    }
    forall j | i <= j < |rs|
      ensures LexLess(r, rs[j])
    {
      if j > i {
        LexTransitive(r, rs[i], rs[j]);
      }
    }
  }

  /** Records that are, or are not, in another list, in their order. */
  ghost function Filter(rs: seq<Rdata>, what: seq<Rdata>, keep: bool): seq<Rdata> {
    if |rs| == 0 then []
    else
      var n := |rs| - 1;
      Filter(rs[..n], what, keep) + if (rs[n] in SetOf(what)) == keep then [rs[n]] else []
  }

  lemma {:induction false} FilterSet(rs: seq<Rdata>, what: seq<Rdata>, keep: bool)
    ensures SetOf(Filter(rs, what, keep)) == if keep then SetOf(rs) * SetOf(what) else SetOf(rs) - SetOf(what)
    decreases |rs|
  {
    hide SetOf;
    if |rs| > 0 {
      var n := |rs| - 1;
      FilterSet(rs[..n], what, keep);
      SetSnoc(rs[..n], rs[n]);
      assert rs == rs[..n] + [rs[n]];
      var f := Filter(rs[..n], what, keep);
      assert f + [] == f;
      SetSnoc(f, rs[n]);
    } else {
      EmptySet(rs);
    }
  }

  lemma {:induction false} FilterSorted(rs: seq<Rdata>, what: seq<Rdata>, keep: bool)
    requires Sorted(rs)
    ensures Sorted(Filter(rs, what, keep))
    decreases |rs|
  {
    if |rs| > 0 {
      var n := |rs| - 1;
      FilterSorted(rs[..n], what, keep);
      FilterSet(rs[..n], what, keep);
      var f := Filter(rs[..n], what, keep);
      forall i | 0 <= i < |f|
        ensures LexLess(f[i], rs[n])
      {
        assert f[i] in SetOf(f);
        var j :| 0 <= j < n && rs[..n][j] == f[i];
        assert rs[j] == f[i];
      }
    }
  }

  lemma SetSnoc(rs: seq<Rdata>, r: Rdata)
    ensures SetOf(rs + [r]) == SetOf(rs) + {r}
  {
    var c := rs + [r];
    assert c[|rs|] == r;
    assert forall i :: 0 <= i < |rs| ==> c[i] == rs[i];
  }
}
