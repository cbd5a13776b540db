/** Domain names as lists of labels, leftmost label first, and their uncompressed
    wire form (section 3.1 of RFC 1035). */
module Names {
  import opened Bytes

  type Label = Key

  const DNAME_MAXLEN := 255
  const DNAME_MAXLABELLEN := 63

  /** Octets of the wire form, with the terminal zero label. */
  function WireLen(ls: seq<Label>): nat {
    if |ls| == 0 then 1 else 1 + |ls[0]| + WireLen(ls[1..])
  }

  ghost predicate LabelsOk(ls: seq<Label>) {
    forall i :: 0 <= i < |ls| ==> 1 <= |ls[i]| <= DNAME_MAXLABELLEN
  }

  ghost predicate ValidName(ls: seq<Label>) {
    LabelsOk(ls) && WireLen(ls) <= DNAME_MAXLEN
  }

  /** Labels with their length octets, without the terminal label. */
  ghost function Packed(ls: seq<Label>): (w: Key)
    requires LabelsOk(ls)
    ensures |w| == WireLen(ls) - 1
  {
    if |ls| == 0 then [] else [|ls[0]|] + ls[0] + Packed(ls[1..])
  }

  ghost function Wire(ls: seq<Label>): Key
    requires LabelsOk(ls)
  {
    Packed(ls) + [0]
  }

  lemma {:induction false} PackedConcat(a: seq<Label>, b: seq<Label>)
    requires LabelsOk(a) && LabelsOk(b)
    ensures LabelsOk(a + b) && Packed(a + b) == Packed(a) + Packed(b)
    ensures WireLen(a + b) == WireLen(a) + WireLen(b) - 1
    decreases |a|
  {
    if |a| == 0 {
      assert a + b == b;
    } else {
      assert (a + b)[1..] == a[1..] + b;
      PackedConcat(a[1..], b);
    }
  }

  lemma {:induction false} PackedSnoc(a: seq<Label>, l: Label)
    requires LabelsOk(a) && 1 <= |l| <= DNAME_MAXLABELLEN
    ensures LabelsOk(a + [l]) && Packed(a + [l]) == Packed(a) + [|l|] + l
    ensures WireLen(a + [l]) == WireLen(a) + 1 + |l|
  {
    PackedConcat(a, [l]);
    assert [l][1..] == [];
    assert Packed([l]) == [|l|] + l;
  }

  lemma {:induction false} WireLenConcat(a: seq<Label>, b: seq<Label>)
    ensures WireLen(a + b) == WireLen(a) + WireLen(b) - 1
    decreases |a|
  {
    if |a| == 0 {
      assert a + b == b;
    } else {
      assert (a + b)[1..] == a[1..] + b;
      WireLenConcat(a[1..], b);
    }
  }

  lemma CutBefore(ls: seq<Label>, j: nat)
    requires j <= |ls|
    ensures ls == ls[..j] + ls[j..]
  {
  }

  lemma CutLast(ls: seq<Label>, j: nat)
    requires j < |ls|
    ensures ls[..j + 1] == ls[..j] + [ls[j]]
  {
  }
}
