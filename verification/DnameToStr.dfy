/** knot_dname_to_str: printing a name into a given or a growing buffer. */
module DnameToStr {
  import opened Bytes
  import opened Options
  import opened Names
  import opened DnameWire
  import opened DnameText

  // ---- Where a walk over the wire form stands ----

  /** Text after k octets of label j. */
  ghost function Sofar(ls: seq<Label>, j: nat, k: nat): Key
    requires j < |ls| && k <= |ls[j]|
  {
    TextOf(ls[..j]) + EscAll(ls[j][..k])
  }

  ghost predicate StandsAt(ls: seq<Label>, i: nat, j: nat, k: nat)
  {
    j < |ls| && k <= |ls[j]| && i == WireLen(ls[..j]) + k
  }

  /** Octet i of the wire form is octet k of label j. */
  lemma InLabel(ls: seq<Label>, i: nat, j: nat, k: nat)
    requires LabelsOk(ls) && StandsAt(ls, i, j, k) && k < |ls[j]|
    ensures i < WireLen(ls) - 1 && |Wire(ls)| == WireLen(ls) && Wire(ls)[i] == ls[j][k] && StandsAt(ls, i + 1, j, k + 1)
    ensures Sofar(ls, j, k + 1) == Sofar(ls, j, k) + Esc(ls[j][k])
    ensures |Sofar(ls, j, k + 1)| < |Text(ls)|
  {
    hide Packed, TextOf, WireLen, EscAll, LabelsOk, Esc;
    SplitAt(ls, j);
    SplitTextAt(ls, j);
    var l := ls[j];
    assert Wire(ls)[i] == ([|l|] + l)[1 + k];
    EscUpTo(l, k);
  }

  lemma EscUpTo(l: Label, k: nat)
    requires k < |l|
    ensures EscAll(l[..k + 1]) == EscAll(l[..k]) + Esc(l[k]) && |EscAll(l[..k + 1])| <= |EscAll(l)|
  {
    assert l[..k + 1] == l[..k] + [l[k]];
    EscConcat(l[..k], [l[k]]);
    EscOne(l[k]);
    assert l == l[..k + 1] + l[k + 1..];
    EscConcat(l[..k + 1], l[k + 1..]);
  }

  /** After the whole label j comes the length octet of the next label, or the end. */
  lemma AfterLabel(ls: seq<Label>, i: nat, j: nat)
    requires LabelsOk(ls) && j < |ls| && StandsAt(ls, i, j, |ls[j]|)
    ensures |Sofar(ls, j, |ls[j]|)| > 0
    ensures i < WireLen(ls) && Sofar(ls, j, |ls[j]|) + [DOT] == TextOf(ls[..j + 1])
    ensures |TextOf(ls[..j + 1])| <= |Text(ls)|
    ensures j + 1 < |ls| ==> Wire(ls)[i] == |ls[j + 1]| && i + 1 < WireLen(ls)
                             && StandsAt(ls, i + 1, j + 1, 0) && Sofar(ls, j + 1, 0) == TextOf(ls[..j + 1])
    ensures j + 1 == |ls| ==> Wire(ls)[i] == 0 && i + 1 == WireLen(ls) && TextOf(ls[..j + 1]) == Text(ls)
  {
    hide Packed, TextOf, WireLen, EscAll, LabelsOk, Esc;
    SplitAt(ls, j);
    SplitTextAt(ls, j);
    EscLen(ls[j]);
    assert ls[j][..|ls[j]|] == ls[j];
    if j + 1 < |ls| {
      SplitAt(ls, j + 1);
      assert ls[j + 1][..0] == [];
      EscNothing();
    } else {
      assert ls[..j + 1] == ls && ls[j + 1..] == [];
      NothingPacked();
    }
  }

  lemma FirstLength(ls: seq<Label>)
    requires LabelsOk(ls)
    ensures |Wire(ls)| == WireLen(ls)
    ensures |ls| > 0 ==> Wire(ls)[0] == |ls[0]| && StandsAt(ls, 1, 0, 0) && Sofar(ls, 0, 0) == [] && WireLen(ls) > 2
    ensures |ls| == 0 ==> Wire(ls) == [0] && Text(ls) == [DOT]
  {
    if |ls| > 0 {
      assert ls[..0] == [] && ls[0][..0] == [];
      WireLenAtLeast(ls[1..]);
    }
  }

  lemma EscNothing()
    ensures EscAll([]) == []
  {
  }

  lemma EscOne(c: Byte)
    ensures EscAll([c]) == Esc(c)
  {
    var l: Label := [c];
    assert l[1..] == [];
  }

  /** Cutting the name around label j cuts its wire form. */
  lemma SplitAt(ls: seq<Label>, j: nat)
    requires LabelsOk(ls) && j < |ls|
    ensures LabelsOk(ls[..j]) && LabelsOk(ls[j + 1..]) && |Packed(ls[..j])| == WireLen(ls[..j]) - 1
    ensures 1 <= |ls[j]| <= DNAME_MAXLABELLEN && |Wire(ls)| == WireLen(ls)
    ensures Wire(ls) == Packed(ls[..j]) + ([|ls[j]|] + ls[j]) + Wire(ls[j + 1..])
    ensures WireLen(ls) == WireLen(ls[..j]) + |ls[j]| + WireLen(ls[j + 1..]) && WireLen(ls[j + 1..]) >= 1
    ensures WireLen(ls[..j + 1]) == WireLen(ls[..j]) + 1 + |ls[j]|
  {
    hide Packed, WireLen, LabelsOk;
    PartsOk(ls, j);
    var a, l, b := ls[..j], ls[j], ls[j + 1..];
    assert ls[..j + 1] == a + [l];
    assert ls == ls[..j + 1] + b;
    PackedSnoc(a, l);
    PackedConcat(ls[..j + 1], b);
    WireLenAtLeast(b);
  }

  lemma SplitTextAt(ls: seq<Label>, j: nat)
    requires j < |ls|
    ensures TextOf(ls[..j + 1]) == TextOf(ls[..j]) + EscAll(ls[j]) + [DOT]
    ensures TextOf(ls) == TextOf(ls[..j + 1]) + TextOf(ls[j + 1..])
  {
    hide TextOf, EscAll;
    TextSnoc(ls[..j], ls[j]);
    CutLast(ls, j);
    TextConcat(ls[..j + 1], ls[j + 1..]);
    CutBefore(ls, j + 1);
  }

  lemma TextSnoc(a: seq<Label>, l: Label)
    ensures TextOf(a + [l]) == TextOf(a) + EscAll(l) + [DOT]
  {
    hide TextOf, EscAll;
    TextConcat(a, [l]);
    OneText(l);
  }

  lemma PartsOk(ls: seq<Label>, j: nat)
    requires LabelsOk(ls) && j < |ls|
    ensures LabelsOk(ls[..j]) && LabelsOk(ls[..j + 1]) && LabelsOk(ls[j + 1..]) && 1 <= |ls[j]| <= DNAME_MAXLABELLEN
  {
  }

  lemma OneText(l: Label)
    ensures TextOf([l]) == EscAll(l) + [DOT]
  {
    var one: seq<Label> := [l];
    assert one[1..] == [];
  }

  // ---- Writing characters ----

  /** realloc to a greater size. */
  method Extend(res: array<Byte>, more: nat) returns (r: array<Byte>)
    ensures fresh(r) && r.Length == res.Length + more && r[..res.Length] == res[..]
  {
    r := new Byte[res.Length + more];
    var i := 0;
    while i < res.Length
      invariant 0 <= i <= res.Length
      invariant r[..i] == res[..i]
    {
      r[i] := res[i];
      i := i + 1;
    }
  }

  /** Room for an escape of n characters: checked in a given buffer, made in a growing one. */
  method Room(res0: array<Byte>, strLen: nat, n: nat, grow: bool) returns (ok: bool, res: array<Byte>)
    requires strLen < res0.Length && n > 0 && (grow ==> strLen + 2 <= res0.Length)
    ensures ok <==> grow || strLen + n < res0.Length
    ensures ok ==> strLen + n < res.Length && res[..strLen] == res0[..strLen]
    ensures if grow then fresh(res) && res.Length == res0.Length + n - 1 else res == res0
  {
    if grow {
      res := Extend(res0, n - 1);
      assert res[..strLen] == res[..res0.Length][..strLen] == res0[..strLen];
      return true, res;
    }
    return res0.Length > strLen + n, res0;
  }

  /** Writes one octet of a label; a growing buffer is extended for escapes. */
  method PrintByte(res0: array<Byte>, strLen: nat, c: Byte, grow: bool) returns (ok: bool, res: array<Byte>)
    requires strLen < res0.Length && (grow ==> strLen + 2 <= res0.Length)
    modifies res0
    ensures ok <==> grow || strLen + |Esc(c)| < res0.Length
    ensures ok ==> strLen + |Esc(c)| < res.Length && res[..strLen + |Esc(c)|] == old(res0[..strLen]) + Esc(c)
    ensures !grow ==> res == res0
    ensures grow ==> (res == res0 || fresh(res)) && res.Length == res0.Length + |Esc(c)| - 1
  {
    ok, res := true, res0;
    if IsRaw(c) {
      if res.Length <= strLen + 1 {
        return false, res;
      }
      res[strLen] := c;
      assert res[..strLen + 1] == old(res0[..strLen]) + [c];
    } else if IsPunct(c) && c != 35 {
      ok, res := Room(res, strLen, 2, grow);
      if ok {
        res[strLen], res[strLen + 1] := BACKSLASH, c;
        assert res[..strLen + 2] == old(res0[..strLen]) + [BACKSLASH, c];
      }
    } else {
      ok, res := Room(res, strLen, 4, grow);
      if ok {
        PrintDecimal(res, strLen, DecimalEscape(c));
      }
    }
  }

  /** snprintf of a decimal escape and a zero octet. */
  method PrintDecimal(res: array<Byte>, at: nat, e: Key)
    requires |e| == 4 && at + 4 < res.Length
    modifies res
    ensures res[..at + 4] == old(res[..at]) + e
  {
    res[at], res[at + 1], res[at + 2], res[at + 3], res[at + 4] := e[0], e[1], e[2], e[3], 0;
    assert res[at..at + 4] == e;
    assert res[..at + 4] == res[..at] + res[at..at + 4];
  }

  // ---- The whole name ----

  /** Where the loop stands after i octets, with labelLen octets of the label to come. */
  ghost predicate Progress(ls: seq<Label>, i: nat, j: nat, labelLen: nat, text: Key)
    requires LabelsOk(ls)
  {
    if i == 0 then labelLen == 0 && text == []
    else if i == WireLen(ls) then text == Text(ls)
    else j < |ls| && labelLen <= |ls[j]| && StandsAt(ls, i, j, |ls[j]| - labelLen)
         && text == Sofar(ls, j, |ls[j]| - labelLen)
  }

  /** A length octet: a dot for the label before it, if any. */
  lemma AtLength(ls: seq<Label>, i: nat, j: nat, text: Key) returns (j': nat)
    requires LabelsOk(ls) && Progress(ls, i, j, 0, text) && i < WireLen(ls)
    ensures |Wire(ls)| == WireLen(ls)
    ensures Progress(ls, i + 1, j', Wire(ls)[i], if |text| > 0 || WireLen(ls) == 1 then text + [DOT] else text)
    ensures |text| > 0 || WireLen(ls) == 1 ==> |text| < |Text(ls)|
  {
    hide Packed, TextOf, EscAll, Esc;
    FirstLength(ls);
    if i == 0 {
      j' := 0;
    } else {
      AfterLabel(ls, i, j);
      j' := j + 1;
    }
  }

  lemma AtOctet(ls: seq<Label>, i: nat, j: nat, labelLen: nat, text: Key)
    requires LabelsOk(ls) && Progress(ls, i, j, labelLen, text) && labelLen > 0 && i < WireLen(ls)
    ensures |Wire(ls)| == WireLen(ls) && i + 1 < WireLen(ls)
    ensures Progress(ls, i + 1, j, labelLen - 1, text + Esc(Wire(ls)[i]))
    ensures |text + Esc(Wire(ls)[i])| < |Text(ls)|
  {
    hide Packed, TextOf, EscAll, Esc;
    InLabel(ls, i, j, |ls[j]| - labelLen);
  }

  method PrintName(res0: array<Byte>, m: Key, name: nat, size: nat, grow: bool, ghost ls: seq<Label>)
    returns (ok: bool, res: array<Byte>)
    requires LabelsOk(ls) && size == WireLen(ls) && size < res0.Length
    requires name + size <= |m| && m[name..name + size] == Wire(ls)
    modifies res0
    ensures ok <==> grow || |Text(ls)| < res0.Length
    ensures ok ==> |Text(ls)| < res.Length && res[..|Text(ls)|] == Text(ls) && res[|Text(ls)|] == 0
    ensures if grow then res == res0 || fresh(res) else res == res0
  {
    hide Packed, TextOf, EscAll, Esc, Progress, LabelsOk, WireLen, Text;
    ProgressStart(ls);
    ok, res := true, res0;
    var labelLen: nat, strLen: nat, i: nat := 0, 0, 0;
    ghost var j: nat := 0;
    while i < size
      invariant 0 <= i <= size && strLen < res.Length
      invariant if grow then res == res0 || fresh(res) else res == res0
      invariant grow ==> res.Length - strLen >= size + 1 - i
      invariant !grow ==> res0.Length == res.Length
      invariant Progress(ls, i, j, labelLen, res[..strLen])
    {
      var c := m[name + i];
      assert c == m[name..name + size][i] == Wire(ls)[i];
      if labelLen == 0 {
        j := AtLength(ls, i, j, res[..strLen]);
        labelLen := c;
        if strLen > 0 || size == 1 {
          if res.Length <= strLen + 1 {
            return false, res;
          }
          ghost var text := res[..strLen];
          res[strLen] := DOT;
          strLen := strLen + 1;
          assert res[..strLen] == text + [DOT];
        }
      } else {
        AtOctet(ls, i, j, labelLen, res[..strLen]);
        ok, res := PrintByte(res, strLen, c, grow);
        if !ok {
          return false, res;
        }
        strLen := strLen + |Esc(c)|;
        labelLen := labelLen - 1;
      }
      i := i + 1;
    }
    ProgressEnd(ls, j, labelLen, res[..strLen]);
    res[strLen] := 0;
    return true, res;
  }

  lemma ProgressStart(ls: seq<Label>)
    requires LabelsOk(ls)
    ensures Progress(ls, 0, 0, 0, []) && |Wire(ls)| == WireLen(ls) >= 1
  {
    WireLenAtLeast(ls);
  }

  lemma ProgressEnd(ls: seq<Label>, j: nat, labelLen: nat, text: Key)
    requires LabelsOk(ls) && Progress(ls, WireLen(ls), j, labelLen, text)
    ensures text == Text(ls)
  {
    WireLenAtLeast(ls);
  }

  /** knot_dname_to_str. Printing into memory of its own never fails; a given buffer
      must hold the text, and no less than the wire form, and a zero octet. */
  method ToStr(dst: array?<Byte>, m: Key, name: Option<nat>, ghost ls: seq<Label>) returns (res: array?<Byte>)
    requires name.Some? ==> NameAt(m, |m|, None, name.value, ls)
    modifies if dst == null then {} else {dst}
    ensures res != null <==> name.Some? && (dst == null || (|Text(ls)| < dst.Length && WireLen(ls) < dst.Length))
    ensures res != null ==> |Text(ls)| < res.Length && res[..|Text(ls)|] == Text(ls) && res[|Text(ls)|] == 0
    ensures res != null ==> if dst == null then fresh(res) else res == dst
  {
    hide Chain, Text, LabelsOk, WireLen;
    if name.None? {
      return null;
    }
    ChainIsWire(m, |m|, name.value, ls);
    var size := NameSize(m, |m|, None, name.value, ls);
    var allocSize := if dst == null then size + 1 else dst.Length;
    if allocSize < size + 1 {
      return null;
    }
    var buf: array<Byte>;
    if dst == null {
      buf := new Byte[allocSize];
    } else {
      buf := dst;
    }
    var ok, r := PrintName(buf, m, name.value, size, dst == null, ls);
    return if ok then r else null;
  }

  /** Buffers that hold the text and its zero octet: refused is exactly one without an
      octet to spare, for a name other than the root in which nothing is escaped. */
  method ToStrFits(dst: array<Byte>, m: Key, name: nat, ghost ls: seq<Label>) returns (res: array?<Byte>)
    requires NameAt(m, |m|, None, name, ls) && |Text(ls)| < dst.Length
    modifies dst
    ensures res == null <==> dst.Length == |Text(ls)| + 1 && |ls| > 0 && AllRaw(ls)
    ensures res != null ==> res == dst && dst[..|Text(ls)|] == Text(ls) && dst[|Text(ls)|] == 0
  {
    hide Chain, Text, AllRaw, WireLen;
    WireLonger(ls);
    res := ToStr(dst, m, Some(name), ls);
  }

  /** An input: the name of the single letter a has a text of two characters, but three
      octets are refused. */
  method LetterRefused(dst: array<Byte>) returns (res: array?<Byte>)
    requires dst.Length == 3
    modifies dst
    ensures |Text([[97]])| == 2 && res == null
  {
    ghost var ls: seq<Label> := [[97]];
    LetterText();
    var m: Key := [1, 97, 0];
    res := ToStrFits(dst, m, 0, ls);
  }

  lemma LetterText()
    ensures var ls: seq<Label> := [[97]];
            && Text(ls) == [97, DOT] && AllRaw(ls) && NameAt([1, 97, 0], 3, None, 0, ls)
  {
    var ls: seq<Label> := [[97]];
    OneText(ls[0]);
    EscOne(97);
    assert ls[1..] == [];
    assert Wire(ls) == [1, 97, 0];
    UncompressedName(ls);
  }

  /** A buffer of 1005 octets is always enough. */
  method ToStrMax(dst: array<Byte>, m: Key, name: nat, ghost ls: seq<Label>) returns (res: array?<Byte>)
    requires NameAt(m, |m|, None, name, ls) && dst.Length == DNAME_TXT_MAXLEN + 1
    modifies dst
    ensures res == dst && |Text(ls)| < dst.Length && dst[..|Text(ls)|] == Text(ls) && dst[|Text(ls)|] == 0
  {
    hide Text;
    ChainIsWire(m, |m|, name, ls);
    TextBound(ls);
    res := ToStr(dst, m, Some(name), ls);
  }
}
