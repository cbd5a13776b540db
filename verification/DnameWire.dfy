/** Names in packets (dname.c, packet/wire.h): checking, measuring and unpacking names
    with compression pointers (section 4.1.4 of RFC 1035). A pointer into memory is a
    position in `m`; only positions below `endp` may be read. */
module DnameWire {
  import opened Bytes
  import opened Options
  import opened Names

  predicate IsPointer(b: Byte) {
    b >= 0xC0
  }

  function GetPointer(m: Key, pos: nat): nat
    requires pos + 1 < |m| && IsPointer(m[pos])
  {
    (m[pos] as int) * 256 + m[pos + 1] as int - 0xC000
  }

  // ---- What a position in memory means as a name ----

  /** The compression pointer at pos is whole and leads backwards to q. */
  ghost predicate LeadsTo(m: Key, endp: nat, pkt: Option<nat>, pos: nat, q: nat)
    requires endp <= |m|
  {
    pos + 2 <= endp && IsPointer(m[pos]) && pkt.Some? && q == pkt.value + GetPointer(m, pos) < pos
  }

  /** A plain label starts at pos, and the next label at q. */
  ghost predicate LabelAt(m: Key, endp: nat, pos: nat, l: Label, q: nat)
    requires endp <= |m|
  {
    && pos < endp && 1 <= m[pos] <= DNAME_MAXLABELLEN
    && q == pos + 1 + m[pos] < endp && l == m[pos + 1..q]
  }

  /** The labels read from pos on, through any pointers, up to a zero label. */
  ghost predicate Chain(m: Key, endp: nat, pkt: Option<nat>, pos: nat, ls: seq<Label>)
    requires endp <= |m|
    decreases |ls|, pos
  {
    pos < endp &&
    if m[pos] == 0 then ls == []
    else if IsPointer(m[pos]) then
      exists q: nat :: LeadsTo(m, endp, pkt, pos, q) && q < pos && Chain(m, endp, pkt, q, ls)
    else
      |ls| > 0 && LabelAt(m, endp, pos, ls[0], pos + 1 + m[pos]) && Chain(m, endp, pkt, pos + 1 + m[pos], ls[1..])
  }

  lemma {:induction false} ChainUnique(m: Key, endp: nat, pkt: Option<nat>, pos: nat, a: seq<Label>, b: seq<Label>)
    requires endp <= |m| && Chain(m, endp, pkt, pos, a) && Chain(m, endp, pkt, pos, b)
    ensures a == b
    decreases |a|, pos
  {
    if m[pos] == 0 {
    } else if IsPointer(m[pos]) {
      var q: nat :| LeadsTo(m, endp, pkt, pos, q) && q < pos && Chain(m, endp, pkt, q, a);
      ChainUnique(m, endp, pkt, q, a, b);
    } else {
      ChainUnique(m, endp, pkt, pos + 1 + m[pos], a[1..], b[1..]);
      assert a == [a[0]] + a[1..] && b == [b[0]] + b[1..];
    }
  }

  lemma {:induction false} ChainLabels(m: Key, endp: nat, pkt: Option<nat>, pos: nat, ls: seq<Label>)
    requires endp <= |m| && Chain(m, endp, pkt, pos, ls)
    ensures LabelsOk(ls)
    decreases |ls|, pos
  {
    if m[pos] == 0 {
    } else if IsPointer(m[pos]) {
      var q: nat :| LeadsTo(m, endp, pkt, pos, q) && q < pos && Chain(m, endp, pkt, q, ls);
      ChainLabels(m, endp, pkt, q, ls);
    } else {
      ChainLabels(m, endp, pkt, pos + 1 + m[pos], ls[1..]);
      assert forall i :: 0 < i < |ls| ==> ls[i] == ls[1..][i - 1];
    }
  }

  /** Reading the labels `done` from `start` on leads to `q`. */
  ghost predicate Walk(m: Key, endp: nat, pkt: Option<nat>, start: nat, done: seq<Label>, q: nat)
    requires endp <= |m|
    decreases |done|, start
  {
    || (start == q && done == [])
    || (exists r: nat :: LeadsTo(m, endp, pkt, start, r) && r < start && Walk(m, endp, pkt, r, done, q))
    || (|done| > 0 && exists r: nat :: LabelAt(m, endp, start, done[0], r) && Walk(m, endp, pkt, r, done[1..], q))
  }

  lemma WalkStart(m: Key, endp: nat, pkt: Option<nat>, start: nat)
    requires endp <= |m|
    ensures Walk(m, endp, pkt, start, [], start)
  {
  }

  lemma {:induction false} WalkHop(m: Key, endp: nat, pkt: Option<nat>, start: nat, done: seq<Label>, q: nat, r: nat)
    requires endp <= |m| && Walk(m, endp, pkt, start, done, q) && LeadsTo(m, endp, pkt, q, r)
    ensures Walk(m, endp, pkt, start, done, r)
    decreases |done|, start
  {
    if start == q && done == [] {
      assert Walk(m, endp, pkt, r, done, r);
    } else if x: nat :| LeadsTo(m, endp, pkt, start, x) && x < start && Walk(m, endp, pkt, x, done, q) {
      WalkHop(m, endp, pkt, x, done, q, r);
    } else {
      var x: nat :| LabelAt(m, endp, start, done[0], x) && Walk(m, endp, pkt, x, done[1..], q);
      WalkHop(m, endp, pkt, x, done[1..], q, r);
    }
  }

  lemma {:induction false} WalkLabel(m: Key, endp: nat, pkt: Option<nat>, start: nat, done: seq<Label>,
                                     q: nat, l: Label, r: nat)
    requires endp <= |m| && Walk(m, endp, pkt, start, done, q) && LabelAt(m, endp, q, l, r)
    ensures Walk(m, endp, pkt, start, done + [l], r)
    decreases |done|, start
  {
    if start == q && done == [] {
      assert (done + [l])[1..] == [] && (done + [l])[0] == l;
      assert Walk(m, endp, pkt, r, [], r);
    } else if x: nat :| LeadsTo(m, endp, pkt, start, x) && x < start && Walk(m, endp, pkt, x, done, q) {
      WalkLabel(m, endp, pkt, x, done, q, l, r);
    } else {
      var x: nat :| LabelAt(m, endp, start, done[0], x) && Walk(m, endp, pkt, x, done[1..], q);
      WalkLabel(m, endp, pkt, x, done[1..], q, l, r);
      assert (done + [l])[1..] == done[1..] + [l] && (done + [l])[0] == done[0];
    }
  }

  /** What lies beyond a walk completes the chain. */
  lemma {:induction false} WalkThenChain(m: Key, endp: nat, pkt: Option<nat>, start: nat, done: seq<Label>,
                                         q: nat, rest: seq<Label>)
    requires endp <= |m| && Walk(m, endp, pkt, start, done, q) && Chain(m, endp, pkt, q, rest)
    ensures Chain(m, endp, pkt, start, done + rest)
    decreases |done|, start
  {
    if start == q && done == [] {
      assert done + rest == rest;
    } else if x: nat :| LeadsTo(m, endp, pkt, start, x) && x < start && Walk(m, endp, pkt, x, done, q) {
      WalkThenChain(m, endp, pkt, x, done, q, rest);
    } else {
      var x: nat :| LabelAt(m, endp, start, done[0], x) && Walk(m, endp, pkt, x, done[1..], q);
      WalkThenChain(m, endp, pkt, x, done[1..], q, rest);
      assert (done + rest)[1..] == done[1..] + rest && (done + rest)[0] == done[0];
    }
  }

  lemma ChainHop(m: Key, endp: nat, pkt: Option<nat>, pos: nat, q: nat, ls: seq<Label>)
    requires endp <= |m| && Chain(m, endp, pkt, pos, ls) && LeadsTo(m, endp, pkt, pos, q)
    ensures Chain(m, endp, pkt, q, ls)
  {
  }

  lemma ChainLabel(m: Key, endp: nat, pkt: Option<nat>, pos: nat, l: Label, q: nat, ls: seq<Label>)
    requires endp <= |m| && Chain(m, endp, pkt, pos, ls) && LabelAt(m, endp, pos, l, q)
    ensures |ls| > 0 && ls[0] == l && Chain(m, endp, pkt, q, ls[1..])
  {
  }

  /** Every chain from the start of a walk goes along the walk. */
  lemma {:induction false} ChainGoesAlong(m: Key, endp: nat, pkt: Option<nat>, start: nat, done: seq<Label>,
                                          q: nat, ls: seq<Label>)
    requires endp <= |m| && Walk(m, endp, pkt, start, done, q) && Chain(m, endp, pkt, start, ls)
    ensures |done| <= |ls| && ls[..|done|] == done && Chain(m, endp, pkt, q, ls[|done|..])
    decreases |done|, start
  {
    hide Chain;
    if start == q && done == [] {
      assert ls[0..] == ls;
    } else if x: nat :| LeadsTo(m, endp, pkt, start, x) && x < start && Walk(m, endp, pkt, x, done, q) {
      ChainHop(m, endp, pkt, start, x, ls);
      ChainGoesAlong(m, endp, pkt, x, done, q, ls);
    } else {
      var x: nat :| LabelAt(m, endp, start, done[0], x) && Walk(m, endp, pkt, x, done[1..], q);
      ChainLabel(m, endp, pkt, start, done[0], x, ls);
      ChainGoesAlong(m, endp, pkt, x, done[1..], q, ls[1..]);
      SameFront(ls, done);
    }
  }

  lemma SameFront(a: seq<Label>, b: seq<Label>)
    requires 0 < |b| <= |a| && a[0] == b[0] && a[1..][..|b| - 1] == b[1..]
    ensures a[..|b|] == b && a[1..][|b| - 1..] == a[|b|..]
  {
    assert a[..|b|] == [a[0]] + a[1..][..|b| - 1];
    assert b == [b[0]] + b[1..];
  }

  /** A name that may be used: its chain of labels is complete and fits 255 octets. */
  ghost predicate NameAt(m: Key, endp: nat, pkt: Option<nat>, pos: nat, ls: seq<Label>)
    requires endp <= |m|
  {
    Chain(m, endp, pkt, pos, ls) && WireLen(ls) <= DNAME_MAXLEN
  }

  // ---- knot_dname_wire_check ----

  datatype CheckResult = Size(size: nat) | EINVAL | EMALF

  /** Octets that the name takes at its own place: up to the first pointer or the
      terminal label. */
  function SizeAt(m: Key, pos: nat): nat
    decreases |m| - pos
  {
    if pos >= |m| then 0
    else if m[pos] == 0 then 1
    else if IsPointer(m[pos]) then 2
    else 1 + m[pos] + SizeAt(m, pos + 1 + m[pos])
  }

  /** The octet at q, after the labels `done`, cannot be part of a name. */
  ghost predicate Refused(m: Key, endp: nat, pkt: Option<nat>, done: seq<Label>, q: nat)
    requires endp <= |m|
  {
    q < endp && m[q] != 0 &&
    if q + 2 > endp then true
    else if IsPointer(m[q]) then pkt.None? || pkt.value + GetPointer(m, q) >= q
    else m[q] > DNAME_MAXLABELLEN || WireLen(done) + 1 + m[q] > DNAME_MAXLEN || q + 1 + m[q] >= endp
  }

  lemma NoName(m: Key, endp: nat, pkt: Option<nat>, start: nat, done: seq<Label>, q: nat)
    requires endp <= |m| && Walk(m, endp, pkt, start, done, q) && Refused(m, endp, pkt, done, q)
    ensures forall ls :: !NameAt(m, endp, pkt, start, ls)
  {
    forall ls | Chain(m, endp, pkt, start, ls)
      ensures WireLen(ls) > DNAME_MAXLEN
    {
      ChainGoesAlong(m, endp, pkt, start, done, q, ls);
      assert ls == done + ls[|done|..];
      WireLenConcat(done, ls[|done|..]);
    }
  }

  lemma WalkFirst(m: Key, endp: nat, start: nat, a: seq<Label>, p: nat) returns (x: nat)
    requires endp <= |m| && Walk(m, endp, None, start, a, p) && |a| > 0
    ensures LabelAt(m, endp, start, a[0], x) && Walk(m, endp, None, x, a[1..], p)
  {
    x :| LabelAt(m, endp, start, a[0], x) && Walk(m, endp, None, x, a[1..], p);
  }

  lemma WalkNowhere(m: Key, endp: nat, start: nat, a: seq<Label>, p: nat)
    requires endp <= |m| && Walk(m, endp, None, start, a, p) && |a| == 0
    ensures start == p
  {
  }

  /** Without a packet there is one way to walk. */
  lemma {:induction false} WalkCompare(m: Key, endp: nat, start: nat, a: seq<Label>, p: nat, b: seq<Label>, q: nat)
    requires endp <= |m| && Walk(m, endp, None, start, a, p) && Walk(m, endp, None, start, b, q) && |a| <= |b|
    ensures b[..|a|] == a && Walk(m, endp, None, p, b[|a|..], q)
    decreases |a|
  {
    hide Walk;
    if |a| == 0 {
      assert b[0..] == b;
      WalkNowhere(m, endp, start, a, p);
    } else {
      var x := WalkFirst(m, endp, start, a, p);
      var y := WalkFirst(m, endp, start, b, q);
      WalkCompare(m, endp, x, a[1..], p, b[1..], q);
      SameFront(b, a);
    }
  }

  /** Some way through labels that still fit leads to a whole compression pointer. */
  ghost predicate MeetsPointer(m: Key, endp: nat, start: nat)
    requires endp <= |m|
  {
    exists done, q: nat :: WalkFits(m, endp, start, done, q) && q + 2 <= endp && IsPointer(m[q])
  }

  ghost predicate WalkFits(m: Key, endp: nat, start: nat, done: seq<Label>, q: nat)
    requires endp <= |m|
  {
    Walk(m, endp, None, start, done, q) && WireLen(done) <= DNAME_MAXLEN
  }

  lemma NoPointer(m: Key, endp: nat, start: nat, done: seq<Label>, pos: nat)
    requires endp <= |m| && Walk(m, endp, None, start, done, pos) && pos < endp
    requires m[pos] == 0 || (Refused(m, endp, None, done, pos) && (pos + 2 <= endp ==> !IsPointer(m[pos])))
    ensures !MeetsPointer(m, endp, start)
  {
    forall b, q: nat | WalkFits(m, endp, start, b, q) && q + 2 <= endp
      ensures !IsPointer(m[q])
    {
      if |done| <= |b| {
        WalkCompare(m, endp, start, done, pos, b, q);
        assert b == done + b[|done|..];
        WireLenConcat(done, b[|done|..]);
      } else {
        WalkCompare(m, endp, start, b, q, done, pos);
      }
    }
  }

  lemma Refusal(m: Key, endp: nat, pkt: Option<nat>, start: nat, done: seq<Label>, pos: nat)
    requires endp <= |m| && Walk(m, endp, pkt, start, done, pos) && Refused(m, endp, pkt, done, pos)
    requires WireLen(done) <= DNAME_MAXLEN
    ensures forall ls :: !NameAt(m, endp, pkt, start, ls)
    ensures pkt.None? ==> (MeetsPointer(m, endp, start) <==> pos + 2 <= endp && IsPointer(m[pos]))
  {
    NoName(m, endp, pkt, start, done, pos);
    if pkt.None? {
      if pos + 2 <= endp && IsPointer(m[pos]) {
        assert WalkFits(m, endp, start, done, pos);
      } else {
        NoPointer(m, endp, start, done, pos);
      }
    }
  }

  lemma Acceptance(m: Key, endp: nat, pkt: Option<nat>, start: nat, done: seq<Label>, pos: nat)
    requires endp <= |m| && Walk(m, endp, pkt, start, done, pos) && pos < endp && m[pos] == 0
    requires WireLen(done) <= DNAME_MAXLEN
    ensures NameAt(m, endp, pkt, start, done)
    ensures pkt.None? ==> !MeetsPointer(m, endp, start)
  {
    assert Chain(m, endp, pkt, pos, []);
    WalkThenChain(m, endp, pkt, start, done, pos, []);
    assert done + [] == done;
    if pkt.None? {
      NoPointer(m, endp, start, done, pos);
    }
  }

  lemma NothingAtEnd(m: Key, endp: nat, pkt: Option<nat>)
    requires endp <= |m|
    ensures forall ls :: !NameAt(m, endp, pkt, endp, ls)
  {
  }

  /** Accepts exactly the names that may be used, and tells their size in place. */
  method WireCheck(m: Key, name: Option<nat>, endp: nat, pkt: Option<nat>) returns (r: CheckResult)
    requires endp <= |m| && (name.Some? ==> name.value <= endp)
    ensures r.Size? <==> name.Some? && exists ls :: NameAt(m, endp, pkt, name.value, ls)
    ensures r.Size? ==> r.size == SizeAt(m, name.value) && name.value + r.size <= endp
    ensures r.EINVAL? <==>
              || name.None? || name.value == endp
              || (pkt.None? && MeetsPointer(m, endp, name.value))
  {
    hide Walk, NameAt, MeetsPointer;
    if name.None? || name.value == endp {
      NothingAtEnd(m, endp, pkt);
      return EINVAL;
    }
    var pos: nat, wireLen, nameLen, compressed := name.value, 0, 1, false;
    ghost var done: seq<Label> := [];
    WalkStart(m, endp, pkt, pos);
    while m[pos] != 0
      invariant pos < endp
      invariant Walk(m, endp, pkt, name.value, done, pos)
      invariant nameLen == WireLen(done) <= DNAME_MAXLEN
      invariant !compressed ==> SizeAt(m, name.value) == wireLen + SizeAt(m, pos) && name.value + wireLen == pos
      invariant compressed ==> SizeAt(m, name.value) == wireLen && name.value + wireLen <= endp && pkt.Some?
      decreases DNAME_MAXLEN - nameLen, pos
    {
      if pos + 2 > endp {
        Refusal(m, endp, pkt, name.value, done, pos);
        return EMALF;
      }
      if IsPointer(m[pos]) {
        if pkt.None? {
          Refusal(m, endp, pkt, name.value, done, pos);
          return EINVAL;
        }
        var ptr := GetPointer(m, pos);
        if pkt.value + ptr >= pos {
          Refusal(m, endp, pkt, name.value, done, pos);
          return EMALF;
        }
        WalkHop(m, endp, pkt, name.value, done, pos, pkt.value + ptr);
        pos := pkt.value + ptr;
        if !compressed {
          wireLen, compressed := wireLen + 2, true;
        }
      } else {
        if m[pos] > DNAME_MAXLABELLEN {
          Refusal(m, endp, pkt, name.value, done, pos);
          return EMALF;
        }
        var lblen := m[pos] + 1;
        if nameLen + lblen > DNAME_MAXLEN {
          Refusal(m, endp, pkt, name.value, done, pos);
          return EMALF;
        }
        if pos + lblen + 1 > endp {
          Refusal(m, endp, pkt, name.value, done, pos);
          return EMALF;
        }
        ghost var l := m[pos + 1..pos + lblen];
        WalkLabel(m, endp, pkt, name.value, done, pos, l, pos + lblen);
        WireLenConcat(done, [l]);
        nameLen := nameLen + lblen;
        if !compressed {
          wireLen := wireLen + lblen;
        }
        pos := pos + lblen;
        done := done + [l];
      }
    }
    Acceptance(m, endp, pkt, name.value, done, pos);
    if !compressed {
      wireLen := wireLen + 1;
    }
    return Size(wireLen);
  }

  // ---- Names that passed the check ----

  /** knot_dname_size. */
  method NameSize(m: Key, ghost endp: nat, ghost pkt: Option<nat>, name: nat, ghost ls: seq<Label>) returns (len: nat)
    requires endp <= |m| && Chain(m, endp, pkt, name, ls)
    ensures len == SizeAt(m, name)
  {
    len := 0;
    var pos := name;
    ghost var rest := ls;
    while m[pos] != 0 && !IsPointer(m[pos])
      invariant Chain(m, endp, pkt, pos, rest)
      invariant SizeAt(m, name) == len + SizeAt(m, pos)
      decreases |m| - pos
    {
      var lblen: nat := m[pos] + 1;
      len := len + lblen;
      pos := pos + lblen;
      rest := rest[1..];
    }
    if IsPointer(m[pos]) {
      return len + 2;
    } else {
      return len + 1;
    }
  }

  /** knot_wire_seek_label. */
  method SeekLabel(m: Key, ghost endp: nat, pkt: nat, lp: nat, ghost ls: seq<Label>) returns (q: nat)
    requires endp <= |m| && Chain(m, endp, Some(pkt), lp, ls)
    ensures Chain(m, endp, Some(pkt), q, ls) && !IsPointer(m[q])
  {
    q := lp;
    while IsPointer(m[q])
      invariant Chain(m, endp, Some(pkt), q, ls)
      decreases q
    {
      var p := pkt + GetPointer(m, q);
      assert LeadsTo(m, endp, Some(pkt), q, p);
      q := p;
    }
  }

  /** knot_wire_next_label. */
  method NextLabel(m: Key, ghost endp: nat, pkt: nat, lp: nat, ghost ls: seq<Label>) returns (q: nat)
    requires endp <= |m| && Chain(m, endp, Some(pkt), lp, ls) && !IsPointer(m[lp]) && m[lp] != 0
    ensures |ls| > 0 && Chain(m, endp, Some(pkt), q, ls[1..]) && !IsPointer(m[q])
  {
    q := SeekLabel(m, endp, pkt, lp + m[lp] + 1, ls[1..]);
  }

  /** knot_dname_realsize: the size without compression. */
  method RealSize(m: Key, ghost endp: nat, pkt: nat, name: nat, ghost ls: seq<Label>) returns (len: nat)
    requires endp <= |m| && Chain(m, endp, Some(pkt), name, ls)
    ensures len == WireLen(ls)
  {
    var pos := SeekLabel(m, endp, pkt, name, ls);
    len := 0;
    ghost var rest := ls;
    while m[pos] != 0
      invariant Chain(m, endp, Some(pkt), pos, rest) && !IsPointer(m[pos])
      invariant WireLen(ls) == len + WireLen(rest)
      decreases |rest|
    {
      len := len + m[pos] + 1;
      pos := NextLabel(m, endp, pkt, pos, rest);
      rest := rest[1..];
    }
    return len + 1;
  }

  datatype UnpackResult = Unpacked(len: nat) | UNPACK_EINVAL | UNPACK_ESPACE

  /** knot_dname_unpack: writes the name without pointers, if the buffer is long enough,
      and nothing beyond it. */
  method Unpack(dst: array?<Byte>, src: Option<nat>, maxlen: nat, m: Key, pkt: Option<nat>,
                ghost endp: nat, ghost ls: seq<Label>)
    returns (r: UnpackResult)
    requires dst != null ==> maxlen <= dst.Length
    requires endp <= |m| && LabelsOk(ls)
    requires src.Some? && pkt.Some? ==> Chain(m, endp, pkt, src.value, ls)
    modifies if dst == null then {} else {dst}
    ensures r.Unpacked? <==> dst != null && src.Some? && pkt.Some? && WireLen(ls) <= maxlen
    ensures r.Unpacked? ==> r.len == WireLen(ls) && dst[..r.len] == Wire(ls) && dst[r.len..] == old(dst[r.len..])
    ensures r.UNPACK_ESPACE? <==> dst != null && src.Some? && pkt.Some? && WireLen(ls) > maxlen + 1
    ensures dst != null ==> dst[maxlen..] == old(dst[maxlen..])
  {
    hide Chain, Packed;
    if dst == null || src.None? || pkt.None? {
      return UNPACK_EINVAL;
    }
    r := UnpackLabels(dst, src.value, maxlen, m, pkt.value, endp, ls);
  }

  method UnpackLabels(dst: array<Byte>, src: nat, maxlen: nat, m: Key, pkt: nat, ghost endp: nat, ghost ls: seq<Label>)
    returns (r: UnpackResult)
    requires maxlen <= dst.Length && endp <= |m| && LabelsOk(ls) && Chain(m, endp, Some(pkt), src, ls)
    modifies dst
    ensures r.Unpacked? <==> WireLen(ls) <= maxlen
    ensures r.Unpacked? ==> r.len == WireLen(ls) && dst[..r.len] == Wire(ls) && dst[r.len..] == old(dst[r.len..])
    ensures r.UNPACK_ESPACE? <==> WireLen(ls) > maxlen + 1
    ensures dst[maxlen..] == old(dst[maxlen..])
  {
    hide Chain, Packed, WireLen, LabelsOk;
    var pos: nat := SeekLabel(m, endp, pkt, src, ls);
    var len: nat := 0;
    ghost var done: seq<Label> := [];
    ghost var rest := ls;
    ChainHead(m, endp, Some(pkt), pos, rest);
    NothingPacked();
    while m[pos] != 0
      invariant pos < endp && Chain(m, endp, Some(pkt), pos, rest) && !IsPointer(m[pos])
      invariant LabelsOk(done) && LabelsOk(rest) && ls == done + rest
      invariant len == WireLen(done) - 1 <= maxlen && dst[..len] == Packed(done)
      invariant WireLen(ls) == len + WireLen(rest)
      invariant forall i :: len <= i < dst.Length ==> dst[i] == old(dst[i])
      decreases |rest|
    {
      ChainHead(m, endp, Some(pkt), pos, rest);
      OneLabelOn(ls, done, rest);
      var lblen: nat := m[pos] + 1;
      if len + lblen > maxlen {
        return UNPACK_ESPACE;
      }
      PutLabel(dst, len, m, pos, lblen, done, rest[0]);
      len := len + lblen;
      pos := NextLabel(m, endp, pkt, pos, rest);
      done, rest := done + [rest[0]], rest[1..];
      ChainHead(m, endp, Some(pkt), pos, rest);
    }
    ChainHead(m, endp, Some(pkt), pos, rest);
    assert done + [] == done;
    if len + 1 > maxlen {
      return UNPACK_EINVAL;
    }
    dst[len] := 0;
    assert dst[..len + 1] == dst[..len] + [0];
    return Unpacked(len + 1);
  }

  lemma NothingPacked()
    ensures LabelsOk([]) && Packed([]) == [] && WireLen([]) == 1
  {
  }

  lemma OneLabelOn(ls: seq<Label>, done: seq<Label>, rest: seq<Label>)
    requires LabelsOk(done) && LabelsOk(rest) && |rest| > 0 && ls == done + rest
    ensures LabelsOk(done + [rest[0]]) && LabelsOk(rest[1..]) && ls == (done + [rest[0]]) + rest[1..]
    ensures WireLen(done + [rest[0]]) == WireLen(done) + 1 + |rest[0]|
    ensures WireLen(rest) == 1 + |rest[0]| + WireLen(rest[1..]) && WireLen(rest[1..]) >= 1
  {
    PackedSnoc(done, rest[0]);
    WireLenAtLeast(rest[1..]);
  }

  lemma WireLenAtLeast(ls: seq<Label>)
    ensures WireLen(ls) >= 1
  {
  }

  lemma ChainHead(m: Key, endp: nat, pkt: Option<nat>, pos: nat, ls: seq<Label>)
    requires endp <= |m| && Chain(m, endp, pkt, pos, ls)
    ensures pos < endp && (m[pos] == 0 ==> ls == [])
    ensures m[pos] != 0 && !IsPointer(m[pos]) ==>
              && |ls| > 0 && ls == [ls[0]] + ls[1..] && m[pos] == |ls[0]| <= DNAME_MAXLABELLEN
              && pos + 1 + |ls[0]| < endp && m[pos..pos + 1 + |ls[0]|] == [|ls[0]|] + ls[0]
              && |ls[0]| > 0 && Chain(m, endp, pkt, pos + 1 + |ls[0]|, ls[1..])
  {
  }

  /** memcpy of the label at src, with its length octet, to dst[at..]. */
  method PutLabel(dst: array<Byte>, at: nat, m: Key, src: nat, n: nat, ghost done: seq<Label>, ghost l: Label)
    requires at + n <= dst.Length && src + n <= |m| && 1 <= |l| <= DNAME_MAXLABELLEN && n == 1 + |l|
    requires m[src..src + n] == [|l|] + l && LabelsOk(done) && dst[..at] == Packed(done)
    modifies dst
    ensures LabelsOk(done + [l]) && dst[..at + n] == Packed(done + [l])
    ensures forall i :: at + n <= i < dst.Length ==> dst[i] == old(dst[i])
  {
    hide Packed;
    CopyBytes(dst, at, m, src, n);
    PackedSnoc(done, l);
    assert dst[..at + n] == dst[..at] + dst[at..at + n];
  }

  method CopyBytes(dst: array<Byte>, at: nat, m: Key, src: nat, n: nat)
    requires at + n <= dst.Length && src + n <= |m|
    modifies dst
    ensures dst[..at] == old(dst[..at]) && dst[at..at + n] == m[src..src + n]
    ensures forall i :: at + n <= i < dst.Length ==> dst[i] == old(dst[i])
  {
    var i := 0;
    while i < n
      invariant 0 <= i <= n
      invariant forall k :: at <= k < at + i ==> dst[k] == m[src + k - at]
      invariant forall k :: 0 <= k < at || at + i <= k < dst.Length ==> dst[k] == old(dst[k])
    {
      dst[at + i] := m[src + i];
      i := i + 1;
    }
    assert dst[at..at + n] == m[src..src + n];
  }

  // ---- Uncompressed names ----

  /** Memory that holds the wire form of a name reads as that name, packet or not. */
  lemma {:induction false} WireReads(m: Key, endp: nat, pkt: Option<nat>, pos: nat, ls: seq<Label>)
    requires endp <= |m| && LabelsOk(ls) && pos + WireLen(ls) <= endp && m[pos..pos + WireLen(ls)] == Wire(ls)
    ensures Chain(m, endp, pkt, pos, ls) && SizeAt(m, pos) == WireLen(ls)
    decreases |ls|
  {
    assert m[pos] == m[pos..pos + WireLen(ls)][0] == Wire(ls)[0];
    if |ls| > 0 {
      WireTail(m, pos, ls);
      WireReads(m, endp, pkt, pos + 1 + |ls[0]|, ls[1..]);
    }
  }

  lemma WireTail(m: Key, pos: nat, ls: seq<Label>)
    requires LabelsOk(ls) && |ls| > 0 && pos + WireLen(ls) <= |m| && m[pos..pos + WireLen(ls)] == Wire(ls)
    ensures var n := 1 + |ls[0]|; m[pos + n..pos + WireLen(ls)] == Wire(ls[1..]) && m[pos + 1..pos + n] == ls[0]
  {
    hide Packed, LabelsOk, WireLen;
    WireCons(ls);
    CutThree(m, pos, |ls[0]|, ls[0], Wire(ls[1..]));
  }

  lemma WireCons(ls: seq<Label>)
    requires LabelsOk(ls) && |ls| > 0
    ensures LabelsOk(ls[1..]) && 1 <= |ls[0]| <= DNAME_MAXLABELLEN
    ensures Wire(ls) == [|ls[0]|] + ls[0] + Wire(ls[1..]) && |Wire(ls)| == WireLen(ls)
  {
  }

  lemma SubSlice(m: Key, a: nat, b: nat, i: nat, j: nat)
    requires a <= b <= |m| && i <= j <= b - a
    ensures m[a..b][i..j] == m[a + i..a + j]
  {
    forall k | 0 <= k < j - i
      ensures m[a..b][i..j][k] == m[a + i..a + j][k]
    {
      assert m[a..b][i..j][k] == m[a..b][i + k] == m[a + i + k];
    }
  }

  /** And only that: an uncompressed name in memory is its wire form. */
  lemma {:induction false} ChainIsWire(m: Key, endp: nat, pos: nat, ls: seq<Label>)
    requires endp <= |m| && Chain(m, endp, None, pos, ls)
    ensures LabelsOk(ls) && pos + WireLen(ls) <= endp && m[pos..pos + WireLen(ls)] == Wire(ls)
    ensures SizeAt(m, pos) == WireLen(ls)
    decreases |ls|
  {
    hide Chain, Packed;
    ChainHead(m, endp, None, pos, ls);
    PlainStart(m, endp, pos, ls);
    if m[pos] != 0 {
      var n := 1 + |ls[0]|;
      ChainIsWire(m, endp, pos + n, ls[1..]);
      ConsOk(ls);
      WireCons(ls);
      JoinSlices(m, pos, pos + n, pos + WireLen(ls));
    } else {
      NothingPacked();
      assert m[pos..pos + 1] == [0];
    }
  }

  lemma PlainStart(m: Key, endp: nat, pos: nat, ls: seq<Label>)
    requires endp <= |m| && Chain(m, endp, None, pos, ls)
    ensures pos < endp && !IsPointer(m[pos])
  {
  }

  lemma ConsOk(ls: seq<Label>)
    requires |ls| > 0 && 1 <= |ls[0]| <= DNAME_MAXLABELLEN && LabelsOk(ls[1..])
    ensures LabelsOk(ls)
  {
    assert ls == [ls[0]] + ls[1..];
  }

  lemma JoinSlices(m: Key, a: nat, b: nat, c: nat)
    requires a <= b <= c <= |m|
    ensures m[a..c] == m[a..b] + m[b..c]
  {
  }

  lemma UncompressedName(ls: seq<Label>)
    requires ValidName(ls)
    ensures NameAt(Wire(ls), |Wire(ls)|, None, 0, ls) && SizeAt(Wire(ls), 0) == |Wire(ls)| == WireLen(ls)
  {
    assert Wire(ls)[0..WireLen(ls)] == Wire(ls);
    WireReads(Wire(ls), |Wire(ls)|, None, 0, ls);
  }

  // ---- Compressed names ----

  /** The two octets of a pointer to offset p: it is followed exactly if it leads
      backwards in a packet. */
  lemma PointerReads(m: Key, endp: nat, pkt: Option<nat>, pos: nat, p: nat, x: seq<Label>)
    requires pos + 2 <= endp <= |m| && p < 0x4000 && m[pos] == 0xC0 + p / 256 && m[pos + 1] == p % 256
    ensures Chain(m, endp, pkt, pos, x) <==>
              pkt.Some? && pkt.value + p < pos && Chain(m, endp, pkt, pkt.value + p, x)
    ensures SizeAt(m, pos) == 2
  {
    OffsetParts(p);
    if pkt.Some? && pkt.value + p < pos {
      assert LeadsTo(m, endp, pkt, pos, pkt.value + p);
    }
  }

  lemma OffsetParts(p: nat)
    requires p < 0x4000
    ensures (0xC0 + p / 256) * 256 + p % 256 - 0xC000 == p && 0xC0 + p / 256 < 256
  {
  }

  /** Memory that holds some labels and a pointer to offset p reads as these labels and
      then whatever is read at p, and as nothing else; in place it takes the labels and
      two octets. */
  lemma {:induction false} CompressedReads(m: Key, endp: nat, pkt: Option<nat>, pos: nat, a: seq<Label>, p: nat,
                                           x: seq<Label>)
    requires LabelsOk(a) && pos + |Packed(a)| + 2 <= endp <= |m| && p < 0x4000
    requires m[pos..pos + |Packed(a)| + 2] == Packed(a) + [0xC0 + p / 256, p % 256]
    ensures Chain(m, endp, pkt, pos, x) <==>
              && pkt.Some? && pkt.value + p < pos + |Packed(a)| && |a| <= |x| && x[..|a|] == a
              && Chain(m, endp, pkt, pkt.value + p, x[|a|..])
    ensures SizeAt(m, pos) == |Packed(a)| + 2
    decreases |a|
  {
    hide Chain, SizeAt;
    if |a| == 0 {
      var w := m[pos..pos + 2];
      assert m[pos] == w[0] && m[pos + 1] == w[1];
      assert x[0..] == x;
      PointerReads(m, endp, pkt, pos, p, x);
    } else {
      var n := 1 + |a[0]|;
      PackedTail(m, pos, a, [0xC0 + p / 256, p % 256]);
      LabelFirst(m, endp, pkt, pos, a[0], x);
      if |x| > 0 {
        CompressedReads(m, endp, pkt, pos + n, a[1..], p, x[1..]);
        FirstAndRest(x, a);
      } else {
        CompressedReads(m, endp, pkt, pos + n, a[1..], p, x);
      }
    }
  }

  lemma PackedTail(m: Key, pos: nat, a: seq<Label>, end: Key)
    requires LabelsOk(a) && |a| > 0 && pos + |Packed(a)| + |end| <= |m|
    requires m[pos..pos + |Packed(a)| + |end|] == Packed(a) + end
    ensures LabelsOk(a[1..]) && 1 <= |a[0]| <= DNAME_MAXLABELLEN && |Packed(a)| == 1 + |a[0]| + |Packed(a[1..])|
    ensures var n := 1 + |a[0]|;
            && m[pos] == |a[0]| && m[pos + 1..pos + n] == a[0]
            && m[pos + n..pos + n + |Packed(a[1..])| + |end|] == Packed(a[1..]) + end
  {
    hide Packed, LabelsOk;
    PackedCons(a);
    assert Packed(a) + end == [|a[0]|] + a[0] + (Packed(a[1..]) + end);
    CutThree(m, pos, |a[0]|, a[0], Packed(a[1..]) + end);
  }

  lemma PackedCons(a: seq<Label>)
    requires LabelsOk(a) && |a| > 0
    ensures LabelsOk(a[1..]) && 1 <= |a[0]| <= DNAME_MAXLABELLEN && Packed(a) == [|a[0]|] + a[0] + Packed(a[1..])
  {
  }

  /** Memory that holds an octet and two strings. */
  lemma CutThree(m: Key, pos: nat, c: Byte, l: Key, t: Key)
    requires pos + 1 + |l| + |t| <= |m| && m[pos..pos + 1 + |l| + |t|] == [c] + l + t
    ensures m[pos] == c && m[pos + 1..pos + 1 + |l|] == l && m[pos + 1 + |l|..pos + 1 + |l| + |t|] == t
  {
    var w := m[pos..pos + 1 + |l| + |t|];
    assert m[pos] == w[0];
    SubSlice(m, pos, pos + |w|, 1, 1 + |l|);
    SubSlice(m, pos, pos + |w|, 1 + |l|, |w|);
    assert w[1..1 + |l|] == l && w[1 + |l|..|w|] == t;
  }

  lemma LabelFirst(m: Key, endp: nat, pkt: Option<nat>, pos: nat, l: Label, x: seq<Label>)
    requires endp <= |m| && 1 <= |l| <= DNAME_MAXLABELLEN && pos + 1 + |l| < endp
    requires m[pos] == |l| && m[pos + 1..pos + 1 + |l|] == l
    ensures Chain(m, endp, pkt, pos, x) <==> |x| > 0 && x[0] == l && Chain(m, endp, pkt, pos + 1 + |l|, x[1..])
    ensures SizeAt(m, pos) == 1 + |l| + SizeAt(m, pos + 1 + |l|)
  {
  }

  lemma FirstAndRest(x: seq<Label>, a: seq<Label>)
    requires |x| > 0 && |a| > 0
    ensures |a| <= |x| ==> (x[..|a|] == a <==> x[0] == a[0] && x[1..][..|a| - 1] == a[1..])
    ensures |a| <= |x| ==> x[1..][|a| - 1..] == x[|a|..]
  {
    if |a| <= |x| {
      assert x[..|a|] == [x[0]] + x[1..][..|a| - 1] && a == [a[0]] + a[1..];
    }
  }

  /** Octets of the two unused label types begin no name. */
  lemma UnusedTypes(m: Key, endp: nat, pkt: Option<nat>, pos: nat, ls: seq<Label>)
    requires pos < endp <= |m| && 64 <= m[pos] < 192
    ensures !Chain(m, endp, pkt, pos, ls)
  {
  }

  /** A name compressed by a pointer to an earlier name: the check reports the octets up
      to and including the pointer, and unpacking writes the whole name. */
  method CheckCompressed(m: Key, endp: nat, pkt: nat, pos: nat, p: nat, dst: array<Byte>,
                         ghost a: seq<Label>, ghost ls: seq<Label>)
    returns (r: CheckResult, u: UnpackResult)
    requires LabelsOk(a) && LabelsOk(ls) && ValidName(a + ls) && dst.Length == DNAME_MAXLEN
    requires pos + |Packed(a)| + 2 <= endp <= |m| && p < 0x4000 && pkt + p + WireLen(ls) <= endp
    requires pkt + p < pos + |Packed(a)|
    requires m[pkt + p..pkt + p + WireLen(ls)] == Wire(ls)
    requires m[pos..pos + |Packed(a)| + 2] == Packed(a) + [0xC0 + p / 256, p % 256]
    modifies dst
    ensures r == Size(|Packed(a)| + 2)
    ensures u == Unpacked(WireLen(a + ls)) && dst[..WireLen(a + ls)] == Wire(a + ls)
  {
    hide Chain, Packed, WireLen, LabelsOk, SizeAt, MeetsPointer;
    ghost var x := a + ls;
    WireReads(m, endp, Some(pkt), pkt + p, ls);
    assert x[..|a|] == a && x[|a|..] == ls;
    CompressedReads(m, endp, Some(pkt), pos, a, p, x);
    assert NameAt(m, endp, Some(pkt), pos, x);
    r := WireCheck(m, Some(pos), endp, Some(pkt));
    u := Unpack(dst, Some(pos), DNAME_MAXLEN, m, Some(pkt), endp, x);
  }

  /** What acceptance by the check is worth: the reported size is the name's size in
      place, 255 octets are always enough to unpack it, the result has the length
      that knot_dname_realsize reports, and it reads as the same labels without any
      packet, each of 1 to 63 octets. */
  method CheckedUnpack(m: Key, endp: nat, pkt: nat, name: nat, dst: array<Byte>) returns (r: CheckResult, n: nat)
    requires name <= endp <= |m| && dst.Length == DNAME_MAXLEN
    modifies dst
    ensures r.Size? <==> exists ls :: NameAt(m, endp, Some(pkt), name, ls)
    ensures r.Size? ==> r.size == SizeAt(m, name) && name + r.size <= endp
    ensures forall ls :: NameAt(m, endp, Some(pkt), name, ls) ==>
              && (forall i :: 0 <= i < |ls| ==> 1 <= |ls[i]| <= 63) && n == WireLen(ls) <= 255
              && dst[..n] == Wire(ls) && NameAt(dst[..n], n, None, 0, ls)
  {
    hide Chain;
    r := WireCheck(m, Some(name), endp, Some(pkt));
    n := 0;
    if r.Size? {
      ghost var ls :| NameAt(m, endp, Some(pkt), name, ls);
      var size := NameSize(m, endp, Some(pkt), name, ls);
      assert r.size == size;
      ChainLabels(m, endp, Some(pkt), name, ls);
      var u := Unpack(dst, Some(name), DNAME_MAXLEN, m, Some(pkt), endp, ls);
      n := RealSize(m, endp, pkt, name, ls);
      assert u == Unpacked(n);
      UncompressedName(ls);
      OneName(m, endp, Some(pkt), name, ls);
    }
  }

  lemma OneName(m: Key, endp: nat, pkt: Option<nat>, pos: nat, ls: seq<Label>)
    requires endp <= |m| && NameAt(m, endp, pkt, pos, ls)
    ensures forall k :: NameAt(m, endp, pkt, pos, k) ==> k == ls
  {
    forall k | NameAt(m, endp, pkt, pos, k)
      ensures k == ls
    {
      ChainUnique(m, endp, pkt, pos, k, ls);
    }
  }
}
