/** The lookup format of names (dname.c, knot_dname_lf) and the order it induces
    (knot_dname_cmp), against the canonical order of section 6.1 of RFC 4034. */
module DnameLf {
  import opened Bytes
  import opened Options
  import opened Names
  import opened DnameWire

  // ---- The format and the canonical order ----

  /** Labels from the rightmost to the leftmost, each followed by a zero octet. */
  ghost function LfKey(ls: seq<Label>): (k: Key)
    ensures |k| == WireLen(ls) - 1
  {
    if |ls| == 0 then [] else LfKey(ls[1..]) + ls[0] + [0]
  }

  /** Canonical order: the most significant (rightmost) labels decide first, each as
      an unsigned left-justified octet string. */
  ghost predicate CanonLess(a: seq<Label>, b: seq<Label>) {
    |b| > 0 && (|a| == 0 ||
      (var x, y := a[|a| - 1], b[|b| - 1];
       LexLess(x, y) || (x == y && CanonLess(a[..|a| - 1], b[..|b| - 1]))))
  }

  ghost predicate ZeroFree(ls: seq<Label>) {
    forall i :: 0 <= i < |ls| ==> 0 !in ls[i]
  }

  lemma {:induction false} LfConcat(a: seq<Label>, b: seq<Label>)
    ensures LfKey(a + b) == LfKey(b) + LfKey(a)
    decreases |a|
  {
    if |a| == 0 {
      assert a + b == b;
    } else {
      assert (a + b)[1..] == a[1..] + b;
      LfConcat(a[1..], b);
    }
  }

  lemma LfOne(l: Label)
    ensures LfKey([l]) == l + [0]
  {
    var one: seq<Label> := [l];
    assert one[1..] == [];
  }

  lemma LfLast(a: seq<Label>)
    requires |a| > 0
    ensures LfKey(a) == a[|a| - 1] + [0] + LfKey(a[..|a| - 1])
  {
    var n := |a| - 1;
    assert a == a[..n] + [a[n]];
    LfConcat(a[..n], [a[n]]);
    LfOne(a[n]);
  }

  /** A zero octet ends a label like the end of a string does. */
  lemma {:induction false} ZeroEnds(x: Label, s: Key, y: Label, t: Key)
    requires 0 !in x && 0 !in y
    ensures LexLess(x + [0] + s, y + [0] + t) <==> LexLess(x, y) || (x == y && LexLess(s, t))
    decreases |x|
  {
    var a, b := x + [0] + s, y + [0] + t;
    if |x| == 0 {
      assert a[1..] == s;
      if |y| == 0 {
        assert b[1..] == t;
      } else {
        assert b[0] == y[0] && y[0] in y;
      }
    } else {
      assert a[0] == x[0] && x[0] in x;
      assert a[1..] == x[1..] + [0] + s;
      if |y| > 0 {
        assert b[0] == y[0] && b[1..] == y[1..] + [0] + t;
        ZeroEnds(x[1..], s, y[1..], t);
        assert x == [x[0]] + x[1..] && y == [y[0]] + y[1..];
      }
    }
  }

  /** Byte order of lookup formats is canonical order. */
  lemma {:induction false} LfOrder(a: seq<Label>, b: seq<Label>)
    requires ZeroFree(a) && ZeroFree(b)
    ensures LexLess(LfKey(a), LfKey(b)) <==> CanonLess(a, b)
    decreases |a|
  {
    if |a| > 0 && |b| > 0 {
      LfLast(a);
      LfLast(b);
      LfOrder(a[..|a| - 1], b[..|b| - 1]);
      ZeroEnds(a[|a| - 1], LfKey(a[..|a| - 1]), b[|b| - 1], LfKey(b[..|b| - 1]));
    }
  }

  lemma {:induction false} CanonTotal(a: seq<Label>, b: seq<Label>)
    ensures CanonLess(a, b) || a == b || CanonLess(b, a)
    decreases |a|
  {
    if |a| > 0 && |b| > 0 {
      LexTotal(a[|a| - 1], b[|b| - 1]);
      CanonTotal(a[..|a| - 1], b[..|b| - 1]);
      assert a == a[..|a| - 1] + [a[|a| - 1]] && b == b[..|b| - 1] + [b[|b| - 1]];
    }
  }

  /** Different names have different lookup formats. */
  lemma LfInjective(a: seq<Label>, b: seq<Label>)
    requires ZeroFree(a) && ZeroFree(b) && LfKey(a) == LfKey(b)
    ensures a == b
  {
    LfOrder(a, b);
    LfOrder(b, a);
    LexIrreflexive(LfKey(a));
    CanonTotal(a, b);
  }

  // ---- Zero octets inside labels ----

  function FirstZero(l: Label): (i: nat)
    ensures i <= |l| && 0 !in l[..i] && (i < |l| ==> l[i] == 0)
  {
    if |l| == 0 || l[0] == 0 then 0
    else
      assert forall i :: 0 <= i < |l[1..]| ==> l[1..][..i] == l[1..i + 1];
      1 + FirstZero(l[1..])
  }

  /** A label as the lookup format shows it: its zero octets end labels, too. */
  function PartsOf(l: Label): seq<Label>
    decreases |l|
  {
    var i := FirstZero(l);
    if i == |l| then [l] else PartsOf(l[i + 1..]) + [l[..i]]
  }

  function Parts(ls: seq<Label>): seq<Label> {
    if |ls| == 0 then [] else PartsOf(ls[0]) + Parts(ls[1..])
  }

  lemma {:induction false} PartsOfLf(l: Label)
    ensures LfKey(PartsOf(l)) == l + [0] && ZeroFree(PartsOf(l))
    decreases |l|
  {
    hide LfKey;
    var i := FirstZero(l);
    if i == |l| {
      assert l[..i] == l;
      LfOne(l);
    } else {
      var h, r := l[..i], PartsOf(l[i + 1..]);
      PartsOfLf(l[i + 1..]);
      LfConcat(r, [h]);
      LfOne(h);
      assert l == h + [0] + l[i + 1..];
    }
  }

  lemma {:induction false} PartsLf(ls: seq<Label>)
    ensures LfKey(Parts(ls)) == LfKey(ls) && ZeroFree(Parts(ls))
    decreases |ls|
  {
    if |ls| > 0 {
      PartsOfLf(ls[0]);
      PartsLf(ls[1..]);
      LfConcat(PartsOf(ls[0]), Parts(ls[1..]));
    }
  }

  /** Names without inner zero octets are shown as they are. */
  lemma {:induction false} PartsSame(ls: seq<Label>)
    requires ZeroFree(ls)
    ensures Parts(ls) == ls
    decreases |ls|
  {
    if |ls| > 0 {
      PartsSame(ls[1..]);
      assert FirstZero(ls[0]) == |ls[0]|;
      assert ls == [ls[0]] + ls[1..];
    }
  }

  /** Two different valid names with one lookup format: the label a, zero, b and the
      name of the two labels b and a. */
  lemma ZeroConfuses()
    ensures ValidName([[97, 0, 98]]) && ValidName([[98], [97]])
    ensures LfKey([[97, 0, 98]]) == LfKey([[98], [97]])
    ensures !ZeroFree([[97, 0, 98]])
  {
    var a: seq<Label>, b: seq<Label>, c: seq<Label> := [[97, 0, 98]], [[98], [97]], [[97]];
    assert a[1..] == [] && b[1..] == c && c[1..] == [];
    assert LfKey(c) == [97, 0];
    assert LfKey(b) == [97, 0, 98, 0];
    assert LfKey(a) == [97, 0, 98, 0];
    assert WireLen(c) == 3;
    assert 0 in a[0];
  }

  // ---- knot_dname_lf ----

  /** An uncompressed valid name in memory. */
  ghost predicate PlainName(m: Key, pos: nat, ls: seq<Label>) {
    NameAt(m, |m|, None, pos, ls)
  }

  lemma PlainHead(m: Key, pos: nat, ls: seq<Label>)
    requires Chain(m, |m|, None, pos, ls)
    ensures pos < |m|
    ensures m[pos] == 0 ==> ls == []
    ensures m[pos] != 0 ==>
              && |ls| > 0 && m[pos] == |ls[0]| && 1 <= |ls[0]| <= DNAME_MAXLABELLEN
              && pos + 1 + |ls[0]| < |m| && m[pos + 1..pos + 1 + |ls[0]|] == ls[0]
              && Chain(m, |m|, None, pos + 1 + |ls[0]|, ls[1..])
  {
  }

  /** Writes the lookup format, after its length octet, at the end of the storage. */
  method Lf(m: Key, src: Option<nat>, storage: array?<Byte>, ghost ls: seq<Label>) returns (r: Option<nat>)
    requires src.Some? ==> PlainName(m, src.value, ls)
    requires storage != null ==> storage.Length == DNAME_MAXLEN
    modifies if storage == null then {} else {storage}
    ensures r.Some? <==> src.Some? && storage != null
    ensures r.Some? ==>
              && r.value + 1 + |LfKey(ls)| == DNAME_MAXLEN
              && storage[r.value] == |LfKey(ls)| && storage[r.value + 1..] == LfKey(ls)
              && storage[..r.value] == old(storage[..r.value])
  {
    if src.None? || storage == null {
      return None;
    }
    var d := LfInto(m, src.value, storage, ls);
    return Some(d);
  }

  method LfInto(m: Key, src: nat, storage: array<Byte>, ghost ls: seq<Label>) returns (dst: nat)
    requires PlainName(m, src, ls) && storage.Length == DNAME_MAXLEN
    modifies storage
    ensures dst + 1 + |LfKey(ls)| == DNAME_MAXLEN
    ensures storage[dst] == |LfKey(ls)| && storage[dst + 1..] == LfKey(ls)
    ensures storage[..dst] == old(storage[..dst])
  {
    hide Chain, LfKey, WireLen;
    var pos: nat := src;
    dst := DNAME_MAXLEN - 1;
    ghost var done: seq<Label> := [];
    ghost var rest := ls;
    LfNothing(ls);
    PlainHead(m, pos, rest);
    while m[pos] != 0
      invariant Chain(m, |m|, None, pos, rest) && pos < |m|
      invariant ls == done + rest && WireLen(ls) == WireLen(done) - 1 + WireLen(rest) <= DNAME_MAXLEN
      invariant dst < DNAME_MAXLEN == dst + WireLen(done) && storage[dst + 1..] == LfKey(done)
      invariant forall i :: 0 <= i <= dst ==> storage[i] == old(storage[i])
      decreases |rest|
    {
      PlainHead(m, pos, rest);
      LfStep(ls, done, rest);
      dst := PutLf(m, pos, storage, dst, rest[0]);
      pos := pos + 1 + m[pos];
      done, rest := done + [rest[0]], rest[1..];
      PlainHead(m, pos, rest);
    }
    LfNothing(ls);
    PlainHead(m, pos, rest);
    assert done + [] == done;
    storage[dst] := DNAME_MAXLEN - 1 - dst;
  }

  /** One label: a zero octet, the label in front of it, and the new end. */
  method PutLf(m: Key, pos: nat, storage: array<Byte>, dst0: nat, ghost l: Label) returns (dst: nat)
    requires pos + 1 + |l| <= |m| && m[pos] == |l| > 0 && m[pos + 1..pos + 1 + |l|] == l
    requires |l| < dst0 < storage.Length
    modifies storage
    ensures dst == dst0 - |l| - 1
    ensures storage[dst + 1..] == l + [0] + old(storage[dst0 + 1..])
    ensures forall i :: 0 <= i <= dst ==> storage[i] == old(storage[i])
  {
    var src, len: nat := pos + 1, m[pos];
    storage[dst0] := 0;
    dst := dst0 - len;
    if len == 1 {
      storage[dst] := m[src];
    } else {
      label Zero:
      CopyBytes(storage, dst, m, src, len);
      assert storage[dst + len] == old@Zero(storage[dst + len]);
    }
    assert storage[dst..dst + len] == l;
    assert storage[dst0..] == [0] + old(storage[dst0 + 1..]);
    assert storage[dst..] == storage[dst..dst0] + storage[dst0..];
    dst := dst - 1;
  }

  lemma LfNothing(ls: seq<Label>)
    ensures LfKey([]) == [] && WireLen([]) == 1 && |LfKey(ls)| == WireLen(ls) - 1
  {
  }

  lemma LfStep(ls: seq<Label>, done: seq<Label>, rest: seq<Label>)
    requires |rest| > 0 && ls == done + rest
    ensures ls == (done + [rest[0]]) + rest[1..]
    ensures LfKey(done + [rest[0]]) == rest[0] + [0] + LfKey(done)
    ensures WireLen(done + [rest[0]]) == WireLen(done) + 1 + |rest[0]|
    ensures WireLen(rest) == 1 + |rest[0]| + WireLen(rest[1..]) && WireLen(rest[1..]) >= 1
  {
    var l := rest[0];
    LfConcat(done, [l]);
    LfOne(l);
    WireLenConcat(done, [l]);
    WireLenAtLeast(rest[1..]);
  }

  // ---- knot_dname_cmp ----

  method Memcmp(a: Key, b: Key, n: nat) returns (c: int)
    requires n <= |a| && n <= |b|
    ensures c == 0 <==> a[..n] == b[..n]
    ensures c != 0 ==> exists i :: 0 <= i < n && a[..i] == b[..i] && c == a[i] as int - b[i] as int
  {
    var i := 0;
    while i < n
      invariant 0 <= i <= n && a[..i] == b[..i]
    {
      if a[i] != b[i] {
        return a[i] as int - b[i] as int;
      }
      i := i + 1;
    }
    return 0;
  }

  /** Octet strings that first differ at i are ordered by their octets there. */
  lemma FirstByteDecides(a: Key, b: Key, i: nat)
    requires i < |a| && i < |b| && a[..i] == b[..i] && a[i] != b[i]
    ensures LexLess(a, b) <==> a[i] < b[i]
    ensures LexLess(b, a) <==> b[i] < a[i]
  {
    assert a == a[..i] + a[i..] && b == b[..i] + b[i..];
    LexCommonPrefix(a[..i], a[i..], b[i..]);
    LexCommonPrefix(a[..i], b[i..], a[i..]);
  }

  lemma PrefixDecides(a: Key, b: Key)
    requires |a| <= |b| && b[..|a|] == a
    ensures LexLess(a, b) <==> |a| < |b|
    ensures !LexLess(b, a)
  {
    assert a == a + [] && b == a + b[|a|..];
    LexCommonPrefix(a, [], b[|a|..]);
    LexCommonPrefix(a, b[|a|..], []);
  }

  /** How two possibly missing names compare: byte order of their lookup formats. */
  method CmpKeys(k1: Key, k2: Key) returns (r: int)
    requires |k1| < 256 && |k2| < 256
    ensures r < 0 <==> LexLess(k1, k2)
    ensures r > 0 <==> LexLess(k2, k1)
    ensures r == 0 <==> k1 == k2
  {
    var common := |k1|;
    if common > |k2| {
      common := |k2|;
    }
    r := Memcmp(k1, k2, common);
    LexTotal(k1, k2);
    if r != 0 {
      ghost var i :| 0 <= i < common && k1[..i] == k2[..i] && r == k1[i] as int - k2[i] as int;
      FirstByteDecides(k1, k2, i);
      return r;
    }
    if |k1| < |k2| {
      PrefixDecides(k1, k2);
      return -1;
    } else if |k1| > |k2| {
      PrefixDecides(k2, k1);
      return 1;
    } else {
      PrefixDecides(k1, k2);
      return 0;
    }
  }

  /** The sign is that of the canonical order on the labels that the lookup format
      shows: for names without inner zero octets, on the names themselves. */
  method Cmp(m1: Key, d1: Option<nat>, m2: Key, d2: Option<nat>, ghost a: seq<Label>, ghost b: seq<Label>)
    returns (r: int)
    requires d1.Some? ==> PlainName(m1, d1.value, a)
    requires d2.Some? ==> PlainName(m2, d2.value, b)
    ensures d1.None? ==> r < 0
    ensures d1.Some? && d2.None? ==> r > 0
    ensures d1.Some? && d2.Some? ==> (r < 0 <==> CanonLess(Parts(a), Parts(b)))
    ensures d1.Some? && d2.Some? ==> (r > 0 <==> CanonLess(Parts(b), Parts(a)))
    ensures d1.Some? && d2.Some? ==> (r == 0 <==> Parts(a) == Parts(b))
    ensures ZeroFree(a) ==> Parts(a) == a
    ensures ZeroFree(b) ==> Parts(b) == b
  {
    hide PlainName, LfKey, Parts, CanonLess, LexLess, ZeroFree;
    if ZeroFree(a) {
      PartsSame(a);
    }
    if ZeroFree(b) {
      PartsSame(b);
    }
    if d1.None? {
      return -1;
    } else if d2.None? {
      return 1;
    }
    var s1, s2 := new Byte[DNAME_MAXLEN], new Byte[DNAME_MAXLEN];
    var lf1 := LfInto(m1, d1.value, s1, a);
    var lf2 := LfInto(m2, d2.value, s2, b);
    var k1, k2 := s1[lf1 + 1..][..s1[lf1]], s2[lf2 + 1..][..s2[lf2]];
    assert k1 == LfKey(a) && k2 == LfKey(b);
    r := CmpKeys(k1, k2);
    PartsOrder(a, b);
  }

  lemma PartsOrder(a: seq<Label>, b: seq<Label>)
    ensures LexLess(LfKey(a), LfKey(b)) <==> CanonLess(Parts(a), Parts(b))
    ensures LexLess(LfKey(b), LfKey(a)) <==> CanonLess(Parts(b), Parts(a))
    ensures LfKey(a) == LfKey(b) <==> Parts(a) == Parts(b)
  {
    PartsLf(a);
    PartsLf(b);
    LfOrder(Parts(a), Parts(b));
    LfOrder(Parts(b), Parts(a));
    if LfKey(a) == LfKey(b) {
      LfInjective(Parts(a), Parts(b));
    }
  }

  // ---- knot_dname_with_null ----

  lemma {:induction false} NoZeroPacked(ls: seq<Label>)
    requires LabelsOk(ls)
    ensures 0 in Packed(ls) <==> !ZeroFree(ls)
    decreases |ls|
  {
    if |ls| > 0 {
      NoZeroPacked(ls[1..]);
      assert ls == [ls[0]] + ls[1..];
      assert ZeroFree(ls) <==> 0 !in ls[0] && ZeroFree(ls[1..]) by {
        assert forall i :: 0 < i < |ls| ==> ls[i] == ls[1..][i - 1];
        assert forall i :: 0 <= i < |ls[1..]| ==> ls[1..][i] == ls[i + 1];
      }
    }
  }

  /** Tells whether a name has a zero octet inside a label: the names for which byte
      order of lookup formats need not be canonical order. */
  method WithNull(m: Key, name: Option<nat>, ghost ls: seq<Label>) returns (r: bool)
    requires name.Some? ==> Chain(m, |m|, None, name.value, ls)
    ensures r <==> name.Some? && !ZeroFree(ls)
  {
    hide Chain, ZeroFree;
    if name.None? {
      return false;
    }
    var size := NameSize(m, |m|, None, name.value, ls);
    ChainIsWire(m, |m|, name.value, ls);
    NoZeroPacked(ls);
    ghost var w := Wire(ls);
    ghost var base := name.value;
    var n := 0;
    while n < size && m[name.value + n] != 0
      invariant 0 <= n <= size && 0 !in w[..n]
    {
      assert w[n] == m[base..base + size][n] == m[base + n];
      n := n + 1;
    }
    if n < size {
      assert w[n] == m[base..base + size][n] == m[base + n];
    }
    assert Packed(ls) == w[..size - 1];
    assert w[size - 1] == 0;
    if n < size - 1 {
      assert w[..size - 1][n] == 0;
    } else {
      assert n == size - 1;
    }
    return size != n + 1;
  }
}
