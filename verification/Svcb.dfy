/** Service parameters of SVCB records in the zone scanner (functions.c): insertion of
    each parameter into the sorted list, and the single-pass check of the mandatory
    parameter (sections 2.2 and 8 of RFC 9460). */
module Svcb {
  import opened Bytes
  import opened Memory

  type U16 = n: int | 0 <= n < 65536

  type Value = v: Key | |v| < 65536

  datatype Param = Param(key: U16, value: Value)

  // ---- Wire form ----

  /** Big-endian. */
  function Put16(n: U16): Key {
    [n / 256, n % 256]
  }

  function Get16(b: Key, at: nat): U16
    requires at + 2 <= |b|
  {
    b[at] as int * 256 + b[at + 1] as int
  }

  function ParamBytes(p: Param): (b: Key)
    ensures |b| == 4 + |p.value|
  {
    Put16(p.key) + Put16(|p.value|) + p.value
  }

  ghost function Encode(ps: seq<Param>): Key
  {
    if |ps| == 0 then [] else ParamBytes(ps[0]) + Encode(ps[1..])
  }

  ghost function Offset(ps: seq<Param>, i: nat): nat
    requires i <= |ps|
  {
    |Encode(ps[..i])|
  }

  lemma {:induction false} EncodeConcat(a: seq<Param>, b: seq<Param>)
    ensures Encode(a + b) == Encode(a) + Encode(b)
    decreases |a|
  {
    if |a| == 0 {
      assert a + b == b;
    } else {
      assert (a + b)[1..] == a[1..] + b;
      EncodeConcat(a[1..], b);
    }
  }

  lemma EncodeOne(p: Param)
    ensures Encode([p]) == ParamBytes(p)
  {
    assert [p][1..] == [];
  }

  lemma CutSeq(ps: seq<Param>, i: nat)
    requires i <= |ps|
    ensures ps == ps[..i] + ps[i..]
    ensures i < |ps| ==> ps[..i + 1] == ps[..i] + [ps[i]]
  {
  }

  /** Cutting the parameters cuts the wire form. */
  lemma Cut(ps: seq<Param>, i: nat)
    requires i <= |ps|
    ensures Encode(ps) == Encode(ps[..i]) + Encode(ps[i..])
  {
    hide Encode;
    CutSeq(ps, i);
    EncodeConcat(ps[..i], ps[i..]);
  }

  lemma ReadParam(a: Key, p: Param, c: Key)
    ensures var b := a + ParamBytes(p) + c;
            Get16(b, |a|) == p.key && Get16(b, |a| + 2) == |p.value|
  {
    var b, r := a + ParamBytes(p) + c, ParamBytes(p);
    assert b[|a|] == r[0] && b[|a| + 1] == r[1] && b[|a| + 2] == r[2] && b[|a| + 3] == r[3];
  }

  /** Parameter i is found at its offset, and the next one behind it. */
  lemma ParamAt(ps: seq<Param>, i: nat)
    requires i < |ps|
    ensures var b, off := Encode(ps), Offset(ps, i);
            && off + 4 + |ps[i].value| <= |b| && Get16(b, off) == ps[i].key && Get16(b, off + 2) == |ps[i].value|
            && Offset(ps, i + 1) == off + 4 + |ps[i].value|
            && b[off + 4..off + 4 + |ps[i].value|] == ps[i].value
  {
    hide Encode;
    CutSeq(ps, i);
    Cut(ps, i + 1);
    EncodeOne(ps[i]);
    EncodeConcat(ps[..i], [ps[i]]);
    var a, r, c := Encode(ps[..i]), ParamBytes(ps[i]), Encode(ps[i + 1..]);
    ReadParam(a, ps[i], c);
    assert Encode(ps) == a + r + c;
    ValueAt(a, ps[i], c);
  }

  lemma ValueAt(a: Key, p: Param, c: Key)
    ensures (a + ParamBytes(p) + c)[|a| + 4..|a| + 4 + |p.value|] == p.value
  {
    var b, r := a + ParamBytes(p) + c, ParamBytes(p);
    assert r[4..] == p.value;
    assert b[|a|..|a| + |r|] == r;
    assert b[|a| + 4..|a| + |r|] == b[|a|..|a| + |r|][4..];
  }

  /** How a parameter lies in memory, octet by octet: key and length with the high octet
      first, then the value. */
  lemma ParamLayout(ps: seq<Param>, i: nat)
    requires i < |ps|
    ensures var b, off, p := Encode(ps), Offset(ps, i), ps[i];
            && off + 4 + |p.value| == Offset(ps, i + 1) <= |b|
            && b[off] == p.key / 256 && b[off + 1] == p.key % 256
            && b[off + 2] == |p.value| / 256 && b[off + 3] == |p.value| % 256
            && b[off + 4..off + 4 + |p.value|] == p.value
  {
    hide Encode;
    ParamAt(ps, i);
    OffsetIn(ps, i + 1);
    CutSeq(ps, i);
    Cut(ps, i + 1);
    EncodeOne(ps[i]);
    EncodeConcat(ps[..i], [ps[i]]);
    var a, r, c := Encode(ps[..i]), ParamBytes(ps[i]), Encode(ps[i + 1..]);
    assert Encode(ps) == a + r + c;
    assert forall k :: 0 <= k < |r| ==> (a + r + c)[|a| + k] == r[k];
  }

  /** Two octets with the high one first are in octet order exactly as their numbers. */
  lemma NetworkOrder(a: Byte, b: Byte, c: Byte, d: Byte)
    ensures LexLess([a, b], [c, d]) <==> a * 256 + b < c * 256 + d
  {
    var x: Key, y: Key, u: Key, v: Key := [a, b], [c, d], [b], [d];
    assert x[1..] == u && y[1..] == v && u[1..] == [] && v[1..] == [];
    assert LexLess(u, v) <==> b < d;
  }

  /** In a sorted list the key octets of the parameters are in octet order. */
  lemma KeyOctetsSorted(ps: seq<Param>, i: nat, j: nat)
    requires Increasing(ps) && i < j < |ps|
    ensures Offset(ps, i) + 2 <= |Encode(ps)| && Offset(ps, j) + 2 <= |Encode(ps)|
    ensures var b, x, y := Encode(ps), Offset(ps, i), Offset(ps, j); LexLess(b[x..x + 2], b[y..y + 2])
  {
    hide Encode, LexLess;
    ParamLayout(ps, i);
    ParamLayout(ps, j);
    var b, x, y := Encode(ps), Offset(ps, i), Offset(ps, j);
    assert b[x..x + 2] == [b[x], b[x + 1]] && b[y..y + 2] == [b[y], b[y + 1]];
    NetworkOrder(b[x], b[x + 1], b[y], b[y + 1]);
  }

  // ---- Order ----

  ghost predicate Increasing(ps: seq<Param>) {
    forall i, j :: 0 <= i < j < |ps| ==> ps[i].key < ps[j].key
  }

  ghost predicate HasKey(ps: seq<Param>, k: int) {
    exists i :: 0 <= i < |ps| && ps[i].key == k
  }

  /** The greatest key, -1 for no parameters. */
  ghost function LastKey(ps: seq<Param>): int {
    if |ps| == 0 then -1 else ps[|ps| - 1].key
  }

  lemma Inserted(ps: seq<Param>, i: nat, p: Param)
    requires Increasing(ps) && i <= |ps|
    requires forall j :: 0 <= j < i ==> ps[j].key < p.key
    requires i < |ps| ==> p.key < ps[i].key
    ensures var q := ps[..i] + [p] + ps[i..];
            && Increasing(q) && multiset(q) == multiset(ps) + multiset{p} && !HasKey(ps, p.key)
            && LastKey(q) == if i == |ps| then p.key else LastKey(ps)
  {
    InsertedCount(ps, i, p);
    var q := ps[..i] + [p] + ps[i..];
    assert forall j :: i <= j < |ps| ==> p.key < ps[j].key;
    forall x, y | 0 <= x < y < |q|
      ensures q[x].key < q[y].key
    {
      assert x != i ==> q[x] == ps[if x < i then x else x - 1];
      assert y != i ==> q[y] == ps[if y < i then y else y - 1];
    }
  }

  lemma InsertedCount(ps: seq<Param>, i: nat, p: Param)
    requires i <= |ps|
    ensures multiset(ps[..i] + [p] + ps[i..]) == multiset(ps) + multiset{p}
  {
    assert ps == ps[..i] + ps[i..];
  }

  lemma InsertedBytes(ps: seq<Param>, i: nat, p: Param)
    requires i <= |ps|
    ensures Encode(ps[..i] + [p] + ps[i..]) == Encode(ps[..i]) + ParamBytes(p) + Encode(ps[i..])
  {
    hide Encode, ParamBytes;
    EncodeOne(p);
    EncodeConcat(ps[..i], [p]);
    EncodeConcat(ps[..i] + [p], ps[i..]);
  }

  datatype SortResult = SORT_OK | DUPLICATE_SVCB_KEY

  /** The octets from mid on move to the front of the range. */
  method Rotate(a: array<Byte>, lo: nat, mid: nat, hi: nat)
    requires lo <= mid <= hi <= a.Length
    modifies a
    ensures a[lo..hi] == old(a[mid..hi]) + old(a[lo..mid])
    ensures a[..lo] == old(a[..lo]) && a[hi..] == old(a[hi..])
  {
    var buffer := a[mid..hi];
    var n := hi - mid;
    ghost var w0 := a[..];
    MemMove(a, lo + n, lo, mid - lo);
    ghost var w1 := a[..];
    MemCpy(a, lo, buffer);
    TwoCopies(w0, w1, a[..], lo, mid, hi);
  }

  lemma TwoCopies(w0: Key, w1: Key, w2: Key, lo: nat, mid: nat, hi: nat)
    requires lo <= mid <= hi <= |w0| == |w1| == |w2|
    requires var d := lo + (hi - mid);
             && w1[..d] == w0[..d] && w1[d..hi] == w0[lo..mid] && w1[hi..] == w0[hi..]
             && w2[..lo] == w1[..lo] && w2[lo..d] == w0[mid..hi] && w2[d..] == w1[d..]
    ensures w2[lo..hi] == w0[mid..hi] + w0[lo..mid] && w2[..lo] == w0[..lo] && w2[hi..] == w0[hi..]
  {
    var d := lo + (hi - mid);
    Between(w1, w2, d, hi);
    assert w2[lo..hi] == w2[lo..d] + w2[d..hi];
    assert w0[..lo] == w0[..d][..lo] && w1[..lo] == w1[..d][..lo];
  }

  lemma Between(a: Key, b: Key, d: nat, hi: nat)
    requires d <= hi <= |a| == |b| && a[d..] == b[d..]
    ensures a[d..hi] == b[d..hi] && a[hi..] == b[hi..]
  {
    assert a[d..hi] == a[d..][..hi - d] && b[d..hi] == b[d..][..hi - d];
    assert a[hi..] == a[d..][hi - d..] && b[hi..] == b[d..][hi - d..];
  }

  /** The scanner's view of the record data: parameters from `params` on, the newest
      from `param` on, up to `tail`. */
  class Scanner {
    const rdata: array<Byte>
    const params: nat
    var param: nat
    var tail: nat
    var lastKey: int
    ghost var ps: seq<Param>
    ghost var written: seq<Param>

    /** The parameters stored are those written, in strictly increasing order of keys. */
    ghost predicate Valid()
      reads this, rdata
    {
      && params <= tail <= rdata.Length && rdata[params..tail] == Encode(ps)
      && Increasing(ps) && multiset(ps) == multiset(written)
      && lastKey == LastKey(ps)
    }

    constructor (rdata_: array<Byte>, tail_: nat)
      requires tail_ <= rdata_.Length
      ensures Valid() && rdata == rdata_ && written == [] && params == tail == tail_
    {
      rdata, params, param, tail, lastKey := rdata_, tail_, tail_, tail_, -1;
      ps, written := [], [];
    }

    /** One more parameter in the zone file: its octets are written at the end and put
        in their place. A key that is there already is the only refusal. */
    method Append(p: Param) returns (ret: SortResult)
      requires Valid() && tail + 4 + |p.value| <= rdata.Length
      modifies this, rdata
      ensures tail == old(tail) + 4 + |p.value|
      ensures ret == DUPLICATE_SVCB_KEY <==> HasKey(old(ps), p.key)
      ensures ret == SORT_OK ==> Valid() && written == old(written) + [p]
      ensures rdata[..params] == old(rdata[..params])
    {
      hide Encode, ParamBytes;
      ghost var w := rdata[..];
      MemCpy(rdata, tail, ParamBytes(p));
      param := tail;
      tail := tail + 4 + |p.value|;
      SamePart(w, rdata[..], params, param);
      ghost var q;
      ret, lastKey, q := Sort(rdata, params, param, tail, lastKey, ps, p);
      if ret == SORT_OK {
        ps, written := q, written + [p];
      }
    }
  }

  lemma SamePart(w: Key, w': Key, lo: nat, hi: nat)
    requires lo <= hi <= |w| && hi <= |w'| && w[..hi] == w'[..hi]
    ensures w[lo..hi] == w'[lo..hi] && w[..lo] == w'[..lo]
  {
    assert w[lo..hi] == w[..hi][lo..] && w'[lo..hi] == w'[..hi][lo..];
    assert w[..lo] == w[..hi][..lo] && w'[..lo] == w'[..hi][..lo];
  }

  ghost predicate DistinctKeys(ps: seq<Param>) {
    forall i, j :: 0 <= i < j < |ps| ==> ps[i].key != ps[j].key
  }

  /** A whole record: all parameters are taken, in any order, exactly if no key is given
      twice, and end up sorted. */
  method AppendAll(sc: Scanner, inputs: seq<Param>) returns (ret: SortResult)
    requires sc.Valid() && sc.written == [] && sc.tail + |Encode(inputs)| <= sc.rdata.Length
    modifies sc, sc.rdata
    ensures ret == SORT_OK <==> DistinctKeys(inputs)
    ensures ret == SORT_OK ==> sc.Valid() && multiset(sc.ps) == multiset(inputs)
  {
    hide Encode, ParamBytes, Increasing, LastKey;
    var i := 0;
    ret := SORT_OK;
    ghost var start := sc.tail;
    OffsetEnds(inputs);
    while i < |inputs|
      invariant 0 <= i <= |inputs| && sc.Valid() && sc.written == inputs[..i] && DistinctKeys(inputs[..i])
      invariant sc.tail == start + Offset(inputs, i) && ret == SORT_OK
      invariant start + |Encode(inputs)| <= sc.rdata.Length
    {
      ParamAt(inputs, i);
      KeysWritten(sc.ps, inputs, i);
      ret := sc.Append(inputs[i]);
      if ret != SORT_OK {
        return;
      }
      assert inputs[..i + 1] == inputs[..i] + [inputs[i]];
      i := i + 1;
    }
    assert inputs[..i] == inputs;
  }

  lemma KeysWritten(ps: seq<Param>, inputs: seq<Param>, i: nat)
    requires i < |inputs| && multiset(ps) == multiset(inputs[..i]) && DistinctKeys(inputs[..i])
    ensures HasKey(ps, inputs[i].key) ==> !DistinctKeys(inputs)
    ensures !HasKey(ps, inputs[i].key) ==> DistinctKeys(inputs[..i + 1])
  {
    if HasKey(ps, inputs[i].key) {
      var j :| 0 <= j < |ps| && ps[j].key == inputs[i].key;
      assert ps[j] in multiset(ps);
      assert ps[j] in inputs[..i];
      var k :| 0 <= k < i && inputs[..i][k] == ps[j];
      assert inputs[k] == ps[j];
    } else {
      forall k | 0 <= k < i
        ensures inputs[k].key != inputs[i].key
      {
        assert inputs[..i][k] == inputs[k] && inputs[k] in multiset(inputs[..i]);
        assert inputs[k] in ps;
      }
    }
  }

  /** svcb_sort: moves the newest parameter to its place. */
  method Sort(rdata: array<Byte>, params: nat, curr: nat, end: nat, last: int, ghost ps: seq<Param>, ghost p: Param)
    returns (ret: SortResult, last': int, ghost q: seq<Param>)
    requires params <= curr <= end <= rdata.Length && Increasing(ps) && last == LastKey(ps)
    requires rdata[params..curr] == Encode(ps) && rdata[curr..end] == ParamBytes(p)
    modifies rdata
    ensures ret == DUPLICATE_SVCB_KEY <==> HasKey(ps, p.key)
    ensures ret == DUPLICATE_SVCB_KEY ==> rdata[..] == old(rdata[..]) && last' == last
    ensures ret == SORT_OK ==>
              && Increasing(q) && multiset(q) == multiset(ps) + multiset{p}
              && rdata[params..end] == Encode(q) && last' == LastKey(q)
    ensures rdata[..params] == old(rdata[..params])
  {
    hide Encode, ParamBytes, Increasing, HasKey, LastKey;
    var bytes := rdata[params..end];
    ghost var w := rdata[..];
    Joined(w, params, curr, end);
    NewestKey(Encode(ps), p);
    var currKey := Get16(bytes, curr - params);
    last', q := last, ps;
    if currKey > last {
      BehindAll(ps, p);
      return SORT_OK, currKey, ps + [p];
    }
    var off, i := Place(bytes, curr - params, currKey, ps);
    if i < 0 {
      return DUPLICATE_SVCB_KEY, last, ps;
    }
    NotBehind(ps, i, p);
    Inserted(ps, i, p);
    MoveIn(rdata, params, params + off, curr, end, ps, i, p);
    return SORT_OK, last, ps[..i] + [p] + ps[i..];
  }

  /** The newest parameter goes in front of parameter i. */
  method MoveIn(rdata: array<Byte>, params: nat, at: nat, curr: nat, end: nat,
                ghost ps: seq<Param>, ghost i: nat, ghost p: Param)
    requires params <= at <= curr <= end <= rdata.Length && i <= |ps| && at == params + Offset(ps, i)
    requires rdata[params..curr] == Encode(ps) && rdata[curr..end] == ParamBytes(p)
    modifies rdata
    ensures rdata[params..end] == Encode(ps[..i] + [p] + ps[i..])
    ensures rdata[..params] == old(rdata[..params])
  {
    hide Encode, ParamBytes;
    ghost var w := rdata[..];
    InsertedBytes(ps, i, p);
    Cut(ps, i);
    Rotate(rdata, at, curr, end);
    Rotated(w, rdata[..], params, at, curr, end);
    CutSlice(w, params, at, curr, Encode(ps[..i]), Encode(ps[i..]));
  }

  lemma NotBehind(ps: seq<Param>, i: nat, p: Param)
    requires i <= |ps| && p.key <= LastKey(ps) && forall j :: 0 <= j < i ==> ps[j].key < p.key
    ensures i < |ps|
  {
  }

  lemma NewestKey(a: Key, p: Param)
    ensures Get16(a + ParamBytes(p), |a|) == p.key
  {
    ReadParam(a, p, []);
    assert a + ParamBytes(p) + [] == a + ParamBytes(p);
  }

  lemma BehindAll(ps: seq<Param>, p: Param)
    requires Increasing(ps) && p.key > LastKey(ps)
    ensures Increasing(ps + [p]) && multiset(ps + [p]) == multiset(ps) + multiset{p} && !HasKey(ps, p.key)
    ensures Encode(ps + [p]) == Encode(ps) + ParamBytes(p) && LastKey(ps + [p]) == p.key
  {
    hide Encode, ParamBytes;
    EncodeOne(p);
    EncodeConcat(ps, [p]);
  }

  /** Offset and position of the first parameter with a greater key; position -1 if the
      key is there. */
  method Place(b: Key, n: nat, key: U16, ghost ps: seq<Param>) returns (off: nat, i: int)
    requires n <= |b| && b[..n] == Encode(ps) && Increasing(ps)
    ensures i < 0 <==> HasKey(ps, key)
    ensures i >= 0 ==> i <= |ps| && off == Offset(ps, i) <= n
    ensures i >= 0 ==> forall j :: 0 <= j < i ==> ps[j].key < key
    ensures 0 <= i < |ps| ==> key < ps[i].key
  {
    hide Encode;
    off, i := 0, 0;
    OffsetEnds(ps);
    while off < n
      invariant 0 <= i <= |ps| && off == Offset(ps, i) <= n
      invariant forall j :: 0 <= j < i ==> ps[j].key < key
      decreases n - off
    {
      InFront(ps, i);
      ParamAt(ps, i);
      assert b[off] == b[..n][off] && b[off + 1] == b[..n][off + 1];
      assert b[off + 2] == b[..n][off + 2] && b[off + 3] == b[..n][off + 3];
      var paramKey, paramLen := Get16(b, off), Get16(b, off + 2);
      if key < paramKey {
        return;
      } else if key == paramKey {
        return off, -1;
      }
      off := off + 4 + paramLen;
      i := i + 1;
    }
    AllPassed(ps, i);
  }

  lemma OffsetEnds(ps: seq<Param>)
    ensures Offset(ps, 0) == 0 && Offset(ps, |ps|) == |Encode(ps)|
  {
    assert ps[..0] == [] && ps[..|ps|] == ps;
  }

  lemma InFront(ps: seq<Param>, i: nat)
    requires i <= |ps| && Offset(ps, i) < |Encode(ps)|
    ensures i < |ps|
  {
    OffsetEnds(ps);
  }

  lemma AllPassed(ps: seq<Param>, i: nat)
    requires i <= |ps| && Offset(ps, i) >= |Encode(ps)|
    ensures i == |ps|
  {
    Cut(ps, i);
    NothingEncoded(ps[i..]);
  }

  lemma NothingEncoded(ps: seq<Param>)
    ensures |Encode(ps)| == 0 <==> ps == []
  {
  }

  lemma Rotated(w: Key, w': Key, params: nat, lo: nat, curr: nat, end: nat)
    requires params <= lo <= curr <= end <= |w| == |w'|
    requires w'[..lo] == w[..lo] && w'[lo..end] == w[curr..end] + w[lo..curr]
    ensures w'[params..end] == w[params..lo] + w[curr..end] + w[lo..curr] && w'[..params] == w[..params]
  {
    assert w'[..params] == w'[..lo][..params] && w[..params] == w[..lo][..params];
    assert w'[params..end] == w'[params..lo] + w'[lo..end];
    assert w'[params..lo] == w'[..lo][params..];
    assert w[params..lo] == w[..lo][params..];
  }

  lemma Joined(w: Key, a: nat, b: nat, c: nat)
    requires a <= b <= c <= |w|
    ensures w[a..c] == w[a..b] + w[b..c]
  {
  }

  lemma CutSlice(w: Key, a: nat, b: nat, c: nat, x: Key, y: Key)
    requires a <= b <= c <= |w| && w[a..c] == x + y && |x| == b - a
    ensures w[a..b] == x && w[b..c] == y
  {
    assert w[a..b] == w[a..c][..b - a] && w[b..c] == w[a..c][b - a..];
  }

  // ---- svcb_check ----

  datatype CheckResult = CHECK_OK | DUPLICATE_SVCB_MANDATORY | MISSING_SVCB_MANDATORY

  /** The keys listed in a mandatory parameter. */
  ghost function Listed(v: Key): seq<U16>
    decreases |v|
  {
    if |v| < 2 then [] else [Get16(v, 0)] + Listed(v[2..])
  }

  lemma {:induction false} ListedAt(v: Key, i: nat)
    ensures |Listed(v)| == |v| / 2
    ensures i < |v| / 2 ==> Listed(v)[i] == Get16(v, 2 * i)
    decreases |v|
  {
    if |v| >= 2 {
      ListedAt(v[2..], if i > 0 then i - 1 else 0);
      if 0 < i < |v| / 2 {
        assert v[2..][2 * (i - 1)] == v[2 * i] && v[2..][2 * (i - 1) + 1] == v[2 * i + 1];
      }
    }
  }

  ghost predicate StrictlyUp(ks: seq<U16>) {
    forall i, j :: 0 <= i < j < |ks| ==> ks[i] < ks[j]
  }

  /** Every key of the list is the key of some parameter. */
  ghost predicate Included(ks: seq<U16>, ps: seq<Param>) {
    forall i :: 0 <= i < |ks| ==> HasKey(ps, ks[i])
  }

  /** The demand on a parameter list: without a mandatory parameter, none; otherwise
      its list is in strictly increasing order and names later parameters. */
  ghost predicate MandatoryOk(ps: seq<Param>) {
    |ps| > 0 && ps[0].key == 0 ==> StrictlyUp(Listed(ps[0].value)) && Included(Listed(ps[0].value), ps[1..])
  }

  ghost predicate SortedList(ks: seq<U16>) {
    forall i, j :: 0 <= i < j < |ks| ==> ks[i] <= ks[j]
  }

  ghost predicate NoDuplicates(ks: seq<U16>) {
    forall i, j :: 0 <= i < j < |ks| ==> ks[i] != ks[j]
  }

  /** For a list that was sorted, strictly increasing means without duplicates. */
  lemma SortedMandatory(ps: seq<Param>)
    requires |ps| > 0 && ps[0].key == 0 && SortedList(Listed(ps[0].value))
    ensures MandatoryOk(ps) <==> NoDuplicates(Listed(ps[0].value)) && Included(Listed(ps[0].value), ps[1..])
  {
    var ks := Listed(ps[0].value);
    if NoDuplicates(ks) {
      forall i, j | 0 <= i < j < |ks|
        ensures ks[i] < ks[j]
      {
        assert ks[i] <= ks[j] && ks[i] != ks[j];
      }
    }
  }

  /** How far the pass has come: the first i listed keys were found, in order, the last
      of them right before parameter k. */
  ghost predicate FoundSoFar(ks: seq<U16>, ps: seq<Param>, i: nat, k: nat) {
    && i <= |ks| && 1 <= k <= |ps|
    && StrictlyUp(ks[..i]) && Included(ks[..i], ps[1..])
    && (i > 0 ==> ks[i - 1] == ps[k - 1].key)
    && (i == 0 ==> k == 1)
  }

  lemma FoundNext(ks: seq<U16>, ps: seq<Param>, i: nat, k: nat, k': nat)
    requires FoundSoFar(ks, ps, i, k) && Increasing(ps) && i < |ks| && k <= k' < |ps| && ps[k'].key == ks[i]
    ensures FoundSoFar(ks, ps, i + 1, k' + 1)
  {
    assert ks[..i + 1] == ks[..i] + [ks[i]];
    assert ps[1..][k' - 1] == ps[k'];
    if i > 0 {
      assert ks[i - 1] < ks[i];
      forall j | 0 <= j < i
        ensures ks[j] < ks[i]
      {
        assert j < i - 1 ==> ks[..i][j] < ks[..i][i - 1];
      }
    }
  }

  lemma NotFound(ks: seq<U16>, ps: seq<Param>, i: nat, k: nat)
    requires FoundSoFar(ks, ps, i, k) && Increasing(ps) && i < |ks|
    requires forall j :: k <= j < |ps| ==> ps[j].key != ks[i]
    ensures i > 0 ==> !(ks[i - 1] < ks[i]) || !HasKey(ps[1..], ks[i])
    ensures i == 0 ==> !HasKey(ps[1..], ks[i])
  {
    if HasKey(ps[1..], ks[i]) {
      var j :| 0 <= j < |ps[1..]| && ps[1..][j].key == ks[i];
      assert ps[j + 1].key == ks[i];
    }
  }

  lemma Missing(ks: seq<U16>, ps: seq<Param>, i: nat, k: nat)
    requires FoundSoFar(ks, ps, i, k) && Increasing(ps) && i < |ks| && (i > 0 ==> ks[i - 1] != ks[i])
    requires forall j :: k <= j < |ps| ==> ps[j].key != ks[i]
    ensures !(StrictlyUp(ks) && Included(ks, ps[1..]))
    ensures SortedList(ks) ==> !Included(ks, ps[1..])
  {
    hide Increasing, HasKey;
    NotFound(ks, ps, i, k);
    if i > 0 && SortedList(ks) {
      assert ks[i - 1] <= ks[i];
    }
    if i > 0 && StrictlyUp(ks) {
      assert ks[i - 1] < ks[i];
    }
  }

  lemma Twice(ks: seq<U16>, i: nat)
    requires 0 < i < |ks| && ks[i - 1] == ks[i]
    ensures !StrictlyUp(ks) && !NoDuplicates(ks)
  {
  }

  lemma AllFound(ks: seq<U16>, ps: seq<Param>, k: nat)
    requires FoundSoFar(ks, ps, |ks|, k)
    ensures StrictlyUp(ks) && Included(ks, ps[1..])
  {
    assert ks[..|ks|] == ks;
  }

  lemma NoneFound(ks: seq<U16>, ps: seq<Param>)
    requires |ps| > 0
    ensures FoundSoFar(ks, ps, 0, 1)
  {
  }

  /** The listed key i, as the octets of the parameter show it. */
  lemma ListedBytes(b: Key, ps: seq<Param>, i: nat)
    requires |ps| > 0 && b == Encode(ps)
    ensures |Listed(ps[0].value)| == |ps[0].value| / 2 && |b| >= 4 + |ps[0].value|
    ensures i < |Listed(ps[0].value)| ==> Get16(b, 4 + 2 * i) == Listed(ps[0].value)[i]
  {
    hide Encode;
    ParamAt(ps, 0);
    OffsetEnds(ps);
    var v := ps[0].value;
    ListedAt(v, i);
    if i < |Listed(v)| {
      assert v[2 * i] == b[4..4 + |v|][2 * i] == b[4 + 2 * i];
      assert v[2 * i + 1] == b[4..4 + |v|][2 * i + 1] == b[4 + 2 * i + 1];
    }
  }

  /** The single pass over listed keys and parameters together. */
  method CheckList(b: Key, mandatSize: nat, ghost ps: seq<Param>) returns (ret: CheckResult)
    requires |ps| > 0 && b == Encode(ps) && Increasing(ps) && mandatSize == |ps[0].value|
    ensures var ks := Listed(ps[0].value);
            && (ret == CHECK_OK <==> StrictlyUp(ks) && Included(ks, ps[1..]))
            && (ret == DUPLICATE_SVCB_MANDATORY ==> !NoDuplicates(ks))
            && (ret == MISSING_SVCB_MANDATORY ==> (SortedList(ks) ==> !Included(ks, ps[1..])))
  {
    hide Encode, Listed, StrictlyUp, Included, Increasing, SortedList, NoDuplicates, FoundSoFar;
    ghost var ks := Listed(ps[0].value);
    ListedBytes(b, ps, 0);
    ParamAt(ps, 0);
    OffsetEnds(ps);
    NoneFound(ks, ps);
    var mandatCount := mandatSize / 2;
    var pos, k := 4 + mandatSize, 1;
    var i := 0;
    while i < mandatCount
      invariant 0 <= i <= mandatCount && 1 <= k <= |ps| && pos == Offset(ps, k)
      invariant FoundSoFar(ks, ps, i, k)
    {
      ListedBytes(b, ps, i);
      if i > 0 {
        ListedBytes(b, ps, i - 1);
        if Get16(b, 4 + 2 * (i - 1)) == Get16(b, 4 + 2 * i) {
          Twice(ks, i);
          return DUPLICATE_SVCB_MANDATORY;
        }
      }
      var found, pos', k' := FindKey(b, pos, Get16(b, 4 + 2 * i), ps, k);
      if !found {
        Missing(ks, ps, i, k);
        return MISSING_SVCB_MANDATORY;
      }
      FoundNext(ks, ps, i, k, k' - 1);
      pos, k := pos', k';
      i := i + 1;
    }
    AllFound(ks, ps, k);
    return CHECK_OK;
  }

  /** The inner loop: goes behind the next parameter with the key, or to the end. */
  method FindKey(b: Key, pos0: nat, key: U16, ghost ps: seq<Param>, k0: nat) returns (found: bool, pos: nat, k: nat)
    requires b == Encode(ps) && k0 <= |ps| && pos0 == Offset(ps, k0)
    ensures k0 <= k <= |ps| && pos == Offset(ps, k)
    ensures found ==> k0 < k && ps[k - 1].key == key
    ensures !found ==> forall j :: k0 <= j < |ps| ==> ps[j].key != key
  {
    hide Encode;
    found, pos, k := false, pos0, k0;
    OffsetIn(ps, k);
    while pos < |b| && !found
      invariant k0 <= k <= |ps| && pos == Offset(ps, k) <= |b|
      invariant forall j :: k0 <= j < (if found then k - 1 else k) ==> ps[j].key != key
      invariant found ==> k0 < k && ps[k - 1].key == key
      decreases |b| - pos, !found
    {
      InFront(ps, k);
      ParamAt(ps, k);
      var paramLen := Get16(b, pos + 2);
      if Get16(b, pos) == key {
        found := true;
      }
      pos := pos + 4 + paramLen;
      k := k + 1;
    }
    if !found {
      AllPassed(ps, k);
    }
  }

  lemma OffsetIn(ps: seq<Param>, k: nat)
    requires k <= |ps|
    ensures Offset(ps, k) <= |Encode(ps)|
  {
    Cut(ps, k);
  }

  method Check(rdata: Key, params: nat, end: nat, ghost ps: seq<Param>) returns (ret: CheckResult)
    requires params <= end <= |rdata| && rdata[params..end] == Encode(ps) && Increasing(ps)
    ensures ret == CHECK_OK <==> MandatoryOk(ps)
    ensures ret == DUPLICATE_SVCB_MANDATORY ==> |ps| > 0 && !NoDuplicates(Listed(ps[0].value))
    ensures ret == MISSING_SVCB_MANDATORY ==>
              |ps| > 0 && (SortedList(Listed(ps[0].value)) ==> !Included(Listed(ps[0].value), ps[1..]))
  {
    hide Encode, Listed, StrictlyUp, Included, Increasing, SortedList, NoDuplicates;
    var b := rdata[params..end];
    NothingEncoded(ps);
    if params == end {
      return CHECK_OK;
    }
    ParamAt(ps, 0);
    OffsetEnds(ps);
    if b[0] != 0 || b[1] != 0 {
      return CHECK_OK;
    }
    var mandatSize := Get16(b, 2);
    ret := CheckList(b, mandatSize, ps);
  }
}
