/** A trie keyed by lookup formats answers in the canonical order of DNS names: what
    the lookups of a zone rely on (dname.c and trie.c together). */
module CanonicalZone {
  import opened Bytes
  import opened Options
  import opened Names
  import opened DnameLf
  import opened TrieTree
  import opened TrieHeap
  import opened TrieSearch
  import opened TrieLeq
  import opened TrieWildcard

  /** The map from lookup formats holds the same values as a map from names. */
  ghost predicate Indexes(m: map<Key, Val>, zone: map<seq<Label>, Val>) {
    && (forall n :: n in zone ==> ZeroFree(n) && LfKey(n) in m && m[LfKey(n)] == zone[n])
    && (forall k :: k in m ==> exists n :: n in zone && LfKey(n) == k)
  }

  /** The greatest stored name that does not follow the given one canonically. */
  ghost predicate CanonicalLeq(zone: map<seq<Label>, Val>, name: seq<Label>, ret: Leq, val: Option<Val>) {
    match ret
    case EOK => name in zone && val == Some(zone[name])
    case PREVIOUS =>
      && name !in zone
      && exists n :: n in zone && CanonLess(n, name) && val == Some(zone[n])
                     && forall k :: k in zone && CanonLess(k, name) ==> k == n || CanonLess(k, n)
    case ENOENT => val == None && forall n :: n in zone ==> CanonLess(name, n)
  }

  lemma NameOfKey(m: map<Key, Val>, zone: map<seq<Label>, Val>, k: Key) returns (n: seq<Label>)
    requires Indexes(m, zone) && k in m
    ensures n in zone && LfKey(n) == k && m[k] == zone[n] && ZeroFree(n)
  {
    n :| n in zone && LfKey(n) == k;
  }

  lemma StoredName(m: map<Key, Val>, zone: map<seq<Label>, Val>, name: seq<Label>)
    requires Indexes(m, zone) && ZeroFree(name)
    ensures name in zone <==> LfKey(name) in m
    ensures name in zone ==> m[LfKey(name)] == zone[name]
  {
    if LfKey(name) in m {
      var n := NameOfKey(m, zone, LfKey(name));
      LfInjective(n, name);
    }
  }

  lemma LeqIsCanonical(m: map<Key, Val>, zone: map<seq<Label>, Val>, name: seq<Label>, ret: Leq, val: Option<Val>)
    requires Indexes(m, zone) && ZeroFree(name) && LeqSpec(m, LfKey(name), ret, val)
    ensures CanonicalLeq(zone, name, ret, val)
  {
    hide LfKey, CanonLess, LexLess, ZeroFree;
    StoredName(m, zone, name);
    match ret
    case EOK =>
    case PREVIOUS =>
      var k :| k in m && LexLess(k, LfKey(name)) && val == Some(m[k])
               && forall j :: j in m && LexLess(j, LfKey(name)) ==> j == k || LexLess(j, k);
      var n := NameOfKey(m, zone, k);
      LfOrder(n, name);
      forall i | i in zone && CanonLess(i, name)
        ensures i == n || CanonLess(i, n)
      {
        LfOrder(i, name);
        LfOrder(i, n);
        if LfKey(i) == k {
          LfInjective(i, n);
        }
      }
    case ENOENT =>
      forall n | n in zone
        ensures CanonLess(name, n)
      {
        LfOrder(name, n);
      }
  }

  /** Search a zone by the wire form of a name. */
  method FindPrevious(h: Heap, tbl: Trie, w: Key, pos: nat, ghost ts: seq<Tree>,
                      ghost zone: map<seq<Label>, Val>, ghost name: seq<Label>)
    returns (ret: Leq, val: Option<Val>)
    requires Stands(h, tbl, ts) && Indexes(MapOf(EntriesAll(ts)), zone)
    requires PlainName(w, pos, name) && ZeroFree(name)
    ensures CanonicalLeq(zone, name, ret, val)
  {
    hide Stands, Indexes, PlainName, CanonicalLeq, LeqSpec, LfKey, ZeroFree;
    var storage := new Byte[DNAME_MAXLEN];
    var lf := LfInto(w, pos, storage, name);
    var key := storage[lf + 1..][..storage[lf]];
    assert key == LfKey(name);
    ret, val := GetLeq(h, tbl, key, ts);
    LeqIsCanonical(MapOf(EntriesAll(ts)), zone, name, ret, val);
  }

  // ---- Wildcards ----

  /** The key that a wildcard lookup makes from an encloser is that of its wildcard. */
  lemma WildKeyOfName(ls: seq<Label>)
    ensures WildKey(LfKey(ls)) == LfKey([[42]] + ls)
  {
    var w: seq<Label> := [[42]] + ls;
    assert w[0] == [42] && w[1..] == ls;
    assert LfKey(w) == LfKey(ls) + w[0] + [0];
  }

  lemma LfSuffix(ls: seq<Label>, k: nat)
    requires k <= |ls|
    ensures LfKey(ls) == LfKey(ls[k..]) + LfKey(ls[..k])
  {
    assert ls == ls[..k] + ls[k..];
    LfConcat(ls[..k], ls[k..]);
  }

  /** Zero octets in a lookup format are the ends of labels only. */
  lemma {:induction false} ZeroEndsLabel(ls: seq<Label>, n: nat) returns (k: nat)
    requires ZeroFree(ls) && n <= |LfKey(ls)| && (n > 0 ==> LfKey(ls)[n - 1] == 0)
    ensures k <= |ls| && LfKey(ls)[..n] == LfKey(ls[k..])
    ensures n < |LfKey(ls)| ==> k > 0
    decreases |ls|
  {
    if n == |LfKey(ls)| {
      k := 0;
      assert ls[0..] == ls && LfKey(ls)[..n] == LfKey(ls);
    } else {
      var a := LfKey(ls[1..]);
      forall j | |a| <= j < |LfKey(ls)| - 1
        ensures LfKey(ls)[j] != 0
      {
        assert LfKey(ls)[j] == ls[0][j - |a|] && ls[0][j - |a|] in ls[0];
      }
      k := ZeroEndsLabel(ls[1..], n);
      assert ls[1..][k..] == ls[k + 1..] && LfKey(ls)[..n] == a[..n];
      k := k + 1;
    }
  }

  ghost predicate IsSuffix(s: seq<Label>, ls: seq<Label>) {
    |s| <= |ls| && ls[|ls| - |s|..] == s
  }

  /** Lookup formats start alike exactly if names end alike. */
  lemma PrefixIsSuffix(s: seq<Label>, ls: seq<Label>)
    requires ZeroFree(s) && ZeroFree(ls)
    ensures IsPrefix(LfKey(s), LfKey(ls)) <==> IsSuffix(s, ls)
  {
    if IsPrefix(LfKey(s), LfKey(ls)) {
      var n := |LfKey(s)|;
      assert n > 0 ==> LfKey(ls)[n - 1] == LfKey(s)[n - 1];
      var k := ZeroEndsLabel(ls, n);
      LfInjective(ls[k..], s);
    }
    if IsSuffix(s, ls) {
      LfSuffix(ls, |ls| - |s|);
    }
  }

  /** Leaving out the first k labels gives a proper ancestor that exists in the zone: the
      root, or one at or above a stored name. */
  ghost predicate Existing(zone: map<seq<Label>, Val>, name: seq<Label>, k: nat) {
    0 < k <= |name| && (k == |name| || exists z :: z in zone && IsSuffix(name[k..], z))
  }

  /** The answer to a lookup with wildcards: the name, else the asterisk label in front
      of the closest existing ancestor, else nothing. */
  ghost predicate WildcardByName(zone: map<seq<Label>, Val>, name: seq<Label>, r: Option<Val>) {
    if name in zone then r == Some(zone[name])
    else if |name| == 0 then r == None
    else
      exists k: nat :: Existing(zone, name, k) && (forall j: nat :: Existing(zone, name, j) ==> k <= j)
                       && var wild := [[42]] + name[k..];
                          r == if wild in zone then Some(zone[wild]) else None
  }

  /** Enclosers of a key are the existing ancestors of its name. */
  lemma EncloserIsAncestor(es: seq<Entry>, zone: map<seq<Label>, Val>, name: seq<Label>, n: nat)
    returns (k: nat)
    requires Sorted(es) && Indexes(MapOf(es), zone) && ZeroFree(name) && Encloses(es, LfKey(name), n)
    ensures Existing(zone, name, k) && LfKey(name)[..n] == LfKey(name[k..])
  {
    hide LfKey, LexLess;
    k := ZeroEndsLabel(name, n);
    if n > 0 {
      var e :| e in es && IsPrefix(LfKey(name)[..n], e.key);
      MapOfSorted(es);
      var z := NameOfKey(MapOf(es), zone, e.key);
      PrefixIsSuffix(name[k..], z);
    } else {
      NothingLf(name[k..]);
    }
  }

  lemma NothingLf(ls: seq<Label>)
    ensures LfKey(ls) == [] <==> ls == []
  {
  }

  lemma AncestorIsEncloser(es: seq<Entry>, zone: map<seq<Label>, Val>, name: seq<Label>, k: nat)
    requires Sorted(es) && Indexes(MapOf(es), zone) && ZeroFree(name) && Existing(zone, name, k)
    ensures Encloses(es, LfKey(name), |LfKey(name[k..])|)
  {
    hide LfKey, LexLess;
    LfSuffix(name, k);
    NothingLf(name[..k]);
    NothingLf(name[k..]);
    if k < |name| {
      EndsInZero(name[k..]);
      var z :| z in zone && IsSuffix(name[k..], z);
      PrefixIsSuffix(name[k..], z);
      MapOfSorted(es);
      assert Entry(LfKey(z), zone[z]) in es;
      assert LfKey(name)[..|LfKey(name[k..])|] == LfKey(name[k..]);
    }
  }

  lemma EndsInZero(ls: seq<Label>)
    requires |ls| > 0
    ensures |LfKey(ls)| > 0 && LfKey(ls)[|LfKey(ls)| - 1] == 0
  {
  }

  /** Fewer labels left out, longer lookup format. */
  lemma CloserIsLonger(name: seq<Label>, j: nat, k: nat)
    requires j <= k <= |name|
    ensures |LfKey(name[k..])| <= |LfKey(name[j..])| && (j < k ==> |LfKey(name[k..])| < |LfKey(name[j..])|)
  {
    hide LfKey;
    assert name[j..][k - j..] == name[k..];
    LfSuffix(name[j..], k - j);
    NothingLf(name[j..][..k - j]);
  }

  lemma WildcardIsByName(es: seq<Entry>, zone: map<seq<Label>, Val>, name: seq<Label>, r: Option<Val>)
    requires Sorted(es) && Indexes(MapOf(es), zone) && ZeroFree(name) && WildcardSpec(es, LfKey(name), r)
    ensures WildcardByName(zone, name, r)
  {
    hide LfKey, LexLess, Indexes, MapOf, Sorted, IsSuffix, IsPrefix;
    StoredName(MapOf(es), zone, name);
    NothingLf(name);
    if name !in zone && |name| > 0 {
      var n: nat :| ClosestEncloser(es, LfKey(name), n) && r == Lookup(es, WildKey(LfKey(name)[..n]));
      var k := EncloserIsAncestor(es, zone, name, n);
      forall j: nat | Existing(zone, name, j)
        ensures k <= j
      {
        AncestorIsEncloser(es, zone, name, j);
        if j < k {
          CloserIsLonger(name, j, k);
        }
      }
      WildKeyOfName(name[k..]);
      WildZeroFree(name, k);
      StoredName(MapOf(es), zone, [[42]] + name[k..]);
    }
  }

  lemma WildZeroFree(name: seq<Label>, k: nat)
    requires ZeroFree(name) && k <= |name|
    ensures ZeroFree([[42]] + name[k..])
  {
  }

  /** Look a name up in a zone, by its wire form, with wildcards. */
  method FindWildcard(h: Heap, tbl: Trie, w: Key, pos: nat, ghost ts: seq<Tree>,
                      ghost zone: map<seq<Label>, Val>, ghost name: seq<Label>)
    returns (r: Option<Val>)
    requires Stands(h, tbl, ts) && Indexes(MapOf(EntriesAll(ts)), zone)
    requires PlainName(w, pos, name) && ZeroFree(name)
    ensures WildcardByName(zone, name, r)
  {
    hide Indexes, PlainName, WildcardByName, WildcardSpec, LfKey, ZeroFree, Entries, WF, Rep;
    var storage := new Byte[DNAME_MAXLEN];
    var lf := LfInto(w, pos, storage, name);
    var key := storage[lf + 1..][..storage[lf]];
    assert key == LfKey(name);
    r := GetTryWildcard(h, tbl, key, ts);
    StandsEmpty(h, tbl, ts);
    if |ts| == 1 {
      EntriesSorted(ts[0]);
    }
    WildcardIsByName(EntriesAll(ts), zone, name, r);
  }
}
