/** Lookup with DNS wildcard semantics (trie.c, trie_get_try_wildcard). Keys are in
    lookup format: labels end in a zero byte. */
module TrieWildcard {
  import opened Bytes
  import opened Options
  import opened Nibbles
  import opened TrieTree
  import opened TrieHeap
  import opened TrieSearch
  import opened TrieWalk

  const ASTERISK: Byte := 42

  /** The key of the wildcard below an encloser. */
  function WildKey(encloser: Key): Key {
    encloser + [ASTERISK, 0]
  }

  /** The first n bytes of the key are whole labels, fewer than all, and are how some
      stored key starts (or no bytes at all). */
  ghost predicate Encloses(es: seq<Entry>, key: Key, n: nat) {
    && n < |key|
    && (n > 0 ==> key[n - 1] == 0 && exists e :: e in es && IsPrefix(key[..n], e.key))
  }

  /** The closest encloser: the longest such prefix. */
  ghost predicate ClosestEncloser(es: seq<Entry>, key: Key, n: nat) {
    Encloses(es, key, n) && forall m: nat :: Encloses(es, key, m) ==> m <= n
  }

  /** What a wildcard lookup answers: the key itself, else the wildcard below the
      closest encloser, else nothing. */
  ghost predicate WildcardSpec(es: seq<Entry>, key: Key, r: Option<Val>) {
    if key in MapOf(es) || |key| == 0 then r == Lookup(es, key)
    else exists n: nat :: ClosestEncloser(es, key, n) && r == Lookup(es, WildKey(key[..n]))
  }

  lemma AgreeBytes(a: Key, b: Key, n: nat)
    requires n <= |a| && Agree(a, b, 2 * n)
    ensures n <= |b| && a[..n] == b[..n]
  {
    SameBytes(a, b, n);
  }

  /** The closest leaf starts like the key at least as far as any stored key does. */
  lemma ClosestSharesPrefix(t: Tree, l: Tree, key: Key, e: Entry, n: nat)
    requires l.Leaf? && Closest(t, l, key) && e in Entries(t) && n <= |key| && IsPrefix(key[..n], e.key)
    ensures n <= |l.key| && key[..n] == l.key[..n]
  {
    var x := Entry(l.key, l.val);
    assert x in Entries(l);
    PrefixAgrees(key[..n], e.key);
    forall j | 0 <= j < 2 * n
      ensures Nib(key, j) == Nib(e.key, j)
    {
      assert Nib(key[..n], j) == Nib(key, j);
    }
    assert Agree(key, e.key, 2 * n);
    if e !in Entries(l) {
      AgreeBytes(key, l.key, n);
    } else {
      AgreeBytes(key, e.key, n);
    }
  }

  lemma ClosestHasKey(t: Tree, l: Tree, key: Key, e: Entry)
    requires l.Leaf? && Closest(t, l, key) && e in Entries(t) && e.key == key
    ensures l.key == key
  {
    var x := Entry(l.key, l.val);
    assert x in Entries(l);
    if l.key != key {
      FirstDiffIsFirst(key, l.key);
      assert Agree(key, e.key, FirstDiff(key, l.key) + 1);
    }
  }

  lemma ClosestIsStored(t: Tree, l: Tree, key: Key)
    requires WF(t) && l.Leaf? && Closest(t, l, key)
    requires Entry(l.key, l.val) in Entries(t)
    ensures key in MapOf(Entries(t)) <==> l.key == key
    ensures l.key == key ==> MapOf(Entries(t))[key] == l.val
  {
    hide WF, Closest, MapOf, Entries, LexLess;
    EntriesSorted(t);
    MapOfSorted(Entries(t));
    var m := MapOf(Entries(t));
    if key in m {
      ClosestHasKey(t, l, key, Entry(key, m[key]));
    }
  }

  /** Both keys are the same up to and including a zero byte at z, which is not the
      last byte of the first. */
  ghost predicate SharedZero(key: Key, lkey: Key, z: int) {
    0 <= z < |key| - 1 && z < |lkey| && key[z] == 0 && key[..z + 1] == lkey[..z + 1]
  }

  /** Scan the common bytes for the last zero that ends a label of the key. */
  method LastMatchingZero(key: Key, lkey: Key) returns (exact: bool, lmz: int)
    requires |key| > 0
    ensures exact <==> key == lkey
    ensures !exact ==> lmz == -1 || SharedZero(key, lkey, lmz)
    ensures !exact ==> forall z :: SharedZero(key, lkey, z) ==> z <= lmz
  {
    lmz := -1;
    var i := 0;
    while i < |key| && i < |lkey| && key[i] == lkey[i]
      invariant i <= |key| && i <= |lkey| && key[..i] == lkey[..i]
      invariant lmz == -1 || (lmz < i && SharedZero(key, lkey, lmz))
      invariant forall z :: SharedZero(key, lkey, z) && z < i ==> z <= lmz
      invariant i == |key| ==> |key| != |lkey|
    {
      assert key[..i + 1] == lkey[..i + 1];
      if key[i] == 0 && i < |key| - 1 {
        lmz := i;
      }
      if i == |key| - 1 && |key| == |lkey| {
        assert key == key[..i + 1] && lkey == lkey[..i + 1];
        return true, lmz;
      }
      i := i + 1;
    }
    exact := false;
    assert forall z :: SharedZero(key, lkey, z) ==> z < i;
  }

  lemma EncloserFound(t: Tree, l: Tree, key: Key, lmz: int)
    requires WF(t) && l.Leaf? && Closest(t, l, key) && Entry(l.key, l.val) in Entries(t) && |key| > 0
    requires lmz == -1 || SharedZero(key, l.key, lmz)
    requires forall z :: SharedZero(key, l.key, z) ==> z <= lmz
    ensures ClosestEncloser(Entries(t), key, lmz + 1)
  {
    var x := Entry(l.key, l.val);
    assert lmz >= 0 ==> IsPrefix(key[..lmz + 1], x.key);
    forall m: nat | Encloses(Entries(t), key, m)
      ensures m <= lmz + 1
    {
      if m > 0 {
        var e :| e in Entries(t) && IsPrefix(key[..m], e.key);
        ClosestSharesPrefix(t, l, key, e, m);
        assert SharedZero(key, l.key, m - 1);
      }
    }
  }

  method GetTryWildcard(h: Heap, tbl: Trie, key: Key, ghost ts: seq<Tree>) returns (r: Option<Val>)
    requires Stands(h, tbl, ts)
    ensures WildcardSpec(EntriesAll(ts), key, r)
  {
    StandsEmpty(h, tbl, ts);
    if tbl.weight == 0 {
      assert |key| > 0 ==> ClosestEncloser([], key, 0);
      return None;
    }
    ghost var t := ts[0];
    var stack;
    ghost var p;
    stack, p := FindLeaf(h, tbl.root, key, t);
    ghost var l := At(t, p);
    TopOf(h, tbl.root, t, stack, p);
    assert Entry(l.key, l.val) in Entries(l);
    SplitIn(t, p, Entry(l.key, l.val));
    ClosestIsStored(t, l, key);
    var n := Load(h, tbl.root, stack[|stack| - 1]);
    var lkey := h[n.key].chars;
    if |key| == 0 {
      return if |lkey| == 0 then Some(n.val) else None;
    }
    var exact, lmz := LastMatchingZero(key, lkey);
    if exact {
      return Some(n.val);
    }
    EncloserFound(t, l, key, lmz);
    r := GetTry(h, tbl, WildKey(key[..lmz + 1]), ts);
  }
}
