/** Exact lookup and the branching point of a key (trie.c, trie_get_try and
    ns_find_branch). */
module TrieSearch {
  import opened Bytes
  import opened Options
  import opened Nibbles
  import opened TrieTree
  import opened TrieHeap

  /** The twig under the key's bit is the only one that can hold the key. */
  lemma OnlyTwig(t: Tree, key: Key, i: nat, e: Entry)
    requires WF(t) && t.Branch? && e in Entries(t)
    requires Nib(e.key, t.index) == Nib(key, t.index)
    ensures Nib(key, t.index) in t.bits
    ensures i < |t.bits| && t.bits[i] == Nib(key, t.index) ==> e in Entries(t.twigs[i])
  {
    InEntriesAll(t.twigs, e);
    var j :| 0 <= j < |t.twigs| && e in Entries(t.twigs[j]);
    if i < |t.bits| && t.bits[i] == t.bits[j] {
      assert i == j;
    }
  }

  lemma TwigIn(t: Tree, i: nat, e: Entry)
    requires t.Branch? && i < |t.twigs| && e in Entries(t.twigs[i])
    ensures e in Entries(t)
  {
    InEntriesAll(t.twigs, e);
  }

  /** The entries of t for the key are those of c. */
  ghost predicate SameFor(t: Tree, c: Tree, key: Key) {
    forall v :: Entry(key, v) in Entries(t) <==> Entry(key, v) in Entries(c)
  }

  lemma SameForTwig(t: Tree, c: Tree, key: Key, i: nat)
    requires SameFor(t, c, key) && WF(c) && c.Branch?
    requires i < |c.bits| && c.bits[i] == Nib(key, c.index)
    ensures SameFor(t, c.twigs[i], key)
  {
    forall v
      ensures Entry(key, v) in Entries(t) <==> Entry(key, v) in Entries(c.twigs[i])
    {
      if Entry(key, v) in Entries(t) {
        OnlyTwig(c, key, i, Entry(key, v));
      }
      if Entry(key, v) in Entries(c.twigs[i]) {
        TwigIn(c, i, Entry(key, v));
      }
    }
  }

  /** What a list of entries answers for a key. */
  ghost function Lookup(es: seq<Entry>, key: Key): Option<Val> {
    if key in MapOf(es) then Some(MapOf(es)[key]) else None
  }

  lemma LookupNone(t: Tree, c: Tree, key: Key)
    requires WF(t) && WF(c) && SameFor(t, c, key)
    requires if c.Leaf? then c.key != key else Nib(key, c.index) !in c.bits
    ensures Lookup(Entries(t), key) == None
  {
    EntriesSorted(t);
    MapOfSorted(Entries(t));
    var m := MapOf(Entries(t));
    if key in m {
      var e := Entry(key, m[key]);
      assert e in Entries(c);
      if c.Branch? {
        OnlyTwig(c, key, 0, e);
      }
    }
  }

  lemma LookupSome(t: Tree, c: Tree, key: Key)
    requires WF(t) && SameFor(t, c, key) && c.Leaf? && c.key == key
    ensures Lookup(Entries(t), key) == Some(c.val)
  {
    EntriesSorted(t);
    MapOfSorted(Entries(t));
    assert Entry(key, c.val) in Entries(c);
    assert Entry(key, c.val) in Entries(t);
  }

  /** Lookup in a trie is lookup in the map it stands for. */
  method GetTry(h: Heap, tbl: Trie, key: Key, ghost ts: seq<Tree>) returns (r: Option<Val>)
    requires Stands(h, tbl, ts)
    ensures r == Lookup(EntriesAll(ts), key)
  {
    StandsEmpty(h, tbl, ts);
    if tbl.weight == 0 {
      return None;
    }
    ghost var t := ts[0];
    var n := tbl.root;
    ghost var c := t;
    while n.BranchNode?
      invariant Rep(h, c) && WF(c) && Strip(n) == NodeOf(c)
      invariant SameFor(t, c, key)
      decreases c
    {
      var b := Nib(key, n.index);
      if b !in n.bits {
        LookupNone(t, c, key);
        return None;
      }
      var i := TwigOff(n.bits, b);
      TwigOffIsRank(n.bits, b);
      SameForTwig(t, c, key, i);
      n := h[n.twigs].nodes[i];
      c := c.twigs[i];
    }
    if Compare(key, h[n.key].chars) != 0 {
      LookupNone(t, c, key);
      return None;
    }
    LookupSome(t, c, key);
    return Some(n.val);
  }

  // ---- The branching point ----

  /** Every entry of subtree c shares at least as much with the key as any entry
      of t outside c does. */
  ghost predicate Closest(t: Tree, c: Tree, key: Key) {
    forall e, x, n: nat :: e in Entries(t) && e !in Entries(c) && x in Entries(c) && Agree(key, e.key, n)
      ==> Agree(key, x.key, n)
  }

  lemma ClosestStep(t: Tree, c: Tree, key: Key, i: nat)
    requires Closest(t, c, key) && WF(c) && c.Branch? && i < |c.twigs|
    requires Nib(key, c.index) in c.bits ==> c.bits[i] == Nib(key, c.index)
    ensures Closest(t, c.twigs[i], key)
  {
    forall e, x, n: nat | e in Entries(t) && e !in Entries(c.twigs[i]) && x in Entries(c.twigs[i])
                          && Agree(key, e.key, n)
      ensures Agree(key, x.key, n)
    {
      TwigIn(c, i, x);
      if e in Entries(c) {
        if n > c.index {
          assert Nib(key, c.index) == Nib(e.key, c.index);
          OnlyTwig(c, key, i, e);
          assert false;
        }
        assert Agree(e.key, x.key, c.index);
      }
    }
  }

  /** The first byte in which two keys differ, and then the half of it. */
  lemma {:induction false} FirstDiffBytes(a: Key, b: Key, n: nat)
    requires a != b && n <= |a| && n <= |b| && a[..n] == b[..n]
    requires n == |a| || n == |b| || a[n] != b[n]
    ensures FirstDiff(a, b) ==
            2 * n + (if n < |a| && n < |b| && a[n] / 16 == b[n] / 16 then 1 else 0)
    decreases n
  {
    if n > 0 {
      assert a[0] == a[..n][0] == b[..n][0] == b[0];
      assert a == [a[0]] + a[1..] && b == [b[0]] + b[1..];
      assert a[1..][..n - 1] == a[..n][1..] && b[1..][..n - 1] == b[..n][1..];
      FirstDiffBytes(a[1..], b[1..], n - 1);
    }
  }

  datatype Diff = Exact | Differs(index: nat)

  /** Where two keys first differ, as the byte loop of ns_find_branch finds it. */
  method FindDiff(key: Key, lkey: Key) returns (d: Diff)
    ensures d == if key == lkey then Exact else Differs(FirstDiff(key, lkey))
  {
    var bytei := 0;
    while bytei < |key| && bytei < |lkey| && key[bytei] == lkey[bytei]
      invariant bytei <= |key| && bytei <= |lkey| && key[..bytei] == lkey[..bytei]
    {
      bytei := bytei + 1;
    }
    var index := 2 * bytei;
    if bytei == |key| && |key| == |lkey| {
      assert key == key[..bytei] && lkey == lkey[..bytei];
      return Exact;
    }
    FirstDiffBytes(key, lkey, bytei);
    if bytei < |key| && bytei < |lkey| {
      if key[bytei] / 16 == lkey[bytei] / 16 {
        index := index + 1;
      }
    }
    return Differs(index);
  }

  /** All branches strictly above the end of the path have a smaller index. */
  ghost predicate AncestorsBelow(t: Tree, p: Path, d: nat)
    requires ValidPath(t, p)
    decreases |p|
  {
    |p| > 0 ==> t.index < d && AncestorsBelow(t.twigs[p[0]], p[1..], d)
  }

  lemma {:induction false} ParentBelow(t: Tree, p: Path, d: nat)
    requires WF(t) && |p| > 0 && ValidPath(t, p)
    requires (PathParent(t, p); At(t, p[..|p| - 1]).index < d)
    ensures AncestorsBelow(t, p, d)
    decreases |p|
  {
    PathParent(t, p);
    if |p| > 1 {
      var q := p[1..];
      PathParent(t.twigs[p[0]], q);
      assert q[..|q| - 1] == p[..|p| - 1][1..];
      ParentBelow(t.twigs[p[0]], q, d);
    }
  }

  /** What the branching point of a key is: the leaf of the key itself; or the
      shallowest node on the way whose index reaches the first half-byte d in which
      the key leaves every stored key. */
  ghost predicate Found(t: Tree, key: Key, p: Path, diff: Diff, tbit: nat, kbit: nat)
    requires ValidPath(t, p)
  {
    match diff
    case Exact => At(t, p).Leaf? && At(t, p).key == key
    case Differs(d) =>
      && tbit != kbit == Nib(key, d)
      && (exists e :: e in Entries(At(t, p)) && Agree(key, e.key, d) && Nib(e.key, d) == tbit)
      && (forall e :: e in Entries(t) ==> !Agree(key, e.key, d + 1))
      && (At(t, p).Branch? ==> At(t, p).index >= d)
      && AncestorsBelow(t, p, d)
  }

  method FindLeaf(h: Heap, root: Node, key: Key, ghost t: Tree)
    returns (stack: seq<Slot>, ghost p: Path)
    requires Rep(h, t) && WF(t) && Strip(root) == NodeOf(t)
    ensures ValidPath(t, p) && stack == Stack(t, p)
    ensures At(t, p).Leaf? && Closest(t, At(t, p), key)
  {
    stack, p := [RootSlot], [];
    while Load(h, root, stack[|stack| - 1]).BranchNode?
      invariant ValidPath(t, p) && stack == Stack(t, p)
      invariant WF(At(t, p)) && Rep(h, At(t, p)) && Closest(t, At(t, p), key)
      invariant ValidSlot(h, stack[|stack| - 1])
      invariant Strip(Load(h, root, stack[|stack| - 1])) == NodeOf(At(t, p))
      decreases At(t, p)
    {
      var n := Load(h, root, stack[|stack| - 1]);
      var b := Nib(key, n.index);
      var i := if b in n.bits then TwigOff(n.bits, b) else 0;
      TwigOffIsRank(n.bits, b);
      ClosestStep(t, At(t, p), key, i);
      StackPush(t, p, i);
      PathStep(t, p, i);
      stack := stack + [TwigSlot(n.twigs, i)];
      p := p + [i];
    }
  }

  lemma DiffNobody(t: Tree, l: Tree, key: Key, d: nat)
    requires l.Leaf? && Closest(t, l, key) && key != l.key && d == FirstDiff(key, l.key)
    ensures forall e :: e in Entries(t) ==> !Agree(key, e.key, d + 1)
  {
    FirstDiffIsFirst(key, l.key);
    var x := Entry(l.key, l.val);
    assert x in Entries(l);
    forall e | e in Entries(t)
      ensures !Agree(key, e.key, d + 1)
    {
      assert Nib(key, d) != Nib(x.key, d);
      assert !Agree(key, x.key, d + 1);
      if e in Entries(l) {
        assert e == x;
      }
    }
  }

  method FindBranch(h: Heap, root: Node, key: Key, ghost t: Tree)
    returns (stack: seq<Slot>, diff: Diff, tbit: nat, kbit: nat, ghost p: Path)
    requires Rep(h, t) && WF(t) && Strip(root) == NodeOf(t)
    ensures ValidPath(t, p) && stack == Stack(t, p)
    ensures Found(t, key, p, diff, tbit, kbit)
    ensures diff.Exact? <==> exists e :: e in Entries(t) && e.key == key
  {
    stack, p := FindLeaf(h, root, key, t);
    ghost var leaf := At(t, p);
    ghost var le := Entry(leaf.key, leaf.val);
    LoadAt(h, root, t, p);
    SplitIn(t, p, le);
    var lkey := h[Load(h, root, stack[|stack| - 1]).key].chars;
    diff := FindDiff(key, lkey);
    if diff.Exact? {
      assert le in Entries(t);
      return stack, diff, 0, 0, p;
    }
    var index := diff.index;
    FirstDiffIsFirst(key, lkey);
    DiffNobody(t, leaf, key, index);
    tbit, kbit := Nib(lkey, index), Nib(key, index);
    while |stack| > 1
      invariant ValidPath(t, p) && stack == Stack(t, p)
      invariant le in Entries(At(t, p))
      invariant At(t, p).Branch? ==> At(t, p).index >= index
      decreases |stack|
    {
      StackPop(t, p);
      PathParent(t, p);
      ghost var q := p[..|p| - 1];
      LoadAt(h, root, t, q);
      assert stack[|stack| - 2] == Stack(t, q)[|q|];
      var up := Load(h, root, stack[|stack| - 2]);
      if up.index < index {
        ParentBelow(t, p, index);
        return stack, diff, tbit, kbit, p;
      }
      TwigIn(At(t, q), p[|p| - 1], le);
      stack := stack[..|stack| - 1];
      p := q;
    }
  }
}
