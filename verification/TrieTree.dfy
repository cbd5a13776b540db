/** The QP-trie as an inductive value: what a root node and everything reachable
    from it mean. Every node carries the identity of the heap object it owns (the
    twig array of a branch, the key of a leaf). */
module TrieTree {
  import opened Bytes
  import opened Nibbles

  type Id = nat

  /** The application's pointer; 0 is NULL. */
  type Val = int

  const NULL: Val := 0

  datatype Entry = Entry(key: Key, val: Val)

  datatype Tree =
    | Leaf(id: Id, key: Key, val: Val)
    | Branch(id: Id, index: nat, bits: seq<nat>, twigs: seq<Tree>)

  /** The same node with another heap object. */
  ghost function WithId(t: Tree, id: Id): Tree {
    t.(id := id)
  }

  // ---- Contents in order ----

  ghost function Entries(t: Tree): seq<Entry>
    decreases t, 1
  {
    match t
    case Leaf(_, k, v) => [Entry(k, v)]
    case Branch(_, _, _, ts) => EntriesAll(ts)
  }

  ghost function EntriesAll(ts: seq<Tree>): seq<Entry>
    decreases ts, 0
  {
    if |ts| == 0 then [] else Entries(ts[0]) + EntriesAll(ts[1..])
  }

  lemma {:induction false} EntriesAllConcat(a: seq<Tree>, b: seq<Tree>)
    ensures EntriesAll(a + b) == EntriesAll(a) + EntriesAll(b)
    decreases |a|
  {
    if |a| == 0 {
      assert a + b == b;
    } else {
      assert (a + b)[1..] == a[1..] + b;
      EntriesAllConcat(a[1..], b);
    }
  }

  lemma EntriesAllOne(t: Tree)
    ensures EntriesAll([t]) == Entries(t)
  {
    assert [t][1..] == [];
  }

  /** Cutting a list of twigs at one position cuts its entries there. */
  lemma {:induction false} EntriesAllAt(ts: seq<Tree>, i: nat)
    requires i < |ts|
    ensures EntriesAll(ts) == EntriesAll(ts[..i]) + Entries(ts[i]) + EntriesAll(ts[i + 1..])
  {
    var rest := ts[i..];
    assert ts == ts[..i] + rest;
    EntriesAllConcat(ts[..i], rest);
    assert rest[0] == ts[i] && rest[1..] == ts[i + 1..];
  }

  lemma {:induction false} InEntriesAll(ts: seq<Tree>, e: Entry)
    ensures e in EntriesAll(ts) <==> exists i :: 0 <= i < |ts| && e in Entries(ts[i])
    decreases |ts|
  {
    if |ts| > 0 {
      InEntriesAll(ts[1..], e);
      if i :| 0 <= i < |ts| && e in Entries(ts[i]) {
        if i > 0 {
          assert ts[1..][i - 1] == ts[i];
        }
      }
      if i :| 0 <= i < |ts[1..]| && e in Entries(ts[1..][i]) {
        assert ts[i + 1] == ts[1..][i];
      }
    }
  }

  /** The plain map a trie stands for. */
  ghost function MapOf(es: seq<Entry>): map<Key, Val> {
    if |es| == 0 then map[] else MapOf(es[..|es| - 1])[es[|es| - 1].key := es[|es| - 1].val]
  }

  ghost predicate Sorted(es: seq<Entry>) {
    forall i, j :: 0 <= i < j < |es| ==> LexLess(es[i].key, es[j].key)
  }

  lemma LastIsNew(es: seq<Entry>, e: Entry)
    requires Sorted(es) && |es| > 0 && e in es[..|es| - 1]
    ensures e.key != es[|es| - 1].key
  {
    var i :| 0 <= i < |es| - 1 && es[i] == e;
    LexIrreflexive(e.key);
  }

  /** A strictly increasing list has one entry for each key of its map. */
  lemma {:induction false} MapOfSorted(es: seq<Entry>)
    requires Sorted(es)
    ensures |MapOf(es)| == |es|
    ensures forall e :: e in es ==> e.key in MapOf(es) && MapOf(es)[e.key] == e.val
    ensures forall k :: k in MapOf(es) ==> Entry(k, MapOf(es)[k]) in es
    decreases |es|
  {
    hide LexLess;
    if |es| > 0 {
      var n := |es| - 1;
      MapOfSorted(es[..n]);
      if es[n].key in MapOf(es[..n]) {
        LastIsNew(es, Entry(es[n].key, MapOf(es[..n])[es[n].key]));
      }
      assert es == es[..n] + [es[n]];
    }
  }

  // ---- The trie invariant ----

  ghost predicate Increasing(bits: seq<nat>) {
    forall i, j :: 0 <= i < j < |bits| ==> bits[i] < bits[j]
  }

  /** A branch as the source keeps it: at least two twigs packed in bit order, all
      keys equal below the branch's index, each twig under the bit of its keys, and
      indexes that grow downwards. */
  ghost predicate WF(t: Tree) {
    t.Branch? ==>
      && |t.twigs| == |t.bits| >= 2
      && Increasing(t.bits)
      && (forall i :: 0 <= i < |t.bits| ==> t.bits[i] <= 16)
      && (forall i :: 0 <= i < |t.twigs| ==>
            WF(t.twigs[i]) && (t.twigs[i].Branch? ==> t.index < t.twigs[i].index))
      && (forall i, e :: 0 <= i < |t.twigs| && e in Entries(t.twigs[i]) ==> Nib(e.key, t.index) == t.bits[i])
      && (forall e, f :: e in Entries(t) && f in Entries(t) ==> Agree(e.key, f.key, t.index))
  }

  lemma {:induction false} NonEmpty(t: Tree)
    requires WF(t)
    ensures |Entries(t)| > 0
    decreases t
  {
    if t.Branch? {
      NonEmpty(t.twigs[0]);
    }
  }

  lemma UnderTwig(t: Tree, i: nat, e: Entry)
    requires WF(t) && t.Branch? && i < |t.twigs| && e in Entries(t.twigs[i])
    ensures e in Entries(t) && Nib(e.key, t.index) == t.bits[i]
  {
    hide Agree;
    InEntriesAll(t.twigs, e);
  }

  /** Twigs further right hold greater keys. */
  lemma TwigsOrdered(t: Tree, i: nat, j: nat, e: Entry, f: Entry)
    requires WF(t) && t.Branch? && i < j < |t.twigs|
    requires e in Entries(t.twigs[i]) && f in Entries(t.twigs[j])
    ensures LexLess(e.key, f.key)
  {
    hide LexLess, Nib, Entries, Agree;
    UnderTwig(t, i, e);
    UnderTwig(t, j, f);
    NibOrder(e.key, f.key, t.index);
  }

  lemma SortedConcat(a: seq<Entry>, b: seq<Entry>)
    requires Sorted(a) && Sorted(b)
    requires forall e, f :: e in a && f in b ==> LexLess(e.key, f.key)
    ensures Sorted(a + b)
  {
  }

  lemma {:induction false} SortedFrom(t: Tree, i: nat)
    requires WF(t) && t.Branch? && i <= |t.twigs|
    requires forall j :: i <= j < |t.twigs| ==> Sorted(Entries(t.twigs[j]))
    ensures Sorted(EntriesAll(t.twigs[i..]))
    decreases |t.twigs| - i
  {
    if i < |t.twigs| {
      SortedFrom(t, i + 1);
      assert t.twigs[i..][0] == t.twigs[i] && t.twigs[i..][1..] == t.twigs[i + 1..];
      forall e, f | e in Entries(t.twigs[i]) && f in EntriesAll(t.twigs[i + 1..])
        ensures LexLess(e.key, f.key)
      {
        InEntriesAll(t.twigs[i + 1..], f);
        var j :| 0 <= j < |t.twigs[i + 1..]| && f in Entries(t.twigs[i + 1..][j]);
        assert t.twigs[i + 1..][j] == t.twigs[i + 1 + j];
        TwigsOrdered(t, i, i + 1 + j, e, f);
      }
      SortedConcat(Entries(t.twigs[i]), EntriesAll(t.twigs[i + 1..]));
    }
  }

  /** Reading a trie from left to right gives its keys in ascending byte order. */
  lemma {:induction false} EntriesSorted(t: Tree)
    requires WF(t)
    ensures Sorted(Entries(t))
    decreases t
  {
    if t.Branch? {
      forall j | 0 <= j < |t.twigs|
        ensures Sorted(Entries(t.twigs[j]))
      {
        EntriesSorted(t.twigs[j]);
      }
      SortedFrom(t, 0);
      assert t.twigs[0..] == t.twigs;
    }
  }

  // ---- The bitmap: rank of a bit ----

  /** Number of twigs stored below a bit (trie.c, twigoff). */
  function TwigOff(bits: seq<nat>, b: nat): (r: nat)
    ensures r <= |bits|
  {
    if |bits| == 0 then 0
    else TwigOff(bits[..|bits| - 1], b) + (if bits[|bits| - 1] < b then 1 else 0)
  }

  lemma {:induction false} TwigOffIsRank(bits: seq<nat>, b: nat)
    requires Increasing(bits)
    ensures forall j :: 0 <= j < TwigOff(bits, b) ==> bits[j] < b
    ensures forall j :: TwigOff(bits, b) <= j < |bits| ==> bits[j] >= b
    decreases |bits|
  {
    if |bits| > 0 {
      TwigOffIsRank(bits[..|bits| - 1], b);
    }
  }

  lemma TwigOffOf(bits: seq<nat>, i: nat)
    requires Increasing(bits) && i < |bits|
    ensures TwigOff(bits, bits[i]) == i
  {
    TwigOffIsRank(bits, bits[i]);
  }

  // ---- Paths ----

  type Path = seq<nat>

  ghost predicate ValidPath(t: Tree, p: Path) {
    |p| == 0 || (t.Branch? && p[0] < |t.twigs| && ValidPath(t.twigs[p[0]], p[1..]))
  }

  ghost function At(t: Tree, p: Path): Tree
    requires ValidPath(t, p)
    decreases |p|
  {
    if |p| == 0 then t else At(t.twigs[p[0]], p[1..])
  }

  ghost function Before(t: Tree, p: Path): seq<Entry>
    requires ValidPath(t, p)
    decreases |p|
  {
    if |p| == 0 then [] else EntriesAll(t.twigs[..p[0]]) + Before(t.twigs[p[0]], p[1..])
  }

  ghost function After(t: Tree, p: Path): seq<Entry>
    requires ValidPath(t, p)
    decreases |p|
  {
    if |p| == 0 then [] else After(t.twigs[p[0]], p[1..]) + EntriesAll(t.twigs[p[0] + 1..])
  }

  lemma {:induction false} EntriesSplit(t: Tree, p: Path)
    requires ValidPath(t, p)
    ensures Entries(t) == Before(t, p) + Entries(At(t, p)) + After(t, p)
    decreases |p|
  {
    if |p| > 0 {
      EntriesAllAt(t.twigs, p[0]);
      EntriesSplit(t.twigs[p[0]], p[1..]);
    }
  }

  /** Going one node further down. */
  lemma {:induction false} PathStep(t: Tree, p: Path, i: nat)
    requires ValidPath(t, p)
    requires At(t, p).Branch? && i < |At(t, p).twigs|
    ensures ValidPath(t, p + [i])
    ensures At(t, p + [i]) == At(t, p).twigs[i]
    ensures Before(t, p + [i]) == Before(t, p) + EntriesAll(At(t, p).twigs[..i])
    ensures After(t, p + [i]) == EntriesAll(At(t, p).twigs[i + 1..]) + After(t, p)
    decreases |p|
  {
    if |p| == 0 {
      assert p + [i] == [i];
      assert [i][1..] == [];
    } else {
      assert (p + [i])[1..] == p[1..] + [i];
      PathStep(t.twigs[p[0]], p[1..], i);
    }
  }

  lemma {:induction false} PathParent(t: Tree, p: Path)
    requires |p| > 0 && ValidPath(t, p)
    ensures ValidPath(t, p[..|p| - 1])
    ensures At(t, p[..|p| - 1]).Branch? && p[|p| - 1] < |At(t, p[..|p| - 1]).twigs|
    ensures At(t, p) == At(t, p[..|p| - 1]).twigs[p[|p| - 1]]
    decreases |p|
  {
    if |p| > 1 {
      PathParent(t.twigs[p[0]], p[1..]);
      assert p[1..][..|p| - 2] == p[..|p| - 1][1..];
    } else {
      assert p[1..] == [] && p[..0] == [];
    }
  }

  lemma {:induction false} PathPrefix(t: Tree, p: Path, n: nat)
    requires ValidPath(t, p) && n <= |p|
    ensures ValidPath(t, p[..n])
    decreases |p| - n
  {
    if n < |p| {
      PathPrefix(t, p, n + 1);
      PathParent(t, p[..n + 1]);
      assert p[..n + 1][..n] == p[..n];
    } else {
      assert p[..n] == p;
    }
  }

  lemma {:induction false} WFAt(t: Tree, p: Path)
    requires WF(t) && ValidPath(t, p)
    ensures WF(At(t, p))
    decreases |p|
  {
    if |p| > 0 {
      WFAt(t.twigs[p[0]], p[1..]);
    }
  }

  lemma SameTail(a: seq<Entry>, b: seq<Entry>, c: seq<Entry>)
    requires a + b == a + c
    ensures b == c
  {
    assert b == (a + b)[|a|..] && c == (a + c)[|a|..];
  }

  lemma SplitIn(t: Tree, p: Path, e: Entry)
    requires ValidPath(t, p)
    ensures e in Entries(At(t, p)) ==> e in Entries(t)
    ensures e in Before(t, p) ==> e in Entries(t)
    ensures e in After(t, p) ==> e in Entries(t)
  {
    EntriesSplit(t, p);
  }
}
