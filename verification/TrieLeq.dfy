/** Less-or-equal search (trie.c, ns_get_leq and trie_get_leq). */
module TrieLeq {
  import opened Bytes
  import opened Options
  import opened Nibbles
  import opened TrieTree
  import opened TrieHeap
  import opened TrieSearch
  import opened TrieWalk

  ghost predicate AllBelow(es: seq<Entry>, key: Key) {
    forall e :: e in es ==> LexLess(e.key, key)
  }

  ghost predicate AllAbove(es: seq<Entry>, key: Key) {
    forall e :: e in es ==> LexLess(key, e.key)
  }

  /** A key that agrees with the keys of branch c up to its index is compared with
      the keys of a twig by that twig's bit. */
  lemma TwigSide(c: Tree, key: Key, x: Entry, j: nat, e: Entry)
    requires WF(c) && c.Branch? && x in Entries(c) && Agree(key, x.key, c.index)
    requires j < |c.twigs| && e in Entries(c.twigs[j])
    ensures c.bits[j] < Nib(key, c.index) ==> LexLess(e.key, key)
    ensures c.bits[j] > Nib(key, c.index) ==> LexLess(key, e.key)
  {
    TwigIn(c, j, e);
    assert Agree(e.key, x.key, c.index);
    if c.bits[j] < Nib(key, c.index) {
      NibOrder(e.key, key, c.index);
    } else if c.bits[j] > Nib(key, c.index) {
      NibOrder(key, e.key, c.index);
    }
  }

  lemma TwigsBelow(c: Tree, key: Key, x: Entry, i: nat)
    requires WF(c) && c.Branch? && x in Entries(c) && Agree(key, x.key, c.index)
    requires i <= |c.bits| && forall j :: 0 <= j < i ==> c.bits[j] < Nib(key, c.index)
    ensures AllBelow(EntriesAll(c.twigs[..i]), key)
  {
    forall e | e in EntriesAll(c.twigs[..i])
      ensures LexLess(e.key, key)
    {
      InEntriesAll(c.twigs[..i], e);
      var j :| 0 <= j < i && e in Entries(c.twigs[..i][j]);
      TwigSide(c, key, x, j, e);
    }
  }

  lemma TwigsAbove(c: Tree, key: Key, x: Entry, i: nat)
    requires WF(c) && c.Branch? && x in Entries(c) && Agree(key, x.key, c.index)
    requires i <= |c.bits| && forall j :: i <= j < |c.bits| ==> c.bits[j] > Nib(key, c.index)
    ensures AllAbove(EntriesAll(c.twigs[i..]), key)
  {
    forall e | e in EntriesAll(c.twigs[i..])
      ensures LexLess(key, e.key)
    {
      InEntriesAll(c.twigs[i..], e);
      var j :| 0 <= j < |c.twigs[i..]| && e in Entries(c.twigs[i..][j]);
      TwigSide(c, key, x, i + j, e);
    }
  }

  lemma TwigBit(c: Tree, key: Key, x: Entry, i: nat, d: nat)
    requires WF(c) && c.Branch? && i < |c.twigs| && x in Entries(c.twigs[i])
    requires Agree(key, x.key, d) && c.index < d
    ensures x in Entries(c) && Agree(key, x.key, c.index)
    ensures Nib(key, c.index) == c.bits[i]
    ensures forall j :: 0 <= j < i ==> c.bits[j] < c.bits[i]
    ensures forall j :: i < j < |c.bits| ==> c.bits[j] > c.bits[i]
  {
    TwigIn(c, i, x);
  }

  /** The key goes between what precedes and what follows its branching point. */
  lemma {:induction false} PathOrder(t: Tree, p: Path, key: Key, x: Entry, d: nat)
    requires WF(t) && ValidPath(t, p) && AncestorsBelow(t, p, d)
    requires x in Entries(At(t, p)) && Agree(key, x.key, d)
    ensures AllBelow(Before(t, p), key) && AllAbove(After(t, p), key)
    decreases |p|
  {
    if |p| > 0 {
      var i, c := p[0], t.twigs[p[0]];
      PathOrder(c, p[1..], key, x, d);
      SplitIn(c, p[1..], x);
      TwigBit(t, key, x, i, d);
      TwigsBelow(t, key, x, i);
      TwigsAbove(t, key, x, i + 1);
    }
  }

  /** A branching point on an edge: the whole subtree is on one side of the key. */
  lemma EdgeOrder(c: Tree, key: Key, x: Entry, d: nat)
    requires WF(c) && x in Entries(c) && Agree(key, x.key, d) && Nib(key, d) != Nib(x.key, d)
    requires c.Branch? ==> c.index > d
    ensures Nib(key, d) < Nib(x.key, d) ==> AllAbove(Entries(c), key)
    ensures Nib(x.key, d) < Nib(key, d) ==> AllBelow(Entries(c), key)
  {
    forall e | e in Entries(c)
      ensures Nib(key, d) < Nib(x.key, d) ==> LexLess(key, e.key)
      ensures Nib(x.key, d) < Nib(key, d) ==> LexLess(e.key, key)
    {
      if c.Branch? {
        assert Agree(e.key, x.key, c.index);
      }
      assert Agree(key, e.key, d) && Nib(e.key, d) == Nib(x.key, d);
      if Nib(key, d) < Nib(x.key, d) {
        NibOrder(key, e.key, d);
      } else {
        NibOrder(e.key, key, d);
      }
    }
  }

  /** A branching point at a branch: the key goes between two twigs. */
  lemma BranchOrder(c: Tree, key: Key, x: Entry, i: nat)
    requires WF(c) && c.Branch? && x in Entries(c) && Agree(key, x.key, c.index)
    requires Nib(key, c.index) !in c.bits && i == TwigOff(c.bits, Nib(key, c.index))
    ensures AllBelow(EntriesAll(c.twigs[..i]), key)
    ensures AllAbove(EntriesAll(c.twigs[i..]), key)
  {
    TwigOffIsRank(c.bits, Nib(key, c.index));
    TwigsBelow(c, key, x, i);
    TwigsAbove(c, key, x, i);
  }

  datatype Leq = EOK | PREVIOUS | ENOENT

  /** Where the answer of a less-or-equal search is, in the order of entries. */
  ghost predicate LeqAt(t: Tree, key: Key, ret: Leq, p: Path) {
    match ret
    case EOK => ValidPath(t, p) && At(t, p).Leaf? && At(t, p).key == key
    case PREVIOUS =>
      && ValidPath(t, p) && At(t, p).Leaf?
      && AllBelow(Before(t, p) + Entries(At(t, p)), key) && AllAbove(After(t, p), key)
    case ENOENT => AllAbove(Entries(t), key)
  }

  lemma ConcatBelow(a: seq<Entry>, b: seq<Entry>, key: Key)
    ensures AllBelow(a + b, key) <==> AllBelow(a, key) && AllBelow(b, key)
    ensures AllAbove(a + b, key) <==> AllAbove(a, key) && AllAbove(b, key)
  {
    assert forall e :: e in a + b <==> e in a || e in b;
  }

  /** Everything from the subtree at q on is above the key, and what precedes it is
      below: the answer is the last entry before q. */
  lemma PrevIsAnswer(t: Tree, key: Key, q: Path, p: Path, ok: bool)
    requires ValidPath(t, q)
    requires AllBelow(Before(t, q), key) && AllAbove(Entries(At(t, q)) + After(t, q), key)
    requires ok == (Before(t, q) != [])
    requires ok ==> ValidPath(t, p) && At(t, p).Leaf? && Before(t, p) + Entries(At(t, p)) == Before(t, q)
    ensures LeqAt(t, key, if ok then PREVIOUS else ENOENT, p)
  {
    hide Before, After, At, ValidPath, Entries, LexLess;
    EntriesSplit(t, q);
    if ok {
      EntriesSplit(t, p);
      var a := Entries(At(t, q)) + After(t, q);
      assert Before(t, q) + After(t, p) == Entries(t) == Before(t, q) + a;
      SameTail(Before(t, q), After(t, p), a);
    } else {
      assert Entries(t) == Entries(At(t, q)) + After(t, q);
    }
  }

  /** Everything up to the end of the subtree at q is below the key: the answer is
      the last leaf of that subtree. */
  lemma LastIsAnswer(t: Tree, key: Key, q: Path, p: Path)
    requires ValidPath(t, q) && ValidPath(t, p) && At(t, p).Leaf? && After(t, p) == After(t, q)
    requires AllBelow(Before(t, q) + Entries(At(t, q)), key) && AllAbove(After(t, q), key)
    ensures LeqAt(t, key, PREVIOUS, p)
  {
    SameAfter(t, p, q);
  }

  lemma NoBit(c: Tree, key: Key, x: Entry)
    requires WF(c) && c.Branch? && x in Entries(c) && Agree(key, x.key, c.index)
    requires forall e :: e in Entries(c) ==> !Agree(key, e.key, c.index + 1)
    ensures Nib(key, c.index) !in c.bits
  {
    if Nib(key, c.index) in c.bits {
      var i :| 0 <= i < |c.bits| && c.bits[i] == Nib(key, c.index);
      NonEmpty(c.twigs[i]);
      var e := Entries(c.twigs[i])[0];
      TwigIn(c, i, e);
    }
  }

  lemma NoBitHere(t: Tree, q: Path, key: Key, x: Entry)
    requires ValidPath(t, q) && WF(At(t, q)) && At(t, q).Branch? && x in Entries(At(t, q))
    requires Agree(key, x.key, At(t, q).index)
    requires forall e :: e in Entries(t) ==> !Agree(key, e.key, At(t, q).index + 1)
    ensures Nib(key, At(t, q).index) !in At(t, q).bits
  {
    forall e | e in Entries(At(t, q))
      ensures !Agree(key, e.key, At(t, q).index + 1)
    {
      SplitIn(t, q, e);
    }
    NoBit(At(t, q), key, x);
  }

  /** The two neighbours of the key when it branches off at twig position i of c. */
  lemma BranchAnswer(t: Tree, q: Path, key: Key, x: Entry, i: nat)
    requires WF(t) && ValidPath(t, q) && At(t, q).Branch? && WF(At(t, q))
    requires x in Entries(At(t, q)) && Agree(key, x.key, At(t, q).index) && AncestorsBelow(t, q, At(t, q).index)
    requires Nib(key, At(t, q).index) !in At(t, q).bits
    requires i == TwigOff(At(t, q).bits, Nib(key, At(t, q).index))
    ensures i <= |At(t, q).twigs|
    ensures AllBelow(Before(t, q) + EntriesAll(At(t, q).twigs[..i]), key)
    ensures AllAbove(EntriesAll(At(t, q).twigs[i..]) + After(t, q), key)
  {
    PathOrder(t, q, key, x, At(t, q).index);
    BranchOrder(At(t, q), key, x, i);
    ConcatBelow(Before(t, q), EntriesAll(At(t, q).twigs[..i]), key);
    ConcatBelow(EntriesAll(At(t, q).twigs[i..]), After(t, q), key);
  }

  /** The two neighbours of the key when it branches off on the edge above the
      subtree at q. */
  lemma EdgeAnswer(t: Tree, q: Path, key: Key, x: Entry, d: nat)
    requires WF(t) && ValidPath(t, q) && AncestorsBelow(t, q, d)
    requires x in Entries(At(t, q)) && Agree(key, x.key, d) && Nib(key, d) != Nib(x.key, d)
    requires At(t, q).Branch? ==> At(t, q).index > d
    ensures Nib(key, d) < Nib(x.key, d) ==>
              AllBelow(Before(t, q), key) && AllAbove(Entries(At(t, q)) + After(t, q), key)
    ensures Nib(x.key, d) < Nib(key, d) ==>
              AllBelow(Before(t, q) + Entries(At(t, q)), key) && AllAbove(After(t, q), key)
  {
    WFAt(t, q);
    PathOrder(t, q, key, x, d);
    EdgeOrder(At(t, q), key, x, d);
    ConcatBelow(Before(t, q), Entries(At(t, q)), key);
    ConcatBelow(Entries(At(t, q)), After(t, q), key);
  }

  /** Go to the last leaf below twig i of the branch on top. */
  method DownTo(h: Heap, root: Node, stack: seq<Slot>, i: nat, ghost t: Tree, ghost q: Path)
    returns (stack': seq<Slot>, ghost p: Path)
    requires OnPath(h, root, t, stack, q) && At(t, q).Branch? && i < |At(t, q).twigs|
    ensures OnPath(h, root, t, stack', p) && At(t, p).Leaf?
    ensures ValidPath(t, q + [i]) && After(t, p) == After(t, q + [i])
  {
    TopOf(h, root, t, stack, q);
    var n := Load(h, root, stack[|stack| - 1]);
    PushOn(h, root, t, stack, q, i);
    stack', p := LastLeaf(h, root, stack + [TwigSlot(n.twigs, i)], t, q + [i]);
  }

  lemma DownAnswer(t: Tree, q: Path, i: nat, key: Key, p: Path)
    requires WF(t) && ValidPath(t, q) && At(t, q).Branch? && i < |At(t, q).twigs|
    requires AllBelow(Before(t, q) + EntriesAll(At(t, q).twigs[..i + 1]), key)
    requires AllAbove(EntriesAll(At(t, q).twigs[i + 1..]) + After(t, q), key)
    requires ValidPath(t, q + [i]) && ValidPath(t, p) && At(t, p).Leaf? && After(t, p) == After(t, q + [i])
    ensures LeqAt(t, key, PREVIOUS, p)
  {
    hide WF, Before, After, At, ValidPath, LexLess, Entries, EntriesAll, LeqAt;
    var c := At(t, q);
    PathStep(t, q, i);
    EntriesAllConcat(c.twigs[..i], [c.twigs[i]]);
    EntriesAllOne(c.twigs[i]);
    assert c.twigs[..i + 1] == c.twigs[..i] + [c.twigs[i]];
    assert Before(t, q + [i]) + Entries(At(t, q + [i])) == Before(t, q) + EntriesAll(c.twigs[..i + 1]);
    LastIsAnswer(t, key, q + [i], p);
  }

  /** When no bit below a missing bit is set, neither is the end-of-key bit. */
  lemma FirstHasNoNobyte(c: Tree, b: nat)
    requires WF(c) && c.Branch? && b !in c.bits && TwigOff(c.bits, b) == 0
    ensures NOBYTE !in c.bits
  {
    TwigOffIsRank(c.bits, b);
  }

  lemma NothingBelow(t: Tree, q: Path, key: Key)
    requires ValidPath(t, q) && At(t, q).Branch?
    requires AllBelow(Before(t, q) + EntriesAll(At(t, q).twigs[..0]), key)
    requires AllAbove(EntriesAll(At(t, q).twigs[0..]) + After(t, q), key)
    ensures AllBelow(Before(t, q), key)
    ensures AllAbove(Entries(At(t, q)) + After(t, q), key)
  {
    var ts := At(t, q).twigs;
    assert ts[0..] == ts && ts[..0] == [];
    assert Before(t, q) + EntriesAll(ts[..0]) == Before(t, q);
  }

  /** The branch on top tests the half-byte in which the key leaves all stored keys. */
  method LeqAtBranch(h: Heap, root: Node, key: Key, stack: seq<Slot>, ghost t: Tree, ghost q: Path, ghost x: Entry)
    returns (ret: Leq, stack': seq<Slot>, ghost p: Path)
    requires OnPath(h, root, t, stack, q) && At(t, q).Branch? && AncestorsBelow(t, q, At(t, q).index)
    requires x in Entries(At(t, q)) && Agree(key, x.key, At(t, q).index)
    requires Nib(key, At(t, q).index) !in At(t, q).bits
    ensures LeqAt(t, key, ret, p) && ret != EOK
    ensures ret == PREVIOUS ==> OnPath(h, root, t, stack', p)
  {
    TopOf(h, root, t, stack, q);
    var n := Load(h, root, stack[|stack| - 1]);
    ghost var c := At(t, q);
    var b := Nib(key, n.index);
    var off: int := TwigOff(n.bits, b);
    BranchAnswer(t, q, key, x, off);
    var i := off - 1;
    if i >= 0 {
      stack', p := DownTo(h, root, stack, i, t, q);
      DownAnswer(t, q, i, key, p);
      return PREVIOUS, stack', p;
    }
    FirstHasNoNobyte(c, b);
    NothingBelow(t, q, key);
    ret, stack', p := LeqBefore(h, root, key, stack, t, q, q);
  }

  /** Nothing from the subtree at q on is below the key: take the previous leaf. */
  method LeqBefore(h: Heap, root: Node, key: Key, stack: seq<Slot>, ghost t: Tree, ghost r: Path, ghost q: Path)
    returns (ret: Leq, stack': seq<Slot>, ghost p: Path)
    requires OnPath(h, root, t, stack, r) && ValidPath(t, q) && Before(t, q) == Before(t, r)
    requires At(t, r).Branch? ==> NOBYTE !in At(t, r).bits
    requires AllBelow(Before(t, q), key) && AllAbove(Entries(At(t, q)) + After(t, q), key)
    ensures LeqAt(t, key, ret, p) && ret != EOK
    ensures ret == PREVIOUS ==> OnPath(h, root, t, stack', p)
  {
    var ok;
    ok, stack', p := PrevLeaf(h, root, stack, t, r);
    PrevIsAnswer(t, key, q, p, ok);
    return (if ok then PREVIOUS else ENOENT), stack', p;
  }

  /** A branch that the key passes through on twig ci: the key's bit is that twig's,
      and it is not the end-of-key bit, since the key is not stored. */
  lemma PassedTwig(c: Tree, key: Key, x: Entry, ci: nat, d: nat)
    requires WF(c) && c.Branch? && ci < |c.twigs| && x in Entries(c.twigs[ci]) && c.index < d
    requires Agree(key, x.key, d) && Nib(key, d) != Nib(x.key, d)
    ensures TwigOff(c.bits, Nib(key, c.index)) == ci
    ensures ci == 0 ==> NOBYTE !in c.bits
  {
    TwigBit(c, key, x, ci, d);
    TwigOffOf(c.bits, ci);
    if Nib(key, c.index) == NOBYTE {
      EndedTogether(key, x.key, c.index);
    }
  }

  lemma FirstTwig(t: Tree, q: Path)
    requires ValidPath(t, q) && |q| > 0 && q[|q| - 1] == 0
    ensures ValidPath(t, q[..|q| - 1]) && Before(t, q) == Before(t, q[..|q| - 1])
  {
    PathParent(t, q);
    PathStep(t, q[..|q| - 1], 0);
    assert q[..|q| - 1] + [0] == q;
  }

  lemma RootAnswer(t: Tree, key: Key)
    requires AllAbove(Entries(At(t, [])) + After(t, []), key)
    ensures LeqAt(t, key, ENOENT, [])
  {
    assert Entries(At(t, [])) + After(t, []) == Entries(t);
  }

  /** The key leaves all stored keys on the edge above the top node; step up. */
  method LeqAtEdge(h: Heap, root: Node, key: Key, stack: seq<Slot>, kless: bool,
                   ghost t: Tree, ghost q: Path, ghost x: Entry, ghost d: nat)
    returns (ret: Leq, stack': seq<Slot>, ghost p: Path)
    requires OnPath(h, root, t, stack, q) && |q| > 0 && AncestorsBelow(t, q, d)
    requires x in Entries(At(t, q)) && Agree(key, x.key, d) && Nib(key, d) != Nib(x.key, d)
    requires kless == (Nib(key, d) < Nib(x.key, d))
    requires At(t, q).Branch? ==> At(t, q).index > d
    ensures LeqAt(t, key, ret, p) && ret != EOK
    ensures ret == PREVIOUS ==> OnPath(h, root, t, stack', p)
  {
    hide WF, Rep, LeqAt, Before, After, LexLess, Entries, EntriesAll, AllBelow, AllAbove;
    EdgeAnswer(t, q, key, x, d);
    UpOf(h, root, t, stack, q);
    ghost var r := q[..|q| - 1];
    ghost var ci := q[|q| - 1];
    ghost var c := At(t, r);
    var n := Load(h, root, stack[|stack| - 2]);
    AncestorIndex(t, q, d);
    PassedTwig(c, key, x, ci, d);
    var b := Nib(key, n.index);
    var i: int := TwigOff(n.bits, b) - (if kless then 1 else 0);
    if i >= 0 {
      stack', p := DownTo(h, root, stack[..|stack| - 1], i, t, r);
      assert r + [ci] == q;
      if kless {
        PathStep(t, r, ci - 1);
        EdgeDownLeft(t, r, ci, key, p);
      } else {
        LastIsAnswer(t, key, q, p);
      }
      return PREVIOUS, stack', p;
    }
    FirstTwig(t, q);
    ret, stack', p := LeqBefore(h, root, key, stack[..|stack| - 1], t, r, q);
  }

  lemma {:induction false} AncestorIndex(t: Tree, q: Path, d: nat)
    requires ValidPath(t, q) && |q| > 0 && AncestorsBelow(t, q, d)
    ensures (PathParent(t, q); At(t, q[..|q| - 1]).index < d)
    decreases |q|
  {
    PathParent(t, q);
    if |q| > 1 {
      AncestorIndex(t.twigs[q[0]], q[1..], d);
      PathParent(t.twigs[q[0]], q[1..]);
      assert q[1..][..|q| - 2] == q[..|q| - 1][1..];
    }
  }

  /** The end of the stretch before twig ci is the end of twig ci - 1. */
  lemma EdgeDownLeft(t: Tree, r: Path, ci: nat, key: Key, p: Path)
    requires WF(t) && ValidPath(t, r) && At(t, r).Branch? && 0 < ci < |At(t, r).twigs|
    requires ValidPath(t, r + [ci]) && ValidPath(t, r + [ci - 1])
    requires AllBelow(Before(t, r + [ci]), key)
    requires AllAbove(Entries(At(t, r + [ci])) + After(t, r + [ci]), key)
    requires ValidPath(t, p) && At(t, p).Leaf? && After(t, p) == After(t, r + [ci - 1])
    ensures LeqAt(t, key, PREVIOUS, p)
  {
    hide WF, Before, After, At, ValidPath, LexLess, Entries, EntriesAll, LeqAt;
    var q, s := r + [ci], r + [ci - 1];
    PathStep(t, r, ci);
    PathStep(t, r, ci - 1);
    PreviousTwig(At(t, r), ci, Before(t, r));
    NextTwig(At(t, r), ci - 1, After(t, r));
    LastIsAnswer(t, key, s, p);
  }

  method GetLeqStack(h: Heap, root: Node, key: Key, ghost t: Tree)
    returns (ret: Leq, stack: seq<Slot>, ghost p: Path)
    requires Rep(h, t) && WF(t) && Strip(root) == NodeOf(t)
    ensures LeqAt(t, key, ret, p)
    ensures ret != ENOENT ==> OnPath(h, root, t, stack, p)
    ensures ret == EOK <==> exists e :: e in Entries(t) && e.key == key
  {
    hide Rep, Before, After, LexLess, Entries, Agree, Nib, AllAbove, AllBelow, WF, Stack;
    var diff, tbit, kbit;
    stack, diff, tbit, kbit, p := FindBranch(h, root, key, t);
    TopOf(h, root, t, stack, p);
    if diff.Exact? {
      assert LeqAt(t, key, EOK, p);
      return EOK, stack, p;
    }
    ghost var d := diff.index;
    ghost var q := p;
    ghost var x :| x in Entries(At(t, q)) && Agree(key, x.key, d) && Nib(x.key, d) == tbit;
    var n := Load(h, root, stack[|stack| - 1]);
    if n.BranchNode? && n.index == diff.index {
      NoBitHere(t, q, key, x);
      ret, stack, p := LeqAtBranch(h, root, key, stack, t, q, x);
    } else if |stack| == 1 {
      EdgeAnswer(t, q, key, x, d);
      if kbit < tbit {
        RootAnswer(t, key);
        return ENOENT, stack, p;
      }
      stack, p := LastLeaf(h, root, stack, t, q);
      LastIsAnswer(t, key, q, p);
      return PREVIOUS, stack, p;
    } else {
      ret, stack, p := LeqAtEdge(h, root, key, stack, kbit < tbit, t, q, x, d);
    }
  }

  /** What a less-or-equal search means on the plain map. */
  ghost predicate LeqSpec(m: map<Key, Val>, key: Key, ret: Leq, val: Option<Val>) {
    match ret
    case EOK => key in m && val == Some(m[key])
    case PREVIOUS =>
      && key !in m
      && exists k :: k in m && LexLess(k, key) && val == Some(m[k])
                     && forall j :: j in m && LexLess(j, key) ==> j == k || LexLess(j, k)
    case ENOENT => val == None && forall k :: k in m ==> LexLess(key, k)
  }

  /** A sorted list cut before and after x: what is below a key above x is x or
      below x. */
  lemma BelowCut(b: seq<Entry>, x: Entry, a: seq<Entry>, key: Key, e: Entry)
    requires Sorted(b + [x] + a) && AllAbove(a, key) && e in b + [x] + a && LexLess(e.key, key)
    ensures e == x || LexLess(e.key, x.key)
  {
    var es := b + [x] + a;
    var n :| 0 <= n < |es| && es[n] == e;
    assert es[|b|] == x;
    if n > |b| {
      assert es[n] == a[n - |b| - 1];
      LexTotal(e.key, key);
    }
  }

  lemma LeqMeaning(t: Tree, key: Key, ret: Leq, p: Path)
    requires WF(t) && LeqAt(t, key, ret, p)
    requires ret == EOK <==> exists e :: e in Entries(t) && e.key == key
    ensures LeqSpec(MapOf(Entries(t)), key, ret, if ret == ENOENT then None else Some(At(t, p).val))
  {
    EntriesSorted(t);
    MapOfSorted(Entries(t));
    var m := MapOf(Entries(t));
    if ret == ENOENT {
      assert forall k :: k in m ==> Entry(k, m[k]) in Entries(t);
    } else {
      var x := Entry(At(t, p).key, At(t, p).val);
      EntriesSplit(t, p);
      assert Entries(At(t, p)) == [x];
      assert x in [x];
      SplitIn(t, p, x);
      if ret == PREVIOUS {
        assert x in Before(t, p) + [x];
        forall j | j in m && LexLess(j, key)
          ensures j == x.key || LexLess(j, x.key)
        {
          BelowCut(Before(t, p), x, After(t, p), key, Entry(j, m[j]));
        }
        assert x.key in m && LexLess(x.key, key) && m[x.key] == x.val;
      }
    }
  }

  /** The greatest stored key not above the searched one. */
  method GetLeq(h: Heap, tbl: Trie, key: Key, ghost ts: seq<Tree>) returns (ret: Leq, val: Option<Val>)
    requires Stands(h, tbl, ts)
    ensures LeqSpec(MapOf(EntriesAll(ts)), key, ret, val)
  {
    StandsEmpty(h, tbl, ts);
    if tbl.weight == 0 {
      return ENOENT, None;
    }
    var stack;
    ghost var p;
    ret, stack, p := GetLeqStack(h, tbl.root, key, ts[0]);
    LeqMeaning(ts[0], key, ret, p);
    if ret == ENOENT {
      return ENOENT, None;
    }
    TopOf(h, tbl.root, ts[0], stack, p);
    val := Some(Load(h, tbl.root, stack[|stack| - 1]).val);
  }
}
