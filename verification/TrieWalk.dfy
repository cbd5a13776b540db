/** Moving a node stack over a trie (trie.c, the ns_* family): first, last, previous
    and next leaf, and the leaf of the longest stored prefix. */
module TrieWalk {
  import opened Bytes
  import opened Nibbles
  import opened TrieTree
  import opened TrieHeap
  import opened TrieRegions
  import opened TrieSearch

  /** A stack of node pointers standing at path p of tree t. */
  ghost predicate OnPath(h: Heap, root: Node, t: Tree, stack: seq<Slot>, p: Path) {
    && Rep(h, t) && WF(t) && Strip(root) == NodeOf(t)
    && ValidPath(t, p) && stack == Stack(t, p)
  }

  lemma TopOf(h: Heap, root: Node, t: Tree, stack: seq<Slot>, p: Path)
    requires OnPath(h, root, t, stack, p)
    ensures |stack| == |p| + 1
    ensures ValidSlot(h, stack[|stack| - 1])
    ensures Strip(Load(h, root, stack[|stack| - 1])) == NodeOf(At(t, p))
    ensures Rep(h, At(t, p)) && WF(At(t, p))
  {
    LoadAt(h, root, t, p);
    WFAt(t, p);
  }

  /** The parent entry of a stack, and what going up changes. */
  lemma UpOf(h: Heap, root: Node, t: Tree, stack: seq<Slot>, p: Path)
    requires OnPath(h, root, t, stack, p) && |p| > 0
    ensures |stack| == |p| + 1
    ensures OnPath(h, root, t, stack[..|p|], p[..|p| - 1])
    ensures ValidSlot(h, stack[|p| - 1])
    ensures Strip(Load(h, root, stack[|p| - 1])) == NodeOf(At(t, p[..|p| - 1]))
    ensures At(t, p[..|p| - 1]).Branch? && WF(At(t, p[..|p| - 1])) && p[|p| - 1] < |At(t, p[..|p| - 1]).twigs|
    ensures stack[|p|] == TwigSlot(At(t, p[..|p| - 1]).id, p[|p| - 1])
    ensures At(t, p) == At(t, p[..|p| - 1]).twigs[p[|p| - 1]]
    ensures Before(t, p) == Before(t, p[..|p| - 1]) + EntriesAll(At(t, p[..|p| - 1]).twigs[..p[|p| - 1]])
    ensures After(t, p) == EntriesAll(At(t, p[..|p| - 1]).twigs[p[|p| - 1] + 1..]) + After(t, p[..|p| - 1])
  {
    hide Rep, WF, Entries, Before, After, EntriesAll;
    StackPop(t, p);
    PathParent(t, p);
    var q := p[..|p| - 1];
    TopOf(h, root, t, stack[..|p|], q);
    PathStep(t, q, p[|p| - 1]);
    assert q + [p[|p| - 1]] == p;
  }

  lemma PushOn(h: Heap, root: Node, t: Tree, stack: seq<Slot>, p: Path, i: nat)
    requires OnPath(h, root, t, stack, p)
    requires At(t, p).Branch? && i < |At(t, p).twigs|
    ensures OnPath(h, root, t, stack + [TwigSlot(At(t, p).id, i)], p + [i])
    ensures At(t, p + [i]) == At(t, p).twigs[i]
    ensures Before(t, p + [i]) == Before(t, p) + EntriesAll(At(t, p).twigs[..i])
    ensures After(t, p + [i]) == EntriesAll(At(t, p).twigs[i + 1..]) + After(t, p)
  {
    StackPush(t, p, i);
    PathStep(t, p, i);
  }

  method LastLeaf(h: Heap, root: Node, stack: seq<Slot>, ghost t: Tree, ghost p: Path)
    returns (stack': seq<Slot>, ghost p': Path)
    requires OnPath(h, root, t, stack, p)
    ensures OnPath(h, root, t, stack', p') && At(t, p').Leaf?
    ensures After(t, p') == After(t, p)
  {
    stack', p' := stack, p;
    while true
      invariant OnPath(h, root, t, stack', p') && After(t, p') == After(t, p)
      decreases At(t, p')
    {
      TopOf(h, root, t, stack', p');
      var n := Load(h, root, stack'[|stack'| - 1]);
      if !n.BranchNode? {
        return;
      }
      var lasti := |n.bits| - 1;
      PushOn(h, root, t, stack', p', lasti);
      stack', p' := stack' + [TwigSlot(n.twigs, lasti)], p' + [lasti];
    }
  }

  method FirstLeaf(h: Heap, root: Node, stack: seq<Slot>, ghost t: Tree, ghost p: Path)
    returns (stack': seq<Slot>, ghost p': Path)
    requires OnPath(h, root, t, stack, p)
    ensures OnPath(h, root, t, stack', p') && At(t, p').Leaf?
    ensures Before(t, p') == Before(t, p)
  {
    stack', p' := stack, p;
    while true
      invariant OnPath(h, root, t, stack', p') && Before(t, p') == Before(t, p)
      decreases At(t, p')
    {
      TopOf(h, root, t, stack', p');
      var n := Load(h, root, stack'[|stack'| - 1]);
      if !n.BranchNode? {
        return;
      }
      PushOn(h, root, t, stack', p', 0);
      stack', p' := stack' + [TwigSlot(n.twigs, 0)], p' + [0];
    }
  }

  /** Paths with the same entries after them end the same stretch of entries. */
  lemma SameAfter(t: Tree, p: Path, q: Path)
    requires ValidPath(t, p) && ValidPath(t, q) && After(t, p) == After(t, q)
    ensures Before(t, p) + Entries(At(t, p)) == Before(t, q) + Entries(At(t, q))
  {
    EntriesSplit(t, p);
    EntriesSplit(t, q);
    var a := Before(t, p) + Entries(At(t, p));
    var b := Before(t, q) + Entries(At(t, q));
    assert a == (a + After(t, p))[..|a|];
    assert b == (b + After(t, p))[..|b|];
  }

  lemma SameBefore(t: Tree, p: Path, q: Path)
    requires ValidPath(t, p) && ValidPath(t, q) && Before(t, p) == Before(t, q)
    ensures Entries(At(t, p)) + After(t, p) == Entries(At(t, q)) + After(t, q)
  {
    hide Before, After, At, ValidPath, Entries;
    EntriesSplit(t, p);
    EntriesSplit(t, q);
    var a := Entries(At(t, p)) + After(t, p);
    var b := Entries(At(t, q)) + After(t, q);
    assert Before(t, p) + a == Entries(t) == Before(t, p) + b;
    SameTail(Before(t, p), a, b);
  }

  lemma PreviousTwig(c: Tree, i: nat, pre: seq<Entry>)
    requires c.Branch? && 0 < i < |c.twigs|
    ensures (pre + EntriesAll(c.twigs[..i - 1])) + Entries(c.twigs[i - 1]) == pre + EntriesAll(c.twigs[..i])
  {
    EntriesAllConcat(c.twigs[..i - 1], [c.twigs[i - 1]]);
    EntriesAllOne(c.twigs[i - 1]);
    assert c.twigs[..i] == c.twigs[..i - 1] + [c.twigs[i - 1]];
  }

  lemma NextTwig(c: Tree, i: nat, post: seq<Entry>)
    requires c.Branch? && i + 1 < |c.twigs|
    ensures Entries(c.twigs[i + 1]) + (EntriesAll(c.twigs[i + 2..]) + post) == EntriesAll(c.twigs[i + 1..]) + post
  {
    var r := c.twigs[i + 1..];
    assert r[0] == c.twigs[i + 1] && r[1..] == c.twigs[i + 2..];
  }

  lemma PreviousSibling(t: Tree, q: Path, i: nat)
    requires WF(t) && ValidPath(t, q) && At(t, q).Branch? && 0 < i < |At(t, q).twigs|
    ensures ValidPath(t, q + [i]) && ValidPath(t, q + [i - 1])
    ensures Before(t, q + [i - 1]) + Entries(At(t, q + [i - 1])) == Before(t, q + [i]) != []
  {
    PathStep(t, q, i);
    PathStep(t, q, i - 1);
    PreviousTwig(At(t, q), i, Before(t, q));
    WFAt(t, q + [i - 1]);
    NonEmpty(At(t, q + [i - 1]));
  }

  lemma FirstSibling(t: Tree, q: Path)
    requires ValidPath(t, q) && At(t, q).Branch? && |At(t, q).twigs| > 0
    ensures ValidPath(t, q + [0]) && Before(t, q + [0]) == Before(t, q)
  {
    PathStep(t, q, 0);
    assert At(t, q).twigs[..0] == [];
  }

  /** The previous leaf ends the stretch before the current node; a branch with an
      end-of-key twig moves to that twig instead. */
  method PrevLeaf(h: Heap, root: Node, stack: seq<Slot>, ghost t: Tree, ghost p: Path)
    returns (ok: bool, stack': seq<Slot>, ghost p': Path)
    requires OnPath(h, root, t, stack, p)
    ensures At(t, p).Branch? && NOBYTE in At(t, p).bits ==>
              ok && OnPath(h, root, t, stack', p') && p' == p + [0]
    ensures !(At(t, p).Branch? && NOBYTE in At(t, p).bits) ==>
              && ok == (Before(t, p) != [])
              && (ok ==> OnPath(h, root, t, stack', p') && At(t, p').Leaf?
                         && Before(t, p') + Entries(At(t, p')) == Before(t, p))
  {
    hide Rep, After, Agree, Nib, Entries, EntriesAll, Stack;
    TopOf(h, root, t, stack, p);
    var n := Load(h, root, stack[|stack| - 1]);
    if n.BranchNode? && NOBYTE in n.bits {
      PushOn(h, root, t, stack, p, 0);
      return true, stack + [TwigSlot(n.twigs, 0)], p + [0];
    }
    stack', p' := stack, p;
    while |stack'| >= 2
      invariant OnPath(h, root, t, stack', p') && Before(t, p') == Before(t, p)
      decreases |stack'|
    {
      UpOf(h, root, t, stack', p');
      ghost var q := p'[..|p'| - 1];
      var ci := stack'[|stack'| - 1].pos;
      assert q + [ci] == p';
      if ci > 0 {
        var up := Load(h, root, stack'[|stack'| - 2]);
        PushOn(h, root, t, stack'[..|p'|], q, ci - 1);
        PreviousSibling(t, q, ci);
        stack' := stack'[..|stack'| - 1] + [TwigSlot(up.twigs, ci - 1)];
        ghost var r := q + [ci - 1];
        stack', p' := LastLeaf(h, root, stack', t, r);
        SameAfter(t, p', r);
        return true, stack', p';
      }
      FirstSibling(t, q);
      stack', p' := stack'[..|stack'| - 1], q;
    }
    return false, stack', p';
  }

  lemma NextSibling(t: Tree, q: Path, i: nat)
    requires WF(t) && ValidPath(t, q) && At(t, q).Branch? && i + 1 < |At(t, q).twigs|
    ensures ValidPath(t, q + [i]) && ValidPath(t, q + [i + 1])
    ensures Entries(At(t, q + [i + 1])) + After(t, q + [i + 1]) == After(t, q + [i]) != []
  {
    PathStep(t, q, i);
    PathStep(t, q, i + 1);
    NextTwig(At(t, q), i, After(t, q));
    WFAt(t, q + [i + 1]);
    NonEmpty(At(t, q + [i + 1]));
  }

  lemma LastSibling(t: Tree, q: Path, i: nat)
    requires ValidPath(t, q) && At(t, q).Branch? && i + 1 == |At(t, q).twigs|
    ensures ValidPath(t, q + [i]) && After(t, q + [i]) == After(t, q)
  {
    PathStep(t, q, i);
    assert At(t, q).twigs[i + 1..] == [];
  }

  /** The next leaf starts the stretch after the current leaf; from a branch it is
      the first leaf below. */
  method NextLeaf(h: Heap, root: Node, stack: seq<Slot>, ghost t: Tree, ghost p: Path)
    returns (ok: bool, stack': seq<Slot>, ghost p': Path)
    requires OnPath(h, root, t, stack, p)
    ensures At(t, p).Branch? ==>
              ok && OnPath(h, root, t, stack', p') && At(t, p').Leaf? && Before(t, p') == Before(t, p)
    ensures At(t, p).Leaf? ==>
              && ok == (After(t, p) != [])
              && (ok ==> OnPath(h, root, t, stack', p') && At(t, p').Leaf?
                         && Entries(At(t, p')) + After(t, p') == After(t, p))
  {
    hide Rep, Before, Agree, Nib, Entries, EntriesAll, Stack;
    TopOf(h, root, t, stack, p);
    stack', p' := stack, p;
    if Load(h, root, stack[|stack| - 1]).BranchNode? {
      stack', p' := FirstLeaf(h, root, stack, t, p);
      return true, stack', p';
    }
    while |stack'| >= 2
      invariant OnPath(h, root, t, stack', p') && After(t, p') == After(t, p)
      decreases |stack'|
    {
      UpOf(h, root, t, stack', p');
      ghost var q := p'[..|p'| - 1];
      var ci := stack'[|stack'| - 1].pos;
      var up := Load(h, root, stack'[|stack'| - 2]);
      assert q + [ci] == p';
      if ci + 1 < |up.bits| {
        PushOn(h, root, t, stack'[..|p'|], q, ci + 1);
        NextSibling(t, q, ci);
        stack' := stack'[..|stack'| - 1] + [TwigSlot(up.twigs, ci + 1)];
        ghost var r := q + [ci + 1];
        stack', p' := FirstLeaf(h, root, stack', t, r);
        SameBefore(t, p', r);
        return true, stack', p';
      }
      LastSibling(t, q, ci);
      stack', p' := stack'[..|stack'| - 1], q;
    }
    return false, stack', p';
  }

  // ---- Stored prefixes of a key ----

  lemma {:induction false} PrefixByNib(a: Key, b: Key, d: nat)
    requires Agree(a, b, d) && Nib(a, d) == NOBYTE
    ensures IsPrefix(a, b)
  {
    SameBytes(a, b, |a|);
  }

  lemma PrefixAgrees(a: Key, b: Key)
    requires IsPrefix(a, b)
    ensures Agree(a, b, 2 * |a|)
  {
    forall j | 0 <= j < 2 * |a|
      ensures Nib(a, j) == Nib(b, j)
    {
      assert b[..|a|][j / 2] == b[j / 2];
    }
  }

  /** In a branch, a stored prefix of a key from another twig sits under end-of-key. */
  lemma PrefixUnderNobyte(c: Tree, i: nat, j: nat, e: Entry, x: Entry)
    requires WF(c) && c.Branch? && i < |c.twigs| && j < |c.twigs| && i != j
    requires e in Entries(c.twigs[i]) && x in Entries(c.twigs[j]) && IsPrefix(e.key, x.key)
    ensures c.bits[i] == NOBYTE && i == 0 && |e.key| * 2 <= c.index
  {
    PrefixAgrees(e.key, x.key);
    TwigIn(c, i, e);
    TwigIn(c, j, x);
  }

  /** The end-of-key twig is a single leaf; the branch's index is where it ends. */
  lemma {:induction false} NobyteLeaf(c: Tree)
    requires WF(c) && c.Branch? && NOBYTE in c.bits
    ensures c.bits[0] == NOBYTE && c.twigs[0].Leaf?
    ensures c.index == 2 * |c.twigs[0].key|
    ensures forall e :: e in Entries(c) ==> IsPrefix(c.twigs[0].key, e.key)
  {
    var z := c.twigs[0];
    NonEmpty(z);
    EntriesSorted(z);
    forall e | e in Entries(z)
      ensures e.key == Entries(z)[0].key
    {
      TwigIn(c, 0, e);
      TwigIn(c, 0, Entries(z)[0]);
      EndedTogether(e.key, Entries(z)[0].key, c.index);
    }
    if z.Branch? {
      NonEmpty(z.twigs[0]);
      NonEmpty(z.twigs[1]);
      var e, f := Entries(z.twigs[0])[0], Entries(z.twigs[1])[0];
      TwigsOrdered(z, 0, 1, e, f);
      TwigIn(z, 0, e);
      TwigIn(z, 1, f);
      LexIrreflexive(e.key);
      assert false;
    }
    var ze := Entry(z.key, z.val);
    assert ze in Entries(z);
    TwigIn(c, 0, ze);
    forall e | e in Entries(c)
      ensures IsPrefix(z.key, e.key)
    {
      PrefixByNib(z.key, e.key, c.index);
    }
    NonEmpty(c.twigs[1]);
    var f := Entries(c.twigs[1])[0];
    TwigIn(c, 1, f);
    assert Nib(z.key, 2 * |z.key|) == NOBYTE;
  }

  /** An entry that agrees with one below the path on more half-bytes than every
      branch above tests lies below the path as well. */
  lemma {:induction false} InSubtree(t: Tree, p: Path, e: Entry, x: Entry, n: nat)
    requires WF(t) && ValidPath(t, p) && AncestorsBelow(t, p, n)
    requires e in Entries(t) && x in Entries(At(t, p)) && Agree(e.key, x.key, n)
    ensures e in Entries(At(t, p))
    decreases |p|
  {
    if |p| > 0 {
      var c := t.twigs[p[0]];
      SplitIn(c, p[1..], x);
      TwigIn(t, p[0], x);
      assert Nib(e.key, t.index) == Nib(x.key, t.index);
      OnlyTwig(t, x.key, p[0], e);
      InSubtree(c, p[1..], e, x, n);
    }
  }

  /** No stored key in c other than k itself is a prefix of k. */
  ghost predicate NoPrefixIn(c: Tree, k: Key) {
    forall e :: e in Entries(c) && IsPrefix(e.key, k) ==> e.key == k
  }

  lemma LeafAlone(l: Tree)
    requires l.Leaf?
    ensures Entry(l.key, l.val) in Entries(l) && NoPrefixIn(l, l.key)
  {
  }

  lemma NoPrefixUp(c: Tree, i: nat, k: Key, x: Entry)
    requires WF(c) && c.Branch? && i < |c.twigs|
    requires x in Entries(c.twigs[i]) && x.key == k && NoPrefixIn(c.twigs[i], k)
    requires NOBYTE in c.bits ==> i == 0
    ensures NoPrefixIn(c, k)
  {
    forall e | e in Entries(c) && IsPrefix(e.key, k)
      ensures e.key == k
    {
      InEntriesAll(c.twigs, e);
      var j :| 0 <= j < |c.twigs| && e in Entries(c.twigs[j]);
      if j != i {
        PrefixUnderNobyte(c, j, i, e, x);
      }
    }
  }

  /** e is the longest stored proper prefix of k. */
  ghost predicate LongestPrefix(t: Tree, k: Key, e: Entry) {
    && e in Entries(t) && IsPrefix(e.key, k) && e.key != k
    && forall f :: f in Entries(t) && IsPrefix(f.key, k) && f.key != k ==> IsPrefix(f.key, e.key)
  }

  /** A stored proper prefix of k that lies below c is its end-of-key leaf. */
  lemma PrefixBelow(c: Tree, i: nat, k: Key, x: Entry, f: Entry)
    requires WF(c) && c.Branch? && 0 < i < |c.twigs|
    requires x in Entries(c.twigs[i]) && x.key == k && NoPrefixIn(c.twigs[i], k)
    requires f in Entries(c) && IsPrefix(f.key, k) && f.key != k
    ensures f in Entries(c.twigs[0]) && 2 * |f.key| <= c.index
  {
    InEntriesAll(c.twigs, f);
    var j :| 0 <= j < |c.twigs| && f in Entries(c.twigs[j]);
    PrefixUnderNobyte(c, j, i, f, x);
  }

  lemma NoLongerPrefix(t: Tree, p: Path, i: nat, k: Key, x: Entry, f: Entry)
    requires WF(t) && ValidPath(t, p) && At(t, p).Branch? && WF(At(t, p)) && 0 < i < |At(t, p).twigs|
    requires AncestorsBelow(t, p, At(t, p).index + 1)
    requires x in Entries(At(t, p).twigs[i]) && x.key == k && NoPrefixIn(At(t, p).twigs[i], k)
    requires f in Entries(t) && IsPrefix(f.key, k) && f.key != k
    ensures 2 * |f.key| <= At(t, p).index
  {
    var c := At(t, p);
    if 2 * |f.key| > c.index {
      PrefixAgrees(f.key, k);
      TwigIn(c, i, x);
      InSubtree(t, p, f, x, c.index + 1);
      PrefixBelow(c, i, k, x, f);
    }
  }

  lemma PrefixFound(t: Tree, p: Path, i: nat, k: Key, x: Entry)
    requires WF(t) && ValidPath(t, p) && At(t, p).Branch? && WF(At(t, p)) && 0 < i < |At(t, p).twigs|
    requires NOBYTE in At(t, p).bits && AncestorsBelow(t, p, At(t, p).index + 1)
    requires x in Entries(At(t, p).twigs[i]) && x.key == k && NoPrefixIn(At(t, p).twigs[i], k)
    ensures At(t, p).twigs[0].Leaf?
    ensures LongestPrefix(t, k, Entry(At(t, p).twigs[0].key, At(t, p).twigs[0].val))
  {
    var c := At(t, p);
    NobyteLeaf(c);
    var z := Entry(c.twigs[0].key, c.twigs[0].val);
    assert z in Entries(c.twigs[0]);
    TwigIn(c, 0, z);
    TwigIn(c, i, x);
    SplitIn(t, p, z);
    assert z.key != k by {
      assert c.bits[0] < c.bits[i];
    }
    forall f | f in Entries(t) && IsPrefix(f.key, k) && f.key != k
      ensures IsPrefix(f.key, z.key)
    {
      NoLongerPrefix(t, p, i, k, x, f);
      assert f.key == k[..|f.key|] == k[..|z.key|][..|f.key|];
    }
  }

  lemma {:induction false} AncestorsOf(t: Tree, p: Path)
    requires WF(t) && ValidPath(t, p) && At(t, p).Branch?
    ensures AncestorsBelow(t, p, At(t, p).index + 1)
    decreases |p|
  {
    if |p| > 0 {
      PathParent(t, p);
      WFAt(t, p[..|p| - 1]);
      ParentBelow(t, p, At(t, p).index + 1);
    }
  }

  /** Coming back to the starting leaf means coming back from twig 0. */
  lemma EndIsStart(t: Tree, p: Path, q: Path)
    requires WF(t) && NoAlias(t) && ValidPath(t, p) && At(t, p).Leaf? && |q| < |p| && q == p[..|q|]
    requires ValidPath(t, q) && At(t, q).Branch? && NOBYTE in At(t, q).bits
    ensures TwigSlot(At(t, q).id, 0) == SlotAt(t, p) <==> p[|q|] == 0
  {
    hide WF, Rep, Entries;
    PathParent(t, p);
    var r := p[..|p| - 1];
    if |q| < |r| {
      PathIdsDiffer(t, q, r);
      PathPrefix(t, p, |q| + 1);
      var s := p[..|q| + 1];
      PathParent(t, s);
      assert s[..|q|] == q;
      WFAt(t, q);
      NobyteLeaf(At(t, q));
      LeafEnds(t, s, p);
    } else {
      assert q == r;
    }
  }

  lemma {:induction false} LeafEnds(t: Tree, s: Path, p: Path)
    requires ValidPath(t, s) && ValidPath(t, p) && |s| < |p| && s == p[..|s|]
    ensures At(t, s).Branch?
    decreases |s|
  {
    if |s| > 0 {
      LeafEnds(t.twigs[p[0]], s[1..], p[1..]);
    }
  }

  /** Walk up to the longest stored proper prefix of the current key. */
  method PrefixLeaf(h: Heap, root: Node, stack: seq<Slot>, ghost t: Tree, ghost p: Path)
    returns (ok: bool, stack': seq<Slot>, ghost p': Path)
    requires OnPath(h, root, t, stack, p) && At(t, p).Leaf? && NoAlias(t)
    ensures ok ==> OnPath(h, root, t, stack', p') && At(t, p').Leaf?
                   && LongestPrefix(t, At(t, p).key, Entry(At(t, p').key, At(t, p').val))
    ensures !ok ==> NoPrefixIn(t, At(t, p).key)
  {
    hide Rep, Before, After, NoPrefixIn, LongestPrefix, Entries, Nib, Agree;
    var start := stack[|stack| - 1];
    ghost var k := At(t, p).key;
    ghost var x := Entry(k, At(t, p).val);
    LeafAlone(At(t, p));
    stack', p' := stack, p;
    while |stack'| > 1
      invariant OnPath(h, root, t, stack', p') && |p'| <= |p| && p' == p[..|p'|]
      invariant x in Entries(At(t, p')) && NoPrefixIn(At(t, p'), k)
      decreases |stack'|
    {
      UpOf(h, root, t, stack', p');
      ghost var q := p'[..|p'| - 1];
      ghost var i := p'[|p'| - 1];
      var up := Load(h, root, stack'[|stack'| - 2]);
      stack' := stack'[..|stack'| - 1];
      if NOBYTE in up.bits {
        EndIsStart(t, p, q);
        var end := TwigSlot(up.twigs, 0);
        if end != start {
          AncestorsOf(t, q);
          PrefixFound(t, q, i, k, x);
          PushOn(h, root, t, stack', q, 0);
          return true, stack' + [end], q + [0];
        }
      }
      NoPrefixUp(At(t, q), i, k, x);
      TwigIn(At(t, q), i, x);
      p' := q;
    }
    return false, stack', p';
  }
}
