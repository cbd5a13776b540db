/** Pushing the exclusive region of a transaction down a node stack (trie.c, mark_cow,
    cow_pushdown_one and cow_pushdown). */
module TriePush {
  import opened Nibbles
  import opened TrieTree
  import opened TrieHeap
  import opened TrieWalk
  import opened TrieRegions
  import opened TrieCow
  import opened TrieAlong

  // ---- Single heap writes ----

  /** The object that a node refers to: a twig array or a key. */
  function ObjectOf(n: Node): Id {
    if n.BranchNode? then n.twigs else n.key
  }

  function Marked(o: Obj): Obj
    requires o.Twigs? ==> |o.nodes| > 0
  {
    match o
    case Twigs(ns) => Twigs(ns[0 := ns[0].(cow := true)])
    case KeyObj(_, k) => KeyObj(true, k)
  }

  function Unmarked(o: Obj): Obj
    requires o.Twigs? ==> |o.nodes| > 0
  {
    match o
    case Twigs(ns) => Twigs(ns[0 := ns[0].(cow := false)])
    case KeyObj(_, k) => KeyObj(false, k)
  }

  lemma MarkOne(h: Heap, a: Id)
    requires a in h && CowFirst(h) && (h[a].Twigs? ==> |h[a].nodes| > 0)
    ensures Flags(h[a := Marked(h[a])]) == Flags(h) + {a}
    ensures Flags(h[a := Unmarked(h[a])]) == Flags(h) - {a}
    ensures CowFirst(h[a := Marked(h[a])]) && CowFirst(h[a := Unmarked(h[a])])
    ensures SameObj(h[a], Marked(h[a])) && SameObj(h[a], Unmarked(h[a]))
  {
  }

  lemma AllocOne(h: Heap, a: Id, o: Obj)
    requires a !in h && CowFirst(h) && !Flagged(o)
    requires o.Twigs? ==> forall i :: 0 < i < |o.nodes| ==> !o.nodes[i].cow
    ensures Flags(h[a := o]) == Flags(h) && CowFirst(h[a := o])
    ensures h[a := o].Keys == h.Keys + {a}
  {
  }

  lemma FreeOne(h: Heap, a: Id)
    requires CowFirst(h) && a in h
    ensures Flags(Free(h, a)) == Flags(h) - {a} && CowFirst(Free(h, a))
  {
  }

  /** The heap after a node pointer has been overwritten (root pointers are kept
      outside). */
  function Written(h: Heap, s: Slot, n: Node): Heap
    requires ValidSlot(h, s)
  {
    if s.RootSlot? then h else h[s.arr := Twigs(h[s.arr].nodes[s.pos := n])]
  }

  lemma WriteOne(h: Heap, s: Slot, n: Node)
    requires ValidSlot(h, s) && CowFirst(h) && !n.cow
    requires s.TwigSlot? ==> s.arr !in Flags(h)
    ensures Flags(Written(h, s, n)) == Flags(h) && CowFirst(Written(h, s, n))
    ensures Written(h, s, n).Keys == h.Keys
  {
    if s.TwigSlot? {
      var h' := Written(h, s, n);
      assert !Flagged(h[s.arr]);
      assert forall a :: a in h && a != s.arr ==> h'[a] == h[a];
    }
  }

  // ---- The state ----

  const EMPTY_ROOT: Node := BranchNode(false, 0x1_ffff_ffff, [], 0)

  /** The heap, the next fresh object identity, and the trie structures: the trie
      that is changed (the new one in a transaction) and the old one. */
  datatype State = State(heap: Heap, next: Id, tbl: Trie, old_: Trie)

  ghost predicate ValidState(st: State, so: seq<Tree>, sn: seq<Tree>) {
    && Inv(st.heap, so, sn) && Stands(st.heap, st.tbl, sn) && Stands(st.heap, st.old_, so)
    && forall a :: a in st.heap ==> a < st.next
  }

  /** The node a pointer on an open path leads to carries no mark of its parent. */
  lemma SlotNode(h: Heap, root: Node, t: Tree, p: Path)
    requires Rep(h, t) && ValidPath(t, p) && root == NodeOf(t) && CowFirst(h) && Open(Flags(h), t, p)
    ensures ValidSlot(h, SlotAt(t, p)) && Load(h, root, SlotAt(t, p)) == NodeOf(At(t, p))
    ensures Rep(h, At(t, p))
    ensures |p| > 0 ==> SlotAt(t, p).arr !in Flags(h)
  {
    LoadAt(h, root, t, p);
    if |p| > 0 {
      OpenParent(Flags(h), t, p);
      PathParent(t, p);
      var a, i := SlotAt(t, p).arr, p[|p| - 1];
      assert a in h && !Flagged(h[a]);
      assert !h[a].nodes[i].cow;
    }
  }

  lemma {:induction false} OpenParent(F: set<Id>, t: Tree, p: Path)
    requires ValidPath(t, p) && |p| > 0 && Open(F, t, p)
    ensures SlotAt(t, p).arr !in F
    ensures ValidPath(t, p[..|p| - 1]) && Open(F, t, p[..|p| - 1])
    decreases |p|
  {
    PathParent(t, p);
    if |p| > 1 {
      SlotBelow(t, p);
      OpenParent(F, t.twigs[p[0]], p[1..]);
      assert p[..|p| - 1][1..] == p[1..][..|p| - 2];
    } else {
      assert p[..0] == [];
    }
  }

  /** Overwriting the pointer at the end of a path is a redirection. */
  lemma WriteRedirects(h: Heap, h1: Heap, t: Tree, p: Path, n: Node)
    requires Rep(h, t) && NoAlias(t) && ValidPath(t, p)
    requires SameOn(h, h1, CtxIds(t, p))
    requires ValidSlot(h1, SlotAt(t, p))
    ensures Redirected(h, Written(h1, SlotAt(t, p), n), t, p, n)
  {
    if |p| > 0 {
      SlotInCtx(t, p);
      PathParent(t, p);
      RepAt(h, t, p[..|p| - 1]);
      var a, i := SlotAt(t, p).arr, p[|p| - 1];
      assert SameObj(h[a], h1[a]);
    }
  }

  /** The heap of a push-down at m before its pointer is redirected: marks set on
      the twigs (h1), the mark of m cleared, and m copied to nt. */
  function CopiedHeap(h1: Heap, m: Id, nt: Id): Heap
    requires m in h1 && (h1[m].Twigs? ==> |h1[m].nodes| > 0)
  {
    h1[m := Unmarked(h1[m])][nt := Unmarked(h1[m])]
  }

  lemma CopiedFlags(h: Heap, h1: Heap, m: Tree, nt: Id)
    requires Rep(h, m) && NoAlias(m) && WF(m) && nt !in h && m.id in Flags(h)
    requires h1.Keys == h.Keys && SameOn(h, h1, h.Keys) && CowFirst(h1)
    requires Flags(h1) == Flags(h) + KidIds(m)
    ensures m.id in h1 && (h1[m.id].Twigs? ==> |h1[m.id].nodes| > 0)
    ensures var h3 := CopiedHeap(h1, m.id, nt);
            && h3.Keys == h.Keys + {nt} && SameOn(h, h3, h.Keys) && SameObj(h[m.id], h3[nt])
            && CowFirst(h3) && Flags(h3) == Pushed(Flags(h), m)
  {
    assert SameObj(h[m.id], h1[m.id]);
    MarkOne(h1, m.id);
    var o := Unmarked(h1[m.id]);
    AllocOne(h1[m.id := o], nt, o);
    assert m.id !in KidIds(m) by {
      if m.Branch? {
        forall i | 0 <= i < |m.twigs|
          ensures m.twigs[i].id != m.id
        {
          KidInIds(m, i);
        }
      }
    }
  }

  lemma PushHeap(h: Heap, h3: Heap, root: Node, t: Tree, p: Path, nt: Id)
    requires Rep(h, t) && NoAlias(t) && ValidPath(t, p) && root == NodeOf(t) && CowFirst(h)
    requires Open(Flags(h), t, p) && nt !in h
    requires h3.Keys == h.Keys + {nt} && SameOn(h, h3, h.Keys)
    requires At(t, p).id in h && SameObj(h[At(t, p).id], h3[nt])
    requires CowFirst(h3) && Flags(h3) == Pushed(Flags(h), At(t, p))
    ensures ValidSlot(h3, SlotAt(t, p))
    ensures PushedHeap(h, Written(h3, SlotAt(t, p), NodeOf(WithId(At(t, p), nt))), t, p, nt)
  {
    var m, s := At(t, p), SlotAt(t, p);
    SlotNode(h, root, t, p);
    if |p| > 0 {
      SlotInCtx(t, p);
      SlotOwned(Flags(h), t, p);
      OwnSplit(Flags(h), t, p);
      IdsSplit(t, p);
      KidIdsIn(m);
      assert SameObj(h[s.arr], h3[s.arr]);
    }
    RepIds(h, t);
    WriteRedirects(h, h3, t, p, NodeOf(WithId(m, nt)));
    WriteOne(h3, s, NodeOf(WithId(m, nt)));
  }

  /** The state after a node pointer of the current trie has been overwritten. */
  function WriteState(st: State, s: Slot, n: Node): State
    requires ValidSlot(st.heap, s)
  {
    st.(heap := Written(st.heap, s, n), tbl := if s.RootSlot? then st.tbl.(root := n) else st.tbl)
  }

  lemma PushValid(st: State, h3: Heap, so: seq<Tree>, t: Tree, p: Path)
    requires ValidState(st, so, [t])
    requires ValidPath(t, p) && Open(Flags(st.heap), t, p) && At(t, p).id in Flags(st.heap)
    requires ValidSlot(h3, SlotAt(t, p))
    requires PushedHeap(st.heap, Written(h3, SlotAt(t, p), NodeOf(WithId(At(t, p), st.next))), t, p, st.next)
    ensures var c := WithId(At(t, p), st.next);
            ValidState(WriteState(st.(heap := h3, next := st.next + 1), SlotAt(t, p), NodeOf(c)), so,
                       [Replace(t, p, c)])
  {
    hide Rep, WF, NoAlias, Own, Fr, Proper, SameObj, Flagged;
    var h, c, s := st.heap, WithId(At(t, p), st.next), SlotAt(t, p);
    var h' := Written(h3, s, NodeOf(c));
    PushStep(h, h', so, t, p, st.next);
    HoldsOne(h', Replace(t, p, c));
    WFSameKeys(t, p, c);
    EntriesAllOne(t);
    EntriesAllOne(Replace(t, p, c));
  }

  lemma Single(st: State, so: seq<Tree>, t: Tree)
    requires ValidState(st, so, [t])
    ensures Rep(st.heap, t) && WF(t) && NoAlias(t) && st.tbl.root == NodeOf(t)
    ensures Ids(t) <= st.heap.Keys && Proper(Flags(st.heap), t) && CowFirst(st.heap)
    ensures forall a :: a in st.heap ==> a < st.next
    ensures st.tbl.weight == |Entries(t)|
  {
    OneTree(Flags(st.heap), t);
    assert Rep(st.heap, [t][0]);
    RepIds(st.heap, t);
    EntriesAllOne(t);
  }

  ghost function KidIdsUpTo(m: Tree, n: nat): set<Id>
    requires m.Branch? && n <= |m.twigs|
  {
    set i | 0 <= i < n :: m.twigs[i].id
  }

  /** The first n twigs of m have been marked, nothing else has changed. */
  ghost predicate TwigsMarked(h0: Heap, h: Heap, m: Tree, n: nat)
    requires m.Branch? && n <= |m.twigs|
  {
    && h.Keys == h0.Keys && SameOn(h0, h, h0.Keys) && CowFirst(h)
    && Flags(h) == Flags(h0) + KidIdsUpTo(m, n)
  }

  lemma MarkTwig(h0: Heap, h: Heap, m: Tree, i: nat)
    requires Rep(h0, m) && WF(m) && m.Branch? && i < |m.twigs| && TwigsMarked(h0, h, m, i)
    ensures m.id in h && h[m.id].Twigs? && i < |h[m.id].nodes|
    ensures Strip(h[m.id].nodes[i]) == NodeOf(m.twigs[i])
    ensures m.twigs[i].id in h && (h[m.twigs[i].id].Twigs? ==> |h[m.twigs[i].id].nodes| > 0)
    ensures m.twigs[i].Branch? == h[m.twigs[i].id].Twigs?
    ensures TwigsMarked(h0, h[m.twigs[i].id := Marked(h[m.twigs[i].id])], m, i + 1)
  {
    hide Entries, Agree;
    var k := m.twigs[i];
    assert Rep(h0, k) && WF(k);
    assert SameObj(h0[m.id], h[m.id]) && SameObj(h0[k.id], h[k.id]);
    MarkOne(h, k.id);
    assert KidIdsUpTo(m, i + 1) == KidIdsUpTo(m, i) + {k.id};
  }

  /** Sharing marks: a twig array in its first node, a key in its cow bit. */
  method MarkCow(h: Heap, n: Node) returns (h': Heap)
    requires CowFirst(h) && ObjectOf(n) in h && h[ObjectOf(n)].Twigs? == n.BranchNode?
    requires n.BranchNode? ==> |h[n.twigs].nodes| > 0
    ensures Flags(h') == Flags(h) + {ObjectOf(n)} && CowFirst(h')
    ensures h'.Keys == h.Keys && SameOn(h, h', h.Keys)
    ensures h' == h[ObjectOf(n) := Marked(h[ObjectOf(n)])]
  {
    MarkOne(h, ObjectOf(n));
    if n.BranchNode? {
      var ns := h[n.twigs].nodes;
      h' := h[n.twigs := Twigs(ns[0 := ns[0].(cow := true)])];
    } else {
      h' := h[n.key := KeyObj(true, h[n.key].chars)];
    }
  }

  /** Mark all twigs of the branch object m. */
  method MarkTwigs(h0: Heap, n: Node, ghost m: Tree) returns (h: Heap)
    requires Rep(h0, m) && WF(m) && m.Branch? && n == NodeOf(m) && CowFirst(h0)
    ensures TwigsMarked(h0, h, m, |m.twigs|)
  {
    h := h0;
    var ci := 0;
    while ci < |n.bits|
      invariant 0 <= ci <= |n.bits|
      invariant TwigsMarked(h0, h, m, ci)
    {
      MarkTwig(h0, h, m, ci);
      h := MarkCow(h, h[n.twigs].nodes[ci]);
      ci := ci + 1;
    }
  }

  lemma PushBranch(st: State, h1: Heap, so: seq<Tree>, t: Tree, p: Path)
    requires ValidState(st, so, [t])
    requires ValidPath(t, p) && Open(Flags(st.heap), t, p) && At(t, p).id in Flags(st.heap)
    requires h1.Keys == st.heap.Keys && SameOn(st.heap, h1, st.heap.Keys) && CowFirst(h1)
    requires Flags(h1) == Flags(st.heap) + KidIds(At(t, p))
    ensures At(t, p).id in h1 && (h1[At(t, p).id].Twigs? ==> |h1[At(t, p).id].nodes| > 0)
    ensures var h3 := CopiedHeap(h1, At(t, p).id, st.next); var c := WithId(At(t, p), st.next);
            && Flags(h3) == Pushed(Flags(st.heap), At(t, p))
            && ValidSlot(h3, SlotAt(t, p))
            && ValidState(WriteState(st.(heap := h3, next := st.next + 1), SlotAt(t, p), NodeOf(c)), so,
                          [Replace(t, p, c)])
            && Flags(Written(h3, SlotAt(t, p), NodeOf(c))) == Flags(h3)
  {
    Single(st, so, t);
    RepAt(st.heap, t, p);
    WFAt(t, p);
    IdsSplit(t, p);
    CopiedFlags(st.heap, h1, At(t, p), st.next);
    var h3 := CopiedHeap(h1, At(t, p).id, st.next);
    PushHeap(st.heap, h3, st.tbl.root, t, p, st.next);
    PushValid(st, h3, so, t, p);
  }

  /** Push the exclusive region down one branch: mark its twigs, clear its own mark
      and give the new trie a copy of its twig array. */
  method PushdownOne(st: State, s: Slot, ghost so: seq<Tree>, ghost t: Tree, ghost p: Path)
    returns (st': State, nt: Id)
    requires ValidState(st, so, [t]) && ValidPath(t, p) && s == SlotAt(t, p)
    requires Open(Flags(st.heap), t, p) && At(t, p).id in Flags(st.heap) && At(t, p).Branch?
    ensures ValidState(st', so, [Replace(t, p, WithId(At(t, p), nt))])
    ensures Flags(st'.heap) == Pushed(Flags(st.heap), At(t, p)) && nt == st.next
  {
    hide WF, NoAlias, Rep, ValidState;
    Single(st, so, t);
    SlotNode(st.heap, st.tbl.root, t, p);
    WFAt(t, p);
    var n := Load(st.heap, st.tbl.root, s);
    nt := st.next;
    var h := MarkTwigs(st.heap, n, At(t, p));
    PushBranch(st, h, so, t, p);
    h := h[n.twigs := Unmarked(h[n.twigs])];
    h := Alloc(h, nt, Twigs(h[n.twigs].nodes));
    st' := WriteState(st.(heap := h, next := st.next + 1), s, n.(twigs := nt));
  }

  /** Give the new trie its own copy of a shared key. */
  method CopyKey(st: State, s: Slot, ghost so: seq<Tree>, ghost t: Tree, ghost p: Path)
    returns (st': State, nt: Id)
    requires ValidState(st, so, [t]) && ValidPath(t, p) && s == SlotAt(t, p)
    requires Open(Flags(st.heap), t, p) && At(t, p).id in Flags(st.heap) && At(t, p).Leaf?
    ensures ValidState(st', so, [Replace(t, p, WithId(At(t, p), nt))])
    ensures Flags(st'.heap) == Pushed(Flags(st.heap), At(t, p)) && nt == st.next
  {
    Single(st, so, t);
    SlotNode(st.heap, st.tbl.root, t, p);
    var oleaf := Load(st.heap, st.tbl.root, s);
    var okey := st.heap[oleaf.key];
    nt := st.next;
    PushBranch(st, st.heap, so, t, p);
    var h := st.heap[oleaf.key := KeyObj(false, okey.chars)];
    h := Alloc(h, nt, KeyObj(false, okey.chars));
    st' := WriteState(st.(heap := h, next := st.next + 1), s, LeafNode(false, nt, oleaf.val));
  }

  // ---- The whole stack ----

  /** The first i nodes on the path are exclusively owned. */
  ghost predicate OpenTo(F: set<Id>, t: Tree, p: Path, i: nat)
    requires ValidPath(t, p) && i <= |p| + 1
  {
    if i <= |p| then (PathPrefix(t, p, i); Open(F, t, p[..i])) else Open(F, t, p) && At(t, p).id !in F
  }

  lemma {:induction false} OpenExtend(F: set<Id>, t: Tree, q: Path, k: nat)
    requires ValidPath(t, q) && Open(F, t, q) && At(t, q).id !in F && ValidPath(t, q + [k])
    ensures Open(F, t, q + [k])
    decreases |q|
  {
    if |q| == 0 {
      assert q + [k] == [k] && [k][1..] == [];
    } else {
      assert (q + [k])[1..] == q[1..] + [k];
      OpenExtend(F, t.twigs[q[0]], q[1..], k);
    }
  }

  lemma OpenNext(F: set<Id>, t: Tree, p: Path, i: nat)
    requires ValidPath(t, p) && i <= |p| && ValidPath(t, p[..i])
    requires Open(F, t, p[..i]) && At(t, p[..i]).id !in F
    ensures OpenTo(F, t, p, i + 1)
  {
    if i < |p| {
      PathPrefix(t, p, i + 1);
      assert p[..i + 1] == p[..i] + [p[i]];
      OpenExtend(F, t, p[..i], p[i]);
    } else {
      assert p[..i] == p;
    }
  }

  lemma {:induction false} StackIndex(t: Tree, p: Path, i: nat)
    requires ValidPath(t, p) && i <= |p| && ValidPath(t, p[..i])
    ensures Stack(t, p)[i] == SlotAt(t, p[..i])
    decreases |p|
  {
    if i < |p| {
      PathParent(t, p);
      assert p[..|p| - 1][..i] == p[..i];
      StackIndex(t, p[..|p| - 1], i);
    } else {
      assert p[..i] == p;
    }
  }

  /** After a push-down at depth i: the path stays the same up to identities, is
      exclusive one node further, and only the next stack entry needs re-pointing. */
  lemma PushedAlong(st: State, so: seq<Tree>, t: Tree, p: Path, i: nat, nt: Id)
    requires ValidState(st, so, [t]) && ValidPath(t, p) && i <= |p| && ValidPath(t, p[..i])
    requires Open(Flags(st.heap), t, p[..i]) && At(t, p[..i]).id in Flags(st.heap) && nt == st.next
    ensures var m := At(t, p[..i]); var t' := Replace(t, p[..i], WithId(m, nt));
            && Along(t, t', p) && ValidPath(t', p)
            && OpenTo(Pushed(Flags(st.heap), m), t', p, i + 1)
            && (i == |p| ==> Stack(t', p) == Stack(t, p))
            && (i < |p| ==> Stack(t', p) == Stack(t, p)[i + 1 := TwigSlot(nt, p[i])] && Stack(t, p)[i + 1].TwigSlot?
                            && Stack(t, p)[i + 1].pos == p[i])
  {
    var q, F := p[..i], Flags(st.heap);
    var m := At(t, q);
    var t' := Replace(t, q, WithId(m, nt));
    Single(st, so, t);
    AlongReplace(t, p, i, nt);
    AlongSame(t, t', p);
    StackRenamed(t, p, i, nt);
    PushCtx(F, t, q);
    RegionReplace(Pushed(F, m), t, q, WithId(m, nt));
    ReplaceAt(t, q, WithId(m, nt));
    IdsSplit(t, q);
    KidIdsIn(m);
    assert nt !in Pushed(F, m);
    OpenNext(Pushed(F, m), t', p, i);
  }

  /** Make the node at depth i of the stack exclusive to the new trie. */
  method PushNode(st: State, s: Slot, ghost so: seq<Tree>, ghost t: Tree, ghost p: Path, ghost i: nat)
    returns (st': State, pushed: bool, nt: Id, ghost t': Tree)
    requires ValidState(st, so, [t]) && ValidPath(t, p) && i <= |p| && OpenTo(Flags(st.heap), t, p, i)
    requires s == Stack(t, p)[i]
    ensures ValidState(st', so, [t']) && Along(t, t', p) && ValidPath(t', p)
    ensures OpenTo(Flags(st'.heap), t', p, i + 1)
    ensures !pushed || i == |p| ==> Stack(t', p) == Stack(t, p)
    ensures pushed && i < |p| ==> Stack(t', p) == Stack(t, p)[i + 1 := TwigSlot(nt, p[i])]
                                  && Stack(t, p)[i + 1].TwigSlot? && Stack(t, p)[i + 1].pos == p[i]
  {
    ghost var q := p[..i];
    PathPrefix(t, p, i);
    StackIndex(t, p, i);
    Single(st, so, t);
    SlotNode(st.heap, st.tbl.root, t, q);
    WFAt(t, q);
    var n := Load(st.heap, st.tbl.root, s);
    if n.BranchNode? && Flagged(st.heap[n.twigs]) {
      PushedAlong(st, so, t, p, i, st.next);
      st', nt := PushdownOne(st, s, so, t, q);
      pushed, t' := true, Replace(t, q, WithId(At(t, q), nt));
    } else if n.LeafNode? && st.heap[n.key].cow {
      LeafAtEnd(t, p, i);
      PushedAlong(st, so, t, p, i, st.next);
      st', nt := CopyKey(st, s, so, t, q);
      pushed, t' := false, Replace(t, q, WithId(At(t, q), nt));
    } else {
      OpenNext(Flags(st.heap), t, p, i);
      AlongRefl(t, p);
      st', pushed, nt, t' := st, false, 0, t;
    }
  }

  /** Make every node on the stack exclusive to the new trie. */
  method CowPushdown(st0: State, stack0: seq<Slot>, ghost so: seq<Tree>, ghost t0: Tree, ghost p: Path)
    returns (st: State, stack: seq<Slot>, ghost t: Tree)
    requires ValidState(st0, so, [t0]) && ValidPath(t0, p) && stack0 == Stack(t0, p)
    ensures ValidState(st, so, [t]) && Along(t0, t, p) && ValidPath(t, p) && stack == Stack(t, p)
    ensures Open(Flags(st.heap), t, p) && At(t, p).id !in Flags(st.heap)
  {
    hide ValidState, WF, Rep, Along, At, ValidPath;
    st, stack, t := st0, stack0, t0;
    AlongRefl(t, p);
    var pushed, newTwigs := false, 0;
    var i := 0;
    while i < |stack|
      invariant 0 <= i <= |stack| == |p| + 1
      invariant ValidState(st, so, [t]) && Along(t0, t, p) && ValidPath(t, p)
      invariant OpenTo(Flags(st.heap), t, p, i)
      invariant pushed && i < |stack| ==> stack[i].TwigSlot?
      invariant Stack(t, p) == if pushed && i < |stack| then stack[i := TwigSlot(newTwigs, stack[i].pos)] else stack
    {
      // The entry still points into the array that was copied for its parent.
      if pushed {
        stack := stack[i := TwigSlot(newTwigs, stack[i].pos)];
      }
      ghost var t1 := t;
      st, pushed, newTwigs, t := PushNode(st, stack[i], so, t, p, i);
      AlongTrans(t0, t1, t, p);
      i := i + 1;
    }
  }

  lemma LeafAtEnd(t: Tree, p: Path, i: nat)
    requires ValidPath(t, p) && i <= |p| && ValidPath(t, p[..i]) && At(t, p[..i]).Leaf?
    ensures i == |p|
  {
    if i < |p| {
      LeafEnds(t, p[..i], p);
    }
  }
}
