/** Ending a transaction (trie.c, cow_cleanup): free what one trie owns exclusively
    and take the marks off the shared frontier. */
module TrieCleanup {
  import opened TrieTree
  import opened TrieHeap
  import opened TrieRegions
  import opened TrieCow
  import opened TriePush
  import opened TrieMutate

  /** Heap h' is h without the objects `gone` and with the flags of `roots` cleared. */
  ghost predicate Cleaned(h: Heap, h': Heap, gone: set<Id>, roots: set<Id>) {
    && h'.Keys == h.Keys - gone
    && SameOn(h, h', h.Keys - gone)
    && Flags(h') == Flags(h) - roots
    && CowFirst(h')
  }

  lemma CleanedThen(h: Heap, h1: Heap, h2: Heap, g1: set<Id>, r1: set<Id>, g2: set<Id>, r2: set<Id>)
    requires Cleaned(h, h1, g1, r1) && Cleaned(h1, h2, g2, r2)
    ensures Cleaned(h, h2, g1 + g2, r1 + r2)
  {
  }

  lemma RootsUnion(a: set<Tree>, b: set<Tree>)
    ensures RootsOf(a + b) == RootsOf(a) + RootsOf(b)
  {
    forall x | x in RootsOf(a)
      ensures x in RootsOf(a + b)
    {
      var m :| m in a && m.id == x;
      assert m in a + b;
    }
    forall x | x in RootsOf(b)
      ensures x in RootsOf(a + b)
    {
      var m :| m in b && m.id == x;
      assert m in a + b;
    }
  }

  lemma RootsIn(F: set<Id>, ts: seq<Tree>)
    ensures RootsOf(FrAll(F, ts)) <= IdsAll(ts)
  {
    OwnAllInIds(F, ts);
    forall x | x in RootsOf(FrAll(F, ts))
      ensures x in IdsAll(ts)
    {
      var m :| m in FrAll(F, ts) && m.id == x;
      assert x in Ids(m);
      assert x in ObjectsOf(FrAll(F, ts));
    }
  }

  /** After the first i twigs: twig i is still whole and has the same regions. */
  lemma NextTwigIntact(h: Heap, hc: Heap, t: Tree, i: nat)
    requires Rep(h, t) && NoAlias(t) && t.Branch? && i < |t.twigs|
    requires Cleaned(h, hc, OwnAll(Flags(h), t.twigs[..i]), RootsOf(FrAll(Flags(h), t.twigs[..i])))
    ensures t.id in hc && hc[t.id].Twigs? && i < |hc[t.id].nodes| && Strip(hc[t.id].nodes[i]) == NodeOf(t.twigs[i])
    ensures Rep(hc, t.twigs[i])
    ensures Own(Flags(hc), t.twigs[i]) == Own(Flags(h), t.twigs[i])
    ensures Fr(Flags(hc), t.twigs[i]) == Fr(Flags(h), t.twigs[i])
  {
    var F, done, k := Flags(h), t.twigs[..i], t.twigs[i];
    NoAliasCut(t.twigs, i);
    OwnAllInIds(F, done);
    RootsIn(F, done);
    IdsAllCut(t.twigs, i);
    RepIds(h, k);
    assert SameObj(h[t.id], hc[t.id]);
    RepFrame(h, hc, k);
    RegionFrame(Flags(hc), F, k);
  }

  lemma OneMoreTwig(F: set<Id>, t: Tree, i: nat)
    requires t.Branch? && i < |t.twigs|
    ensures OwnAll(F, t.twigs[..i + 1]) == OwnAll(F, t.twigs[..i]) + Own(F, t.twigs[i])
    ensures RootsOf(FrAll(F, t.twigs[..i + 1])) == RootsOf(FrAll(F, t.twigs[..i])) + RootsOf(Fr(F, t.twigs[i]))
  {
    assert t.twigs[..i + 1] == t.twigs[..i] + [t.twigs[i]];
    RegionsConcat(F, t.twigs[..i], [t.twigs[i]]);
    OneTree(F, t.twigs[i]);
    RootsUnion(FrAll(F, t.twigs[..i]), Fr(F, t.twigs[i]));
  }

  lemma CleanedNothing(h: Heap, F: set<Id>)
    requires CowFirst(h)
    ensures Cleaned(h, h, OwnAll(F, []), RootsOf(FrAll(F, [])))
  {
    assert OwnAll(F, []) == {} && FrAll(F, []) == {};
    assert RootsOf(FrAll(F, [])) == {};
  }

  lemma FrontierOne(h: Heap, t: Tree)
    requires Rep(h, t) && t.id in Flags(h) && CowFirst(h) && WF(t)
    ensures t.Branch? ==> |h[t.id].nodes| > 0
    ensures Cleaned(h, h[t.id := Unmarked(h[t.id])], Own(Flags(h), t), RootsOf(Fr(Flags(h), t)))
  {
    MarkOne(h, t.id);
    assert RootsOf({t}) == {t.id};
  }

  lemma LeafFreed(h: Heap, t: Tree)
    requires Rep(h, t) && t.Leaf? && t.id !in Flags(h) && CowFirst(h)
    ensures Cleaned(h, Free(h, t.id), Own(Flags(h), t), RootsOf(Fr(Flags(h), t)))
  {
    FreeOne(h, t.id);
    assert Fr(Flags(h), t) == {};
    assert RootsOf(Fr(Flags(h), t)) == {};
  }

  lemma ArrayFreed(h: Heap, hc: Heap, t: Tree)
    requires Rep(h, t) && NoAlias(t) && t.Branch? && t.id !in Flags(h)
    requires Cleaned(h, hc, OwnAll(Flags(h), t.twigs), RootsOf(FrAll(Flags(h), t.twigs)))
    ensures t.id in hc && Cleaned(h, hc - {t.id}, Own(Flags(h), t), RootsOf(Fr(Flags(h), t)))
  {
    OwnAllInIds(Flags(h), t.twigs);
    FreeOne(hc, t.id);
  }

  /** Free the exclusive region below a node and unmark the frontier. Every free hits
      a live object. */
  method Cleanup(h: Heap, n: Node, ghost t: Tree) returns (h': Heap)
    requires Rep(h, t) && Strip(n) == NodeOf(t) && NoAlias(t) && WF(t) && CowFirst(h)
    ensures Cleaned(h, h', Own(Flags(h), t), RootsOf(Fr(Flags(h), t)))
    decreases t
  {
    if n.BranchNode? && Flagged(h[n.twigs]) {
      FrontierOne(h, t);
      h' := h[n.twigs := Unmarked(h[n.twigs])];
    } else if n.BranchNode? {
      h' := CleanupTwigs(h, n, t);
      ArrayFreed(h, h', t);
      h' := Free(h', n.twigs);
    } else if h[n.key].cow {
      FrontierOne(h, t);
      h' := h[n.key := KeyObj(false, h[n.key].chars)];
    } else {
      LeafFreed(h, t);
      h' := Free(h, n.key);
    }
  }

  method CleanupTwigs(h: Heap, n: Node, ghost t: Tree) returns (hc: Heap)
    requires Rep(h, t) && Strip(n) == NodeOf(t) && NoAlias(t) && WF(t) && CowFirst(h)
    requires t.Branch?
    ensures Cleaned(h, hc, OwnAll(Flags(h), t.twigs), RootsOf(FrAll(Flags(h), t.twigs)))
    decreases t, 0
  {
    hide Cleaned, Rep, NoAlias;
    hc := h;
    var ci := 0;
    BranchSize(t);
    assert t.twigs[..0] == [];
    CleanedNothing(h, Flags(h));
    while ci < |n.bits|
      invariant 0 <= ci <= |n.bits| == |t.twigs|
      invariant Cleaned(h, hc, OwnAll(Flags(h), t.twigs[..ci]), RootsOf(FrAll(Flags(h), t.twigs[..ci])))
    {
      NextTwigIntact(h, hc, t, ci);
      TwigFacts(h, hc, t, ci);
      ghost var h1 := hc;
      hc := Cleanup(hc, hc[n.twigs].nodes[ci], t.twigs[ci]);
      CleanedThen(h, h1, hc, OwnAll(Flags(h), t.twigs[..ci]), RootsOf(FrAll(Flags(h), t.twigs[..ci])),
                  Own(Flags(h), t.twigs[ci]), RootsOf(Fr(Flags(h), t.twigs[ci])));
      OneMoreTwig(Flags(h), t, ci);
      ci := ci + 1;
    }
    assert t.twigs[..ci] == t.twigs;
  }

  lemma BranchSize(t: Tree)
    requires WF(t) && t.Branch?
    ensures |t.bits| == |t.twigs|
  {
  }

  lemma TwigFacts(h: Heap, hc: Heap, t: Tree, i: nat)
    requires NoAlias(t) && WF(t) && t.Branch? && i < |t.twigs|
    requires Cleaned(h, hc, OwnAll(Flags(h), t.twigs[..i]), RootsOf(FrAll(Flags(h), t.twigs[..i])))
    ensures NoAlias(t.twigs[i]) && WF(t.twigs[i]) && CowFirst(hc)
  {
  }
}
