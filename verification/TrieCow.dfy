/** The copy-on-write invariant between an old and a new trie that share a heap
    (trie.c, "branch marks and regions"), and the steps that keep it. */
module TrieCow {
  import opened TrieTree
  import opened TrieHeap
  import opened TrieRegions

  // ---- Flags and contents of heap objects ----

  /** A twig array is marked in its first node, a key in its own cow bit. */
  predicate Flagged(o: Obj) {
    match o
    case Twigs(ns) => |ns| > 0 && ns[0].cow
    case KeyObj(c, _) => c
  }

  function Flags(h: Heap): set<Id> {
    set a | a in h && Flagged(h[a])
  }

  /** Equal contents, up to flags. */
  predicate SameObj(o: Obj, o': Obj) {
    match o
    case Twigs(ns) =>
      o'.Twigs? && |o'.nodes| == |ns| && forall i :: 0 <= i < |ns| ==> Strip(ns[i]) == Strip(o'.nodes[i])
    case KeyObj(_, k) => o'.KeyObj? && o'.chars == k
  }

  /** The mark of an array is in its first node only. */
  predicate CowFirst(h: Heap) {
    forall a :: a in h && h[a].Twigs? ==> forall i :: 0 < i < |h[a].nodes| ==> !h[a].nodes[i].cow
  }

  predicate SameOn(h: Heap, h': Heap, s: set<Id>) {
    forall a :: a in s && a in h ==> a in h' && SameObj(h[a], h'[a])
  }

  lemma {:induction false} RepIds(h: Heap, t: Tree)
    requires Rep(h, t)
    ensures Ids(t) <= h.Keys
    decreases t
  {
    if t.Branch? {
      forall x | x in IdsAll(t.twigs)
        ensures x in h
      {
        var i :| 0 <= i < |t.twigs| && x in Ids(t.twigs[i]);
        RepIds(h, t.twigs[i]);
      }
    }
  }

  /** A tree stays in the heap while the contents of its objects stay. */
  lemma {:induction false} RepFrame(h: Heap, h': Heap, t: Tree)
    requires Rep(h, t) && SameOn(h, h', Ids(t))
    ensures Rep(h', t)
    decreases t
  {
    assert t.id in Ids(t);
    if t.Branch? {
      forall i | 0 <= i < |t.twigs|
        ensures Rep(h', t.twigs[i])
      {
        assert forall x :: x in Ids(t.twigs[i]) ==> x in IdsAll(t.twigs);
        RepFrame(h, h', t.twigs[i]);
      }
    }
  }

  /** Heap h' is h with the node pointer that leads to the end of path p redirected
      to a node, as far as the objects around p are concerned. */
  ghost predicate Redirected(h: Heap, h': Heap, t: Tree, p: Path, n: Node)
    requires ValidPath(t, p)
  {
    && SameOn(h, h', CtxIds(t, p) - (if |p| == 0 then {} else {SlotAt(t, p).arr}))
    && (|p| > 0 ==>
          var a, i := SlotAt(t, p).arr, p[|p| - 1];
          && a in h && a in h' && h[a].Twigs? && i < |h[a].nodes|
          && SameObj(Twigs(h[a].nodes[i := n]), h'[a]))
  }

  lemma SlotBelow(t: Tree, p: Path)
    requires ValidPath(t, p) && |p| > 1
    ensures SlotAt(t, p) == SlotAt(t.twigs[p[0]], p[1..])
  {
    PathParent(t, p);
    PathParent(t.twigs[p[0]], p[1..]);
    assert p[..|p| - 1][1..] == p[1..][..|p| - 2];
  }

  lemma SlotInCtx(t: Tree, p: Path)
    requires ValidPath(t, p) && |p| > 0
    ensures SlotAt(t, p).arr in CtxIds(t, p)
    decreases |p|
  {
    if |p| > 1 {
      SlotBelow(t, p);
      SlotInCtx(t.twigs[p[0]], p[1..]);
    } else {
      assert p[..0] == [];
    }
  }

  lemma SlotElsewhere(t: Tree, p: Path, j: nat)
    requires NoAlias(t) && ValidPath(t, p) && |p| > 0 && j < |t.twigs| && j != p[0]
    ensures SlotAt(t, p).arr !in Ids(t.twigs[j])
  {
    OtherTwigIds(t, p[0], j);
    if |p| > 1 {
      SlotBelow(t, p);
      SlotInCtx(t.twigs[p[0]], p[1..]);
      IdsSplit(t.twigs[p[0]], p[1..]);
    } else {
      assert p[..0] == [];
    }
  }

  lemma OthersStay(h: Heap, h': Heap, t: Tree, p: Path, j: nat)
    requires Rep(h, t) && NoAlias(t) && ValidPath(t, p) && |p| > 0 && j < |t.twigs| && j != p[0]
    requires SameOn(h, h', CtxIds(t, p) - {SlotAt(t, p).arr})
    ensures Rep(h', t.twigs[j])
  {
    hide SameObj;
    OtherTwigIds(t, p[0], j);
    SlotElsewhere(t, p, j);
    RepFrame(h, h', t.twigs[j]);
  }

  lemma RepTwig(h: Heap, h': Heap, t: Tree, i: nat, c: Tree)
    requires Rep(h, t) && t.Branch? && i < |t.twigs| && Rep(h', c)
    requires forall j :: 0 <= j < |t.twigs| && j != i ==> Rep(h', t.twigs[j])
    requires t.id in h' && SameObj(Twigs(h[t.id].nodes[i := NodeOf(c)]), h'[t.id])
    ensures Rep(h', t.(twigs := t.twigs[i := c]))
  {
    var t' := t.(twigs := t.twigs[i := c]);
    forall j | 0 <= j < |t'.twigs|
      ensures Strip(h'[t.id].nodes[j]) == NodeOf(t'.twigs[j])
    {
      assert Strip(h[t.id].nodes[i := NodeOf(c)][j]) == Strip(h'[t.id].nodes[j]);
    }
  }

  lemma RedirectedBelow(h: Heap, h': Heap, t: Tree, p: Path, n: Node)
    requires Rep(h, t) && NoAlias(t) && ValidPath(t, p) && |p| > 1 && Redirected(h, h', t, p, n)
    ensures Redirected(h, h', t.twigs[p[0]], p[1..], n)
    ensures t.id in h' && SameObj(h[t.id], h'[t.id])
  {
    var c := t.twigs[p[0]];
    SlotBelow(t, p);
    SlotInCtx(c, p[1..]);
    IdsSplit(c, p[1..]);
    assert SlotAt(t, p).arr in IdsAll(t.twigs);
    assert t.id in CtxIds(t, p);
  }

  lemma {:induction false} RepReplace(h: Heap, h': Heap, t: Tree, p: Path, u: Tree)
    requires Rep(h, t) && NoAlias(t) && ValidPath(t, p) && Rep(h', u)
    requires Redirected(h, h', t, p, NodeOf(u))
    ensures Rep(h', Replace(t, p, u))
    decreases |p|
  {
    if |p| > 0 {
      var i, c := p[0], t.twigs[p[0]];
      forall j | 0 <= j < |t.twigs| && j != i
        ensures Rep(h', t.twigs[j])
      {
        OthersStay(h, h', t, p, j);
      }
      if |p| > 1 {
        RedirectedBelow(h, h', t, p, NodeOf(u));
        RepReplace(h, h', c, p[1..], u);
        assert NodeOf(Replace(c, p[1..], u)) == NodeOf(c);
        RepTwig(h, h', t, i, Replace(c, p[1..], u));
      } else {
        assert p[..0] == [];
        RepTwig(h, h', t, i, u);
      }
    }
  }

  lemma OtherTwigIds(t: Tree, i: nat, j: nat)
    requires NoAlias(t) && t.Branch? && i < |t.twigs| && j < |t.twigs| && i != j
    ensures Ids(t.twigs[j]) <= IdsAll(t.twigs[..i]) + IdsAll(t.twigs[i + 1..])
    ensures Ids(t.twigs[j]) !! Ids(t.twigs[i]) && t.id !in Ids(t.twigs[j])
  {
    if j < i {
      assert t.twigs[..i][j] == t.twigs[j];
    } else {
      assert t.twigs[i + 1..][j - i - 1] == t.twigs[j];
    }
    assert forall x :: x in Ids(t.twigs[j]) ==> x in IdsAll(t.twigs);
  }

  // ---- The invariant ----

  /** A trie as the tree it stands for: nothing, or one tree. */
  ghost predicate Holds(h: Heap, ts: seq<Tree>) {
    |ts| <= 1 && forall i :: 0 <= i < |ts| ==> Rep(h, ts[i]) && WF(ts[i])
  }

  /** The regions of two tries under flags F: no object is reached twice in one trie;
      at most one flagged object on each way down; the shared region has the same
      entrances from both roots; the exclusive regions are disjoint. */
  ghost predicate Regions(F: set<Id>, so: seq<Tree>, sn: seq<Tree>) {
    && |so| <= 1 && |sn| <= 1
    && NoAliasAll(so) && NoAliasAll(sn)
    && ProperAll(F, so) && ProperAll(F, sn)
    && FrAll(F, so) == FrAll(F, sn)
    && OwnAll(F, so) !! OwnAll(F, sn)
  }

  /** What a transaction keeps: both tries are whole, their regions are right, and
      every live object belongs to one of them. */
  ghost predicate Inv(h: Heap, so: seq<Tree>, sn: seq<Tree>) {
    && Holds(h, so) && Holds(h, sn)
    && CowFirst(h)
    && Regions(Flags(h), so, sn)
    && h.Keys == IdsAll(so) + IdsAll(sn)
  }

  lemma OneTree(F: set<Id>, t: Tree)
    ensures IdsAll([t]) == Ids(t) && OwnAll(F, [t]) == Own(F, t) && FrAll(F, [t]) == Fr(F, t)
    ensures ProperAll(F, [t]) <==> Proper(F, t)
    ensures NoAliasAll([t]) <==> NoAlias(t)
  {
    assert [t][0] == t;
    assert forall x :: x in Ids(t) ==> x in IdsAll([t]);
    assert forall x :: x in Own(F, t) ==> x in OwnAll(F, [t]);
    assert forall x :: x in Fr(F, t) ==> x in FrAll(F, [t]);
  }

  lemma HoldsOne(h: Heap, t: Tree)
    ensures Holds(h, [t]) <==> Rep(h, t) && WF(t)
  {
    assert [t][0] == t;
  }

  lemma DecomposeAll(F: set<Id>, ts: seq<Tree>)
    requires |ts| <= 1 && NoAliasAll(ts)
    ensures IdsAll(ts) == OwnAll(F, ts) + ObjectsOf(FrAll(F, ts))
    ensures OwnAll(F, ts) !! ObjectsOf(FrAll(F, ts))
  {
    if |ts| == 1 {
      assert ts == [ts[0]];
      OneTree(F, ts[0]);
      Decompose(F, ts[0]);
    }
  }

  /** The exclusive region of one trie is not reached from the other. */
  lemma OwnNotShared(F: set<Id>, a: seq<Tree>, b: seq<Tree>)
    requires Regions(F, a, b)
    ensures OwnAll(F, b) !! IdsAll(a) && OwnAll(F, a) !! IdsAll(b)
    ensures OwnAll(F, a) == IdsAll(a) - IdsAll(b)
    ensures OwnAll(F, b) == IdsAll(b) - IdsAll(a)
  {
    DecomposeAll(F, a);
    DecomposeAll(F, b);
  }

  lemma HoldsFrame(h: Heap, h': Heap, ts: seq<Tree>)
    requires Holds(h, ts) && SameOn(h, h', IdsAll(ts))
    ensures Holds(h', ts)
  {
    forall i | 0 <= i < |ts|
      ensures Rep(h', ts[i])
    {
      assert forall x :: x in Ids(ts[i]) ==> x in IdsAll(ts);
      RepFrame(h, h', ts[i]);
    }
  }

  // ---- Editing inside the exclusive region ----

  /** What an edit of the subtree at p to u does to the regions. */
  lemma EditRegions(F: set<Id>, t: Tree, p: Path, u: Tree)
    requires NoAlias(t) && Proper(F, t) && ValidPath(t, p) && Open(F, t, p)
    requires NoAlias(u) && Proper(F, u) && Ids(u) !! CtxIds(t, p) && Fr(F, u) == Fr(F, At(t, p))
    ensures NoAlias(Replace(t, p, u)) && Proper(F, Replace(t, p, u))
    ensures Fr(F, Replace(t, p, u)) == Fr(F, t)
    ensures Own(F, Replace(t, p, u)) == CtxOwn(F, t, p) + Own(F, u)
    ensures Own(F, t) == CtxOwn(F, t, p) + Own(F, At(t, p))
    ensures Ids(Replace(t, p, u)) == CtxIds(t, p) + Ids(u)
    ensures CtxIds(t, p) !! Ids(At(t, p)) && Ids(t) == CtxIds(t, p) + Ids(At(t, p))
    ensures |p| > 0 ==> SlotAt(t, p).arr in CtxOwn(F, t, p) && SlotAt(t, p).arr in CtxIds(t, p)
  {
    NoAliasReplace(t, p, u);
    ProperReplace(F, t, p, u);
    RegionReplace(F, t, p, u);
    OwnSplit(F, t, p);
    FrSplit(F, t, p);
    IdsSplit(t, p);
    if |p| > 0 {
      SlotOwned(F, t, p);
      SlotInCtx(t, p);
    }
  }

  lemma {:induction false} SlotOwned(F: set<Id>, t: Tree, p: Path)
    requires ValidPath(t, p) && |p| > 0 && Open(F, t, p)
    ensures SlotAt(t, p).arr in CtxOwn(F, t, p)
    decreases |p|
  {
    if |p| > 1 {
      SlotBelow(t, p);
      SlotOwned(F, t.twigs[p[0]], p[1..]);
    } else {
      assert p[..0] == [];
    }
  }

  /** The regions after the subtree at an open path was edited to u. */
  lemma EditedRegions(F: set<Id>, so: seq<Tree>, t: Tree, p: Path, u: Tree, live: set<Id>)
    requires Regions(F, so, [t]) && live == IdsAll(so) + Ids(t)
    requires ValidPath(t, p) && Open(F, t, p)
    requires NoAlias(u) && Proper(F, u) && Fr(F, u) == Fr(F, At(t, p))
    requires forall x :: x in Own(F, u) ==> x in Own(F, At(t, p)) || x !in live
    ensures Regions(F, so, [Replace(t, p, u)])
    ensures live - Own(F, At(t, p)) + Own(F, u) == IdsAll(so) + Ids(Replace(t, p, u))
  {
    var c := At(t, p);
    OneTree(F, t);
    OneTree(F, Replace(t, p, u));
    OwnNotShared(F, so, [t]);
    IdsSplit(t, p);
    OwnSplit(F, t, p);
    Decompose(F, u);
    Decompose(F, c);
    EditRegions(F, t, p, u);
    OwnAllInIds(F, so);
    ExchangeLive(IdsAll(so), CtxIds(t, p), Own(F, c), Own(F, u), ObjectsOf(Fr(F, c)));
  }

  lemma ExchangeLive(others: set<Id>, around: set<Id>, gone: set<Id>, come: set<Id>, shared: set<Id>)
    requires gone !! others && gone !! around && gone !! shared
    ensures (others + (around + (gone + shared))) - gone + come == others + (around + (come + shared))
  {
  }

  /** One in-place change of the new trie: the subtree at an open path p becomes u,
      owning fresh objects and the ones its predecessor owned; objects it gave up are
      freed; nothing else changes but the pointer to it. */
  lemma EditStep(h: Heap, h': Heap, so: seq<Tree>, t: Tree, p: Path, u: Tree)
    requires Inv(h, so, [t])
    requires ValidPath(t, p) && Open(Flags(h), t, p)
    requires Rep(h', u) && NoAlias(u) && WF(Replace(t, p, u))
    requires Proper(Flags(h), u) && Fr(Flags(h), u) == Fr(Flags(h), At(t, p))
    requires forall x :: x in Own(Flags(h), u) ==> x in Own(Flags(h), At(t, p)) || x !in h
    requires CowFirst(h') && Flags(h') == Flags(h)
    requires h'.Keys == h.Keys - Own(Flags(h), At(t, p)) + Own(Flags(h), u)
    requires Redirected(h, h', t, p, NodeOf(u))
    requires SameOn(h, h', h.Keys - Own(Flags(h), t))
    ensures Inv(h', so, [Replace(t, p, u)])
  {
    var F, t' := Flags(h), Replace(t, p, u);
    OneTree(F, t);
    OneTree(F, t');
    OwnNotShared(F, so, [t]);
    EditedRegions(F, so, t, p, u, h.Keys);
    HoldsFrame(h, h', so);
    HoldsOne(h, t);
    RepReplace(h, h', t, p, u);
    HoldsOne(h', t');
  }

  // ---- Pushing the exclusive region down one object ----

  lemma PushFrontierAll(F: set<Id>, ts: seq<Tree>, m: Tree)
    requires |ts| <= 1 && NoAliasAll(ts) && ProperAll(F, ts) && m in FrAll(F, ts)
    ensures OwnAll(Pushed(F, m), ts) == OwnAll(F, ts) + {m.id}
    ensures FrAll(Pushed(F, m), ts) == FrAll(F, ts) - {m} + Kids(m)
    ensures ProperAll(Pushed(F, m), ts)
    ensures m.id in IdsAll(ts)
  {
    assert ts == [ts[0]];
    OneTree(F, ts[0]);
    OneTree(Pushed(F, m), ts[0]);
    PushFrontier(F, ts[0], m);
    OwnInIds(F, ts[0]);
    assert m.id in Ids(m);
    assert m.id in ObjectsOf(Fr(F, ts[0]));
  }

  /** Heap h' is h after the flagged object at the end of path p was copied to nt. */
  ghost predicate PushedHeap(h: Heap, h': Heap, t: Tree, p: Path, nt: Id)
    requires ValidPath(t, p)
  {
    && nt !in h && h'.Keys == h.Keys + {nt}
    && At(t, p).id in h && SameObj(h[At(t, p).id], h'[nt])
    && CowFirst(h') && Flags(h') == Pushed(Flags(h), At(t, p))
    && Redirected(h, h', t, p, NodeOf(WithId(At(t, p), nt)))
    && SameOn(h, h', h.Keys - Own(Flags(h), t))
  }

  /** The flagged object at the end of an open path is copied for the new trie: the
      original becomes exclusive to the old trie, the copy to the new one, and the
      objects right below become the shared frontier. */
  lemma PushStep(h: Heap, h': Heap, so: seq<Tree>, t: Tree, p: Path, nt: Id)
    requires Inv(h, so, [t])
    requires ValidPath(t, p) && Open(Flags(h), t, p) && At(t, p).id in Flags(h)
    requires PushedHeap(h, h', t, p, nt)
    ensures Inv(h', so, [Replace(t, p, WithId(At(t, p), nt))])
  {
    var F, t' := Flags(h), Replace(t, p, WithId(At(t, p), nt));
    OneTree(F, t);
    OneTree(Flags(h'), t');
    HoldsOne(h, t);
    PushRegions(F, so, t, p, nt);
    PushLive(F, so, t, p, nt);
    OwnNotShared(F, so, [t]);
    HoldsFrame(h, h', so);
    PushRep(h, h', t, p, nt);
    WFSameKeys(t, p, WithId(At(t, p), nt));
    HoldsOne(h', t');
  }

  lemma PushRegions(F: set<Id>, so: seq<Tree>, t: Tree, p: Path, nt: Id)
    requires Regions(F, so, [t]) && nt !in IdsAll(so) + Ids(t) + F
    requires ValidPath(t, p) && Open(F, t, p) && At(t, p).id in F
    ensures Regions(Pushed(F, At(t, p)), so, [Replace(t, p, WithId(At(t, p), nt))])
    ensures At(t, p).id in IdsAll(so)
  {
    var m := At(t, p);
    var c := WithId(m, nt);
    OneTree(F, t);
    OneTree(Pushed(F, m), Replace(t, p, c));
    PushDisjoint(F, so, t, p, nt);
    PushFrontierAll(F, so, m);
    PushAt(F, t, p, c);
    PushIds(t, p, nt);
  }

  lemma PushLive(F: set<Id>, so: seq<Tree>, t: Tree, p: Path, nt: Id)
    requires NoAlias(t) && ValidPath(t, p) && nt !in Ids(t) && At(t, p).id in IdsAll(so)
    ensures IdsAll(so) + Ids(t) + {nt} == IdsAll(so) + Ids(Replace(t, p, WithId(At(t, p), nt)))
  {
    PushIds(t, p, nt);
  }

  lemma PushIds(t: Tree, p: Path, nt: Id)
    requires NoAlias(t) && ValidPath(t, p) && nt !in Ids(t)
    ensures NoAlias(Replace(t, p, WithId(At(t, p), nt)))
    ensures Ids(Replace(t, p, WithId(At(t, p), nt))) == Ids(t) - {At(t, p).id} + {nt}
  {
    IdsSplit(t, p);
    CopyIds(At(t, p), nt);
    NoAliasReplace(t, p, WithId(At(t, p), nt));
  }

  lemma PushDisjoint(F: set<Id>, so: seq<Tree>, t: Tree, p: Path, nt: Id)
    requires Regions(F, so, [t]) && nt !in IdsAll(so) + Ids(t)
    requires ValidPath(t, p) && Open(F, t, p) && At(t, p).id in F
    ensures At(t, p) in FrAll(F, so)
    ensures OwnAll(F, so) + {At(t, p).id} !! Own(F, t) + {nt}
  {
    OneTree(F, t);
    FrSplit(F, t, p);
    IdsSplit(t, p);
    OwnSplit(F, t, p);
    CtxInIds(F, t, p);
    OwnAllInIds(F, so);
  }

  lemma CopyIds(m: Tree, nt: Id)
    requires NoAlias(m) && nt !in Ids(m)
    ensures NoAlias(WithId(m, nt)) && Ids(WithId(m, nt)) == Ids(m) - {m.id} + {nt}
  {
  }

  lemma PushRep(h: Heap, h': Heap, t: Tree, p: Path, nt: Id)
    requires Rep(h, t) && NoAlias(t)
    requires ValidPath(t, p) && Open(Flags(h), t, p) && At(t, p).id in Flags(h)
    requires PushedHeap(h, h', t, p, nt)
    ensures Rep(h', Replace(t, p, WithId(At(t, p), nt)))
  {
    var m := At(t, p);
    IdsSplit(t, p);
    RepAt(h, t, p);
    OwnSplit(Flags(h), t, p);
    CtxInIds(Flags(h), t, p);
    RepIds(h, m);
    assert SameOn(h, h', Ids(m));
    RepFrame(h, h', m);
    RepReplace(h, h', t, p, WithId(m, nt));
  }

  /** Only identities change: the trie invariant and the entries stay. */
  lemma {:induction false} WFSameKeys(t: Tree, p: Path, c: Tree)
    requires WF(t) && ValidPath(t, p) && c == WithId(At(t, p), c.id)
    ensures WF(Replace(t, p, c)) && Entries(Replace(t, p, c)) == Entries(t)
    ensures t.Branch? ==> Replace(t, p, c).Branch? && Replace(t, p, c).index == t.index
    decreases |p|
  {
    if |p| > 0 {
      var i := p[0];
      WFSameKeys(t.twigs[i], p[1..], c);
      var c' := Replace(t.twigs[i], p[1..], c);
      var ts := t.twigs[i := c'];
      EntriesAllAt(t.twigs, i);
      EntriesAllAt(ts, i);
      assert ts[..i] == t.twigs[..i] && ts[i + 1..] == t.twigs[i + 1..];
    }
  }
}
