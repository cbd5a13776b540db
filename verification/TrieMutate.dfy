/** In-place insertion and deletion at an exclusively owned path (trie.c, cow_get_ins
    after its search, and del_found). */
module TrieMutate {
  import opened Bytes
  import opened Options
  import opened TrieTree
  import opened TrieHeap
  import opened TrieRegions
  import opened TrieEdit
  import opened TrieCow
  import opened TriePush

  // ---- Regions of edited subtrees ----

  lemma RegionsConcat(F: set<Id>, a: seq<Tree>, b: seq<Tree>)
    ensures OwnAll(F, a + b) == OwnAll(F, a) + OwnAll(F, b)
    ensures FrAll(F, a + b) == FrAll(F, a) + FrAll(F, b)
    ensures IdsAll(a + b) == IdsAll(a) + IdsAll(b)
  {
    var c := a + b;
    forall x | x in OwnAll(F, c)
      ensures x in OwnAll(F, a) + OwnAll(F, b)
    {
      var i :| 0 <= i < |c| && x in Own(F, c[i]);
      assert i >= |a| ==> c[i] == b[i - |a|];
    }
    forall x | x in FrAll(F, c)
      ensures x in FrAll(F, a) + FrAll(F, b)
    {
      var i :| 0 <= i < |c| && x in Fr(F, c[i]);
      assert i >= |a| ==> c[i] == b[i - |a|];
    }
    forall x | x in IdsAll(c)
      ensures x in IdsAll(a) + IdsAll(b)
    {
      var i :| 0 <= i < |c| && x in Ids(c[i]);
      assert i >= |a| ==> c[i] == b[i - |a|];
    }
    ConcatIn(F, a, b);
  }

  lemma ConcatIn(F: set<Id>, a: seq<Tree>, b: seq<Tree>)
    ensures OwnAll(F, a) + OwnAll(F, b) <= OwnAll(F, a + b)
    ensures FrAll(F, a) + FrAll(F, b) <= FrAll(F, a + b)
    ensures IdsAll(a) + IdsAll(b) <= IdsAll(a + b)
  {
    var c := a + b;
    forall i | 0 <= i < |a|
      ensures c[i] == a[i]
    {
    }
    forall i | 0 <= i < |b|
      ensures c[|a| + i] == b[i]
    {
    }
    forall x | x in OwnAll(F, b)
      ensures x in OwnAll(F, c)
    {
      var i :| 0 <= i < |b| && x in Own(F, b[i]);
      assert x in Own(F, c[|a| + i]);
    }
    forall x | x in FrAll(F, b)
      ensures x in FrAll(F, c)
    {
      var i :| 0 <= i < |b| && x in Fr(F, b[i]);
      assert x in Fr(F, c[|a| + i]);
    }
    forall x | x in IdsAll(b)
      ensures x in IdsAll(c)
    {
      var i :| 0 <= i < |b| && x in Ids(b[i]);
      assert x in Ids(c[|a| + i]);
    }
    assert forall x :: x in OwnAll(F, a) ==> x in OwnAll(F, c);
    assert forall x :: x in FrAll(F, a) ==> x in FrAll(F, c);
    assert forall x :: x in IdsAll(a) ==> x in IdsAll(c);
  }

  lemma NoAliasConcat(a: seq<Tree>, b: seq<Tree>)
    ensures NoAliasAll(a + b) <==> NoAliasAll(a) && NoAliasAll(b) && IdsAll(a) !! IdsAll(b)
  {
    var c := a + b;
    assert forall i :: 0 <= i < |a| ==> c[i] == a[i];
    assert forall i {:trigger b[i]} :: 0 <= i < |b| ==> c[|a| + i] == b[i];
    if NoAliasAll(c) {
      forall x | x in IdsAll(a)
        ensures x !in IdsAll(b)
      {
        var i :| 0 <= i < |a| && x in Ids(a[i]);
        forall j | 0 <= j < |b|
          ensures x !in Ids(b[j])
        {
          assert Ids(c[i]) !! Ids(c[|a| + j]);
        }
      }
      forall i, j | 0 <= i < j < |b|
        ensures Ids(b[i]) !! Ids(b[j])
      {
        assert Ids(c[|a| + i]) !! Ids(c[|a| + j]);
      }
    }
    if NoAliasAll(a) && NoAliasAll(b) && IdsAll(a) !! IdsAll(b) {
      forall i, j | 0 <= i < j < |c|
        ensures Ids(c[i]) !! Ids(c[j])
      {
        if i >= |a| {
          assert c[i] == b[i - |a|] && c[j] == b[j - |a|];
        } else if j >= |a| {
          assert c[j] == b[j - |a|];
          assert Ids(a[i]) <= IdsAll(a) && Ids(b[j - |a|]) <= IdsAll(b);
        }
      }
      forall i | 0 <= i < |c|
        ensures NoAlias(c[i])
      {
        assert i >= |a| ==> c[i] == b[i - |a|];
      }
    }
  }

  lemma OneLeaf(F: set<Id>, l: Tree)
    requires l.Leaf? && l.id !in F
    ensures IdsAll([l]) == {l.id} && OwnAll(F, [l]) == {l.id} && FrAll(F, [l]) == {} && NoAliasAll([l])
    ensures Proper(F, l)
  {
    OneTree(F, l);
  }

  /** A leaf put among twigs adds its key object and nothing else. */
  lemma LeafAmong(F: set<Id>, a: seq<Tree>, l: Tree, b: seq<Tree>)
    requires l.Leaf? && l.id !in F
    ensures OwnAll(F, a + [l] + b) == OwnAll(F, a + b) + {l.id}
    ensures FrAll(F, a + [l] + b) == FrAll(F, a + b)
    ensures IdsAll(a + [l] + b) == IdsAll(a + b) + {l.id}
  {
    OneLeaf(F, l);
    RegionsConcat(F, a, b);
    RegionsConcat(F, a, [l]);
    RegionsConcat(F, a + [l], b);
  }

  lemma LeafAmongAlias(F: set<Id>, a: seq<Tree>, l: Tree, b: seq<Tree>)
    requires l.Leaf? && l.id !in F
    ensures NoAliasAll(a + [l] + b) <==> NoAliasAll(a + b) && l.id !in IdsAll(a + b)
  {
    OneLeaf(F, l);
    RegionsConcat(F, a, b);
    RegionsConcat(F, a, [l]);
    NoAliasConcat(a, b);
    NoAliasConcat(a, [l]);
    NoAliasConcat(a + [l], b);
  }

  lemma LeafAmongProper(F: set<Id>, a: seq<Tree>, l: Tree, b: seq<Tree>)
    requires l.Leaf?
    ensures ProperAll(F, a + [l] + b) <==> ProperAll(F, a + b)
  {
    var c, d := a + [l] + b, a + b;
    forall i | 0 <= i < |d|
      ensures d[i] == c[if i < |a| then i else i + 1]
    {
    }
    forall i | 0 <= i < |c| && i != |a|
      ensures c[i] == d[if i < |a| then i else i - 1]
    {
    }
    if ProperAll(F, d) {
      forall i | 0 <= i < |c|
        ensures Proper(F, c[i])
      {
        if i != |a| {
          assert c[i] == d[if i < |a| then i else i - 1];
        }
      }
    }
  }

  /** What u becomes: the objects it owns, its frontier and its aliasing. */
  ghost predicate EditedTo(F: set<Id>, u: Tree, u': Tree, gone: set<Id>, come: set<Id>) {
    && NoAlias(u') && Proper(F, u')
    && Fr(F, u') == Fr(F, u)
    && gone <= Own(F, u) && Own(F, u') == Own(F, u) - gone + come
  }

  lemma AddTwigRegions(F: set<Id>, u: Tree, id: Id, bit: nat, leaf: Tree)
    requires u.Branch? && |u.bits| == |u.twigs| && leaf.Leaf? && u.id !in F && NoAlias(u) && Proper(F, u)
    requires id !in F + Ids(u) && leaf.id !in F + Ids(u) && id != leaf.id
    ensures EditedTo(F, u, AddTwig(u, id, bit, leaf), {u.id}, {id, leaf.id})
  {
    var s := TwigOff(u.bits, bit);
    var a, b := u.twigs[..s], u.twigs[s..];
    assert u.twigs == a + b;
    LeafAmong(F, a, leaf, b);
    LeafAmongAlias(F, a, leaf, b);
    LeafAmongProper(F, a, leaf, b);
    OwnAllInIds(F, u.twigs);
  }

  lemma NewBranchRegions(F: set<Id>, u: Tree, id: Id, d: nat, tbit: nat, kbit: nat, leaf: Tree)
    requires leaf.Leaf? && NoAlias(u) && Proper(F, u)
    requires id !in F + Ids(u) && leaf.id !in F + Ids(u) && id != leaf.id
    ensures EditedTo(F, u, NewBranch(u, id, d, tbit, kbit, leaf), {}, {id, leaf.id})
  {
    hide Own, Fr, Ids, NoAlias, Proper;
    OneTree(F, u);
    var a, b := if kbit < tbit then [] else [u], if kbit < tbit then [u] else [];
    var n := NewBranch(u, id, d, tbit, kbit, leaf);
    assert a + b == [u];
    assert n.twigs == a + [leaf] + b;
    LeafAmong(F, a, leaf, b);
    LeafAmongAlias(F, a, leaf, b);
    LeafAmongProper(F, a, leaf, b);
    UnflaggedBranch(F, n);
  }

  lemma UnflaggedBranch(F: set<Id>, n: Tree)
    requires n.Branch? && n.id !in F
    ensures Own(F, n) == {n.id} + OwnAll(F, n.twigs) && Fr(F, n) == FrAll(F, n.twigs)
    ensures NoAlias(n) <==> n.id !in IdsAll(n.twigs) && NoAliasAll(n.twigs)
    ensures Proper(F, n) <==> ProperAll(F, n.twigs)
  {
  }

  lemma DropRegions(F: set<Id>, u: Tree, i: nat)
    requires u.Branch? && i < |u.twigs| && u.twigs[i].Leaf? && u.id !in F && u.twigs[i].id !in F
    requires NoAlias(u) && Proper(F, u)
    ensures var rest := u.twigs[..i] + u.twigs[i + 1..];
            && NoAliasAll(rest) && ProperAll(F, rest)
            && FrAll(F, rest) == Fr(F, u)
            && OwnAll(F, rest) == Own(F, u) - {u.id, u.twigs[i].id}
            && IdsAll(rest) <= Ids(u)
            && {u.id, u.twigs[i].id} <= Own(F, u)
  {
    var a, l, b := u.twigs[..i], u.twigs[i], u.twigs[i + 1..];
    assert u.twigs == a + [l] + b;
    LeafAmong(F, a, l, b);
    LeafAmongAlias(F, a, l, b);
    LeafAmongProper(F, a, l, b);
    OwnAllInIds(F, a + b);
  }

  // ---- One edit ----

  lemma EditDisjoint(F: set<Id>, t: Tree, p: Path, u: Tree, live: set<Id>)
    requires NoAlias(t) && ValidPath(t, p) && Ids(t) <= live
    requires NoAlias(u) && Fr(F, u) == Fr(F, At(t, p))
    requires forall x :: x in Own(F, u) ==> x in Own(F, At(t, p)) || x !in live
    ensures Ids(u) !! CtxIds(t, p)
  {
    IdsSplit(t, p);
    Decompose(F, u);
    Decompose(F, At(t, p));
  }

  /** A state with objects `gone` of the subtree at p freed and objects `come`
      allocated, ready for the pointer to the subtree to be overwritten. */
  ghost predicate Prepared(st: State, st1: State, t: Tree, p: Path, u: Tree, gone: set<Id>, come: set<Id>)
    requires ValidPath(t, p)
  {
    && come !! st.heap.Keys
    && st1.old_ == st.old_ && st1.tbl.root == st.tbl.root
    && st1.tbl.weight == |Entries(Replace(t, p, u))|
    && (forall a :: a in st1.heap ==> a < st1.next)
    && st1.heap.Keys == st.heap.Keys - gone + come
    && SameOn(st.heap, st1.heap, st.heap.Keys - gone)
    && Flags(st1.heap) == Flags(st.heap) && CowFirst(st1.heap)
    && Rep(st1.heap, u)
  }

  lemma EditSlot(st: State, st1: State, so: seq<Tree>, t: Tree, p: Path, gone: set<Id>)
    requires ValidState(st, so, [t]) && ValidPath(t, p) && Open(Flags(st.heap), t, p)
    requires gone <= Own(Flags(st.heap), At(t, p)) && SameOn(st.heap, st1.heap, st.heap.Keys - gone)
    ensures SameOn(st.heap, st1.heap, CtxIds(t, p))
    ensures SameOn(st.heap, st1.heap, st.heap.Keys - Own(Flags(st.heap), t))
    ensures ValidSlot(st1.heap, SlotAt(t, p))
    ensures |p| > 0 ==> SlotAt(t, p).arr in Own(Flags(st.heap), t) && SlotAt(t, p).arr !in Flags(st.heap)
    ensures |p| > 0 ==> SlotAt(t, p).arr in CtxIds(t, p)
  {
    var h, h1, s, F := st.heap, st1.heap, SlotAt(t, p), Flags(st.heap);
    Single(st, so, t);
    SlotNode(h, st.tbl.root, t, p);
    IdsSplit(t, p);
    OwnSplit(F, t, p);
    OwnInIds(F, At(t, p));
    if |p| > 0 {
      SlotInCtx(t, p);
      SlotOwned(F, t, p);
      assert SameObj(h[s.arr], h1[s.arr]);
    }
  }

  lemma EditWrite(st: State, st1: State, so: seq<Tree>, t: Tree, p: Path, u: Tree, gone: set<Id>, come: set<Id>)
    requires ValidState(st, so, [t]) && ValidPath(t, p) && Open(Flags(st.heap), t, p)
    requires gone <= Own(Flags(st.heap), At(t, p))
    requires Prepared(st, st1, t, p, u, gone, come) && Ids(u) !! CtxIds(t, p)
    ensures ValidSlot(st1.heap, SlotAt(t, p))
    ensures var h' := Written(st1.heap, SlotAt(t, p), NodeOf(u));
            && Flags(h') == Flags(st.heap) && CowFirst(h') && h'.Keys == st1.heap.Keys
            && Rep(h', u) && Redirected(st.heap, h', t, p, NodeOf(u))
            && SameOn(st.heap, h', st.heap.Keys - Own(Flags(st.heap), t))
  {
    var h, h1, s := st.heap, st1.heap, SlotAt(t, p);
    Single(st, so, t);
    EditSlot(st, st1, so, t, p, gone);
    WriteRedirects(h, h1, t, p, NodeOf(u));
    WriteOne(h1, s, NodeOf(u));
    RepFrame(h1, Written(h1, s, NodeOf(u)), u);
  }

  lemma ExchangeKeys(live: set<Id>, own: set<Id>, gone: set<Id>, come: set<Id>)
    requires gone <= own <= live && come !! live
    ensures live - own + (own - gone + come) == live - gone + come
  {
  }

  /** An edit done in place at an exclusively owned path keeps the whole state valid. */
  lemma EditValid(st: State, st1: State, so: seq<Tree>, t: Tree, p: Path, u: Tree, gone: set<Id>, come: set<Id>)
    requires ValidState(st, so, [t]) && ValidPath(t, p) && Open(Flags(st.heap), t, p)
    requires EditedTo(Flags(st.heap), At(t, p), u, gone, come)
    requires WF(Replace(t, p, u)) && Prepared(st, st1, t, p, u, gone, come)
    ensures ValidSlot(st1.heap, SlotAt(t, p))
    ensures ValidState(WriteState(st1, SlotAt(t, p), NodeOf(u)), so, [Replace(t, p, u)])
    ensures Flags(WriteState(st1, SlotAt(t, p), NodeOf(u)).heap) == Flags(st.heap)
  {
    Single(st, so, t);
    ProperHere(st, so, t, p);
    EditDisjoint(Flags(st.heap), t, p, u, st.heap.Keys);
    EditWrite(st, st1, so, t, p, u, gone, come);
    ExchangeKeys(st.heap.Keys, Own(Flags(st.heap), At(t, p)), gone, come);
    var h', t' := Written(st1.heap, SlotAt(t, p), NodeOf(u)), Replace(t, p, u);
    EditStep(st.heap, h', so, t, p, u);
    HoldsOne(h', t');
    EntriesAllOne(t');
    if |p| > 0 {
      assert NodeOf(t') == NodeOf(t);
    }
  }

  /** The end of a path: its objects are live, and it is proper if the path is open. */
  lemma ProperHere(st: State, so: seq<Tree>, t: Tree, p: Path)
    requires ValidState(st, so, [t]) && ValidPath(t, p)
    ensures NoAlias(At(t, p)) && Ids(At(t, p)) <= st.heap.Keys && Own(Flags(st.heap), At(t, p)) <= st.heap.Keys
    ensures Rep(st.heap, At(t, p)) && WF(At(t, p))
    ensures Open(Flags(st.heap), t, p) ==> Proper(Flags(st.heap), At(t, p))
  {
    Single(st, so, t);
    IdsSplit(t, p);
    RepAt(st.heap, t, p);
    WFAt(t, p);
    OwnInIds(Flags(st.heap), At(t, p));
    if Open(Flags(st.heap), t, p) {
      ProperAt(Flags(st.heap), t, p);
    }
  }

  // ---- Insertion ----

  /** The object that an array was before it was reallocated, if it was. */
  function Gone(was: Option<Id>): set<Id> {
    if was.None? then {} else {was.value}
  }

  predicate NewIds(h: Heap, kid: Id, nt: Id, was: Option<Id>) {
    kid !in h && nt !in h && kid != nt && (was.Some? ==> was.value in h)
  }

  /** The heap once the leaf's key and a twig array exist; the array is new, or an old
      one reallocated. */
  function Allocated(h: Heap, kid: Id, key: Key, nt: Id, ns: seq<Node>, was: Option<Id>): Heap
    requires NewIds(h, kid, nt, was)
  {
    var h1 := Alloc(h, kid, KeyObj(false, key));
    match was
    case None => Alloc(h1, nt, Twigs(ns))
    case Some(a) => Realloc(h1, a, nt, Twigs(ns))
  }

  lemma AllocatedFacts(h: Heap, kid: Id, key: Key, nt: Id, ns: seq<Node>, was: Option<Id>)
    requires CowFirst(h) && NewIds(h, kid, nt, was) && Gone(was) !! Flags(h)
    requires forall i :: 0 <= i < |ns| ==> !ns[i].cow
    ensures var h1 := Allocated(h, kid, key, nt, ns, was);
            && h1.Keys == h.Keys - Gone(was) + {nt, kid}
            && SameOn(h, h1, h.Keys - Gone(was))
            && Flags(h1) == Flags(h) && CowFirst(h1)
            && h1[kid] == KeyObj(false, key) && h1[nt] == Twigs(ns)
  {
    var h1 := Allocated(h, kid, key, nt, ns, was);
    assert forall a :: a in h && a !in Gone(was) ==> a in h1 && h1[a] == h[a];
    assert forall a :: a in h1 ==> a == kid || a == nt || (a in h && a !in Gone(was));
  }

  lemma KidsStay(h: Heap, h1: Heap, u: Tree, i: nat)
    requires Rep(h, u) && NoAlias(u) && u.Branch? && i < |u.twigs| && SameOn(h, h1, h.Keys - {u.id})
    ensures Rep(h1, u.twigs[i])
  {
    RepIds(h, u.twigs[i]);
    assert forall x :: x in Ids(u.twigs[i]) ==> x in IdsAll(u.twigs);
    RepFrame(h, h1, u.twigs[i]);
  }

  /** The nodes of an unmarked array carry no marks. */
  lemma NoMarks(h: Heap, u: Tree)
    requires Rep(h, u) && u.Branch? && CowFirst(h) && u.id !in Flags(h)
    ensures h[u.id].nodes == seq(|u.twigs|, i requires 0 <= i < |u.twigs| => NodeOf(u.twigs[i]))
  {
    assert !Flagged(h[u.id]);
  }

  lemma AddRep(h: Heap, h1: Heap, u: Tree, kid: Id, key: Key, nt: Id, bit: nat)
    requires Rep(h, u) && NoAlias(u) && u.Branch? && |u.bits| == |u.twigs|
    requires h[u.id].nodes == seq(|u.twigs|, i requires 0 <= i < |u.twigs| => NodeOf(u.twigs[i]))
    requires SameOn(h, h1, h.Keys - {u.id}) && kid in h1 && h1[kid] == KeyObj(false, key)
    requires var ns, s := h[u.id].nodes, TwigOff(u.bits, bit);
             nt in h1 && h1[nt] == Twigs(ns[..s] + [LeafNode(false, kid, NULL)] + ns[s..])
    ensures Rep(h1, AddTwig(u, nt, bit, Leaf(kid, key, NULL)))
  {
    var s, leaf := TwigOff(u.bits, bit), Leaf(kid, key, NULL);
    var u' := AddTwig(u, nt, bit, leaf);
    forall i | 0 <= i < |u'.twigs|
      ensures Strip(h1[nt].nodes[i]) == NodeOf(u'.twigs[i]) && Rep(h1, u'.twigs[i])
    {
      if i != s {
        var j := if i < s then i else i - 1;
        assert u'.twigs[i] == u.twigs[j];
        KidsStay(h, h1, u, j);
      }
    }
  }

  /** The state in which the leaf and its array exist, and the weight is counted. */
  function InsertState(st: State, key: Key, ns: seq<Node>, was: Option<Id>): State
    requires NewIds(st.heap, st.next, st.next + 1, was)
  {
    st.(heap := Allocated(st.heap, st.next, key, st.next + 1, ns, was), next := st.next + 2,
        tbl := st.tbl.(weight := st.tbl.weight + 1))
  }

  lemma MakePrepared(st: State, so: seq<Tree>, t: Tree, p: Path, key: Key, ns: seq<Node>, was: Option<Id>, u': Tree)
    requires ValidState(st, so, [t]) && ValidPath(t, p)
    requires NewIds(st.heap, st.next, st.next + 1, was) && Gone(was) !! Flags(st.heap)
    requires forall i :: 0 <= i < |ns| ==> !ns[i].cow
    requires OneMore(At(t, p), u', Entry(key, NULL)) && Rep(InsertState(st, key, ns, was).heap, u')
    ensures Prepared(st, InsertState(st, key, ns, was), t, p, u', Gone(was), {st.next + 1, st.next})
  {
    hide ValidState, WF, NoAlias, Rep, Entries;
    Single(st, so, t);
    AllocatedFacts(st.heap, st.next, key, st.next + 1, ns, was);
    ReplaceEntries(t, p, u');
  }

  /** A branch enlarged by a leaf. */
  lemma AddEdited(st: State, so: seq<Tree>, t: Tree, p: Path, bit: nat, leaf: Tree, nt: Id)
    requires ValidState(st, so, [t]) && ValidPath(t, p) && At(t, p).Branch? && At(t, p).id !in Flags(st.heap)
    requires Open(Flags(st.heap), t, p) && leaf.Leaf? && leaf.id !in st.heap && nt !in st.heap && nt != leaf.id
    ensures |At(t, p).bits| == |At(t, p).twigs| && At(t, p).id in st.heap.Keys
    ensures EditedTo(Flags(st.heap), At(t, p), AddTwig(At(t, p), nt, bit, leaf), {At(t, p).id}, {nt, leaf.id})
  {
    ProperHere(st, so, t, p);
    AddTwigRegions(Flags(st.heap), At(t, p), nt, bit, leaf);
  }

  lemma AddedRep(h: Heap, u: Tree, kid: Id, key: Key, nt: Id, bit: nat, ns: seq<Node>)
    requires Rep(h, u) && NoAlias(u) && u.Branch? && |u.bits| == |u.twigs| && CowFirst(h) && u.id !in Flags(h)
    requires NewIds(h, kid, nt, Some(u.id))
    requires var before, s := h[u.id].nodes, TwigOff(u.bits, bit);
             ns == before[..s] + [LeafNode(false, kid, NULL)] + before[s..]
    ensures forall i :: 0 <= i < |ns| ==> !ns[i].cow
    ensures Rep(Allocated(h, kid, key, nt, ns, Some(u.id)), AddTwig(u, nt, bit, Leaf(kid, key, NULL)))
  {
    NoMarks(h, u);
    assert forall i :: 0 <= i < |ns| ==> !ns[i].cow;
    AllocatedFacts(h, kid, key, nt, ns, Some(u.id));
    AddRep(h, Allocated(h, kid, key, nt, ns, Some(u.id)), u, kid, key, nt, bit);
  }

  lemma NewEdited(st: State, so: seq<Tree>, t: Tree, p: Path, d: nat, tbit: nat, kbit: nat, leaf: Tree, nt: Id)
    requires ValidState(st, so, [t]) && ValidPath(t, p) && Open(Flags(st.heap), t, p)
    requires leaf.Leaf? && leaf.id !in st.heap && nt !in st.heap && nt != leaf.id
    ensures EditedTo(Flags(st.heap), At(t, p), NewBranch(At(t, p), nt, d, tbit, kbit, leaf), {}, {nt, leaf.id})
  {
    ProperHere(st, so, t, p);
    NewBranchRegions(Flags(st.heap), At(t, p), nt, d, tbit, kbit, leaf);
  }

  lemma NewRep(st: State, so: seq<Tree>, t: Tree, p: Path, key: Key, d: nat, tbit: nat, kbit: nat, ns: seq<Node>)
    requires ValidState(st, so, [t]) && ValidPath(t, p)
    requires ns == (if kbit < tbit then [LeafNode(false, st.next, NULL), NodeOf(At(t, p))]
                    else [NodeOf(At(t, p)), LeafNode(false, st.next, NULL)])
    ensures Rep(InsertState(st, key, ns, None).heap,
                NewBranch(At(t, p), st.next + 1, d, tbit, kbit, Leaf(st.next, key, NULL)))
  {
    hide ValidState, WF, NoAlias, Ids, Flags, SameObj;
    Single(st, so, t);
    var h1 := InsertState(st, key, ns, None).heap;
    ProperHere(st, so, t, p);
    AllocatedFacts(st.heap, st.next, key, st.next + 1, ns, None);
    RepFrame(st.heap, h1, At(t, p));
    assert Rep(h1, Leaf(st.next, key, NULL));
  }
}
