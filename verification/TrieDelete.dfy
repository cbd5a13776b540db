/** Deleting a leaf in place (trie.c, del_found, trie_del, trie_it_del and
    trie_del_cow). */
module TrieDelete {
  import opened Bytes
  import opened Options
  import opened Nibbles
  import opened TrieTree
  import opened TrieHeap
  import opened TrieSearch
  import opened TrieRegions
  import opened TrieEdit
  import opened TrieCow
  import opened TrieAlong
  import opened TriePush
  import opened TrieMutate
  import opened TrieInsert

  lemma FitsSubset(u: Tree, u': Tree, e: Entry, d: nat)
    requires OneLess(u, u', e)
    ensures Fits(u', u, d)
  {
    forall f | f in Entries(u')
      ensures exists y :: y in Entries(u) && Agree(f.key, y.key, d)
    {
      assert f in Entries(u) && Agree(f.key, f.key, d);
    }
  }

  lemma {:induction false} AncestorsMonotone(t: Tree, p: Path, d: nat, e: nat)
    requires ValidPath(t, p) && AncestorsBelow(t, p, d) && d <= e
    ensures AncestorsBelow(t, p, e)
    decreases |p|
  {
    if |p| > 0 {
      AncestorsMonotone(t.twigs[p[0]], p[1..], d, e);
    }
  }

  lemma AncestorsStrict(t: Tree, p: Path)
    requires WF(t) && ValidPath(t, p) && At(t, p).Branch?
    ensures AncestorsBelow(t, p, At(t, p).index)
  {
    if |p| > 0 {
      PathParent(t, p);
      WFAt(t, p[..|p| - 1]);
      ParentBelow(t, p, At(t, p).index);
    }
  }

  /** What u becomes when its leaf twig i goes: the other twig, or one twig less. */
  ghost function Without(u: Tree, i: nat, nt: Id): Tree
    requires u.Branch? && i < |u.twigs| == |u.bits| && |u.twigs| >= 2
  {
    if |u.twigs| == 2 then u.twigs[1 - i] else DropTwig(u, nt, i)
  }

  lemma DeleteMeaning(t: Tree, r: Path, i: nat, nt: Id)
    requires WF(t) && ValidPath(t, r) && At(t, r).Branch? && i < |At(t, r).twigs| && At(t, r).twigs[i].Leaf?
    ensures |At(t, r).twigs| == |At(t, r).bits| >= 2
    ensures var u := At(t, r); var t' := Replace(t, r, Without(u, i, nt));
            && OneLess(u, Without(u, i, nt), Entry(u.twigs[i].key, u.twigs[i].val))
            && WF(t') && MapOf(Entries(t')) == MapOf(Entries(t)) - {u.twigs[i].key}
            && |Entries(t')| + 1 == |Entries(t)|
  {
    var u := At(t, r);
    WFAt(t, r);
    var u', e := Without(u, i, nt), Entry(u.twigs[i].key, u.twigs[i].val);
    if |u.twigs| == 2 {
      CollapseEntries(u, i);
    } else {
      DropTwigWF(u, nt, i);
    }
    DeleteWF(t, r, u', e);
    TwigIn(u, i, e);
    MapDelete(t, r, u', e);
  }

  lemma DeleteWF(t: Tree, r: Path, u': Tree, e: Entry)
    requires WF(t) && ValidPath(t, r) && At(t, r).Branch? && WF(u') && OneLess(At(t, r), u', e)
    requires u'.Branch? ==> At(t, r).index <= u'.index
    ensures WF(Replace(t, r, u'))
  {
    var d := At(t, r).index;
    AncestorsStrict(t, r);
    FitsSubset(At(t, r), u', e, d);
    if u'.Branch? {
      AncestorsMonotone(t, r, d, u'.index);
    }
    WFReplace(t, r, u', d);
  }

  lemma WithoutRegions(F: set<Id>, u: Tree, i: nat, nt: Id)
    requires u.Branch? && i < |u.twigs| == |u.bits| && |u.twigs| >= 2
    requires u.twigs[i].Leaf? && u.id !in F && u.twigs[i].id !in F && NoAlias(u) && Proper(F, u)
    requires nt !in F + Ids(u)
    ensures EditedTo(F, u, Without(u, i, nt), {u.id, u.twigs[i].id}, if |u.twigs| == 2 then {} else {nt})
  {
    hide Ids, WF;
    DropRegions(F, u, i);
    var rest := u.twigs[..i] + u.twigs[i + 1..];
    if |u.twigs| == 2 {
      assert rest == [u.twigs[1 - i]];
      OneTree(F, u.twigs[1 - i]);
    }
  }

  /** The heap once the leaf's key and the old array are freed, with the smaller array
      allocated unless the branch collapses. */
  function Shrunk(h: Heap, kid: Id, arr: Id, nt: Id, ns: seq<Node>): Heap
    requires kid in h && arr in h && kid != arr && nt !in h
  {
    var h1 := Free(h, kid);
    if |ns| == 1 then Free(h1, arr) else Realloc(h1, arr, nt, Twigs(ns))
  }

  lemma ShrunkFacts(h: Heap, kid: Id, arr: Id, nt: Id, ns: seq<Node>)
    requires CowFirst(h) && nt !in h && kid in h && arr in h && kid != arr && kid !in Flags(h) && arr !in Flags(h)
    requires |ns| > 0 && forall i :: 0 <= i < |ns| ==> !ns[i].cow
    ensures var h1 := Shrunk(h, kid, arr, nt, ns);
            && h1.Keys == h.Keys - {arr, kid} + (if |ns| == 1 then {} else {nt})
            && SameOn(h, h1, h.Keys - {arr, kid})
            && Flags(h1) == Flags(h) && CowFirst(h1)
            && (|ns| > 1 ==> h1[nt] == Twigs(ns))
  {
    var h1 := Shrunk(h, kid, arr, nt, ns);
    assert forall a :: a in h && a != kid && a != arr ==> a in h1 && h1[a] == h[a];
    assert forall a :: a in h1 ==> (a == nt && |ns| > 1) || (a in h && a != kid && a != arr);
  }

  lemma ShrunkKid(h: Heap, h1: Heap, u: Tree, i: nat, j: nat)
    requires Rep(h, u) && NoAlias(u) && u.Branch? && i < |u.twigs| && j < |u.twigs| && i != j
    requires SameOn(h, h1, h.Keys - {u.twigs[i].id, u.id})
    ensures Rep(h1, u.twigs[j])
  {
    RepIds(h, u.twigs[j]);
    assert u.twigs[i].id in Ids(u.twigs[i]);
    assert Ids(u.twigs[i]) !! Ids(u.twigs[j]);
    assert forall x :: x in Ids(u.twigs[j]) ==> x in IdsAll(u.twigs);
    RepFrame(h, h1, u.twigs[j]);
  }

  lemma ShrunkBranch(h1: Heap, u: Tree, i: nat, nt: Id, ns: seq<Node>)
    requires u.Branch? && i < |u.twigs| == |u.bits| == |ns| && |u.twigs| > 2
    requires nt in h1 && h1[nt] == Twigs(ns[..i] + ns[i + 1..])
    requires forall j :: 0 <= j < |u.twigs| && j != i ==> Rep(h1, u.twigs[j])
    requires forall j :: 0 <= j < |u.twigs| && j != i ==> Strip(ns[j]) == NodeOf(u.twigs[j])
    ensures Rep(h1, Without(u, i, nt))
  {
    var u' := Without(u, i, nt);
    forall j | 0 <= j < |u'.twigs|
      ensures Strip(h1[nt].nodes[j]) == NodeOf(u'.twigs[j]) && Rep(h1, u'.twigs[j])
    {
      var m := if j < i then j else j + 1;
      assert u'.twigs[j] == u.twigs[m];
    }
  }

  lemma ShrunkRep(h: Heap, u: Tree, i: nat, nt: Id, ns: seq<Node>)
    requires Rep(h, u) && NoAlias(u) && u.Branch? && i < |u.twigs| == |u.bits| && |u.twigs| >= 2 && u.twigs[i].Leaf?
    requires CowFirst(h) && u.id !in Flags(h) && u.twigs[i].id !in Flags(h) && nt !in h
    requires u.twigs[i].id in h && u.twigs[i].id != u.id
    requires ns == h[u.id].nodes[..i] + h[u.id].nodes[i + 1..]
    ensures forall j :: 0 <= j < |ns| ==> !ns[j].cow
    ensures |ns| == |u.twigs| - 1 && (|u.twigs| == 2 ==> ns == [NodeOf(u.twigs[1 - i])])
    ensures Rep(Shrunk(h, u.twigs[i].id, u.id, nt, ns), Without(u, i, nt))
  {
    hide WF, NoAlias, SameObj;
    var k := u.twigs[i].id;
    NoMarks(h, u);
    ShrunkFacts(h, k, u.id, nt, ns);
    var h1 := Shrunk(h, k, u.id, nt, ns);
    forall j | 0 <= j < |u.twigs| && j != i
      ensures Rep(h1, u.twigs[j])
    {
      ShrunkKid(h, h1, u, i, j);
    }
    if |u.twigs| > 2 {
      forall j | 0 <= j < |u.twigs| && j != i
        ensures Strip(h[u.id].nodes[j]) == NodeOf(u.twigs[j])
      {
      }
      ShrunkBranch(h1, u, i, nt, h[u.id].nodes);
    }
  }

  /** The state in which a leaf and its branch's array are gone. */
  function DeleteState(st: State, kid: Id, arr: Id, ns: seq<Node>): State
    requires st.tbl.weight > 0 && kid in st.heap && arr in st.heap && kid != arr && st.next !in st.heap
  {
    st.(heap := Shrunk(st.heap, kid, arr, st.next, ns), next := st.next + 1,
        tbl := st.tbl.(weight := st.tbl.weight - 1))
  }

  lemma DeletePrepared(st: State, so: seq<Tree>, t: Tree, r: Path, i: nat, ns: seq<Node>, u: Tree)
    requires ValidState(st, so, [t]) && ValidPath(t, r) && Open(Flags(st.heap), t, r) && u == At(t, r)
    requires u.Branch? && i < |u.twigs| == |u.bits| && |u.twigs| >= 2 && u.twigs[i].Leaf?
    requires u.id !in Flags(st.heap) && u.twigs[i].id !in Flags(st.heap)
    requires u.twigs[i].id in st.heap && u.twigs[i].id != u.id
    requires u.id in st.heap && st.heap[u.id].Twigs? && |st.heap[u.id].nodes| == |u.twigs|
    requires ns == st.heap[u.id].nodes[..i] + st.heap[u.id].nodes[i + 1..]
    ensures st.tbl.weight > 0
    ensures Prepared(st, DeleteState(st, u.twigs[i].id, u.id, ns), t, r, Without(u, i, st.next),
                     {u.id, u.twigs[i].id}, if |u.twigs| == 2 then {} else {st.next})
  {
    hide ValidState, Inv, Regions, NoAlias, Ids, Own, Fr, Proper, Replace, MapOf, Open;
    Single(st, so, t);
    ProperHere(st, so, t, r);
    ShrunkRep(st.heap, u, i, st.next, ns);
    ShrunkFacts(st.heap, u.twigs[i].id, u.id, st.next, ns);
    DeleteMeaning(t, r, i, st.next);
    NonEmpty(t);
  }

  lemma DeleteValid(st: State, so: seq<Tree>, t: Tree, r: Path, i: nat, ns: seq<Node>, u: Tree, u': Tree)
    requires ValidState(st, so, [t]) && ValidPath(t, r) && Open(Flags(st.heap), t, r) && u == At(t, r)
    requires u.Branch? && i < |u.twigs| == |u.bits| && |u.twigs| >= 2 && u.twigs[i].Leaf?
    requires u.id !in Flags(st.heap) && u.twigs[i].id !in Flags(st.heap)
    requires u.twigs[i].id in st.heap && u.twigs[i].id != u.id
    requires u.id in st.heap && st.heap[u.id].Twigs? && |st.heap[u.id].nodes| == |u.twigs|
    requires ns == st.heap[u.id].nodes[..i] + st.heap[u.id].nodes[i + 1..] && u' == Without(u, i, st.next)
    ensures st.tbl.weight > 0
    ensures ValidSlot(DeleteState(st, u.twigs[i].id, u.id, ns).heap, SlotAt(t, r))
    ensures var st' := WriteState(DeleteState(st, u.twigs[i].id, u.id, ns), SlotAt(t, r), NodeOf(u'));
            ValidState(st', so, [Replace(t, r, u')])
    ensures MapOf(Entries(Replace(t, r, u'))) == MapOf(Entries(t)) - {u.twigs[i].key}
  {
    hide ValidState, Inv, Regions, NoAlias, Ids, Own, Fr, Proper, Replace, MapOf, Open, Rep, Prepared, EditedTo, WF,
      Entries;
    Single(st, so, t);
    ProperHere(st, so, t, r);
    DeleteMeaning(t, r, i, st.next);
    DeletePrepared(st, so, t, r, i, ns, u);
    WithoutRegions(Flags(st.heap), u, i, st.next);
    EditValid(st, DeleteState(st, u.twigs[i].id, u.id, ns), so, t, r, u',
              {u.id, u.twigs[i].id}, if |u.twigs| == 2 then {} else {st.next});
  }

  // ---- The last leaf ----

  lemma LastLeafGone(st: State, so: seq<Tree>, t: Tree)
    requires ValidState(st, so, [t]) && t.Leaf? && t.id !in Flags(st.heap)
    ensures t.id in st.heap
    ensures ValidState(st.(heap := Free(st.heap, t.id), tbl := Trie(EMPTY_ROOT, 0)), so, [])
    ensures MapOf(EntriesAll([])) == MapOf(Entries(t)) - {t.key}
  {
    hide MapOf, Entries, EntriesAll, WF, Regions, IdsAll, Ids, Flagged;
    Single(st, so, t);
    var F := Flags(st.heap);
    LastRegionGone(F, so, t);
    var h' := Free(st.heap, t.id);
    FreeOne(st.heap, t.id);
    assert Flags(h') == F;
    HoldsFrame(st.heap, h', so);
    LastEntryGone(t);
  }

  lemma LastRegionGone(F: set<Id>, so: seq<Tree>, t: Tree)
    requires Regions(F, so, [t]) && t.Leaf? && t.id !in F
    ensures Regions(F, so, []) && Ids(t) == IdsAll([t]) == {t.id} && t.id !in IdsAll(so) && IdsAll([]) == {}
  {
    OneTree(F, t);
    OwnNotShared(F, so, [t]);
    assert t.id in Own(F, t);
    assert OwnAll(F, []) == {} && FrAll(F, []) == {};
  }

  lemma LastEntryGone(t: Tree)
    requires t.Leaf?
    ensures EntriesAll([]) == []
    ensures MapOf(EntriesAll([])) == MapOf(Entries(t)) - {t.key}
  {
    assert Entries(t)[..0] == [];
  }

  // ---- del_found ----

  /** The node pointer above the end of a path, if there is one. */
  ghost function ParentSlot(t: Tree, p: Path): Option<Slot>
    requires ValidPath(t, p)
  {
    if |p| == 0 then None
    else
      PathParent(t, p);
      Some(SlotAt(t, p[..|p| - 1]))
  }

  /** Remove the leaf at s with parent pointer up (none for the root). */
  method DelFound(st: State, s: Slot, up: Option<Slot>, ghost so: seq<Tree>, ghost t: Tree, ghost p: Path)
    returns (st': State, val: Val, ghost sn': seq<Tree>)
    requires ValidState(st, so, [t]) && ValidPath(t, p) && s == SlotAt(t, p) && up == ParentSlot(t, p)
    requires At(t, p).Leaf? && Open(Flags(st.heap), t, p) && At(t, p).id !in Flags(st.heap)
    ensures ValidState(st', so, sn') && val == At(t, p).val
    ensures MapOf(EntriesAll(sn')) == MapOf(Entries(t)) - {At(t, p).key}
  {
    hide ValidState, WF, Entries, MapOf, Replace, Rep;
    TopNode(st, so, t, p);
    var leaf := Load(st.heap, st.tbl.root, s);
    val := leaf.val;
    if up.None? {
      LastLeafGone(st, so, t);
      st' := st.(heap := Free(st.heap, leaf.key), tbl := Trie(EMPTY_ROOT, 0));
      sn' := [];
      return;
    }
    ghost var r := p[..|p| - 1];
    ParentFacts(st, so, t, p);
    var n := Load(st.heap, st.tbl.root, up.value);
    var tp := st.heap[n.twigs].nodes;
    var ci := s.pos;
    var ns := tp[..ci] + tp[ci + 1..];
    ghost var u' := Without(At(t, r), ci, st.next);
    DeleteValid(st, so, t, r, ci, ns, At(t, r), u');
    var st1 := DeleteState(st, leaf.key, n.twigs, ns);
    if |n.bits| == 2 {
      CollapsedNode(st, so, t, r, ci, ns);
      st' := WriteState(st1, up.value, tp[1 - ci]);
    } else {
      st' := WriteState(st1, up.value, BranchNode(n.cow, n.index, n.bits[..ci] + n.bits[ci + 1..], st.next));
    }
    sn' := [Replace(t, r, u')];
    EntriesAllOne(sn'[0]);
  }

  lemma CollapsedNode(st: State, so: seq<Tree>, t: Tree, r: Path, i: nat, ns: seq<Node>)
    requires ValidState(st, so, [t]) && ValidPath(t, r) && At(t, r).Branch? && At(t, r).id !in Flags(st.heap)
    requires i < |At(t, r).twigs| == 2
    ensures At(t, r).id in st.heap && st.heap[At(t, r).id].Twigs? && |st.heap[At(t, r).id].nodes| == 2
    ensures st.heap[At(t, r).id].nodes[1 - i] == NodeOf(At(t, r).twigs[1 - i])
  {
    Single(st, so, t);
    RepAt(st.heap, t, r);
    NoMarks(st.heap, At(t, r));
  }

  lemma ParentFacts(st: State, so: seq<Tree>, t: Tree, p: Path)
    requires ValidState(st, so, [t]) && ValidPath(t, p) && |p| > 0 && Open(Flags(st.heap), t, p)
    ensures ValidPath(t, p[..|p| - 1]) && Open(Flags(st.heap), t, p[..|p| - 1])
    ensures Stack(t, p)[|p| - 1] == SlotAt(t, p[..|p| - 1])
    ensures Stack(t, p)[|p|] == TwigSlot(At(t, p[..|p| - 1]).id, p[|p| - 1])
    ensures var u := At(t, p[..|p| - 1]);
            && u.Branch? && p[|p| - 1] < |u.twigs| == |u.bits| && |u.twigs| >= 2 && u.twigs[p[|p| - 1]] == At(t, p)
            && u.id !in Flags(st.heap) && u.id in st.heap && st.heap[u.id].Twigs? && |st.heap[u.id].nodes| == |u.twigs|
            && At(t, p).id in st.heap && At(t, p).id != u.id
            && ValidSlot(st.heap, SlotAt(t, p[..|p| - 1]))
            && Load(st.heap, st.tbl.root, SlotAt(t, p[..|p| - 1])) == NodeOf(u)
  {
    OpenParent(Flags(st.heap), t, p);
    PathParent(t, p);
    TopNode(st, so, t, p[..|p| - 1]);
    TopNode(st, so, t, p);
    ProperHere(st, so, t, p[..|p| - 1]);
    TwigIdDiffers(At(t, p[..|p| - 1]), p[|p| - 1]);
    StackTop(t, p[..|p| - 1]);
  }

  lemma TwigIdDiffers(u: Tree, i: nat)
    requires NoAlias(u) && u.Branch? && i < |u.twigs|
    ensures u.twigs[i].id != u.id
  {
    assert u.twigs[i].id in Ids(u.twigs[i]);
  }

  // ---- trie_del ----

  datatype DelResult = DEL_EOK(val: Val) | DEL_ENOENT

  /** What deleting a key means on the plain map. */
  ghost predicate DelSpec(m: map<Key, Val>, key: Key, r: DelResult, m': map<Key, Val>) {
    match r
    case DEL_EOK(v) => key in m && v == m[key] && m' == m - {key}
    case DEL_ENOENT => key !in m && m' == m
  }

  /** One step down the exact path of the key. */
  lemma WalkDown(st: State, so: seq<Tree>, t: Tree, p: Path, key: Key, i: nat)
    requires ValidState(st, so, [t]) && ValidPath(t, p) && SameFor(t, At(t, p), key) && At(t, p).Branch?
    requires i < |At(t, p).bits| && At(t, p).bits[i] == Nib(key, At(t, p).index)
    ensures i < |At(t, p).twigs| && ValidPath(t, p + [i])
    ensures At(t, p + [i]) == At(t, p).twigs[i] && SameFor(t, At(t, p + [i]), key)
    ensures SlotAt(t, p + [i]) == TwigSlot(At(t, p).id, i) && ParentSlot(t, p + [i]) == Some(SlotAt(t, p))
  {
    Single(st, so, t);
    WFAt(t, p);
    PathStep(t, p, i);
    SameForTwig(t, At(t, p), key, i);
    assert (p + [i])[..|p|] == p;
  }

  lemma BitOffset(st: State, so: seq<Tree>, t: Tree, p: Path, b: nat)
    requires ValidState(st, so, [t]) && ValidPath(t, p) && At(t, p).Branch? && b in At(t, p).bits
    ensures TwigOff(At(t, p).bits, b) < |At(t, p).bits| && At(t, p).bits[TwigOff(At(t, p).bits, b)] == b
  {
    Single(st, so, t);
    WFAt(t, p);
    TwigOffIsRank(At(t, p).bits, b);
  }

  lemma Absent(st: State, so: seq<Tree>, t: Tree, p: Path, key: Key)
    requires ValidState(st, so, [t]) && ValidPath(t, p) && SameFor(t, At(t, p), key)
    requires if At(t, p).Leaf? then At(t, p).key != key else Nib(key, At(t, p).index) !in At(t, p).bits
    ensures key !in MapOf(Entries(t))
  {
    Single(st, so, t);
    WFAt(t, p);
    LookupNone(t, At(t, p), key);
  }

  lemma Present(st: State, so: seq<Tree>, t: Tree, p: Path)
    requires ValidState(st, so, [t]) && ValidPath(t, p) && At(t, p).Leaf?
    ensures At(t, p).key in MapOf(Entries(t)) && MapOf(Entries(t))[At(t, p).key] == At(t, p).val
    ensures At(t, p).id in st.heap && st.heap[At(t, p).id].KeyObj? && st.heap[At(t, p).id].chars == At(t, p).key
  {
    Single(st, so, t);
    RepAt(st.heap, t, p);
    ExactMeaning(t, p, At(t, p).key);
  }

  /** Delete a key outside a transaction: walk down its exact path, then remove. */
  method Del(st: State, key: Key, ghost sn: seq<Tree>) returns (st': State, r: DelResult, ghost sn': seq<Tree>)
    requires ValidState(st, [], sn)
    ensures ValidState(st', [], sn')
    ensures DelSpec(MapOf(EntriesAll(sn)), key, r, MapOf(EntriesAll(sn')))
  {
    hide ValidState, WF, Entries, MapOf, SameFor, EntriesAll;
    StateShape(st, [], sn);
    if st.tbl.weight == 0 {
      EmptyMap();
      return st, DEL_ENOENT, sn;
    }
    ghost var t := sn[0];
    ghost var p: Path := [];
    var s, up: Option<Slot> := RootSlot, None;
    AllExclusive(st, t, p);
    TopNode(st, [], t, p);
    var n := Load(st.heap, st.tbl.root, s);
    SameForSelf(t, key);
    while n.BranchNode?
      invariant ValidPath(t, p) && s == SlotAt(t, p) && up == ParentSlot(t, p) && SameFor(t, At(t, p), key)
      invariant n == NodeOf(At(t, p)) && At(t, p).id in st.heap && st.heap[At(t, p).id].Twigs? == At(t, p).Branch?
      invariant Open(Flags(st.heap), t, p) && At(t, p).id !in Flags(st.heap)
      decreases At(t, p)
    {
      var b := Nib(key, n.index);
      if b !in n.bits {
        Absent(st, [], t, p, key);
        return st, DEL_ENOENT, sn;
      }
      var i := TwigOff(n.bits, b);
      BitOffset(st, [], t, p, b);
      WalkDown(st, [], t, p, key, i);
      up := Some(s);
      s := TwigSlot(n.twigs, i);
      TopNode(st, [], t, p);
      p := p + [i];
      AllExclusive(st, t, p);
      TopNode(st, [], t, p);
      n := Load(st.heap, st.tbl.root, s);
    }
    Present(st, [], t, p);
    if Compare(key, st.heap[n.key].chars) != 0 {
      Absent(st, [], t, p, key);
      return st, DEL_ENOENT, sn;
    }
    var val;
    st', val, sn' := DelFound(st, s, up, [], t, p);
    r := DEL_EOK(val);
  }

  lemma SameForSelf(t: Tree, key: Key)
    ensures SameFor(t, t, key)
  {
  }

  /** Delete the element an iterator stands at (trie_it_del). */
  method ItDel(st: State, stack: seq<Slot>, ghost t: Tree, ghost p: Path) returns (st': State, ghost sn': seq<Tree>)
    requires ValidState(st, [], [t]) && ValidPath(t, p) && stack == Stack(t, p) && At(t, p).Leaf?
    ensures ValidState(st', [], sn')
    ensures MapOf(EntriesAll(sn')) == MapOf(Entries(t)) - {At(t, p).key}
  {
    hide ValidState, WF, Entries, MapOf, EntriesAll;
    AllExclusive(st, t, p);
    var up := None;
    if |stack| > 1 {
      ParentFacts(st, [], t, p);
      up := Some(stack[|stack| - 2]);
    }
    var val;
    st', val, sn' := DelFound(st, stack[|stack| - 1], up, [], t, p);
  }

  /** Delete a key in a transaction: make its path exclusive, then remove. */
  method DelCow(st: State, key: Key, ghost so: seq<Tree>, ghost sn: seq<Tree>)
    returns (st': State, r: DelResult, ghost sn': seq<Tree>)
    requires ValidState(st, so, sn)
    ensures ValidState(st', so, sn')
    ensures DelSpec(MapOf(EntriesAll(sn)), key, r, MapOf(EntriesAll(sn')))
  {
    hide ValidState, WF, Entries, MapOf, EntriesAll, Found, Along;
    StateShape(st, so, sn);
    if st.tbl.weight == 0 {
      EmptyMap();
      return st, DEL_ENOENT, sn;
    }
    ghost var t0 := sn[0];
    Single(st, so, t0);
    var stack, diff, tbit, kbit;
    ghost var p;
    stack, diff, tbit, kbit, p := FindBranch(st.heap, st.tbl.root, key, t0);
    if !diff.Exact? {
      FoundMissing(t0, key, p, diff.index, tbit, kbit);
      return st, DEL_ENOENT, sn;
    }
    ghost var t;
    st', stack, t := CowPushdown(st, stack, so, t0, p);
    FoundAlong(t0, t, key, p, diff, tbit, kbit);
    AlongSame(t0, t, p);
    ExactLeaf(t, key, p, diff, tbit, kbit);
    Present(st', so, t, p);
    var up := None;
    if |stack| > 1 {
      ParentFacts(st', so, t, p);
      up := Some(stack[|stack| - 2]);
    }
    var val;
    st', val, sn' := DelFound(st', stack[|stack| - 1], up, so, t, p);
    r := DEL_EOK(val);
  }

  lemma ExactLeaf(t: Tree, key: Key, p: Path, diff: Diff, tbit: nat, kbit: nat)
    requires ValidPath(t, p) && Found(t, key, p, diff, tbit, kbit) && diff.Exact?
    ensures At(t, p).Leaf? && At(t, p).key == key
  {
  }
}
