/** trie_get_ins and trie_get_cow (trie.c, cow_get_ins), and writing through the
    value pointer they return. */
module TrieInsert {
  import opened Bytes
  import opened Options
  import opened Nibbles
  import opened TrieTree
  import opened TrieHeap
  import opened TrieSearch
  import opened TrieLeq
  import opened TrieRegions
  import opened TrieEdit
  import opened TrieCow
  import opened TrieAlong
  import opened TriePush
  import opened TrieMutate

  /** A value pointer into a leaf that the current trie owns exclusively. */
  ghost predicate LeafPlace(st: State, t: Tree, q: Path, s: Slot, key: Key, v: Val) {
    && ValidPath(t, q) && s == SlotAt(t, q)
    && At(t, q).Leaf? && At(t, q).key == key && At(t, q).val == v
    && Open(Flags(st.heap), t, q) && At(t, q).id !in Flags(st.heap)
  }

  lemma FitsOneMore(u: Tree, u': Tree, e: Entry, x: Entry, d: nat)
    requires OneMore(u, u', e) && x in Entries(u) && Agree(e.key, x.key, d)
    ensures Fits(u', u, d)
  {
    forall f | f in Entries(u')
      ensures exists y :: y in Entries(u) && Agree(f.key, y.key, d)
    {
      if f != e {
        assert f in Entries(u) && Agree(f.key, f.key, d);
      }
    }
  }

  /** The new leaf's place after the subtree at p became u' with the leaf as twig i. */
  lemma NewPlace(st: State, so: seq<Tree>, t: Tree, p: Path, u': Tree, i: nat, leaf: Tree)
    requires ValidPath(t, p) && u'.Branch? && i < |u'.twigs| && u'.twigs[i] == leaf && leaf.Leaf?
    requires Open(Flags(st.heap), t, p) && u'.id !in Flags(st.heap) && leaf.id !in Flags(st.heap)
    ensures LeafPlace(st, Replace(t, p, u'), p + [i], TwigSlot(u'.id, i), leaf.key, leaf.val)
  {
    var t' := Replace(t, p, u');
    ReplaceAt(t, p, u');
    RegionReplace(Flags(st.heap), t, p, u');
    PathStep(t', p, i);
    StackPush(t', p, i);
    OpenExtend(Flags(st.heap), t', p, i);
    assert (p + [i])[..|p|] == p;
  }

  lemma NotStored(t: Tree, key: Key, d: nat)
    requires forall e :: e in Entries(t) ==> !Agree(key, e.key, d + 1)
    ensures forall e :: e in Entries(t) ==> e.key != key
  {
    assert Agree(key, key, d + 1);
  }

  /** The branching point of a missing key: where it is and what it shares. */
  ghost predicate BranchesAt(t: Tree, p: Path, key: Key, d: nat, x: Entry) {
    && WF(t) && ValidPath(t, p) && AncestorsBelow(t, p, d)
    && x in Entries(At(t, p)) && Agree(key, x.key, d)
    && forall e :: e in Entries(t) ==> !Agree(key, e.key, d + 1)
  }

  /** What an insertion at the branching point does to the map. */
  lemma InsertMeaning(t: Tree, p: Path, u': Tree, key: Key, d: nat, x: Entry)
    requires BranchesAt(t, p, key, d, x)
    requires WF(u') && u'.Branch? && u'.index == d && OneMore(At(t, p), u', Entry(key, NULL))
    ensures WF(Replace(t, p, u'))
    ensures MapOf(Entries(Replace(t, p, u'))) == MapOf(Entries(t))[key := NULL]
  {
    assert WF(Replace(t, p, u')) by {
      FitsOneMore(At(t, p), u', Entry(key, NULL), x, d);
      WFReplace(t, p, u', d);
    }
    NotStored(t, key, d);
    MapInsert(t, p, u', Entry(key, NULL));
  }

  lemma BitMissing(t: Tree, p: Path, key: Key, x: Entry)
    requires ValidPath(t, p) && At(t, p).Branch? && WF(At(t, p)) && BranchesAt(t, p, key, At(t, p).index, x)
    ensures Nib(key, At(t, p).index) !in At(t, p).bits
  {
    forall e | e in Entries(At(t, p))
      ensures !Agree(key, e.key, At(t, p).index + 1)
    {
      SplitIn(t, p, e);
    }
    NoBit(At(t, p), key, x);
  }

  /** An insertion that has been prepared at the branching point: writing the pointer
      to the new branch completes it. */
  ghost predicate InsertReady(st: State, so: seq<Tree>, t: Tree, p: Path, key: Key, ns: seq<Node>, was: Option<Id>,
                              u': Tree, i: nat)
  {
    && ValidState(st, so, [t]) && ValidPath(t, p) && Open(Flags(st.heap), t, p)
    && NewIds(st.heap, st.next, st.next + 1, was)
    && EditedTo(Flags(st.heap), At(t, p), u', Gone(was), {st.next + 1, st.next})
    && Prepared(st, InsertState(st, key, ns, was), t, p, u', Gone(was), {st.next + 1, st.next})
    && WF(Replace(t, p, u'))
    && MapOf(Entries(Replace(t, p, u'))) == MapOf(Entries(t))[key := NULL]
    && u'.Branch? && u'.id == st.next + 1 && i < |u'.twigs| && u'.twigs[i] == Leaf(st.next, key, NULL)
  }

  lemma InsertDone(st: State, so: seq<Tree>, t: Tree, p: Path, key: Key, ns: seq<Node>, was: Option<Id>,
                   u': Tree, i: nat)
    requires InsertReady(st, so, t, p, key, ns, was, u', i)
    ensures ValidSlot(InsertState(st, key, ns, was).heap, SlotAt(t, p))
    ensures var st' := WriteState(InsertState(st, key, ns, was), SlotAt(t, p), NodeOf(u'));
            && ValidState(st', so, [Replace(t, p, u')])
            && LeafPlace(st', Replace(t, p, u'), p + [i], TwigSlot(st.next + 1, i), key, NULL)
  {
    var st1 := InsertState(st, key, ns, was);
    EditValid(st, st1, so, t, p, u', Gone(was), {st.next + 1, st.next});
    var st' := WriteState(st1, SlotAt(t, p), NodeOf(u'));
    assert st.next !in Flags(st.heap) && st.next + 1 !in Flags(st.heap);
    NewPlace(st', so, t, p, u', i, Leaf(st.next, key, NULL));
  }

  /** The nodes of u's array with the new leaf put in at position i. */
  ghost predicate Shifted(h: Heap, u: Tree, i: nat, kid: Id, ns: seq<Node>) {
    && u.id in h && h[u.id].Twigs? && i <= |h[u.id].nodes|
    && ns == h[u.id].nodes[..i] + [LeafNode(false, kid, NULL)] + h[u.id].nodes[i..]
  }

  lemma ShiftedRep(h: Heap, u: Tree, kid: Id, key: Key, nt: Id, bit: nat, ns: seq<Node>)
    requires Rep(h, u) && NoAlias(u) && u.Branch? && |u.bits| == |u.twigs| && CowFirst(h) && u.id !in Flags(h)
    requires NewIds(h, kid, nt, Some(u.id)) && Shifted(h, u, TwigOff(u.bits, bit), kid, ns)
    ensures forall i :: 0 <= i < |ns| ==> !ns[i].cow
    ensures Rep(Allocated(h, kid, key, nt, ns, Some(u.id)), AddTwig(u, nt, bit, Leaf(kid, key, NULL)))
  {
    AddedRep(h, u, kid, key, nt, bit, ns);
  }

  lemma AddHeap(st: State, so: seq<Tree>, t: Tree, p: Path, key: Key, u: Tree, i: nat, ns: seq<Node>, u': Tree)
    requires ValidState(st, so, [t]) && ValidPath(t, p) && Open(Flags(st.heap), t, p)
    requires u == At(t, p) && u.id !in Flags(st.heap) && u.Branch? && |u.bits| == |u.twigs|
    requires u.id in st.heap.Keys && i == TwigOff(u.bits, Nib(key, u.index)) && Shifted(st.heap, u, i, st.next, ns)
    requires u' == AddTwig(u, st.next + 1, Nib(key, u.index), Leaf(st.next, key, NULL))
    ensures Prepared(st, InsertState(st, key, ns, Some(u.id)), t, p, u', {u.id}, {st.next + 1, st.next})
  {
    hide ValidState, Rep, NoAlias, WF, Open, Ids, Prepared, OneMore, Proper, Own, At, ValidPath, AddTwig;
    hide TwigOff, Nib, Flags, CowFirst, Allocated, Entries, Shifted;
    var bit, leaf := Nib(key, u.index), Leaf(st.next, key, NULL);
    Single(st, so, t);
    ProperHere(st, so, t, p);
    ShiftedRep(st.heap, u, st.next, key, st.next + 1, bit, ns);
    AddTwigEntries(u, st.next + 1, bit, leaf);
    MakePrepared(st, so, t, p, key, ns, Some(u.id), u');
  }

  lemma AddMap(t: Tree, p: Path, key: Key, x: Entry, kid: Id, nt: Id)
    requires ValidPath(t, p) && At(t, p).Branch? && BranchesAt(t, p, key, At(t, p).index, x)
    ensures |At(t, p).bits| == |At(t, p).twigs|
    ensures var t' := Replace(t, p, AddTwig(At(t, p), nt, Nib(key, At(t, p).index), Leaf(kid, key, NULL)));
            WF(t') && MapOf(Entries(t')) == MapOf(Entries(t))[key := NULL]
  {
    var u, bit, leaf := At(t, p), Nib(key, At(t, p).index), Leaf(kid, key, NULL);
    WFAt(t, p);
    BitMissing(t, p, key, x);
    AddTwigEntries(u, nt, bit, leaf);
    AddTwigWF(u, nt, leaf, x);
    InsertMeaning(t, p, AddTwig(u, nt, bit, leaf), key, u.index, x);
  }

  lemma AddAll(st: State, so: seq<Tree>, t: Tree, p: Path, key: Key, x: Entry, ns: seq<Node>, i: nat, u': Tree)
    requires ValidState(st, so, [t]) && ValidPath(t, p) && Open(Flags(st.heap), t, p)
    requires At(t, p).id !in Flags(st.heap) && At(t, p).Branch? && BranchesAt(t, p, key, At(t, p).index, x)
    requires At(t, p).id in st.heap && st.heap[At(t, p).id].Twigs? && |At(t, p).bits| == |At(t, p).twigs|
    requires i == TwigOff(At(t, p).bits, Nib(key, At(t, p).index)) <= |st.heap[At(t, p).id].nodes|
    requires ns == st.heap[At(t, p).id].nodes[..i] + [LeafNode(false, st.next, NULL)] + st.heap[At(t, p).id].nodes[i..]
    requires u' == AddTwig(At(t, p), st.next + 1, Nib(key, At(t, p).index), Leaf(st.next, key, NULL))
    ensures ValidSlot(InsertState(st, key, ns, Some(At(t, p).id)).heap, SlotAt(t, p))
    ensures var st' := WriteState(InsertState(st, key, ns, Some(At(t, p).id)), SlotAt(t, p), NodeOf(u'));
            && ValidState(st', so, [Replace(t, p, u')])
            && LeafPlace(st', Replace(t, p, u'), p + [i], TwigSlot(st.next + 1, i), key, NULL)
    ensures MapOf(Entries(Replace(t, p, u'))) == MapOf(Entries(t))[key := NULL]
  {
    hide ValidState, BranchesAt, LeafPlace, EditedTo, Prepared, WF, Open, Entries, MapOf, Replace;
    AddMap(t, p, key, x, st.next, st.next + 1);
    Single(st, so, t);
    AddEdited(st, so, t, p, Nib(key, At(t, p).index), Leaf(st.next, key, NULL), st.next + 1);
    AddHeap(st, so, t, p, key, At(t, p), i, ns, u');
    InsertDone(st, so, t, p, key, ns, Some(At(t, p).id), u', i);
  }

  lemma NewHeap(st: State, so: seq<Tree>, t: Tree, p: Path, key: Key, d: nat, tbit: nat, kbit: nat,
                ns: seq<Node>, u': Tree)
    requires ValidState(st, so, [t]) && ValidPath(t, p) && Open(Flags(st.heap), t, p)
    requires ns == (if kbit < tbit then [LeafNode(false, st.next, NULL), NodeOf(At(t, p))]
                    else [NodeOf(At(t, p)), LeafNode(false, st.next, NULL)])
    requires u' == NewBranch(At(t, p), st.next + 1, d, tbit, kbit, Leaf(st.next, key, NULL))
    ensures EditedTo(Flags(st.heap), At(t, p), u', {}, {st.next + 1, st.next})
    ensures Prepared(st, InsertState(st, key, ns, None), t, p, u', {}, {st.next + 1, st.next})
  {
    var leaf := Leaf(st.next, key, NULL);
    NewRep(st, so, t, p, key, d, tbit, kbit, ns);
    assert OneMore(At(t, p), u', Entry(key, NULL)) by {
      NewBranchEntries(At(t, p), st.next + 1, d, tbit, kbit, leaf);
    }
    MakePrepared(st, so, t, p, key, ns, None, u');
    NewEdited(st, so, t, p, d, tbit, kbit, leaf, st.next + 1);
  }

  lemma NewMap(t: Tree, p: Path, key: Key, d: nat, x: Entry, kid: Id, nt: Id)
    requires BranchesAt(t, p, key, d, x) && Nib(key, d) != Nib(x.key, d) && (At(t, p).Branch? ==> d < At(t, p).index)
    ensures var t' := Replace(t, p, NewBranch(At(t, p), nt, d, Nib(x.key, d), Nib(key, d), Leaf(kid, key, NULL)));
            WF(t') && MapOf(Entries(t')) == MapOf(Entries(t))[key := NULL]
  {
    var u, leaf := At(t, p), Leaf(kid, key, NULL);
    WFAt(t, p);
    NewBranchEntries(u, nt, d, Nib(x.key, d), Nib(key, d), leaf);
    NewBranchWF(u, nt, d, leaf, x);
    InsertMeaning(t, p, NewBranch(u, nt, d, Nib(x.key, d), Nib(key, d), leaf), key, d, x);
  }

  lemma NewAll(st: State, so: seq<Tree>, t: Tree, p: Path, key: Key, d: nat, x: Entry, ns: seq<Node>, i: nat, u': Tree)
    requires ValidState(st, so, [t]) && ValidPath(t, p) && Open(Flags(st.heap), t, p)
    requires BranchesAt(t, p, key, d, x) && Nib(key, d) != Nib(x.key, d) && (At(t, p).Branch? ==> d < At(t, p).index)
    requires ns == (if Nib(key, d) < Nib(x.key, d) then [LeafNode(false, st.next, NULL), NodeOf(At(t, p))]
                    else [NodeOf(At(t, p)), LeafNode(false, st.next, NULL)])
    requires i == if Nib(key, d) < Nib(x.key, d) then 0 else 1
    requires u' == NewBranch(At(t, p), st.next + 1, d, Nib(x.key, d), Nib(key, d), Leaf(st.next, key, NULL))
    ensures ValidSlot(InsertState(st, key, ns, None).heap, SlotAt(t, p))
    ensures var st' := WriteState(InsertState(st, key, ns, None), SlotAt(t, p), NodeOf(u'));
            && ValidState(st', so, [Replace(t, p, u')])
            && LeafPlace(st', Replace(t, p, u'), p + [i], TwigSlot(st.next + 1, i), key, NULL)
    ensures MapOf(Entries(Replace(t, p, u'))) == MapOf(Entries(t))[key := NULL]
  {
    hide ValidState, BranchesAt, LeafPlace, EditedTo, Prepared, WF, Open, Entries, MapOf, Replace;
    NewMap(t, p, key, d, x, st.next, st.next + 1);
    NewHeap(st, so, t, p, key, d, Nib(x.key, d), Nib(key, d), ns, u');
    InsertDone(st, so, t, p, key, ns, None, u', i);
  }

  /** The branch on top gets a new leaf twig: its array is reallocated with one more
      node, shifted above the new one. */
  method AddToBranch(st: State, s: Slot, key: Key, ghost so: seq<Tree>, ghost t: Tree, ghost p: Path, ghost x: Entry)
    returns (st': State, s': Slot, ghost t': Tree, ghost q: Path)
    requires ValidState(st, so, [t]) && ValidPath(t, p) && s == SlotAt(t, p)
    requires Open(Flags(st.heap), t, p) && At(t, p).id !in Flags(st.heap)
    requires At(t, p).Branch? && BranchesAt(t, p, key, At(t, p).index, x)
    ensures ValidState(st', so, [t']) && MapOf(Entries(t')) == MapOf(Entries(t))[key := NULL]
    ensures LeafPlace(st', t', q, s', key, NULL)
  {
    hide ValidState, BranchesAt, LeafPlace, WF, Open, Entries, MapOf, Replace;
    TopNode(st, so, t, p);
    var n := Load(st.heap, st.tbl.root, s);
    var kid, nt := st.next, st.next + 1;
    var kbit := Nib(key, n.index);
    var i := TwigOff(n.bits, kbit);
    var was := st.heap[n.twigs].nodes;
    var ns := was[..i] + [LeafNode(false, kid, NULL)] + was[i..];
    ghost var u' := AddTwig(At(t, p), nt, kbit, Leaf(kid, key, NULL));
    AddAll(st, so, t, p, key, x, ns, i, u');
    var st1 := InsertState(st, key, ns, Some(n.twigs));
    st' := WriteState(st1, s, BranchNode(false, n.index, n.bits[..i] + [kbit] + n.bits[i..], nt));
    s', t', q := TwigSlot(nt, i), Replace(t, p, u'), p + [i];
  }

  lemma TopNode(st: State, so: seq<Tree>, t: Tree, p: Path)
    requires ValidState(st, so, [t]) && ValidPath(t, p) && Open(Flags(st.heap), t, p)
    ensures ValidSlot(st.heap, SlotAt(t, p)) && Load(st.heap, st.tbl.root, SlotAt(t, p)) == NodeOf(At(t, p))
    ensures At(t, p).id in st.heap && st.heap[At(t, p).id].Twigs? == At(t, p).Branch?
    ensures At(t, p).Branch? ==> |At(t, p).bits| == |At(t, p).twigs| == |st.heap[At(t, p).id].nodes| >= 2
    ensures st.next !in st.heap && st.next + 1 !in st.heap
  {
    Single(st, so, t);
    SlotNode(st.heap, st.tbl.root, t, p);
    WFAt(t, p);
  }

  /** A new binary branch takes the place of the top node, which becomes one of its
      two twigs. */
  method AddBranch(st: State, s: Slot, key: Key, d: nat, tbit: nat, kbit: nat,
                   ghost so: seq<Tree>, ghost t: Tree, ghost p: Path, ghost x: Entry)
    returns (st': State, s': Slot, ghost t': Tree, ghost q: Path)
    requires ValidState(st, so, [t]) && ValidPath(t, p) && s == SlotAt(t, p)
    requires Open(Flags(st.heap), t, p) && (At(t, p).Branch? ==> d < At(t, p).index)
    requires BranchesAt(t, p, key, d, x) && tbit == Nib(x.key, d) && kbit == Nib(key, d) != tbit
    ensures ValidState(st', so, [t']) && MapOf(Entries(t')) == MapOf(Entries(t))[key := NULL]
    ensures LeafPlace(st', t', q, s', key, NULL)
  {
    hide ValidState, BranchesAt, LeafPlace, WF, Open, Entries, MapOf, Replace;
    TopNode(st, so, t, p);
    var t2 := Load(st.heap, st.tbl.root, s);
    var kid, nt := st.next, st.next + 1;
    var bits := if kbit < tbit then [kbit, tbit] else [tbit, kbit];
    var i := TwigOff(bits, kbit);
    TwoBits(tbit, kbit);
    var ns := [t2, t2][i := LeafNode(false, kid, NULL)];
    ghost var u' := NewBranch(At(t, p), nt, d, tbit, kbit, Leaf(kid, key, NULL));
    NewAll(st, so, t, p, key, d, x, ns, i, u');
    st' := WriteState(InsertState(st, key, ns, None), s, BranchNode(false, d, bits, nt));
    s', t', q := TwigSlot(nt, i), Replace(t, p, u'), p + [i];
  }

  lemma TwoBits(tbit: nat, kbit: nat)
    requires tbit != kbit
    ensures TwigOff(if kbit < tbit then [kbit, tbit] else [tbit, kbit], kbit) == if kbit < tbit then 0 else 1
  {
    var bits := if kbit < tbit then [kbit, tbit] else [tbit, kbit];
    TwigOffIsRank(bits, kbit);
  }

  // ---- The first leaf ----

  lemma FirstLeafValid(st: State, so: seq<Tree>, key: Key)
    requires ValidState(st, so, [])
    ensures st.next !in st.heap
    ensures var st' := st.(heap := Alloc(st.heap, st.next, KeyObj(false, key)), next := st.next + 1,
                           tbl := Trie(LeafNode(false, st.next, NULL), 1));
            var leaf := Leaf(st.next, key, NULL);
            && ValidState(st', so, [leaf]) && LeafPlace(st', leaf, [], RootSlot, key, NULL)
            && MapOf(Entries(leaf)) == MapOf(EntriesAll([]))[key := NULL]
  {
    var kid, h, F := st.next, st.heap, Flags(st.heap);
    var leaf, h' := Leaf(kid, key, NULL), h[kid := KeyObj(false, key)];
    AllocOne(h, kid, KeyObj(false, key));
    OneTree(F, leaf);
    RepIdsAll(h, so);
    HoldsFrame(h, h', so);
    HoldsOne(h', leaf);
    EntriesAllOne(leaf);
    OwnAllInIds(F, so);
    assert Entries(leaf)[..0] == [];
  }

  lemma RepIdsAll(h: Heap, ts: seq<Tree>)
    requires Holds(h, ts)
    ensures IdsAll(ts) <= h.Keys
  {
    forall x | x in IdsAll(ts)
      ensures x in h
    {
      var i :| 0 <= i < |ts| && x in Ids(ts[i]);
      RepIds(h, ts[i]);
    }
  }

  // ---- trie_get_ins / trie_get_cow ----

  lemma NothingFlagged(F: set<Id>, ts: seq<Tree>)
    requires Regions(F, [], ts) && F <= IdsAll(ts)
    ensures F == {}
  {
    if |ts| == 1 {
      assert ts == [ts[0]];
      OneTree(F, ts[0]);
      FlagsAreFrontier(F, ts[0]);
      assert Fr(F, ts[0]) == {};
      assert Ids(ts[0]) * F == F;
    } else {
      assert IdsAll(ts) == {};
    }
  }

  /** Outside a transaction nothing is flagged: the trie owns all its objects. */
  lemma AllExclusive(st: State, t: Tree, p: Path)
    requires ValidState(st, [], [t]) && ValidPath(t, p)
    ensures Open(Flags(st.heap), t, p) && At(t, p).id !in Flags(st.heap) && Flags(st.heap) == {}
  {
    NothingFlagged(Flags(st.heap), [t]);
    OpenAll(t, p);
  }

  lemma {:induction false} OpenAll(t: Tree, p: Path)
    requires ValidPath(t, p)
    ensures Open({}, t, p)
    decreases |p|
  {
    if |p| > 0 {
      OpenAll(t.twigs[p[0]], p[1..]);
    }
  }

  lemma ExactMeaning(t: Tree, p: Path, key: Key)
    requires WF(t) && ValidPath(t, p) && At(t, p).Leaf? && At(t, p).key == key
    ensures key in MapOf(Entries(t)) && MapOf(Entries(t))[key] == At(t, p).val
  {
    EntriesSorted(t);
    MapOfSorted(Entries(t));
    var e := Entry(key, At(t, p).val);
    assert e in Entries(At(t, p));
    SplitIn(t, p, e);
  }

  /** The map after a lookup that inserts NULL for a missing key. */
  function Inserted(m: map<Key, Val>, key: Key): map<Key, Val> {
    if key in m then m else m[key := NULL]
  }

  /** Put a leaf for a missing key at its branching point, on an exclusive path. */
  method InsertAtBranching(st: State, stack: seq<Slot>, key: Key, d: nat, tbit: nat, kbit: nat,
                           ghost so: seq<Tree>, ghost t: Tree, ghost p: Path)
    returns (st': State, s': Slot, ghost t': Tree, ghost q: Path)
    requires ValidState(st, so, [t]) && ValidPath(t, p) && stack == Stack(t, p)
    requires Open(Flags(st.heap), t, p) && At(t, p).id !in Flags(st.heap)
    requires Found(t, key, p, Differs(d), tbit, kbit)
    ensures ValidState(st', so, [t']) && MapOf(Entries(t')) == MapOf(Entries(t))[key := NULL]
    ensures LeafPlace(st', t', q, s', key, NULL)
  {
    hide ValidState, LeafPlace, WF, Open, Entries, MapOf;
    ghost var x := FoundMeaning(st, so, t, key, p, d, tbit, kbit);
    TopNode(st, so, t, p);
    var s := stack[|stack| - 1];
    var n := Load(st.heap, st.tbl.root, s);
    if n.BranchNode? && n.index == d {
      st', s', t', q := AddToBranch(st, s, key, so, t, p, x);
    } else {
      st', s', t', q := AddBranch(st, s, key, d, tbit, kbit, so, t, p, x);
    }
  }

  lemma FoundMeaning(st: State, so: seq<Tree>, t: Tree, key: Key, p: Path, d: nat, tbit: nat, kbit: nat)
    returns (x: Entry)
    requires ValidState(st, so, [t]) && ValidPath(t, p) && Found(t, key, p, Differs(d), tbit, kbit)
    ensures BranchesAt(t, p, key, d, x) && tbit == Nib(x.key, d) && kbit == Nib(key, d) != tbit
    ensures At(t, p).Branch? ==> At(t, p).index >= d
  {
    Single(st, so, t);
    x :| x in Entries(At(t, p)) && Agree(key, x.key, d) && Nib(x.key, d) == tbit;
  }

  lemma FoundMissing(t: Tree, key: Key, p: Path, d: nat, tbit: nat, kbit: nat)
    requires WF(t) && ValidPath(t, p) && Found(t, key, p, Differs(d), tbit, kbit)
    ensures key !in MapOf(Entries(t))
  {
    NotStored(t, key, d);
    EntriesSorted(t);
    MapOfSorted(Entries(t));
  }

  /** Find the key's value pointer, inserting a NULL value if the key is missing; in a
      transaction, make the way there exclusive first. */
  method GetIns(st0: State, cow: bool, key: Key, ghost so: seq<Tree>, ghost sn: seq<Tree>)
    returns (st: State, s: Slot, ghost t: Tree, ghost q: Path)
    requires ValidState(st0, so, sn) && (!cow ==> so == [])
    ensures ValidState(st, so, [t])
    ensures MapOf(Entries(t)) == Inserted(MapOf(EntriesAll(sn)), key)
    ensures LeafPlace(st, t, q, s, key, MapOf(Entries(t))[key])
  {
    hide ValidState, LeafPlace, WF, Open, Entries, MapOf, Found;
    StateShape(st0, so, sn);
    if st0.tbl.weight == 0 {
      FirstLeafValid(st0, so, key);
      st := st0.(heap := Alloc(st0.heap, st0.next, KeyObj(false, key)), next := st0.next + 1,
                 tbl := Trie(LeafNode(false, st0.next, NULL), 1));
      s, t, q := RootSlot, Leaf(st0.next, key, NULL), [];
      EmptyMap();
      return;
    }
    ghost var t0 := sn[0];
    Single(st0, so, t0);
    var stack, diff, tbit, kbit;
    ghost var p;
    stack, diff, tbit, kbit, p := FindBranch(st0.heap, st0.tbl.root, key, t0);
    st, t := st0, t0;
    if cow {
      st, stack, t := CowPushdown(st0, stack, so, t0, p);
      FoundAlong(t0, t, key, p, diff, tbit, kbit);
      AlongSame(t0, t, p);
    } else {
      AllExclusive(st0, t0, p);
    }
    Single(st, so, t);
    if diff.Exact? {
      FoundExact(st, t, key, p, diff, tbit, kbit);
      s, q := stack[|stack| - 1], p;
      return;
    }
    FoundMissing(t, key, p, diff.index, tbit, kbit);
    st, s, t, q := InsertAtBranching(st, stack, key, diff.index, tbit, kbit, so, t, p);
  }

  lemma EmptyMap()
    ensures EntriesAll([]) == [] && MapOf([]) == map[]
  {
  }

  lemma FoundExact(st: State, t: Tree, key: Key, p: Path, diff: Diff, tbit: nat, kbit: nat)
    requires WF(t) && ValidPath(t, p) && Found(t, key, p, diff, tbit, kbit) && diff.Exact?
    requires Open(Flags(st.heap), t, p) && At(t, p).id !in Flags(st.heap)
    ensures key in MapOf(Entries(t))
    ensures LeafPlace(st, t, p, Stack(t, p)[|p|], key, MapOf(Entries(t))[key])
  {
    ExactMeaning(t, p, key);
  }

  lemma StateShape(st: State, so: seq<Tree>, sn: seq<Tree>)
    requires ValidState(st, so, sn)
    ensures |sn| <= 1 && (st.tbl.weight == 0 <==> sn == [])
    ensures |sn| == 1 ==> sn == [sn[0]] && EntriesAll(sn) == Entries(sn[0])
  {
    StandsEmpty(st.heap, st.tbl, sn);
  }

  // ---- Writing through the value pointer ----

  lemma ValuePrepared(st: State, so: seq<Tree>, t: Tree, q: Path, l: Tree)
    requires ValidState(st, so, [t]) && ValidPath(t, q) && Open(Flags(st.heap), t, q) && At(t, q).Leaf?
    requires At(t, q).id !in Flags(st.heap) && l.Leaf? && l == Leaf(At(t, q).id, At(t, q).key, l.val)
    ensures Prepared(st, st, t, q, l, {}, {}) && EditedTo(Flags(st.heap), At(t, q), l, {}, {})
  {
    Single(st, so, t);
    ProperHere(st, so, t, q);
    ReplaceEntries(t, q, l);
  }

  lemma ValuePlace(st: State, st': State, t: Tree, q: Path, s: Slot, l: Tree)
    requires ValidPath(t, q) && s == SlotAt(t, q) && Open(Flags(st.heap), t, q) && Flags(st'.heap) == Flags(st.heap)
    requires l.Leaf? && l.id !in Flags(st.heap)
    ensures LeafPlace(st', Replace(t, q, l), q, s, l.key, l.val)
  {
    RegionReplace(Flags(st.heap), t, q, l);
    ReplaceAt(t, q, l);
    StackEqual(t, q, l);
  }

  lemma ValueValid(st: State, so: seq<Tree>, t: Tree, q: Path, s: Slot, key: Key, v: Val, w: Val)
    requires ValidState(st, so, [t]) && LeafPlace(st, t, q, s, key, v)
    ensures ValidPath(t, q) && ValidSlot(st.heap, s) && Load(st.heap, st.tbl.root, s) == LeafNode(false, At(t, q).id, v)
    ensures var l := Leaf(At(t, q).id, key, w); var st' := WriteState(st, s, NodeOf(l)); var t' := Replace(t, q, l);
            && ValidState(st', so, [t']) && LeafPlace(st', t', q, s, key, w)
            && MapOf(Entries(t')) == MapOf(Entries(t))[key := w]
  {
    hide ValidState, WF, Open, Entries, MapOf, Prepared, EditedTo, Replace, Rep, Flags;
    var l := Leaf(At(t, q).id, key, w);
    TopNode(st, so, t, q);
    Single(st, so, t);
    ValuePrepared(st, so, t, q, l);
    ValueWF(t, q, w);
    EditValid(st, st, so, t, q, l, {}, {});
    MapUpdate(t, q, w);
    ValuePlace(st, WriteState(st, s, NodeOf(l)), t, q, s, l);
  }

  lemma ValueWF(t: Tree, q: Path, w: Val)
    requires WF(t) && ValidPath(t, q) && At(t, q).Leaf?
    ensures WF(Replace(t, q, At(t, q).(val := w)))
  {
    var c := At(t, q);
    var l := c.(val := w);
    var x := Entry(c.key, c.val);
    assert x in Entries(c);
    LeafAncestors(t, q);
    forall d: nat | AncestorsBelow(t, q, d)
      ensures WF(Replace(t, q, l))
    {
      forall e | e in Entries(l)
        ensures exists y :: y in Entries(c) && Agree(e.key, y.key, d)
      {
        assert Agree(e.key, x.key, d);
      }
      WFReplace(t, q, l, d);
    }
  }

  lemma {:induction false} LeafAncestors(t: Tree, q: Path)
    requires WF(t) && ValidPath(t, q)
    ensures exists d: nat :: AncestorsBelow(t, q, d)
  {
    if |q| > 0 {
      PathParent(t, q);
      var d := At(t, q[..|q| - 1]).index + 1;
      ParentBelow(t, q, d);
    } else {
      assert AncestorsBelow(t, q, 0);
    }
  }

  method SetValue(st: State, s: Slot, w: Val, ghost so: seq<Tree>, ghost t: Tree, ghost q: Path, ghost key: Key,
                  ghost v: Val)
    returns (st': State, ghost t': Tree)
    requires ValidState(st, so, [t]) && LeafPlace(st, t, q, s, key, v)
    ensures ValidState(st', so, [t']) && LeafPlace(st', t', q, s, key, w)
    ensures MapOf(Entries(t')) == MapOf(Entries(t))[key := w]
  {
    hide ValidState, LeafPlace, WF, Open, Entries, MapOf;
    ValueValid(st, so, t, q, s, key, v, w);
    var n := Load(st.heap, st.tbl.root, s);
    t' := Replace(t, q, Leaf(n.key, key, w));
    st' := WriteState(st, s, LeafNode(n.cow, n.key, w));
  }
}
