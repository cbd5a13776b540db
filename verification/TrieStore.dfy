/** A trie and its copy-on-write transactions as an object changed in place. */
module TrieStore {
  import opened Bytes
  import opened Options
  import opened TrieTree
  import opened TrieHeap
  import opened TrieSearch
  import opened TrieRegions
  import opened TrieCow
  import opened TriePush
  import opened TrieInsert
  import opened TrieDelete
  import opened TrieCleanup
  import opened TrieLeq
  import opened TrieIter

  // ---- Beginning a transaction ----

  /** Marking the root makes everything shared between two equal tries. */
  lemma BeginRegions(t: Tree)
    requires NoAlias(t)
    ensures Regions({t.id}, [t], [t])
  {
    var F := {t.id};
    OneTree(F, t);
    assert Own(F, t) == {};
  }

  lemma BeginValid(st: State, t: Tree)
    requires ValidState(st, [], [t])
    ensures t.id in st.heap && (st.heap[t.id].Twigs? ==> |st.heap[t.id].nodes| > 0)
    ensures t.Branch? == st.heap[t.id].Twigs? && st.tbl.root == NodeOf(t)
    ensures ValidState(st.(heap := st.heap[t.id := Marked(st.heap[t.id])], old_ := st.tbl), [t], [t])
  {
    hide Rep, WF, NoAlias, Own, Fr, Proper, Ids, Entries;
    Single(st, [], t);
    AllExclusive(st, t, []);
    MarkOne(st.heap, t.id);
    var h' := st.heap[t.id := Marked(st.heap[t.id])];
    BeginRegions(t);
    OneTree({t.id}, t);
    HoldsOne(st.heap, t);
    assert SameOn(st.heap, h', IdsAll([t]));
    HoldsFrame(st.heap, h', [t]);
    assert Flags(h') == {t.id};
    assert IdsAll([]) == {};
  }

  // ---- Ending a transaction ----

  lemma Swap(h: Heap, a: seq<Tree>, b: seq<Tree>)
    requires Inv(h, a, b)
    ensures Inv(h, b, a)
  {
  }

  /** Cleaning up one trie leaves the other whole, without marks, and owner of every
      live object; exactly what only the first trie reached has been freed. */
  lemma EndTransaction(h: Heap, h': Heap, g: Tree, kept: seq<Tree>)
    requires Inv(h, [g], kept)
    requires Cleaned(h, h', Own(Flags(h), g), RootsOf(Fr(Flags(h), g)))
    ensures Inv(h', [], kept) && Flags(h') == {}
    ensures h'.Keys == IdsAll(kept) && h.Keys - h'.Keys == Ids(g) - IdsAll(kept)
  {
    hide Rep, WF, NoAlias, Proper, Own, Fr, Ids, Flagged, SameObj;
    EndKeys(h, h', g, kept);
    EndFlags(h, h', g, kept);
    HoldsFrame(h, h', kept);
    RegionsEmpty(kept);
    assert IdsAll([]) == {} && OwnAll({}, []) == {} && FrAll({}, []) == {};
  }

  lemma EndKeys(h: Heap, h': Heap, g: Tree, kept: seq<Tree>)
    requires Inv(h, [g], kept)
    requires Cleaned(h, h', Own(Flags(h), g), RootsOf(Fr(Flags(h), g)))
    ensures h'.Keys == IdsAll(kept) && h.Keys - h'.Keys == Ids(g) - IdsAll(kept)
    ensures SameOn(h, h', IdsAll(kept))
  {
    hide Rep, WF, NoAlias, Proper, Own, Fr, Ids, Flagged, SameObj;
    OneTree(Flags(h), g);
    OwnNotShared(Flags(h), [g], kept);
  }

  lemma EndFlags(h: Heap, h': Heap, g: Tree, kept: seq<Tree>)
    requires Inv(h, [g], kept)
    requires Cleaned(h, h', Own(Flags(h), g), RootsOf(Fr(Flags(h), g)))
    ensures Flags(h') == {}
  {
    hide Rep, WF, NoAlias, Proper, Own, Fr, Ids, Flagged, SameObj;
    OneTree(Flags(h), g);
    FlagsGone(Flags(h), g, kept);
  }

  lemma FlagsGone(F: set<Id>, g: Tree, kept: seq<Tree>)
    requires Regions(F, [g], kept) && F <= Ids(g) + IdsAll(kept)
    ensures F <= RootsOf(Fr(F, g))
  {
    OneTree(F, g);
    FlagsAreFrontier(F, g);
    if |kept| == 1 {
      assert kept == [kept[0]];
      OneTree(F, kept[0]);
      FlagsAreFrontier(F, kept[0]);
    } else {
      assert IdsAll(kept) == {};
    }
  }

  lemma RegionsEmpty(ts: seq<Tree>)
    requires |ts| <= 1 && NoAliasAll(ts)
    ensures ProperAll({}, ts) && FrAll({}, ts) == {} && OwnAll({}, ts) == IdsAll(ts)
  {
    if |ts| == 1 {
      assert ts == [ts[0]];
      OneTree({}, ts[0]);
      NoFlags(ts[0]);
    }
  }

  lemma {:induction false} NoFlags(t: Tree)
    ensures Proper({}, t) && Fr({}, t) == {} && Own({}, t) == Ids(t)
    decreases t
  {
    if t.Branch? {
      forall i | 0 <= i < |t.twigs|
        ensures Proper({}, t.twigs[i]) && Fr({}, t.twigs[i]) == {} && Own({}, t.twigs[i]) == Ids(t.twigs[i])
      {
        NoFlags(t.twigs[i]);
      }
    }
  }

  lemma CommitValid(st: State, h': Heap, g: Tree, sn: seq<Tree>)
    requires ValidState(st, [g], sn)
    requires Cleaned(st.heap, h', Own(Flags(st.heap), g), RootsOf(Fr(Flags(st.heap), g)))
    ensures ValidState(st.(heap := h', old_ := Trie(EMPTY_ROOT, 0)), [], sn)
    ensures Flags(h') == {} && h'.Keys == IdsAll(sn) && st.heap.Keys - h'.Keys == Ids(g) - IdsAll(sn)
  {
    EndTransaction(st.heap, h', g, sn);
  }

  lemma RollbackValid(st: State, h': Heap, g: Tree, so: seq<Tree>)
    requires ValidState(st, so, [g])
    requires Cleaned(st.heap, h', Own(Flags(st.heap), g), RootsOf(Fr(Flags(st.heap), g)))
    ensures ValidState(st.(heap := h', tbl := st.old_, old_ := Trie(EMPTY_ROOT, 0)), [], so)
    ensures Flags(h') == {} && h'.Keys == IdsAll(so) && st.heap.Keys - h'.Keys == Ids(g) - IdsAll(so)
  {
    Swap(st.heap, so, [g]);
    EndTransaction(st.heap, h', g, so);
  }

  lemma NothingToClean(st: State, ts: seq<Tree>)
    requires ValidState(st, [], ts)
    ensures Flags(st.heap) == {} && st.heap.Keys == IdsAll(ts)
  {
    assert IdsAll([]) == {};
    NothingFlagged(Flags(st.heap), ts);
  }

  lemma CleanupReady(st: State, so: seq<Tree>, sn: seq<Tree>)
    requires ValidState(st, so, sn)
    ensures CowFirst(st.heap)
    ensures |so| == 1 ==> so == [so[0]] && Rep(st.heap, so[0]) && NoAlias(so[0]) && WF(so[0])
                          && st.old_.root == NodeOf(so[0])
    ensures |sn| == 1 ==> sn == [sn[0]] && Rep(st.heap, sn[0]) && NoAlias(sn[0]) && WF(sn[0])
                          && st.tbl.root == NodeOf(sn[0])
    ensures st.old_.weight == 0 <==> so == []
    ensures st.tbl.weight == 0 <==> sn == []
    ensures |so| <= 1 && |sn| <= 1
  {
    StandsEmpty(st.heap, st.tbl, sn);
    StandsEmpty(st.heap, st.old_, so);
  }

  // ---- Operations of a run ----

  /** Get or insert without and with a write through the pointer, and delete. */
  datatype Op = Touch(key: Key) | Put(key: Key, val: Val) | Remove(key: Key)

  function Applied(m: map<Key, Val>, op: Op): map<Key, Val> {
    match op
    case Touch(k) => Inserted(m, k)
    case Put(k, v) => m[k := v]
    case Remove(k) => m - {k}
  }

  function AppliedAll(m: map<Key, Val>, ops: seq<Op>): map<Key, Val> {
    if |ops| == 0 then m else Applied(AppliedAll(m, ops[..|ops| - 1]), ops[|ops| - 1])
  }

  /** Turns of a transaction and of a reader: a turn without an operation is the reader's. */
  function AfterTurns(m: map<Key, Val>, turns: seq<Option<Op>>): map<Key, Val> {
    if |turns| == 0 then m
    else
      var before := AfterTurns(m, turns[..|turns| - 1]);
      match turns[|turns| - 1]
      case Some(op) => Applied(before, op)
      case None => before
  }

  function Readings(turns: seq<Option<Op>>): nat {
    if |turns| == 0 then 0
    else Readings(turns[..|turns| - 1]) + if turns[|turns| - 1].None? then 1 else 0
  }

  function Least(a: nat, b: nat): nat {
    if a < b then a else b
  }

  /** One call on the trie, and what a run of calls does to plain maps: `saved` is the
      map that readers of the old trie see while a transaction is open. */
  datatype Call = Do(op: Op) | DeleteIt(key: Key) | Start | Finish(commit: bool)

  datatype Maps = Maps(current: map<Key, Val>, saved: Option<map<Key, Val>>)

  function Called(m: Maps, c: Call): Maps {
    match c
    case Do(op) => m.(current := Applied(m.current, op))
    case DeleteIt(k) => if m.saved.None? then m.(current := m.current - {k}) else m
    case Start => if m.saved.None? then m.(saved := Some(m.current)) else m
    case Finish(commit) =>
      if m.saved.None? then m
      else Maps(if commit then m.current else m.saved.value, None)
  }

  function CalledAll(m: Maps, cs: seq<Call>): Maps {
    if |cs| == 0 then m else Called(CalledAll(m, cs[..|cs| - 1]), cs[|cs| - 1])
  }

  class Store {
    var st: State
    var inTxn: bool
    ghost var so: seq<Tree>
    ghost var sn: seq<Tree>

    ghost predicate Valid()
      reads this
    {
      ValidState(st, so, sn) && (!inTxn ==> so == [])
    }

    /** The map read from the root of the current trie (the new one in a transaction). */
    ghost function Contents(): map<Key, Val>
      reads this
    {
      MapOf(EntriesAll(sn))
    }

    /** The map read from the root of the old trie. */
    ghost function OldContents(): map<Key, Val>
      reads this
    {
      MapOf(EntriesAll(so))
    }

    /** The live objects are those of the current trie alone, and none is marked. */
    ghost predicate Settled()
      reads this
    {
      !inTxn && st.heap.Keys == IdsAll(sn) && Flags(st.heap) == {}
    }

    constructor Create()
      ensures Valid() && Settled() && Contents() == map[]
    {
      st := State(map[], 0, Trie(EMPTY_ROOT, 0), Trie(EMPTY_ROOT, 0));
      inTxn, so, sn := false, [], [];
    }

    method Get(key: Key) returns (r: Option<Val>)
      requires Valid()
      ensures r == if key in Contents() then Some(Contents()[key]) else None
    {
      r := GetTry(st.heap, st.tbl, key, sn);
    }

    /** Readers of the old trie, also during a transaction. */
    method GetOld(key: Key) returns (r: Option<Val>)
      requires Valid()
      ensures r == if key in OldContents() then Some(OldContents()[key]) else None
    {
      r := GetTry(st.heap, st.old_, key, so);
    }

    /** trie_get_ins or trie_get_cow; the value of a missing key is null. */
    method GetOrInsert(key: Key) returns (val: Val)
      requires Valid()
      modifies this
      ensures Valid() && inTxn == old(inTxn) && so == old(so)
      ensures Contents() == Inserted(old(Contents()), key) && val == Contents()[key]
    {
      hide ValidState, MapOf, Entries;
      var st1, s;
      ghost var t, q;
      st1, s, t, q := GetIns(st, inTxn, key, so, sn);
      TopNode(st1, so, t, q);
      EntriesAllOne(t);
      st, sn := st1, [t];
      val := Load(st1.heap, st1.tbl.root, s).val;
    }

    /** trie_get_ins or trie_get_cow, and a write through the returned pointer. */
    method PutVal(key: Key, val: Val)
      requires Valid()
      modifies this
      ensures Valid() && inTxn == old(inTxn) && so == old(so)
      ensures Contents() == old(Contents())[key := val]
    {
      hide ValidState, LeafPlace, MapOf, Entries;
      var st1, s;
      ghost var t, q;
      st1, s, t, q := GetIns(st, inTxn, key, so, sn);
      var st2;
      ghost var t2;
      st2, t2 := SetValue(st1, s, val, so, t, q, key, MapOf(Entries(t))[key]);
      EntriesAllOne(t2);
      st, sn := st2, [t2];
    }

    /** trie_del or trie_del_cow. */
    method Delete(key: Key) returns (r: DelResult)
      requires Valid()
      modifies this
      ensures Valid() && inTxn == old(inTxn) && so == old(so)
      ensures DelSpec(old(Contents()), key, r, Contents())
    {
      hide ValidState, MapOf, Entries;
      if inTxn {
        st, r, sn := DelCow(st, key, so, sn);
      } else {
        st, r, sn := Del(st, key, sn);
      }
    }

    /** trie_it_del: removes the key that an iterator stands on; the iterator is finished.
        Iterators do not delete inside transactions. */
    method DeleteAt(it: TrieIt)
      requires Valid() && !inTxn && it.Valid() && !it.Finished() && it.h == st.heap && it.tbl == st.tbl && it.ts == sn
      modifies this, it`stack
      ensures Valid() && !inTxn && so == old(so) && it.Finished()
      ensures Contents() == old(Contents()) - {old(EntriesAll(sn)[it.Pos()].key)}
    {
      hide ValidState, MapOf, Entries;
      StateShape(st, so, sn);
      var stack := it.stack;
      it.stack := [];
      st, sn := ItDel(st, stack, sn[0], it.path);
    }

    /** trie_cow: the old trie is the current one, and so far everything is shared. */
    method Begin()
      requires Valid() && !inTxn
      modifies this
      ensures Valid() && inTxn
      ensures so == old(sn) && sn == old(sn) && st.heap.Keys == old(st).heap.Keys
    {
      StateShape(st, so, sn);
      if st.tbl.weight > 0 {
        BeginValid(st, sn[0]);
        var h := MarkCow(st.heap, st.tbl.root);
        st := st.(heap := h, old_ := st.tbl);
      } else {
        st := st.(old_ := st.tbl);
      }
      inTxn, so := true, sn;
    }

    /** trie_cow_commit: the new trie stays; exactly the objects that only the old trie
        reached are freed. */
    method Commit()
      requires Valid() && inTxn
      modifies this
      ensures Valid() && Settled() && so == [] && sn == old(sn)
      ensures old(st).heap.Keys - st.heap.Keys == IdsAll(old(so)) - IdsAll(old(sn))
    {
      hide ValidState, Cleaned;
      CleanupReady(st, so, sn);
      if st.old_.weight > 0 {
        var h := Cleanup(st.heap, st.old_.root, so[0]);
        CommitValid(st, h, so[0], sn);
        OneTree({}, so[0]);
        st := st.(heap := h, old_ := Trie(EMPTY_ROOT, 0));
      } else {
        NothingToClean(st, sn);
        assert IdsAll([]) == {};
      }
      inTxn, so := false, [];
    }

    /** trie_cow_rollback: the old trie stays; exactly the objects that only the new
        trie reached are freed. */
    method Rollback()
      requires Valid() && inTxn
      modifies this
      ensures Valid() && Settled() && so == [] && sn == old(so)
      ensures old(st).heap.Keys - st.heap.Keys == IdsAll(old(sn)) - IdsAll(old(so))
    {
      hide ValidState, Cleaned;
      CleanupReady(st, so, sn);
      if st.tbl.weight > 0 {
        var h := Cleanup(st.heap, st.tbl.root, sn[0]);
        RollbackValid(st, h, sn[0], so);
        OneTree({}, sn[0]);
        st := st.(heap := h, tbl := st.old_, old_ := Trie(EMPTY_ROOT, 0));
      } else {
        NewEmpty(st, so);
        assert IdsAll([]) == {};
        st := st.(tbl := st.old_, old_ := Trie(EMPTY_ROOT, 0));
      }
      inTxn, so, sn := false, [], so;
    }

    method Perform(op: Op)
      requires Valid()
      modifies this
      ensures Valid() && inTxn == old(inTxn) && so == old(so)
      ensures Contents() == Applied(old(Contents()), op)
    {
      match op
      case Touch(k) =>
        var v := GetOrInsert(k);
      case Put(k, v) => PutVal(k, v);
      case Remove(k) =>
        var r := Delete(k);
        assert k !in old(Contents()) ==> old(Contents()) - {k} == old(Contents());
    }

    /** trie_weight. */
    method Weight() returns (n: nat)
      requires Valid()
      ensures n == |Contents()|
    {
      StandsEmpty(st.heap, st.tbl, sn);
      if |sn| == 1 {
        EntriesSorted(sn[0]);
      }
      MapOfSorted(EntriesAll(sn));
      n := st.tbl.weight;
    }

    ghost function View(): Maps
      reads this
    {
      Maps(Contents(), if inTxn then Some(OldContents()) else None)
    }

    /** An iterator is moved to a key; if it stands there, the key is deleted. */
    method DeleteByIterator(key: Key)
      requires Valid() && !inTxn
      modifies this
      ensures Valid() && !inTxn && so == old(so) && Contents() == old(Contents()) - {key}
    {
      hide ValidState, MapOf, Entries;
      CurrentStands(st, so, sn);
      var it := new TrieIt.Begin(st.heap, st.tbl, sn);
      var ret := it.GetLeqIt(key);
      if ret == EOK {
        DeleteAt(it);
      } else {
        LexIrreflexive(key);
        assert Contents() - {key} == Contents();
      }
    }

    method OneCall(c: Call)
      requires Valid()
      modifies this
      ensures Valid() && View() == Called(old(View()), c)
    {
      match c
      case Do(op) => Perform(op);
      case DeleteIt(k) =>
        if !inTxn {
          DeleteByIterator(k);
        }
      case Start =>
        if !inTxn {
          Begin();
        }
      case Finish(commit) =>
        if inTxn && commit {
          Commit();
        } else if inTxn {
          Rollback();
        }
    }

    /** Every run of calls, over any number of transactions, behaves like the plain
        maps, and outside a transaction nothing is leaked or left marked. */
    method Run(cs: seq<Call>)
      requires Valid()
      modifies this
      ensures Valid() && View() == CalledAll(old(View()), cs)
      ensures !inTxn ==> Settled()
    {
      var i := 0;
      assert cs[..0] == [];
      while i < |cs|
        invariant 0 <= i <= |cs|
        invariant Valid() && View() == CalledAll(old(View()), cs[..i])
      {
        assert cs[..i + 1][..i] == cs[..i];
        OneCall(cs[i]);
        i := i + 1;
      }
      assert cs[..i] == cs;
      if !inTxn {
        NothingToClean(st, sn);
      }
    }

    /** An operation of a transaction while an iterator stands in the old trie. */
    method PerformBeside(op: Op, it: TrieIt)
      requires Valid() && inTxn && it.Valid() && it.ts == so
      modifies this, it`h
      ensures Valid() && inTxn && so == old(so) && Contents() == Applied(old(Contents()), op)
      ensures it.Valid() && it.Finished() == old(it.Finished())
      ensures !it.Finished() ==> it.Pos() == old(it.Pos())
    {
      hide ValidState, MapOf, Entries, EntriesAll, Applied;
      Perform(op);
      CurrentStands(st, so, sn);
      SameRoot(it.h, it.tbl, st.heap, st.old_, so);
      it.Resume(st.heap);
    }

    /** Readers walk through the old trie while a transaction changes the new one. In
        every order of their turns they visit the old entries once each and in order,
        and the transaction has the effect it has without readers. */
    method VisitOld(turns: seq<Option<Op>>) returns (es: seq<Entry>)
      requires Valid() && inTxn
      modifies this
      ensures Valid() && inTxn && so == old(so) && Contents() == AfterTurns(old(Contents()), turns)
      ensures |es| == Least(Readings(turns), |EntriesAll(so)|) && es == EntriesAll(so)[..|es|]
    {
      hide ValidState, MapOf, Entries, EntriesAll, Applied, Stands;
      CurrentStands(st, so, sn);
      var it := new TrieIt.Begin(st.heap, st.old_, so);
      es := [];
      var i := 0;
      assert turns[..0] == [];
      while i < |turns|
        invariant 0 <= i <= |turns| && fresh(it) && it.Valid() && it.ts == so
        invariant Valid() && inTxn && so == old(so)
        invariant Contents() == AfterTurns(old(Contents()), turns[..i])
        invariant |es| == Least(Readings(turns[..i]), |EntriesAll(so)|) && es == EntriesAll(so)[..|es|]
        invariant Seen(it, |es|)
      {
        assert turns[..i + 1][..i] == turns[..i];
        if turns[i].Some? {
          PerformBeside(turns[i].value, it);
        } else {
          es := ReadOn(it, es);
        }
        i := i + 1;
      }
      assert turns[..i] == turns;
    }

    /** A whole transaction: the old map is read unchanged to the end; a commit leaves
        the map after all operations, a rollback the map before them. */
    method Transaction(ops: seq<Op>, commit: bool)
      requires Valid() && !inTxn
      modifies this
      ensures Valid() && Settled()
      ensures Contents() == if commit then AppliedAll(old(Contents()), ops) else old(Contents())
    {
      Begin();
      var i := 0;
      assert ops[..0] == [];
      while i < |ops|
        invariant 0 <= i <= |ops|
        invariant Valid() && inTxn
        invariant so == old(sn)
        invariant Contents() == AppliedAll(old(Contents()), ops[..i])
      {
        assert ops[..i + 1][..i] == ops[..i];
        Perform(ops[i]);
        i := i + 1;
      }
      assert ops[..i] == ops;
      if commit {
        Commit();
      } else {
        Rollback();
      }
    }
  }

  /** The iterator is on the way through all entries and has n of them behind it. */
  ghost predicate Seen(it: TrieIt, n: nat)
    requires it.Valid()
    reads it
  {
    && n <= |EntriesAll(it.ts)| && (it.Finished() <==> n == |EntriesAll(it.ts)|)
    && (!it.Finished() ==> it.Pos() == n)
  }

  /** A turn of a reader: the next entry, if there is one. */
  method ReadOn(it: TrieIt, es: seq<Entry>) returns (es': seq<Entry>)
    requires it.Valid() && Seen(it, |es|) && es == EntriesAll(it.ts)[..|es|]
    modifies it`stack, it`path
    ensures it.Valid() && Seen(it, |es'|) && es' == EntriesAll(it.ts)[..|es'|]
    ensures |es'| == Least(|es| + 1, |EntriesAll(it.ts)|)
  {
    hide EntriesAll, Stands, Before, After;
    es' := es;
    if !it.Finished() {
      var e := it.Current();
      es' := es + [e];
      it.Next();
    }
  }

  lemma SameRoot(h: Heap, a: Trie, h': Heap, b: Trie, ts: seq<Tree>)
    requires Stands(h, a, ts) && Stands(h', b, ts)
    ensures Stands(h', a, ts)
  {
  }

  lemma CurrentStands(st: State, so: seq<Tree>, sn: seq<Tree>)
    requires ValidState(st, so, sn)
    ensures Stands(st.heap, st.tbl, sn) && Stands(st.heap, st.old_, so)
  {
  }

  lemma NewEmpty(st: State, so: seq<Tree>)
    requires ValidState(st, so, [])
    ensures ValidState(st.(tbl := st.old_, old_ := Trie(EMPTY_ROOT, 0)), [], so)
    ensures Flags(st.heap) == {} && st.heap.Keys == IdsAll(so)
  {
    Swap(st.heap, so, []);
    assert IdsAll([]) == {};
    NothingFlagged(Flags(st.heap), so);
  }
}
