/** Iterators (trie.c, trie_it_*): a node stack that always stands at a leaf, or is
    empty when it has gone past the end. */
module TrieIter {
  import opened Bytes
  import opened Options
  import opened TrieTree
  import opened TrieHeap
  import opened TrieRegions
  import opened TrieWalk
  import opened TrieLeq

  class TrieIt {
    var h: Heap
    const tbl: Trie
    ghost const ts: seq<Tree>
    var stack: seq<Slot>
    ghost var path: Path

    ghost predicate Valid()
      reads this
    {
      && Stands(h, tbl, ts)
      && (|stack| > 0 ==> |ts| == 1 && OnPath(h, tbl.root, ts[0], stack, path) && At(ts[0], path).Leaf?)
    }

    predicate Finished()
      reads this
    {
      |stack| == 0
    }

    /** Position of the current entry in the order of all entries. */
    ghost function Pos(): (n: nat)
      reads this
      requires Valid() && !Finished()
      ensures n < |EntriesAll(ts)|
      ensures EntriesAll(ts)[n] == Entry(At(ts[0], path).key, At(ts[0], path).val)
    {
      EntriesSplit(ts[0], path);
      StandsEmpty(h, tbl, ts);
      |Before(ts[0], path)|
    }

    lemma Around()
      requires Valid() && !Finished()
      ensures EntriesAll(ts) == Before(ts[0], path) + Entries(At(ts[0], path)) + After(ts[0], path)
      ensures |Entries(At(ts[0], path))| == 1
      ensures |EntriesAll(ts)| == Pos() + 1 + |After(ts[0], path)|
    {
      EntriesSplit(ts[0], path);
      StandsEmpty(h, tbl, ts);
    }

    constructor Begin(h: Heap, tbl: Trie, ghost ts: seq<Tree>)
      requires Stands(h, tbl, ts)
      ensures this.h == h && this.tbl == tbl && this.ts == ts && Valid()
      ensures Finished() <==> EntriesAll(ts) == []
      ensures !Finished() ==> Pos() == 0
    {
      this.h, this.tbl, this.ts := h, tbl, ts;
      stack, path := [], [];
      new;
      StandsEmpty(h, tbl, ts);
      if tbl.weight > 0 {
        stack, path := FirstLeaf(h, tbl.root, [RootSlot], ts[0], []);
      }
    }

    method Current() returns (e: Entry)
      requires Valid() && !Finished()
      ensures e == EntriesAll(ts)[Pos()]
    {
      TopOf(h, tbl.root, ts[0], stack, path);
      var n := Load(h, tbl.root, stack[|stack| - 1]);
      return Entry(h[n.key].chars, n.val);
    }

    method Next()
      requires Valid() && !Finished()
      modifies `stack, `path
      ensures Valid()
      ensures Finished() <==> old(Pos()) + 1 == |EntriesAll(ts)|
      ensures !Finished() ==> Pos() == old(Pos()) + 1
    {
      Around();
      var ok, stack', path' := NextLeaf(h, tbl.root, stack, ts[0], path);
      if ok {
        stack, path := stack', path';
        Around();
      } else {
        stack := [];
      }
    }

    method Prev()
      requires Valid() && !Finished()
      modifies `stack, `path
      ensures Valid()
      ensures Finished() <==> old(Pos()) == 0
      ensures !Finished() ==> Pos() == old(Pos()) - 1
    {
      Around();
      var ok, stack', path' := PrevLeaf(h, tbl.root, stack, ts[0], path);
      if ok {
        stack, path := stack', path';
        Around();
      } else {
        stack := [];
      }
    }

    method NextLoop()
      requires Valid() && !Finished()
      modifies `stack, `path
      ensures Valid() && !Finished()
      ensures Pos() == if old(Pos()) + 1 == |EntriesAll(ts)| then 0 else old(Pos()) + 1
    {
      Around();
      var ok, stack', path' := NextLeaf(h, tbl.root, stack, ts[0], path);
      if !ok {
        stack', path' := FirstLeaf(h, tbl.root, [RootSlot], ts[0], []);
      }
      stack, path := stack', path';
      Around();
    }

    method PrevLoop()
      requires Valid() && !Finished()
      modifies `stack, `path
      ensures Valid() && !Finished()
      ensures Pos() == if old(Pos()) == 0 then |EntriesAll(ts)| - 1 else old(Pos()) - 1
    {
      Around();
      var ok, stack', path' := PrevLeaf(h, tbl.root, stack, ts[0], path);
      if !ok {
        stack', path' := LastLeaf(h, tbl.root, [RootSlot], ts[0], []);
      }
      stack, path := stack', path';
      Around();
    }

    /** Move to the longest stored proper prefix of the current key, or finish. */
    method Parent()
      requires Valid() && !Finished() && NoAlias(ts[0])
      modifies `stack, `path
      ensures Valid()
      ensures !Finished() ==> LongestPrefix(ts[0], old(EntriesAll(ts)[Pos()].key), EntriesAll(ts)[Pos()])
      ensures Finished() ==> NoPrefixIn(ts[0], old(EntriesAll(ts)[Pos()].key))
    {
      var ok, stack', path' := PrefixLeaf(h, tbl.root, stack, ts[0], path);
      if ok {
        stack, path := stack', path';
      } else {
        stack := [];
      }
    }

    /** Stand on the key if it is stored, else on the last entry below it; everything
        behind that entry is above the key. */
    method GetLeqIt(key: Key) returns (ret: Leq)
      requires Valid()
      modifies `stack, `path
      ensures Valid() && (Finished() <==> ret == ENOENT)
      ensures ret == EOK <==> exists e :: e in EntriesAll(ts) && e.key == key
      ensures ret == EOK ==> EntriesAll(ts)[Pos()].key == key
      ensures ret == PREVIOUS ==> LexLess(EntriesAll(ts)[Pos()].key, key)
      ensures ret == PREVIOUS ==> AllAbove(EntriesAll(ts)[Pos() + 1..], key)
      ensures ret == ENOENT ==> AllAbove(EntriesAll(ts), key)
      ensures LeqSpec(MapOf(EntriesAll(ts)), key, ret,
                      if Finished() then None else Some(EntriesAll(ts)[Pos()].val))
    {
      StandsEmpty(h, tbl, ts);
      if tbl.weight == 0 {
        stack := [];
        return ENOENT;
      }
      ret, stack, path := GetLeqStack(h, tbl.root, key, ts[0]);
      LeqMeaning(ts[0], key, ret, path);
      if ret == PREVIOUS {
        LeqPosition(ts[0], key, ret, path);
      }
      if ret == ENOENT {
        stack := [];
      }
    }

    /** The memory around the iterator was changed by others, but its trie still stands:
        the iterator stands where it stood. */
    method Resume(h': Heap)
      requires Valid() && Stands(h', tbl, ts)
      modifies `h
      ensures Valid() && h == h' && Finished() == old(Finished())
      ensures !Finished() ==> Pos() == old(Pos())
    {
      h := h';
    }
  }

  lemma LeqPosition(t: Tree, key: Key, ret: Leq, p: Path)
    requires WF(t) && LeqAt(t, key, ret, p) && ret == PREVIOUS
    ensures LexLess(At(t, p).key, key) && |Before(t, p)| < |Entries(t)|
    ensures AllAbove(Entries(t)[|Before(t, p)| + 1..], key)
  {
    var x := Entry(At(t, p).key, At(t, p).val);
    EntriesSplit(t, p);
    assert Entries(At(t, p)) == [x];
    assert x in Before(t, p) + [x];
    assert Entries(t)[|Before(t, p)| + 1..] == After(t, p);
  }

  /** Begin and repeated Next visit every stored key once, in ascending order. */
  method VisitAll(h: Heap, tbl: Trie, ghost ts: seq<Tree>) returns (es: seq<Entry>)
    requires Stands(h, tbl, ts)
    ensures es == EntriesAll(ts) && Sorted(es)
  {
    hide WF, Rep, Before, After, Entries, LexLess;
    StandsEmpty(h, tbl, ts);
    if |ts| == 1 {
      EntriesSorted(ts[0]);
    }
    var it := new TrieIt.Begin(h, tbl, ts);
    es := [];
    while !it.Finished()
      invariant fresh(it) && it.Valid() && it.h == h && it.tbl == tbl && it.ts == ts
      invariant !it.Finished() ==> es == EntriesAll(ts)[..it.Pos()]
      invariant it.Finished() ==> es == EntriesAll(ts)
      decreases |EntriesAll(ts)| - |es|
    {
      var e := it.Current();
      es := es + [e];
      it.Next();
    }
  }

  /** Going back undoes going forward. */
  method NextThenPrev(it: TrieIt)
    requires it.Valid() && !it.Finished() && it.Pos() + 1 < |EntriesAll(it.ts)|
    modifies it`stack, it`path
    ensures it.Valid() && !it.Finished() && it.Pos() == old(it.Pos())
  {
    it.Next();
    it.Prev();
  }
}
