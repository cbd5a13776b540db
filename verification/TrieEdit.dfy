/** Local changes of a trie and what they do to the invariant and to the map: a new
    twig in a branch, a new binary branch, a twig removed, a value overwritten. */
module TrieEdit {
  import opened Bytes
  import opened Nibbles
  import opened TrieTree
  import opened TrieSearch
  import opened TrieRegions

  // ---- Replacing a subtree keeps the invariant ----

  /** Every entry of u agrees below n with some entry of c. */
  ghost predicate Fits(u: Tree, c: Tree, n: nat) {
    forall e :: e in Entries(u) ==> exists x :: x in Entries(c) && Agree(e.key, x.key, n)
  }

  lemma FitsReplace(t: Tree, p: Path, u: Tree, n: nat)
    requires ValidPath(t, p) && Fits(u, At(t, p), n)
    ensures Fits(Replace(t, p, u), t, n)
  {
    ReplaceAt(t, p, u);
    EntriesSplit(t, p);
    var t' := Replace(t, p, u);
    EntriesSplit(t', p);
    forall e | e in Entries(t')
      ensures exists x :: x in Entries(t) && Agree(e.key, x.key, n)
    {
      if e in Entries(u) {
        var x :| x in Entries(At(t, p)) && Agree(e.key, x.key, n);
        assert x in Entries(t);
      } else {
        assert e in Entries(t) && Agree(e.key, e.key, n);
      }
    }
  }

  lemma TwigEntry(t: Tree, i: nat, c: Tree, n: nat, j: nat, e: Entry) returns (x: Entry)
    requires WF(t) && t.Branch? && i < |t.twigs| && t.index < n && Fits(c, t.twigs[i], n)
    requires j < |t.twigs| && e in Entries(t.twigs[i := c][j])
    ensures Nib(e.key, t.index) == t.bits[j]
    ensures x in Entries(t) && Agree(e.key, x.key, t.index)
  {
    x := e;
    if j == i {
      x :| x in Entries(t.twigs[i]) && Agree(e.key, x.key, n);
    }
    TwigIn(t, j, x);
  }

  lemma WFTwig(t: Tree, i: nat, c: Tree, n: nat)
    requires WF(t) && t.Branch? && i < |t.twigs| && t.index < n
    requires WF(c) && Fits(c, t.twigs[i], n) && (c.Branch? ==> t.index < c.index)
    ensures WF(t.(twigs := t.twigs[i := c]))
  {
    var ts := t.twigs[i := c];
    var t' := t.(twigs := ts);
    forall j, e | 0 <= j < |ts| && e in Entries(ts[j])
      ensures Nib(e.key, t.index) == t.bits[j]
    {
      var x := TwigEntry(t, i, c, n, j, e);
    }
    forall e, f | e in Entries(t') && f in Entries(t')
      ensures Agree(e.key, f.key, t.index)
    {
      InEntriesAll(ts, e);
      InEntriesAll(ts, f);
      var j :| 0 <= j < |ts| && e in Entries(ts[j]);
      var k :| 0 <= k < |ts| && f in Entries(ts[k]);
      var x := TwigEntry(t, i, c, n, j, e);
      var y := TwigEntry(t, i, c, n, k, f);
      assert Agree(x.key, y.key, t.index);
    }
    forall j | 0 <= j < |ts|
      ensures WF(ts[j]) && (ts[j].Branch? ==> t.index < ts[j].index)
    {
    }
  }

  lemma {:induction false} WFReplace(t: Tree, p: Path, u: Tree, n: nat)
    requires WF(t) && ValidPath(t, p) && AncestorsBelow(t, p, n)
    requires WF(u) && Fits(u, At(t, p), n) && (u.Branch? ==> AncestorsBelow(t, p, u.index))
    ensures WF(Replace(t, p, u))
    decreases |p|
  {
    if |p| > 0 {
      var c := t.twigs[p[0]];
      WFReplace(c, p[1..], u, n);
      FitsReplace(c, p[1..], u, n);
      WFTwig(t, p[0], Replace(c, p[1..], u), n);
    }
  }

  // ---- The edits ----

  ghost function AddTwig(u: Tree, id: Id, bit: nat, leaf: Tree): Tree
    requires u.Branch? && |u.bits| == |u.twigs|
  {
    var s := TwigOff(u.bits, bit);
    Branch(id, u.index, u.bits[..s] + [bit] + u.bits[s..], u.twigs[..s] + [leaf] + u.twigs[s..])
  }

  ghost function NewBranch(u: Tree, id: Id, d: nat, tbit: nat, kbit: nat, leaf: Tree): Tree {
    if kbit < tbit then Branch(id, d, [kbit, tbit], [leaf, u]) else Branch(id, d, [tbit, kbit], [u, leaf])
  }

  ghost function DropTwig(u: Tree, id: Id, i: nat): Tree
    requires u.Branch? && i < |u.twigs| == |u.bits|
  {
    Branch(id, u.index, u.bits[..i] + u.bits[i + 1..], u.twigs[..i] + u.twigs[i + 1..])
  }

  /** The entries of u and one more. */
  ghost predicate OneMore(u: Tree, u': Tree, e: Entry) {
    |Entries(u')| == |Entries(u)| + 1 && forall x :: x in Entries(u') <==> x in Entries(u) || x == e
  }

  lemma IncreasingInsert(bits: seq<nat>, b: nat)
    requires Increasing(bits) && b !in bits
    ensures Increasing(bits[..TwigOff(bits, b)] + [b] + bits[TwigOff(bits, b)..])
  {
    TwigOffIsRank(bits, b);
  }

  lemma AddTwigEntries(u: Tree, id: Id, bit: nat, leaf: Tree)
    requires u.Branch? && |u.bits| == |u.twigs| && leaf.Leaf?
    ensures OneMore(u, AddTwig(u, id, bit, leaf), Entry(leaf.key, leaf.val))
  {
    var s := TwigOff(u.bits, bit);
    var a, b := u.twigs[..s], u.twigs[s..];
    assert u.twigs == a + b;
    EntriesAllConcat(a, b);
    EntriesAllConcat(a, [leaf] + b);
    EntriesAllConcat([leaf], b);
    EntriesAllOne(leaf);
    assert a + [leaf] + b == a + ([leaf] + b);
  }

  lemma AddTwigWF(u: Tree, id: Id, leaf: Tree, x: Entry)
    requires WF(u) && u.Branch? && leaf.Leaf? && x in Entries(u)
    requires Agree(leaf.key, x.key, u.index) && Nib(leaf.key, u.index) !in u.bits
    ensures WF(AddTwig(u, id, Nib(leaf.key, u.index), leaf))
  {
    var bit := Nib(leaf.key, u.index);
    var s := TwigOff(u.bits, bit);
    var u' := AddTwig(u, id, bit, leaf);
    IncreasingInsert(u.bits, bit);
    AddTwigEntries(u, id, bit, leaf);
    forall i | 0 <= i < |u'.twigs|
      ensures if i == s then u'.twigs[i] == leaf && u'.bits[i] == bit
              else exists j :: 0 <= j < |u.twigs| && u'.twigs[i] == u.twigs[j] && u'.bits[i] == u.bits[j]
    {
      if i < s {
        assert u'.twigs[i] == u.twigs[i] && u'.bits[i] == u.bits[i];
      } else if i > s {
        assert u'.twigs[i] == u.twigs[i - 1] && u'.bits[i] == u.bits[i - 1];
      }
    }
  }

  lemma NewBranchEntries(u: Tree, id: Id, d: nat, tbit: nat, kbit: nat, leaf: Tree)
    requires leaf.Leaf?
    ensures OneMore(u, NewBranch(u, id, d, tbit, kbit, leaf), Entry(leaf.key, leaf.val))
  {
    assert [leaf, u] == [leaf] + [u] && [u, leaf] == [u] + [leaf];
    EntriesAllConcat([leaf], [u]);
    EntriesAllConcat([u], [leaf]);
    EntriesAllOne(leaf);
    EntriesAllOne(u);
  }

  lemma NewBranchWF(u: Tree, id: Id, d: nat, leaf: Tree, x: Entry)
    requires WF(u) && leaf.Leaf? && x in Entries(u) && (u.Branch? ==> d < u.index)
    requires Agree(leaf.key, x.key, d) && Nib(leaf.key, d) != Nib(x.key, d)
    ensures WF(NewBranch(u, id, d, Nib(x.key, d), Nib(leaf.key, d), leaf))
  {
    var u' := NewBranch(u, id, d, Nib(x.key, d), Nib(leaf.key, d), leaf);
    NewBranchEntries(u, id, d, Nib(x.key, d), Nib(leaf.key, d), leaf);
    assert Entries(leaf) == [Entry(leaf.key, leaf.val)];
    forall e | e in Entries(u)
      ensures Agree(e.key, x.key, d) && Nib(e.key, d) == Nib(x.key, d)
    {
      if u.Branch? {
        assert Agree(e.key, x.key, u.index);
      }
    }
  }

  /** Removing leaf i of u: exactly its entry goes. */
  ghost predicate OneLess(u: Tree, u': Tree, e: Entry) {
    |Entries(u')| + 1 == |Entries(u)| && forall x :: x in Entries(u') <==> x in Entries(u) && x != e
  }

  lemma DropEntries(u: Tree, i: nat, u': Tree)
    requires WF(u) && u.Branch? && i < |u.twigs| && u.twigs[i].Leaf?
    requires Entries(u') == EntriesAll(u.twigs[..i] + u.twigs[i + 1..])
    ensures OneLess(u, u', Entry(u.twigs[i].key, u.twigs[i].val))
  {
    hide WF, LexLess;
    var e := Entry(u.twigs[i].key, u.twigs[i].val);
    EntriesAllAt(u.twigs, i);
    EntriesAllConcat(u.twigs[..i], u.twigs[i + 1..]);
    EntriesSorted(u);
    var a, b := EntriesAll(u.twigs[..i]), EntriesAll(u.twigs[i + 1..]);
    WithoutOne(a, e, b);
  }

  lemma WithoutOne(a: seq<Entry>, e: Entry, b: seq<Entry>)
    requires Sorted(a + [e] + b)
    ensures forall x :: x in a + b <==> x in a + [e] + b && x != e
  {
    hide LexLess;
    var c := a + [e] + b;
    assert c[|a|] == e;
    LexIrreflexive(e.key);
    forall x | x in a + b
      ensures x != e
    {
      var k :| 0 <= k < |a + b| && (a + b)[k] == x;
      assert c[if k < |a| then k else k + 1] == x;
    }
  }

  lemma DropTwigWF(u: Tree, id: Id, i: nat)
    requires WF(u) && u.Branch? && i < |u.twigs| && |u.twigs| > 2 && u.twigs[i].Leaf?
    ensures WF(DropTwig(u, id, i))
    ensures OneLess(u, DropTwig(u, id, i), Entry(u.twigs[i].key, u.twigs[i].val))
  {
    var u' := DropTwig(u, id, i);
    DropEntries(u, i, u');
    forall j | 0 <= j < |u'.twigs|
      ensures var k := if j < i then j else j + 1; u'.twigs[j] == u.twigs[k] && u'.bits[j] == u.bits[k]
    {
    }
    SomeTwigs(u, u');
  }

  /** Some twigs of a branch, in order, are a branch again. */
  lemma SomeTwigs(u: Tree, u': Tree)
    requires WF(u) && u.Branch? && u'.Branch? && u'.index == u.index
    requires |u'.twigs| == |u'.bits| >= 2 && Increasing(u'.bits)
    requires forall x :: x in Entries(u') ==> x in Entries(u)
    requires forall j :: 0 <= j < |u'.twigs| ==>
               exists k :: 0 <= k < |u.twigs| && u'.twigs[j] == u.twigs[k] && u'.bits[j] == u.bits[k]
    ensures WF(u')
  {
    hide Agree, Nib;
  }

  lemma CollapseEntries(u: Tree, i: nat)
    requires WF(u) && u.Branch? && |u.twigs| == 2 && i < 2 && u.twigs[i].Leaf?
    ensures OneLess(u, u.twigs[1 - i], Entry(u.twigs[i].key, u.twigs[i].val))
  {
    assert u.twigs[..i] + u.twigs[i + 1..] == [u.twigs[1 - i]];
    EntriesAllOne(u.twigs[1 - i]);
    DropEntries(u, i, u.twigs[1 - i]);
  }

  // ---- The map ----

  /** Entries added by an edit are added to the map. */
  lemma MapAdd(es: seq<Entry>, es': seq<Entry>, e: Entry)
    requires Sorted(es) && Sorted(es')
    requires forall x :: x in es' <==> x in es || x == e
    requires forall x :: x in es ==> x.key != e.key
    ensures MapOf(es') == MapOf(es)[e.key := e.val]
  {
    hide LexLess, MapOf;
    MapOfSorted(es);
    MapOfSorted(es');
    var m, m' := MapOf(es), MapOf(es');
    assert e in es';
    forall k
      ensures k in m' <==> k in m || k == e.key
      ensures k in m' && k != e.key ==> m'[k] == m[k]
    {
      if k in m' {
        assert Entry(k, m'[k]) in es';
      }
      if k in m {
        assert Entry(k, m[k]) in es;
        assert Entry(k, m[k]) in es';
      }
    }
  }

  lemma MapRemove(es: seq<Entry>, es': seq<Entry>, e: Entry)
    requires Sorted(es) && Sorted(es') && e in es
    requires forall x :: x in es' <==> x in es && x != e
    ensures MapOf(es') == MapOf(es) - {e.key}
  {
    MapOfSorted(es);
    MapOfSorted(es');
    var m, m' := MapOf(es), MapOf(es');
    forall k
      ensures k in m' <==> k in m && k != e.key
      ensures k in m' ==> m'[k] == m[k]
    {
      if k in m' {
        assert Entry(k, m'[k]) in es';
        assert Entry(k, m'[k]) in es;
      }
      if k in m && k != e.key {
        assert Entry(k, m[k]) in es;
        assert Entry(k, m[k]) in es';
      }
    }
  }

  lemma ReplaceEntries(t: Tree, p: Path, u: Tree)
    requires ValidPath(t, p)
    ensures |Entries(Replace(t, p, u))| == |Entries(t)| - |Entries(At(t, p))| + |Entries(u)|
    ensures forall e :: e in Entries(Replace(t, p, u)) <==> e in Before(t, p) || e in Entries(u) || e in After(t, p)
    ensures forall e :: e in Entries(t) <==> e in Before(t, p) || e in Entries(At(t, p)) || e in After(t, p)
  {
    ReplaceAt(t, p, u);
    EntriesSplit(t, p);
    EntriesSplit(Replace(t, p, u), p);
  }

  /** An edit that adds one entry below p adds it to the map. */
  lemma MapInsert(t: Tree, p: Path, u: Tree, e: Entry)
    requires WF(t) && ValidPath(t, p) && WF(Replace(t, p, u)) && OneMore(At(t, p), u, e)
    requires forall x :: x in Entries(t) ==> x.key != e.key
    ensures MapOf(Entries(Replace(t, p, u))) == MapOf(Entries(t))[e.key := e.val]
    ensures |Entries(Replace(t, p, u))| == |Entries(t)| + 1
  {
    EntriesSorted(t);
    EntriesSorted(Replace(t, p, u));
    ReplaceEntries(t, p, u);
    MapAdd(Entries(t), Entries(Replace(t, p, u)), e);
  }

  /** Entries outside the path have other keys than those below it. */
  lemma OutsideDiffers(t: Tree, p: Path, e: Entry, x: Entry)
    requires WF(t) && ValidPath(t, p) && e in Entries(At(t, p)) && (x in Before(t, p) || x in After(t, p))
    ensures x.key != e.key
  {
    hide WF, LexLess, Entries, Before, After, At;
    EntriesSorted(t);
    EntriesSplit(t, p);
    var b, c, a := Before(t, p), Entries(At(t, p)), After(t, p);
    var i :| 0 <= i < |c| && c[i] == e;
    assert Entries(t)[|b| + i] == e;
    LexIrreflexive(e.key);
    if x in b {
      var j :| 0 <= j < |b| && b[j] == x;
      assert Entries(t)[j] == x;
    } else {
      var j :| 0 <= j < |a| && a[j] == x;
      assert Entries(t)[|b| + |c| + j] == x;
    }
  }

  /** An edit that drops one entry below p removes its key from the map. */
  lemma MapDelete(t: Tree, p: Path, u: Tree, e: Entry)
    requires WF(t) && ValidPath(t, p) && WF(Replace(t, p, u))
    requires e in Entries(At(t, p)) && OneLess(At(t, p), u, e)
    ensures MapOf(Entries(Replace(t, p, u))) == MapOf(Entries(t)) - {e.key}
    ensures |Entries(Replace(t, p, u))| + 1 == |Entries(t)|
  {
    EntriesSorted(t);
    EntriesSorted(Replace(t, p, u));
    ReplaceEntries(t, p, u);
    forall x | x in Before(t, p) || x in After(t, p)
      ensures x != e
    {
      OutsideDiffers(t, p, e, x);
    }
    MapRemove(Entries(t), Entries(Replace(t, p, u)), e);
  }

  /** Overwriting the value of a leaf updates the map at its key. */
  lemma MapUpdate(t: Tree, p: Path, v: Val)
    requires WF(t) && ValidPath(t, p) && At(t, p).Leaf?
    requires WF(Replace(t, p, At(t, p).(val := v)))
    ensures MapOf(Entries(Replace(t, p, At(t, p).(val := v)))) == MapOf(Entries(t))[At(t, p).key := v]
  {
    hide WF, LexLess, MapOf, Replace, At, ValidPath, Before, After;
    var l := At(t, p);
    var t' := Replace(t, p, l.(val := v));
    var e := Entry(l.key, l.val);
    EntriesSorted(t);
    EntriesSorted(t');
    ReplaceEntries(t, p, l.(val := v));
    assert Entries(l) == [e] && Entries(l.(val := v)) == [Entry(l.key, v)];
    assert e in Entries(l);
    var rest: seq<Entry> := Before(t, p) + After(t, p);
    EntriesSplit(t, p);
    SortedWithout(Before(t, p), e, After(t, p));
    forall x: Entry | x in rest
      ensures x.key != l.key
    {
      OutsideDiffers(t, p, e, x);
    }
    MapRemove(Entries(t), rest, e);
    MapAdd(rest, Entries(t'), Entry(l.key, v));
  }

  lemma SortedWithout(b: seq<Entry>, e: Entry, a: seq<Entry>)
    requires Sorted(b + [e] + a)
    ensures Sorted(b + a)
  {
    var es, rest := b + [e] + a, b + a;
    forall i, j | 0 <= i < j < |rest|
      ensures LexLess(rest[i].key, rest[j].key)
    {
      var i' := if i < |b| then i else i + 1;
      var j' := if j < |b| then j else j + 1;
      assert es[i'] == rest[i] && es[j'] == rest[j];
    }
  }
}
