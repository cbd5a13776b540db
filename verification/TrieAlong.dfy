/** Trees that differ only in the identities of the objects along one path: what
    pushing the exclusive region down a node stack leaves unchanged. */
module TrieAlong {
  import opened Bytes
  import opened TrieTree
  import opened TrieHeap
  import opened TrieSearch
  import opened TrieRegions

  ghost predicate Along(t: Tree, t': Tree, p: Path)
    decreases |p|
  {
    if |p| == 0 then t' == WithId(t, t'.id)
    else
      && t.Branch? && p[0] < |t.twigs|
      && t'.Branch? && t'.index == t.index && t'.bits == t.bits && |t'.twigs| == |t.twigs|
      && t'.twigs == t.twigs[p[0] := t'.twigs[p[0]]]
      && Along(t.twigs[p[0]], t'.twigs[p[0]], p[1..])
  }

  lemma {:induction false} AlongRefl(t: Tree, p: Path)
    requires ValidPath(t, p)
    ensures Along(t, t, p)
    decreases |p|
  {
    if |p| > 0 {
      AlongRefl(t.twigs[p[0]], p[1..]);
      assert t.twigs[p[0] := t.twigs[p[0]]] == t.twigs;
    }
  }

  lemma {:induction false} AlongTrans(t: Tree, s: Tree, r: Tree, p: Path)
    requires Along(t, s, p) && Along(s, r, p)
    ensures Along(t, r, p)
    decreases |p|
  {
    if |p| > 0 {
      AlongTrans(t.twigs[p[0]], s.twigs[p[0]], r.twigs[p[0]], p[1..]);
    }
  }

  /** Renaming the object of one node on the path. */
  lemma {:induction false} AlongReplace(t: Tree, p: Path, n: nat, id: Id)
    requires ValidPath(t, p) && n <= |p| && ValidPath(t, p[..n])
    ensures Along(t, Replace(t, p[..n], WithId(At(t, p[..n]), id)), p)
    decreases n
  {
    if n == 0 {
      if |p| > 0 {
        AlongRefl(t.twigs[p[0]], p[1..]);
        assert t.twigs[p[0] := t.twigs[p[0]]] == t.twigs;
      }
    } else {
      assert p[..n][1..] == p[1..][..n - 1];
      AlongReplace(t.twigs[p[0]], p[1..], n - 1, id);
    }
  }

  lemma {:induction false} AlongSame(t: Tree, t': Tree, p: Path)
    requires Along(t, t', p)
    ensures ValidPath(t, p) && ValidPath(t', p)
    ensures At(t', p) == WithId(At(t, p), At(t', p).id)
    ensures Before(t', p) == Before(t, p) && After(t', p) == After(t, p)
    ensures Entries(t') == Entries(t)
    decreases |p|
  {
    if |p| > 0 {
      var i := p[0];
      AlongSame(t.twigs[i], t'.twigs[i], p[1..]);
      assert t'.twigs[..i] == t.twigs[..i] && t'.twigs[i + 1..] == t.twigs[i + 1..];
      EntriesAllAt(t.twigs, i);
      EntriesAllAt(t'.twigs, i);
    }
  }

  lemma {:induction false} AlongBelow(t: Tree, t': Tree, p: Path, d: nat)
    requires Along(t, t', p) && ValidPath(t, p) && ValidPath(t', p)
    ensures AncestorsBelow(t', p, d) <==> AncestorsBelow(t, p, d)
    decreases |p|
  {
    if |p| > 0 {
      AlongBelow(t.twigs[p[0]], t'.twigs[p[0]], p[1..], d);
    }
  }

  /** The branching point of a key stays where it is. */
  lemma FoundAlong(t: Tree, t': Tree, key: Key, p: Path, diff: Diff, tbit: nat, kbit: nat)
    requires Along(t, t', p) && ValidPath(t, p) && Found(t, key, p, diff, tbit, kbit)
    ensures ValidPath(t', p) && Found(t', key, p, diff, tbit, kbit)
  {
    AlongSame(t, t', p);
    assert Entries(At(t', p)) == Entries(At(t, p));
    if diff.Differs? {
      AlongBelow(t, t', p, diff.index);
    }
  }

  /** Renaming the object at depth n changes the stack in the entry below it only. */
  lemma {:induction false} StackRenamed(t: Tree, p: Path, n: nat, id: Id)
    requires ValidPath(t, p) && n <= |p| && ValidPath(t, p[..n])
    ensures var t' := Replace(t, p[..n], WithId(At(t, p[..n]), id));
            && ValidPath(t', p)
            && (n == |p| ==> Stack(t', p) == Stack(t, p))
            && (n < |p| ==> Stack(t', p) == Stack(t, p)[n + 1 := TwigSlot(id, p[n])])
            && (n < |p| ==> Stack(t, p)[n + 1] == TwigSlot(At(t, p[..n]).id, p[n]))
    decreases |p|
  {
    var t' := Replace(t, p[..n], WithId(At(t, p[..n]), id));
    AlongReplace(t, p, n, id);
    AlongSame(t, t', p);
    if |p| > 0 {
      PathParent(t, p);
      PathParent(t', p);
      var q := p[..|p| - 1];
      if n < |p| {
        assert p[..n] == q[..n];
        StackRenamed(t, q, n, id);
        if n < |q| {
          AtRenamed(t, q, n, id);
        } else {
          assert q[..n] == q;
          ReplaceAt(t, q, WithId(At(t, q), id));
        }
      } else {
        assert p[..n] == p;
        StackEqual(t, p, WithId(At(t, p), id));
      }
    }
  }

  lemma {:induction false} AtRenamed(t: Tree, q: Path, n: nat, id: Id)
    requires ValidPath(t, q) && n < |q| && ValidPath(t, q[..n])
    ensures var t' := Replace(t, q[..n], WithId(At(t, q[..n]), id));
            ValidPath(t', q) && At(t', q) == At(t, q)
    decreases n
  {
    if n > 0 {
      assert q[..n][1..] == q[1..][..n - 1];
      AtRenamed(t.twigs[q[0]], q[1..], n - 1, id);
    }
  }

  /** Replacing the subtree at a path keeps the stack that leads there. */
  lemma {:induction false} StackEqual(t: Tree, p: Path, u: Tree)
    requires ValidPath(t, p)
    ensures ValidPath(Replace(t, p, u), p)
    ensures Stack(Replace(t, p, u), p) == Stack(t, p) && SlotAt(Replace(t, p, u), p) == SlotAt(t, p)
  {
    ReplaceAt(t, p, u);
    if |p| > 0 {
      PathParent(t, p);
      PathParent(Replace(t, p, u), p);
      PrefixesEqual(t, p, u, |p| - 1);
    }
  }

  lemma {:induction false} PrefixesEqual(t: Tree, p: Path, u: Tree, n: nat)
    requires ValidPath(t, p) && n < |p| && ValidPath(t, p[..n]) && ValidPath(Replace(t, p, u), p[..n])
    ensures Stack(Replace(t, p, u), p[..n]) == Stack(t, p[..n])
    ensures At(Replace(t, p, u), p[..n]).id == At(t, p[..n]).id
    decreases n
  {
    IdKept(t, p, u, n);
    if n > 0 {
      var q := p[..n];
      PathParent(t, q);
      PathParent(Replace(t, p, u), q);
      assert q[..|q| - 1] == p[..n - 1];
      PrefixesEqual(t, p, u, n - 1);
    }
  }

  lemma {:induction false} IdKept(t: Tree, p: Path, u: Tree, n: nat)
    requires ValidPath(t, p) && n < |p| && ValidPath(t, p[..n]) && ValidPath(Replace(t, p, u), p[..n])
    ensures At(Replace(t, p, u), p[..n]).id == At(t, p[..n]).id
    decreases n
  {
    if n > 0 {
      assert p[..n][1..] == p[1..][..n - 1];
      IdKept(t.twigs[p[0]], p[1..], u, n - 1);
    }
  }
}
