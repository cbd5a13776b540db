/** Ownership of heap objects by tries (trie.c, "About copy-on-write"). Everything
    here depends on the tree and on the set F of flagged objects only: marked twig
    arrays and keys whose cow bit is set. */
module TrieRegions {
  import opened TrieTree

  // ---- The objects of a tree ----

  ghost function Ids(t: Tree): set<Id>
    decreases t, 1
  {
    {t.id} + if t.Branch? then IdsAll(t.twigs) else {}
  }

  ghost function IdsAll(ts: seq<Tree>): set<Id>
    decreases ts, 0
  {
    set i, x | 0 <= i < |ts| && x in Ids(ts[i]) :: x
  }

  /** No object is reached twice. */
  ghost predicate NoAlias(t: Tree)
    decreases t, 1
  {
    t.Branch? ==> t.id !in IdsAll(t.twigs) && NoAliasAll(t.twigs)
  }

  ghost predicate NoAliasAll(ts: seq<Tree>)
    decreases ts, 0
  {
    && (forall i :: 0 <= i < |ts| ==> NoAlias(ts[i]))
    && (forall i, j :: 0 <= i < j < |ts| ==> Ids(ts[i]) !! Ids(ts[j]))
  }

  /** The objects of t outside the subtree at p. */
  ghost function CtxIds(t: Tree, p: Path): set<Id>
    requires ValidPath(t, p)
    decreases |p|
  {
    if |p| == 0 then {}
    else {t.id} + IdsAll(t.twigs[..p[0]]) + IdsAll(t.twigs[p[0] + 1..]) + CtxIds(t.twigs[p[0]], p[1..])
  }

  lemma IdsAllCut(ts: seq<Tree>, i: nat)
    requires i < |ts|
    ensures IdsAll(ts) == IdsAll(ts[..i]) + Ids(ts[i]) + IdsAll(ts[i + 1..])
  {
    hide Ids;
    forall x | x in IdsAll(ts)
      ensures x in IdsAll(ts[..i]) + Ids(ts[i]) + IdsAll(ts[i + 1..])
    {
      var j :| 0 <= j < |ts| && x in Ids(ts[j]);
      if j < i {
        assert ts[..i][j] == ts[j];
      } else if j > i {
        assert ts[i + 1..][j - i - 1] == ts[j];
      }
    }
    forall x | x in IdsAll(ts[..i])
      ensures x in IdsAll(ts)
    {
      var j :| 0 <= j < |ts[..i]| && x in Ids(ts[..i][j]);
      assert ts[j] == ts[..i][j];
    }
    forall x | x in IdsAll(ts[i + 1..])
      ensures x in IdsAll(ts)
    {
      var j :| 0 <= j < |ts[i + 1..]| && x in Ids(ts[i + 1..][j]);
      assert ts[i + 1 + j] == ts[i + 1..][j];
    }
  }

  lemma NoAliasCut(ts: seq<Tree>, i: nat)
    requires i < |ts| && NoAliasAll(ts)
    ensures Ids(ts[i]) !! IdsAll(ts[..i]) && Ids(ts[i]) !! IdsAll(ts[i + 1..])
    ensures IdsAll(ts[..i]) !! IdsAll(ts[i + 1..])
  {
    forall x | x in IdsAll(ts[i + 1..])
      ensures x !in Ids(ts[i]) && x !in IdsAll(ts[..i])
    {
      var j :| 0 <= j < |ts[i + 1..]| && x in Ids(ts[i + 1..][j]);
      assert ts[i + 1 + j] == ts[i + 1..][j];
    }
    forall x | x in IdsAll(ts[..i])
      ensures x !in Ids(ts[i])
    {
      var j :| 0 <= j < |ts[..i]| && x in Ids(ts[..i][j]);
      assert ts[j] == ts[..i][j];
    }
  }

  lemma {:induction false} IdsSplit(t: Tree, p: Path)
    requires ValidPath(t, p)
    ensures Ids(t) == CtxIds(t, p) + Ids(At(t, p))
    ensures NoAlias(t) ==> NoAlias(At(t, p)) && CtxIds(t, p) !! Ids(At(t, p))
    decreases |p|
  {
    if |p| > 0 {
      IdsAllCut(t.twigs, p[0]);
      IdsSplit(t.twigs[p[0]], p[1..]);
      if NoAlias(t) {
        IdsSplitDisjoint(t, p);
      }
    }
  }

  lemma IdsSplitDisjoint(t: Tree, p: Path)
    requires ValidPath(t, p) && |p| > 0 && NoAlias(t)
    requires Ids(t.twigs[p[0]]) == CtxIds(t.twigs[p[0]], p[1..]) + Ids(At(t, p))
    requires CtxIds(t.twigs[p[0]], p[1..]) !! Ids(At(t, p))
    ensures CtxIds(t, p) !! Ids(At(t, p))
  {
    hide At, Ids;
    IdsAllCut(t.twigs, p[0]);
    NoAliasCut(t.twigs, p[0]);
  }

  /** Nodes at different depths of one path own different objects. */
  lemma PathIdsDiffer(t: Tree, q: Path, r: Path)
    requires NoAlias(t) && ValidPath(t, q) && ValidPath(t, r) && |q| < |r| && q == r[..|q|]
    ensures At(t, q).id != At(t, r).id
    decreases |q|
  {
    if |q| == 0 {
      IdsSplit(t, r);
      assert t.id in CtxIds(t, r);
    } else {
      PathIdsDiffer(t.twigs[q[0]], q[1..], r[1..]);
    }
  }

  // ---- Replacing a subtree ----

  ghost function Replace(t: Tree, p: Path, u: Tree): Tree
    requires ValidPath(t, p)
    decreases |p|
  {
    if |p| == 0 then u
    else t.(twigs := t.twigs[p[0] := Replace(t.twigs[p[0]], p[1..], u)])
  }

  lemma {:induction false} ReplaceAt(t: Tree, p: Path, u: Tree)
    requires ValidPath(t, p)
    ensures ValidPath(Replace(t, p, u), p)
    ensures At(Replace(t, p, u), p) == u
    ensures CtxIds(Replace(t, p, u), p) == CtxIds(t, p)
    ensures Before(Replace(t, p, u), p) == Before(t, p)
    ensures After(Replace(t, p, u), p) == After(t, p)
    decreases |p|
  {
    if |p| > 0 {
      ReplaceAt(t.twigs[p[0]], p[1..], u);
      var ts := t.twigs[p[0] := Replace(t.twigs[p[0]], p[1..], u)];
      assert ts[..p[0]] == t.twigs[..p[0]] && ts[p[0] + 1..] == t.twigs[p[0] + 1..];
    }
  }

  lemma NoAliasUpdate(ts: seq<Tree>, i: nat, c: Tree)
    requires i < |ts| && NoAliasAll(ts) && NoAlias(c)
    requires Ids(c) !! IdsAll(ts[..i]) && Ids(c) !! IdsAll(ts[i + 1..])
    ensures NoAliasAll(ts[i := c])
    ensures IdsAll(ts[i := c]) == IdsAll(ts[..i]) + Ids(c) + IdsAll(ts[i + 1..])
  {
    var us := ts[i := c];
    IdsAllCut(us, i);
    assert us[..i] == ts[..i] && us[i + 1..] == ts[i + 1..];
    forall j | 0 <= j < |us| && j != i
      ensures Ids(us[j]) !! Ids(c)
    {
      if j < i {
        assert ts[..i][j] == us[j];
        assert Ids(us[j]) <= IdsAll(ts[..i]);
      } else {
        assert ts[i + 1..][j - i - 1] == us[j];
        assert Ids(us[j]) <= IdsAll(ts[i + 1..]);
      }
    }
  }

  lemma NoAliasTwig(t: Tree, i: nat, c: Tree)
    requires NoAlias(t) && t.Branch? && i < |t.twigs| && NoAlias(c)
    requires Ids(c) !! {t.id} + IdsAll(t.twigs[..i]) + IdsAll(t.twigs[i + 1..])
    ensures NoAlias(t.(twigs := t.twigs[i := c]))
    ensures Ids(t.(twigs := t.twigs[i := c])) == {t.id} + IdsAll(t.twigs[..i]) + IdsAll(t.twigs[i + 1..]) + Ids(c)
  {
    IdsAllCut(t.twigs, i);
    NoAliasUpdate(t.twigs, i, c);
  }

  lemma {:induction false} NoAliasReplace(t: Tree, p: Path, u: Tree)
    requires ValidPath(t, p) && NoAlias(t) && NoAlias(u) && Ids(u) !! CtxIds(t, p)
    ensures NoAlias(Replace(t, p, u))
    ensures Ids(Replace(t, p, u)) == CtxIds(t, p) + Ids(u)
    decreases |p|
  {
    if |p| > 0 {
      var i, c := p[0], t.twigs[p[0]];
      var rest := {t.id} + IdsAll(t.twigs[..i]) + IdsAll(t.twigs[i + 1..]);
      NoAliasReplace(c, p[1..], u);
      assert CtxIds(c, p[1..]) !! rest by {
        IdsSplit(c, p[1..]);
        IdsAllCut(t.twigs, i);
        NoAliasCut(t.twigs, i);
      }
      NoAliasTwig(t, i, Replace(c, p[1..], u));
    }
  }

  // ---- Regions ----

  /** The exclusively owned region: reached without passing a flagged object. */
  ghost function Own(F: set<Id>, t: Tree): set<Id>
    decreases t, 1
  {
    if t.id in F then {} else {t.id} + if t.Branch? then OwnAll(F, t.twigs) else {}
  }

  ghost function OwnAll(F: set<Id>, ts: seq<Tree>): set<Id>
    decreases ts, 0
  {
    set i, x | 0 <= i < |ts| && x in Own(F, ts[i]) :: x
  }

  /** The frontier: the first flagged subtree on each way down. */
  ghost function Fr(F: set<Id>, t: Tree): set<Tree>
    decreases t, 1
  {
    if t.id in F then {t} else if t.Branch? then FrAll(F, t.twigs) else {}
  }

  ghost function FrAll(F: set<Id>, ts: seq<Tree>): set<Tree>
    decreases ts, 0
  {
    set i, x | 0 <= i < |ts| && x in Fr(F, ts[i]) :: x
  }

  /** At most one flagged object on each way down. */
  ghost predicate Proper(F: set<Id>, t: Tree)
    decreases t, 1
  {
    t.Branch? ==>
      if t.id in F then IdsAll(t.twigs) !! F else ProperAll(F, t.twigs)
  }

  ghost predicate ProperAll(F: set<Id>, ts: seq<Tree>)
    decreases ts, 0
  {
    forall i :: 0 <= i < |ts| ==> Proper(F, ts[i])
  }

  ghost function ObjectsOf(ms: set<Tree>): set<Id> {
    set m, x | m in ms && x in Ids(m) :: x
  }

  ghost function RootsOf(ms: set<Tree>): set<Id> {
    set m | m in ms :: m.id
  }

  lemma {:induction false} OwnInIds(F: set<Id>, t: Tree)
    ensures Own(F, t) <= Ids(t)
    ensures ObjectsOf(Fr(F, t)) <= Ids(t)
    decreases t
  {
    if t.Branch? && t.id !in F {
      forall i | 0 <= i < |t.twigs|
        ensures Own(F, t.twigs[i]) <= Ids(t.twigs[i]) && ObjectsOf(Fr(F, t.twigs[i])) <= Ids(t.twigs[i])
      {
        OwnInIds(F, t.twigs[i]);
      }
      forall x | x in ObjectsOf(Fr(F, t))
        ensures x in Ids(t)
      {
        var m :| m in Fr(F, t) && x in Ids(m);
        var i := TwigOfFrontier(F, t, m);
        assert x in ObjectsOf(Fr(F, t.twigs[i]));
        assert x in Ids(t.twigs[i]);
      }
    }
  }

  lemma TwigOfFrontier(F: set<Id>, t: Tree, m: Tree) returns (i: nat)
    requires t.Branch? && t.id !in F && m in Fr(F, t)
    ensures i < |t.twigs| && m in Fr(F, t.twigs[i])
  {
    assert m in FrAll(F, t.twigs);
    i :| i < |t.twigs| && m in Fr(F, t.twigs[i]);
  }

  lemma {:induction false} IdsCovered(F: set<Id>, t: Tree)
    ensures Ids(t) == Own(F, t) + ObjectsOf(Fr(F, t))
    decreases t
  {
    OwnInIds(F, t);
    if t.Branch? && t.id !in F {
      forall x | x in Ids(t) && x != t.id
        ensures x in Own(F, t) + ObjectsOf(Fr(F, t))
      {
        var i :| 0 <= i < |t.twigs| && x in Ids(t.twigs[i]);
        IdsCovered(F, t.twigs[i]);
        if x in ObjectsOf(Fr(F, t.twigs[i])) {
          var m :| m in Fr(F, t.twigs[i]) && x in Ids(m);
          assert m in Fr(F, t);
        }
      }
    }
  }

  lemma ElsewhereNotOwned(F: set<Id>, ts: seq<Tree>, i: nat, x: Id)
    requires NoAliasAll(ts) && i < |ts| && x in Ids(ts[i]) && x !in Own(F, ts[i])
    ensures x !in OwnAll(F, ts)
  {
    forall j | 0 <= j < |ts| && j != i
      ensures x !in Own(F, ts[j])
    {
      OwnInIds(F, ts[j]);
      assert Ids(ts[i]) !! Ids(ts[j]);
    }
  }

  /** Every object is either owned exclusively or below the frontier, never both. */
  lemma {:induction false} Decompose(F: set<Id>, t: Tree)
    requires NoAlias(t)
    ensures Ids(t) == Own(F, t) + ObjectsOf(Fr(F, t))
    ensures Own(F, t) !! ObjectsOf(Fr(F, t))
    decreases t
  {
    IdsCovered(F, t);
    if t.Branch? && t.id !in F {
      forall m, x | m in Fr(F, t) && x in Ids(m)
        ensures x !in Own(F, t)
      {
        var i :| 0 <= i < |t.twigs| && m in Fr(F, t.twigs[i]);
        var c := t.twigs[i];
        assert x in ObjectsOf(Fr(F, c));
        Decompose(F, c);
        ElsewhereNotOwned(F, t.twigs, i, x);
        assert x in IdsAll(t.twigs);
      }
    }
  }

  /** In a proper tree the flagged objects are exactly the roots of the frontier. */
  lemma {:induction false} FlagsAreFrontier(F: set<Id>, t: Tree)
    requires Proper(F, t)
    ensures Ids(t) * F == RootsOf(Fr(F, t))
    decreases t
  {
    if t.Leaf? || t.id in F {
    } else {
      forall i | 0 <= i < |t.twigs|
        ensures Ids(t.twigs[i]) * F == RootsOf(Fr(F, t.twigs[i]))
      {
        FlagsAreFrontier(F, t.twigs[i]);
      }
      forall x | x in Ids(t) * F
        ensures x in RootsOf(Fr(F, t))
      {
        var i :| 0 <= i < |t.twigs| && x in Ids(t.twigs[i]);
        assert x in RootsOf(Fr(F, t.twigs[i]));
        var m :| m in Fr(F, t.twigs[i]) && m.id == x;
        assert m in Fr(F, t);
      }
      forall x | x in RootsOf(Fr(F, t))
        ensures x in Ids(t) * F
      {
        var m :| m in Fr(F, t) && m.id == x;
        var i :| 0 <= i < |t.twigs| && m in Fr(F, t.twigs[i]);
        assert x in RootsOf(Fr(F, t.twigs[i]));
      }
    }
  }

  /** Regions of a tree do not depend on flags of other objects. */
  lemma {:induction false} RegionFrame(F: set<Id>, G: set<Id>, t: Tree)
    requires Ids(t) * F == Ids(t) * G
    ensures Own(F, t) == Own(G, t) && Fr(F, t) == Fr(G, t)
    ensures Proper(F, t) <==> Proper(G, t)
    decreases t
  {
    assert t.id in Ids(t) * F <==> t.id in F;
    assert t.id in Ids(t) * G <==> t.id in G;
    if t.Branch? {
      if t.id in F {
        forall x | x in IdsAll(t.twigs)
          ensures x in F <==> x in G
        {
          assert x in Ids(t) * F <==> x in F;
          assert x in Ids(t) * G <==> x in G;
        }
      } else {
        forall i | 0 <= i < |t.twigs|
          ensures Own(F, t.twigs[i]) == Own(G, t.twigs[i]) && Fr(F, t.twigs[i]) == Fr(G, t.twigs[i])
          ensures Proper(F, t.twigs[i]) <==> Proper(G, t.twigs[i])
        {
          forall x | x in Ids(t.twigs[i])
            ensures x in F <==> x in G
          {
            assert x in IdsAll(t.twigs);
            assert x in Ids(t) * F <==> x in F;
            assert x in Ids(t) * G <==> x in G;
          }
          RegionFrame(F, G, t.twigs[i]);
        }
      }
    }
  }

  lemma RegionFrameAll(F: set<Id>, G: set<Id>, ts: seq<Tree>)
    requires IdsAll(ts) * F == IdsAll(ts) * G
    ensures OwnAll(F, ts) == OwnAll(G, ts) && FrAll(F, ts) == FrAll(G, ts)
    ensures ProperAll(F, ts) <==> ProperAll(G, ts)
  {
    forall i | 0 <= i < |ts|
      ensures Own(F, ts[i]) == Own(G, ts[i]) && Fr(F, ts[i]) == Fr(G, ts[i])
      ensures Proper(F, ts[i]) <==> Proper(G, ts[i])
    {
      forall x | x in Ids(ts[i])
        ensures x in F <==> x in G
      {
        assert x in IdsAll(ts);
        assert x in IdsAll(ts) * F <==> x in F;
        assert x in IdsAll(ts) * G <==> x in G;
      }
      RegionFrame(F, G, ts[i]);
    }
  }

  // ---- Regions around a path ----

  /** No branch strictly above the end of the path is flagged. */
  ghost predicate Open(F: set<Id>, t: Tree, p: Path)
    requires ValidPath(t, p)
    decreases |p|
  {
    |p| > 0 ==> t.id !in F && Open(F, t.twigs[p[0]], p[1..])
  }

  ghost function CtxOwn(F: set<Id>, t: Tree, p: Path): set<Id>
    requires ValidPath(t, p)
    decreases |p|
  {
    if |p| == 0 then {}
    else {t.id} + OwnAll(F, t.twigs[..p[0]]) + OwnAll(F, t.twigs[p[0] + 1..]) + CtxOwn(F, t.twigs[p[0]], p[1..])
  }

  ghost function CtxFr(F: set<Id>, t: Tree, p: Path): set<Tree>
    requires ValidPath(t, p)
    decreases |p|
  {
    if |p| == 0 then {}
    else FrAll(F, t.twigs[..p[0]]) + FrAll(F, t.twigs[p[0] + 1..]) + CtxFr(F, t.twigs[p[0]], p[1..])
  }

  lemma RegionAllCut(F: set<Id>, ts: seq<Tree>, i: nat)
    requires i < |ts|
    ensures OwnAll(F, ts) == OwnAll(F, ts[..i]) + Own(F, ts[i]) + OwnAll(F, ts[i + 1..])
    ensures FrAll(F, ts) == FrAll(F, ts[..i]) + Fr(F, ts[i]) + FrAll(F, ts[i + 1..])
  {
    forall x
      ensures x in OwnAll(F, ts) <==> x in OwnAll(F, ts[..i]) + Own(F, ts[i]) + OwnAll(F, ts[i + 1..])
    {
      if x in OwnAll(F, ts) {
        var j :| 0 <= j < |ts| && x in Own(F, ts[j]);
        if j < i {
          assert x in Own(F, ts[..i][j]);
        } else if j > i {
          assert x in Own(F, ts[i + 1..][j - i - 1]);
        }
      }
    }
    forall x
      ensures x in FrAll(F, ts) <==> x in FrAll(F, ts[..i]) + Fr(F, ts[i]) + FrAll(F, ts[i + 1..])
    {
      if x in FrAll(F, ts) {
        var j :| 0 <= j < |ts| && x in Fr(F, ts[j]);
        if j < i {
          assert x in Fr(F, ts[..i][j]);
        } else if j > i {
          assert x in Fr(F, ts[i + 1..][j - i - 1]);
        }
      }
    }
  }

  lemma {:induction false} OwnSplit(F: set<Id>, t: Tree, p: Path)
    requires ValidPath(t, p) && Open(F, t, p)
    ensures Own(F, t) == CtxOwn(F, t, p) + Own(F, At(t, p))
    decreases |p|
  {
    if |p| > 0 {
      OwnSplit(F, t.twigs[p[0]], p[1..]);
      RegionAllCut(F, t.twigs, p[0]);
      assert Own(F, t) == {t.id} + OwnAll(F, t.twigs);
    }
  }

  lemma {:induction false} FrSplit(F: set<Id>, t: Tree, p: Path)
    requires ValidPath(t, p) && Open(F, t, p)
    ensures Fr(F, t) == CtxFr(F, t, p) + Fr(F, At(t, p))
    decreases |p|
  {
    if |p| > 0 {
      FrSplit(F, t.twigs[p[0]], p[1..]);
      RegionAllCut(F, t.twigs, p[0]);
      assert Fr(F, t) == FrAll(F, t.twigs);
    }
  }

  lemma {:induction false} ProperAt(F: set<Id>, t: Tree, p: Path)
    requires ValidPath(t, p) && Open(F, t, p) && Proper(F, t)
    ensures Proper(F, At(t, p))
    decreases |p|
  {
    if |p| > 0 {
      ProperAt(F, t.twigs[p[0]], p[1..]);
    }
  }

  lemma {:induction false} CtxReplace(F: set<Id>, t: Tree, p: Path, u: Tree)
    requires ValidPath(t, p) && Open(F, t, p)
    ensures ValidPath(Replace(t, p, u), p) && Open(F, Replace(t, p, u), p)
    ensures CtxOwn(F, Replace(t, p, u), p) == CtxOwn(F, t, p)
    ensures CtxFr(F, Replace(t, p, u), p) == CtxFr(F, t, p)
    decreases |p|
  {
    if |p| > 0 {
      CtxReplace(F, t.twigs[p[0]], p[1..], u);
      var ts := t.twigs[p[0] := Replace(t.twigs[p[0]], p[1..], u)];
      assert ts[..p[0]] == t.twigs[..p[0]] && ts[p[0] + 1..] == t.twigs[p[0] + 1..];
    }
  }

  lemma {:induction false} ProperReplace(F: set<Id>, t: Tree, p: Path, u: Tree)
    requires ValidPath(t, p) && Open(F, t, p) && Proper(F, t) && Proper(F, u)
    ensures Proper(F, Replace(t, p, u))
    decreases |p|
  {
    if |p| > 0 {
      ProperReplace(F, t.twigs[p[0]], p[1..], u);
    }
  }

  /** Replacing the subtree at the end of an open path changes only its share. */
  lemma RegionReplace(F: set<Id>, t: Tree, p: Path, u: Tree)
    requires ValidPath(t, p) && Open(F, t, p)
    ensures ValidPath(Replace(t, p, u), p) && Open(F, Replace(t, p, u), p)
    ensures Own(F, Replace(t, p, u)) == CtxOwn(F, t, p) + Own(F, u)
    ensures Fr(F, Replace(t, p, u)) == CtxFr(F, t, p) + Fr(F, u)
  {
    CtxReplace(F, t, p, u);
    ReplaceAt(t, p, u);
    OwnSplit(F, Replace(t, p, u), p);
    FrSplit(F, Replace(t, p, u), p);
  }

  lemma {:induction false} CtxFrame(F: set<Id>, G: set<Id>, t: Tree, p: Path)
    requires ValidPath(t, p) && Open(F, t, p)
    requires CtxIds(t, p) * F == CtxIds(t, p) * G
    ensures Open(G, t, p)
    ensures CtxOwn(F, t, p) == CtxOwn(G, t, p) && CtxFr(F, t, p) == CtxFr(G, t, p)
    decreases |p|
  {
    if |p| > 0 {
      var c := CtxIds(t, p);
      assert forall x :: x in c ==> (x in F <==> x in c * F) && (x in G <==> x in c * G);
      assert t.id in c;
      RegionFrameAll(F, G, t.twigs[..p[0]]);
      RegionFrameAll(F, G, t.twigs[p[0] + 1..]);
      CtxFrame(F, G, t.twigs[p[0]], p[1..]);
    }
  }

  lemma {:induction false} CtxInIds(F: set<Id>, t: Tree, p: Path)
    requires ValidPath(t, p)
    ensures CtxOwn(F, t, p) <= CtxIds(t, p)
    ensures ObjectsOf(CtxFr(F, t, p)) <= CtxIds(t, p)
    decreases |p|
  {
    if |p| > 0 {
      OwnAllInIds(F, t.twigs[..p[0]]);
      OwnAllInIds(F, t.twigs[p[0] + 1..]);
      CtxInIds(F, t.twigs[p[0]], p[1..]);
      forall x | x in ObjectsOf(CtxFr(F, t, p))
        ensures x in CtxIds(t, p)
      {
        var m :| m in CtxFr(F, t, p) && x in Ids(m);
        if m in FrAll(F, t.twigs[..p[0]]) {
          assert x in ObjectsOf(FrAll(F, t.twigs[..p[0]]));
        } else if m in FrAll(F, t.twigs[p[0] + 1..]) {
          assert x in ObjectsOf(FrAll(F, t.twigs[p[0] + 1..]));
        } else {
          assert x in ObjectsOf(CtxFr(F, t.twigs[p[0]], p[1..]));
        }
      }
    }
  }

  lemma OwnAllInIds(F: set<Id>, ts: seq<Tree>)
    ensures OwnAll(F, ts) <= IdsAll(ts)
    ensures ObjectsOf(FrAll(F, ts)) <= IdsAll(ts)
  {
    forall i | 0 <= i < |ts|
      ensures Own(F, ts[i]) <= Ids(ts[i]) && ObjectsOf(Fr(F, ts[i])) <= Ids(ts[i])
    {
      OwnInIds(F, ts[i]);
    }
    forall x | x in ObjectsOf(FrAll(F, ts))
      ensures x in IdsAll(ts)
    {
      var m :| m in FrAll(F, ts) && x in Ids(m);
      var i :| 0 <= i < |ts| && m in Fr(F, ts[i]);
      assert x in ObjectsOf(Fr(F, ts[i]));
    }
  }

  /** A frontier subtree is reached by a path of unflagged branches. */
  lemma {:induction false} FrontierPath(F: set<Id>, t: Tree, m: Tree) returns (p: Path)
    requires m in Fr(F, t)
    ensures ValidPath(t, p) && Open(F, t, p) && At(t, p) == m && m.id in F
    decreases t
  {
    if t.id in F {
      p := [];
    } else {
      var i :| 0 <= i < |t.twigs| && m in Fr(F, t.twigs[i]);
      var q := FrontierPath(F, t.twigs[i], m);
      p := [i] + q;
      assert p[1..] == q;
    }
  }

  // ---- Pushing the exclusive region down ----

  ghost function KidIds(m: Tree): set<Id> {
    if m.Branch? then set i | 0 <= i < |m.twigs| :: m.twigs[i].id else {}
  }

  ghost function Kids(m: Tree): set<Tree> {
    if m.Branch? then set i | 0 <= i < |m.twigs| :: m.twigs[i] else {}
  }

  /** Flags after the region has been pushed below m. */
  ghost function Pushed(F: set<Id>, m: Tree): set<Id> {
    F - {m.id} + KidIds(m)
  }

  lemma KidInIds(m: Tree, i: nat)
    requires m.Branch? && i < |m.twigs|
    ensures m.twigs[i].id in IdsAll(m.twigs)
  {
    assert m.twigs[i].id in Ids(m.twigs[i]);
  }

  lemma KidIdsIn(m: Tree)
    ensures KidIds(m) <= Ids(m)
  {
    forall x | x in KidIds(m)
      ensures x in Ids(m)
    {
      var i :| 0 <= i < |m.twigs| && m.twigs[i].id == x;
      KidInIds(m, i);
    }
  }

  /** Below a pushed-down object every twig is a frontier subtree; c has m's twigs. */
  lemma {:induction false} PushedTop(F: set<Id>, m: Tree, c: Tree)
    requires NoAlias(m) && Proper(F, m) && m.id in F
    requires c.Branch? == m.Branch? && (m.Branch? ==> c.twigs == m.twigs)
    requires c.id == m.id || c.id !in F + Ids(m)
    ensures Own(Pushed(F, m), c) == {c.id}
    ensures Fr(Pushed(F, m), c) == Kids(m)
    ensures Proper(Pushed(F, m), c)
  {
    var G := Pushed(F, m);
    KidIdsIn(m);
    assert c.id !in G by {
      if m.Branch? && c.id in KidIds(m) {
        var i :| 0 <= i < |m.twigs| && m.twigs[i].id == c.id;
        KidInIds(m, i);
      }
    }
    if m.Branch? {
      forall i | 0 <= i < |m.twigs|
        ensures Own(G, m.twigs[i]) == {} && Fr(G, m.twigs[i]) == {m.twigs[i]} && Proper(G, m.twigs[i])
      {
        var k := m.twigs[i];
        assert NoAlias(k);
        assert k.id in KidIds(m);
        if k.Branch? {
          forall x | x in IdsAll(k.twigs)
            ensures x !in G
          {
            assert x in Ids(k) && x in IdsAll(m.twigs);
          }
        }
      }
    }
  }

  /** Pushing down at a frontier subtree m of t: m becomes exclusively owned, its
      twigs take its place on the frontier. */
  lemma {:induction false} PushFrontier(F: set<Id>, t: Tree, m: Tree)
    requires NoAlias(t) && Proper(F, t) && m in Fr(F, t)
    ensures Own(Pushed(F, m), t) == Own(F, t) + {m.id}
    ensures Fr(Pushed(F, m), t) == Fr(F, t) - {m} + Kids(m)
    ensures Proper(Pushed(F, m), t)
  {
    var p := FrontierPath(F, t, m);
    PushAt(F, t, p, m);
    ReplaceSame(t, p);
  }

  /** Pushing down at the end of an open path whose subtree is flagged. */
  lemma {:induction false} PushCtx(F: set<Id>, t: Tree, p: Path)
    requires NoAlias(t) && Proper(F, t) && ValidPath(t, p) && Open(F, t, p) && At(t, p).id in F
    ensures NoAlias(At(t, p)) && Proper(F, At(t, p))
    ensures Open(Pushed(F, At(t, p)), t, p)
    ensures CtxOwn(Pushed(F, At(t, p)), t, p) == Own(F, t)
    ensures CtxFr(Pushed(F, At(t, p)), t, p) == Fr(F, t) - {At(t, p)}
  {
    var m := At(t, p);
    IdsSplit(t, p);
    OwnSplit(F, t, p);
    FrSplit(F, t, p);
    ProperAt(F, t, p);
    KidIdsIn(m);
    CtxFrame(F, Pushed(F, m), t, p);
    CtxInIds(F, t, p);
  }

  /** The same at a known path, with the subtree there replaced by a copy c. */
  lemma {:induction false} PushAt(F: set<Id>, t: Tree, p: Path, c: Tree)
    requires NoAlias(t) && Proper(F, t) && ValidPath(t, p) && Open(F, t, p) && At(t, p).id in F
    requires c.Branch? == At(t, p).Branch? && (c.Branch? ==> c.twigs == At(t, p).twigs)
    requires c == At(t, p) || c.id !in F + Ids(t)
    ensures Own(Pushed(F, At(t, p)), Replace(t, p, c)) == Own(F, t) + {c.id}
    ensures Fr(Pushed(F, At(t, p)), Replace(t, p, c)) == Fr(F, t) - {At(t, p)} + Kids(At(t, p))
    ensures Proper(Pushed(F, At(t, p)), Replace(t, p, c))
  {
    var m := At(t, p);
    PushCtx(F, t, p);
    IdsSplit(t, p);
    PushedTop(F, m, c);
    RegionReplace(Pushed(F, m), t, p, c);
    ProperPushed(F, t, p, m);
    ProperReplace(Pushed(F, m), t, p, c);
  }

  lemma {:induction false} ReplaceSame(t: Tree, p: Path)
    requires ValidPath(t, p)
    ensures Replace(t, p, At(t, p)) == t
    decreases |p|
  {
    if |p| > 0 {
      ReplaceSame(t.twigs[p[0]], p[1..]);
      assert t.twigs[p[0] := t.twigs[p[0]]] == t.twigs;
    }
  }

  lemma {:induction false} ProperPushed(F: set<Id>, t: Tree, p: Path, m: Tree)
    requires NoAlias(t) && Proper(F, t) && ValidPath(t, p) && Open(F, t, p)
    requires m == At(t, p) && m.id in F && Proper(F, m) && NoAlias(m)
    requires Open(Pushed(F, m), t, p)
    ensures Proper(Pushed(F, m), t)
    decreases |p|
  {
    var G := Pushed(F, m);
    KidIdsIn(m);
    if |p| == 0 {
      PushedTop(F, m, m);
    } else {
      ProperPushed(F, t.twigs[p[0]], p[1..], m);
      IdsSplit(t.twigs[p[0]], p[1..]);
      forall i | 0 <= i < |t.twigs|
        ensures Proper(G, t.twigs[i])
      {
        if i != p[0] {
          assert Ids(t.twigs[i]) !! Ids(m);
          RegionFrame(F, G, t.twigs[i]);
        }
      }
    }
  }
}
