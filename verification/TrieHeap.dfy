/** Trie nodes and the heap objects they own, as trie.c lays them out: a node is a
    leaf (key object, value) or a branch (index, bitmap, twig array), each with its
    own copy-on-write bit; twig arrays and keys are allocated objects. */
module TrieHeap {
  import opened Bytes
  import opened TrieTree

  datatype Node =
    | LeafNode(cow: bool, key: Id, val: Val)
    | BranchNode(cow: bool, index: nat, bits: seq<nat>, twigs: Id)

  datatype Obj =
    | Twigs(nodes: seq<Node>)
    | KeyObj(cow: bool, chars: Key)

  /** Live allocations only: freeing removes an object. */
  type Heap = map<Id, Obj>

  datatype Trie = Trie(root: Node, weight: nat)

  /** A node pointer: the root of a trie, or a position in a twig array. */
  datatype Slot = RootSlot | TwigSlot(arr: Id, pos: nat)

  // ---- Memory ----

  /** mm_alloc: a new object. */
  function Alloc(h: Heap, a: Id, o: Obj): Heap
    requires a !in h
  {
    h[a := o]
  }

  /** mm_free: only a live object can be released. */
  function Free(h: Heap, a: Id): Heap
    requires a in h
  {
    h - {a}
  }

  /** mm_realloc: the object moves, with other contents. */
  function Realloc(h: Heap, a: Id, b: Id, o: Obj): Heap
    requires a in h && b !in h
  {
    Alloc(Free(h, a), b, o)
  }

  function Strip(n: Node): Node {
    n.(cow := false)
  }

  ghost function NodeOf(t: Tree): Node {
    match t
    case Leaf(id, _, v) => LeafNode(false, id, v)
    case Branch(id, x, bs, _) => BranchNode(false, x, bs, id)
  }

  /** The heap holds the objects of tree t, with the contents t says. */
  ghost predicate Rep(h: Heap, t: Tree) {
    && t.id in h
    && match t
       case Leaf(id, k, _) => h[id].KeyObj? && h[id].chars == k
       case Branch(id, _, _, ts) =>
         && h[id].Twigs?
         && |h[id].nodes| == |ts|
         && (forall i :: 0 <= i < |ts| ==> Strip(h[id].nodes[i]) == NodeOf(ts[i]))
         && (forall i :: 0 <= i < |ts| ==> Rep(h, ts[i]))
  }

  lemma {:induction false} RepAt(h: Heap, t: Tree, p: Path)
    requires Rep(h, t) && ValidPath(t, p)
    ensures Rep(h, At(t, p))
    decreases |p|
  {
    if |p| > 0 {
      RepAt(h, t.twigs[p[0]], p[1..]);
    }
  }

  /** A trie structure and the (at most one) tree it stands for. */
  ghost predicate Stands(h: Heap, tbl: Trie, ts: seq<Tree>) {
    && |ts| <= 1
    && tbl.weight == |EntriesAll(ts)|
    && (|ts| == 1 ==> Rep(h, ts[0]) && WF(ts[0]) && tbl.root == NodeOf(ts[0]))
  }

  lemma StandsEmpty(h: Heap, tbl: Trie, ts: seq<Tree>)
    requires Stands(h, tbl, ts)
    ensures tbl.weight == 0 <==> ts == []
    ensures |ts| == 1 ==> EntriesAll(ts) == Entries(ts[0])
  {
    if |ts| == 1 {
      assert ts == [ts[0]];
      EntriesAllOne(ts[0]);
      NonEmpty(ts[0]);
    }
  }

  // ---- Node stacks ----

  ghost function SlotAt(t: Tree, p: Path): Slot
    requires ValidPath(t, p)
  {
    if |p| == 0 then RootSlot
    else
      PathParent(t, p);
      TwigSlot(At(t, p[..|p| - 1]).id, p[|p| - 1])
  }

  /** The stack of node pointers that leads down a path. */
  ghost function Stack(t: Tree, p: Path): (s: seq<Slot>)
    requires ValidPath(t, p)
    ensures |s| == |p| + 1
    decreases |p|
  {
    if |p| == 0 then [RootSlot]
    else
      PathParent(t, p);
      Stack(t, p[..|p| - 1]) + [SlotAt(t, p)]
  }

  predicate ValidSlot(h: Heap, s: Slot) {
    s.TwigSlot? ==> s.arr in h && h[s.arr].Twigs? && s.pos < |h[s.arr].nodes|
  }

  function Load(h: Heap, root: Node, s: Slot): Node
    requires ValidSlot(h, s)
  {
    match s
    case RootSlot => root
    case TwigSlot(a, i) => h[a].nodes[i]
  }

  /** Following the top pointer of a stack reads the node at the end of its path. */
  lemma {:induction false} LoadAt(h: Heap, root: Node, t: Tree, p: Path)
    requires Rep(h, t) && ValidPath(t, p) && Strip(root) == NodeOf(t)
    ensures ValidSlot(h, SlotAt(t, p))
    ensures Strip(Load(h, root, SlotAt(t, p))) == NodeOf(At(t, p))
    ensures Rep(h, At(t, p))
  {
    RepAt(h, t, p);
    if |p| > 0 {
      PathParent(t, p);
      RepAt(h, t, p[..|p| - 1]);
    }
  }

  lemma StackTop(t: Tree, p: Path)
    requires ValidPath(t, p)
    ensures Stack(t, p)[|p|] == SlotAt(t, p)
  {
  }

  lemma StackPush(t: Tree, p: Path, i: nat)
    requires ValidPath(t, p) && At(t, p).Branch? && i < |At(t, p).twigs|
    ensures ValidPath(t, p + [i])
    ensures Stack(t, p + [i]) == Stack(t, p) + [TwigSlot(At(t, p).id, i)]
  {
    PathStep(t, p, i);
    assert (p + [i])[..|p|] == p;
  }

  lemma StackPop(t: Tree, p: Path)
    requires |p| > 0 && ValidPath(t, p)
    ensures ValidPath(t, p[..|p| - 1])
    ensures Stack(t, p)[..|p|] == Stack(t, p[..|p| - 1])
  {
    PathParent(t, p);
  }
}
