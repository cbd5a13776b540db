/** Octet buffers in memory: moves within a buffer, and the allocator (mempattern.c) that
    the library's operations are handed. */
module Memory {
  import opened Bytes

  /** memmove: source and destination may overlap. */
  method MemMove(a: array<Byte>, dst: nat, src: nat, n: nat)
    requires src + n <= a.Length && dst + n <= a.Length
    modifies a
    ensures a[dst..dst + n] == old(a[src..src + n])
    ensures a[..dst] == old(a[..dst]) && a[dst + n..] == old(a[dst + n..])
  {
    if src <= dst {
      MoveUp(a, dst, src, n);
    } else {
      MoveDown(a, dst, src, n);
    }
  }

  method MoveUp(a: array<Byte>, dst: nat, src: nat, n: nat)
    requires src <= dst && dst + n <= a.Length
    modifies a
    ensures a[dst..dst + n] == old(a[src..src + n])
    ensures a[..dst] == old(a[..dst]) && a[dst + n..] == old(a[dst + n..])
  {
    var i := n;
    while i > 0
      invariant 0 <= i <= n
      invariant forall k :: dst + i <= k < dst + n ==> a[k] == old(a[k - dst + src])
      invariant forall k :: (0 <= k < dst + i || dst + n <= k < a.Length) ==> a[k] == old(a[k])
    {
      i := i - 1;
      a[dst + i] := a[src + i];
    }
  }

  method MoveDown(a: array<Byte>, dst: nat, src: nat, n: nat)
    requires dst <= src && src + n <= a.Length
    modifies a
    ensures a[dst..dst + n] == old(a[src..src + n])
    ensures a[..dst] == old(a[..dst]) && a[dst + n..] == old(a[dst + n..])
  {
    var i := 0;
    while i < n
      invariant 0 <= i <= n
      invariant a[dst..dst + i] == old(a[src..src + n])[..i]
      invariant forall k :: (0 <= k < dst || dst + i <= k < a.Length) ==> a[k] == old(a[k])
    {
      a[dst + i] := a[src + i];
      i := i + 1;
    }
  }

  method MemCpy(a: array<Byte>, dst: nat, b: Key)
    requires dst + |b| <= a.Length
    modifies a
    ensures a[dst..dst + |b|] == b
    ensures a[..dst] == old(a[..dst]) && a[dst + |b|..] == old(a[dst + |b|..])
  {
    var i := 0;
    while i < |b|
      invariant 0 <= i <= |b|
      invariant a[dst..dst + i] == b[..i]
      invariant forall k :: (0 <= k < dst || dst + i <= k < a.Length) ==> a[k] == old(a[k])
    {
      a[dst + i] := b[i];
      i := i + 1;
    }
  }

  /** The buffer behind a pointer that may be null. */
  ghost function At(a: array?<Byte>): set<array<Byte>> {
    if a == null then {} else {a}
  }

  /** An allocator: the buffers handed out and not released. Releasing, and reading
      through Read, demands such a buffer. */
  class Mm {
    ghost var live: set<array<Byte>>

    constructor ()
      ensures live == {}
    {
      live := {};
    }

    method Alloc(size: nat) returns (p: array<Byte>)
      modifies this
      ensures fresh(p) && p.Length == size && live == old(live) + {p}
    {
      p := new Byte[size];
      live := live + {p};
    }

    method Free(what: array?<Byte>)
      requires At(what) <= live
      modifies this
      ensures live == old(live) - At(what)
    {
      live := live - At(what);
    }

    /** mm_realloc: the buffer moves, whether it grows or shrinks. */
    method Realloc(what: array?<Byte>, size: nat, prevSize: nat) returns (p: array<Byte>)
      requires At(what) <= live && prevSize == if what == null then 0 else what.Length
      modifies this
      ensures fresh(p) && p.Length == size && live == old(live) - At(what) + {p}
      ensures what != null ==> var n := if prevSize < size then prevSize else size; p[..n] == what[..n]
    {
      p := Alloc(size);
      if what != null {
        var n := if prevSize < size then prevSize else size;
        MemCpy(p, 0, what[..n]);
        assert p[0..n] == p[..n];
      }
      Free(what);
    }
  }

  /** The octets behind a pointer; a released buffer must not be read. */
  function Read(ghost mm: Mm, a: array?<Byte>): (b: Key)
    requires At(a) <= mm.live
    reads mm, a
    ensures a == null ==> b == []
    ensures a != null ==> b == a[..]
  {
    if a == null then [] else a[..]
  }
}
