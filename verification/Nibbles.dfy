/** Half-byte indexing of trie keys (trie.c, keybit): index 2i is the upper half
    of byte i, index 2i+1 the lower half, and a position past the end of the key
    has the extra value 0 that sorts before the sixteen real half-bytes. */
module Nibbles {
  import opened Bytes

  const NOBYTE: nat := 0

  function Nib(k: Key, i: nat): (n: nat)
    ensures n <= 16
    ensures n == NOBYTE <==> i / 2 >= |k|
  {
    if i / 2 >= |k| then NOBYTE
    else if i % 2 == 1 then 1 + k[i / 2] % 16
    else 1 + k[i / 2] / 16
  }

  /** The two keys have the same half-bytes below index n. */
  ghost predicate Agree(a: Key, b: Key, n: nat) {
    forall j :: 0 <= j < n ==> Nib(a, j) == Nib(b, j)
  }

  /** Index of the first half-byte in which two different keys differ. */
  function FirstDiff(a: Key, b: Key): (d: nat)
    requires a != b
    decreases |a|
  {
    if |a| == 0 || |b| == 0 then 0
    else if a[0] / 16 != b[0] / 16 then 0
    else if a[0] != b[0] then 1
    else
      assert a == [a[0]] + a[1..] && b == [b[0]] + b[1..];
      2 + FirstDiff(a[1..], b[1..])
  }

  lemma NibTail(k: Key, i: nat)
    requires |k| > 0
    ensures Nib(k, i + 2) == Nib(k[1..], i)
  {
    assert (i + 2) / 2 == i / 2 + 1 && (i + 2) % 2 == i % 2;
  }

  lemma {:induction false} FirstDiffIsFirst(a: Key, b: Key)
    requires a != b
    ensures Agree(a, b, FirstDiff(a, b))
    ensures Nib(a, FirstDiff(a, b)) != Nib(b, FirstDiff(a, b))
    decreases |a|
  {
    if |a| == 0 || |b| == 0 || a[0] != b[0] {
    } else {
      assert a == [a[0]] + a[1..] && b == [b[0]] + b[1..];
      FirstDiffIsFirst(a[1..], b[1..]);
      var d := FirstDiff(a[1..], b[1..]);
      forall j | 0 <= j < d + 2
        ensures Nib(a, j) == Nib(b, j)
      {
        if j >= 2 {
          NibTail(a, j - 2);
          NibTail(b, j - 2);
        }
      }
      NibTail(a, d);
      NibTail(b, d);
    }
  }

  /** Byte order is decided by the first half-byte that differs. */
  lemma {:induction false} NibOrder(a: Key, b: Key, d: nat)
    requires Agree(a, b, d) && Nib(a, d) < Nib(b, d)
    ensures LexLess(a, b)
    decreases |a|
  {
    if |a| == 0 {
    } else if d == 0 {
    } else if d == 1 {
      assert Nib(a, 0) == Nib(b, 0);
    } else {
      assert Nib(a, 0) == Nib(b, 0) && Nib(a, 1) == Nib(b, 1);
      assert a[0] == b[0];
      forall j | 0 <= j < d - 2
        ensures Nib(a[1..], j) == Nib(b[1..], j)
      {
        NibTail(a, j);
        NibTail(b, j);
        assert Nib(a, j + 2) == Nib(b, j + 2);
      }
      NibTail(a, d - 2);
      NibTail(b, d - 2);
      NibOrder(a[1..], b[1..], d - 2);
    }
  }

  /** Two keys that have both ended at an index up to which they agree are one key. */
  lemma {:induction false} EndedTogether(a: Key, b: Key, d: nat)
    requires Agree(a, b, d) && Nib(a, d) == NOBYTE == Nib(b, d)
    ensures a == b
  {
    if a != b {
      FirstDiffIsFirst(a, b);
    }
  }

  lemma SameByte(a: Key, b: Key, j: nat)
    requires j < |a| && Nib(a, 2 * j) == Nib(b, 2 * j) && Nib(a, 2 * j + 1) == Nib(b, 2 * j + 1)
    ensures j < |b| && a[j] == b[j]
  {
    assert (2 * j) / 2 == j && (2 * j + 1) / 2 == j;
  }

  /** Both halves of the first n bytes agree: the bytes do. */
  lemma {:induction false} SameBytes(a: Key, b: Key, n: nat)
    requires n <= |a| && (forall j :: 0 <= j < 2 * n ==> Nib(a, j) == Nib(b, j))
    ensures n <= |b| && a[..n] == b[..n]
    decreases n
  {
    if n > 0 {
      SameBytes(a, b, n - 1);
      SameByte(a, b, n - 1);
      assert a[..n] == a[..n - 1] + [a[n - 1]] && b[..n] == b[..n - 1] + [b[n - 1]];
    }
  }
}
