/** Base32hex (base32hex.c; section 7 of RFC 4648): the text of octets, its decoding,
    and the order of texts. Shifts and masks are written as division and remainder. */
module Base32hex {
  import opened Bytes

  const PAD: Byte := 61
  const KO := 255
  const PD := 32

  /** The alphabet 0-9 a-v. */
  function Char(d: nat): Byte
    requires d < 32
  {
    if d < 10 then 48 + d else 87 + d
  }

  /** base32hex_dec. */
  function Dec(c: Byte): nat {
    if 48 <= c <= 57 then c - 48
    else if 65 <= c <= 86 then c - 55
    else if 97 <= c <= 118 then c - 87
    else if c == PAD then PD
    else KO
  }

  // ---- The alphabet, character by character ----

  ghost predicate Spells(t: Key, s: string) {
    |t| == |s| && forall i :: 0 <= i < |s| ==> t[i] as char == s[i]
  }

  lemma CharIs(d: nat)
    requires d < 32
    ensures Char(d) as char == "0123456789abcdefghijklmnopqrstuv"[d]
    ensures PAD as char == '='
  {
  }

  /** A character has value d exactly if it is number d of the alphabet in either case;
      beyond the values are the padding character and all others. */
  lemma DecIs(c: Byte, d: nat)
    ensures d < 32 ==> (Dec(c) == d <==> c as char == "0123456789abcdefghijklmnopqrstuv"[d]
                                         || c as char == "0123456789ABCDEFGHIJKLMNOPQRSTUV"[d])
    ensures Dec(c) == 32 <==> c as char == '='
  {
    hide Dec;
    if d < 32 {
      LetterCodes(d);
      DecAt(c, d);
    }
    DecPad(c);
  }

  lemma LetterCodes(d: nat)
    requires d < 32
    ensures "0123456789abcdefghijklmnopqrstuv"[d] == (if d < 10 then 48 + d else 87 + d) as char
    ensures "0123456789ABCDEFGHIJKLMNOPQRSTUV"[d] == (if d < 10 then 48 + d else 55 + d) as char
  {
  }

  lemma DecAt(c: Byte, d: nat)
    requires d < 32
    ensures Dec(c) == d <==> c == (if d < 10 then 48 + d else 87 + d) || c == (if d < 10 then 48 + d else 55 + d)
  {
  }

  lemma DecPad(c: Byte)
    ensures Dec(c) == 32 <==> c as char == '='
  {
  }

  // ---- One group ----

  function D0(b0: Byte): nat { b0 / 8 }

  function D1(b0: Byte, b1: Byte): nat { b0 % 8 * 4 + b1 / 64 }

  function D2(b1: Byte): nat { b1 / 2 % 32 }

  function D3(b1: Byte, b2: Byte): nat { b1 % 2 * 16 + b2 / 16 }

  function D4(b2: Byte, b3: Byte): nat { b2 % 16 * 2 + b3 / 128 }

  function D5(b3: Byte): nat { b3 / 4 % 32 }

  function D6(b3: Byte, b4: Byte): nat { b3 % 4 * 8 + b4 / 32 }

  function D7(b4: Byte): nat { b4 % 32 }

  /** The octets of a group; those that are not there count as zero. */
  function Octet(b: Key, i: nat): Byte {
    if i < |b| then b[i] else 0
  }

  /** The digits of a group of 1 to 5 octets. */
  function Digits(b: Key): (d: seq<nat>)
    requires 1 <= |b| <= 5
    ensures |d| == DigitCount(|b|) && forall i :: 0 <= i < |d| ==> d[i] < 32
  {
    var b0, b1, b2, b3, b4 := Octet(b, 0), Octet(b, 1), Octet(b, 2), Octet(b, 3), Octet(b, 4);
    [D0(b0), D1(b0, b1), D2(b1), D3(b1, b2), D4(b2, b3), D5(b3), D6(b3, b4), D7(b4)][..DigitCount(|b|)]
  }

  function DigitCount(n: nat): nat {
    match n
    case 1 => 2
    case 2 => 4
    case 3 => 5
    case 4 => 7
    case _ => 8
  }

  /** Eight characters for a group. */
  function Group(b: Key): (t: Key)
    requires 1 <= |b| <= 5
    ensures |t| == 8
  {
    var d := Digits(b);
    seq(8, i requires 0 <= i < 8 => if i < |d| then Char(d[i]) else PAD)
  }

  /** The whole text. */
  ghost function Text(b: Key): Key {
    if |b| == 0 then [] else if |b| < 5 then Group(b) else Group(b[..5]) + Text(b[5..])
  }

  lemma {:induction false} TextLen(b: Key)
    ensures |Text(b)| == (|b| + 4) / 5 * 8
    decreases |b|
  {
    hide Group;
    if |b| >= 5 {
      TextLen(b[5..]);
      OneGroupMore(|b|);
    } else if |b| > 0 {
      assert (|b| + 4) / 5 == 1;
    }
  }

  lemma OneGroupMore(n: nat)
    requires n >= 5
    ensures (n + 4) / 5 == 1 + (n - 5 + 4) / 5
  {
  }

  // ---- Order ----

  /** The number written in base 32 or 256. */
  ghost function Num32(d: seq<nat>): nat {
    if |d| == 0 then 0 else Num32(d[..|d| - 1]) * 32 + d[|d| - 1]
  }

  ghost function Num256(b: Key): nat {
    if |b| == 0 then 0 else Num256(b[..|b| - 1]) * 256 + b[|b| - 1]
  }

  lemma {:induction false} LexSnoc(a: Key, x: Byte, b: Key, y: Byte)
    requires |a| == |b|
    ensures LexLess(a + [x], b + [y]) <==> LexLess(a, b) || (a == b && x < y)
    decreases |a|
  {
    if |a| == 0 {
      assert a + [x] == [x] && b + [y] == [y];
    } else {
      assert (a + [x])[1..] == a[1..] + [x] && (b + [y])[1..] == b[1..] + [y];
      LexSnoc(a[1..], x, b[1..], y);
      assert a == [a[0]] + a[1..] && b == [b[0]] + b[1..];
    }
  }

  lemma {:induction false} LexJoin(a: Key, s: Key, b: Key, t: Key)
    requires |a| == |b|
    ensures LexLess(a + s, b + t) <==> LexLess(a, b) || (a == b && LexLess(s, t))
    decreases |a|
  {
    if |a| == 0 {
      assert a + s == s && b + t == t;
    } else {
      assert (a + s)[1..] == a[1..] + s && (b + t)[1..] == b[1..] + t;
      LexJoin(a[1..], s, b[1..], t);
      assert a == [a[0]] + a[1..] && b == [b[0]] + b[1..];
    }
  }

  lemma {:induction false} Num256Order(a: Key, b: Key)
    requires |a| == |b|
    ensures LexLess(a, b) <==> Num256(a) < Num256(b)
    ensures a == b <==> Num256(a) == Num256(b)
    decreases |a|
  {
    if |a| > 0 {
      var n := |a| - 1;
      Num256Order(a[..n], b[..n]);
      LexSnoc(a[..n], a[n], b[..n], b[n]);
      assert a == a[..n] + [a[n]] && b == b[..n] + [b[n]];
    }
  }

  /** Characters of digits, in the order of the digits' number. */
  ghost function Chars(d: seq<nat>): (t: Key)
    requires forall i :: 0 <= i < |d| ==> d[i] < 32
    ensures |t| == |d|
  {
    seq(|d|, i requires 0 <= i < |d| => Char(d[i]))
  }

  lemma {:induction false} Num32Order(d: seq<nat>, e: seq<nat>)
    requires |d| == |e| && (forall i :: 0 <= i < |d| ==> d[i] < 32) && (forall i :: 0 <= i < |e| ==> e[i] < 32)
    ensures LexLess(Chars(d), Chars(e)) <==> Num32(d) < Num32(e)
    ensures Chars(d) == Chars(e) <==> Num32(d) == Num32(e)
    decreases |d|
  {
    if |d| > 0 {
      var n := |d| - 1;
      Num32Order(d[..n], e[..n]);
      assert Chars(d) == Chars(d[..n]) + [Char(d[n])];
      assert Chars(e) == Chars(e[..n]) + [Char(e[n])];
      LexSnoc(Chars(d[..n]), Char(d[n]), Chars(e[..n]), Char(e[n]));
      SnocEqual(Chars(d[..n]), Char(d[n]), Chars(e[..n]), Char(e[n]));
    }
  }

  lemma SnocEqual(a: Key, x: Byte, b: Key, y: Byte)
    ensures a + [x] == b + [y] <==> a == b && x == y
  {
    if a + [x] == b + [y] {
      assert a == (a + [x])[..|a|] && b == (b + [y])[..|b|];
      assert (a + [x])[|a|] == x && (b + [y])[|b|] == y;
    }
  }

  /** What the last digits add in zero bits. */
  ghost function Scale(n: nat): nat {
    match n
    case 1 => 4
    case 2 => 16
    case 3 => 2
    case 4 => 8
    case _ => 1
  }

  lemma ScaleOrder(n: nat, x: nat, y: nat)
    ensures Scale(n) * x < Scale(n) * y <==> x < y
    ensures Scale(n) * x == Scale(n) * y <==> x == y
  {
  }

  lemma Num32Prefix(d: seq<nat>, k: nat)
    requires k < |d|
    ensures Num32(d[..k + 1]) == Num32(d[..k]) * 32 + d[k]
  {
    assert d[..k + 1][..k] == d[..k];
  }

  lemma Num256Prefix(b: Key, k: nat)
    requires k < |b|
    ensures Num256(b[..k + 1]) == Num256(b[..k]) * 256 + b[k]
  {
    assert b[..k + 1][..k] == b[..k];
  }

  /** The eight digits of five octets, read from the left. */
  lemma Regrouped(b0: Byte, b1: Byte, b2: Byte, b3: Byte, b4: Byte)
    ensures var p2 := D0(b0) * 32 + D1(b0, b1); var p4 := (p2 * 32 + D2(b1)) * 32 + D3(b1, b2);
            var p5 := p4 * 32 + D4(b2, b3); var p7 := (p5 * 32 + D5(b3)) * 32 + D6(b3, b4);
            && p2 == 4 * b0 as nat + b1 as nat / 64
            && p4 == 4096 * b0 as nat + 16 * b1 as nat + b2 as nat / 16
            && p5 == 131072 * b0 as nat + 512 * b1 as nat + 2 * b2 as nat + b3 as nat / 128
            && p7 == 134217728 * b0 as nat + 524288 * b1 as nat + 2048 * b2 as nat + 8 * b3 as nat + b4 as nat / 32
            && p7 * 32 + D7(b4)
               == 4294967296 * b0 as nat + 16777216 * b1 as nat + 65536 * b2 as nat + 256 * b3 as nat + b4 as nat
  {
    assert b1 as nat / 64 * 32 + D2(b1) == b1 as nat / 2;
    assert b3 as nat / 128 * 32 + D5(b3) == b3 as nat / 4;
  }

  lemma DigitsAre(b: Key)
    requires 1 <= |b| <= 5
    ensures var d := Digits(b); var b1, b2, b3, b4 := Octet(b, 1), Octet(b, 2), Octet(b, 3), Octet(b, 4);
            && d[0] == D0(b[0]) && d[1] == D1(b[0], b1)
            && (|b| > 1 ==> d[2] == D2(b1) && d[3] == D3(b1, b2))
            && (|b| > 2 ==> d[4] == D4(b2, b3))
            && (|b| > 3 ==> d[5] == D5(b3) && d[6] == D6(b3, b4))
            && (|b| > 4 ==> d[7] == D7(b4))
  {
  }

  /** The digits of a group write the number that its octets write. */
  lemma DigitsNum(b: Key)
    requires 1 <= |b| <= 5
    ensures Num32(Digits(b)) == Scale(|b|) * Num256(b)
  {
    hide Num32, Num256, Digits;
    if |b| <= 2 {
      ShortNum(b);
    } else if |b| <= 4 {
      MiddleNum(b);
    } else {
      LongNum(b);
    }
  }

  lemma ShortNum(b: Key)
    requires 1 <= |b| <= 2
    ensures |b| == 1 ==> Num32(Digits(b)) == 4 * Num256(b)
    ensures |b| == 2 ==> Num32(Digits(b)) == 16 * Num256(b)
  {
    hide Num32, Num256, D0, D1, D2, D3, D4, D5, D6, D7, Digits;
    OctetsNum(b);
    DigitsAre(b);
    Num32Of(Digits(b), DigitCount(|b|));
    Regrouped(b[0], Octet(b, 1), 0, 0, 0);
  }

  lemma MiddleNum(b: Key)
    requires 3 <= |b| <= 4
    ensures |b| == 3 ==> Num32(Digits(b)) == 2 * Num256(b)
    ensures |b| == 4 ==> Num32(Digits(b)) == 8 * Num256(b)
  {
    hide Num32, Num256, D0, D1, D2, D3, D4, D5, D6, D7, Digits;
    OctetsNum(b);
    DigitsAre(b);
    Num32Of(Digits(b), DigitCount(|b|));
    Regrouped(b[0], b[1], b[2], Octet(b, 3), 0);
  }

  lemma LongNum(b: Key)
    requires |b| == 5
    ensures Num32(Digits(b)) == Num256(b)
  {
    hide Num32, Num256, D0, D1, D2, D3, D4, D5, D6, D7, Digits;
    OctetsNum(b);
    DigitsAre(b);
    Num32Of(Digits(b), 8);
    Regrouped(b[0], b[1], b[2], b[3], b[4]);
  }

  lemma OctetsNum(b: Key)
    requires 1 <= |b| <= 5
    ensures |b| == 1 ==> Num256(b) == b[0]
    ensures |b| == 2 ==> Num256(b) == b[0] as nat * 256 + b[1]
    ensures |b| == 3 ==> Num256(b) == (b[0] as nat * 256 + b[1]) * 256 + b[2]
    ensures |b| == 4 ==> Num256(b) == ((b[0] as nat * 256 + b[1]) * 256 + b[2]) * 256 + b[3]
    ensures |b| == 5 ==> Num256(b) == (((b[0] as nat * 256 + b[1]) * 256 + b[2]) * 256 + b[3]) * 256 + b[4]
  {
    assert b[..0] == [] && b[..|b|] == b;
    Num256Prefix(b, 0);
    if |b| > 1 { Num256Prefix(b, 1); }
    if |b| > 2 { Num256Prefix(b, 2); }
    if |b| > 3 { Num256Prefix(b, 3); }
    if |b| > 4 { Num256Prefix(b, 4); }
  }

  lemma Num32Of(d: seq<nat>, n: nat)
    requires |d| == n && 2 <= n <= 8
    ensures n == 2 ==> Num32(d) == d[0] * 32 + d[1]
    ensures n == 4 ==> Num32(d) == ((d[0] * 32 + d[1]) * 32 + d[2]) * 32 + d[3]
    ensures n == 5 ==> Num32(d) == (((d[0] * 32 + d[1]) * 32 + d[2]) * 32 + d[3]) * 32 + d[4]
    ensures n == 7 ==>
              Num32(d) == (((((d[0] * 32 + d[1]) * 32 + d[2]) * 32 + d[3]) * 32 + d[4]) * 32 + d[5]) * 32 + d[6]
    ensures n == 8 ==>
              Num32(d) == ((((((d[0] * 32 + d[1]) * 32 + d[2]) * 32 + d[3]) * 32 + d[4]) * 32 + d[5]) * 32 + d[6]) * 32
                          + d[7]
  {
    assert d[..0] == [] && d[..n] == d;
    Num32Prefix(d, 0);
    Num32Prefix(d, 1);
    if n > 2 { Num32Prefix(d, 2); }
    if n > 3 { Num32Prefix(d, 3); }
    if n > 4 { Num32Prefix(d, 4); }
    if n > 5 { Num32Prefix(d, 5); }
    if n > 6 { Num32Prefix(d, 6); }
    if n > 7 { Num32Prefix(d, 7); }
  }

  lemma GroupIsChars(b: Key)
    requires 1 <= |b| <= 5
    ensures Group(b) == Chars(Digits(b)) + seq(8 - DigitCount(|b|), i => PAD)
  {
  }

  /** Groups of equal length are ordered like their octets. */
  lemma GroupOrder(a: Key, b: Key)
    requires 1 <= |a| == |b| <= 5
    ensures LexLess(Group(a), Group(b)) <==> LexLess(a, b)
    ensures Group(a) == Group(b) <==> a == b
  {
    hide Digits, Num32, Num256, LexLess, Group, Scale, DigitCount, Chars;
    DigitsNum(a);
    DigitsNum(b);
    ScaleOrder(|a|, Num256(a), Num256(b));
    Num256Order(a, b);
    Num32Order(Digits(a), Digits(b));
    GroupIsChars(a);
    GroupIsChars(b);
    var pads: Key := seq(8 - DigitCount(|a|), i => PAD);
    LexJoin(Chars(Digits(a)), pads, Chars(Digits(b)), pads);
    LexIrreflexive(pads);
    JoinEqual(Chars(Digits(a)), Chars(Digits(b)), pads);
  }

  lemma JoinEqual(a: Key, b: Key, p: Key)
    requires |a| == |b|
    ensures a + p == b + p <==> a == b
  {
    if a + p == b + p {
      assert a == (a + p)[..|a|] && b == (b + p)[..|b|];
    }
  }

  /** Texts of inputs of equal length are ordered like the inputs. */
  lemma {:induction false} TextOrder(a: Key, b: Key)
    requires |a| == |b|
    ensures LexLess(Text(a), Text(b)) <==> LexLess(a, b)
    decreases |a|
  {
    hide LexLess, Group;
    if |a| == 0 {
      assert a == b == [];
    } else if |a| < 5 {
      GroupOrder(a, b);
    } else {
      GroupOrder(a[..5], b[..5]);
      TextOrder(a[5..], b[5..]);
      LexJoin(Group(a[..5]), Text(a[5..]), Group(b[..5]), Text(b[5..]));
      LexJoin(a[..5], a[5..], b[..5], b[5..]);
      assert a == a[..5] + a[5..] && b == b[..5] + b[5..];
    }
  }
}
