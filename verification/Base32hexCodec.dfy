/** Base32hex encoding and decoding into buffers (base32hex.c), and the round trip. */
module Base32hexCodec {
  import opened Bytes
  import opened Options
  import opened Base32hex

  const INT32_MAX := 0x7FFFFFFF
  const MAX_BIN_DATA_LEN := INT32_MAX / 8 * 5

  // ---- Decoding one group ----

  function Vals(t: Key): (c: seq<nat>)
    ensures |c| == |t| && forall i :: 0 <= i < |t| ==> c[i] == Dec(t[i])
  {
    seq(|t|, i requires 0 <= i < |t| => Dec(t[i]))
  }

  /** The padding known after a group of eight values, or None for a bad character. The
      padding of earlier groups is carried along. */
  function PadAfter(c: seq<nat>, pad: nat): Option<nat>
    requires |c| == 8
  {
    if c[7] >= PD && !(c[7] == PD && pad == 0) then None
    else
      var p1 := if c[7] >= PD then 1 else pad;
      if c[6] >= PD && !(c[6] == PD && c[5] == PD && p1 == 1) then None
      else
        var p2 := if c[6] >= PD then 3 else p1;
        if c[5] >= PD && !(c[5] == PD && p2 == 3) then None
        else if c[4] >= PD && !(c[4] == PD && p2 == 3) then None
        else
          var p3 := if c[4] >= PD then 4 else p2;
          if c[3] >= PD && !(c[3] == PD && c[2] == PD && p3 == 4) then None
          else
            var p4 := if c[3] >= PD then 6 else p3;
            if c[2] >= PD && !(c[2] == PD && p4 == 6) then None
            else if c[1] >= PD || c[0] >= PD then None
            else Some(p4)
  }

  function OctetCount(pad: nat): nat {
    match pad
    case 0 => 5
    case 1 => 4
    case 3 => 3
    case 4 => 2
    case 6 => 1
    case _ => 0
  }

  function O0(c0: nat, c1: nat): Byte { (c0 * 8 + c1 / 4) % 256 }

  function O1(c1: nat, c2: nat, c3: nat): Byte { (c1 * 64 + c2 * 2 + c3 / 16) % 256 }

  function O2(c3: nat, c4: nat): Byte { (c3 * 16 + c4 / 2) % 256 }

  function O3(c4: nat, c5: nat, c6: nat): Byte { (c4 * 128 + c5 * 4 + c6 / 8) % 256 }

  function O4(c6: nat, c7: nat): Byte { (c6 * 32 + c7) % 256 }

  function Octets(c: seq<nat>, pad: nat): (b: Key)
    requires |c| == 8
    ensures |b| == OctetCount(pad)
  {
    [O0(c[0], c[1]), O1(c[1], c[2], c[3]), O2(c[3], c[4]), O3(c[4], c[5], c[6]), O4(c[6], c[7])][..OctetCount(pad)]
  }

  /** What the decoder makes of a text whose length is a multiple of eight. */
  ghost function Decoded(t: Key, pad: nat): Option<Key> {
    if |t| < 8 then Some([])
    else
      match PadAfter(Vals(t[..8]), pad)
      case None => None
      case Some(p) =>
        match Decoded(t[8..], p)
        case None => None
        case Some(rest) => Some(Octets(Vals(t[..8]), p) + rest)
  }

  // ---- Round trip ----

  /** Upper or lower case makes no difference. */
  ghost predicate SameText(t: Key, u: Key) {
    |t| == |u| && forall i :: 0 <= i < |u| ==> t[i] == u[i] || t[i] == Upper(u[i])
  }

  function Upper(c: Byte): Byte {
    if 97 <= c <= 122 then c - 32 else c
  }

  function PadOf(n: nat): nat {
    match n
    case 1 => 6
    case 2 => 4
    case 3 => 3
    case 4 => 1
    case _ => 0
  }

  lemma CharBack(d: nat, c: Byte)
    requires d < 32 && (c == Char(d) || c == Upper(Char(d)))
    ensures Dec(c) == d
  {
  }

  /** A group, in either case, has its digits and padding as values. */
  lemma GroupVals(b: Key, t: Key)
    requires 1 <= |b| <= 5 && SameText(t, Group(b))
    ensures var d := Digits(b);
            forall i :: 0 <= i < 8 ==> Vals(t)[i] == if i < |d| then d[i] else PD
  {
    var d := Digits(b);
    forall i | 0 <= i < 8
      ensures Vals(t)[i] == if i < |d| then d[i] else PD
    {
      if i < |d| {
        CharBack(d[i], t[i]);
      }
    }
  }

  lemma OctetsBack(b0: Byte, b1: Byte, b2: Byte, b3: Byte, b4: Byte)
    ensures O0(D0(b0), D1(b0, b1)) == b0
    ensures O1(D1(b0, b1), D2(b1), D3(b1, b2)) == b1
    ensures O2(D3(b1, b2), D4(b2, b3)) == b2
    ensures O3(D4(b2, b3), D5(b3), D6(b3, b4)) == b3
    ensures O4(D6(b3, b4), D7(b4)) == b4
  {
    hide D0, D1, D2, D3, D4, D5, D6, D7;
    Octet0Back(b0, b1);
    Octet1Back(b0, b1, b2);
    Octet2Back(b1, b2, b3);
    Octet3Back(b2, b3, b4);
    Octet4Back(b3, b4);
  }

  lemma LowOctet(k: nat, b: Byte)
    ensures (k * 256 + b as nat) % 256 == b
  {
  }

  lemma Octet0Back(b0: Byte, b1: Byte)
    ensures (D0(b0) * 8 + D1(b0, b1) / 4) % 256 == b0
  {
    assert D1(b0, b1) / 4 == b0 as nat % 8;
  }

  lemma Octet1Back(b0: Byte, b1: Byte, b2: Byte)
    ensures (D1(b0, b1) * 64 + D2(b1) * 2 + D3(b1, b2) / 16) % 256 == b1
  {
    assert D3(b1, b2) / 16 == b1 as nat % 2;
    assert b1 as nat / 64 * 64 + D2(b1) * 2 + b1 as nat % 2 == b1;
    assert D1(b0, b1) * 64 == b0 as nat % 8 * 256 + b1 as nat / 64 * 64;
    LowOctet(b0 as nat % 8, b1);
  }

  lemma Octet2Back(b1: Byte, b2: Byte, b3: Byte)
    ensures (D3(b1, b2) * 16 + D4(b2, b3) / 2) % 256 == b2
  {
    assert D4(b2, b3) / 2 == b2 as nat % 16;
    assert D3(b1, b2) * 16 == b1 as nat % 2 * 256 + b2 as nat / 16 * 16;
    LowOctet(b1 as nat % 2, b2);
  }

  lemma FourthParts(x: nat)
    ensures x / 128 * 128 + x / 4 % 32 * 4 + x % 4 == x
  {
    var q := x / 4;
    assert x == 4 * q + x % 4 && q == q / 32 * 32 + q % 32;
    assert q / 32 == x / 128;
  }

  lemma FourthHigh(x: nat, y: nat)
    requires y < 256
    ensures (x % 16 * 2 + y / 128) * 128 == x % 16 * 256 + y / 128 * 128
  {
  }

  lemma Octet3Back(b2: Byte, b3: Byte, b4: Byte)
    ensures (D4(b2, b3) * 128 + D5(b3) * 4 + D6(b3, b4) / 8) % 256 == b3
  {
    assert D6(b3, b4) / 8 == b3 as nat % 4;
    FourthParts(b3);
    FourthHigh(b2, b3);
    LowOctet(b2 as nat % 16, b3);
  }

  lemma Octet4Back(b3: Byte, b4: Byte)
    ensures (D6(b3, b4) * 32 + D7(b4)) % 256 == b4
  {
    assert D6(b3, b4) * 32 == b3 as nat % 4 * 256 + b4 as nat / 32 * 32;
    LowOctet(b3 as nat % 4, b4);
  }

  lemma GroupDecodes(b: Key, t: Key)
    requires 1 <= |b| <= 5 && SameText(t, Group(b))
    ensures PadAfter(Vals(t), 0) == Some(PadOf(|b|)) && Octets(Vals(t), PadOf(|b|)) == b
  {
    hide D0, D1, D2, D3, D4, D5, D6, D7, O0, O1, O2, O3, O4, Digits, Group, Vals, SameText;
    GroupVals(b, t);
    DigitsAre(b);
    OctetsBack(b[0], Octet(b, 1), Octet(b, 2), Octet(b, 3), Octet(b, 4));
  }

  /** Decoding the text of any octets, also after upper-casing, gives the octets back. */
  lemma {:induction false} RoundTrip(b: Key, t: Key)
    requires SameText(t, Text(b))
    ensures |t| == (|b| + 4) / 5 * 8 && Decoded(t, 0) == Some(b)
    decreases |b|
  {
    TextLen(b);
    if |b| > 0 {
      var n := if |b| < 5 then |b| else 5;
      FirstGroup(b, t, n);
      GroupDecodes(b[..n], t[..8]);
      if |b| < 5 {
        assert b[..n] == b && t[8..] == [];
        assert b + [] == b;
      } else {
        RoundTrip(b[5..], t[8..]);
        assert b == b[..5] + b[5..];
      }
    }
  }

  lemma FirstGroup(b: Key, t: Key, n: nat)
    requires |b| > 0 && SameText(t, Text(b)) && n == if |b| < 5 then |b| else 5
    ensures |t| >= 8 && SameText(t[..8], Group(b[..n]))
    ensures if |b| < 5 then |t| == 8 else SameText(t[8..], Text(b[5..]))
  {
    hide Group, SameText, Text;
    TextStart(b);
    if |b| < 5 {
      assert b[..n] == b;
      SplitSame(t, Group(b), []);
    } else {
      SplitSame(t, Group(b[..5]), Text(b[5..]));
    }
  }

  lemma TextStart(b: Key)
    requires |b| > 0
    ensures |b| < 5 ==> Text(b) == Group(b) + []
    ensures |b| >= 5 ==> Text(b) == Group(b[..5]) + Text(b[5..])
  {
    hide Group;
  }

  lemma SplitSame(t: Key, a: Key, b: Key)
    requires SameText(t, a + b)
    ensures |t| == |a| + |b| && SameText(t[..|a|], a) && SameText(t[|a|..], b)
  {
    assert forall i :: 0 <= i < |a| ==> (a + b)[i] == a[i];
    assert forall i :: 0 <= i < |b| ==> (a + b)[|a| + i] == b[i];
  }

  // ---- Published values ----

  lemma GroupOf(b: Key, s: string, d: seq<nat>)
    requires 1 <= |b| <= 5 && |s| == 8 && Digits(b) == d
    requires forall i :: 0 <= i < 8 ==> s[i] == (if i < |d| then "0123456789abcdefghijklmnopqrstuv"[d[i]] else '=')
    ensures Spells(Group(b), s)
  {
    hide Char, Digits;
    forall i | 0 <= i < |d|
      ensures Group(b)[i] as char == s[i]
    {
      CharIs(d[i]);
    }
    CharIs(0);
  }

  /** The examples of section 10 of RFC 4648, in lower case. */
  lemma KnownTexts(b: Key)
    ensures Spells(b, "f") ==> Spells(Text(b), "co======")
    ensures Spells(b, "fo") ==> Spells(Text(b), "cpng====")
    ensures Spells(b, "foo") ==> Spells(Text(b), "cpnmu===")
    ensures Spells(b, "foob") ==> Spells(Text(b), "cpnmuog=")
    ensures Spells(b, "fooba") ==> Spells(Text(b), "cpnmuoj1")
    ensures Spells(b, "foobar") ==> Spells(Text(b), "cpnmuoj1e8======")
  {
    hide Group, Digits, Text, Spells;
    KnownShortTexts(b);
    if Spells(b, "foob") {
      KnownDigits([102, 111, 111, 98]);
      KnownGroup(b, "foob", [102, 111, 111, 98], [12, 25, 23, 22, 30, 24, 16], "cpnmuog=");
    }
    if Spells(b, "fooba") {
      KnownDigits([102, 111, 111, 98, 97]);
      KnownGroup(b, "fooba", [102, 111, 111, 98, 97], [12, 25, 23, 22, 30, 24, 19, 1], "cpnmuoj1");
    }
    if Spells(b, "foobar") {
      KnownLongerText(b);
    }
  }

  lemma KnownShortTexts(b: Key)
    ensures Spells(b, "f") ==> Spells(Text(b), "co======")
    ensures Spells(b, "fo") ==> Spells(Text(b), "cpng====")
    ensures Spells(b, "foo") ==> Spells(Text(b), "cpnmu===")
  {
    hide Group, Digits, Text, Spells;
    if Spells(b, "f") {
      KnownDigits([102]);
      KnownGroup(b, "f", [102], [12, 24], "co======");
    }
    if Spells(b, "fo") {
      KnownDigits([102, 111]);
      KnownGroup(b, "fo", [102, 111], [12, 25, 23, 16], "cpng====");
    }
    if Spells(b, "foo") {
      KnownDigits([102, 111, 111]);
      KnownGroup(b, "foo", [102, 111, 111], [12, 25, 23, 22, 30], "cpnmu===");
    }
  }

  lemma KnownGroup(b: Key, s: string, k: Key, d: seq<nat>, t: string)
    requires Spells(b, s) && 1 <= |s| == |k| <= 5 && (forall i :: 0 <= i < |s| ==> s[i] == k[i] as char)
    requires Digits(k) == d && |t| == 8
    requires forall i :: 0 <= i < 8 ==> t[i] == (if i < |d| then "0123456789abcdefghijklmnopqrstuv"[d[i]] else '=')
    ensures Spells(Text(b), t)
  {
    hide Group, Digits;
    assert b == k;
    GroupOf(b, t, d);
    assert |b| == 5 ==> b[..5] == b && b[5..] == [];
  }

  lemma KnownLongerText(b: Key)
    requires Spells(b, "foobar")
    ensures Spells(Text(b), "cpnmuoj1e8======")
  {
    hide Group, Digits, Text;
    var five, one := b[..5], b[5..];
    assert five == [102, 111, 111, 98, 97] && one == [114];
    KnownDigits(five);
    KnownDigits(one);
    GroupOf(five, "cpnmuoj1", [12, 25, 23, 22, 30, 24, 19, 1]);
    GroupOf(one, "e8======", [14, 8]);
    TextStart(b);
    TextStart(one);
  }

  lemma KnownDigits(b: Key)
    requires 1 <= |b| <= 5
    ensures b == [102] ==> Digits(b) == [12, 24]
    ensures b == [102, 111] ==> Digits(b) == [12, 25, 23, 16]
    ensures b == [102, 111, 111] ==> Digits(b) == [12, 25, 23, 22, 30]
    ensures b == [102, 111, 111, 98] ==> Digits(b) == [12, 25, 23, 22, 30, 24, 16]
    ensures b == [102, 111, 111, 98, 97] ==> Digits(b) == [12, 25, 23, 22, 30, 24, 19, 1]
    ensures b == [114] ==> Digits(b) == [14, 8]
  {
    hide D0, D1, D2, D3, D4, D5, D6, D7;
    KnownNumbers();
  }

  lemma KnownNumbers()
    ensures D0(102) == 12 && D1(102, 111) == 25 && D1(102, 0) == 24 && D2(111) == 23
    ensures D3(111, 111) == 22 && D3(111, 0) == 16 && D4(111, 98) == 30 && D4(111, 0) == 30
    ensures D5(98) == 24 && D6(98, 97) == 19 && D6(98, 0) == 16 && D7(97) == 1
    ensures D0(114) == 14 && D1(114, 0) == 8
  {
  }

  // ---- What is accepted ----

  ghost predicate InAlphabet(c: Byte) {
    var ch := c as char;
    '0' <= ch <= '9' || 'a' <= ch <= 'v' || 'A' <= ch <= 'V'
  }

  /** Characters of the alphabet and then p padding characters. */
  ghost predicate Padded(t: Key, p: nat) {
    && p in {0, 1, 3, 4, 6} && p <= |t|
    && (forall i :: 0 <= i < |t| - p ==> InAlphabet(t[i]))
    && (forall i :: |t| - p <= i < |t| ==> t[i] as char == '=')
  }

  /** How padding may go on from group to group: p padding characters so far, q after the
      next group g. Those in between stand in their places, everything else is of the
      alphabet, except that the sixth character behind three, and the third behind six,
      may be padding. */
  ghost predicate GoesOn(g: Key, p: nat, q: nat)
    requires |g| == 8
  {
    && p <= q && p in {0, 1, 3, 4, 6} && q in {0, 1, 3, 4, 6}
    && forall i :: 0 <= i < 8 ==>
         if 8 - q <= i < 8 - p then g[i] as char == '='
         else InAlphabet(g[i]) || (g[i] as char == '=' && ((i == 5 && p == 3) || (i == 2 && p == 6)))
  }

  /** The same on values. */
  ghost predicate Shape(c: seq<nat>, p: nat, q: nat)
    requires |c| == 8
  {
    && p <= q && p in {0, 1, 3, 4, 6} && q in {0, 1, 3, 4, 6}
    && forall i :: 0 <= i < 8 ==>
         if 8 - q <= i < 8 - p then c[i] == 32
         else c[i] < 32 || (c[i] == 32 && ((i == 5 && p == 3) || (i == 2 && p == 6)))
  }

  lemma GroupShape(c: seq<nat>, p: nat, q: nat)
    requires |c| == 8 && p in {0, 1, 3, 4, 6}
    ensures PadAfter(c, p) == Some(q) <==> Shape(c, p, q)
  {
    assert Shape(c, p, q) ==> forall i :: 0 <= i < 8 ==> c[i] <= 32;
  }

  lemma ValueKind(c: Byte)
    ensures (Dec(c) < 32 <==> InAlphabet(c)) && (Dec(c) == 32 <==> c as char == '=')
  {
  }

  lemma GroupAccepted(g: Key, p: nat, q: nat)
    requires |g| == 8 && p in {0, 1, 3, 4, 6}
    ensures PadAfter(Vals(g), p) == Some(q) <==> GoesOn(g, p, q)
  {
    hide Dec, InAlphabet, PadAfter;
    forall i | 0 <= i < 8
      ensures (Vals(g)[i] < 32 <==> InAlphabet(g[i])) && (Vals(g)[i] == 32 <==> g[i] as char == '=')
    {
      ValueKind(g[i]);
    }
    GroupShape(Vals(g), p, q);
    assert GoesOn(g, p, q) <==> Shape(Vals(g), p, q);
  }

  /** All texts that are accepted, p padding characters being known. */
  ghost predicate Accepted(t: Key, p: nat) {
    |t| < 8 || exists q: nat :: GoesOn(t[..8], p, q) && Accepted(t[8..], q)
  }

  /** The decoder accepts these texts and no others. */
  lemma {:induction false} DecodesExactly(t: Key, p: nat)
    requires p in {0, 1, 3, 4, 6}
    ensures Decoded(t, p).Some? <==> Accepted(t, p)
    decreases |t|
  {
    hide Vals, PadAfter, Octets, GoesOn;
    if |t| >= 8 {
      var a := PadAfter(Vals(t[..8]), p);
      DecodeStep(t, p);
      if a.Some? {
        GroupAccepted(t[..8], p, a.value);
        Follows(t[..8], p, a.value);
        DecodesExactly(t[8..], a.value);
      }
      forall q: nat | GoesOn(t[..8], p, q)
        ensures a == Some(q)
      {
        GroupAccepted(t[..8], p, q);
      }
    }
  }

  lemma Follows(g: Key, p: nat, q: nat)
    requires |g| == 8 && GoesOn(g, p, q)
    ensures q in {0, 1, 3, 4, 6}
  {
  }

  /** Without padding before the last group these are the texts of the alphabet with 0, 1,
      3, 4 or 6 padding characters at the end. */
  lemma {:induction false} AcceptedExactly(t: Key)
    requires |t| % 8 == 0 && forall i :: 0 <= i < |t| - 8 ==> t[i] as char != '='
    ensures Decoded(t, 0).Some? <==> exists p: nat :: Padded(t, p)
    decreases |t|
  {
    hide InAlphabet, GoesOn, Padded, Decoded;
    DecodesExactly(t, 0);
    if |t| == 0 {
      NothingPadded(t);
    } else if |t| == 8 {
      assert t[..8] == t && t[8..] == [];
      forall p: nat
        ensures GoesOn(t, 0, p) <==> Padded(t, p)
      {
        OneGroup(t, p);
      }
    } else {
      FirstOfMore(t);
      AcceptedExactly(t[8..]);
      DecodesExactly(t[8..], 0);
    }
  }

  lemma NothingPadded(t: Key)
    requires |t| == 0
    ensures Padded(t, 0)
  {
  }

  lemma OneGroup(t: Key, p: nat)
    requires |t| == 8
    ensures GoesOn(t, 0, p) <==> Padded(t, p)
  {
    assert GoesOn(t, 0, p) ==> Padded(t, p);
  }

  lemma FirstOfMore(t: Key)
    requires |t| > 8 && |t| % 8 == 0 && forall i :: 0 <= i < |t| - 8 ==> t[i] as char != '='
    ensures forall i :: 0 <= i < |t[8..]| - 8 ==> t[8..][i] as char != '='
    ensures forall p: nat :: Padded(t, p) <==> GoesOn(t[..8], 0, 0) && Padded(t[8..], p)
    ensures forall p: nat :: GoesOn(t[..8], 0, p) ==> p == 0
  {
    var g, r := t[..8], t[8..];
    assert forall i :: 0 <= i < 8 ==> g[i] == t[i];
    assert forall i :: 0 <= i < |r| ==> r[i] == t[8 + i];
    assert forall i :: 8 <= i < |t| ==> t[i] == r[i - 8];
    assert g[7] == t[7];
  }

  /** An input: the text of a single octet and eight more characters, which are not the
      text of any octets, are read as two octets. */
  lemma PaddingInside(t: Key)
    requires Spells(t, "00======00000000")
    ensures Decoded(t, 0) == Some([0, 0]) && forall b: Key :: Text(b) != t
  {
    hide Vals, PadAfter, Octets, Decoded, Text, Spells;
    TwoGroups(t);
    var g, r := t[..8], t[8..];
    DecodeStep(t, 0);
    DecodeStep(r, 6);
    assert r[8..] == [] && r[..8] == r;
    DecodedNothing(6);
    var none: Key, zero: Key := [], [0];
    assert zero + (zero + none) == [0, 0];
    forall b: Key
      ensures Text(b) != t
    {
      if Text(b) == t {
        RoundTrip(b, t);
      }
    }
  }

  lemma TwoGroups(t: Key)
    requires Spells(t, "00======00000000")
    ensures |t| == 16
    ensures PadAfter(Vals(t[..8]), 0) == Some(6) && Octets(Vals(t[..8]), 6) == [0]
    ensures PadAfter(Vals(t[8..]), 6) == Some(6) && Octets(Vals(t[8..]), 6) == [0]
  {
    assert t[..8] == [48, 48, 61, 61, 61, 61, 61, 61];
    assert t[8..] == [48, 48, 48, 48, 48, 48, 48, 48];
    assert Vals(t[..8]) == [0, 0, 32, 32, 32, 32, 32, 32];
    assert Vals(t[8..]) == [0, 0, 0, 0, 0, 0, 0, 0];
  }

  // ---- Back to the text ----

  /** Values of the last character that differ in bits no octet takes. */
  function Spare(p: nat): (n: nat)
    ensures n > 0
  {
    match p
    case 1 => 8
    case 3 => 2
    case 4 => 16
    case 6 => 4
    case _ => 1
  }

  lemma Modulo(k: nat, x: nat)
    requires x < 256
    ensures (256 * k + x) % 256 == x
  {
  }

  lemma Parts0(c0: nat, c1: nat)
    requires c0 < 32 && c1 < 32
    ensures O0(c0, c1) / 8 == c0 && O0(c0, c1) % 8 == c1 / 4
  {
  }

  lemma Parts1(c1: nat, c2: nat, c3: nat)
    requires c1 < 32 && c2 < 32 && c3 < 32
    ensures var o := O1(c1, c2, c3); o / 64 == c1 % 4 && o / 2 % 32 == c2 && o % 2 == c3 / 16
  {
    var x := c2 * 2 + c3 / 16;
    assert c1 * 64 + x == 256 * (c1 / 4) + (c1 % 4 * 64 + x);
    Modulo(c1 / 4, c1 % 4 * 64 + x);
    assert (c1 % 4 * 64 + x) / 2 == c1 % 4 * 32 + c2;
  }

  lemma Parts2(c3: nat, c4: nat)
    requires c3 < 32 && c4 < 32
    ensures O2(c3, c4) / 16 == c3 % 16 && O2(c3, c4) % 16 == c4 / 2
  {
    assert c3 * 16 + c4 / 2 == 256 * (c3 / 16) + (c3 % 16 * 16 + c4 / 2);
    Modulo(c3 / 16, c3 % 16 * 16 + c4 / 2);
  }

  lemma Parts3(c4: nat, c5: nat, c6: nat)
    requires c4 < 32 && c5 < 32 && c6 < 32
    ensures var o := O3(c4, c5, c6); o / 128 == c4 % 2 && o / 4 % 32 == c5 && o % 4 == c6 / 8
  {
    var x := c5 * 4 + c6 / 8;
    assert c4 * 128 + x == 256 * (c4 / 2) + (c4 % 2 * 128 + x);
    Modulo(c4 / 2, c4 % 2 * 128 + x);
    assert (c4 % 2 * 128 + x) / 4 == c4 % 2 * 32 + c5;
  }

  lemma Parts4(c6: nat, c7: nat)
    requires c6 < 32 && c7 < 32
    ensures O4(c6, c7) / 32 == c6 % 8 && O4(c6, c7) % 32 == c7
  {
    assert c6 * 32 + c7 == 256 * (c6 / 8) + (c6 % 8 * 32 + c7);
    Modulo(c6 / 8, c6 % 8 * 32 + c7);
  }

  lemma FirstDigits(c0: nat, c1: nat, o1: Byte)
    requires c0 < 32 && c1 < 32
    ensures D0(O0(c0, c1)) == c0
    ensures o1 / 64 == c1 % 4 ==> D1(O0(c0, c1), o1) == c1
    ensures o1 == 0 ==> D1(O0(c0, c1), o1) == c1 - c1 % 4
  {
    hide O0;
    Parts0(c0, c1);
  }

  lemma SecondDigits(c1: nat, c2: nat, c3: nat, o2: Byte)
    requires c1 < 32 && c2 < 32 && c3 < 32
    ensures O1(c1, c2, c3) / 64 == c1 % 4 && D2(O1(c1, c2, c3)) == c2
    ensures o2 / 16 == c3 % 16 ==> D3(O1(c1, c2, c3), o2) == c3
    ensures o2 == 0 ==> D3(O1(c1, c2, c3), o2) == c3 - c3 % 16
  {
    hide O1;
    Parts1(c1, c2, c3);
  }

  lemma ThirdDigits(c3: nat, c4: nat, o3: Byte)
    requires c3 < 32 && c4 < 32
    ensures O2(c3, c4) / 16 == c3 % 16
    ensures o3 / 128 == c4 % 2 ==> D4(O2(c3, c4), o3) == c4
    ensures o3 == 0 ==> D4(O2(c3, c4), o3) == c4 - c4 % 2
  {
    hide O2;
    Parts2(c3, c4);
  }

  lemma FourthDigits(c4: nat, c5: nat, c6: nat, o4: Byte)
    requires c4 < 32 && c5 < 32 && c6 < 32
    ensures O3(c4, c5, c6) / 128 == c4 % 2 && D5(O3(c4, c5, c6)) == c5
    ensures o4 / 32 == c6 % 8 ==> D6(O3(c4, c5, c6), o4) == c6
    ensures o4 == 0 ==> D6(O3(c4, c5, c6), o4) == c6 - c6 % 8
  {
    hide O3;
    Parts3(c4, c5, c6);
  }

  lemma FifthDigits(c6: nat, c7: nat)
    requires c6 < 32 && c7 < 32
    ensures O4(c6, c7) / 32 == c6 % 8 && D7(O4(c6, c7)) == c7
  {
    hide O4;
    Parts4(c6, c7);
  }

  /** The digits of the octets read from a group are its values, the last one without its
      spare bits. */
  lemma GroupBack(c: seq<nat>, p: nat)
    requires |c| == 8 && Shape(c, 0, p)
    ensures var d := Digits(Octets(c, p)); var n := 7 - p;
            |d| == 8 - p && d[..n] == c[..n] && d[n] == c[n] - c[n] % Spare(p)
  {
    hide Digits, O0, O1, O2, O3, O4, D0, D1, D2, D3, D4, D5, D6, D7;
    var b := Octets(c, p);
    DigitsAre(b);
    FirstDigits(c[0], c[1], Octet(b, 1));
    if p < 6 {
      SecondDigits(c[1], c[2], c[3], Octet(b, 2));
    }
    if p < 4 {
      ThirdDigits(c[3], c[4], Octet(b, 3));
    }
    if p < 3 {
      FourthDigits(c[4], c[5], c[6], Octet(b, 4));
    }
    if p < 1 {
      FifthDigits(c[6], c[7]);
    }
  }

  /** A character stands for value x exactly if it is that of the alphabet in either case. */
  lemma SameChar(c: Byte, x: nat)
    requires x < 32
    ensures (c == Char(x) || c == Upper(Char(x))) <==> Dec(c) == x
  {
  }

  lemma GroupText(g: Key, p: nat)
    requires |g| == 8 && Padded(g, p)
    ensures SameText(g, Group(Octets(Vals(g), p))) <==> Dec(g[7 - p]) % Spare(p) == 0
  {
    hide Char, Dec, Upper, InAlphabet, Digits, Octets, PadAfter;
    OneGroup(g, p);
    GroupAccepted(g, 0, p);
    GroupShape(Vals(g), 0, p);
    GroupBack(Vals(g), p);
    var c, d := Vals(g), Digits(Octets(Vals(g), p));
    forall i | 0 <= i < 7 - p
      ensures d[i] == Dec(g[i]) && (g[i] == Char(d[i]) || g[i] == Upper(Char(d[i])))
    {
      assert d[i] == d[..7 - p][i] == c[..7 - p][i];
      SameChar(g[i], d[i]);
    }
    SameChar(g[7 - p], d[7 - p]);
    CharIs(0);
    forall i | 8 - p <= i < 8
      ensures g[i] == PAD
    {
    }
  }

  /** Reading and writing again: what is accepted as it should be comes back, in either
      case, exactly if its last character has no spare bits set. */
  lemma {:induction false} Reencoded(t: Key, p: nat)
    requires |t| % 8 == 0 && |t| > 0 && Padded(t, p)
    ensures Decoded(t, 0).Some?
    ensures SameText(t, Text(Decoded(t, 0).value)) <==> Dec(t[|t| - p - 1]) % Spare(p) == 0
    decreases |t|
  {
    hide Group, SameText, Text, Vals, PadAfter, Octets, Dec, Padded, Decoded, Spare;
    var g, r := t[..8], t[8..];
    var q := if |t| == 8 then p else 0;
    FirstPadded(t, p);
    OneGroup(g, q);
    GroupAccepted(g, 0, q);
    Follows(g, 0, q);
    DecodeStep(t, 0);
    var o := Octets(Vals(g), q);
    GroupText(g, q);
    if |t| == 8 {
      assert r == [] && g == t;
      DecodedNothing(p);
      var none: Key := [];
      assert o + none == o;
      TextStart(o);
      TextNothing();
      assert Group(o) + [] == Group(o) && (|o| == 5 ==> o[..5] == o && o[5..] == []);
    } else {
      Reencoded(r, p);
      NoSpare();
      var b := o + Decoded(r, 0).value;
      assert b[..5] == o && b[5..] == Decoded(r, 0).value;
      TextStart(b);
      JoinSame(t, Group(o), Text(b[5..]));
      assert t[|t| - p - 1] == r[|r| - p - 1];
    }
  }

  lemma NoSpare()
    ensures Spare(0) == 1
  {
  }

  lemma FirstPadded(t: Key, p: nat)
    requires |t| % 8 == 0 && |t| > 0 && Padded(t, p)
    ensures p < 7 && if |t| == 8 then Padded(t[..8], p) else Padded(t[..8], 0) && Padded(t[8..], p)
  {
    assert |t| == 8 ==> t[..8] == t;
    assert forall i :: 0 <= i < |t| - 8 ==> t[8..][i] == t[8 + i];
  }

  lemma JoinSame(t: Key, a: Key, b: Key)
    requires |t| >= |a|
    ensures SameText(t, a + b) <==> SameText(t[..|a|], a) && SameText(t[|a|..], b)
  {
    var c := a + b;
    if SameText(t, c) {
      SplitSame(t, a, b);
    }
    if SameText(t[..|a|], a) && SameText(t[|a|..], b) {
      forall i | 0 <= i < |c|
        ensures t[i] == c[i] || t[i] == Upper(c[i])
      {
        assert i < |a| ==> t[..|a|][i] == t[i] && c[i] == a[i];
        assert i >= |a| ==> t[|a|..][i - |a|] == t[i] && c[i] == b[i - |a|];
      }
    }
  }

  // ---- knot_base32hex_encode ----

  datatype Result = Length(n: nat) | EINVAL | ERANGE | ESIZE | ECHAR

  /** Eight characters for the next octets of the input. */
  method PutGroup(out: array<Byte>, at: nat, b: Key)
    requires 1 <= |b| <= 5 && at + 8 <= out.Length
    modifies out
    ensures out[..at + 8] == old(out[..at]) + Group(b) && out[at + 8..] == old(out[at + 8..])
  {
    hide Digits;
    var d := Digits(b);
    var i := 0;
    while i < 8
      invariant 0 <= i <= 8
      invariant forall k :: at <= k < at + i ==> out[k] == Group(b)[k - at]
      invariant forall k :: 0 <= k < at || at + i <= k < out.Length ==> out[k] == old(out[k])
    {
      out[at + i] := if i < |d| then Char(d[i]) else PAD;
      i := i + 1;
    }
    assert out[at..at + 8] == Group(b);
    assert out[..at + 8] == out[..at] + out[at..at + 8];
  }

  lemma NextGroup(b: Key, i: nat)
    requires i + 5 <= |b|
    ensures Text(b[i..]) == Group(b[i..i + 5]) + Text(b[i + 5..])
  {
    hide Group, Text;
    TextStart(b[i..]);
    assert b[i..][..5] == b[i..i + 5] && b[i..][5..] == b[i + 5..];
  }

  /** The text is exactly that of the input, and nothing behind it is written. */
  method Encode(in_: Option<Key>, out: array?<Byte>) returns (r: Result)
    modifies if out == null then {} else {out}
    ensures r.EINVAL? <==> in_.None? || out == null
    ensures r.ERANGE? <==> !r.EINVAL? && (|in_.value| > 1342177275 || out.Length < |Text(in_.value)|)
    ensures r.Length? || r.EINVAL? || r.ERANGE?
    ensures r.Length? ==> r.n == |Text(in_.value)| <= out.Length && out[..r.n] == Text(in_.value)
    ensures r.Length? ==> out[r.n..] == old(out[r.n..])
  {
    hide Text;
    if in_.None? || out == null {
      return EINVAL;
    }
    TextLen(in_.value);
    if |in_.value| > MAX_BIN_DATA_LEN || out.Length < (|in_.value| + 4) / 5 * 8 {
      return ERANGE;
    }
    var n := EncodeInto(in_.value, out);
    return Length(n);
  }

  method EncodeInto(b: Key, out: array<Byte>) returns (text: nat)
    requires |Text(b)| <= out.Length
    modifies out
    ensures text == |Text(b)| && out[..text] == Text(b) && out[text..] == old(out[text..])
  {
    hide Group, Text;
    var stop := |b| - |b| % 5;
    text := 0;
    var i := 0;
    TextNothing();
    assert b[0..] == b;
    while i < stop
      invariant 0 <= i <= stop && (stop - i) % 5 == 0
      invariant text + |Text(b[i..])| == |Text(b)| && out[..text] + Text(b[i..]) == Text(b)
      invariant forall k :: text <= k < out.Length ==> out[k] == old(out[k])
    {
      NextGroup(b, i);
      PutGroup(out, text, b[i..i + 5]);
      text := text + 8;
      i := i + 5;
    }
    if |b| % 5 > 0 {
      TextStart(b[i..]);
      PutGroup(out, text, b[i..]);
      text := text + 8;
    } else {
      assert b[i..] == [];
    }
  }

  lemma TextNothing()
    ensures Text([]) == []
  {
  }

  // ---- knot_base32hex_decode ----

  /** Decodes as specified; in particular, the text of octets, in either case, gives them back. */
  method Decode(in_: Option<Key>, out: array?<Byte>) returns (r: Result)
    modifies if out == null then {} else {out}
    ensures r.EINVAL? <==> in_.None? || out == null
    ensures r.ERANGE? <==>
              !r.EINVAL? && (|in_.value| > 2147483647 || out.Length < (|in_.value| + 7) / 8 * 5)
    ensures r.ESIZE? <==> !r.EINVAL? && !r.ERANGE? && |in_.value| % 8 != 0
    ensures r.ECHAR? <==> !r.EINVAL? && !r.ERANGE? && !r.ESIZE? && Decoded(in_.value, 0) == None
    ensures r.Length? ==>
              Decoded(in_.value, 0).Some? && r.n <= out.Length && out[..r.n] == Decoded(in_.value, 0).value
  {
    if in_.None? || out == null {
      return EINVAL;
    }
    if |in_.value| > INT32_MAX || out.Length < (|in_.value| + 7) / 8 * 5 {
      return ERANGE;
    }
    if |in_.value| % 8 != 0 {
      return ESIZE;
    }
    var ok, n := DecodeInto(in_.value, out);
    return if ok then Length(n) else ECHAR;
  }

  /** The rest of a decoding behind octets that are there. */
  ghost function Behind(b: Key, r: Option<Key>): Option<Key> {
    match r
    case None => None
    case Some(c) => Some(b + c)
  }

  method DecodeInto(t: Key, out: array<Byte>) returns (ok: bool, bin: nat)
    requires |t| % 8 == 0 && |t| / 8 * 5 <= out.Length
    modifies out
    ensures ok <==> Decoded(t, 0).Some?
    ensures ok ==> bin <= out.Length && out[..bin] == Decoded(t, 0).value
  {
    hide Decoded, PadAfter, Octets, Vals;
    var i, pad := 0, 0;
    ok, bin := true, 0;
    assert t[0..] == t;
    NothingBehind(Decoded(t, 0));
    while i < |t|
      invariant 0 <= i <= |t| && i % 8 == 0 && bin <= i / 8 * 5 && ok
      invariant Decoded(t, 0) == Behind(out[..bin], Decoded(t[i..], pad))
    {
      var c := Vals(t[i..i + 8]);
      DecodeStep(t[i..], pad);
      assert t[i..][..8] == t[i..i + 8] && t[i..][8..] == t[i + 8..];
      var p := PadAfter(c, pad);
      if p.None? {
        return false, bin;
      }
      pad := p.value;
      ghost var done := out[..bin];
      BehindBoth(done, Octets(c, pad), Decoded(t[i + 8..], pad));
      PutOctets(out, bin, Octets(c, pad));
      bin := bin + OctetCount(pad);
      assert out[..bin] == done + Octets(c, pad);
      i := i + 8;
    }
    assert t[i..] == [];
    DecodedNothing(pad);
  }

  method PutOctets(out: array<Byte>, at: nat, b: Key)
    requires |b| <= 5 && at + |b| <= out.Length
    modifies out
    ensures out[..at + |b|] == old(out[..at]) + b
  {
    var i := 0;
    while i < |b|
      invariant 0 <= i <= |b|
      invariant out[..at + i] == old(out[..at]) + b[..i]
    {
      out[at + i] := b[i];
      i := i + 1;
    }
  }

  lemma DecodeStep(t: Key, pad: nat)
    requires |t| >= 8
    ensures Decoded(t, pad) ==
            match PadAfter(Vals(t[..8]), pad)
            case None => None
            case Some(p) => Behind(Octets(Vals(t[..8]), p), Decoded(t[8..], p))
  {
  }

  lemma BehindBoth(a: Key, b: Key, r: Option<Key>)
    ensures Behind(a, Behind(b, r)) == Behind(a + b, r)
  {
    if r.Some? {
      assert a + (b + r.value) == a + b + r.value;
    }
  }

  lemma NothingBehind(r: Option<Key>)
    ensures Behind([], r) == r
  {
    if r.Some? {
      assert [] + r.value == r.value;
    }
  }

  lemma DecodedNothing(pad: nat)
    ensures Decoded([], pad) == Some([])
  {
  }

  /** Through both calls: any permitted input comes back from its text. */
  method EncodeThenDecode(b: Key, upper: bool) returns (r: Result, back: array<Byte>)
    requires |b| <= MAX_BIN_DATA_LEN
    ensures r == Length(|b|) && |b| <= back.Length && back[..|b|] == b
  {
    hide Text, Decoded;
    TextLen(b);
    var n := (|b| + 4) / 5 * 8;
    var text := new Byte[n];
    var e := Encode(Some(b), text);
    var lower := text[..];
    assert lower == Text(b);
    var t := if upper then seq(n, i requires 0 <= i < n => Upper(lower[i])) else lower;
    RoundTrip(b, t);
    back := new Byte[(n + 7) / 8 * 5];
    r := Decode(Some(t), back);
  }
}
