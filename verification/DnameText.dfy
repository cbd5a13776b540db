/** The text form of names (dname.c): how labels are written and read, the longest
    text, and the round trip. Characters are octets. */
module DnameText {
  import opened Bytes
  import opened Options
  import opened Names

  const DOT: Byte := 46
  const BACKSLASH: Byte := 92
  const DNAME_TXT_MAXLEN := 1004

  // ---- Character classes (contrib/ctype.h) ----

  predicate IsDigit(c: Byte) {
    48 <= c <= 57
  }

  predicate IsAlnum(c: Byte) {
    IsDigit(c) || 65 <= c <= 90 || 97 <= c <= 122
  }

  predicate IsPunct(c: Byte) {
    33 <= c <= 47 || 58 <= c <= 64 || 91 <= c <= 96 || 123 <= c <= 126
  }

  /** Octets written as they are: letters, digits, and - _ * / */
  predicate IsRaw(c: Byte) {
    IsAlnum(c) || c == 45 || c == 95 || c == 42 || c == 47
  }

  // ---- Writing ----

  function DecimalEscape(c: Byte): Key {
    [BACKSLASH, 48 + c / 100, 48 + c / 10 % 10, 48 + c % 10]
  }

  /** One octet of a label as text; 35 is the number sign. */
  function Esc(c: Byte): (s: Key)
    ensures 1 <= |s| <= 4 && 0 !in s
  {
    if IsRaw(c) then [c]
    else if IsPunct(c) && c != 35 then [BACKSLASH, c]
    else DecimalEscape(c)
  }

  ghost function EscAll(l: Label): Key {
    if |l| == 0 then [] else Esc(l[0]) + EscAll(l[1..])
  }

  ghost function TextOf(ls: seq<Label>): Key {
    if |ls| == 0 then [] else EscAll(ls[0]) + [DOT] + TextOf(ls[1..])
  }

  /** Every label ends with a dot; the root is a single dot. */
  ghost function Text(ls: seq<Label>): Key {
    if |ls| == 0 then [DOT] else TextOf(ls)
  }

  lemma {:induction false} EscConcat(a: Label, b: Label)
    ensures EscAll(a + b) == EscAll(a) + EscAll(b)
    decreases |a|
  {
    if |a| == 0 {
      assert a + b == b;
    } else {
      assert (a + b)[1..] == a[1..] + b;
      EscConcat(a[1..], b);
    }
  }

  lemma {:induction false} TextConcat(a: seq<Label>, b: seq<Label>)
    ensures TextOf(a + b) == TextOf(a) + TextOf(b)
    decreases |a|
  {
    if |a| == 0 {
      assert a + b == b;
    } else {
      assert (a + b)[1..] == a[1..] + b;
      TextConcat(a[1..], b);
    }
  }

  lemma {:induction false} EscLen(l: Label)
    ensures |l| <= |EscAll(l)| <= 4 * |l| && 0 !in EscAll(l)
    decreases |l|
  {
    if |l| > 0 {
      EscLen(l[1..]);
    }
  }

  // ---- The longest text ----

  /** A name of k labels and wire length n has at most 4n - 3k - 4 characters. */
  lemma {:induction false} TextLen(ls: seq<Label>)
    ensures |TextOf(ls)| + 3 * |ls| <= 4 * (WireLen(ls) - 1)
    ensures LabelsOk(ls) ==> WireLen(ls) - 1 <= 64 * |ls|
    ensures |TextOf(ls)| >= WireLen(ls) - 1 && 0 !in TextOf(ls)
    decreases |ls|
  {
    if |ls| > 0 {
      EscLen(ls[0]);
      TextLen(ls[1..]);
      if LabelsOk(ls) {
        assert forall i :: 0 <= i < |ls[1..]| ==> ls[1..][i] == ls[i + 1];
      }
    }
  }

  lemma TextBound(ls: seq<Label>)
    requires ValidName(ls)
    ensures |Text(ls)| <= DNAME_TXT_MAXLEN
    ensures 0 !in Text(ls) && |Text(ls)| > 0
  {
    TextLen(ls);
  }

  lemma {:induction false} EscZeros(n: nat)
    ensures |EscAll(seq(n, i => 0))| == 4 * n
  {
    var l: Label := seq(n, i => 0);
    if n > 0 {
      assert l[1..] == seq(n - 1, i => 0);
      EscZeros(n - 1);
    }
  }

  /** The bound is reached. */
  lemma LongestText()
    ensures var a: Label, b: Label := seq(63, i => 0), seq(61, i => 0);
            ValidName([a, a, a, b]) && |Text([a, a, a, b])| == DNAME_TXT_MAXLEN
  {
    var a: Label, b: Label := seq(63, i => 0), seq(61, i => 0);
    EscZeros(63);
    EscZeros(61);
    var n4: seq<Label>, n3: seq<Label>, n2: seq<Label>, n1: seq<Label> := [a, a, a, b], [a, a, b], [a, b], [b];
    assert n4[1..] == n3 && n3[1..] == n2 && n2[1..] == n1 && n1[1..] == [];
    assert |TextOf(n1)| == 245 && WireLen(n1) == 63;
    assert |TextOf(n2)| == 498 && WireLen(n2) == 127;
    assert |TextOf(n3)| == 751 && WireLen(n3) == 191;
  }

  // ---- Text and wire form compared ----

  ghost predicate RawLabel(l: Label) {
    forall k :: 0 <= k < |l| ==> IsRaw(l[k])
  }

  /** Nothing in the name is escaped. */
  ghost predicate AllRaw(ls: seq<Label>) {
    forall j :: 0 <= j < |ls| ==> RawLabel(ls[j])
  }

  lemma {:induction false} EscRaw(l: Label)
    ensures |EscAll(l)| == |l| <==> RawLabel(l)
    decreases |l|
  {
    if |l| > 0 {
      EscLen(l[1..]);
      EscRaw(l[1..]);
      assert RawLabel(l) <==> IsRaw(l[0]) && RawLabel(l[1..]) by {
        assert forall k :: 0 < k < |l| ==> l[k] == l[1..][k - 1];
      }
    }
  }

  lemma {:induction false} TextRaw(ls: seq<Label>)
    ensures |TextOf(ls)| == WireLen(ls) - 1 <==> AllRaw(ls)
    decreases |ls|
  {
    if |ls| > 0 {
      EscLen(ls[0]);
      EscRaw(ls[0]);
      TextLen(ls[1..]);
      TextRaw(ls[1..]);
      assert AllRaw(ls) <==> RawLabel(ls[0]) && AllRaw(ls[1..]) by {
        assert forall j :: 0 < j < |ls| ==> ls[j] == ls[1..][j - 1];
      }
    }
  }

  /** The wire form is the longer one exactly for names other than the root in which
      nothing is escaped, and then by one. */
  lemma WireLonger(ls: seq<Label>)
    ensures WireLen(ls) > |Text(ls)| <==> |ls| > 0 && AllRaw(ls)
    ensures WireLen(ls) <= |Text(ls)| + 1
  {
    TextRaw(ls);
    TextLen(ls);
  }

  // ---- The characters, one by one ----

  /** Letters, digits, hyphen, underscore, asterisk and slash. */
  ghost predicate Plain(c: Byte) {
    var ch := c as char;
    'A' <= ch <= 'Z' || 'a' <= ch <= 'z' || '0' <= ch <= '9' || ch in {'-', '_', '*', '/'}
  }

  /** The other punctuation characters of ASCII, without the number sign. */
  ghost predicate Quoted(c: Byte) {
    c as char in {'!', '"', '$', '%', '&', '\'', '(', ')', '+', ',', '.', ':', ';', '<', '=', '>', '?', '@',
                  '[', '\\', ']', '^', '`', '{', '|', '}', '~'}
  }

  /** The three ways to print an octet: as it is, behind a backslash, or as a backslash
      and three decimal digits; the length of the text tells which. */
  lemma OctetText(c: Byte)
    ensures |Text([[c]])| == 2 <==> Plain(c)
    ensures |Text([[c]])| == 3 <==> Quoted(c)
    ensures var t := Text([[c]]);
            && (Plain(c) ==> t == [c, '.' as int])
            && (Quoted(c) ==> t == ['\\' as int, c, '.' as int])
            && (!Plain(c) && !Quoted(c) ==>
                  && |t| == 5 && t[0] == '\\' as int && t[4] == '.' as int
                  && (forall i :: 1 <= i <= 3 ==> '0' as int <= t[i] <= '9' as int)
                  && (t[1] - '0' as int) * 100 + (t[2] - '0' as int) * 10 + (t[3] - '0' as int) == c)
  {
    OctetEsc(c);
    var ls: seq<Label>, l: Label := [[c]], [c];
    assert ls[1..] == [] && l[1..] == [];
    assert EscAll(l) == Esc(c) + [] == Esc(c);
    assert TextOf(ls) == EscAll(l) + [DOT] + [] == Esc(c) + [DOT];
  }

  lemma OctetEsc(c: Byte)
    ensures Plain(c) ==> Esc(c) == ([c])
    ensures Quoted(c) ==> Esc(c) == ['\\' as int, c]
    ensures !Plain(c) && !Quoted(c) ==> Esc(c) == DecimalEscape(c)
    ensures !(Plain(c) && Quoted(c))
  {
  }

  lemma {:induction false} PlainEsc(l: Label)
    requires forall k :: 0 <= k < |l| ==> Plain(l[k])
    ensures EscAll(l) == l
    decreases |l|
  {
    if |l| > 0 {
      OctetEsc(l[0]);
      PlainEsc(l[1..]);
      assert l == [l[0]] + l[1..];
    }
  }

  /** A name of plain characters is printed as its labels, each with a dot. */
  lemma PlainText(l: Label, ls: seq<Label>)
    requires forall k :: 0 <= k < |l| ==> Plain(l[k])
    ensures Text([l]) == l + ['.' as int]
    ensures |ls| > 0 ==> Text([l] + ls) == l + ['.' as int] + Text(ls)
  {
    PlainEsc(l);
    var one: seq<Label> := [l];
    assert one[1..] == [];
    assert ([l] + ls)[1..] == ls;
    assert TextOf(one) == l + [DOT] + [] == l + [DOT];
  }

  // ---- Reading ----

  predicate IsDecimal(t: Key) {
    |t| >= 4 && IsDigit(t[1]) && IsDigit(t[2]) && IsDigit(t[3]) && Decimal(t) < 256
  }

  function Decimal(t: Key): int
    requires |t| >= 4
  {
    (t[1] as int - 48) * 100 + (t[2] as int - 48) * 10 + (t[3] as int - 48)
  }

  /** The labels of text t when the octets cur of the first label were read before;
      None for malformed text. */
  ghost function Parse(t: Key, cur: Label): Option<seq<Label>>
    decreases |t|
  {
    if |t| == 0 then Some(if |cur| == 0 then [] else [cur])
    else if t[0] == DOT then
      if |cur| == 0 then None else Prepend(cur, Parse(t[1..], []))
    else if t[0] != BACKSLASH then Parse(t[1..], cur + [t[0]])
    else if |t| == 1 then None
    else if !IsDigit(t[1]) then Parse(t[2..], cur + [t[1]])
    else if IsDecimal(t) then Parse(t[4..], cur + [Decimal(t)])
    else None
  }

  ghost function Prepend(l: Label, r: Option<seq<Label>>): Option<seq<Label>> {
    match r
    case None => None
    case Some(ls) => Some([l] + ls)
  }

  /** Text as knot_dname_from_str reads it. */
  ghost function FromText(t: Key): Option<seq<Label>> {
    if |t| == 0 then None
    else if t == [DOT] then Some([])
    else Parse(t, [])
  }

  lemma EscThenParse(c: Byte, t: Key, cur: Label)
    ensures Parse(Esc(c) + t, cur) == Parse(t, cur + [c])
  {
    var s := Esc(c) + t;
    if IsRaw(c) {
      assert s[0] == c && s[1..] == t;
    } else if IsPunct(c) && c != 35 {
      assert s[0] == BACKSLASH && s[1] == c && s[2..] == t;
    } else {
      DecimalBack(c);
      var e := DecimalEscape(c);
      assert s[0] == e[0] && s[1] == e[1] && s[2] == e[2] && s[3] == e[3];
      assert s[4..] == t;
    }
  }

  lemma DecimalBack(c: Byte)
    ensures IsDecimal(DecimalEscape(c)) && Decimal(DecimalEscape(c)) == c
  {
    var x := c as int;
    assert x == x / 100 * 100 + (x / 10 % 10) * 10 + x % 10;
  }

  lemma {:induction false} EscAllThenParse(l: Label, t: Key, cur: Label)
    ensures Parse(EscAll(l) + t, cur) == Parse(t, cur + l)
    decreases |l|
  {
    if |l| == 0 {
      assert EscAll(l) + t == t && cur + l == cur;
    } else {
      assert EscAll(l) + t == Esc(l[0]) + (EscAll(l[1..]) + t);
      EscThenParse(l[0], EscAll(l[1..]) + t, cur);
      EscAllThenParse(l[1..], t, cur + [l[0]]);
      assert cur + [l[0]] + l[1..] == cur + l;
    }
  }

  lemma {:induction false} TextParses(ls: seq<Label>)
    requires LabelsOk(ls)
    ensures Parse(TextOf(ls), []) == Some(ls)
    decreases |ls|
  {
    hide Parse, EscAll;
    if |ls| > 0 {
      var t := [DOT] + TextOf(ls[1..]);
      assert TextOf(ls) == EscAll(ls[0]) + t;
      EscAllThenParse(ls[0], t, []);
      assert [] + ls[0] == ls[0];
      DotEnds(t, ls[0]);
      assert t[1..] == TextOf(ls[1..]);
      TextParses(ls[1..]);
      assert ls == [ls[0]] + ls[1..];
    } else {
      NoText();
    }
  }

  lemma DotEnds(t: Key, cur: Label)
    requires |t| > 0 && t[0] == DOT && |cur| > 0
    ensures Parse(t, cur) == Prepend(cur, Parse(t[1..], []))
  {
  }

  lemma NoText()
    ensures Parse([], []) == Some([])
  {
  }

  /** Reading what was written gives the same labels. */
  lemma RoundTrip(ls: seq<Label>)
    requires LabelsOk(ls)
    ensures FromText(Text(ls)) == Some(ls)
  {
    if |ls| > 0 {
      TextParses(ls);
      EscLen(ls[0]);
      assert |Text(ls)| >= 2;
    }
  }
}
