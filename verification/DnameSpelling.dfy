/** Which texts knot_dname_from_str reads as which names, told character by character:
    every octet of a label may be spelled in up to three ways. */
module DnameSpelling {
  import opened Bytes
  import opened Options
  import opened Names
  import opened DnameText

  /** As it is (but not the dot and the backslash), behind a backslash (but not a digit),
      or as a backslash and three decimal digits. */
  ghost predicate SpellsOctet(s: Key, c: Byte) {
    || (s == [c] && c as char !in {'.', '\\'})
    || (s == ['\\' as int, c] && !('0' <= c as char <= '9'))
    || (&& |s| == 4 && s[0] as char == '\\' && (forall i :: 1 <= i < 4 ==> '0' <= s[i] as char <= '9')
        && (s[1] as int - 48) * 100 + (s[2] as int - 48) * 10 + (s[3] as int - 48) == c)
  }

  ghost predicate SpellsLabel(s: Key, l: Label)
    decreases |l|
  {
    if |l| == 0 then s == []
    else exists k: nat :: k <= |s| && SpellsOctet(s[..k], l[0]) && SpellsLabel(s[k..], l[1..])
  }

  /** Labels that are not empty, with a dot between any two and perhaps one at the end. */
  ghost predicate SpellsName(t: Key, ls: seq<Label>)
    decreases |ls|, 0
  {
    if |ls| == 0 then t == []
    else
      |ls[0]| > 0 && exists k: nat :: k <= |t| && SpellsLabel(t[..k], ls[0]) && SpellsRest(t[k..], ls[1..])
  }

  ghost predicate SpellsRest(t: Key, ls: seq<Label>)
    decreases |ls|, 1
  {
    if |t| == 0 then ls == [] else t[0] as char == '.' && SpellsName(t[1..], ls)
  }

  /** A text with octets of the first label read before. */
  ghost predicate SpellsFrom(t: Key, cur: Label, ls: seq<Label>) {
    if |ls| == 0 then t == [] && cur == []
    else
      && |ls[0]| > 0 && |cur| <= |ls[0]| && ls[0][..|cur|] == cur
      && exists k: nat :: k <= |t| && SpellsLabel(t[..k], ls[0][|cur|..]) && SpellsRest(t[k..], ls[1..])
  }

  /** The text starts with a spelling of c, of n characters, and with no other. */
  ghost predicate StartsWith(t: Key, n: nat, c: Byte) {
    0 < n <= |t| && forall k: nat, x: Byte :: k <= |t| ==> (SpellsOctet(t[..k], x) <==> k == n && x == c)
  }

  ghost predicate StartsBad(t: Key) {
    forall k: nat, x: Byte :: k <= |t| ==> !SpellsOctet(t[..k], x)
  }

  lemma FirstSpelled(t: Key)
    requires |t| > 0
    ensures t[0] == DOT ==> StartsBad(t)
    ensures t[0] != DOT && t[0] != BACKSLASH ==> StartsWith(t, 1, t[0])
    ensures t == [BACKSLASH] ==> StartsBad(t)
    ensures t[0] == BACKSLASH && |t| > 1 && !IsDigit(t[1]) ==> StartsWith(t, 2, t[1])
    ensures t[0] == BACKSLASH && |t| > 1 && IsDigit(t[1]) ==>
              if IsDecimal(t) then StartsWith(t, 4, Decimal(t)) else StartsBad(t)
  {
    forall k: nat, x: Byte | k <= |t|
      ensures SpellsOctet(t[..k], x) <==> SpelledAt(t, k, x)
    {
      SpelledThere(t, k, x);
    }
  }

  /** What a spelling is, read off the text in front of which it stands. */
  ghost predicate SpelledAt(t: Key, k: nat, x: Byte)
    requires 0 < |t| && k <= |t|
  {
    || (k == 1 && t[0] == x && x != DOT && x != BACKSLASH)
    || (k == 2 && t[0] == BACKSLASH && t[1] == x && !IsDigit(x))
    || (k == 4 && t[0] == BACKSLASH && IsDecimal(t) && Decimal(t) == x)
  }

  lemma SpelledThere(t: Key, k: nat, x: Byte)
    requires 0 < |t| && k <= |t|
    ensures SpellsOctet(t[..k], x) <==> SpelledAt(t, k, x)
  {
    var s := t[..k];
    assert forall i :: 0 <= i < k ==> s[i] == t[i];
  }

  /** One octet on. */
  lemma StepOn(t: Key, n: nat, c: Byte, cur: Label, ls: seq<Label>)
    requires |t| > 0 && t[0] != DOT && StartsWith(t, n, c)
    ensures SpellsFrom(t, cur, ls) <==> SpellsFrom(t[n..], cur + [c], ls)
  {
    hide SpellsOctet, SpellsRest;
    if |ls| > 0 {
      var l := ls[0];
      if SpellsFrom(t, cur, ls) {
        var k: nat :| k <= |t| && SpellsLabel(t[..k], l[|cur|..]) && SpellsRest(t[k..], ls[1..]);
        StepForth(t, n, c, cur, l, k, ls[1..]);
      }
      if SpellsFrom(t[n..], cur + [c], ls) {
        var k: nat :| k <= |t[n..]| && SpellsLabel(t[n..][..k], l[|cur + [c]|..]) && SpellsRest(t[n..][k..], ls[1..]);
        StepBack(t, n, c, cur, l, k);
        assert t[n..][k..] == t[n + k..];
      }
    }
  }

  lemma StepForth(t: Key, n: nat, c: Byte, cur: Label, l: Label, k: nat, rest: seq<Label>)
    requires |t| > 0 && t[0] != DOT && StartsWith(t, n, c) && k <= |t| && |cur| <= |l| && l[..|cur|] == cur
    requires SpellsLabel(t[..k], l[|cur|..]) && SpellsRest(t[k..], rest)
    ensures |cur| < |l| && l[..|cur| + 1] == cur + [c] && n <= k
    ensures SpellsLabel(t[n..][..k - n], l[|cur| + 1..]) && t[n..][k - n..] == t[k..]
  {
    hide SpellsOctet;
    var r := l[|cur|..];
    var u := t[k..];
    assert k == 0 ==> u == t;
    var j: nat :| j <= k && SpellsOctet(t[..k][..j], r[0]) && SpellsLabel(t[..k][j..], r[1..]);
    assert t[..k][..j] == t[..j];
    assert j == n && r[0] == c;
    assert t[..k][n..] == t[n..][..k - n] && r[1..] == l[|cur| + 1..];
    assert l[..|cur| + 1] == l[..|cur|] + [r[0]];
  }

  lemma StepBack(t: Key, n: nat, c: Byte, cur: Label, l: Label, k: nat)
    requires StartsWith(t, n, c) && n + k <= |t| && |cur| < |l| && l[..|cur| + 1] == cur + [c]
    requires SpellsLabel(t[n..][..k], l[|cur| + 1..])
    ensures SpellsLabel(t[..n + k], l[|cur|..]) && l[..|cur|] == cur
  {
    hide SpellsOctet;
    var r, s := l[|cur|..], t[..n + k];
    assert r[0] == l[..|cur| + 1][|cur|] == c && r[1..] == l[|cur| + 1..];
    assert s[n..] == t[n..][..k] && s[..n] == t[..n];
    assert l[..|cur|] == l[..|cur| + 1][..|cur|] == cur;
    assert n <= |s| && SpellsOctet(s[..n], r[0]) && SpellsLabel(s[n..], r[1..]);
  }

  /** A dot, the end, or something that spells nothing: the label is complete. */
  lemma LabelEnds(t: Key, cur: Label, ls: seq<Label>)
    requires StartsBad(t)
    ensures SpellsFrom(t, cur, ls) <==>
              if |ls| == 0 then t == [] && cur == [] else |cur| > 0 && ls[0] == cur && SpellsRest(t, ls[1..])
  {
    hide SpellsOctet, SpellsRest;
    if |ls| > 0 {
      var l := ls[0];
      if SpellsFrom(t, cur, ls) {
        var k: nat :| k <= |t| && SpellsLabel(t[..k], l[|cur|..]) && SpellsRest(t[k..], ls[1..]);
        NothingSpelled(t, k, l[|cur|..]);
        assert t[k..] == t && l == l[..|cur|];
      }
      if |cur| > 0 && l == cur && SpellsRest(t, ls[1..]) {
        assert l[..|cur|] == cur && t[0..] == t && t[..0] == [];
        assert SpellsLabel(t[..0], l[|cur|..]);
      }
    }
  }

  lemma NothingSpelled(t: Key, k: nat, l: Label)
    requires StartsBad(t) && k <= |t| && SpellsLabel(t[..k], l)
    ensures l == [] && k == 0
  {
    hide SpellsOctet;
    forall j: nat | j <= k
      ensures t[..k][..j] == t[..j]
    {
    }
  }

  /** From any point on, what is read is what is spelled. */
  lemma {:induction false} ParseSpells(t: Key, cur: Label, ls: seq<Label>)
    ensures Parse(t, cur) == Some(ls) <==> SpellsFrom(t, cur, ls)
    decreases |t|
  {
    hide SpellsFrom, SpellsOctet, StartsWith, StartsBad, SpellsName;
    if |t| == 0 {
      EmptyBad(t);
      LabelEnds(t, cur, ls);
      if |cur| > 0 {
        OneLabel(cur, ls);
      }
    } else {
      FirstSpelled(t);
      if t[0] == DOT {
        LabelEnds(t, cur, ls);
        AfterDot(t, cur, ls);
      } else if t[0] != BACKSLASH {
        StepOn(t, 1, t[0], cur, ls);
        ParseSpells(t[1..], cur + [t[0]], ls);
      } else if |t| == 1 {
        LabelEnds(t, cur, ls);
      } else if !IsDigit(t[1]) {
        StepOn(t, 2, t[1], cur, ls);
        ParseSpells(t[2..], cur + [t[1]], ls);
      } else if IsDecimal(t) {
        StepOn(t, 4, Decimal(t), cur, ls);
        ParseSpells(t[4..], cur + [Decimal(t)], ls);
      } else {
        LabelEnds(t, cur, ls);
      }
    }
  }

  lemma EmptyBad(t: Key)
    requires |t| == 0
    ensures StartsBad(t)
  {
  }

  lemma OneLabel(cur: Label, ls: seq<Label>)
    requires |cur| > 0
    ensures ls == [cur] <==> |ls| > 0 && ls[0] == cur && ls[1..] == []
  {
    if |ls| > 0 {
      assert ls == [ls[0]] + ls[1..];
    }
  }

  lemma AfterDot(t: Key, cur: Label, ls: seq<Label>)
    requires |t| > 0 && t[0] == DOT
    ensures Parse(t, cur) == Some(ls) <==> |ls| > 0 && |cur| > 0 && ls[0] == cur && SpellsName(t[1..], ls[1..])
    decreases |t|, 0
  {
    hide SpellsFrom, SpellsOctet, SpellsName;
    if |cur| > 0 {
      var r := Parse(t[1..], []);
      if |ls| > 0 {
        ParseSpells(t[1..], [], ls[1..]);
        NameFrom(t[1..], ls[1..]);
        assert r == Some(ls[1..]) && ls[0] == cur ==> [cur] + ls[1..] == ls;
      }
      if r.Some? && Parse(t, cur) == Some(ls) {
        assert ls == [cur] + r.value && ls[1..] == r.value;
      }
    }
  }

  lemma NameFrom(t: Key, ls: seq<Label>)
    ensures SpellsFrom(t, [], ls) <==> SpellsName(t, ls)
  {
    hide SpellsLabel, SpellsRest;
    if |ls| > 0 {
      assert ls[0][0..] == ls[0] && ls[0][..0] == [];
    }
  }

  /** Reading a text gives a name exactly if the text spells it; the root is spelled by
      a single dot. */
  lemma ReadsWhatIsSpelled(t: Key, ls: seq<Label>)
    ensures FromText(t) == Some(ls) <==> if |ls| == 0 then t == ['.' as int] else SpellsName(t, ls)
  {
    hide SpellsFrom, Parse;
    ParseSpells(t, [], ls);
    NameFrom(t, ls);
    if |ls| > 0 && (t == [] || t == [DOT]) {
      NotSpelled(t, ls);
    }
  }

  lemma NotSpelled(t: Key, ls: seq<Label>)
    requires |ls| > 0 && (t == [] || t == [DOT])
    ensures !SpellsName(t, ls)
  {
    if |t| > 0 {
      FirstSpelled(t);
    }
    if k: nat :| k <= |t| && SpellsLabel(t[..k], ls[0]) && |ls[0]| > 0 {
      NothingSpelled(t, k, ls[0]);
    }
  }
}
