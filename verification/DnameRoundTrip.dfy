/** Printing a name and reading it back, through the two calls of dname.c. */
module DnameRoundTrip {
  import opened Bytes
  import opened Options
  import opened Names
  import opened DnameWire
  import opened DnameText
  import DnameToStr
  import DnameFromStr

  /** strlen. */
  method StrLen(s: array<Byte>, ghost text: Key) returns (n: nat)
    requires 0 !in text && |text| < s.Length && s[..|text|] == text && s[|text|] == 0
    ensures n == |text|
  {
    forall k | 0 <= k < |text|
      ensures s[k] != 0
    {
      assert s[k] == s[..|text|][k];
    }
    n := 0;
    while s[n] != 0
      invariant 0 <= n <= |text|
      decreases |text| - n
    {
      n := n + 1;
    }
  }

  /** The wire form comes back octet by octet, with memory of the library's own or
      with buffers of 1005 and 255 octets. */
  method PrintAndRead(m: Key, name: nat, own: bool, ghost ls: seq<Label>) returns (w: array?<Byte>)
    requires NameAt(m, |m|, None, name, ls)
    ensures w != null && WireLen(ls) <= w.Length && name + WireLen(ls) <= |m|
    ensures w[..WireLen(ls)] == m[name..name + WireLen(ls)]
    ensures own ==> w.Length == WireLen(ls)
  {
    hide Chain, Text, FromText;
    ChainIsWire(m, |m|, name, ls);
    TextBound(ls);
    RoundTrip(ls);
    var res: array?<Byte>;
    if own {
      res := DnameToStr.ToStr(null, m, Some(name), ls);
    } else {
      var txt := new Byte[DNAME_TXT_MAXLEN + 1];
      res := DnameToStr.ToStrMax(txt, m, name, ls);
    }
    var n := StrLen(res, Text(ls));
    if own {
      w := DnameFromStr.FromStr(null, Some(res[..n]));
    } else {
      var wire := new Byte[DNAME_MAXLEN];
      w := DnameFromStr.FromStr(wire, Some(res[..n]));
    }
  }
}
