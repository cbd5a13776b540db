/** knot_dname_from_str: reading a name from text into a given or an own buffer. */
module DnameFromStr {
  import opened Bytes
  import opened Options
  import opened Names
  import opened DnameWire
  import opened DnameText

  // ---- What the rest of a text can still become ----

  ghost function Prefixed(done: seq<Label>, r: Option<seq<Label>>): Option<seq<Label>> {
    match r
    case None => None
    case Some(ls) => Some(done + ls)
  }

  /** Octets read so far stay at the front of the first label. */
  lemma {:induction false} ParseKeeps(t: Key, cur: Label)
    requires Parse(t, cur).Some? && (|t| > 0 || |cur| > 0)
    ensures var ls := Parse(t, cur).value;
            |ls| > 0 && |ls[0]| >= |cur| && WireLen(ls) >= |cur| + 2 && |ls[0]| > 0
    decreases |t|
  {
    if |t| == 0 {
      OneLen(cur);
    } else if t[0] == DOT {
      var ls := Parse(t, cur).value;
      assert ls[1..] == Parse(t[1..], []).value;
      WireLenAtLeast(ls[1..]);
    } else if t[0] != BACKSLASH {
      ParseKeeps(t[1..], cur + [t[0]]);
    } else if !IsDigit(t[1]) {
      ParseKeeps(t[2..], cur + [t[1]]);
    } else {
      ParseKeeps(t[4..], cur + [Decimal(t)]);
    }
  }

  lemma OneLen(l: Label)
    ensures WireLen([l]) == |l| + 2
  {
    var one: seq<Label> := [l];
    assert one[1..] == [];
  }

  /** Text never takes less room than the wire form. */
  lemma {:induction false} ParseShort(t: Key, cur: Label)
    requires Parse(t, cur).Some?
    ensures WireLen(Parse(t, cur).value) <= |cur| + |t| + 2
    ensures |t| > 0 && t[|t| - 1] == DOT ==> WireLen(Parse(t, cur).value) <= |cur| + |t| + 1
    decreases |t|
  {
    if |t| == 0 {
      OneLen(cur);
    } else if t[0] == DOT {
      ParseShort(t[1..], []);
      assert Parse(t, cur).value[1..] == Parse(t[1..], []).value;
      assert |t| == 1 ==> Parse(t[1..], []).value == [];
    } else if t[0] != BACKSLASH {
      ParseShort(t[1..], cur + [t[0]]);
    } else if !IsDigit(t[1]) {
      ParseShort(t[2..], cur + [t[1]]);
    } else {
      ParseShort(t[4..], cur + [Decimal(t)]);
    }
  }

  /** A name that fits the room: what a successful run stores. */
  ghost predicate Fits(r: Option<seq<Label>>, room: nat) {
    r.Some? && LabelsOk(r.value) && WireLen(r.value) <= room
  }

  lemma NoRoom(done: seq<Label>, t: Key, cur: Label, room: nat)
    requires (|t| > 0 || |cur| > 0) && WireLen(done) + |cur| >= room
    ensures !Fits(Prefixed(done, Parse(t, cur)), room)
  {
    if Parse(t, cur).Some? {
      ParseKeeps(t, cur);
      WireLenConcat(done, Parse(t, cur).value);
    }
  }

  lemma TooLong(done: seq<Label>, t: Key, cur: Label, room: nat)
    requires |cur| > DNAME_MAXLABELLEN
    ensures !Fits(Prefixed(done, Parse(t, cur)), room)
  {
    if Parse(t, cur).Some? {
      ParseKeeps(t, cur);
      var ls := done + Parse(t, cur).value;
      assert |ls[|done|]| > DNAME_MAXLABELLEN;
    }
  }

  // ---- The wire form under construction ----

  /** Finished labels, then a label of which the octets cur are there. */
  ghost predicate Holds(w: Key, done: seq<Label>, cur: Label) {
    LabelsOk(done) && |cur| <= DNAME_MAXLABELLEN && w == Packed(done) + [|cur|] + cur
  }

  lemma HoldsStart()
    ensures Holds([0], [], []) && WireLen([]) == 1
  {
  }

  lemma HoldsSize(w: Key, done: seq<Label>, cur: Label)
    requires Holds(w, done, cur)
    ensures |w| == WireLen(done) + |cur| && WireLen(done) >= 1 && w[WireLen(done) - 1] == |cur| <= DNAME_MAXLABELLEN
  {
    WireLenAtLeast(done);
  }

  lemma HoldsNext(w: Key, done: seq<Label>, cur: Label)
    requires Holds(w, done, cur) && |cur| > 0
    ensures Holds(w + [0], done + [cur], []) && WireLen(done + [cur]) == |w| + 1
  {
    PackedSnoc(done, cur);
  }

  lemma HoldsOctet(w: Key, done: seq<Label>, cur: Label, c: Byte)
    requires Holds(w, done, cur) && |cur| < DNAME_MAXLABELLEN
    ensures WireLen(done) >= 1 && WireLen(done) - 1 < |w|
    ensures Holds(w[WireLen(done) - 1 := |cur| + 1] + [c], done, cur + [c])
  {
    WireLenAtLeast(done);
    CountUp(Packed(done), |cur|, |cur| + 1, cur, c);
  }

  lemma CountUp(a: Key, x: Byte, y: Byte, b: Key, c: Byte)
    ensures (a + [x] + b)[|a| := y] + [c] == a + [y] + (b + [c])
  {
    assert (a + [x] + b)[|a| := y] == a + [y] + b;
  }

  lemma HoldsEnd(w: Key, done: seq<Label>)
    requires Holds(w, done, [])
    ensures LabelsOk(done) && w == Wire(done) && |w| == WireLen(done)
  {
  }

  // ---- One step of reading ----

  /** The text t, read up to ch, is done plus a label under way. */
  ghost predicate Reading(t: Key, ch: nat, done: seq<Label>, cur: Label) {
    ch <= |t| && Parse(t, []) == Prefixed(done, Parse(t[ch..], cur))
  }

  lemma ReadDot(t: Key, ch: nat, done: seq<Label>, cur: Label)
    requires Reading(t, ch, done, cur) && ch < |t| && t[ch] == DOT
    ensures |cur| == 0 ==> Parse(t, []) == None
    ensures |cur| > 0 ==> Reading(t, ch + 1, done + [cur], [])
  {
    var s := t[ch..];
    assert s[0] == DOT && s[1..] == t[ch + 1..];
    if |cur| > 0 && Parse(s[1..], []).Some? {
      var ls := Parse(s[1..], []).value;
      assert done + ([cur] + ls) == (done + [cur]) + ls;
    }
  }

  lemma ReadPlain(t: Key, ch: nat, done: seq<Label>, cur: Label)
    requires Reading(t, ch, done, cur) && ch < |t| && t[ch] != DOT && t[ch] != BACKSLASH
    ensures Reading(t, ch + 1, done, cur + [t[ch]])
  {
    var s := t[ch..];
    assert s[0] == t[ch] && s[1..] == t[ch + 1..];
  }

  lemma ReadEscape(t: Key, ch: nat, done: seq<Label>, cur: Label)
    requires Reading(t, ch, done, cur) && ch < |t| && t[ch] == BACKSLASH
    ensures ch + 1 == |t| ==> Parse(t, []) == None
    ensures ch + 1 < |t| && !IsDigit(t[ch + 1]) ==> Reading(t, ch + 2, done, cur + [t[ch + 1]])
    ensures ch + 1 < |t| && IsDigit(t[ch + 1]) ==>
              if IsDecimal(t[ch..]) then Reading(t, ch + 4, done, cur + [Decimal(t[ch..])])
              else Parse(t, []) == None
  {
    var s := t[ch..];
    assert s[0] == t[ch];
    if |s| > 1 {
      assert s[1] == t[ch + 1] && s[2..] == t[ch + 2..];
      if |s| >= 4 {
        assert s[4..] == t[ch + 4..];
      }
    }
  }

  lemma ReadAll(t: Key, done: seq<Label>, cur: Label)
    requires Reading(t, |t|, done, cur)
    ensures Parse(t, []) == Some(if |cur| == 0 then done else done + [cur])
  {
    assert t[|t|..] == [];
    assert done + [] == done;
  }

  /** Adds an octet to the label under way: the length octet at `label` is counted up. */
  method PutOctet(wire: array<Byte>, label_: nat, pos: nat, c: Byte, ghost done: seq<Label>, ghost cur: Label)
    requires pos < wire.Length && Holds(wire[..pos], done, cur) && |cur| < DNAME_MAXLABELLEN
    requires label_ == WireLen(done) - 1 && label_ < pos && wire[label_] == |cur|
    modifies wire
    ensures Holds(wire[..pos + 1], done, cur + [c])
  {
    hide Holds;
    HoldsOctet(wire[..pos], done, cur, c);
    ghost var w: Key := wire[..pos];
    wire[label_] := wire[label_] + 1;
    assert wire[..pos] == w[label_ := |cur| + 1];
    wire[pos] := c;
    assert wire[..pos + 1] == wire[..pos] + [c];
  }

  /** Reads one escape or plain character at ch into the label under way. */
  method ReadOctet(wire: array<Byte>, label_: nat, pos: nat, alloc: nat, t: Key, ch: nat,
                   ghost done: seq<Label>, ghost cur: Label)
    returns (ok: bool, ch': nat, ghost cur': Label)
    requires pos < alloc <= wire.Length && Holds(wire[..pos], done, cur) && label_ == WireLen(done) - 1 < pos
    requires wire[label_] == |cur| && Reading(t, ch, done, cur) && ch < |t| && t[ch] != DOT
    modifies wire
    ensures !ok ==> !Fits(Parse(t, []), alloc)
    ensures ok ==> ch < ch' && Reading(t, ch', done, cur') && |cur'| > 0 && Holds(wire[..pos + 1], done, cur')
    ensures ok ==> |cur'| == |cur| + 1 && ch' <= |t|
  {
    hide Holds, Reading, Parse, Fits;
    ghost var w := wire[..pos];
    HoldsSize(w, done, cur);
    if t[ch] == BACKSLASH {
      ReadEscape(t, ch, done, cur);
      ch' := ch + 1;
      if ch' == |t| {
        NotFits(alloc);
        return false, ch', cur;
      }
      if wire[label_] + 1 > DNAME_MAXLABELLEN {
        EscapeTooLong(t, ch, done, cur, alloc);
        return false, ch', cur;
      }
      if IsDigit(t[ch']) {
        if ch' + 2 >= |t| || !IsDigit(t[ch' + 1]) || !IsDigit(t[ch' + 2]) {
          NotFits(alloc);
          return false, ch', cur;
        }
        var num := (t[ch'] as int - 48) * 100 + (t[ch' + 1] as int - 48) * 10 + (t[ch' + 2] as int - 48);
        if num > 255 {
          NotFits(alloc);
          return false, ch', cur;
        }
        PutOctet(wire, label_, pos, num, done, cur);
        return true, ch' + 3, cur + [num];
      }
      PutOctet(wire, label_, pos, t[ch'], done, cur);
      return true, ch' + 1, cur + [t[ch']];
    }
    ReadPlain(t, ch, done, cur);
    if wire[label_] + 1 > DNAME_MAXLABELLEN {
      ReadTooLong(t, ch + 1, done, cur + [t[ch]], alloc);
      return false, ch, cur;
    }
    PutOctet(wire, label_, pos, t[ch], done, cur);
    return true, ch + 1, cur + [t[ch]];
  }

  lemma NotFits(room: nat)
    ensures !Fits(None, room)
  {
  }

  lemma ReadTooLong(t: Key, ch: nat, done: seq<Label>, cur: Label, room: nat)
    requires Reading(t, ch, done, cur) && |cur| > DNAME_MAXLABELLEN
    ensures !Fits(Parse(t, []), room)
  {
    TooLong(done, t[ch..], cur, room);
  }

  lemma EscapeTooLong(t: Key, ch: nat, done: seq<Label>, cur: Label, room: nat)
    requires Reading(t, ch, done, cur) && ch + 1 < |t| && t[ch] == BACKSLASH && |cur| >= DNAME_MAXLABELLEN
    ensures !Fits(Parse(t, []), room)
  {
    hide Reading, Parse, Fits;
    NotFits(room);
    ReadEscape(t, ch, done, cur);
    if !IsDigit(t[ch + 1]) {
      ReadTooLong(t, ch + 2, done, cur + [t[ch + 1]], room);
    } else if IsDecimal(t[ch..]) {
      ReadTooLong(t, ch + 4, done, cur + [Decimal(t[ch..])], room);
    }
  }

  lemma ReadNoRoom(t: Key, ch: nat, done: seq<Label>, cur: Label, room: nat)
    requires Reading(t, ch, done, cur) && (ch < |t| || |cur| > 0) && WireLen(done) + |cur| >= room
    ensures !Fits(Parse(t, []), room)
  {
    NoRoom(done, t[ch..], cur, room);
  }

  lemma ReadStart(t: Key)
    ensures Reading(t, 0, [], [])
  {
    assert t[0..] == t;
    if Parse(t, []).Some? {
      assert [] + Parse(t, []).value == Parse(t, []).value;
    }
  }

  /** The end of the text: the finished labels are a name. */
  lemma ReadDone(t: Key, w: Key, done: seq<Label>, room: nat)
    requires Reading(t, |t|, done, []) && Holds(w, done, []) && |w| <= room
    ensures Parse(t, []) == Some(done) && Fits(Parse(t, []), room)
    ensures LabelsOk(done) && w == Wire(done) && |w| == WireLen(done)
  {
    ReadAll(t, done, []);
    HoldsEnd(w, done);
  }

  /** The end of the text inside a label: without a final dot the name is complete, too. */
  lemma ReadDoneOpen(t: Key, done: seq<Label>, cur: Label)
    requires Reading(t, |t|, done, cur) && |cur| > 0
    ensures Reading(t, |t|, done + [cur], [])
  {
    ReadAll(t, done, cur);
    assert t[|t|..] == [];
    assert (done + [cur]) + [] == done + [cur];
  }

  /** The loop over the text. The single dot alone leaves a second zero octet. */
  method ReadText(wire: array<Byte>, alloc: nat, t: Key) returns (ok: bool, pos: nat)
    requires 1 <= alloc <= wire.Length
    modifies wire
    ensures t == [DOT] ==> (ok <==> alloc >= 2) && (ok ==> pos == 2 && wire[..pos] == [0, 0])
    ensures t != [DOT] ==> (ok <==> Fits(Parse(t, []), alloc))
    ensures ok ==> pos <= alloc
    ensures t != [DOT] && ok ==> wire[..pos] == Wire(Parse(t, []).value) && pos == WireLen(Parse(t, []).value)
  {
    hide Holds, Reading, Parse, WireLen, LabelsOk;
    var label_: nat := 0;
    ok, pos := true, 1;
    wire[0] := 0;
    var ch: nat := 0;
    ghost var done: seq<Label>, cur: Label := [], [];
    HoldsStart();
    ReadStart(t);
    assert wire[..1] == [0];
    while ch < |t|
      invariant ch <= |t| && label_ < pos <= alloc && (ch == 0 ==> done == [] && cur == [])
      invariant t == [DOT] && ch == 1 ==> pos == 2 && label_ == 1 && wire[..2] == [0, 0]
      invariant !(t == [DOT] && ch == 1) ==>
                  && Reading(t, ch, done, cur) && Holds(wire[..pos], done, cur)
                  && label_ + 1 == WireLen(done) && pos == WireLen(done) + |cur| && wire[label_] == |cur|
      decreases |t| - ch
    {
      if pos >= alloc {
        ReadNoRoom(t, ch, done, cur, alloc);
        return false, pos;
      }
      ghost var w := wire[..pos];
      if t[ch] == DOT {
        ReadDot(t, ch, done, cur);
        if wire[label_] == 0 && |t| > 1 {
          NotFits(alloc);
          return false, pos;
        }
        label_ := pos;
        pos := pos + 1;
        wire[label_] := 0;
        assert wire[..pos] == w + [0];
        ch := ch + 1;
        if |cur| > 0 {
          HoldsNext(w, done, cur);
          done, cur := done + [cur], [];
        } else {
          DotOnly(t, w, done);
        }
      } else {
        ok, ch, cur := ReadOctet(wire, label_, pos, alloc, t, ch, done, cur);
        if !ok {
          return false, pos;
        }
        pos := pos + 1;
        HoldsSize(wire[..pos], done, cur);
      }
    }
    if wire[label_] > 0 {
      if pos >= alloc {
        ReadNoRoom(t, ch, done, cur, alloc);
        return false, pos;
      }
      ghost var w := wire[..pos];
      wire[pos] := 0;
      pos := pos + 1;
      assert wire[..pos] == w + [0];
      HoldsNext(w, done, cur);
      ReadDoneOpen(t, done, cur);
      done, cur := done + [cur], [];
    }
    if t != [DOT] {
      ReadDone(t, wire[..pos], done, alloc);
    }
  }

  /** A dot at the start that is not refused is the whole text. */
  lemma DotOnly(t: Key, w: Key, done: seq<Label>)
    requires Holds(w, done, []) && t == [DOT] && WireLen(done) == 1
    ensures w == [0]
  {
    if |done| > 0 {
      WireLenAtLeast(done[1..]);
    }
  }

  // ---- The whole call ----

  /** Reading into memory of the caller. */
  method FromStrInto(dst: array<Byte>, t: Key) returns (ok: bool)
    requires |t| > 0
    modifies dst
    ensures ok <==>
              && FromText(t).Some? && ValidName(FromText(t).value) && WireLen(FromText(t).value) <= dst.Length
              && (t == [DOT] ==> dst.Length >= 2)
    ensures ok ==> var ls := FromText(t).value;
                   ValidName(ls) && WireLen(ls) <= dst.Length && dst[..WireLen(ls)] == Wire(ls)
  {
    hide Parse;
    var allocSize := dst.Length;
    RootFacts();
    if allocSize == 0 {
      if FromText(t).Some? {
        WireLenAtLeast(FromText(t).value);
      }
      return false;
    }
    if allocSize > DNAME_MAXLEN {
      allocSize := DNAME_MAXLEN;
    }
    var pos;
    ok, pos := ReadText(dst, allocSize, t);
    if ok && t == [DOT] {
      assert dst[..1] == dst[..pos][..1] == [0];
    }
  }

  lemma RootFacts()
    ensures LabelsOk([]) && WireLen([]) == 1 && Wire([]) == [0]
  {
  }

  /** Reading into own memory, estimated from the text and reduced at the end. */
  method FromStrAlloc(t: Key) returns (r: array?<Byte>)
    requires |t| > 0
    ensures r != null <==> FromText(t).Some? && ValidName(FromText(t).value)
    ensures r != null ==>
              var ls := FromText(t).value;
              fresh(r) && ValidName(ls) && r.Length == WireLen(ls) && r[..] == Wire(ls)
  {
    hide Parse;
    RootFacts();
    var allocSize, text := 0, t;
    if t[0] == DOT {
      if |t| > 1 {
        LeadingDot(t);
        return null;
      }
      allocSize, text := 1, [];
      EmptyText();
    } else if t[|t| - 1] != DOT {
      allocSize := 1 + |t| + 1;
    } else {
      allocSize := 1 + |t|;
    }
    EnoughRoom(t);
    if allocSize > DNAME_MAXLEN {
      allocSize := DNAME_MAXLEN;
    }
    var wire := new Byte[allocSize];
    var ok, pos := ReadText(wire, allocSize, text);
    if !ok {
      return null;
    }
    r := wire;
    if pos < allocSize {
      r := Reduce(wire, pos);
    }
  }

  lemma EmptyText()
    ensures Parse([], []) == Some([])
  {
  }

  lemma LeadingDot(t: Key)
    requires |t| > 1 && t[0] == DOT
    ensures FromText(t) == None
  {
  }

  lemma EnoughRoom(t: Key)
    requires |t| > 0
    ensures Parse(t, []).Some? ==>
              WireLen(Parse(t, []).value) <= if t[|t| - 1] != DOT then 1 + |t| + 1 else 1 + |t|
  {
    if Parse(t, []).Some? {
      ParseShort(t, []);
    }
  }

  /** realloc to a smaller size. */
  method Reduce(wire: array<Byte>, n: nat) returns (r: array<Byte>)
    requires n <= wire.Length
    ensures fresh(r) && r.Length == n && r[..] == wire[..n]
  {
    r := new Byte[n];
    var i := 0;
    while i < n
      invariant 0 <= i <= n
      invariant r[..i] == wire[..i]
    {
      r[i] := wire[i];
      i := i + 1;
    }
  }

  /** knot_dname_from_str; a given buffer has its size for maxlen. Exactly the texts
      of valid names that fit are read, except that a given buffer needs two octets for
      the text of the root; and what is stored passes the wire check. */
  method FromStr(dst: array?<Byte>, name: Option<Key>) returns (r: array?<Byte>)
    requires name.Some? ==> 0 !in name.value
    modifies if dst == null then {} else {dst}
    ensures r != null <==>
              && name.Some? && FromText(name.value).Some?
              && ValidName(FromText(name.value).value)
              && (dst != null ==> WireLen(FromText(name.value).value) <= dst.Length
                                  && (name.value == [DOT] ==> dst.Length >= 2))
    ensures r != null ==>
              var ls := FromText(name.value).value;
              && ValidName(ls) && WireLen(ls) <= r.Length && r[..WireLen(ls)] == Wire(ls)
              && NameAt(r[..], r.Length, None, 0, ls)
              && if dst == null then fresh(r) && r.Length == WireLen(ls) else r == dst
  {
    if name.None? || |name.value| == 0 {
      return null;
    }
    if dst == null {
      r := FromStrAlloc(name.value);
    } else {
      var ok := FromStrInto(dst, name.value);
      r := if ok then dst else null;
    }
    if r != null {
      ghost var ls := FromText(name.value).value;
      assert r[..][0..0 + WireLen(ls)] == Wire(ls);
      WireReads(r[..], r.Length, None, 0, ls);
    }
  }

  /** An input: the root takes one octet, but its text is not read into one octet. */
  method RootRefused(dst: array<Byte>) returns (r: array?<Byte>)
    requires dst.Length == 1
    modifies dst
    ensures FromText([DOT]) == Some([]) && ValidName([]) && WireLen([]) == 1 && r == null
  {
    RootFacts();
    r := FromStr(dst, Some([DOT]));
  }
}
