/** The pool of open connections (conn_pool.c). Every operation runs under the pool's
    mutex, so that threads interleave whole operations. */
module ConnPool {

  type Fd = int

  const FD_INVALID: Fd := -1

  /** Seconds since the epoch; 0 means never (time.h). */
  type Time = nat

  /** knot_time_cmp. */
  function TimeCmp(a: Time, b: Time): (c: int)
    ensures c < 0 <==> a != 0 && (b == 0 || a < b)
  {
    (if a == b then 0 else 1) * (if a == 0 || b == 0 then -1 else 1) * (if a < b then -1 else 1)
  }

  datatype Addr = Addr(host: int, port: int)

  /** sockaddr_cmp, as far as equality goes. */
  predicate SameAddr(a: Addr, b: Addr, ignorePort: bool) {
    a.host == b.host && (ignorePort || a.port == b.port)
  }

  datatype Conn = Conn(src: Addr, dst: Addr, fd: Fd, lastActive: Time)

  /** A zeroed slot. */
  const EMPTY := Conn(Addr(0, 0), Addr(0, 0), 0, 0)

  predicate Occupied(c: Conn) {
    c.lastActive != 0
  }

  predicate Matches(c: Conn, src: Addr, dst: Addr) {
    Occupied(c) && SameAddr(c.dst, dst, false) && SameAddr(c.src, src, true)
  }

  /** The first slot in use for a connection to this address and port, from this host;
      the number of slots if there is none. The port of the source plays no part. */
  ghost function FirstFor(cs: seq<Conn>, host: int, dst: Addr): (i: nat)
    ensures i <= |cs|
    ensures i < |cs| ==> cs[i].lastActive != 0 && cs[i].dst == dst && cs[i].src.host == host
    ensures forall j :: 0 <= j < i ==> !(cs[j].lastActive != 0 && cs[j].dst == dst && cs[j].src.host == host)
  {
    if |cs| == 0 then 0
    else
      var n := |cs| - 1;
      var i := FirstFor(cs[..n], host, dst);
      if i < n then i
      else if cs[n].lastActive != 0 && cs[n].dst == dst && cs[n].src.host == host then n
      else |cs|
  }

  // ---- Descriptors in the slots ----

  ghost function OneFd(c: Conn): multiset<Fd> {
    if Occupied(c) then multiset{c.fd} else multiset{}
  }

  ghost function Fds(cs: seq<Conn>): multiset<Fd> {
    if |cs| == 0 then multiset{} else Fds(cs[..|cs| - 1]) + OneFd(cs[|cs| - 1])
  }

  /** Number of occupied slots. */
  ghost function Count(cs: seq<Conn>): (n: nat)
    ensures n <= |cs|
  {
    if |cs| == 0 then 0 else Count(cs[..|cs| - 1]) + if Occupied(cs[|cs| - 1]) then 1 else 0
  }

  lemma Exchange(f: multiset<Fd>, a: multiset<Fd>, b: multiset<Fd>)
    ensures f + a + b == f + b + a
  {
  }

  lemma {:induction false} FdsUpdate(cs: seq<Conn>, i: nat, c: Conn)
    requires i < |cs|
    ensures Fds(cs[i := c]) + OneFd(cs[i]) == Fds(cs) + OneFd(c)
    decreases |cs|
  {
    hide OneFd;
    var n := |cs| - 1;
    if i == n {
      assert cs[i := c][..n] == cs[..n];
      Exchange(Fds(cs[..n]), OneFd(c), OneFd(cs[n]));
    } else {
      assert cs[i := c][..n] == cs[..n][i := c];
      FdsUpdate(cs[..n], i, c);
      Exchange(Fds(cs[..n][i := c]), OneFd(cs[n]), OneFd(cs[i]));
      Exchange(Fds(cs[..n]), OneFd(c), OneFd(cs[n]));
    }
  }

  lemma {:induction false} CountUpdate(cs: seq<Conn>, i: nat, c: Conn)
    requires i < |cs|
    ensures Count(cs[i := c]) == Count(cs) + (if Occupied(c) then 1 else 0) - (if Occupied(cs[i]) then 1 else 0)
    decreases |cs|
  {
    var n := |cs| - 1;
    if i == n {
      assert cs[i := c][..n] == cs[..n];
    } else {
      assert cs[i := c][..n] == cs[..n][i := c];
      CountUpdate(cs[..n], i, c);
    }
  }

  lemma {:induction false} CountFull(cs: seq<Conn>)
    ensures Count(cs) == |cs| <==> forall i :: 0 <= i < |cs| ==> Occupied(cs[i])
    ensures Count(cs) == 0 <==> forall i :: 0 <= i < |cs| ==> !Occupied(cs[i])
    decreases |cs|
  {
    if |cs| > 0 {
      var n := |cs| - 1;
      CountFull(cs[..n]);
      assert forall i :: 0 <= i < n ==> cs[..n][i] == cs[i];
    }
  }

  lemma {:induction false} FdsEmpty(cs: seq<Conn>)
    requires forall i :: 0 <= i < |cs| ==> !Occupied(cs[i])
    ensures Fds(cs) == multiset{}
    decreases |cs|
  {
    if |cs| > 0 {
      FdsEmpty(cs[..|cs| - 1]);
    }
  }

  lemma Popped(cs: seq<Conn>, i: nat)
    requires i < |cs| && Occupied(cs[i])
    ensures Fds(cs[i := EMPTY]) == Fds(cs) - multiset{cs[i].fd} && cs[i].fd in Fds(cs)
    ensures Fds(cs[i := EMPTY]) + multiset{cs[i].fd} == Fds(cs)
    ensures Count(cs[i := EMPTY]) == Count(cs) - 1
  {
    FdsUpdate(cs, i, EMPTY);
    CountUpdate(cs, i, EMPTY);
    MoveOver(Fds(cs[i := EMPTY]), multiset{cs[i].fd}, Fds(cs));
  }

  lemma Pushed(cs: seq<Conn>, i: nat, c: Conn)
    requires i < |cs| && !Occupied(cs[i]) && Occupied(c)
    ensures Fds(cs[i := c]) == Fds(cs) + multiset{c.fd}
    ensures Count(cs[i := c]) == Count(cs) + 1
  {
    FdsUpdate(cs, i, c);
    CountUpdate(cs, i, c);
  }

  lemma MoveOver(a: multiset<Fd>, b: multiset<Fd>, c: multiset<Fd>)
    requires a + b == c + multiset{}
    ensures a == c - b && b <= c
  {
    assert a == a + b - b;
  }

  // ---- The pool ----

  class Pool {
    const conns: array<Conn>
    var usage: nat

    /** `usage` counts the occupied slots; -1 is not a descriptor. */
    ghost predicate Valid()
      reads this, conns
    {
      && usage == Count(conns[..])
      && forall i :: 0 <= i < conns.Length ==> Occupied(conns[i]) ==> conns[i].fd != FD_INVALID
    }

    ghost function Held(): multiset<Fd>
      reads conns
    {
      Fds(conns[..])
    }

    /** conn_pool_init. */
    constructor (capacity: nat)
      ensures Valid() && fresh(conns) && conns.Length == capacity && Held() == multiset{}
    {
      conns := new Conn[capacity](i => EMPTY);
      usage := 0;
      new;
      FdsEmpty(conns[..]);
      CountFull(conns[..]);
    }

    /** pool_pop. */
    method Pop(i: nat) returns (fd: Fd)
      requires Valid() && i < conns.Length && Occupied(conns[i])
      modifies this, conns
      ensures Valid() && fd == old(conns[i].fd) != FD_INVALID
      ensures conns[..] == old(conns[..])[i := EMPTY] && usage == old(usage) - 1
      ensures Held() == old(Held()) - multiset{fd} && fd in old(Held()) && Held() + multiset{fd} == old(Held())
    {
      ghost var before := conns[..];
      Popped(before, i);
      fd := conns[i].fd;
      conns[i] := EMPTY;
      assert conns[..] == before[i := EMPTY];
      usage := usage - 1;
    }

    /** pool_push at the current time. */
    method Push(i: nat, src: Addr, dst: Addr, fd: Fd, now: Time)
      requires Valid() && i < conns.Length && !Occupied(conns[i]) && now != 0 && fd != FD_INVALID
      modifies this, conns
      ensures Valid() && conns[..] == old(conns[..])[i := Conn(src, dst, fd, now)] && usage == old(usage) + 1
      ensures Held() == old(Held()) + multiset{fd}
    {
      ghost var before := conns[..];
      Pushed(before, i, Conn(src, dst, fd, now));
      conns[i] := Conn(src, dst, fd, now);
      assert conns[..] == before[i := Conn(src, dst, fd, now)];
      usage := usage + 1;
    }

    /** The critical section of conn_pool_get: takes out the first connection to the
        address and port from the same host, whatever the port there. */
    method Take(src: Addr, dst: Addr) returns (fd: Fd, ghost i: nat)
      requires Valid()
      modifies this, conns
      ensures Valid()
      ensures i == FirstFor(old(conns[..]), src.host, dst)
      ensures fd == FD_INVALID <==>
                forall c :: c in old(conns[..]) ==> c.lastActive == 0 || c.dst != dst || c.src.host != src.host
      ensures fd == FD_INVALID ==> conns[..] == old(conns[..]) && usage == old(usage)
      ensures fd != FD_INVALID ==>
                && i < conns.Length && fd == old(conns[i]).fd
                && old(conns[i]).lastActive != 0 && old(conns[i]).dst == dst && old(conns[i]).src.host == src.host
                && conns[..] == old(conns[..])[i := EMPTY] && fd in old(Held())
      ensures Held() + OneDescriptor(fd) == old(Held())
    {
      hide FirstFor, Fds, Count;
      fd, i := FD_INVALID, 0;
      var k := 0;
      while k < conns.Length
        invariant 0 <= k <= conns.Length && fd == FD_INVALID && Valid()
        invariant conns[..] == old(conns[..]) && usage == old(usage)
        invariant forall j :: 0 <= j < k ==> !Matches(old(conns[j]), src, dst)
      {
        assert conns[k] == conns[..][k] == old(conns[..])[k];
        if Matches(conns[k], src, dst) {
          i := k;
          fd := Pop(k);
          return;
        }
        k := k + 1;
      }
      i := k;
    }

    /** conn_pool_get; a connection that turns out to be unusable is closed. */
    method Get(src: Addr, dst: Addr, invalid: bool) returns (fd: Fd, closed: multiset<Fd>)
      requires Valid()
      modifies this, conns
      ensures Valid()
      ensures Held() + closed + OneDescriptor(fd) == old(Held())
      ensures invalid ==> fd == FD_INVALID
      ensures fd == FD_INVALID && closed == multiset{} <==>
                forall c :: c in old(conns[..]) ==> c.lastActive == 0 || c.dst != dst || c.src.host != src.host
      ensures fd != FD_INVALID ==>
                exists c :: c in old(conns[..]) && c.fd == fd
                            && c.lastActive != 0 && c.dst == dst && c.src.host == src.host
      ensures var i := FirstFor(old(conns[..]), src.host, dst);
              i < conns.Length ==>
                && OneDescriptor(fd) + closed == multiset{old(conns[..])[i].fd}
                && conns[..] == old(conns[..])[i := EMPTY]
    {
      closed := multiset{};
      ghost var i;
      fd, i := Take(src, dst);
      if fd != FD_INVALID && invalid {
        closed := multiset{fd};
        fd := FD_INVALID;
      }
    }

    /** The scan of conn_pool_put: the first empty slot, or else a slot whose connection
        was put in no later than any other. */
    method FindSlot() returns (free: bool, slot: nat)
      requires Valid() && conns.Length > 0
      ensures slot < conns.Length && free == (usage < conns.Length) == !Occupied(conns[slot])
      ensures free ==> forall j :: 0 <= j < slot ==> Occupied(conns[j])
      ensures !free ==> forall j :: 0 <= j < conns.Length ==> conns[slot].lastActive <= conns[j].lastActive
    {
      hide Count;
      CountFull(conns[..]);
      var oldestTime: Time := 0;
      slot := conns.Length;
      var i := 0;
      while i < conns.Length
        invariant 0 <= i <= conns.Length
        invariant forall j :: 0 <= j < i ==> Occupied(conns[j])
        invariant if i == 0 then oldestTime == 0 else slot < i && oldestTime == conns[slot].lastActive
        invariant forall j :: 0 <= j < i ==> oldestTime <= conns[j].lastActive
      {
        var la := conns[i].lastActive;
        if la == 0 {
          assert conns[..][i] == conns[i];
          return true, i;
        } else if TimeCmp(la, oldestTime) < 0 {
          oldestTime, slot := la, i;
        }
        i := i + 1;
      }
      return false, slot;
    }

    /** conn_pool_put: into an empty slot; into a full pool by displacing one of the
        connections that were put in first. */
    method Put(src: Addr, dst: Addr, fd: Fd, now: Time) returns (displaced: Fd, ghost slot: nat)
      requires Valid() && now != 0 && fd != FD_INVALID
      modifies this, conns
      ensures Valid() && Held() + OneDescriptor(displaced) == old(Held()) + multiset{fd}
      ensures displaced == FD_INVALID <==> old(usage) < conns.Length
      ensures conns.Length == 0 ==> displaced == fd
      ensures 0 < conns.Length ==>
                && slot < conns.Length && conns[..] == old(conns[..])[slot := Conn(src, dst, fd, now)]
                && if old(usage) < conns.Length
                   then !Occupied(old(conns[..])[slot]) && forall j :: 0 <= j < slot ==> Occupied(old(conns[..])[j])
                   else displaced == old(conns[..])[slot].fd
                        && forall j :: 0 <= j < conns.Length ==>
                             old(conns[..])[slot].lastActive <= old(conns[..])[j].lastActive
    {
      hide Count, Fds;
      slot := 0;
      if conns.Length == 0 {
        NoSlots(conns[..]);
        return fd, 0;
      }
      ghost var cs := conns[..];
      var free, i := FindSlot();
      if free {
        Push(i, src, dst, fd, now);
        return FD_INVALID, i;
      }
      displaced := Pop(i);
      Exchange(Held(), multiset{displaced}, multiset{fd});
      Push(i, src, dst, fd, now);
      assert conns[..] == cs[i := EMPTY][i := Conn(src, dst, fd, now)] == cs[i := Conn(src, dst, fd, now)];
      slot := i;
    }

    /** get_old: takes out the first connection older than a time, and tells the oldest
        time among those that stay (0 if none stays). */
    method GetOld(olderThan: Time) returns (fd: Fd, nextOldest: Time, ghost taken: nat)
      requires Valid()
      modifies this, conns
      ensures Valid() && Held() + OneDescriptor(fd) == old(Held())
      ensures fd == FD_INVALID <==>
                forall j :: 0 <= j < conns.Length ==> TimeCmp(old(conns[..])[j].lastActive, olderThan) >= 0
      ensures fd == FD_INVALID ==> conns[..] == old(conns[..]) && usage == old(usage)
      ensures fd != FD_INVALID ==>
                && taken < conns.Length && TimeCmp(old(conns[..])[taken].lastActive, olderThan) < 0
                && conns[..] == old(conns[..])[taken := EMPTY] && fd == old(conns[..])[taken].fd
                && usage == old(usage) - 1
      ensures OldestOf(conns[..], conns.Length, nextOldest) && (nextOldest == 0 <==> usage == 0)
    {
      hide Count, Fds, TimeCmp, OldestOf;
      nextOldest, fd, taken := 0, FD_INVALID, 0;
      ghost var cs := conns[..];
      var i := 0;
      OldestStart(cs);
      while i < conns.Length
        invariant 0 <= i <= conns.Length && Valid() && Held() + OneDescriptor(fd) == old(Held())
        invariant fd == FD_INVALID ==> conns[..] == cs && usage == old(usage)
        invariant fd == FD_INVALID ==> forall j :: 0 <= j < i ==> TimeCmp(cs[j].lastActive, olderThan) >= 0
        invariant fd != FD_INVALID ==>
                    && taken < i && TimeCmp(cs[taken].lastActive, olderThan) < 0
                    && conns[..] == cs[taken := EMPTY] && fd == cs[taken].fd && usage == old(usage) - 1
        invariant OldestOf(conns[..], i, nextOldest)
      {
        var la := conns[i].lastActive;
        assert conns[i] == cs[i];
        if fd == FD_INVALID && TimeCmp(la, olderThan) < 0 {
          taken := i;
          OldestPop(conns[..], i, nextOldest);
          fd := Pop(i);
          assert OneDescriptor(fd) == multiset{fd};
        } else {
          OldestStep(conns[..], i, nextOldest);
          if TimeCmp(la, nextOldest) < 0 {
            nextOldest := la;
          }
        }
        i := i + 1;
      }
      OldestEnd(conns[..], nextOldest);
    }

    /** The drain of conn_pool_deinit: every connection is closed and the pool is empty. */
    method Drain() returns (closed: multiset<Fd>)
      requires Valid()
      modifies this, conns
      ensures Valid() && usage == 0 && Held() == multiset{} && closed == old(Held())
      ensures forall j :: 0 <= j < conns.Length ==> !Occupied(conns[j])
    {
      hide Count, Fds;
      closed := multiset{};
      var fd, unused;
      ghost var i;
      fd, unused, i := GetOld(0);
      while fd != FD_INVALID
        invariant Valid() && Held() + OneDescriptor(fd) + closed == old(Held())
        invariant fd == FD_INVALID ==> forall j :: 0 <= j < conns.Length ==> TimeCmp(conns[..][j].lastActive, 0) >= 0
        decreases usage, fd != FD_INVALID
      {
        closed := closed + multiset{fd};
        fd, unused, i := GetOld(0);
      }
      assert forall j :: 0 <= j < conns.Length ==> conns[..][j] == conns[j];
      FdsEmpty(conns[..]);
      CountFull(conns[..]);
    }
  }

  /** The oldest time in the first i slots, 0 if they are empty. */
  ghost predicate OldestOf(cs: seq<Conn>, i: nat, t: Time) {
    && i <= |cs|
    && (t == 0 ==> forall j :: 0 <= j < i ==> !Occupied(cs[j]))
    && (t != 0 ==> exists j :: 0 <= j < i && cs[j].lastActive == t)
    && (forall j :: 0 <= j < i && Occupied(cs[j]) ==> t <= cs[j].lastActive)
  }

  lemma OldestStart(cs: seq<Conn>)
    ensures OldestOf(cs, 0, 0)
  {
  }

  lemma OldestEnd(cs: seq<Conn>, t: Time)
    requires OldestOf(cs, |cs|, t)
    ensures t == 0 <==> Count(cs) == 0
  {
    CountFull(cs);
  }

  lemma OldestStep(cs: seq<Conn>, i: nat, t: Time)
    requires OldestOf(cs, i, t) && i < |cs|
    ensures OldestOf(cs, i + 1, if TimeCmp(cs[i].lastActive, t) < 0 then cs[i].lastActive else t)
  {
  }

  lemma OldestPop(cs: seq<Conn>, i: nat, t: Time)
    requires OldestOf(cs, i, t) && i < |cs|
    ensures OldestOf(cs[i := EMPTY], i + 1, t)
  {
    if t != 0 {
      var j :| 0 <= j < i && cs[j].lastActive == t;
      assert cs[i := EMPTY][j].lastActive == t;
    }
  }

  lemma NoSlots(cs: seq<Conn>)
    requires |cs| == 0
    ensures Fds(cs) == multiset{} && Count(cs) == 0
  {
  }

  function OneDescriptor(fd: Fd): multiset<Fd> {
    if fd == FD_INVALID then multiset{} else multiset{fd}
  }

  // ---- Threads ----

  /** What a thread does between taking and releasing the mutex, or with a descriptor in
      its own hands. conn_pool_get and the closing thread are a Take or a GetOld
      followed, any time later, by a Close or by use of the descriptor. */
  datatype Step =
    | PutStep(src: Addr, dst: Addr, fd: Fd, now: Time)
    | TakeStep(src: Addr, dst: Addr)
    | GetOldStep(olderThan: Time)
    | CloseStep(fd: Fd)

  lemma GivenIn(h': multiset<Fd>, d: multiset<Fd>, h: multiset<Fd>, fd: Fd, c: multiset<Fd>)
    requires h' + d == h + multiset{fd} && fd in c
    ensures h' + (c - multiset{fd} + d) + multiset{} == h + c
  {
    var r := c - multiset{fd};
    assert c == r + multiset{fd};
    assert h' + (r + d) == (h' + d) + r;
    assert (h + multiset{fd}) + r == h + (r + multiset{fd});
  }

  lemma TakenOut(h': multiset<Fd>, f: multiset<Fd>, h: multiset<Fd>, c: multiset<Fd>)
    requires h' + f == h
    ensures h' + (c + f) + multiset{} == h + c
  {
    assert h' + (c + f) == (h' + f) + c;
  }

  lemma Released(h: multiset<Fd>, c: multiset<Fd>, fd: Fd)
    requires fd in c
    ensures h + (c - multiset{fd}) + multiset{fd} == h + c
  {
    assert c == (c - multiset{fd}) + multiset{fd};
  }

  method OneStep(pool: Pool, s: Step, callers0: multiset<Fd>) returns (callers: multiset<Fd>, closed: multiset<Fd>)
    requires pool.Valid()
    modifies pool, pool.conns
    ensures pool.Valid()
    ensures pool.Held() + callers + closed == old(pool.Held()) + callers0
  {
    hide Fds, Count, OneDescriptor;
    callers, closed := callers0, multiset{};
    match s
    case PutStep(src, dst, fd, now) =>
      if fd in callers && fd != FD_INVALID && now != 0 {
        var d;
        ghost var i;
        d, i := pool.Put(src, dst, fd, now);
        GivenIn(pool.Held(), OneDescriptor(d), old(pool.Held()), fd, callers);
        callers := callers - multiset{fd} + OneDescriptor(d);
      }
    case TakeStep(src, dst) =>
      var fd;
      ghost var i;
      fd, i := pool.Take(src, dst);
      TakenOut(pool.Held(), OneDescriptor(fd), old(pool.Held()), callers);
      callers := callers + OneDescriptor(fd);
    case GetOldStep(olderThan) =>
      var fd, next;
      ghost var i;
      fd, next, i := pool.GetOld(olderThan);
      TakenOut(pool.Held(), OneDescriptor(fd), old(pool.Held()), callers);
      callers := callers + OneDescriptor(fd);
    case CloseStep(fd) =>
      if fd in callers {
        Released(pool.Held(), callers, fd);
        callers, closed := callers - multiset{fd}, multiset{fd};
      }
  }

  /** Every interleaving: no descriptor is lost or doubled. One that existed once is in
      the pool, or in the hands of a caller, or closed, and only one of these. */
  method Run(pool: Pool, steps: seq<Step>, callers0: multiset<Fd>) returns (callers: multiset<Fd>, closed: multiset<Fd>)
    requires pool.Valid()
    modifies pool, pool.conns
    ensures pool.Valid() && pool.usage <= pool.conns.Length
    ensures pool.Held() + callers + closed == old(pool.Held()) + callers0
    ensures forall fd :: old(pool.Held())[fd] + callers0[fd] == 1 ==> pool.Held()[fd] + callers[fd] + closed[fd] == 1
  {
    hide Fds, Count;
    callers, closed := callers0, multiset{};
    var i := 0;
    while i < |steps|
      invariant 0 <= i <= |steps| && pool.Valid()
      invariant pool.Held() + callers + closed == old(pool.Held()) + callers0
    {
      ghost var h, c := pool.Held(), callers;
      var more;
      callers, more := OneStep(pool, steps[i], callers);
      Regroup(pool.Held(), callers, more, h, c, closed);
      closed := closed + more;
      i := i + 1;
    }
    CountBound(pool.conns[..]);
    Homes(pool.Held(), callers, closed, old(pool.Held()), callers0);
  }

  lemma Regroup(h': multiset<Fd>, c': multiset<Fd>, more: multiset<Fd>,
                h: multiset<Fd>, c: multiset<Fd>, closed: multiset<Fd>)
    requires h' + c' + more == h + c
    ensures h' + c' + (closed + more) == h + c + closed
  {
    assert h' + c' + (closed + more) == h' + c' + more + closed;
  }

  lemma CountBound(cs: seq<Conn>)
    ensures Count(cs) <= |cs|
  {
  }

  lemma Homes(h: multiset<Fd>, c: multiset<Fd>, d: multiset<Fd>, h0: multiset<Fd>, c0: multiset<Fd>)
    requires h + c + d == h0 + c0
    ensures forall fd :: h0[fd] + c0[fd] == 1 ==> h[fd] + c[fd] + d[fd] == 1
  {
    forall fd
      ensures h[fd] + c[fd] + d[fd] == h0[fd] + c0[fd]
    {
      assert (h + c + d)[fd] == (h0 + c0)[fd];
    }
  }
}
