/** The connection slots and the descriptors behind them. */
module SlotTable {

  const INVALID_SOCKET := -1

  datatype SockType = Tcp | Udp

  /** Descriptors as the operating system sees them: the open ones, and those the program has lost
      track of while they were open. foreign are the open descriptors that belong to the rest of
      the program, such as the link's socket. */
  datatype Table = Table(slots: seq<int>, open: set<int>, foreign: set<int>, lost: set<int>)

  /** What the system answers while a slot is opened: the new descriptor, and which of the calls
      that prepare it succeed. */
  datatype Opening = Opening(fd: int, nonblocking: bool, reuse: bool, nodelay: bool, bound: bool)

  /** What the system answers while a connection is accepted. */
  datatype Accepting = Accepting(hasData: bool, fd: int, nonblocking: bool)

  datatype Op =
    | Open(conn: nat, kind: SockType, how: Opening)
    | Close(conn: nat)
    | Accept(conn: nat, accepting: Accepting)

  predicate Opens(kind: SockType, how: Opening) {
    how.fd != INVALID_SOCKET && how.nonblocking && how.reuse && (kind.Tcp? ==> how.nodelay) && how.bound
  }

  /** A new descriptor is not an open one. */
  predicate NewFd(t: Table, fd: int) {
    fd == INVALID_SOCKET || (0 <= fd && fd !in t.open)
  }

  /** The callers open only empty slots and use only full ones. */
  predicate Legal(t: Table, op: Op) {
    op.conn < |t.slots| &&
    match op
    case Open(conn, _, how) => t.slots[conn] == INVALID_SOCKET && NewFd(t, how.fd)
    case Close(conn) => t.slots[conn] != INVALID_SOCKET
    case Accept(conn, a) => t.slots[conn] != INVALID_SOCKET && NewFd(t, a.fd)
  }

  /** The descriptors held by the slots. */
  function Held(slots: seq<int>): set<int> {
    set i | 0 <= i < |slots| && slots[i] != INVALID_SOCKET :: slots[i]
  }

  /** Every open descriptor has exactly one owner: one slot, the rest of the program, or nobody. */
  predicate Owned(t: Table) {
    && (forall i :: 0 <= i < |t.slots| ==> t.slots[i] == INVALID_SOCKET || 0 <= t.slots[i])
    && (forall i, j :: 0 <= i < j < |t.slots| && t.slots[i] == t.slots[j] ==> t.slots[i] == INVALID_SOCKET)
    && t.open == Held(t.slots) + t.foreign + t.lost && INVALID_SOCKET !in t.open
    && Held(t.slots) !! t.foreign && Held(t.slots) !! t.lost && t.foreign !! t.lost
  }

  function Apply(t: Table, op: Op): Table
    requires Legal(t, op)
  {
    match op
    case Open(conn, kind, how) =>
      if Opens(kind, how) then t.(slots := t.slots[conn := how.fd], open := t.open + {how.fd}) else t
    case Close(conn) =>
      t.(slots := t.slots[conn := INVALID_SOCKET], open := t.open - {t.slots[conn]})
    case Accept(conn, a) =>
      if !a.hasData || a.fd == INVALID_SOCKET then t
      else if !a.nonblocking then t.(open := t.open + {a.fd}, lost := t.lost + {a.fd})
      else t.(slots := t.slots[conn := a.fd], open := t.open - {t.slots[conn]} + {a.fd})
  }

  /** The slots in use, in order. */
  function Occupied(slots: seq<int>): seq<int> {
    if slots == [] then []
    else
      var n := |slots| - 1;
      if slots[n] == INVALID_SOCKET then Occupied(slots[..n]) else Occupied(slots[..n]) + [slots[n]]
  }

  lemma HeldSplit(t: Table, i: nat)
    requires Owned(t) && i < |t.slots|
    ensures var fd, rest := t.slots[i], Held(t.slots[i + 1..]);
            if fd == INVALID_SOCKET then Held(t.slots[i..]) == rest
            else Held(t.slots[i..]) == rest + {fd} && fd !in rest && fd !in t.foreign && fd !in t.lost
  {
    var tail, rest := t.slots[i..], t.slots[i + 1..];
    assert forall k :: 0 <= k < |rest| ==> rest[k] == tail[k + 1] && rest[k] == t.slots[i + 1 + k];
    assert forall k :: 0 < k < |tail| ==> tail[k] == rest[k - 1];
    assert tail[0] == t.slots[i];
    if t.slots[i] != INVALID_SOCKET { assert t.slots[i] in Held(t.slots); }
  }

  // ----- The code -----

  /** The system's descriptors. Closing one that is not open is an error of the program. */
  class System {
    ghost var open: set<int>

    method Create(fd: int) returns (r: int)
      requires fd == INVALID_SOCKET || (0 <= fd && fd !in open)
      modifies this
      ensures r == fd && open == if fd == INVALID_SOCKET then old(open) else old(open) + {fd}
    {
      r := fd;
      if fd != INVALID_SOCKET { open := open + {fd}; }
    }

    method Close(fd: int)
      requires fd in open
      modifies this
      ensures open == old(open) - {fd}
    {
      open := open - {fd};
    }
  }

  class SocketImpl {
    const os: System
    const sockets: array<int>
    ghost const foreign: set<int>
    ghost var lost: set<int>

    ghost function View(): Table
      reads this, os, sockets
    {
      Table(sockets[..], os.open, foreign, lost)
    }

    constructor (os: System, slots: nat, ghost foreign: set<int>)
      requires os.open == foreign && INVALID_SOCKET !in foreign
      ensures this.os == os && sockets.Length == slots && fresh(sockets)
      ensures Owned(View()) && this.foreign == foreign && lost == {}
      ensures forall i :: 0 <= i < slots ==> sockets[i] == INVALID_SOCKET
    {
      this.os, this.foreign, this.lost := os, foreign, {};
      sockets := new int[slots];
      new;
      for i := 0 to slots
        modifies sockets
        invariant forall k :: 0 <= k < i ==> sockets[k] == INVALID_SOCKET
      {
        sockets[i] := INVALID_SOCKET;
      }
    }

    method Open(conn: nat, kind: SockType, how: Opening) returns (ok: bool)
      requires Owned(View()) && Legal(View(), Op.Open(conn, kind, how))
      modifies os, sockets
      ensures View() == Apply(old(View()), Op.Open(conn, kind, how)) && Owned(View())
      ensures ok <==> sockets[conn] != INVALID_SOCKET
      ensures ok <==> Fills(Op.Open(conn, kind, how), conn, how.fd)
    {
      ApplyKeepsOwned(View(), Op.Open(conn, kind, how));
      var sock := os.Create(how.fd);
      if sock == INVALID_SOCKET { return false; }
      if !how.nonblocking {
        os.Close(sock);
        return false;
      }
      if !how.reuse {
        os.Close(sock);
        return false;
      }
      if kind.Tcp? && !how.nodelay {
        os.Close(sock);
        return false;
      }
      if !how.bound {
        os.Close(sock);
        return false;
      }
      sockets[conn] := sock;
      assert sockets[..] == old(sockets[..])[conn := sock];
      return true;
    }

    method Close(conn: nat)
      requires Owned(View()) && Legal(View(), Op.Close(conn))
      modifies os, sockets
      ensures View() == Apply(old(View()), Op.Close(conn)) && Owned(View())
    {
      ApplyKeepsOwned(View(), Op.Close(conn));
      assert sockets[..][conn] in Held(sockets[..]);
      os.Close(sockets[conn]);
      sockets[conn] := INVALID_SOCKET;
      assert sockets[..] == old(sockets[..])[conn := INVALID_SOCKET];
    }

    /** A connection that cannot be made non-blocking is given up without being closed. */
    method Accept(conn: nat, a: Accepting) returns (ok: bool)
      requires Owned(View()) && Legal(View(), Op.Accept(conn, a))
      modifies os, sockets, this`lost
      ensures View() == Apply(old(View()), Op.Accept(conn, a)) && Owned(View())
      ensures ok <==> sockets[conn] != old(sockets[conn])
      ensures ok <==> Fills(Op.Accept(conn, a), conn, a.fd)
    {
      ApplyKeepsOwned(View(), Op.Accept(conn, a));
      var sock := sockets[conn];
      assert sockets[..][conn] in Held(sockets[..]);
      if !a.hasData { return false; }
      var newsock := os.Create(a.fd);
      if newsock == INVALID_SOCKET { return false; }
      if !a.nonblocking {
        lost := lost + {newsock};
        return false;
      }
      os.Close(sock);
      sockets[conn] := newsock;
      assert sockets[..] == old(sockets[..])[conn := newsock];
      return true;
    }

    /** Closes what the slots hold. The slots themselves are left as they are. */
    method Stop()
      requires Owned(View())
      modifies os
      ensures os.open == foreign + lost
    {
      ghost var t := View();
      for i := 0 to sockets.Length
        invariant sockets[..] == t.slots && os.open == Held(t.slots[i..]) + foreign + lost
      {
        HeldSplit(t, i);
        if sockets[i] != INVALID_SOCKET {
          os.Close(sockets[i]);
        }
      }
    }

    /** The descriptors to wait on: the link's, then the slots' in order. */
    method PollSet(bgbSock: int) returns (fds: seq<int>)
      ensures fds == [bgbSock] + Occupied(sockets[..])
    {
      fds := [bgbSock];
      for i := 0 to sockets.Length
        invariant fds == [bgbSock] + Occupied(sockets[..i])
      {
        assert sockets[..i + 1][..i] == sockets[..i];
        var fd := sockets[i];
        if fd == INVALID_SOCKET { continue; }
        fds := fds + [fd];
      }
      assert sockets[..sockets.Length] == sockets[..];
    }
  }

  // ----- Ownership over whole runs -----

  predicate AllLegal(t: Table, ops: seq<Op>)
    decreases |ops|
  {
    ops == [] || (Legal(t, ops[0]) && AllLegal(Apply(t, ops[0]), ops[1..]))
  }

  function ApplyAll(t: Table, ops: seq<Op>): Table
    requires AllLegal(t, ops)
    decreases |ops|
  {
    if ops == [] then t else ApplyAll(Apply(t, ops[0]), ops[1..])
  }

  /** How many connections were accepted and then given up. */
  function GivenUp(ops: seq<Op>): nat {
    if ops == [] then 0
    else
      GivenUp(ops[1..]) + match ops[0]
                          case Accept(_, a) => if a.hasData && a.fd != INVALID_SOCKET && !a.nonblocking then 1 else 0
                          case _ => 0
  }

  lemma HeldUpdate(slots: seq<int>, i: nat, fd: int)
    requires i < |slots|
    requires forall k :: 0 <= k < |slots| && k != i && slots[k] == slots[i] ==> slots[i] == INVALID_SOCKET
    ensures Held(slots[i := fd]) == (Held(slots) - {slots[i]}) + (if fd == INVALID_SOCKET then {} else {fd})
  {
    var after := slots[i := fd];
    forall x | x in Held(after) ensures x in (Held(slots) - {slots[i]}) + (if fd == INVALID_SOCKET then {} else {fd}) {
      var k :| 0 <= k < |after| && after[k] == x && x != INVALID_SOCKET;
      if k != i { assert slots[k] == x; }
    }
    forall x | x in Held(slots) && x != slots[i] ensures x in Held(after) {
      var k :| 0 <= k < |slots| && slots[k] == x;
      assert after[k] == x;
    }
    assert after[i] == fd;
  }

  /** Putting a new descriptor, or none, into a slot and closing the one it held. */
  function Replace(t: Table, conn: nat, fd: int): Table
    requires conn < |t.slots|
  {
    t.(slots := t.slots[conn := fd],
       open := t.open - {t.slots[conn]} + (if fd == INVALID_SOCKET then {} else {fd}))
  }

  lemma ReplaceKeepsOwned(t: Table, conn: nat, fd: int)
    requires Owned(t) && conn < |t.slots| && NewFd(t, fd)
    ensures Owned(Replace(t, conn, fd))
  {
    HeldUpdate(t.slots, conn, fd);
    assert forall k :: 0 <= k < |t.slots| && t.slots[k] != INVALID_SOCKET ==> t.slots[k] in Held(t.slots);
  }

  lemma LoseKeepsOwned(t: Table, fd: int)
    requires Owned(t) && NewFd(t, fd) && fd != INVALID_SOCKET
    ensures Owned(t.(open := t.open + {fd}, lost := t.lost + {fd}))
  {
  }

  lemma ApplyKeepsOwned(t: Table, op: Op)
    requires Owned(t) && Legal(t, op)
    ensures Owned(Apply(t, op))
  {
    match op {
      case Open(conn, kind, how) =>
        ReplaceKeepsOwned(t, conn, how.fd);
        assert Opens(kind, how) ==> Apply(t, op) == Replace(t, conn, how.fd);
      case Close(conn) =>
        ReplaceKeepsOwned(t, conn, INVALID_SOCKET);
        assert Apply(t, op) == Replace(t, conn, INVALID_SOCKET);
      case Accept(conn, a) =>
        if a.hasData && a.fd != INVALID_SOCKET {
          if a.nonblocking {
            ReplaceKeepsOwned(t, conn, a.fd);
            assert Apply(t, op) == Replace(t, conn, a.fd);
          } else {
            LoseKeepsOwned(t, a.fd);
          }
        }
    }
  }

  lemma ApplyCounts(t: Table, op: Op)
    requires t.lost <= t.open && Legal(t, op)
    ensures Apply(t, op).foreign == t.foreign && |Apply(t, op).slots| == |t.slots|
    ensures |Apply(t, op).lost| == |t.lost| + GivenUp([op])
  {
  }

  /** Over any run of legal operations, with any failures of the system, every open descriptor has
      one owner and the only ones without are the connections given up after accepting them. */
  lemma {:induction false} DescriptorsOwned(t: Table, ops: seq<Op>)
    requires Owned(t) && AllLegal(t, ops)
    ensures var e := ApplyAll(t, ops);
            && Owned(e) && e.foreign == t.foreign && |e.slots| == |t.slots|
            && |e.lost| == |t.lost| + GivenUp(ops)
    decreases |ops|
  {
    if ops != [] {
      ApplyKeepsOwned(t, ops[0]);
      ApplyCounts(t, ops[0]);
      DescriptorsOwned(Apply(t, ops[0]), ops[1..]);
    }
  }

  // ----- Where the descriptors come from -----

  /** The operation puts fd into slot conn: the opening of it, with every call succeeding, or a
      connection accepted on it and made non-blocking. */
  predicate Fills(op: Op, conn: nat, fd: int) {
    && op.conn == conn && fd != INVALID_SOCKET
    && match op
       case Open(_, kind, how) =>
         how.fd == fd && how.nonblocking && how.reuse && how.bound && (kind == Tcp ==> how.nodelay)
       case Accept(_, a) => a.hasData && a.fd == fd && a.nonblocking
       case Close(_) => false
  }

  function NewFdOf(op: Op): int {
    match op
    case Open(_, _, how) => how.fd
    case Accept(_, a) => a.fd
    case Close(_) => INVALID_SOCKET
  }

  predicate Changes(op: Op, conn: nat) {
    Fills(op, conn, NewFdOf(op)) || (op.Close? && op.conn == conn)
  }

  /** The last operation to change slot conn put fd there. */
  predicate Settled(ops: seq<Op>, conn: nat, i: nat, fd: int) {
    i < |ops| && Fills(ops[i], conn, fd) && Untouched(ops[i + 1..], conn)
  }

  predicate Untouched(ops: seq<Op>, conn: nat) {
    forall j :: 0 <= j < |ops| ==> !Changes(ops[j], conn)
  }

  lemma ApplySlot(t: Table, op: Op, conn: nat)
    requires Legal(t, op) && conn < |t.slots|
    ensures var e := Apply(t, op);
            && |e.slots| == |t.slots|
            && e.slots[conn] == if Fills(op, conn, NewFdOf(op)) then NewFdOf(op)
                                else if op.Close? && op.conn == conn then INVALID_SOCKET
                                else t.slots[conn]
  {
  }

  /** What slot conn holds after the operations, if it held held before them: what the last of them to
      change it left there. */
  function Content(ops: seq<Op>, conn: nat, held: int): int {
    if ops == [] then held
    else
      var op, front := ops[|ops| - 1], ops[..|ops| - 1];
      if Fills(op, conn, NewFdOf(op)) then NewFdOf(op)
      else if op.Close? && op.conn == conn then INVALID_SOCKET
      else Content(front, conn, held)
  }

  lemma {:induction false} ApplyAllSnoc(t: Table, ops: seq<Op>, op: Op)
    requires AllLegal(t, ops + [op])
    ensures AllLegal(t, ops) && Legal(ApplyAll(t, ops), op)
    ensures ApplyAll(t, ops + [op]) == Apply(ApplyAll(t, ops), op)
    decreases |ops|
  {
    var all := ops + [op];
    if ops == [] {
      assert all[1..] == [];
    } else {
      assert all[1..] == ops[1..] + [op];
      ApplyAllSnoc(Apply(t, ops[0]), ops[1..], op);
    }
  }

  lemma {:induction false} SlotsAreContents(t: Table, ops: seq<Op>, conn: nat)
    requires AllLegal(t, ops) && conn < |t.slots|
    ensures |ApplyAll(t, ops).slots| == |t.slots|
    ensures ApplyAll(t, ops).slots[conn] == Content(ops, conn, t.slots[conn])
    decreases |ops|
  {
    if ops != [] {
      var n := |ops| - 1;
      assert ops == ops[..n] + [ops[n]];
      ApplyAllSnoc(t, ops[..n], ops[n]);
      SlotsAreContents(t, ops[..n], conn);
      ApplySlot(ApplyAll(t, ops[..n]), ops[n], conn);
    }
  }

  lemma UntouchedSnoc(ops: seq<Op>, conn: nat, i: nat)
    requires i < |ops|
    ensures Untouched(ops[i..], conn) <==> Untouched(ops[i..|ops| - 1], conn) && !Changes(ops[|ops| - 1], conn)
  {
    var n := |ops| - 1;
    assert ops[i..] == ops[i..n] + [ops[n]];
  }

  lemma SettledSnoc(ops: seq<Op>, conn: nat, i: nat, fd: int)
    requires i + 1 < |ops|
    ensures Settled(ops, conn, i, fd) <==>
              Settled(ops[..|ops| - 1], conn, i, fd) && !Changes(ops[|ops| - 1], conn)
  {
    UntouchedSnoc(ops, conn, i + 1);
    assert ops[..|ops| - 1][i + 1..] == ops[i + 1..|ops| - 1];
  }

  lemma {:induction false} ContentIff(ops: seq<Op>, conn: nat, fd: int)
    requires fd != INVALID_SOCKET
    ensures Content(ops, conn, INVALID_SOCKET) == fd <==> exists i :: Settled(ops, conn, i, fd)
  {
    if ops != [] {
      var n := |ops| - 1;
      ContentIff(ops[..n], conn, fd);
      assert ops[n + 1..] == [];
      if Fills(ops[n], conn, fd) { assert Settled(ops, conn, n, fd); }
      forall i: nat | i < n
        ensures Settled(ops, conn, i, fd) <==> Settled(ops[..n], conn, i, fd) && !Changes(ops[n], conn)
      {
        SettledSnoc(ops, conn, i, fd);
      }
    }
  }

  /** Over any legal run from empty slots, a slot holds a descriptor if and only if an opening of it in
      which every call succeeded, or an accept that was made non-blocking, put it there, and nothing
      has changed the slot since. */
  lemma SlotsHaveOrigin(t: Table, ops: seq<Op>, conn: nat, fd: int)
    requires AllLegal(t, ops) && conn < |t.slots| && t.slots[conn] == INVALID_SOCKET && fd != INVALID_SOCKET
    ensures |ApplyAll(t, ops).slots| == |t.slots|
    ensures ApplyAll(t, ops).slots[conn] == fd <==> exists i :: Settled(ops, conn, i, fd)
  {
    SlotsAreContents(t, ops, conn);
    ContentIff(ops, conn, fd);
  }

  // ----- The poll set -----

  lemma {:induction false} OccupiedIsHeld(slots: seq<int>)
    ensures forall x :: x in Occupied(slots) <==> x in Held(slots)
  {
    if slots != [] {
      var n := |slots| - 1;
      OccupiedIsHeld(slots[..n]);
      assert forall i :: 0 <= i < n ==> slots[i] == slots[..n][i];
      forall x | x in Held(slots) ensures x in Occupied(slots) {
        var i :| 0 <= i < |slots| && slots[i] == x && x != INVALID_SOCKET;
        if i < n { assert slots[..n][i] == x; }
      }
    }
  }

  predicate Distinct(s: seq<int>) {
    forall i, j :: 0 <= i < j < |s| ==> s[i] != s[j]
  }

  lemma {:induction false} OccupiedDistinct(slots: seq<int>)
    requires forall i, j :: 0 <= i < j < |slots| && slots[i] == slots[j] ==> slots[i] == INVALID_SOCKET
    ensures Distinct(Occupied(slots)) && |Occupied(slots)| <= |slots|
  {
    if slots != [] {
      var n := |slots| - 1;
      OccupiedDistinct(slots[..n]);
      OccupiedIsHeld(slots[..n]);
      var front := Occupied(slots[..n]);
      forall i | 0 <= i < |front| && slots[n] != INVALID_SOCKET ensures front[i] != slots[n] {
        assert front[i] in front && front[i] in Held(slots[..n]);
      }
    }
  }

  /** The poll set holds the link's descriptor and every descriptor of a slot, each once, and fits
      the array made for it. */
  lemma PollSetExact(t: Table, bgbSock: int)
    requires Owned(t) && bgbSock in t.foreign
    ensures var fds := [bgbSock] + Occupied(t.slots);
            && Distinct(fds) && |fds| <= 1 + |t.slots|
            && forall x :: x in fds <==> x == bgbSock || x in Held(t.slots)
  {
    OccupiedIsHeld(t.slots);
    OccupiedDistinct(t.slots);
    var fds := [bgbSock] + Occupied(t.slots);
    forall j | 0 < j < |fds| ensures fds[j] != bgbSock {
      assert fds[j] in Occupied(t.slots);
    }
  }
}
