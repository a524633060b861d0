/** Receiving from a connection slot. */
module Streams {
  import opened Words

  /** What the system keeps for a socket: for TCP the bytes that have arrived and whether the peer
      has closed its end, for UDP the datagrams; and whether an error is waiting to be reported. */
  datatype Socket =
    | Tcp(queue: seq<byte>, closed: bool, error: bool)
    | Udp(datagrams: seq<seq<byte>>, error: bool)

  /** A call without a buffer only checks the connection. A read offers room for size bytes, of
      which the system fills some: at least one if it can. */
  datatype Ask = Check | Read(size: nat, filled: nat)

  /** What the system does during one call, other than serving what is queued: report a waiting
      error first, or fail in one of the three system calls. */
  datatype Fault = NoFault | ErrorFirst | PollFails | WouldBlock | TypeFails

  predicate Queued(s: Socket) {
    match s
    case Tcp(queue, _, _) => queue != []
    case Udp(datagrams, _) => datagrams != []
  }

  predicate Readable(s: Socket) {
    Queued(s) || s.error || (s.Tcp? && s.closed)
  }

  /** A receive reports the error that is waiting, and thereby clears it. */
  predicate Raises(s: Socket, fault: Fault) {
    s.error && (fault.ErrorFirst? || !Queued(s))
  }

  /** The call gets as far as an answer from the receive. */
  predicate Receives(s: Socket, fault: Fault) {
    Readable(s) && !fault.PollFails? && !fault.WouldBlock?
  }

  predicate Reports(s: Socket, fault: Fault) {
    Receives(s, fault) && Raises(s, fault)
  }

  predicate Serves(s: Socket, fault: Fault) {
    Receives(s, fault) && !Raises(s, fault)
  }

  function Min(a: nat, b: nat): nat {
    if a < b then a else b
  }

  /** The system fills as much of the room as it likes from a stream, but not nothing if there is
      something; a datagram is truncated to the room. */
  predicate Plausible(s: Socket, ask: Ask) {
    ask.Read? && s.Tcp? ==>
      ask.filled <= Min(ask.size, |s.queue|) && (ask.size > 0 && s.queue != [] ==> ask.filled > 0)
  }

  function Cut(datagram: seq<byte>, room: nat): seq<byte> {
    datagram[..Min(room, |datagram|)]
  }

  /** The bytes the system hands over. */
  function Given(s: Socket, ask: Ask, fault: Fault): seq<byte>
    requires Plausible(s, ask) && Serves(s, fault)
  {
    match s
    case Tcp(queue, _, _) => if ask.Check? then Cut(queue, 1) else queue[..ask.filled]
    case Udp(datagrams, _) => Cut(datagrams[0], if ask.Check? then 1 else ask.size)
  }

  /** What the call returns: a length, 0 for nothing, -1 for an error, -2 for the end of a stream. */
  function Code(s: Socket, ask: Ask, fault: Fault): int
    requires Plausible(s, ask)
  {
    if !Receives(s, fault) then 0
    else if Raises(s, fault) then -1
    else if Given(s, ask, fault) == [] && fault.TypeFails? then -1
    else if Given(s, ask, fault) == [] && s.Tcp? then -2
    else if ask.Check? then 0
    else |Given(s, ask, fault)|
  }

  /** What reaches the caller. */
  function Got(s: Socket, ask: Ask, fault: Fault): seq<byte>
    requires Plausible(s, ask)
  {
    if ask.Read? && Serves(s, fault) then Given(s, ask, fault) else []
  }

  /** What the system still keeps afterwards. */
  function Left(s: Socket, ask: Ask, fault: Fault): Socket
    requires Plausible(s, ask)
  {
    if Reports(s, fault) then s.(error := false)
    else if ask.Read? && Serves(s, fault) then
      match s
      case Tcp(queue, closed, error) => Tcp(queue[ask.filled..], closed, error)
      case Udp(datagrams, error) => Udp(datagrams[1..], error)
    else s
  }

  /** The system's side of one socket. */
  class Kernel {
    var sock: Socket

    constructor (sock: Socket)
      ensures this.sock == sock
    {
      this.sock := sock;
    }

    /** Receives into a buffer, or peeks one byte if there is none to fill; -1 on errors. */
    method RecvFrom(data: array?<byte>, ask: Ask, fault: Fault) returns (len: int)
      requires Plausible(sock, ask) && Readable(sock) && !fault.PollFails?
      requires ask.Read? <==> data != null
      requires ask.Read? ==> ask.size <= data.Length
      modifies this, data
      ensures len == if Serves(old(sock), fault) then |Given(old(sock), ask, fault)| else -1
      ensures sock == Left(old(sock), ask, fault)
      ensures data != null ==> var got := Got(old(sock), ask, fault);
                               data[..|got|] == got && data[|got|..] == old(data[..])[|got|..]
    {
      if fault.WouldBlock? { return -1; }
      if Raises(sock, fault) {
        sock := sock.(error := false);
        return -1;
      }
      var given := Given(sock, ask, fault);
      if data != null {
        forall i | 0 <= i < |given| { data[i] := given[i]; }
        sock := Left(sock, ask, fault);
      }
      return |given|;
    }
  }

  method Recv(k: Kernel, data: array?<byte>, ask: Ask, fault: Fault) returns (code: int)
    requires Plausible(k.sock, ask)
    requires ask.Read? <==> data != null
    requires ask.Read? ==> ask.size <= data.Length
    modifies k, data
    ensures code == Code(old(k.sock), ask, fault)
    ensures k.sock == Left(old(k.sock), ask, fault)
    ensures data != null ==> var got := Got(old(k.sock), ask, fault);
                             data[..|got|] == got && data[|got|..] == old(data[..])[|got|..]
  {
    if fault.PollFails? || !Readable(k.sock) { return 0; }
    var stream := k.sock.Tcp?;
    var len := k.RecvFrom(data, ask, fault);
    if len == -1 {
      return if fault.WouldBlock? then 0 else -1;
    }
    if len == 0 {
      if fault.TypeFails? { return -1; }
      if stream { return -2; }
    }
    if data == null { return 0; }
    return len;
  }

  // ----- What the codes mean -----

  /** The receive would hand over no bytes: there are none, or there is no room. */
  predicate Bare(s: Socket, ask: Ask) {
    || (ask.Read? && ask.size == 0)
    || (if s.Tcp? then s.queue == [] else s.datagrams != [] && s.datagrams[0] == [])
  }

  predicate Undisturbed(fault: Fault) {
    fault != PollFails && fault != WouldBlock
  }

  /** Each code, exactly. A positive one is the number of bytes read; a check returns none. An error is
      one that was waiting and comes up, or the failure to find out about an empty result. The end is
      an empty result of a stream. Everything else is nothing. */
  lemma CodeExactly(s: Socket, ask: Ask, fault: Fault)
    requires Plausible(s, ask)
    ensures var code := Code(s, ask, fault);
            var queued := if s.Tcp? then s.queue != [] else s.datagrams != [];
            var raised := s.error && (fault == ErrorFirst || !queued);
            var served := Undisturbed(fault) && !raised && (queued || (s.Tcp? && s.closed));
            && (code > 0 <==> ask.Read? && served && !Bare(s, ask))
            && (code == -1 <==> (Undisturbed(fault) && raised) || (served && Bare(s, ask) && fault == TypeFails))
            && (code == -2 <==> s.Tcp? && served && Bare(s, ask) && fault != TypeFails)
            && (code == 0 || code > 0 || code == -1 || code == -2)
            && (ask.Check? ==> code <= 0)
            && (ask.Read? ==> |Got(s, ask, fault)| == if code >= 0 then code else 0)
            && (ask.Check? ==> Got(s, ask, fault) == [])
            && (Left(s, ask, fault).error <==> s.error && !(Undisturbed(fault) && raised))
  {
  }

  // ----- A connection from beginning to end -----

  /** What happens to a connection: bytes or a datagram arrive, the peer closes, an error comes up,
      or the program asks. An error may close a stream and make the system drop what is queued. */
  datatype Op =
    | Arrive(bytes: seq<byte>)
    | Hangup
    | Fail(closes: bool, drops: bool)
    | Call(ask: Ask, fault: Fault)

  /** A connection together with everything that has arrived, everything handed over with the room
      that was offered for it, and everything the system has dropped. */
  datatype Conn = Conn(sock: Socket, sent: seq<seq<byte>>, read: seq<seq<byte>>, rooms: seq<nat>, dropped: seq<byte>)

  predicate Possible(c: Conn, op: Op) {
    match op
    case Arrive(_) => c.sock.Udp? || !c.sock.closed
    case Hangup => c.sock.Tcp?
    case Fail(closes, drops) => (drops ==> closes) && (closes ==> c.sock.Tcp?)
    case Call(ask, _) => Plausible(c.sock, ask)
  }

  function Step(c: Conn, op: Op): (d: Conn)
    requires Possible(c, op)
    ensures d.sock.Tcp? == c.sock.Tcp?
  {
    match op
    case Arrive(bytes) => c.(sock := Queue(c.sock, bytes), sent := c.sent + [bytes])
    case Hangup => c.(sock := c.sock.(closed := true))
    case Fail(closes, drops) =>
      if drops then c.(sock := Tcp([], true, true), dropped := c.sock.queue + c.dropped)
      else if closes then c.(sock := Tcp(c.sock.queue, true, true))
      else c.(sock := c.sock.(error := true))
    case Call(ask, fault) =>
      var d := c.(sock := Left(c.sock, ask, fault));
      if ask.Read? && Serves(c.sock, fault)
      then d.(read := c.read + [Given(c.sock, ask, fault)], rooms := c.rooms + [ask.size])
      else d
  }

  function Queue(s: Socket, bytes: seq<byte>): Socket {
    match s
    case Tcp(queue, closed, error) => Tcp(queue + bytes, closed, error)
    case Udp(datagrams, error) => Udp(datagrams + [bytes], error)
  }

  predicate AllPossible(c: Conn, ops: seq<Op>)
    decreases |ops|
  {
    ops == [] || (Possible(c, ops[0]) && AllPossible(Step(c, ops[0]), ops[1..]))
  }

  function Run(c: Conn, ops: seq<Op>): Conn
    requires AllPossible(c, ops)
    decreases |ops|
  {
    if ops == [] then c else Run(Step(c, ops[0]), ops[1..])
  }

  function Flat(parts: seq<seq<byte>>): seq<byte> {
    if parts == [] then [] else Flat(parts[..|parts| - 1]) + parts[|parts| - 1]
  }

  lemma FlatSnoc(parts: seq<seq<byte>>, part: seq<byte>)
    ensures Flat(parts + [part]) == Flat(parts) + part
  {
    assert (parts + [part])[..|parts|] == parts;
  }

  /** What each read returned, and its bytes. */
  function Reads(c: Conn, ops: seq<Op>): seq<(int, seq<byte>)>
    requires AllPossible(c, ops)
    decreases |ops|
  {
    if ops == [] then []
    else
      var rest := Reads(Step(c, ops[0]), ops[1..]);
      match ops[0]
      case Call(Read(size, filled), fault) =>
        [(Code(c.sock, ops[0].ask, fault), Got(c.sock, ops[0].ask, fault))] + rest
      case _ => rest
  }

  /** The sum of the lengths returned. */
  function Total(results: seq<(int, seq<byte>)>): nat {
    if results == [] then 0 else (if results[0].0 >= 0 then results[0].0 else 0) + Total(results[1..])
  }

  /** All the bytes handed to the caller. */
  function Collected(results: seq<(int, seq<byte>)>): seq<byte> {
    if results == [] then [] else results[0].1 + Collected(results[1..])
  }

  // ----- Nothing is lost, repeated or reordered -----

  /** What was read of a stream, what is queued and what was dropped make up what the peer sent. */
  predicate StreamKept(c: Conn) {
    && c.sock.Tcp?
    && Flat(c.sent) == Flat(c.read) + c.sock.queue + c.dropped
    && (c.dropped != [] ==> c.sock.queue == [] && c.sock.closed)
  }

  /** The reads are the datagrams in the order they arrived, each cut to the room offered for it,
      and the datagrams after those are queued. */
  predicate DatagramsKept(c: Conn) {
    && c.sock.Udp? && c.dropped == []
    && |c.rooms| == |c.read| <= |c.sent|
    && c.sock.datagrams == c.sent[|c.read|..]
    && forall i :: 0 <= i < |c.read| ==> c.read[i] == Cut(c.sent[i], c.rooms[i])
  }

  predicate Conserved(c: Conn) {
    StreamKept(c) || DatagramsKept(c)
  }

  lemma Moved(read: seq<byte>, queue: seq<byte>, n: nat, dropped: seq<byte>)
    requires n <= |queue|
    ensures read + queue + dropped == (read + queue[..n]) + queue[n..] + dropped
  {
    assert queue == queue[..n] + queue[n..];
  }

  lemma ReadKeepsStream(c: Conn, ask: Ask, fault: Fault)
    requires StreamKept(c) && Plausible(c.sock, ask) && ask.Read? && Serves(c.sock, fault)
    ensures StreamKept(Step(c, Call(ask, fault)))
  {
    FlatSnoc(c.read, c.sock.queue[..ask.filled]);
    Moved(Flat(c.read), c.sock.queue, ask.filled, c.dropped);
  }

  lemma StepKeepsStream(c: Conn, op: Op)
    requires StreamKept(c) && Possible(c, op)
    ensures StreamKept(Step(c, op))
  {
    match op {
      case Arrive(bytes) => FlatSnoc(c.sent, bytes);
      case Hangup =>
      case Fail(_, _) =>
      case Call(ask, fault) =>
        if ask.Read? && Serves(c.sock, fault) { ReadKeepsStream(c, ask, fault); }
    }
  }

  lemma StepKeepsDatagrams(c: Conn, op: Op)
    requires DatagramsKept(c) && Possible(c, op)
    ensures DatagramsKept(Step(c, op))
  {
    if op.Arrive? {
      assert Step(c, op).sent[|c.read|..] == c.sock.datagrams + [op.bytes];
    } else if op.Call? && op.ask.Read? && Serves(c.sock, op.fault) {
      assert c.sock.datagrams[0] == c.sent[|c.read|];
      assert c.sent[|c.read| + 1..] == c.sock.datagrams[1..];
    }
  }

  predicate Drops(op: Op) {
    op.Fail? && op.drops
  }

  predicate NothingDrops(ops: seq<Op>) {
    forall i :: 0 <= i < |ops| ==> !Drops(ops[i])
  }

  /** d comes after c. */
  predicate Continues(c: Conn, d: Conn) {
    d.sock.Tcp? == c.sock.Tcp? && c.sent <= d.sent && c.read <= d.read && c.rooms <= d.rooms
  }

  lemma StepConserves(c: Conn, op: Op)
    requires Conserved(c) && Possible(c, op)
    ensures Conserved(Step(c, op)) && Continues(c, Step(c, op))
    ensures !Drops(op) ==> Step(c, op).dropped == c.dropped
  {
    if c.sock.Tcp? { StepKeepsStream(c, op); } else { StepKeepsDatagrams(c, op); }
  }

  lemma StepDelivers(c: Conn, op: Op)
    requires Possible(c, op)
    ensures Flat(Step(c, op).read)
            == Flat(c.read) + if op.Call? && op.ask.Read? then Got(c.sock, op.ask, op.fault) else []
  {
    if op.Call? && op.ask.Read? { FlatSnoc(c.read, Got(c.sock, op.ask, op.fault)); }
  }

  lemma Nest(a: seq<byte>, b: seq<byte>, c: seq<byte>)
    ensures (a + b) + c == a + (b + c)
  {
  }

  lemma ReadsCons(c: Conn, ops: seq<Op>)
    requires AllPossible(c, ops) && ops != []
    ensures var op, rest := ops[0], Reads(Step(c, ops[0]), ops[1..]);
            Reads(c, ops) == if op.Call? && op.ask.Read?
                             then [(Code(c.sock, op.ask, op.fault), Got(c.sock, op.ask, op.fault))] + rest
                             else rest
  {
  }

  /** What the reads of a run returned is what was delivered in it: the bytes in order, and the codes
      add up to their number. */
  lemma {:induction false} CodesAddUp(c: Conn, ops: seq<Op>)
    requires AllPossible(c, ops)
    ensures Flat(Run(c, ops).read) == Flat(c.read) + Collected(Reads(c, ops))
    ensures |Collected(Reads(c, ops))| == Total(Reads(c, ops))
    decreases |ops|
  {
    if ops != [] {
      var d, rest := Step(c, ops[0]), Reads(Step(c, ops[0]), ops[1..]);
      CodesAddUp(d, ops[1..]);
      StepDelivers(c, ops[0]);
      ReadsCons(c, ops);
      if ops[0].Call? && ops[0].ask.Read? {
        var got := Got(c.sock, ops[0].ask, ops[0].fault);
        CodeExactly(c.sock, ops[0].ask, ops[0].fault);
        assert Reads(c, ops)[1..] == rest;
        Nest(Flat(c.read), got, Collected(rest));
      }
    }
  }

  /** However a connection is used, what was read of a stream is a prefix of what the peer sent and
      only a failing connection drops the rest; and the reads of a UDP slot are its datagrams. */
  lemma {:induction false} ConnectionConserved(c: Conn, ops: seq<Op>)
    requires Conserved(c) && AllPossible(c, ops)
    ensures var d := Run(c, ops);
            && Conserved(d) && Continues(c, d)
            && (d.sock.Tcp? ==> Flat(d.read) <= Flat(d.sent))
            && |Flat(d.read)| == |Flat(c.read)| + Total(Reads(c, ops))
            && (NothingDrops(ops) ==> d.dropped == c.dropped)
    decreases |ops|
  {
    CodesAddUp(c, ops);
    if ops != [] {
      StepConserves(c, ops[0]);
      ConnectionConserved(Step(c, ops[0]), ops[1..]);
    }
  }

  // ----- The end of a stream -----

  predicate Drained(c: Conn) {
    Flat(c.read) + c.dropped == Flat(c.sent)
  }

  /** The end is reported exactly of a closed stream of which nothing is left to read and no error
      to report; or when a read offers no room: that reports the end of a stream that goes on. */
  lemma EndReportedIff(c: Conn, ask: Ask, fault: Fault)
    requires Conserved(c) && Plausible(c.sock, ask)
    ensures Code(c.sock, ask, fault) == -2 <==>
              && c.sock.Tcp? && (fault.NoFault? || fault.ErrorFirst?)
              && if Drained(c) then c.sock.closed && !c.sock.error
                 else ask.Read? && ask.size == 0 && !(c.sock.error && fault.ErrorFirst?)
  {
    if c.sock.Tcp? {
      assert Drained(c) <==> c.sock.queue == [] by {
        assert |Flat(c.sent)| == |Flat(c.read)| + |c.sock.queue| + |c.dropped|;
        if c.sock.queue == [] { assert Flat(c.read) + c.sock.queue == Flat(c.read); }
      }
    }
  }

  /** A read without room takes any open stream with bytes waiting for a closed one. */
  lemma NoRoomLooksLikeEnd(queue: seq<byte>)
    requires queue != []
    ensures Code(Tcp(queue, false, false), Read(0, 0), NoFault) == -2
    ensures Code(Tcp(queue, false, false), Read(1, 1), NoFault) == 1
  {
  }

  /** So over a whole connection, with room offered, the end comes after every byte that the system
      has not dropped has been delivered, and no byte can follow it. */
  lemma EndIsFinal(c: Conn, ops: seq<Op>, ask: Ask, fault: Fault, more: seq<Op>)
    requires Conserved(c) && AllPossible(c, ops) && Plausible(Run(c, ops).sock, ask)
    requires ask.Read? ==> ask.size > 0
    requires Code(Run(c, ops).sock, ask, fault) == -2
    requires AllPossible(Run(c, ops), more)
    ensures var d, e := Run(c, ops), Run(Run(c, ops), more);
            && Drained(d)
            && (c.dropped == [] && NothingDrops(ops) ==> Flat(d.read) == Flat(d.sent))
            && Flat(e.read) == Flat(d.read) && e.sent == d.sent
  {
    ConnectionConserved(c, ops);
    var d := Run(c, ops);
    EndReportedIff(d, ask, fault);
    assert Drained(d);
    assert |Flat(d.sent)| == |Flat(d.read)| + |d.sock.queue| + |d.dropped|;
    if d.dropped == [] { assert Flat(d.read) + d.dropped == Flat(d.read); }
    NothingFollows(d, more);
  }

  lemma EndStays(c: Conn, op: Op)
    requires c.sock.Tcp? && c.sock.queue == [] && c.sock.closed && Possible(c, op)
    ensures var d := Step(c, op);
            d.sock.queue == [] && d.sock.closed && Flat(d.read) == Flat(c.read) && d.sent == c.sent
  {
    FlatSnoc(c.read, []);
  }

  lemma {:induction false} NothingFollows(c: Conn, ops: seq<Op>)
    requires c.sock.Tcp? && c.sock.queue == [] && c.sock.closed && AllPossible(c, ops)
    ensures var d := Run(c, ops); Flat(d.read) == Flat(c.read) && d.sent == c.sent
    decreases |ops|
  {
    if ops != [] {
      EndStays(c, ops[0]);
      NothingFollows(Step(c, ops[0]), ops[1..]);
    }
  }

  // ----- Checks -----

  predicate IsCheck(op: Op) {
    op.Call? && op.ask.Check?
  }

  /** No check is the one to report a waiting error. */
  predicate ChecksClean(c: Conn, ops: seq<Op>)
    decreases |ops|
  {
    ops != [] && Possible(c, ops[0]) ==>
      !(IsCheck(ops[0]) && Reports(c.sock, ops[0].fault)) && ChecksClean(Step(c, ops[0]), ops[1..])
  }

  function Unchecked(ops: seq<Op>): seq<Op> {
    if ops == [] then []
    else if IsCheck(ops[0]) then Unchecked(ops[1..])
    else [ops[0]] + Unchecked(ops[1..])
  }

  /** With or without checks that report no error, the same run is possible, every read returns the
      same, and the connection ends up the same. */
  lemma {:induction false} ChecksAreInvisible(c: Conn, ops: seq<Op>)
    requires ChecksClean(c, ops)
    ensures AllPossible(c, ops) <==> AllPossible(c, Unchecked(ops))
    ensures AllPossible(c, ops) ==> Run(c, Unchecked(ops)) == Run(c, ops)
    ensures AllPossible(c, ops) ==> Reads(c, Unchecked(ops)) == Reads(c, ops)
    decreases |ops|
  {
    if ops != [] {
      if Possible(c, ops[0]) { ChecksAreInvisible(Step(c, ops[0]), ops[1..]); }
      if !IsCheck(ops[0]) { assert Unchecked(ops)[1..] == Unchecked(ops[1..]); }
    }
  }

  /** A read that is given the error first. */
  function Probe(s: Socket): Op {
    Call(Read(1, if s.Tcp? then Min(1, |s.queue|) else 0), ErrorFirst)
  }

  lemma ProbeTells(c: Conn, fault: Fault)
    requires Reports(c.sock, fault)
    ensures var ops := [Probe(c.sock)];
            && AllPossible(c, ops) && AllPossible(Step(c, Call(Check, fault)), ops)
            && Reads(c, ops) != Reads(Step(c, Call(Check, fault)), ops)
  {
    var d := Step(c, Call(Check, fault));
    var op := Probe(c.sock);
    assert Code(c.sock, op.ask, ErrorFirst) == -1;
    assert Code(d.sock, op.ask, ErrorFirst) != -1;
    assert Reads(c, [op])[0].0 == -1;
  }

  /** A check leaves no trace in anything that can follow, exactly unless it reports a waiting error:
      that error is then cleared, and no read gets to report it. */
  lemma CheckInvisibleIff(c: Conn, fault: Fault)
    ensures !Reports(c.sock, fault) <==>
              forall ops :: AllPossible(c, ops) ==>
                && AllPossible(Step(c, Call(Check, fault)), ops)
                && Reads(Step(c, Call(Check, fault)), ops) == Reads(c, ops)
  {
    if Reports(c.sock, fault) {
      ProbeTells(c, fault);
    } else {
      assert Step(c, Call(Check, fault)) == c;
    }
  }
}
