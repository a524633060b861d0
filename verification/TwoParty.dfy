/** The test driver and the link side by side, exchanging packets over two FIFO channels in every
    possible interleaving. */
module TwoParty {
  import opened Words
  import opened Bridge
  import opened Lifecycle
  import opened ClockRefinement
  import opened Master

  /** Both ends and both channels. posted, sent and returned record every packet the driver has
      posted, every byte it has asked to transfer and every byte its transfers have returned. */
  datatype System = System(
    toSlave: seq<Packet>, toMaster: seq<Packet>, slave: World, waiting: bool,
    posted: seq<Packet>, sent: seq<byte>, returned: seq<byte>)

  /** The driver posts a clock packet, or a byte to transfer; while it waits for the reply it takes
      packets off its channel. The slave takes a packet off its own, its adapter reacting if there
      is a byte to transfer, and goes round with its adapter; or finds nothing and only goes
      round. The driver's timestamps are left open. */
  datatype Move =
    | PostClock(t: uint32)
    | PostByte(b: byte, t: uint32)
    | Handle
    | SlaveTakes(reaction: Reaction, round: Round)
    | SlaveIdles(round: Round)

  predicate Enabled(s: System, move: Move) {
    match move
    case PostClock(_) => !s.waiting
    case PostByte(_, _) => !s.waiting
    case Handle => s.waiting && s.toMaster != []
    case SlaveTakes(_, _) => s.toSlave != []
    case SlaveIdles(_) => s.toSlave == [] && s.slave.clockInit
  }

  /** A turn of the slave's main loop, or the end of its wait for the clock and the start of its
      adapter. */
  function SlaveTurn(w: World, p: Packet, reaction: Reaction, round: Round): World {
    var v := Take(w, p, reaction);
    if w.clockInit then HandleWorld(v, round) else Started(v, round.latched)
  }

  function Post(s: System, p: Packet): System {
    s.(toSlave := s.toSlave + [p], posted := s.posted + [p])
  }

  function Do(s: System, move: Move): System
    requires Enabled(s, move)
  {
    match move
    case PostClock(t) => Post(s, Packet(CMD_SYNC3, 0, 0, 0, t))
    case PostByte(b, t) => Post(s, Packet(CMD_SYNC1, b, 0x81, 0, t)).(sent := s.sent + [b], waiting := true)
    case Handle =>
      var p := s.toMaster[0];
      var r := s.(toMaster := s.toMaster[1..]);
      if p.cmd == CMD_SYNC2 then r.(returned := s.returned + [p.b2], waiting := false) else r
    case SlaveTakes(reaction, round) =>
      var p := s.toSlave[0];
      s.(toSlave := s.toSlave[1..], toMaster := s.toMaster + Answer(s.slave, p),
         slave := SlaveTurn(s.slave, p, reaction, round))
    case SlaveIdles(round) => s.(slave := HandleWorld(s.slave, round))
  }

  predicate Valid(s: System, moves: seq<Move>)
    decreases |moves|
  {
    moves == [] || (Enabled(s, moves[0]) && Valid(Do(s, moves[0]), moves[1..]))
  }

  function Play(s: System, moves: seq<Move>): System
    requires Valid(s, moves)
    decreases |moves|
  {
    if moves == [] then s else Play(Do(s, moves[0]), moves[1..])
  }

  /** After the handshake the driver has left the slave's two status packets unread. */
  predicate Initial(s: System) {
    && s.toSlave == [] && !s.waiting && s.posted == [] && s.sent == [] && s.returned == []
    && Fresh(s.slave)
    && forall i :: 0 <= i < |s.toMaster| ==> s.toMaster[i].cmd == CMD_STATUS
  }

  // ----- What every move keeps -----

  /** The bytes that the packets of one kind carry, in order. */
  function Bytes(packets: seq<Packet>, cmd: byte): seq<byte> {
    if packets == [] then []
    else if packets[0].cmd == cmd then [packets[0].b2] + Bytes(packets[1..], cmd)
    else Bytes(packets[1..], cmd)
  }

  lemma {:induction false} BytesSnoc(packets: seq<Packet>, p: Packet, cmd: byte)
    ensures Bytes(packets + [p], cmd) == if p.cmd == cmd then Bytes(packets, cmd) + [p.b2] else Bytes(packets, cmd)
  {
    if packets == [] {
      assert packets + [p] == [p];
    } else {
      BytesSnoc(packets[1..], p, cmd);
      assert (packets + [p])[1..] == packets[1..] + [p];
    }
  }

  /** The bytes handed to the adapter. */
  function Inputs(log: seq<Event>): seq<byte> {
    var s := Select(log, IsTransfer);
    seq(|s|, i requires 0 <= i < |s| => if s[i].Transfer? then s[i].input else 0)
  }

  lemma InputsSnoc(log: seq<Event>, e: Event)
    ensures Inputs(log + [e]) == if IsTransfer(e) then Inputs(log) + [e.input] else Inputs(log)
  {
    SelectSnoc(log, e, IsTransfer);
  }

  /** Nothing is lost, added or overtaken: the bytes sent are those the adapter has had followed by
      those under way, the replies sent are those returned followed by those under way, and one
      byte or its reply is under way exactly while the driver waits. */
  predicate Conserved(init: byte, s: System) {
    && s.sent == Inputs(s.slave.log) + Bytes(s.toSlave, CMD_SYNC1) == Bytes(s.posted, CMD_SYNC1)
    && Replies(s.slave.log) == s.returned + Bytes(s.toMaster, CMD_SYNC2)
    && |Bytes(s.toSlave, CMD_SYNC1)| + |Bytes(s.toMaster, CMD_SYNC2)| == (if s.waiting then 1 else 0)
    && Pipeline(init, s.slave)
    && forall i :: 0 <= i < |s.toSlave| ==> FromMaster(s.toSlave[i])
  }

  predicate FromMaster(p: Packet) {
    p.cmd == CMD_SYNC1 || (p.cmd == CMD_SYNC3 && p.b2 == 0)
  }

  lemma {:induction false} NoBytes(packets: seq<Packet>, cmd: byte)
    requires forall i :: 0 <= i < |packets| ==> packets[i].cmd != cmd
    ensures Bytes(packets, cmd) == []
  {
    if packets != [] { NoBytes(packets[1..], cmd); }
  }

  lemma InitialConserved(s: System)
    requires Initial(s)
    ensures Conserved(s.slave.reply, s)
  {
    SentOnly(s.slave.log, IsTransfer);
    SentOnly(s.slave.log, IsReply);
    NoBytes(s.toMaster, CMD_SYNC2);
  }

  lemma TakeLog(w: World, p: Packet, reaction: Reaction)
    requires FromMaster(p)
    ensures var log := Take(w, p, reaction).log;
            && Inputs(log) == (if p.cmd == CMD_SYNC1 then Inputs(w.log) + [p.b2] else Inputs(w.log))
            && Replies(log) == (if p.cmd == CMD_SYNC1 then Replies(w.log) + [w.reply] else Replies(w.log))
  {
    var answered := Respond(true, w, p, reaction);
    RespondLog(w, p, reaction);
    ProjectionsSnoc(answered.log, Jump);
    InputsSnoc(answered.log, Jump);
    TakeAfterRespond(w, p, reaction);
  }

  lemma RespondLog(w: World, p: Packet, reaction: Reaction)
    requires FromMaster(p)
    ensures var log := Respond(true, w, p, reaction).log;
            && Inputs(log) == (if p.cmd == CMD_SYNC1 then Inputs(w.log) + [p.b2] else Inputs(w.log))
            && Replies(log) == (if p.cmd == CMD_SYNC1 then Replies(w.log) + [w.reply] else Replies(w.log))
  {
    var e := Sent(Answer(w, p)[0]);
    ProjectionsSnoc(w.log, e);
    InputsSnoc(w.log, e);
    ProjectionsSnoc(w.log + [e], Event.Transfer(p.b2, reaction.output));
    InputsSnoc(w.log + [e], Event.Transfer(p.b2, reaction.output));
  }

  lemma TakeAfterRespond(w: World, p: Packet, reaction: Reaction)
    requires FromMaster(p)
    ensures var log := Respond(true, w, p, reaction).log;
            Take(w, p, reaction).log == log || Take(w, p, reaction).log == log + [Jump]
  {
  }

  lemma PostConserves(init: byte, s: System, move: Move)
    requires Conserved(init, s) && Enabled(s, move) && (move.PostClock? || move.PostByte?)
    ensures Conserved(init, Do(s, move))
  {
    var p := if move.PostClock? then Packet(CMD_SYNC3, 0, 0, 0, move.t) else Packet(CMD_SYNC1, move.b, 0x81, 0, move.t);
    BytesSnoc(s.toSlave, p, CMD_SYNC1);
    BytesSnoc(s.posted, p, CMD_SYNC1);
  }

  lemma HandleConserves(init: byte, s: System)
    requires Conserved(init, s) && Enabled(s, Handle)
    ensures Conserved(init, Do(s, Handle))
  {
  }

  /** Going round with the adapter, or starting it, leaves the bytes alone. */
  lemma RoundBytes(w: World, round: Round)
    ensures var v := HandleWorld(w, round);
            Inputs(v.log) == Inputs(w.log) && Outputs(v.log) == Outputs(w.log) && Replies(v.log) == Replies(w.log)
            && v.reply == w.reply
  {
    RoundSelects(w, round, IsTransfer);
    RoundSelects(w, round, IsReply);
  }

  lemma TurnBytes(init: byte, w: World, p: Packet, reaction: Reaction, round: Round)
    requires FromMaster(p) && Pipeline(init, w)
    ensures var v := SlaveTurn(w, p, reaction, round);
            && Inputs(v.log) == (if p.cmd == CMD_SYNC1 then Inputs(w.log) + [p.b2] else Inputs(w.log))
            && Replies(v.log) == (if p.cmd == CMD_SYNC1 then Replies(w.log) + [w.reply] else Replies(w.log))
            && Pipeline(init, v)
  {
    var v := Take(w, p, reaction);
    TakeLog(w, p, reaction);
    LoopKeepsPipeline(init, if w.clockInit then TrackClock else InitClock, w, Env(Data(p), true, reaction));
    RoundBytes(v, round);
    InputsSnoc(v.log, Start);
    ProjectionsSnoc(v.log, Start);
  }

  lemma TakeConserves(init: byte, s: System, move: Move)
    requires Conserved(init, s) && Enabled(s, move) && move.SlaveTakes?
    ensures Conserved(init, Do(s, move))
  {
    var p := s.toSlave[0];
    TurnBytes(init, s.slave, p, move.reaction, move.round);
    BytesSnoc(s.toMaster, Answer(s.slave, p)[0], CMD_SYNC2);
  }

  lemma MoveConserves(init: byte, s: System, move: Move)
    requires Conserved(init, s) && Enabled(s, move)
    ensures Conserved(init, Do(s, move))
  {
    match move {
      case Handle => HandleConserves(init, s);
      case SlaveTakes(_, _) => TakeConserves(init, s, move);
      case SlaveIdles(round) => RoundBytes(s.slave, round);
      case _ => PostConserves(init, s, move);
    }
  }

  lemma {:induction false} PlayConserves(init: byte, s: System, moves: seq<Move>)
    requires Conserved(init, s) && Valid(s, moves)
    ensures Conserved(init, Play(s, moves))
    decreases |moves|
  {
    if moves != [] {
      MoveConserves(init, s, moves[0]);
      PlayConserves(init, Do(s, moves[0]), moves[1..]);
    }
  }

  // ----- Safety -----

  /** In every interleaving, at most one byte or its reply is under way; the first transfer returns
      the initial byte, and each later one what the adapter made of the byte transferred before. */
  lemma TwoPartySafety(s: System, moves: seq<Move>)
    requires Initial(s) && Valid(s, moves)
    ensures var e := Play(s, moves);
            && |Bytes(e.toSlave, CMD_SYNC1)| + |Bytes(e.toMaster, CMD_SYNC2)| == (if e.waiting then 1 else 0)
            && |e.sent| == |e.returned| + (if e.waiting then 1 else 0)
            && Inputs(e.slave.log) <= e.sent
            && |e.returned| <= |Outputs(e.slave.log)| == |Inputs(e.slave.log)|
            && forall k :: 0 <= k < |e.returned| ==>
                 e.returned[k] == if k == 0 then s.slave.reply else Outputs(e.slave.log)[k - 1]
  {
    InitialConserved(s);
    PlayConserves(s.slave.reply, s, moves);
    var e := Play(s, moves);
    var piped := [s.slave.reply] + Outputs(e.slave.log);
    assert Replies(e.slave.log) == piped[..|piped| - 1];
    assert e.returned == piped[..|e.returned|];
  }

  // ----- Progress -----

  function Work(s: System): nat {
    2 * |s.toSlave| + |s.toMaster|
  }

  /** While the driver waits, the byte is still to be taken or its reply is on the way, so one of the
      two has something to take; and every move but an idle one uses work up. */
  lemma WaitingMoves(init: byte, s: System, move: Move)
    requires Conserved(init, s) && s.waiting
    ensures Bytes(s.toSlave, CMD_SYNC1) != [] || Bytes(s.toMaster, CMD_SYNC2) != []
    ensures s.toSlave != [] || Enabled(s, Handle)
    ensures Enabled(s, move) ==> Work(Do(s, move)) + (if move.SlaveIdles? then 0 else 1) <= Work(s)
  {
  }

  /** The moves that are not idle. */
  function Busy(moves: seq<Move>): nat {
    if moves == [] then 0 else Busy(moves[1..]) + if moves[0].SlaveIdles? then 0 else 1
  }

  /** A wait is over after at most as many moves as there was work, idle ones aside, whatever they
      are: a run during which the driver has been waiting all along has no more, and is not stuck. */
  lemma {:induction false} WaitIsBounded(init: byte, s: System, moves: seq<Move>)
    requires Conserved(init, s) && Valid(s, moves)
    requires WaitsThroughout(s, moves)
    ensures Busy(moves) + Work(Play(s, moves)) <= Work(s)
    ensures Play(s, moves).toSlave != [] || Enabled(Play(s, moves), Handle)
    decreases |moves|
  {
    WaitingMoves(init, s, if moves == [] then Handle else moves[0]);
    if moves != [] {
      MoveConserves(init, s, moves[0]);
      WaitIsBounded(init, Do(s, moves[0]), moves[1..]);
    }
  }

  predicate WaitsThroughout(s: System, moves: seq<Move>)
    requires Valid(s, moves)
    decreases |moves|
  {
    s.waiting && (moves == [] || WaitsThroughout(Do(s, moves[0]), moves[1..]))
  }

  // ----- The clock -----

  /** How many packets the slave has taken. */
  function Taken(s: System): int {
    |s.posted| - |s.toSlave|
  }

  /** The slave's clock is at the last timestamp it has taken, and has not jumped. */
  predicate OnTime(jumped: nat, s: System) {
    && 0 <= Taken(s)
    && (forall i :: 0 <= i < |s.toSlave| ==>
          FromMaster(s.toSlave[i]) && s.toSlave[i] == s.posted[Taken(s) + i])
    && (if Taken(s) == 0 then Unset(s.slave) else At(s.slave, s.posted[Taken(s) - 1].timestamp))
    && Jumped(s.slave) == jumped
  }

  lemma TurnAdvances(w: World, p: Packet, reaction: Reaction, round: Round, t: uint32)
    requires Timed(p)
    requires Unset(w) || (At(w, t) && 0 <= p.timestamp - t <= 0x1000)
    ensures var v := SlaveTurn(w, p, reaction, round); At(v, p.timestamp) && Jumped(v) == Jumped(w)
  {
    var v := Take(w, p, reaction);
    if w.clockInit {
      TakeAdvances(w, p, reaction, t);
      RoundExactly(v, round);
    } else {
      TakeFirst(w, p, reaction);
      SelectSnoc(v.log, Start, IsJump);
    }
  }

  lemma TakeOnTime(jumped: nat, s: System, move: Move)
    requires OnTime(jumped, s) && PacedTimes(Stamps(s.posted)) && Enabled(s, move) && move.SlaveTakes?
    ensures OnTime(jumped, Do(s, move))
  {
    var n := Taken(s);
    if n > 0 { assert PacedAt(Stamps(s.posted), n); }
    TurnAdvances(s.slave, s.toSlave[0], move.reaction, move.round, if n > 0 then s.posted[n - 1].timestamp else 0);
  }

  lemma {:induction false} PlayGrows(s: System, moves: seq<Move>)
    requires Valid(s, moves)
    ensures s.posted <= Play(s, moves).posted
    decreases |moves|
  {
    if moves != [] { PlayGrows(Do(s, moves[0]), moves[1..]); }
  }

  lemma MoveOnTime(jumped: nat, s: System, move: Move)
    requires OnTime(jumped, s) && Enabled(s, move) && PacedTimes(Stamps(s.posted))
    ensures OnTime(jumped, Do(s, move))
  {
    if move.SlaveTakes? { TakeOnTime(jumped, s, move); }
    if move.SlaveIdles? { RoundExactly(s.slave, move.round); }
  }

  lemma {:induction false} PlayOnTime(jumped: nat, s: System, moves: seq<Move>)
    requires OnTime(jumped, s) && Valid(s, moves) && PacedTimes(Stamps(Play(s, moves).posted))
    ensures OnTime(jumped, Play(s, moves))
    decreases |moves|
  {
    if moves != [] {
      PlayGrows(s, moves);
      PacedFront(Stamps(Play(s, moves).posted), |s.posted|);
      assert Stamps(Play(s, moves).posted)[..|s.posted|] == Stamps(s.posted);
      MoveOnTime(jumped, s, moves[0]);
      PlayOnTime(jumped, Do(s, moves[0]), moves[1..]);
    }
  }

  /** However the two ends interleave, a driver whose masked clock does not decrease never resets
      the slave, whose clock is always the last timestamp it has taken. */
  lemma NoResetInAnyInterleaving(s: System, moves: seq<Move>, m: Time, calls: seq<Call>)
    requires Initial(s) && Valid(s, moves) && Monotone(m, calls)
    requires Play(s, moves).posted <= History(m, calls).1
    ensures OnTime(Jumped(s.slave), Play(s, moves))
  {
    HistoryIsPaced(m, calls);
    var stamps := Stamps(History(m, calls).1);
    PacedTail([Reading(m)] + stamps);
    assert ([Reading(m)] + stamps)[1..] == stamps;
    var posted := Play(s, moves).posted;
    PacedFront(stamps, |posted|);
    assert stamps[..|posted|] == Stamps(posted);
    PlayOnTime(Jumped(s.slave), s, moves);
  }

  // ----- The driver's calls -----

  /** The bytes that the driver is asked to transfer. */
  function Asked(calls: seq<Call>): seq<byte> {
    if calls == [] then []
    else
      var n := |calls| - 1;
      if calls[n].Transfer? then Asked(calls[..n]) + [calls[n].b] else Asked(calls[..n])
  }

  lemma {:induction false} BytesConcat(a: seq<Packet>, b: seq<Packet>, cmd: byte)
    ensures Bytes(a + b, cmd) == Bytes(a, cmd) + Bytes(b, cmd)
  {
    if a == [] {
      assert a + b == b;
    } else {
      BytesConcat(a[1..], b, cmd);
      assert (a + b)[1..] == a[1..] + b;
    }
  }

  lemma CallBytes(m: Time, call: Call)
    ensures Bytes(Packets(m, call), CMD_SYNC1) == if call.Transfer? then [call.b] else []
  {
    var cur := Reading(After(m, call));
    var pacing := Pacing(Reading(m), cur);
    NoBytes(pacing, CMD_SYNC1);
    BytesSnoc(pacing, Last(call, cur), CMD_SYNC1);
  }

  /** The bytes in the packets of a session are those asked for. */
  lemma {:induction false} SessionBytes(m: Time, calls: seq<Call>)
    ensures Bytes(History(m, calls).1, CMD_SYNC1) == Asked(calls)
  {
    if calls != [] {
      var n := |calls| - 1;
      var (before, packets) := History(m, calls[..n]);
      SessionBytes(m, calls[..n]);
      CallBytes(before, calls[n]);
      BytesConcat(packets, Packets(before, calls[n]), CMD_SYNC1);
    }
  }

  lemma BytesPrefix(a: seq<Packet>, b: seq<Packet>, cmd: byte)
    requires a <= b
    ensures Bytes(a, cmd) <= Bytes(b, cmd)
  {
    BytesConcat(a, b[|a|..], cmd);
    assert a + b[|a|..] == b;
  }

  /** When the packets posted are those of a session of the driver, then in every interleaving the
      adapter gets the bytes that the driver was asked to transfer, in order; and the driver has asked
      for one more than has been returned exactly while it waits. */
  lemma AdapterGetsWhatIsAsked(s: System, moves: seq<Move>, m: Time, calls: seq<Call>)
    requires Initial(s) && Valid(s, moves) && Play(s, moves).posted <= History(m, calls).1
    ensures var e := Play(s, moves);
            && Inputs(e.slave.log) <= e.sent <= Asked(calls)
            && |e.sent| == |e.returned| + (if e.waiting then 1 else 0)
            && (e.posted == History(m, calls).1 && e.toSlave == [] ==> Inputs(e.slave.log) == Asked(calls))
  {
    InitialConserved(s);
    PlayConserves(s.slave.reply, s, moves);
    TwoPartySafety(s, moves);
    SessionBytes(m, calls);
    BytesPrefix(Play(s, moves).posted, History(m, calls).1, CMD_SYNC1);
  }

  /** A call as moves of the driver. */
  function Moves(m: Time, call: Call): seq<Move> {
    var cur := Reading(After(m, call));
    var n := Gaps(Reading(m), cur);
    seq(n, (i: nat) requires i < n => PostClock(Reading(m) + 0x1000 * (i + 1)))
    + [if call.Transfer? then PostByte(call.b, cur) else PostClock(cur)]
  }

  /** The packets of such moves. */
  function Posted(moves: seq<Move>): seq<Packet> {
    seq(|moves|, i requires 0 <= i < |moves| =>
      match moves[i]
      case PostClock(t) => Packet(106, 0, 0, 0, t)
      case PostByte(b, t) => Packet(104, b, 0x81, 0, t)
      case _ => Packet(0, 0, 0, 0, 0))
  }

  lemma {:induction false} PostingPlays(s: System, moves: seq<Move>)
    requires !s.waiting && moves != [] && (forall i :: 0 <= i < |moves| - 1 ==> moves[i].PostClock?)
    requires moves[|moves| - 1].PostClock? || moves[|moves| - 1].PostByte?
    ensures Valid(s, moves)
    ensures var e := Play(s, moves);
            && e.toSlave == s.toSlave + Posted(moves) && e.posted == s.posted + Posted(moves)
            && e.slave == s.slave && e.waiting == moves[|moves| - 1].PostByte?
    decreases |moves|
  {
    var t := Do(s, moves[0]);
    assert Posted(moves) == Posted(moves[..1]) + Posted(moves[1..]);
    if |moves| > 1 {
      PostingPlays(t, moves[1..]);
      assert (s.toSlave + Posted(moves[..1])) + Posted(moves[1..]) == s.toSlave + Posted(moves);
      assert (s.posted + Posted(moves[..1])) + Posted(moves[1..]) == s.posted + Posted(moves);
    }
  }

  /** Whenever the driver is not waiting it can make any call, which posts just the call's packets and,
      if a byte is transferred, leaves it waiting. */
  lemma CallIsMoves(s: System, m: Time, call: Call)
    requires !s.waiting
    ensures Valid(s, Moves(m, call))
    ensures var e := Play(s, Moves(m, call));
            && e.toSlave == s.toSlave + Packets(m, call) && e.posted == s.posted + Packets(m, call)
            && e.slave == s.slave && e.waiting == call.Transfer?
  {
    PostingPlays(s, Moves(m, call));
    assert Posted(Moves(m, call)) == Packets(m, call);
  }
}
