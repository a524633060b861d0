/** The state of a running bridge as one value, and what one step of each of its parts does to
    it. The classes of MobileGlue and BgbLink are proved to perform exactly these steps, and the
    theorems about whole runs are stated over them. */
module Bridge {
  import opened Words

  datatype Packet = Packet(cmd: byte, b2: byte, b3: byte, b4: byte, timestamp: uint32)

  const CMD_VERSION: byte := 1
  const CMD_JOYPAD: byte := 101
  const CMD_SYNC1: byte := 104
  const CMD_SYNC2: byte := 105
  const CMD_SYNC3: byte := 106
  const CMD_STATUS: byte := 108
  const CMD_WANTDISCONNECT: byte := 109

  /** The flags of the adapter's action word. Only the one that is filtered out has a name. */
  datatype Action = ResetSerial | Other(flag: nat)
  type Actions = set<Action>

  /** What a run does that can be seen from outside: packets sent to the emulator, calls of the
      adapter, and the report of a clock jump. */
  datatype Event =
    | Sent(packet: Packet)
    | Transfer(input: byte, output: byte)
    | Jump
    | Start
    | Stop
    | GetActions(raw: Actions)
    | Process(actions: Actions)

  /** The two timestamp callbacks, or none. */
  datatype TimestampCallback = NoTimestamp | InitClock | TrackClock

  /** What the link socket holds: nothing, a failed or short read, or one whole packet. */
  datatype Poll = NoData | Broken | Data(packet: Packet)

  /** What the adapter does with a transferred byte: its answer, and the timers it latches. */
  datatype Reaction = Reaction(output: byte, latched: seq<nat>)

  /** The outside world during one pass of the link: the socket, whether a send succeeds, and
      what the adapter makes of a transferred byte. */
  datatype Env = Env(poll: Poll, sendOk: bool, reaction: Reaction)

  /** What the adapter does during one round: its answers when it is asked for actions, and the
      timers it latches. */
  datatype Round = Round(first: Actions, second: Actions, latched: seq<nat>)

  /** The link's state, the user's state, and everything that has happened. */
  datatype World = World(
    reply: byte, last: uint32, lastInit: bool,
    clock: uint32, clockInit: bool, reset: bool, action: Actions, latches: seq<uint32>,
    log: seq<Event>)

  function Logged(w: World, e: Event): World {
    w.(log := w.log + [e])
  }

  // ----- Timers -----

  /** Emulator ticks in ms milliseconds, at 2^21 ticks per second. */
  function Threshold(ms: nat): nat {
    ms * 2097152 / 1000
  }

  /** The timers named take the value now. */
  function Latch<T>(latches: seq<T>, timers: seq<nat>, now: T): (r: seq<T>)
    ensures |r| == |latches|
    ensures forall i :: 0 <= i < |r| ==> r[i] == if i in timers then now else latches[i]
  {
    seq(|latches|, i requires 0 <= i < |latches| => if i in timers then now else latches[i])
  }

  function LatchAll(w: World, timers: seq<nat>): World {
    w.(latches := Latch(w.latches, timers, w.clock))
  }

  predicate Expired(w: World, timer: nat, ms: nat)
    requires timer < |w.latches|
  {
    Forward(w.latches[timer], w.clock) >= Threshold(ms)
  }

  // ----- The link -----

  predicate Known(cmd: byte) {
    cmd in {CMD_JOYPAD, CMD_SYNC1, CMD_SYNC2, CMD_SYNC3, CMD_STATUS, CMD_WANTDISCONNECT}
  }

  /** Only these packets carry the emulator's clock. */
  predicate Timed(p: Packet) {
    p.cmd == CMD_SYNC1 || p.cmd == CMD_SYNC3
  }

  function Sync2(b: byte): Packet {
    Packet(CMD_SYNC2, b, 0x80, 0, 0)
  }

  /** The packets sent in answer to p. */
  function Answer(w: World, p: Packet): seq<Packet> {
    if p.cmd == CMD_SYNC1 then [Sync2(w.reply)]
    else if p.cmd == CMD_SYNC3 && p.b2 == 0 then [p]
    else []
  }

  /** One pass of the link keeps the session alive. */
  predicate Accepts(w: World, env: Env) {
    match env.poll
    case NoData => true
    case Broken => false
    case Data(p) => Known(p.cmd) && (Answer(w, p) != [] ==> env.sendOk)
  }

  /** Answering p: the reply goes out before the adapter sees the byte, and what the adapter
      returns is kept for the next reply. */
  function Respond(transfers: bool, w: World, p: Packet, reaction: Reaction): World {
    if p.cmd == CMD_SYNC1 then
      var v := Logged(w, Sent(Sync2(w.reply)));
      if transfers then Transferred(v, p.b2, reaction) else v
    else if p.cmd == CMD_SYNC3 && p.b2 == 0 then Logged(w, Sent(p))
    else w
  }

  function Transferred(w: World, input: byte, reaction: Reaction): World {
    LatchAll(Logged(w, Transfer(input, reaction.output)).(reply := reaction.output), reaction.latched)
  }

  /** A timestamp at most 0x100 ticks behind the last one is taken for an emulator glitch. */
  predicate Stale(last: uint32, t: uint32) {
    Forward(last, t) >= 0x8000_0000 - 0x100
  }

  /** A timestamp further away than that, and more than 0x1000 ticks ahead, is a reset of the
      emulator. */
  predicate Jumps(last: uint32, t: uint32) {
    0x1000 < Forward(last, t) < 0x8000_0000 - 0x100
  }

  /** The timestamp callbacks. */
  function Tick(cb: TimestampCallback, w: World, t: uint32): World {
    match cb
    case NoTimestamp => w
    case InitClock => w.(clock := t, clockInit := true)
    case TrackClock =>
      var v := w.(clock := t);
      if Forward(w.clock, t) > 0x1000 then Logged(v.(reset := true), Jump) else v
  }

  /** What the link makes of the timestamp t. */
  function Observe(cb: TimestampCallback, w: World, t: uint32): World {
    if cb.NoTimestamp? then w
    else if !w.lastInit then Tick(cb, w, t).(last := t, lastInit := true)
    else if w.last == t || Stale(w.last, t) then w
    else Tick(cb, w, t).(last := t)
  }

  function Carried(w: World, p: Packet): uint32 {
    if Timed(p) then p.timestamp else w.last
  }

  /** The state after one pass of the link. */
  function LoopWorld(cb: TimestampCallback, transfers: bool, w: World, env: Env): World {
    if env.poll.Data? && Accepts(w, env)
    then Observe(cb, Respond(transfers, w, env.poll.packet, env.reaction), Carried(w, env.poll.packet))
    else w
  }

  // ----- The adapter -----

  /** The actions that matter to this emulator. */
  function Filter(actions: Actions): Actions {
    actions - {ResetSerial}
  }

  function Restarted(w: World): World {
    if w.reset then Logged(Logged(w, Stop), Start).(reset := false) else w
  }

  function Fetched(w: World, raw: Actions): World {
    Logged(w, GetActions(raw)).(action := Filter(raw))
  }

  function Processed(w: World, raw: Actions): World {
    if w.action != {} then Fetched(Logged(w, Process(w.action)), raw) else w
  }

  /** The state after one round of the adapter. The clock stands still during a round, so it does
      not matter when in it a timer is latched. */
  function HandleWorld(w: World, round: Round): World {
    var v := Restarted(w);
    LatchAll(Processed(if v.action == {} then Fetched(v, round.first) else v, round.second), round.latched)
  }

  /** The adapter is started, and may latch timers in doing so. */
  function Started(w: World, latched: seq<nat>): World {
    LatchAll(Logged(w, Start), latched)
  }
}
