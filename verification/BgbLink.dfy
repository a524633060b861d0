/** The slave end of the BGB link protocol. */
module BgbLink {
  import opened Words
  import opened Bridge
  import opened MobileGlue

  const HANDSHAKE := Packet(CMD_VERSION, 1, 4, 0, 0)

  const STATUS_RUNNING: byte := 1
  const STATUS_PAUSED: byte := 2
  const STATUS_SUPPORTRECONNECT: byte := 4

  const PAUSED := Packet(CMD_STATUS, STATUS_RUNNING + STATUS_PAUSED + STATUS_SUPPORTRECONNECT, 0, 0, 0)

  /** The unpausing packet reuses the buffer of the status packet it answers, timestamp included. */
  function Unpause(status: Packet): Packet {
    Packet(CMD_STATUS, STATUS_RUNNING + STATUS_SUPPORTRECONNECT, 0, 0, status.timestamp)
  }

  class BgbState {
    const user: MobileUser
    const callbackTransfer: bool
    var callbackTimestamp: TimestampCallback
    var reply: byte
    var timestampLast: uint32
    var timestampInit: bool

    ghost function View(): World
      reads this, user, user.bgbClockLatch
    {
      user.View(reply, timestampLast, timestampInit)
    }

    constructor (user: MobileUser, initByte: byte, callbackTransfer: bool, callbackTimestamp: TimestampCallback)
      ensures this.user == user && this.callbackTransfer == callbackTransfer
      ensures this.callbackTimestamp == callbackTimestamp
      ensures View() == old(user.View(initByte, 0, false))
    {
      this.user, this.callbackTransfer, this.callbackTimestamp := user, callbackTransfer, callbackTimestamp;
      reply, timestampLast, timestampInit := initByte, 0, false;
    }

    /** The handshake. The two packets received and the outcomes of the three sends are given;
        it succeeds exactly when every send does, the emulator answers with the same version
        packet and then with a status packet. A failure leaves out only what comes after it. */
    method Handshake(version: Poll, status: Poll, sends: (bool, bool, bool)) returns (ok: bool)
      modifies user`log
      ensures ok <==> sends.0 && sends.1 && sends.2 && version == Data(HANDSHAKE)
                      && status.Data? && status.packet.cmd == CMD_STATUS
      ensures ok ==> user.log == old(user.log) + [Sent(HANDSHAKE), Sent(PAUSED), Sent(Unpause(status.packet))]
      ensures !ok ==> user.log == old(user.log) + [Sent(HANDSHAKE), Sent(PAUSED)][..
                        if !sends.0 then 0 else if version != Data(HANDSHAKE) || !sends.1 then 1 else 2]
    {
      ok := false;
      var packet := HANDSHAKE;
      if !sends.0 { return; }
      user.log := user.log + [Sent(packet)];
      if !version.Data? { return; }
      packet := version.packet;
      if packet != HANDSHAKE { return; }

      packet := packet.(cmd := CMD_STATUS,
        b2 := STATUS_RUNNING + STATUS_PAUSED + STATUS_SUPPORTRECONNECT, b3 := 0, b4 := 0, timestamp := 0);
      if !sends.1 { return; }
      user.log := user.log + [Sent(packet)];

      if !status.Data? { return; }
      packet := status.packet;
      if packet.cmd != CMD_STATUS { return; }

      packet := packet.(cmd := CMD_STATUS, b2 := STATUS_RUNNING + STATUS_SUPPORTRECONNECT, b3 := 0, b4 := 0);
      if !sends.2 { return; }
      user.log := user.log + [Sent(packet)];
      ok := true;
    }

    method CallTimestamp(t: uint32)
      requires !callbackTimestamp.NoTimestamp?
      modifies user`bgbClock, user`bgbClockInit, user`reset, user`log
      ensures View() == Tick(callbackTimestamp, old(View()), t)
    {
      if callbackTimestamp.InitClock? {
        user.LoopTimestampInit(t);
      } else {
        user.LoopTimestamp(t);
      }
    }

    method ObserveTimestamp(cur: uint32)
      modifies this`timestampLast, this`timestampInit
      modifies user`bgbClock, user`bgbClockInit, user`reset, user`log
      ensures View() == Observe(callbackTimestamp, old(View()), cur)
    {
      var timestampCur := cur;
      if !callbackTimestamp.NoTimestamp? {
        if !timestampInit {
          CallTimestamp(timestampCur);
          timestampLast := timestampCur;
          timestampInit := true;
        }
        var diff := Low31(Sub32(timestampLast, timestampCur));
        ForwardReverse(timestampLast, timestampCur);
        if diff != 0 && diff <= 0x100 {
          timestampCur := timestampLast;
        }
        if timestampLast != timestampCur {
          CallTimestamp(timestampCur);
        }
        timestampLast := timestampCur;
      }
    }

    /** One pass of the link: at most one packet is read, answered and timed. */
    method Loop(env: Env) returns (ok: bool)
      requires user.Timers(env.reaction.latched)
      modifies this`reply, this`timestampLast, this`timestampInit
      modifies user`bgbClock, user`bgbClockInit, user`reset, user`log, user.bgbClockLatch
      ensures ok == Accepts(old(View()), env)
      ensures View() == LoopWorld(callbackTimestamp, callbackTransfer, old(View()), env)
    {
      var timestampCur := timestampLast;
      match env.poll {
        case NoData => return true;
        case Broken => return false;
        case Data(_) =>
      }
      var packet := env.poll.packet;

      if packet.cmd == CMD_SYNC1 {
        var byteCur := packet.b2;
        timestampCur := packet.timestamp;
        packet := packet.(cmd := CMD_SYNC2);
        packet := packet.(b2 := reply);
        packet := packet.(b3 := 0x80);
        packet := packet.(b4 := 0);
        packet := packet.(timestamp := 0);
        if !env.sendOk { return false; }
        user.log := user.log + [Sent(packet)];
        if callbackTransfer {
          ghost var before := View();
          reply := user.LoopTransfer(byteCur, env.reaction);
          assert View() == Transferred(before, byteCur, env.reaction);
        }
      } else if packet.cmd == CMD_SYNC3 {
        timestampCur := packet.timestamp;
        if packet.b2 == 0 {
          if !env.sendOk { return false; }
          user.log := user.log + [Sent(packet)];
        }
      } else if packet.cmd != CMD_JOYPAD && packet.cmd != CMD_SYNC2
                && packet.cmd != CMD_STATUS && packet.cmd != CMD_WANTDISCONNECT {
        return false;
      }

      assert View() == Respond(callbackTransfer, old(View()), env.poll.packet, env.reaction);
      ObserveTimestamp(timestampCur);
      return true;
    }
  }
}
