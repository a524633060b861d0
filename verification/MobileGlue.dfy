/** The state that the callbacks of the main program share. */
module MobileGlue {
  import opened Words
  import opened Bridge

  class MobileUser {
    var action: Actions
    var reset: bool
    var bgbClock: uint32
    var bgbClockInit: bool
    const bgbClockLatch: array<uint32>
    var log: seq<Event>

    constructor (timers: nat)
      ensures fresh(bgbClockLatch) && bgbClockLatch.Length == timers
      ensures action == {} && !reset && bgbClock == 0 && !bgbClockInit && log == []
      ensures forall i :: 0 <= i < timers ==> bgbClockLatch[i] == 0
    {
      action, reset, bgbClock, bgbClockInit, log := {}, false, 0, false, [];
      bgbClockLatch := new uint32[timers](_ => 0);
    }

    /** This object's share of the bridge's state, around the link's share. */
    ghost function View(reply: byte, last: uint32, lastInit: bool): World
      reads this, bgbClockLatch
    {
      World(reply, last, lastInit, bgbClock, bgbClockInit, reset, action, bgbClockLatch[..], log)
    }

    /** The timers that the adapter names exist. */
    predicate Timers(timers: seq<nat>) {
      forall i :: 0 <= i < |timers| ==> timers[i] < bgbClockLatch.Length
    }

    /** The adapter handles a byte, and latches timers while it does. */
    method LoopTransfer(c: byte, reaction: Reaction) returns (r: byte)
      requires Timers(reaction.latched)
      modifies this`log, bgbClockLatch
      ensures r == reaction.output
      ensures forall b, l, i :: View(r, l, i) == Transferred(old(View(b, l, i)), c, reaction)
    {
      log := log + [Transfer(c, reaction.output)];
      LatchTimers(reaction.latched);
      r := reaction.output;
    }

    method LoopTimestamp(t: uint32)
      modifies this`bgbClock, this`reset, this`log
      ensures forall b, l, i :: View(b, l, i) == Tick(TrackClock, old(View(b, l, i)), t)
    {
      var diff := Low31(Sub32(t, bgbClock));
      if diff > 0x1000 {
        log := log + [Jump];
        reset := true;
      }
      bgbClock := t;
    }

    method LoopTimestampInit(t: uint32)
      modifies this`bgbClock, this`bgbClockInit
      ensures forall b, l, i :: View(b, l, i) == Tick(InitClock, old(View(b, l, i)), t)
    {
      bgbClock := t;
      bgbClockInit := true;
    }

    method TimeLatch(timer: nat)
      requires timer < bgbClockLatch.Length
      modifies bgbClockLatch
      ensures forall b, l, i :: View(b, l, i) == LatchAll(old(View(b, l, i)), [timer])
    {
      ghost var latches := bgbClockLatch[..];
      bgbClockLatch[timer] := bgbClock;
      assert bgbClockLatch[..] == Bridge.Latch(latches, [timer], bgbClock);
    }

    method LatchTimers(timers: seq<nat>)
      requires Timers(timers)
      modifies bgbClockLatch
      ensures forall b, l, i :: View(b, l, i) == LatchAll(old(View(b, l, i)), timers)
    {
      var w := View(0, 0, false);
      for k := 0 to |timers|
        invariant View(0, 0, false) == LatchAll(w, timers[..k])
      {
        TimeLatch(timers[k]);
        LatchSnoc(w, timers[..k], timers[k]);
        assert timers[..k + 1] == timers[..k] + [timers[k]];
      }
      assert timers[..|timers|] == timers;
    }

    /** Beyond 2048000 ms the conversion of the tick count to 32 bits is undefined. */
    method TimeCheckMs(timer: nat, ms: nat) returns (expired: bool)
      requires timer < bgbClockLatch.Length && ms < 2048000
      ensures forall b, l, i :: expired == Expired(View(b, l, i), timer, ms)
    {
      var ticks: uint32 := ms * 2097152 / 1000;
      expired := Low31(Sub32(bgbClock, bgbClockLatch[timer])) >= ticks;
    }

    method HandleLoop(round: Round)
      requires Timers(round.latched)
      modifies this`reset, this`action, this`log, bgbClockLatch
      ensures forall b, l, i :: View(b, l, i) == HandleWorld(old(View(b, l, i)), round)
    {
      if reset {
        log := log + [Stop];
        log := log + [Start];
        reset := false;
      }
      if action == {} {
        log := log + [GetActions(round.first)];
        action := round.first - {ResetSerial};
      }
      if action != {} {
        log := log + [Process(action)];
        log := log + [GetActions(round.second)];
        action := round.second - {ResetSerial};
      }
      LatchTimers(round.latched);
    }
  }

  lemma LatchSnoc(w: World, timers: seq<nat>, timer: nat)
    ensures LatchAll(LatchAll(w, timers), [timer]) == LatchAll(w, timers + [timer])
  {
  }
}
