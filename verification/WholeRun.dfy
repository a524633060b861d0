/** The clock and the timers from the first packet to the end of the program. */
module WholeRun {
  import opened Words
  import opened Bridge
  import opened Session
  import opened Lifecycle
  import opened ClockRefinement
  import opened Timers

  /** The state after the handshake: nothing has been received, and no timer has been latched. */
  predicate Pristine(w: World) {
    Fresh(w) && w.clock == 0 && forall k :: 0 <= k < |w.latches| ==> w.latches[k] == 0
  }

  /** The state at the end of the wait: the clock is set. A timer latched during the wait is still
      0, because the byte is handed over before the clock takes its first timestamp. */
  predicate Booted(b: World) {
    Synced(b) && !b.reset && Jumped(b) == 0 && forall k :: 0 <= k < |b.latches| ==> b.latches[k] == 0
  }

  lemma AwaitBoots(w: World, envs: seq<Env>)
    requires Pristine(w)
    ensures var (exit, b) := Await(w, envs); if exit.Finished? then Booted(b) else b == w && Jumped(b) == 0
  {
    AwaitIsOnePacket(w, envs);
    SentOnly(w.log, IsJump);
    var (exit, b) := Await(w, envs);
    if exit.Finished? {
      var k :| 0 <= k < |envs| && envs[k].poll.Data? && Accepts(w, envs[k])
               && b == LoopWorld(InitClock, true, w, envs[k]);
      BootState(w, envs[k]);
      RespondAddsNoJump(w, envs[k].poll.packet, envs[k].reaction);
    }
  }

  // ----- What the main loop serves -----

  /** The turns before the one that breaks the link. */
  function Served(w: World, turns: seq<Turn>): seq<Turn>
    decreases |turns|
  {
    if turns == [] || !Accepts(w, turns[0].env) then []
    else [turns[0]] + Served(TurnWorld(w, turns[0]), turns[1..])
  }

  lemma {:induction false} ServedExactly(w: World, turns: seq<Turn>)
    ensures var served := Served(w, turns);
            && served <= turns && Unbroken(w, served) && MainLoop(w, served) == MainLoop(w, turns)
            && (served != turns ==> !Accepts(MainLoop(w, turns), turns[|served|].env))
    decreases |turns|
  {
    if turns != [] && Accepts(w, turns[0].env) {
      var v := TurnWorld(w, turns[0]);
      ServedExactly(v, turns[1..]);
      assert Served(w, turns)[1..] == Served(v, turns[1..]);
    }
  }

  // ----- Unbounded time for the whole run -----

  /** Unbounded time at the start of the main loop: the first timestamp itself, with the timers that
      have never been latched standing at the last turn-over of the clock. */
  function Beginning(b: World, started: seq<nat>): Ideal {
    IdealLatch(Ideal(b.clock, seq(|b.latches|, _ => b.clock - Low31(b.clock))), started)
  }

  lemma BeginningRefines(b: World, started: seq<nat>)
    requires Booted(b)
    ensures Refines(Started(b, started), Beginning(b, started)) && Jumped(Started(b, started)) == 0
  {
    InitialRefines(b, b.clock);
    SelectSnoc(b.log, Start, IsJump);
  }

  /** Times for every timestamp the main loop reads, none more than 0x100 ticks behind the latest
      before it or more than 0x1000 ahead. */
  predicate Clocked(b: World, started: seq<nat>, turns: seq<Turn>, times: seq<int>) {
    var inputs := Flatten(Served(Started(b, started), turns));
    |times| == |inputs| && SteadyRun(Beginning(b, started), inputs, times)
  }

  function TimeAtEnd(b: World, started: seq<nat>, turns: seq<Turn>, times: seq<int>): Ideal
    requires Clocked(b, started, turns, times)
  {
    IdealRun(Beginning(b, started), Flatten(Served(Started(b, started), turns)), times)
  }

  /** Every timer latched less than one turn of the clock ago says whether its time is up. */
  ghost predicate Truthful(v: World, id: Ideal) {
    && |v.latches| == |id.latched|
    && forall timer, ms: nat | 0 <= timer < |v.latches| && 0 <= id.now - id.latched[timer] < 0x8000_0000 ::
         Expired(v, timer, ms) <==> id.now - id.latched[timer] >= Threshold(ms)
  }

  lemma RefinesIsTruthful(v: World, id: Ideal)
    requires Refines(v, id)
    ensures Truthful(v, id)
  {
    forall timer, ms: nat | 0 <= timer < |v.latches| && 0 <= id.now - id.latched[timer] < 0x8000_0000
      ensures Expired(v, timer, ms) <==> id.now - id.latched[timer] >= Threshold(ms)
    {
      TimerExact(v, id, timer, ms);
    }
  }

  /** The main loop ran from b to v. The adapter lived through it without a restart exactly if the
      timestamps are those of a steady unbounded clock, and then the program's clock and timers are
      that clock's. */
  ghost predicate KeepsTime(b: World, started: seq<nat>, turns: seq<Turn>, v: World) {
    && v == Logged(MainLoop(Started(b, started), turns), Stop)
    && (Select(v.log, IsCall) == [Start, Stop] <==> exists times :: Clocked(b, started, turns, times))
    && forall times | Clocked(b, started, turns, times) ::
         var id := TimeAtEnd(b, started, turns, times);
         Refines(v, id) && Truthful(v, id)
  }

  lemma MainLoopKeepsTime(b: World, started: seq<nat>, turns: seq<Turn>)
    requires Booted(b)
    ensures var v := MainLoop(Started(b, started), turns);
            && (Jumped(v) == 0 <==> exists times :: Clocked(b, started, turns, times))
            && forall times | Clocked(b, started, turns, times) :: Refines(v, TimeAtEnd(b, started, turns, times))
  {
    var up, id := Started(b, started), Beginning(b, started);
    var inputs := Flatten(Served(up, turns));
    BeginningRefines(b, started);
    ServedExactly(up, turns);
    MainLoopIsRun(up, Served(up, turns));
    NoResetIffSteady(up, id, inputs);
    if times: seq<int> :| |times| == |inputs| && SteadyRun(id, inputs, times) {
      assert Clocked(b, started, turns, times);
    }
    forall times | Clocked(b, started, turns, times)
      ensures Refines(MainLoop(up, turns), TimeAtEnd(b, started, turns, times))
    {
      ClockIsRunningMax(up, id, inputs, times);
    }
  }

  // ----- Restarts -----

  lemma {:induction false} StopsAreHalf(log: seq<Event>)
    requires Alternates(Select(log, IsCall))
    ensures |Select(log, IsStop)| == |Select(log, IsCall)| / 2
  {
    if log != [] {
      var n := |log| - 1;
      var front := Select(log[..n], IsCall);
      assert front <= Select(log, IsCall);
      assert Alternates(front);
      StopsAreHalf(log[..n]);
      if IsCall(log[n]) { assert Select(log, IsCall)[|front|] == log[n]; }
    }
  }

  lemma NoRestartIffNoJump(log: seq<Event>)
    requires Lived(log)
    ensures Select(log, IsCall) == [Start, Stop] <==> Select(log, IsJump) == []
  {
    StopsAreHalf(log);
  }

  /** From the handshake to the end: a run that never gets its first packet touches neither the
      adapter nor the clock, and every other run keeps time. */
  lemma WholeRunKeepsTime(w: World, envs: seq<Env>, started: seq<nat>, turns: seq<Turn>)
    requires Pristine(w)
    ensures var (exit, v) := Whole(w, envs, started, turns);
            if exit.Finished? then Booted(Await(w, envs).1) && KeepsTime(Await(w, envs).1, started, turns, v)
            else v == w
  {
    AwaitBoots(w, envs);
    AdapterLifecycle(w, envs, started, turns);
    var (exit, v) := Whole(w, envs, started, turns);
    if exit.Finished? {
      var b := Await(w, envs).1;
      var before := MainLoop(Started(b, started), turns);
      MainLoopKeepsTime(b, started, turns);
      SelectSnoc(before.log, Stop, IsJump);
      NoRestartIffNoJump(v.log);
      forall times | Clocked(b, started, turns, times)
        ensures Refines(v, TimeAtEnd(b, started, turns, times)) && Truthful(v, TimeAtEnd(b, started, turns, times))
      {
        RefinesIsTruthful(v, TimeAtEnd(b, started, turns, times));
      }
    }
  }
}
