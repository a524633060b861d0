/** The wrapped, filtered 31-bit clock against unbounded time. */
module ClockRefinement {
  import opened Words
  import opened Bridge
  import opened Session
  import opened Lifecycle

  /** What can happen to the bridge once the clock is set, in any order: a pass of the link, a round
      of the adapter, or the adapter latching timers outside of both. */
  datatype Input = Pass(env: Env) | Around(round: Round) | Latches(timers: seq<nat>)

  function Step(w: World, input: Input): (v: World)
    ensures |v.latches| == |w.latches|
  {
    match input
    case Pass(env) => LoopWorld(TrackClock, true, w, env)
    case Around(round) => HandleWorld(w, round)
    case Latches(timers) => LatchAll(w, timers)
  }

  function Run(w: World, inputs: seq<Input>): (v: World)
    ensures |v.latches| == |w.latches|
  {
    if inputs == [] then w
    else Step(Run(w, inputs[..|inputs| - 1]), inputs[|inputs| - 1])
  }

  /** The pass reads a timestamp. */
  predicate Reads(input: Input) {
    && input.Pass? && input.env.poll.Data?
    && var p := input.env.poll.packet;
       Timed(p) && (p.cmd == CMD_SYNC1 || p.b2 == 0 ==> input.env.sendOk)
  }

  /** The pass transfers a byte, which the adapter handles before the timestamp is looked at. */
  predicate Transfers(input: Input) {
    Reads(input) && input.env.poll.packet.cmd == CMD_SYNC1
  }

  function Stamp(input: Input): uint32
    requires Reads(input)
  {
    input.env.poll.packet.timestamp
  }

  function Jumped(w: World): nat {
    |Select(w.log, IsJump)|
  }

  // ----- The three ways to treat a timestamp -----

  lemma RespondAddsNoJump(w: World, p: Packet, reaction: Reaction)
    ensures Jumped(Respond(true, w, p, reaction)) == Jumped(w)
  {
    var e := Sent(if p.cmd == CMD_SYNC1 then Sync2(w.reply) else p);
    SelectSnoc(w.log, e, IsJump);
    SelectSnoc(w.log + [e], Transfer(p.b2, reaction.output), IsJump);
  }

  /** Between packets the program's clock is the link's, so the two filters, each of which
      compares with its own copy, act as one: a timestamp is a reset, or stale, or accepted. */
  lemma ObserveExactly(w: World, t: uint32)
    requires Synced(w)
    ensures var v := Observe(TrackClock, w, t);
            && Synced(v)
            && v.clock == (if Stale(w.clock, t) then w.clock else t)
            && v.reset == (w.reset || Jumps(w.clock, t))
            && Jumped(v) == Jumped(w) + (if Jumps(w.clock, t) then 1 else 0)
            && v.latches == w.latches
  {
    SelectSnoc(w.log, Jump, IsJump);
  }

  lemma PassExactly(w: World, env: Env)
    requires Synced(w)
    ensures var v := LoopWorld(TrackClock, true, w, env);
            && Synced(v)
            && v.latches == (if Transfers(Pass(env)) then LatchAll(w, env.reaction.latched).latches else w.latches)
            && if Reads(Pass(env))
               then
                 var t := Stamp(Pass(env));
                 && v.clock == (if Stale(w.clock, t) then w.clock else t)
                 && v.reset == (w.reset || Jumps(w.clock, t))
                 && Jumped(v) == Jumped(w) + (if Jumps(w.clock, t) then 1 else 0)
               else v.clock == w.clock && v.reset == w.reset && Jumped(v) == Jumped(w)
  {
    if env.poll.Data? && Accepts(w, env) {
      var p := env.poll.packet;
      RespondAddsNoJump(w, p, env.reaction);
      ObserveExactly(Respond(true, w, p, env.reaction), Carried(w, p));
    }
  }

  /** A round of the adapter leaves the clock alone. */
  lemma RoundExactly(w: World, round: Round)
    ensures var v := HandleWorld(w, round);
            && v.clock == w.clock && v.last == w.last && v.lastInit == w.lastInit && v.clockInit == w.clockInit
            && v.latches == LatchAll(w, round.latched).latches && !v.reset && Jumped(v) == Jumped(w)
  {
    RoundSelects(w, round, IsJump);
  }

  // ----- Unbounded time -----

  /** The clock and timers as they would be with unbounded integers: the latest time seen, and
      the time at which each timer was latched. */
  datatype Ideal = Ideal(now: int, latched: seq<int>)

  function Max(a: int, b: int): int {
    if a < b then b else a
  }

  function IdealLatch(id: Ideal, timers: seq<nat>): Ideal {
    id.(latched := Latch(id.latched, timers, id.now))
  }

  function IdealStep(id: Ideal, input: Input, t: int): (r: Ideal)
    ensures |r.latched| == |id.latched|
  {
    match input
    case Pass(env) =>
      var handled := if Transfers(input) then IdealLatch(id, env.reaction.latched) else id;
      if Reads(input) then handled.(now := Max(id.now, t)) else handled
    case Around(round) => IdealLatch(id, round.latched)
    case Latches(timers) => IdealLatch(id, timers)
  }

  function IdealRun(id: Ideal, inputs: seq<Input>, times: seq<int>): (r: Ideal)
    requires |times| == |inputs|
    ensures |r.latched| == |id.latched|
  {
    if inputs == [] then id
    else
      var n := |inputs| - 1;
      IdealStep(IdealRun(id, inputs[..n], times[..n]), inputs[n], times[n])
  }

  /** The timestamp read stands for time t, and t is close enough to the latest time seen. */
  predicate Steady(now: int, input: Input, t: int) {
    Reads(input) ==> Low31(Stamp(input)) == Low31(t) && now - 0x100 <= t <= now + 0x1000
  }

  predicate SteadyAt(id: Ideal, inputs: seq<Input>, times: seq<int>, k: nat)
    requires |times| == |inputs| && k < |inputs|
  {
    Steady(IdealRun(id, inputs[..k], times[..k]).now, inputs[k], times[k])
  }

  predicate SteadyRun(id: Ideal, inputs: seq<Input>, times: seq<int>)
    requires |times| == |inputs|
  {
    forall k :: 0 <= k < |inputs| ==> SteadyAt(id, inputs, times, k)
  }

  predicate Refines(w: World, id: Ideal) {
    && Synced(w) && Low31(w.clock) == Low31(id.now)
    && |w.latches| == |id.latched|
    && forall k :: 0 <= k < |w.latches| ==> Low31(w.latches[k]) == Low31(id.latched[k])
  }

  /** The state of the program when its clock has just been set and no timer has been latched. */
  lemma InitialRefines(w: World, now: int)
    requires Synced(w) && Low31(w.clock) == Low31(now)
    requires forall k :: 0 <= k < |w.latches| ==> w.latches[k] == 0
    ensures Refines(w, Ideal(now, seq(|w.latches|, _ => now - Low31(now))))
  {
  }

  lemma StepRefines(w: World, id: Ideal, input: Input, t: int)
    requires Refines(w, id) && Steady(id.now, input, t)
    ensures var v := Step(w, input);
            Refines(v, IdealStep(id, input, t)) && Jumped(v) == Jumped(w) && (!w.reset ==> !v.reset)
  {
    match input {
      case Pass(env) =>
        PassExactly(w, env);
        if Reads(input) { ForwardExact(w.clock, Stamp(input), id.now, t); }
      case Around(round) => RoundExactly(w, round);
      case Latches(_) =>
    }
  }

  /** The clock is the running maximum of unbounded time, modulo 2^31, through any number of
      wrap-arounds, and no reset is ever raised. */
  lemma {:induction false} ClockIsRunningMax(w: World, id: Ideal, inputs: seq<Input>, times: seq<int>)
    requires Refines(w, id) && |times| == |inputs| && SteadyRun(id, inputs, times)
    ensures var v := Run(w, inputs);
            Refines(v, IdealRun(id, inputs, times)) && Jumped(v) == Jumped(w) && (!w.reset ==> !v.reset)
  {
    if inputs != [] {
      var n := |inputs| - 1;
      SteadyPrefix(id, inputs, times, n);
      ClockIsRunningMax(w, id, inputs[..n], times[..n]);
      assert SteadyAt(id, inputs, times, n);
      StepRefines(Run(w, inputs[..n]), IdealRun(id, inputs[..n], times[..n]), inputs[n], times[n]);
    }
  }

  lemma SteadyPrefix(id: Ideal, inputs: seq<Input>, times: seq<int>, n: nat)
    requires |times| == |inputs| && n <= |inputs|
    requires SteadyRun(id, inputs, times)
    ensures SteadyRun(id, inputs[..n], times[..n])
  {
    forall k | 0 <= k < n ensures SteadyAt(id, inputs[..n], times[..n], k) {
      assert inputs[..n][..k] == inputs[..k] && times[..n][..k] == times[..k];
      assert SteadyAt(id, inputs, times, k);
    }
  }

  lemma SteadySnoc(id: Ideal, inputs: seq<Input>, front: seq<int>, t: int)
    requires |front| + 1 == |inputs|
    requires SteadyRun(id, inputs[..|front|], front)
    requires Steady(IdealRun(id, inputs[..|front|], front).now, inputs[|front|], t)
    ensures SteadyRun(id, inputs, front + [t])
  {
    var n, times := |front|, front + [t];
    forall k | 0 <= k < |inputs| ensures SteadyAt(id, inputs, times, k) {
      if k < n {
        assert inputs[..n][..k] == inputs[..k] && front[..k] == times[..k];
        assert SteadyAt(id, inputs[..n], front, k);
      } else {
        assert times[..k] == front;
      }
    }
  }

  // ----- Exactly the runs with no reset have such times -----

  /** The time t stands for: a little behind now if it is stale, otherwise ahead of it. */
  function Lift(now: int, clock: uint32, t: uint32): int {
    now + if Stale(clock, t) then Forward(clock, t) - 0x8000_0000 else Forward(clock, t)
  }

  lemma LiftIsSteady(w: World, id: Ideal, input: Input)
    requires Refines(w, id) && Reads(input) && !Jumps(w.clock, Stamp(input))
    ensures Steady(id.now, input, Lift(id.now, w.clock, Stamp(input)))
  {
    ForwardOfTimes(w.clock, Stamp(input), id.now, Stamp(input));
    Low31Advance(id.now, Stamp(input));
  }

  lemma StepCountsUp(w: World, input: Input)
    requires Synced(w)
    ensures Synced(Step(w, input)) && Jumped(Step(w, input)) >= Jumped(w)
    ensures Jumped(Step(w, input)) == Jumped(w) ==> Reads(input) ==> !Jumps(w.clock, Stamp(input))
  {
    if input.Pass? { PassExactly(w, input.env); }
    if input.Around? { RoundExactly(w, input.round); }
  }

  lemma {:induction false} RunCountsUp(w: World, inputs: seq<Input>)
    requires Synced(w)
    ensures Synced(Run(w, inputs)) && Jumped(Run(w, inputs)) >= Jumped(w)
  {
    if inputs != [] {
      var n := |inputs| - 1;
      RunCountsUp(w, inputs[..n]);
      StepCountsUp(Run(w, inputs[..n]), inputs[n]);
    }
  }

  lemma {:induction false} NoJumpHasTimes(w: World, id: Ideal, inputs: seq<Input>) returns (times: seq<int>)
    requires Refines(w, id)
    requires Jumped(Run(w, inputs)) == Jumped(w)
    ensures |times| == |inputs| && SteadyRun(id, inputs, times)
  {
    if inputs == [] {
      times := [];
    } else {
      var n := |inputs| - 1;
      var v := Run(w, inputs[..n]);
      RunCountsUp(w, inputs[..n]);
      StepCountsUp(v, inputs[n]);
      var front := NoJumpHasTimes(w, id, inputs[..n]);
      ClockIsRunningMax(w, id, inputs[..n], front);
      var i := IdealRun(id, inputs[..n], front);
      var t := if Reads(inputs[n]) then Lift(i.now, v.clock, Stamp(inputs[n])) else 0;
      if Reads(inputs[n]) { LiftIsSteady(v, i, inputs[n]); }
      SteadySnoc(id, inputs, front, t);
      times := front + [t];
    }
  }

  /** A run raises no reset if and only if its timestamps are those of some unbounded clock that
      never falls more than 0x100 ticks behind its maximum nor gets more than 0x1000 ahead of it. */
  lemma NoResetIffSteady(w: World, id: Ideal, inputs: seq<Input>)
    requires Refines(w, id)
    ensures Jumped(Run(w, inputs)) == Jumped(w)
            <==> exists times: seq<int> :: |times| == |inputs| && SteadyRun(id, inputs, times)
  {
    if Jumped(Run(w, inputs)) == Jumped(w) {
      var times := NoJumpHasTimes(w, id, inputs);
    }
    if times: seq<int> :| |times| == |inputs| && SteadyRun(id, inputs, times) {
      ClockIsRunningMax(w, id, inputs, times);
    }
  }

  lemma SteadyUnique(now: int, input: Input, s: int, t: int)
    requires Reads(input) && Steady(now, input, s) && Steady(now, input, t)
    ensures s == t
  {
  }

  /** Those times are determined by what was received. */
  lemma {:induction false} SteadyTimesUnique(id: Ideal, inputs: seq<Input>, s: seq<int>, t: seq<int>)
    requires |s| == |t| == |inputs|
    requires SteadyRun(id, inputs, s) && SteadyRun(id, inputs, t)
    ensures forall k :: 0 <= k < |inputs| && Reads(inputs[k]) ==> s[k] == t[k]
    ensures IdealRun(id, inputs, s) == IdealRun(id, inputs, t)
  {
    if inputs != [] {
      var n := |inputs| - 1;
      SteadyPrefix(id, inputs, s, n);
      SteadyPrefix(id, inputs, t, n);
      SteadyTimesUnique(id, inputs[..n], s[..n], t[..n]);
      assert SteadyAt(id, inputs, s, n) && SteadyAt(id, inputs, t, n);
      if Reads(inputs[n]) {
        SteadyUnique(IdealRun(id, inputs[..n], s[..n]).now, inputs[n], s[n], t[n]);
      }
      forall k | 0 <= k < n && Reads(inputs[k]) ensures s[k] == t[k] {
        assert inputs[..n][k] == inputs[k] && s[..n][k] == s[k] && t[..n][k] == t[k];
      }
    }
  }

  // ----- The main loop -----

  /** The turns of the main loop as such a run. */
  function Flatten(turns: seq<Turn>): seq<Input> {
    if turns == [] then []
    else
      var n := |turns| - 1;
      Flatten(turns[..n]) + [Pass(turns[n].env), Around(turns[n].round)]
  }

  /** The state after some turns none of which broke the link. */
  predicate Unbroken(w: World, turns: seq<Turn>)
    decreases |turns|
  {
    turns == [] || (Accepts(w, turns[0].env) && Unbroken(TurnWorld(w, turns[0]), turns[1..]))
  }

  lemma {:induction false} MainLoopSnoc(w: World, turns: seq<Turn>, turn: Turn)
    requires Unbroken(w, turns + [turn])
    ensures Unbroken(w, turns) && MainLoop(w, turns + [turn]) == TurnWorld(MainLoop(w, turns), turn)
    decreases |turns|
  {
    var all := turns + [turn];
    if turns == [] {
      assert all[1..] == [];
    } else {
      assert all[1..] == turns[1..] + [turn];
      MainLoopSnoc(TurnWorld(w, turns[0]), turns[1..], turn);
    }
  }

  /** Everything shown of such runs holds of the main loop. */
  lemma {:induction false} MainLoopIsRun(w: World, turns: seq<Turn>)
    requires Unbroken(w, turns)
    ensures Run(w, Flatten(turns)) == MainLoop(w, turns)
    decreases |turns|
  {
    if turns != [] {
      var n := |turns| - 1;
      assert turns == turns[..n] + [turns[n]];
      MainLoopSnoc(w, turns[..n], turns[n]);
      MainLoopIsRun(w, turns[..n]);
      RunTwo(w, Flatten(turns[..n]), Pass(turns[n].env), Around(turns[n].round));
    }
  }

  lemma RunTwo(w: World, inputs: seq<Input>, a: Input, b: Input)
    ensures Run(w, inputs + [a, b]) == Step(Step(Run(w, inputs), a), b)
  {
    var all := inputs + [a, b];
    assert all[..|inputs| + 1] == inputs + [a];
    assert all[..|inputs| + 1][..|inputs|] == inputs;
  }
}
