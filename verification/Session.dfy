/** The main program from the handshake to the end: waiting for the clock, then alternating
    between the link and the adapter until the user interrupts or the link breaks. */
module Session {
  import opened Words
  import opened Bridge
  import opened MobileGlue
  import opened BgbLink

  /** The outside world during one turn of the main loop. */
  datatype Turn = Turn(env: Env, round: Round)

  /** How far a run got: still waiting for a first packet, given up before the adapter was
      started, or over. */
  datatype Exit = Waiting | Failed | Finished

  /** Before the adapter is started the link runs until its first packet sets the clock. */
  function Await(w: World, envs: seq<Env>): (Exit, World)
    decreases |envs|
  {
    if w.clockInit then (Finished, w)
    else if envs == [] then (Waiting, w)
    else if !Accepts(w, envs[0]) then (Failed, w)
    else Await(LoopWorld(InitClock, true, w, envs[0]), envs[1..])
  }

  /** The main loop: the interrupt comes when the turns are used up. */
  function MainLoop(w: World, turns: seq<Turn>): World
    decreases |turns|
  {
    if turns == [] || !Accepts(w, turns[0].env) then w
    else MainLoop(TurnWorld(w, turns[0]), turns[1..])
  }

  function TurnWorld(w: World, turn: Turn): World {
    HandleWorld(LoopWorld(TrackClock, true, w, turn.env), turn.round)
  }

  /** started are the timers latched while the adapter is started. */
  function Whole(w: World, envs: seq<Env>, started: seq<nat>, turns: seq<Turn>): (Exit, World) {
    var (exit, v) := Await(w, envs);
    if exit.Finished? then (Finished, Logged(MainLoop(Started(v, started), turns), Stop)) else (exit, v)
  }

  /** The adapter latches only timers that there are. */
  predicate TimersExist(user: MobileUser, envs: seq<Env>, started: seq<nat>, turns: seq<Turn>) {
    && (forall i :: 0 <= i < |envs| ==> user.Timers(envs[i].reaction.latched))
    && user.Timers(started)
    && (forall i :: 0 <= i < |turns| ==>
          user.Timers(turns[i].env.reaction.latched) && user.Timers(turns[i].round.latched))
  }

  /** The main program after a successful handshake. */
  method Run(state: BgbState, envs: seq<Env>, started: seq<nat>, turns: seq<Turn>) returns (exit: Exit)
    requires state.callbackTransfer && state.callbackTimestamp.TrackClock?
    requires TimersExist(state.user, envs, started, turns)
    modifies state, state.user, state.user.bgbClockLatch
    ensures (exit, state.View()) == Whole(old(state.View()), envs, started, turns)
  {
    ghost var start := state.View();
    var user := state.user;
    state.callbackTimestamp := InitClock;
    var i := 0;
    while !user.bgbClockInit
      invariant 0 <= i <= |envs| && user == state.user && state.callbackTimestamp.InitClock?
      invariant Await(state.View(), envs[i..]) == Await(start, envs)
      decreases |envs| - i
    {
      if i == |envs| { return Waiting; }
      var ok := state.Loop(envs[i]);
      if !ok { return Failed; }
      assert envs[i..][1..] == envs[i + 1..];
      i := i + 1;
    }
    state.callbackTimestamp := TrackClock;

    ghost var ready := state.View();
    user.log := user.log + [Start];
    user.LatchTimers(started);
    ghost var up := state.View();
    assert up == Started(ready, started);
    i := 0;
    while i < |turns|
      invariant 0 <= i <= |turns| && user == state.user && state.callbackTimestamp.TrackClock?
      invariant MainLoop(state.View(), turns[i..]) == MainLoop(up, turns)
    {
      var ok := state.Loop(turns[i].env);
      if !ok { break; }
      user.HandleLoop(turns[i].round);
      assert turns[i..][1..] == turns[i + 1..];
      i := i + 1;
    }
    assert MainLoop(up, turns) == state.View();
    user.log := user.log + [Stop];
    exit := Finished;
  }
}
