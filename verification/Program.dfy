/** The program from the handshake to its exit, and what can be said of every run of it. */
module Program {
  import opened Words
  import opened Bridge
  import opened MobileGlue
  import opened BgbLink
  import opened Session
  import opened Lifecycle
  import opened WholeRun
  import opened Protocol

  predicate InRange(latched: seq<nat>, timers: nat) {
    forall i :: 0 <= i < |latched| ==> latched[i] < timers
  }

  /** The emulator answers the handshake as it should, and every send succeeds. */
  predicate Greets(version: Poll, status: Poll, sends: (bool, bool, bool)) {
    && sends == (true, true, true) && version == Data(Packet(1, 1, 4, 0, 0))
    && status.Data? && status.packet.cmd == 108
  }

  function Greeting(status: Packet): seq<Event> {
    [Sent(Packet(1, 1, 4, 0, 0)), Sent(Packet(108, 7, 0, 0, 0)), Sent(Packet(108, 5, 0, 0, status.timestamp))]
  }

  predicate OnlySent(log: seq<Event>) {
    forall i :: 0 <= i < |log| ==> log[i].Sent?
  }

  /** What holds of a run that got as far as starting the adapter. */
  ghost predicate Sound(started: seq<nat>, turns: seq<Turn>, v: World) {
    && Lived(v.log) && Synced(v) && !v.reset
    && exists b :: Booted(b) && KeepsTime(b, started, turns, v)
  }

  lemma EveryRun(w: World, envs: seq<Env>, started: seq<nat>, turns: seq<Turn>)
    requires Pristine(w)
    ensures var (exit, v) := Whole(w, envs, started, turns);
            && exit == Outcome(envs) && Pipeline(w.reply, v) && Waits(v)
            && if exit.Finished?
               then v.log == w.log + Life(w.reply, envs, turns) && Sound(started, turns, v)
               else v == w
  {
    WholeStory(w, envs, started, turns);
    AdapterLifecycle(w, envs, started, turns);
    SerialPipeline(w, envs, started, turns);
    ActionsServed(w, envs, started, turns);
    WholeRunKeepsTime(w, envs, started, turns);
  }

  /** The connection to the emulator is set up. */
  method SetUp(idleByte: byte, timers: nat, version: Poll, status: Poll, sends: (bool, bool, bool))
    returns (ok: bool, state: BgbState)
    ensures fresh(state) && fresh(state.user) && fresh(state.user.bgbClockLatch)
    ensures state.user.bgbClockLatch.Length == timers
    ensures state.callbackTransfer && state.callbackTimestamp.TrackClock?
    ensures Pristine(state.View()) && state.reply == idleByte
    ensures ok == Greets(version, status, sends)
    ensures OnlySent(state.user.log) && (ok ==> state.user.log == Greeting(status.packet))
  {
    var user := new MobileUser(timers);
    state := new BgbState(user, idleByte, true, TrackClock);
    ok := state.Handshake(version, status, sends);
  }

  /** version and status are the two packets of the handshake and sends the outcomes of its sends;
      envs, started and turns are the outside world afterwards. The adapter latches only timers that
      there are. */
  method RunProgram(idleByte: byte, timers: nat, version: Poll, status: Poll, sends: (bool, bool, bool),
      envs: seq<Env>, started: seq<nat>, turns: seq<Turn>)
    returns (exit: Exit, state: BgbState)
    requires forall i :: 0 <= i < |envs| ==> InRange(envs[i].reaction.latched, timers)
    requires InRange(started, timers)
    requires forall i :: 0 <= i < |turns| ==>
               InRange(turns[i].env.reaction.latched, timers) && InRange(turns[i].round.latched, timers)
    ensures exit == if Greets(version, status, sends) then Outcome(envs) else Failed
    ensures exit.Finished? ==> state.user.log == Greeting(status.packet) + Life(idleByte, envs, turns)
    ensures exit.Finished? ==> Sound(started, turns, state.View())
    ensures Pipeline(idleByte, state.View()) && Waits(state.View())
    ensures !exit.Finished? ==> OnlySent(state.user.log) && state.reply == idleByte && state.user.action == {}
  {
    var ok;
    ok, state := SetUp(idleByte, timers, version, status, sends);
    ghost var w := state.View();
    if !ok {
      EveryRun(w, [], [], []);
      return Failed, state;
    }
    exit := Run(state, envs, started, turns);
    EveryRun(w, envs, started, turns);
  }
}
