/** What every run of the program does, told from what it is given alone: how far it gets, what it
    says on the link and hands to the adapter, and which actions it has the adapter process. Commands
    are given by their numbers on the wire. */
module Protocol {
  import opened Words
  import opened Bridge
  import opened Session
  import opened Lifecycle
  import opened ClockRefinement
  import opened WholeRun

  // ----- How far a run gets -----

  /** The session survives silence and any packet with a known command, as long as what has to be
      answered can be. */
  predicate Alive(env: Env) {
    match env.poll
    case NoData => true
    case Broken => false
    case Data(p) => p.cmd in {101, 104, 105, 106, 108, 109} && (Calls(p) ==> env.sendOk)
  }

  /** The packets that call for an answer: a byte, or a clock packet that asks for an echo. */
  predicate Calls(p: Packet) {
    p.cmd == 104 || (p.cmd == 106 && p.b2 == 0)
  }

  lemma AliveIff(w: World, env: Env)
    ensures Accepts(w, env) <==> Alive(env)
  {
  }

  /** How many polls at the front find nothing. */
  function Silence(envs: seq<Env>): (k: nat)
    ensures k <= |envs| && (k < |envs| ==> !envs[k].poll.NoData?)
    ensures forall i :: 0 <= i < k ==> envs[i].poll.NoData?
  {
    if envs == [] || !envs[0].poll.NoData? then 0 else 1 + Silence(envs[1..])
  }

  /** How the wait for the clock ends: the first thing that is received decides. */
  function Outcome(envs: seq<Env>): Exit {
    var k := Silence(envs);
    if k == |envs| then Waiting else if Alive(envs[k]) then Finished else Failed
  }

  /** The wait outlasts any number of empty polls, and ends with the first packet. That sets the clock
      to its timestamp, or to zero if it carries none. */
  lemma {:induction false} AwaitExactly(w: World, envs: seq<Env>)
    requires Fresh(w)
    ensures var (exit, v) := Await(w, envs);
            && exit == Outcome(envs)
            && if exit.Finished?
               then
                 var p := envs[Silence(envs)].poll.packet;
                 && v == LoopWorld(InitClock, true, w, envs[Silence(envs)])
                 && v.clock == v.last == (if p.cmd == 104 || p.cmd == 106 then p.timestamp else 0)
               else v == w
    decreases |envs|
  {
    if envs != [] {
      AliveIff(w, envs[0]);
      if envs[0].poll.NoData? { AwaitExactly(w, envs[1..]); }
    }
  }

  /** The turns before the first that ends the session. */
  function Lasting(turns: seq<Turn>): (r: seq<Turn>)
    ensures r <= turns && (forall i :: 0 <= i < |r| ==> Alive(r[i].env))
    ensures r != turns ==> !Alive(turns[|r|].env)
  {
    if turns == [] || !Alive(turns[0].env) then [] else [turns[0]] + Lasting(turns[1..])
  }

  /** The main loop serves exactly those, so all of them if none ends the session. */
  lemma {:induction false} ServedIsLasting(w: World, turns: seq<Turn>)
    ensures WholeRun.Served(w, turns) == Lasting(turns)
    ensures (forall i :: 0 <= i < |turns| ==> Alive(turns[i].env)) ==> WholeRun.Served(w, turns) == turns
    decreases |turns|
  {
    if turns != [] {
      AliveIff(w, turns[0].env);
      if Alive(turns[0].env) { ServedIsLasting(TurnWorld(w, turns[0]), turns[1..]); }
    }
  }

  // ----- What is said -----

  /** What is sent and handed to the adapter for one poll, with reply the byte held for the emulator. */
  function Said(reply: byte, env: Env): seq<Event> {
    match env.poll
    case Data(p) =>
      if p.cmd == 104 then [Sent(Packet(105, reply, 0x80, 0, 0)), Transfer(p.b2, env.reaction.output)]
      else if Calls(p) then [Sent(p)]
      else []
    case _ => []
  }

  function NextReply(reply: byte, env: Env): byte {
    if env.poll.Data? && env.poll.packet.cmd == 104 then env.reaction.output else reply
  }

  // ----- What is processed -----

  /** What is there to be processed in a round: what is held, or else the relevant part of what the
      adapter says when it is asked. */
  function Due(held: Actions, round: Round): Actions {
    if held != {} then held else round.first - {ResetSerial}
  }

  /** What is held after it. */
  function Kept(held: Actions, round: Round): Actions {
    if Due(held, round) != {} then round.second - {ResetSerial} else {}
  }

  /** The questions asked in a round and the batch processed in it. */
  function Dealt(held: Actions, round: Round): seq<Event> {
    Asked(held, round) + Answered(held, round)
  }

  function Asked(held: Actions, round: Round): seq<Event> {
    if held == {} then [GetActions(round.first)] else []
  }

  function Answered(held: Actions, round: Round): seq<Event> {
    if Due(held, round) != {} then [Process(Due(held, round)), GetActions(round.second)] else []
  }

  // ----- The whole story -----

  predicate Stamped(env: Env) {
    env.poll.Data? && (env.poll.packet.cmd == 104 || env.poll.packet.cmd == 106)
  }

  /** How far ahead of the clock the packet's timestamp is, modulo 2^31. */
  function Ahead(clock: uint32, env: Env): nat
    requires Stamped(env)
  {
    Forward(clock, env.poll.packet.timestamp)
  }

  function NextClock(clock: uint32, env: Env): uint32 {
    if Stamped(env) && Ahead(clock, env) < 0x7FFF_FF00 then env.poll.packet.timestamp else clock
  }

  function Alarm(clock: uint32, env: Env): seq<Event> {
    if Stamped(env) && 0x1000 < Ahead(clock, env) < 0x7FFF_FF00 then [Jump, Stop, Start] else []
  }

  /** One turn: the packet is answered and the byte handed over, the adapter is restarted if the clock
      has jumped, and then the actions are seen to. */
  function Told(clock: uint32, reply: byte, held: Actions, turn: Turn): seq<Event> {
    Said(reply, turn.env) + (Alarm(clock, turn.env) + Dealt(held, turn.round))
  }

  function Story(clock: uint32, reply: byte, held: Actions, turns: seq<Turn>): seq<Event>
    decreases |turns|
  {
    if turns == [] then []
    else
      Told(clock, reply, held, turns[0])
      + Story(NextClock(clock, turns[0].env), NextReply(reply, turns[0].env), Kept(held, turns[0].round), turns[1..])
  }

  lemma Nest(a: seq<Event>, b: seq<Event>, c: seq<Event>)
    ensures (a + b) + c == a + (b + c)
  {
  }

  lemma RespondTells(w: World, env: Env)
    requires env.poll.Data?
    ensures Respond(true, w, env.poll.packet, env.reaction).log == w.log + Said(w.reply, env)
  {
  }

  lemma PassTells(w: World, env: Env)
    requires Synced(w) && !w.reset && Alive(env)
    ensures var v, alarm := LoopWorld(TrackClock, true, w, env), Alarm(w.clock, env);
            && v.log == (w.log + Said(w.reply, env)) + (if alarm != [] then [Jump] else [])
            && (v.reset <==> alarm != [])
            && v.clock == NextClock(w.clock, env) && v.reply == NextReply(w.reply, env) && v.action == w.action
  {
    AliveIff(w, env);
    if env.poll.Data? { RespondTells(w, env); }
  }

  /** A link without callbacks answers just the same, always with the byte it began with, and keeps no
      time. */
  lemma PassWithoutCallbacks(w: World, env: Env)
    requires Alive(env)
    ensures LoopWorld(NoTimestamp, false, w, env)
            == w.(log := w.log + if Said(w.reply, env) == [] then [] else [Said(w.reply, env)[0]])
  {
    AliveIff(w, env);
  }

  lemma ProcessTells(w: World, raw: Actions)
    ensures Processed(w, raw).log == w.log + if w.action != {} then [Process(w.action), GetActions(raw)] else []
    ensures Processed(w, raw).action == if w.action != {} then raw - {ResetSerial} else {}
  {
  }

  lemma RoundTells(w: World, round: Round)
    ensures var v := HandleWorld(w, round);
            && v.log == (w.log + (if w.reset then [Stop, Start] else [])) + Dealt(w.action, round)
            && v.clock == w.clock && v.reply == w.reply && v.action == Kept(w.action, round) && !v.reset
  {
    var r := Restarted(w);
    var f := if r.action == {} then Fetched(r, round.first) else r;
    assert r.log == w.log + if w.reset then [Stop, Start] else [];
    assert f.log == r.log + Asked(w.action, round) && f.action == Due(w.action, round);
    ProcessTells(f, round.second);
    Nest(r.log, Asked(w.action, round), Answered(w.action, round));
  }

  lemma Interleaves(log: seq<Event>, said: seq<Event>, jump: seq<Event>, restart: seq<Event>, rest: seq<Event>)
    ensures (((log + said) + jump) + restart) + rest == log + (said + ((jump + restart) + rest))
  {
  }

  lemma TurnTells(w: World, turn: Turn)
    requires Synced(w) && !w.reset && Alive(turn.env)
    ensures var v := TurnWorld(w, turn);
            && Synced(v) && !v.reset
            && v.log == w.log + Told(w.clock, w.reply, w.action, turn)
            && v.clock == NextClock(w.clock, turn.env) && v.reply == NextReply(w.reply, turn.env)
            && v.action == Kept(w.action, turn.round)
  {
    var u, alarm := LoopWorld(TrackClock, true, w, turn.env), Alarm(w.clock, turn.env);
    var jump := if alarm != [] then [Jump] else [];
    var restart := if alarm != [] then [Stop, Start] else [];
    PassTells(w, turn.env);
    RoundTells(u, turn.round);
    TurnKeepsSync(w, turn);
    Interleaves(w.log, Said(w.reply, turn.env), jump, restart, Dealt(w.action, turn.round));
    assert jump + restart == alarm;
  }

  lemma {:induction false} MainLoopTells(w: World, turns: seq<Turn>)
    requires Synced(w) && !w.reset
    ensures MainLoop(w, turns).log == w.log + Story(w.clock, w.reply, w.action, Lasting(turns))
    decreases |turns|
  {
    if turns != [] { AliveIff(w, turns[0].env); }
    if turns != [] && Alive(turns[0].env) {
      var v := TurnWorld(w, turns[0]);
      TurnTells(w, turns[0]);
      MainLoopTells(v, turns[1..]);
      assert Lasting(turns)[1..] == Lasting(turns[1..]);
      Nest(w.log, Told(w.clock, w.reply, w.action, turns[0]),
           Story(v.clock, v.reply, v.action, Lasting(turns[1..])));
    }
  }

  /** The first timestamp, or zero if the first packet has none. */
  function FirstClock(env: Env): uint32 {
    if Stamped(env) then env.poll.packet.timestamp else 0
  }

  /** Everything that happens after the handshake, in order, if the wait ends well. */
  function Life(reply: byte, envs: seq<Env>, turns: seq<Turn>): seq<Event>
    requires Outcome(envs).Finished?
  {
    var first := envs[Silence(envs)];
    Said(reply, first) + ([Start] + (Story(FirstClock(first), NextReply(reply, first), {}, Lasting(turns)) + [Stop]))
  }

  lemma Assembles(log: seq<Event>, said: seq<Event>, story: seq<Event>)
    ensures (((log + said) + [Start]) + story) + [Stop] == log + (said + ([Start] + (story + [Stop])))
  {
  }

  lemma FirstTells(w: World, env: Env)
    requires Fresh(w) && Alive(env) && env.poll.Data?
    ensures var v := LoopWorld(InitClock, true, w, env);
            && Synced(v) && !v.reset && v.log == w.log + Said(w.reply, env)
            && v.clock == FirstClock(env) && v.reply == NextReply(w.reply, env) && v.action == {}
  {
    AliveIff(w, env);
    RespondTells(w, env);
  }

  /** A whole run, event by event, from what it is given: nothing else happens, nothing is left out and
      nothing is out of order. */
  lemma WholeStory(w: World, envs: seq<Env>, started: seq<nat>, turns: seq<Turn>)
    requires Fresh(w)
    ensures var (exit, v) := Whole(w, envs, started, turns);
            && exit == Outcome(envs)
            && if exit.Finished? then v.log == w.log + Life(w.reply, envs, turns) else v == w
  {
    AwaitExactly(w, envs);
    if Outcome(envs).Finished? {
      var first := envs[Silence(envs)];
      var b := Await(w, envs).1;
      FirstTells(w, first);
      MainLoopTells(Started(b, started), turns);
      Assembles(w.log, Said(w.reply, first), Story(b.clock, b.reply, {}, Lasting(turns)));
    }
  }

  // ----- No batch waits -----

  predicate IsProcess(e: Event) { e.Process? }

  lemma SnocOf(a: seq<Event>, b: seq<Event>)
    requires b != []
    ensures a + b == (a + b[..|b| - 1]) + [b[|b| - 1]]
  {
  }

  lemma {:induction false} SelectConcat(a: seq<Event>, b: seq<Event>, keep: Event -> bool)
    ensures Select(a + b, keep) == Select(a, keep) + Select(b, keep)
  {
    if b == [] {
      assert a + b == a;
    } else {
      var n := |b| - 1;
      SelectConcat(a, b[..n], keep);
      SnocOf(a, b);
      SelectSnoc(a + b[..n], b[n], keep);
    }
  }

  lemma SelectBehind(log: seq<Event>, more: seq<Event>, keep: Event -> bool)
    requires forall i :: 0 <= i < |log| ==> !keep(log[i])
    ensures Select(log + more, keep) == Select(more, keep)
  {
    SelectConcat(log, more, keep);
    SentOnly(log, keep);
  }

  lemma SelectAcross(log: seq<Event>, between: seq<Event>, more: seq<Event>, keep: Event -> bool)
    requires forall i :: 0 <= i < |between| ==> !keep(between[i])
    ensures Select((log + between) + more, keep) == Select(log, keep) + Select(more, keep)
  {
    SelectConcat(log + between, more, keep);
    SelectConcat(log, between, keep);
    SentOnly(between, keep);
  }

  lemma DealtProcesses(held: Actions, round: Round)
    ensures Select(Dealt(held, round), IsProcess) == if Due(held, round) != {} then [Process(Due(held, round))] else []
  {
    SelectConcat(Asked(held, round), Answered(held, round), IsProcess);
    SentOnly(Asked(held, round), IsProcess);
    if Due(held, round) != {} {
      assert Answered(held, round) == [Process(Due(held, round))] + [GetActions(round.second)];
      SelectSnoc([Process(Due(held, round))], GetActions(round.second), IsProcess);
      SelectSnoc([], Process(Due(held, round)), IsProcess);
    }
  }

  /** A round processes what is due, whether the adapter has just been restarted or not: once, and if
      and only if there is something. */
  lemma RoundProcesses(w: World, round: Round)
    ensures var v, due := HandleWorld(w, round), Due(w.action, round);
            Select(v.log, IsProcess) == Select(w.log, IsProcess) + if due != {} then [Process(due)] else []
  {
    RoundTells(w, round);
    SelectAcross(w.log, if w.reset then [Stop, Start] else [], Dealt(w.action, round), IsProcess);
    DealtProcesses(w.action, round);
  }

  lemma LastingPrefix(turns: seq<Turn>, i: nat)
    requires i <= |Lasting(turns)|
    ensures i <= |turns| && Lasting(turns[..i]) == turns[..i]
  {
  }

  lemma PrefixLasts(w: World, turns: seq<Turn>, i: nat)
    requires i <= |Lasting(turns)|
    ensures Unbroken(w, turns[..i])
  {
    LastingPrefix(turns, i);
    ServedIsLasting(w, turns[..i]);
    ServedExactly(w, turns[..i]);
  }

  lemma NextTurn(w: World, turns: seq<Turn>, i: nat)
    requires i < |Lasting(turns)|
    ensures Alive(turns[i].env) && MainLoop(w, turns[..i + 1]) == TurnWorld(MainLoop(w, turns[..i]), turns[i])
  {
    PrefixLasts(w, turns, i + 1);
    assert turns[..i + 1] == turns[..i] + [turns[i]];
    assert Lasting(turns)[i] == turns[i];
    MainLoopSnoc(w, turns[..i], turns[i]);
  }

  lemma ToldProcesses(clock: uint32, reply: byte, held: Actions, turn: Turn)
    ensures Select(Told(clock, reply, held, turn), IsProcess)
            == if Due(held, turn.round) != {} then [Process(Due(held, turn.round))] else []
  {
    SelectBehind(Said(reply, turn.env), Alarm(clock, turn.env) + Dealt(held, turn.round), IsProcess);
    SelectBehind(Alarm(clock, turn.env), Dealt(held, turn.round), IsProcess);
    DealtProcesses(held, turn.round);
  }

  lemma TurnProcesses(w: World, turn: Turn)
    requires Synced(w) && !w.reset && Alive(turn.env)
    ensures var v, due := TurnWorld(w, turn), Due(w.action, turn.round);
            Select(v.log, IsProcess) == Select(w.log, IsProcess) + if due != {} then [Process(due)] else []
  {
    TurnTells(w, turn);
    SelectConcat(w.log, Told(w.clock, w.reply, w.action, turn), IsProcess);
    ToldProcesses(w.clock, w.reply, w.action, turn);
  }

  /** In every turn that the session lasts, the batch that is due is processed in that very turn, and
      nothing else is. */
  lemma EveryTurnProcesses(w: World, turns: seq<Turn>, i: nat)
    requires Synced(w) && !w.reset && i < |Lasting(turns)|
    ensures var before, after := MainLoop(w, turns[..i]), MainLoop(w, turns[..i + 1]);
            var due := Due(before.action, turns[i].round);
            Select(after.log, IsProcess) == Select(before.log, IsProcess) + if due != {} then [Process(due)] else []
  {
    NextTurn(w, turns, i);
    MainLoopExtends(w, turns[..i]);
    TurnProcesses(MainLoop(w, turns[..i]), turns[i]);
  }
}
