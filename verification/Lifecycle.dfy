/** What holds of the log of every run of the main program. */
module Lifecycle {
  import opened Words
  import opened Bridge
  import opened Session

  // ----- Projections of a log -----

  function Select(log: seq<Event>, keep: Event -> bool): seq<Event> {
    if log == [] then []
    else
      var n := |log| - 1;
      if keep(log[n]) then Select(log[..n], keep) + [log[n]] else Select(log[..n], keep)
  }

  predicate IsCall(e: Event) { e.Start? || e.Stop? }
  predicate IsStop(e: Event) { e.Stop? }
  predicate IsJump(e: Event) { e.Jump? }
  predicate IsTransfer(e: Event) { e.Transfer? }
  predicate IsReply(e: Event) { e.Sent? && e.packet.cmd == CMD_SYNC2 }
  predicate IsAction(e: Event) { e.GetActions? || e.Process? }

  lemma SelectSnoc(log: seq<Event>, e: Event, keep: Event -> bool)
    ensures Select(log + [e], keep) == if keep(e) then Select(log, keep) + [e] else Select(log, keep)
  {
    assert (log + [e])[..|log|] == log;
  }

  /** The bytes of the replies, in the order they were sent. */
  function Replies(log: seq<Event>): seq<byte> {
    var s := Select(log, IsReply);
    seq(|s|, i requires 0 <= i < |s| => if s[i].Sent? then s[i].packet.b2 else 0)
  }

  /** The bytes the adapter returned, in order. */
  function Outputs(log: seq<Event>): seq<byte> {
    var s := Select(log, IsTransfer);
    seq(|s|, i requires 0 <= i < |s| => if s[i].Transfer? then s[i].output else 0)
  }

  /** A round of the adapter logs nothing but calls and actions. */
  lemma RoundSelects(w: World, round: Round, keep: Event -> bool)
    requires forall e :: IsCall(e) || IsAction(e) ==> !keep(e)
    ensures Select(HandleWorld(w, round).log, keep) == Select(w.log, keep)
  {
    SelectSnoc(w.log, Stop, keep);
    SelectSnoc(w.log + [Stop], Start, keep);
    var r := Restarted(w);
    SelectSnoc(r.log, GetActions(round.first), keep);
    var f := if r.action == {} then Fetched(r, round.first) else r;
    SelectSnoc(f.log, Process(f.action), keep);
    SelectSnoc(f.log + [Process(f.action)], GetActions(round.second), keep);
  }

  // ----- Start and Stop -----

  predicate Alternates(calls: seq<Event>) {
    forall i :: 0 <= i < |calls| ==> calls[i] == if i % 2 == 0 then Start else Stop
  }

  /** The adapter is restarted exactly after the jumps, and at once. */
  predicate RestartsMatchJumps(log: seq<Event>) {
    forall i :: 0 <= i < |log| ==> RestartAt(log, i)
  }

  predicate RestartAt(log: seq<Event>, i: nat)
    requires i < |log|
  {
    && (log[i] == Jump ==> i + 2 < |log| && log[i + 1] == Stop && log[i + 2] == Start)
    && (log[i] == Stop ==> 0 < i && log[i - 1] == Jump)
  }

  /** The log while the adapter is up and no jump is waiting to be served. */
  predicate Up(log: seq<Event>) {
    && Alternates(Select(log, IsCall)) && |Select(log, IsCall)| % 2 == 1
    && RestartsMatchJumps(log)
    && |Select(log, IsJump)| == |Select(log, IsStop)|
  }

  /** Before log[s] there are only packets sent and at most one byte transferred. */
  predicate FirstStart(log: seq<Event>, s: nat) {
    && s < |log| && log[s] == Start
    && (forall i :: 0 <= i < s ==> log[i].Sent? || log[i].Transfer?)
    && |Select(log[..s], IsTransfer)| <= 1
  }

  lemma RestartsExtend(log: seq<Event>, more: seq<Event>)
    requires RestartsMatchJumps(log)
    requires forall i :: |log| <= i < |log + more| ==> RestartAt(log + more, i)
    ensures RestartsMatchJumps(log + more)
  {
    forall i | 0 <= i < |log| ensures RestartAt(log + more, i) {
      assert RestartAt(log, i);
    }
  }

  lemma UpSnoc(log: seq<Event>, e: Event)
    requires Up(log) && !IsCall(e) && e != Jump
    ensures Up(log + [e])
  {
    SelectSnoc(log, e, IsCall);
    SelectSnoc(log, e, IsJump);
    SelectSnoc(log, e, IsStop);
    RestartsExtend(log, [e]);
  }

  lemma RestartCounts(log: seq<Event>, keep: Event -> bool)
    ensures var s := if keep(Jump) then Select(log, keep) + [Jump] else Select(log, keep);
            var t := if keep(Stop) then s + [Stop] else s;
            Select(log + [Jump] + [Stop] + [Start], keep) == if keep(Start) then t + [Start] else t
  {
    SelectSnoc(log, Jump, keep);
    SelectSnoc(log + [Jump], Stop, keep);
    SelectSnoc(log + [Jump] + [Stop], Start, keep);
  }

  lemma AlternatesOn(calls: seq<Event>)
    requires Alternates(calls) && |calls| % 2 == 1
    ensures Alternates(calls + [Stop] + [Start]) && |calls + [Stop] + [Start]| % 2 == 1
  {
  }

  lemma UpRestart(log: seq<Event>)
    requires Up(log)
    ensures Up(log + [Jump] + [Stop] + [Start])
  {
    RestartsExtend(log, [Jump, Stop, Start]);
    assert log + [Jump] + [Stop] + [Start] == log + [Jump, Stop, Start];
    RestartCounts(log, IsCall);
    AlternatesOn(Select(log, IsCall));
    RestartCounts(log, IsJump);
    RestartCounts(log, IsStop);
  }

  /** After the link's half of a turn: if a jump was seen it is the last thing that happened. */
  predicate UpOrJumped(w: World) {
    if w.reset then w.log != [] && w.log[|w.log| - 1] == Jump && Up(w.log[..|w.log| - 1])
    else Up(w.log)
  }

  predicate Synced(w: World) {
    w.lastInit && w.clockInit && w.clock == w.last
  }

  lemma RespondKeepsUp(w: World, p: Packet, reaction: Reaction)
    requires Up(w.log)
    ensures Up(Respond(true, w, p, reaction).log)
  {
    if p.cmd == CMD_SYNC1 {
      var e := Sent(Sync2(w.reply));
      UpSnoc(w.log, e);
      UpSnoc(w.log + [e], Transfer(p.b2, reaction.output));
    } else {
      UpSnoc(w.log, Sent(p));
    }
  }

  lemma ObserveKeepsUp(w: World, t: uint32)
    requires Synced(w) && !w.reset && Up(w.log)
    ensures UpOrJumped(Observe(TrackClock, w, t))
  {
    assert (w.log + [Jump])[..|w.log|] == w.log;
  }

  lemma LoopKeepsUp(w: World, env: Env)
    requires Synced(w) && !w.reset && Up(w.log)
    ensures UpOrJumped(LoopWorld(TrackClock, true, w, env))
  {
    if env.poll.Data? && Accepts(w, env) {
      var v := Respond(true, w, env.poll.packet, env.reaction);
      RespondKeepsUp(w, env.poll.packet, env.reaction);
      ObserveKeepsUp(v, Carried(w, env.poll.packet));
    }
  }

  lemma RestartedIsUp(w: World)
    requires UpOrJumped(w)
    ensures Up(Restarted(w).log) && !Restarted(w).reset
  {
    if w.reset {
      var log := w.log[..|w.log| - 1];
      assert w.log == log + [Jump];
      UpRestart(log);
    }
  }

  lemma ProcessedIsUp(w: World, second: Actions)
    requires Up(w.log)
    ensures Up(Processed(w, second).log)
  {
    var e := Process(w.action);
    UpSnoc(w.log, e);
    UpSnoc(w.log + [e], GetActions(second));
  }

  lemma HandleKeepsUp(w: World, round: Round)
    requires UpOrJumped(w)
    ensures Up(HandleWorld(w, round).log)
  {
    RestartedIsUp(w);
    var r := Restarted(w);
    UpSnoc(r.log, GetActions(round.first));
    ProcessedIsUp(if r.action == {} then Fetched(r, round.first) else r, round.second);
  }

  lemma LoopKeepsSync(w: World, env: Env)
    requires Synced(w)
    ensures var v := LoopWorld(TrackClock, true, w, env); Synced(v) && w.log <= v.log && v.action == w.action
  {
  }

  lemma TurnKeepsSync(w: World, turn: Turn)
    requires Synced(w)
    ensures var v := TurnWorld(w, turn); Synced(v) && !v.reset && w.log <= v.log
  {
    LoopKeepsSync(w, turn.env);
  }

  lemma TurnKeepsUp(w: World, turn: Turn)
    requires Synced(w) && !w.reset && Up(w.log)
    ensures Up(TurnWorld(w, turn).log)
  {
    LoopKeepsUp(w, turn.env);
    HandleKeepsUp(LoopWorld(TrackClock, true, w, turn.env), turn.round);
  }

  lemma {:induction false} MainLoopKeepsUp(w: World, turns: seq<Turn>)
    requires Synced(w) && !w.reset && Up(w.log)
    ensures Up(MainLoop(w, turns).log)
    decreases |turns|
  {
    if turns != [] && Accepts(w, turns[0].env) {
      TurnKeepsSync(w, turns[0]);
      TurnKeepsUp(w, turns[0]);
      MainLoopKeepsUp(TurnWorld(w, turns[0]), turns[1..]);
    }
  }

  lemma {:induction false} MainLoopExtends(w: World, turns: seq<Turn>)
    requires Synced(w) && !w.reset
    ensures var v := MainLoop(w, turns); Synced(v) && !v.reset && w.log <= v.log
    decreases |turns|
  {
    if turns != [] && Accepts(w, turns[0].env) {
      TurnKeepsSync(w, turns[0]);
      MainLoopExtends(TurnWorld(w, turns[0]), turns[1..]);
    }
  }

  // ----- Before the adapter is started -----

  /** The state right after the handshake. */
  predicate Fresh(w: World) {
    && !w.lastInit && w.last == 0 && !w.clockInit && !w.reset && w.action == {}
    && forall i :: 0 <= i < |w.log| ==> w.log[i].Sent? && w.log[i].packet.cmd != CMD_SYNC2
  }

  /** Waiting changes nothing until the packet that ends it. */
  lemma {:induction false} AwaitIsOnePacket(w: World, envs: seq<Env>)
    requires Fresh(w)
    ensures var (exit, v) := Await(w, envs);
            if exit.Finished?
            then exists k :: 0 <= k < |envs| && envs[k].poll.Data? && Accepts(w, envs[k])
                             && v == LoopWorld(InitClock, true, w, envs[k])
            else v == w
    decreases |envs|
  {
    if envs != [] && Accepts(w, envs[0]) {
      var v := LoopWorld(InitClock, true, w, envs[0]);
      if envs[0].poll.Data? {
        assert v.clockInit;
      } else {
        assert v == w;
        AwaitIsOnePacket(w, envs[1..]);
        var (exit, u) := Await(w, envs[1..]);
        if exit.Finished? {
          var k :| 0 <= k < |envs[1..]| && envs[1..][k].poll.Data? && Accepts(w, envs[1..][k])
                   && u == LoopWorld(InitClock, true, w, envs[1..][k]);
          assert envs[k + 1] == envs[1..][k];
        }
      }
    }
  }

  lemma {:induction false} SentOnly(log: seq<Event>, keep: Event -> bool)
    requires forall i :: 0 <= i < |log| ==> !keep(log[i])
    ensures Select(log, keep) == []
  {
    if log != [] { SentOnly(log[..|log| - 1], keep); }
  }

  lemma StartIsUp(log: seq<Event>)
    requires forall i :: 0 <= i < |log| ==> log[i].Sent? || log[i].Transfer?
    ensures Up(log + [Start])
  {
    SentOnly(log, IsCall);
    SentOnly(log, IsJump);
    SentOnly(log, IsStop);
    SelectSnoc(log, Start, IsCall);
    SelectSnoc(log, Start, IsJump);
    SelectSnoc(log, Start, IsStop);
  }

  lemma BootLog(w: World, p: Packet, reaction: Reaction)
    requires Fresh(w)
    ensures var log := Respond(true, w, p, reaction).log;
            && (forall i :: 0 <= i < |log| ==> log[i].Sent? || log[i].Transfer?)
            && |Select(log, IsTransfer)| <= 1
  {
    SentOnly(w.log, IsTransfer);
    var e := Sent(if p.cmd == CMD_SYNC1 then Sync2(w.reply) else p);
    SelectSnoc(w.log, e, IsTransfer);
    SelectSnoc(w.log + [e], Transfer(p.b2, reaction.output), IsTransfer);
  }

  lemma BootState(w: World, env: Env)
    requires Fresh(w) && env.poll.Data? && Accepts(w, env)
    ensures var v := LoopWorld(InitClock, true, w, env);
            Synced(v) && !v.reset && v.log == Respond(true, w, env.poll.packet, env.reaction).log
  {
  }

  // ----- The lifecycle of the adapter -----

  /** A run either never touches the adapter, or starts it after at most one transferred byte and
      stops it last of all. In between it is restarted once for each jump, immediately, and for
      no other reason. */
  ghost predicate Lived(log: seq<Event>) {
    && log != [] && log[|log| - 1] == Stop
    && Alternates(Select(log, IsCall)) && |Select(log, IsCall)| % 2 == 0
    && RestartsMatchJumps(log[..|log| - 1])
    && |Select(log, IsStop)| == |Select(log, IsJump)| + 1
    && exists s :: FirstStart(log, s)
  }

  lemma FirstStartExtends(log: seq<Event>, s: nat, more: seq<Event>)
    requires FirstStart(log, s)
    ensures FirstStart(log + more, s)
  {
    assert (log + more)[..s] == log[..s];
  }

  lemma StopEnds(log: seq<Event>, s: nat)
    requires Up(log) && FirstStart(log, s)
    ensures Lived(log + [Stop])
  {
    SelectSnoc(log, Stop, IsCall);
    SelectSnoc(log, Stop, IsJump);
    SelectSnoc(log, Stop, IsStop);
    FirstStartExtends(log, s, [Stop]);
    assert (log + [Stop])[..|log|] == log;
  }

  lemma StartedLives(b: World, started: seq<nat>, turns: seq<Turn>)
    requires Synced(b) && !b.reset && |Select(b.log, IsTransfer)| <= 1
    requires forall i :: 0 <= i < |b.log| ==> b.log[i].Sent? || b.log[i].Transfer?
    ensures var v := MainLoop(Started(b, started), turns); Synced(v) && !v.reset && Lived(v.log + [Stop])
  {
    var up := Started(b, started);
    StartIsUp(b.log);
    MainLoopKeepsUp(up, turns);
    MainLoopExtends(up, turns);
    var log := MainLoop(up, turns).log;
    assert log[..|b.log|] == b.log && log[|b.log|] == Start;
    StopEnds(log, |b.log|);
  }

  lemma AdapterLifecycle(w: World, envs: seq<Env>, started: seq<nat>, turns: seq<Turn>)
    requires Fresh(w)
    ensures var (exit, v) := Whole(w, envs, started, turns);
            if exit.Finished? then Lived(v.log) && Synced(v) && !v.reset else v == w
  {
    AwaitIsOnePacket(w, envs);
    var (exit, b) := Await(w, envs);
    if exit.Finished? {
      var k :| 0 <= k < |envs| && envs[k].poll.Data? && Accepts(w, envs[k])
               && b == LoopWorld(InitClock, true, w, envs[k]);
      BootState(w, envs[k]);
      BootLog(w, envs[k].poll.packet, envs[k].reaction);
      StartedLives(b, started, turns);
    }
  }

  // ----- The serial pipeline -----

  /** Each reply is what the adapter returned for the byte before it, and the first is the
      initial byte; what the adapter returned last is still to be sent. */
  predicate Pipeline(init: byte, w: World) {
    Replies(w.log) + [w.reply] == [init] + Outputs(w.log)
  }

  lemma ProjectionsSnoc(log: seq<Event>, e: Event)
    ensures Replies(log + [e]) == if IsReply(e) then Replies(log) + [e.packet.b2] else Replies(log)
    ensures Outputs(log + [e]) == if IsTransfer(e) then Outputs(log) + [e.output] else Outputs(log)
  {
    SelectSnoc(log, e, IsReply);
    SelectSnoc(log, e, IsTransfer);
  }

  lemma RespondKeepsPipeline(init: byte, w: World, p: Packet, reaction: Reaction)
    requires Pipeline(init, w)
    ensures Pipeline(init, Respond(true, w, p, reaction))
  {
    var e := Sent(if p.cmd == CMD_SYNC1 then Sync2(w.reply) else p);
    ProjectionsSnoc(w.log, e);
    ProjectionsSnoc(w.log + [e], Transfer(p.b2, reaction.output));
  }

  lemma ObserveKeepsPipeline(init: byte, cb: TimestampCallback, w: World, t: uint32)
    requires Pipeline(init, w)
    ensures Pipeline(init, Observe(cb, w, t))
  {
    ProjectionsSnoc(w.log, Jump);
  }

  lemma LoopKeepsPipeline(init: byte, cb: TimestampCallback, w: World, env: Env)
    requires Pipeline(init, w)
    ensures Pipeline(init, LoopWorld(cb, true, w, env))
  {
    if env.poll.Data? && Accepts(w, env) {
      RespondKeepsPipeline(init, w, env.poll.packet, env.reaction);
      ObserveKeepsPipeline(init, cb, Respond(true, w, env.poll.packet, env.reaction), Carried(w, env.poll.packet));
    }
  }

  lemma TurnKeepsPipeline(init: byte, w: World, turn: Turn)
    requires Pipeline(init, w)
    ensures Pipeline(init, TurnWorld(w, turn))
  {
    var v := LoopWorld(TrackClock, true, w, turn.env);
    LoopKeepsPipeline(init, TrackClock, w, turn.env);
    RoundSelects(v, turn.round, IsReply);
    RoundSelects(v, turn.round, IsTransfer);
  }

  lemma {:induction false} MainLoopKeepsPipeline(init: byte, w: World, turns: seq<Turn>)
    requires Pipeline(init, w)
    ensures Pipeline(init, MainLoop(w, turns))
    decreases |turns|
  {
    if turns != [] && Accepts(w, turns[0].env) {
      TurnKeepsPipeline(init, w, turns[0]);
      MainLoopKeepsPipeline(init, TurnWorld(w, turns[0]), turns[1..]);
    }
  }

  lemma {:induction false} AwaitKeepsPipeline(init: byte, w: World, envs: seq<Env>)
    requires Pipeline(init, w)
    ensures Pipeline(init, Await(w, envs).1)
    decreases |envs|
  {
    if !w.clockInit && envs != [] && Accepts(w, envs[0]) {
      LoopKeepsPipeline(init, InitClock, w, envs[0]);
      AwaitKeepsPipeline(init, LoopWorld(InitClock, true, w, envs[0]), envs[1..]);
    }
  }

  lemma LoggedKeepsPipeline(init: byte, w: World, e: Event)
    requires Pipeline(init, w) && IsCall(e)
    ensures Pipeline(init, Logged(w, e))
  {
    ProjectionsSnoc(w.log, e);
  }

  lemma SerialPipeline(w: World, envs: seq<Env>, started: seq<nat>, turns: seq<Turn>)
    requires Fresh(w)
    ensures Pipeline(w.reply, Whole(w, envs, started, turns).1)
  {
    SentOnly(w.log, IsReply);
    SentOnly(w.log, IsTransfer);
    AwaitKeepsPipeline(w.reply, w, envs);
    var b := Await(w, envs).1;
    LoggedKeepsPipeline(w.reply, b, Start);
    MainLoopKeepsPipeline(w.reply, Started(b, started), turns);
    LoggedKeepsPipeline(w.reply, MainLoop(Started(b, started), turns), Stop);
  }

  // ----- Actions -----

  /** Every batch of actions processed is the filtered answer to the question just before it,
      and is not empty; a question that got such an answer is followed by its processing, and any
      other by the next question. */
  predicate Served(acts: seq<Event>) {
    forall i :: 0 <= i < |acts| ==> ServedAfter(acts[i], acts[..i])
  }

  predicate ServedAfter(e: Event, before: seq<Event>) {
    match e
    case Process(a) => a == Pending(before) && a != {} && ResetSerial !in a
    case GetActions(_) => Pending(before) == {}
    case _ => false
  }

  /** The actions fetched and not yet processed. */
  function Pending(acts: seq<Event>): Actions {
    if acts != [] && acts[|acts| - 1].GetActions? then acts[|acts| - 1].raw - {ResetSerial} else {}
  }

  lemma ServedSnoc(acts: seq<Event>, e: Event)
    requires Served(acts) && ServedAfter(e, acts)
    ensures Served(acts + [e])
  {
    var s := acts + [e];
    forall i | 0 <= i < |s| ensures ServedAfter(s[i], s[..i]) {
      if i < |acts| { assert s[..i] == acts[..i]; } else { assert s[..i] == acts; }
    }
  }

  /** The actions fetched last are the ones the bridge holds. */
  predicate Waits(w: World) {
    Served(Select(w.log, IsAction)) && w.action == Pending(Select(w.log, IsAction))
  }

  lemma RespondKeepsWaits(w: World, p: Packet, reaction: Reaction)
    requires Waits(w)
    ensures Waits(Respond(true, w, p, reaction))
  {
    var e := Sent(if p.cmd == CMD_SYNC1 then Sync2(w.reply) else p);
    SelectSnoc(w.log, e, IsAction);
    SelectSnoc(w.log + [e], Transfer(p.b2, reaction.output), IsAction);
  }

  lemma ObserveKeepsWaits(cb: TimestampCallback, w: World, t: uint32)
    requires Waits(w)
    ensures Waits(Observe(cb, w, t))
  {
    SelectSnoc(w.log, Jump, IsAction);
  }

  lemma LoopKeepsWaits(cb: TimestampCallback, w: World, env: Env)
    requires Waits(w)
    ensures Waits(LoopWorld(cb, true, w, env))
  {
    if env.poll.Data? && Accepts(w, env) {
      RespondKeepsWaits(w, env.poll.packet, env.reaction);
      ObserveKeepsWaits(cb, Respond(true, w, env.poll.packet, env.reaction), Carried(w, env.poll.packet));
    }
  }

  lemma RestartedKeepsWaits(w: World)
    requires Waits(w)
    ensures Waits(Restarted(w))
  {
    SelectSnoc(w.log, Stop, IsAction);
    SelectSnoc(w.log + [Stop], Start, IsAction);
  }

  lemma FetchedKeepsWaits(w: World, raw: Actions)
    requires Served(Select(w.log, IsAction)) && Pending(Select(w.log, IsAction)) == {}
    ensures Waits(Fetched(w, raw))
  {
    SelectSnoc(w.log, GetActions(raw), IsAction);
    ServedSnoc(Select(w.log, IsAction), GetActions(raw));
  }

  lemma ProcessedKeepsWaits(w: World, raw: Actions)
    requires Waits(w)
    ensures Waits(Processed(w, raw))
  {
    if w.action != {} {
      var e := Process(w.action);
      SelectSnoc(w.log, e, IsAction);
      ServedSnoc(Select(w.log, IsAction), e);
      FetchedKeepsWaits(Logged(w, e), raw);
    }
  }

  lemma TurnKeepsWaits(w: World, turn: Turn)
    requires Waits(w)
    ensures Waits(TurnWorld(w, turn))
  {
    LoopKeepsWaits(TrackClock, w, turn.env);
    var v := LoopWorld(TrackClock, true, w, turn.env);
    RestartedKeepsWaits(v);
    var r := Restarted(v);
    if r.action == {} { FetchedKeepsWaits(r, turn.round.first); }
    ProcessedKeepsWaits(if r.action == {} then Fetched(r, turn.round.first) else r, turn.round.second);
  }

  lemma {:induction false} MainLoopKeepsWaits(w: World, turns: seq<Turn>)
    requires Waits(w)
    ensures Waits(MainLoop(w, turns))
    decreases |turns|
  {
    if turns != [] && Accepts(w, turns[0].env) {
      TurnKeepsWaits(w, turns[0]);
      MainLoopKeepsWaits(TurnWorld(w, turns[0]), turns[1..]);
    }
  }

  lemma {:induction false} AwaitKeepsWaits(w: World, envs: seq<Env>)
    requires Waits(w)
    ensures Waits(Await(w, envs).1)
    decreases |envs|
  {
    if !w.clockInit && envs != [] && Accepts(w, envs[0]) {
      LoopKeepsWaits(InitClock, w, envs[0]);
      AwaitKeepsWaits(LoopWorld(InitClock, true, w, envs[0]), envs[1..]);
    }
  }

  lemma LoggedKeepsWaits(w: World, e: Event)
    requires Waits(w) && IsCall(e)
    ensures Waits(Logged(w, e))
  {
    SelectSnoc(w.log, e, IsAction);
  }

  lemma ActionsServed(w: World, envs: seq<Env>, started: seq<nat>, turns: seq<Turn>)
    requires Fresh(w)
    ensures Waits(Whole(w, envs, started, turns).1)
  {
    SentOnly(w.log, IsAction);
    AwaitKeepsWaits(w, envs);
    var b := Await(w, envs).1;
    LoggedKeepsWaits(b, Start);
    MainLoopKeepsWaits(Started(b, started), turns);
    LoggedKeepsWaits(MainLoop(Started(b, started), turns), Stop);
  }
}
