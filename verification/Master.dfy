/** The master end of the link, as the test driver plays it. */
module Master {
  import opened Words
  import opened Options
  import opened Bridge
  import opened Lifecycle
  import opened ClockRefinement

  /** The driver's clock: its last reading of the host's clock, and the time skipped on top. */
  datatype Time = Time(time: int, offset: int)

  function Reading(m: Time): (r: uint32)
    ensures r < 0x8000_0000
  {
    Low31(m.time + m.offset)
  }

  /** A call of the driver; now is what the host's clock says when it is made. */
  datatype Call =
    | Update(now: int)
    | AddTime(ticks: int, now: int)
    | Transfer(b: byte, now: int)

  function After(m: Time, call: Call): Time {
    match call
    case Update(now) => Time(now, m.offset)
    case AddTime(ticks, now) => Time(now, m.offset + ticks)
    case Transfer(_, now) => Time(now, m.offset)
  }

  function Sync3(t: uint32): Packet {
    Packet(CMD_SYNC3, 0, 0, 0, t)
  }

  /** How many multiples of 0x1000 lie strictly between two readings. */
  function Gaps(prev: uint32, cur: uint32): nat {
    if prev < cur then (cur - prev - 1) / 0x1000 else 0
  }

  /** One packet every 0x1000 ticks on the way from one reading to the next. */
  function Pacing(prev: uint32, cur: uint32): seq<Packet>
    requires cur < 0x8000_0000
  {
    seq(Gaps(prev, cur), (i: nat) requires i < Gaps(prev, cur) => Sync3(prev + 0x1000 * (i + 1)))
  }

  function Last(call: Call, t: uint32): Packet {
    if call.Transfer? then Packet(CMD_SYNC1, call.b, 0x81, 0, t) else Sync3(t)
  }

  function Packets(m: Time, call: Call): seq<Packet> {
    var cur := Reading(After(m, call));
    Pacing(Reading(m), cur) + [Last(call, cur)]
  }

  /** The pacing packets are those at every 0x1000 ticks strictly between the two readings: none is
      missing and there are no others. */
  lemma PacingExact(prev: uint32, cur: uint32)
    requires cur < 0x8000_0000
    ensures var pacing := Pacing(prev, cur);
            && (cur <= prev ==> pacing == [])
            && (prev < cur ==> prev + 0x1000 * |pacing| < cur <= prev + 0x1000 * (|pacing| + 1))
            && forall i :: 0 <= i < |pacing| ==> pacing[i] == Packet(106, 0, 0, 0, prev + 0x1000 * (i + 1))
  {
  }

  class BGBMaster {
    var time: int
    var timeoffset: int
    var sent: seq<Packet>

    constructor (now: int)
      ensures time == now && timeoffset == 0 && sent == []
    {
      time, timeoffset, sent := now, 0, [];
    }

    function View(): Time
      reads this
    {
      Time(time, timeoffset)
    }

    function GetTime(): uint32
      reads this
    {
      Low31(time + timeoffset)
    }

    method Send(pack: Packet)
      modifies this`sent
      ensures sent == old(sent) + [pack]
    {
      sent := sent + [pack];
    }

    /** Paces the slave from an earlier reading, by default the present one, to the host's time. */
    method ForwardTime(from: Option<uint32>, now: int)
      modifies this`time, this`sent
      ensures time == now
      ensures sent == old(sent) + Pacing(if from.Some? then from.value else old(GetTime()), GetTime())
    {
      var start := if from.Some? then from.value else GetTime();
      time := now;
      var cur := GetTime();
      var prev := start;
      ghost var n := 0;
      while prev + 0x1000 < cur
        invariant time == now && prev == start + 0x1000 * n && 0 <= n <= Gaps(start, cur)
        invariant sent == old(sent) + Pacing(start, cur)[..n]
        decreases cur - prev
      {
        prev := prev + 0x1000;
        Send(Sync3(prev));
        n := n + 1;
      }
      assert n == Gaps(start, cur);
    }

    method Update(from: Option<uint32>, now: int)
      modifies this`time, this`sent
      ensures time == now
      ensures sent == old(sent) + Pacing(if from.Some? then from.value else old(GetTime()), GetTime())
                      + [Sync3(GetTime())]
    {
      ForwardTime(from, now);
      Send(Sync3(GetTime()));
    }

    method AddTime(ticks: int, now: int)
      modifies this
      ensures View() == After(old(View()), Call.AddTime(ticks, now))
      ensures sent == old(sent) + Packets(old(View()), Call.AddTime(ticks, now))
    {
      var start := GetTime();
      timeoffset := timeoffset + ticks;
      Update(Some(start), now);
      assert sent == old(sent) + (Pacing(start, GetTime()) + [Sync3(GetTime())]);
    }

    /** Up to the wait for the reply, which is a matter of the two-party model. */
    method StartTransfer(b: byte, now: int)
      modifies this`time, this`sent
      ensures View() == After(old(View()), Call.Transfer(b, now))
      ensures sent == old(sent) + Packets(old(View()), Call.Transfer(b, now))
    {
      var start := GetTime();
      ForwardTime(None, now);
      Send(Packet(CMD_SYNC1, b, 0x81, 0, GetTime()));
      assert sent == old(sent) + (Pacing(start, GetTime()) + [Packet(CMD_SYNC1, b, 0x81, 0, GetTime())]);
    }
  }

  // ----- The slave behind the master -----

  /** The slave takes one packet that arrives whole, with no send failing; until its clock is set
      it runs with the initialising callback. */
  function Take(w: World, p: Packet, reaction: Reaction): World {
    LoopWorld(if w.clockInit then TrackClock else InitClock, true, w, Env(Data(p), true, reaction))
  }

  function Serve(w: World, packets: seq<Packet>, reactions: seq<Reaction>): World
    requires |reactions| == |packets|
  {
    if packets == [] then w
    else
      var n := |packets| - 1;
      Take(Serve(w, packets[..n], reactions[..n]), packets[n], reactions[n])
  }

  /** Timestamps that never go back and never advance by more than 0x1000. */
  predicate PacedTimes(times: seq<uint32>) {
    forall i :: 0 < i < |times| ==> PacedAt(times, i)
  }

  predicate PacedAt(times: seq<uint32>, i: nat)
    requires 0 < i < |times|
  {
    times[i - 1] <= times[i] <= times[i - 1] as int + 0x1000
  }

  function Stamps(packets: seq<Packet>): seq<uint32> {
    seq(|packets|, i requires 0 <= i < |packets| => packets[i].timestamp)
  }

  /** The clock of the slave is set, to t. */
  predicate At(w: World, t: uint32) {
    Synced(w) && w.clock == t
  }

  /** The slave has taken nothing but its handshake. */
  predicate Unset(w: World) {
    !w.lastInit && !w.clockInit
  }

  lemma TakeAdvances(w: World, p: Packet, reaction: Reaction, t: uint32)
    requires At(w, t) && Timed(p) && 0 <= p.timestamp - t <= 0x1000
    ensures At(Take(w, p, reaction), p.timestamp) && Jumped(Take(w, p, reaction)) == Jumped(w)
  {
    PassExactly(w, Env(Data(p), true, reaction));
    ForwardExact(t, p.timestamp, t, p.timestamp);
  }

  lemma TakeFirst(w: World, p: Packet, reaction: Reaction)
    requires Unset(w) && Timed(p)
    ensures At(Take(w, p, reaction), p.timestamp) && Jumped(Take(w, p, reaction)) == Jumped(w)
  {
    RespondAddsNoJump(w, p, reaction);
  }

  lemma PacedFront(s: seq<uint32>, n: nat)
    requires PacedTimes(s) && n <= |s|
    ensures PacedTimes(s[..n])
  {
    forall i | 0 < i < n ensures PacedAt(s[..n], i) {
      assert PacedAt(s, i);
    }
  }

  lemma {:induction false} ServePaced(w: World, packets: seq<Packet>, reactions: seq<Reaction>, t: uint32)
    requires |reactions| == |packets| && forall p :: p in packets ==> Timed(p)
    requires At(w, t) && PacedTimes([t] + Stamps(packets))
    ensures At(Serve(w, packets, reactions), ([t] + Stamps(packets))[|packets|])
    ensures Jumped(Serve(w, packets, reactions)) == Jumped(w)
  {
    if packets != [] {
      var n := |packets| - 1;
      var s := [t] + Stamps(packets);
      assert s[..n + 1] == [t] + Stamps(packets[..n]);
      PacedFront(s, n + 1);
      assert PacedAt(s, n + 1);
      ServePaced(w, packets[..n], reactions[..n], t);
      TakeAdvances(Serve(w, packets[..n], reactions[..n]), packets[n], reactions[n], s[n]);
    }
  }

  // ----- One call -----

  /** From a slave at most 0x100 ahead of the driver's last reading: once the driver has caught up,
      its timestamps are paced from the slave's clock on. */
  lemma CallIsPaced(m: Time, call: Call, c: uint32)
    requires Reading(m) <= c <= Reading(After(m, call)) && c - Reading(m) <= 0x100
    ensures PacedTimes([c] + Stamps(Packets(m, call)))
  {
    var prev, cur := Reading(m), Reading(After(m, call));
    var s := [c] + Stamps(Packets(m, call));
    forall i | 0 < i < |s| ensures PacedAt(s, i) {
      assert i > 1 ==> s[i - 1] == prev + 0x1000 * (i - 1);
    }
  }

  /** A call whose masked clock falls back, as it does when it wraps, by more than the filter forgives
      and to a value still more than 0x1000 ticks ahead of the slave's clock c. */
  predicate Loses(c: uint32, prev: uint32, cur: uint32) {
    cur < prev && 0x100 < c - cur < 0x8000_0000 - 0x1000
  }

  /** The slave's clock after a call: it waits for a driver that is a little behind it, and otherwise
      goes where the driver is. */
  function NextClock(c: uint32, prev: uint32, cur: uint32): uint32 {
    if cur <= c && (prev <= cur || c - cur <= 0x100) then c else cur
  }

  lemma TakeExactly(w: World, p: Packet, reaction: Reaction, c: uint32)
    requires At(w, c) && Timed(p) && c < 0x8000_0000 && p.timestamp < c
    ensures var v, back := Take(w, p, reaction), c - p.timestamp;
            && At(v, if back <= 0x100 then c else p.timestamp)
            && Jumped(v) == Jumped(w) + (if 0x100 < back < 0x8000_0000 - 0x1000 then 1 else 0)
  {
    PassExactly(w, Env(Data(p), true, reaction));
    ForwardExact(c, p.timestamp, c, p.timestamp);
  }

  lemma ServeOne(w: World, p: Packet, reactions: seq<Reaction>)
    requires |reactions| == 1
    ensures Serve(w, [p], reactions) == Take(w, p, reactions[0])
  {
    assert Serve(w, [p][..0], reactions[..0]) == w;
  }

  /** Exactly what a call does to a slave at most 0x100 ahead of the driver: it is reset if and only if
      the call loses it, its clock is known in every case, and it is again at most 0x100 ahead. */
  lemma CallResetsIff(w: World, m: Time, call: Call, reactions: seq<Reaction>, c: uint32)
    requires |reactions| == |Packets(m, call)|
    requires At(w, c) && 0 <= c - Reading(m) <= 0x100 && c < 0x8000_0000
    ensures var v := Serve(w, Packets(m, call), reactions);
            var prev, cur := Reading(m), Reading(After(m, call));
            && Jumped(v) == Jumped(w) + (if Loses(c, prev, cur) then 1 else 0)
            && At(v, NextClock(c, prev, cur))
            && 0 <= NextClock(c, prev, cur) - cur <= 0x100
  {
    var prev, cur := Reading(m), Reading(After(m, call));
    var packets := Packets(m, call);
    if prev <= cur && c <= cur {
      CallIsPaced(m, call, c);
      ServePaced(w, packets, reactions, c);
    } else {
      assert packets == [Last(call, cur)];
      ServeOne(w, packets[0], reactions);
      TakeExactly(w, packets[0], reactions[0], c);
    }
  }

  /** The driver's clock can wrap between two calls a second apart. */
  lemma WrapResets(w: World, reactions: seq<Reaction>)
    requires At(w, 0x7FFF_FFFF)
    requires |reactions| == |Packets(Time(0x7FFF_FFFF, 0), Update(0x7FFF_FFFF + 2097152))|
    ensures Jumped(Serve(w, Packets(Time(0x7FFF_FFFF, 0), Update(0x7FFF_FFFF + 2097152)), reactions)) == Jumped(w) + 1
  {
    CallResetsIff(w, Time(0x7FFF_FFFF, 0), Update(0x7FFF_FFFF + 2097152), reactions, 0x7FFF_FFFF);
  }

  /** The first call of a session sets the slave's clock to the driver's. */
  lemma FirstCall(w: World, m: Time, call: Call, reactions: seq<Reaction>)
    requires Unset(w) && |reactions| == |Packets(m, call)|
    ensures var v := Serve(w, Packets(m, call), reactions);
            At(v, Reading(After(m, call))) && Jumped(v) == Jumped(w)
  {
    var prev, cur := Reading(m), Reading(After(m, call));
    var packets := Packets(m, call);
    if prev <= cur {
      CallIsPaced(m, call, prev);
      PacedTail([prev] + Stamps(packets));
      assert ([prev] + Stamps(packets))[1..] == Stamps(packets);
      ServeFromUnset(w, packets, reactions);
    } else {
      assert packets == [Last(call, cur)];
      ServeOne(w, packets[0], reactions);
      TakeFirst(w, packets[0], reactions[0]);
    }
  }

  // ----- Whole sessions -----

  function History(m: Time, calls: seq<Call>): (Time, seq<Packet>) {
    if calls == [] then (m, [])
    else
      var n := |calls| - 1;
      var (before, packets) := History(m, calls[..n]);
      (After(before, calls[n]), packets + Packets(before, calls[n]))
  }

  /** The time skipped in all. */
  function Skipped(calls: seq<Call>): int {
    if calls == [] then 0
    else
      var n := |calls| - 1;
      Skipped(calls[..n]) + if calls[n].AddTime? then calls[n].ticks else 0
  }

  /** The driver's clock is the host's at the last call, advanced by all that was skipped. */
  lemma {:induction false} ReadingAfter(m: Time, calls: seq<Call>)
    ensures History(m, calls).0.offset == m.offset + Skipped(calls)
    ensures calls != [] ==>
              Reading(History(m, calls).0) == Low31(calls[|calls| - 1].now + m.offset + Skipped(calls))
  {
    if calls != [] { ReadingAfter(m, calls[..|calls| - 1]); }
  }

  /** The masked clock does not decrease from one call to the next. */
  predicate Monotone(m: Time, calls: seq<Call>) {
    forall i :: 0 <= i < |calls| ==> MonotoneAt(m, calls, i)
  }

  predicate MonotoneAt(m: Time, calls: seq<Call>, i: nat)
    requires i < |calls|
  {
    var before := History(m, calls[..i]).0;
    Reading(before) <= Reading(After(before, calls[i]))
  }

  lemma MonotoneFront(m: Time, calls: seq<Call>, n: nat)
    requires Monotone(m, calls) && n <= |calls|
    ensures Monotone(m, calls[..n])
  {
    forall i | 0 <= i < n ensures MonotoneAt(m, calls[..n], i) {
      assert calls[..n][..i] == calls[..i];
      assert MonotoneAt(m, calls, i);
    }
  }

  lemma {:induction false} HistoryIsTimed(m: Time, calls: seq<Call>)
    ensures forall p :: p in History(m, calls).1 ==> Timed(p)
    ensures |History(m, calls).1| >= |calls|
  {
    if calls != [] { HistoryIsTimed(m, calls[..|calls| - 1]); }
  }

  lemma {:induction false} HistoryIsPaced(m: Time, calls: seq<Call>)
    requires Monotone(m, calls)
    ensures var (end, packets) := History(m, calls);
            && PacedTimes([Reading(m)] + Stamps(packets))
            && ([Reading(m)] + Stamps(packets))[|packets|] == Reading(end)
  {
    if calls != [] {
      var n := |calls| - 1;
      var (before, packets) := History(m, calls[..n]);
      MonotoneFront(m, calls, n);
      HistoryIsPaced(m, calls[..n]);
      assert MonotoneAt(m, calls, n);
      CallIsPaced(before, calls[n], Reading(before));
      var more := Packets(before, calls[n]);
      PacedJoin([Reading(m)] + Stamps(packets), [Reading(before)] + Stamps(more));
      StampsJoin(Reading(m), packets, Reading(before), more);
    }
  }

  lemma StampsJoin(s: uint32, a: seq<Packet>, t: uint32, b: seq<Packet>)
    ensures [s] + Stamps(a + b) == ([s] + Stamps(a)) + ([t] + Stamps(b))[1..]
  {
  }

  lemma PacedJoin(s: seq<uint32>, t: seq<uint32>)
    requires s != [] && t != [] && s[|s| - 1] == t[0] && PacedTimes(s) && PacedTimes(t)
    ensures PacedTimes(s + t[1..])
  {
    var u := s + t[1..];
    forall i | 0 < i < |u| ensures PacedAt(u, i) {
      if i < |s| {
        assert PacedAt(s, i);
      } else {
        assert PacedAt(t, i - |s| + 1);
      }
    }
  }

  lemma {:induction false} ServeFromUnset(w: World, packets: seq<Packet>, reactions: seq<Reaction>)
    requires |reactions| == |packets| && forall p :: p in packets ==> Timed(p)
    requires Unset(w) && PacedTimes(Stamps(packets))
    ensures var v := Serve(w, packets, reactions);
            && Jumped(v) == Jumped(w)
            && if packets == [] then v == w else At(v, packets[|packets| - 1].timestamp)
  {
    if packets != [] {
      var n := |packets| - 1;
      assert Stamps(packets)[..n] == Stamps(packets[..n]);
      PacedFront(Stamps(packets), n);
      ServeFromUnset(w, packets[..n], reactions[..n]);
      var v := Serve(w, packets[..n], reactions[..n]);
      if n == 0 {
        TakeFirst(v, packets[n], reactions[n]);
      } else {
        var s := Stamps(packets);
        assert PacedAt(s, n);
        TakeAdvances(v, packets[n], reactions[n], packets[n - 1].timestamp);
      }
    }
  }

  lemma {:induction false} ServeConcat(w: World, a: seq<Packet>, b: seq<Packet>, reactions: seq<Reaction>)
    requires |reactions| == |a + b|
    ensures Serve(w, a + b, reactions) == Serve(Serve(w, a, reactions[..|a|]), b, reactions[|a|..])
    decreases |b|
  {
    if b == [] {
      assert a + b == a && reactions[..|a|] == reactions;
    } else {
      var n := |b| - 1;
      var front := reactions[..|a| + n];
      ServeConcat(w, a, b[..n], front);
      assert (a + b)[..|a| + n] == a + b[..n];
      assert front[..|a|] == reactions[..|a|] && front[|a|..] == reactions[|a|..][..n];
    }
  }

  /** The slave's clock after a session, from the driver's readings alone. */
  function ClockAfter(m: Time, calls: seq<Call>): (c: uint32)
    requires calls != []
  {
    var n := |calls| - 1;
    var before := History(m, calls[..n]).0;
    var cur := Reading(After(before, calls[n]));
    if n == 0 then cur else NextClock(ClockAfter(m, calls[..n]), Reading(before), cur)
  }

  /** How many calls of a session lose the slave. */
  function Resets(m: Time, calls: seq<Call>): nat {
    if |calls| <= 1 then 0
    else
      var n := |calls| - 1;
      var before := History(m, calls[..n]).0;
      Resets(m, calls[..n])
      + if Loses(ClockAfter(m, calls[..n]), Reading(before), Reading(After(before, calls[n]))) then 1 else 0
  }

  /** Over any session whatever, the number of resets is the number of calls that lose the slave, and
      the slave's clock is known, at most 0x100 ahead of the driver's. */
  lemma {:induction false} SessionResetsExactly(w: World, m: Time, calls: seq<Call>, reactions: seq<Reaction>)
    requires Unset(w) && calls != [] && |reactions| == |History(m, calls).1|
    ensures var (end, packets) := History(m, calls);
            var v := Serve(w, packets, reactions);
            && Jumped(v) == Jumped(w) + Resets(m, calls)
            && At(v, ClockAfter(m, calls))
            && 0 <= ClockAfter(m, calls) - Reading(end) <= 0x100 && ClockAfter(m, calls) < 0x8000_0000
  {
    var n := |calls| - 1;
    var (before, packets) := History(m, calls[..n]);
    var more := Packets(before, calls[n]);
    if n == 0 {
      assert packets + more == more;
      FirstCall(w, m, calls[n], reactions);
    } else {
      ServeConcat(w, packets, more, reactions);
      SessionResetsExactly(w, m, calls[..n], reactions[..|packets|]);
      CallResetsIff(Serve(w, packets, reactions[..|packets|]), before, calls[n], reactions[|packets|..],
                    ClockAfter(m, calls[..n]));
    }
  }

  /** Call i falls back by so much. */
  function Back(m: Time, calls: seq<Call>, i: nat): int
    requires i < |calls|
  {
    var before := History(m, calls[..i]).0;
    Reading(before) - Reading(After(before, calls[i]))
  }

  /** How many calls after the first fall back by more than 0x100 and less than 2^31 - 0x1000. */
  function FallBacks(m: Time, calls: seq<Call>): nat {
    if |calls| <= 1 then 0
    else
      var n := |calls| - 1;
      FallBacks(m, calls[..n]) + if 0x100 < Back(m, calls, n) < 0x8000_0000 - 0x1000 then 1 else 0
  }

  predicate NoGlitch(m: Time, calls: seq<Call>) {
    forall i :: 0 < i < |calls| ==> !(0 < Back(m, calls, i) <= 0x100)
  }

  /** In a session without fall-backs of at most 0x100, the slave's clock is the driver's after every
      call, and the resets are the calls that fall back in between. */
  lemma {:induction false} ResetsAreFallBacks(m: Time, calls: seq<Call>)
    requires calls != [] && NoGlitch(m, calls)
    ensures Resets(m, calls) == FallBacks(m, calls) && ClockAfter(m, calls) == Reading(History(m, calls).0)
  {
    var n := |calls| - 1;
    if n > 0 {
      forall i | 0 < i < n ensures !(0 < Back(m, calls[..n], i) <= 0x100) {
        assert calls[..n][..i] == calls[..i];
        assert Back(m, calls[..n], i) == Back(m, calls, i);
      }
      ResetsAreFallBacks(m, calls[..n]);
      assert !(0 < Back(m, calls, n) <= 0x100);
    }
  }

  lemma {:induction false} MonotoneNeverLoses(m: Time, calls: seq<Call>)
    requires calls != [] && Monotone(m, calls)
    ensures Resets(m, calls) == 0 && ClockAfter(m, calls) == Reading(History(m, calls).0)
  {
    var n := |calls| - 1;
    if n > 0 {
      MonotoneFront(m, calls, n);
      MonotoneNeverLoses(m, calls[..n]);
      assert MonotoneAt(m, calls, n);
    }
  }

  /** A driver whose masked clock does not decrease never resets the slave, and leaves the slave's
      clock at its own time. */
  lemma PacedMasterNeverResets(w: World, m: Time, calls: seq<Call>, reactions: seq<Reaction>)
    requires Unset(w) && Monotone(m, calls) && |reactions| == |History(m, calls).1|
    ensures var (end, packets) := History(m, calls);
            var v := Serve(w, packets, reactions);
            Jumped(v) == Jumped(w) && (calls != [] ==> At(v, Reading(end)))
  {
    if calls != [] {
      MonotoneNeverLoses(m, calls);
      SessionResetsExactly(w, m, calls, reactions);
    }
  }

  lemma PacedTail(s: seq<uint32>)
    requires s != [] && PacedTimes(s)
    ensures PacedTimes(s[1..])
  {
    forall i | 0 < i < |s[1..]| ensures PacedAt(s[1..], i) {
      assert PacedAt(s, i + 1);
    }
  }
}
