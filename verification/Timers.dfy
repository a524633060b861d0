/** The timers built on the link's clock. */
module Timers {
  import opened Words
  import opened Bridge
  import opened Lifecycle
  import opened ClockRefinement

  /** The program divides in double precision. The dividend is exact, and the quotient is correctly
      rounded: exact when it is an integer, and otherwise off by at most one part in 2^53. Its
      fractional part is then a multiple of 1/125, so truncation gives the integer quotient. */
  lemma DoubleQuotientTruncates(ms: nat, quotient: real)
    requires ms < 2048000
    requires var exact := (ms * 2097152) as real / 1000.0;
             && exact - exact / 9007199254740992.0 <= quotient <= exact + exact / 9007199254740992.0
             && (exact == exact.Floor as real ==> quotient == exact)
    ensures quotient.Floor == Threshold(ms)
  {
    var n := ms * 2097152;
    var q, r := n / 1000, n % 1000;
    assert r == 8 * (ms * 262144 - 125 * q);
    RealQuotient(n, q, r);
    TruncatesNear(q, r, quotient);
  }

  lemma RealQuotient(n: nat, q: nat, r: nat)
    requires n == 1000 * q + r
    ensures n as real / 1000.0 == q as real + r as real / 1000.0
  {
    assert n as real == 1000.0 * q as real + r as real;
  }

  lemma TruncatesNear(q: nat, r: nat, x: real)
    requires q < 0x1_0000_0000 && r < 1000 && r % 8 == 0
    requires var exact := q as real + r as real / 1000.0;
             && exact - exact / 9007199254740992.0 <= x <= exact + exact / 9007199254740992.0
             && (exact == exact.Floor as real ==> x == exact)
    ensures x.Floor == q
  {
    var exact := q as real + r as real / 1000.0;
    assert exact.Floor == q;
    assert exact / 9007199254740992.0 < 0.001;
  }

  // ----- Answers -----

  /** While less than one turn of the clock has passed, a timer answers as if time were unbounded. */
  lemma TimerExact(w: World, id: Ideal, timer: nat, ms: nat)
    requires Refines(w, id) && timer < |w.latches|
    requires 0 <= id.now - id.latched[timer] < 0x8000_0000
    ensures Expired(w, timer, ms) <==> id.now - id.latched[timer] >= Threshold(ms)
  {
    ForwardExact(w.latches[timer], w.clock, id.latched[timer], id.now);
  }

  /** Over any run without a reset, started in any state that stands for unbounded time. */
  lemma TimersRefine(w: World, id: Ideal, inputs: seq<Input>, times: seq<int>, timer: nat, ms: nat)
    requires Refines(w, id) && |times| == |inputs| && SteadyRun(id, inputs, times)
    requires timer < |w.latches|
    ensures var i := IdealRun(id, inputs, times);
            0 <= i.now - i.latched[timer] < 0x8000_0000 ==>
              (Expired(Run(w, inputs), timer, ms) <==> i.now - i.latched[timer] >= Threshold(ms))
  {
    ClockIsRunningMax(w, id, inputs, times);
    var i := IdealRun(id, inputs, times);
    if 0 <= i.now - i.latched[timer] < 0x8000_0000 {
      TimerExact(Run(w, inputs), i, timer, ms);
    }
  }

  /** From 1024 seconds on, no state makes a timer expire. */
  lemma LongTimersNeverFire(w: World, timer: nat, ms: nat)
    requires timer < |w.latches|
    ensures 1024000 <= ms ==> !Expired(w, timer, ms)
    ensures ms < 1024000 ==> exists c: uint32 :: Expired(w.(clock := c), timer, ms)
  {
    if ms < 1024000 {
      var latch: int := w.latches[timer];
      var c: uint32 := (latch + 0x7FFF_FFFF) % 0x1_0000_0000;
      ForwardOfTimes(w.latches[timer], c, latch, latch + 0x7FFF_FFFF);
      assert Expired(w.(clock := c), timer, ms);
    }
  }

  // ----- Polling -----

  predicate Touches(input: Input, timer: nat) {
    match input
    case Pass(env) => Transfers(input) && timer in env.reaction.latched
    case Around(round) => timer in round.latched
    case Latches(timers) => timer in timers
  }

  predicate Untouched(inputs: seq<Input>, timer: nat) {
    forall i :: 0 <= i < |inputs| ==> !Touches(inputs[i], timer)
  }

  /** The timer polled after the first k inputs. */
  predicate Polled(w: World, inputs: seq<Input>, k: nat, timer: nat, ms: nat)
    requires k <= |inputs| && timer < |w.latches|
  {
    Expired(Run(w, inputs[..k]), timer, ms)
  }

  /** The true time since the run began, after its first k inputs. */
  function Elapsed(id: Ideal, inputs: seq<Input>, times: seq<int>, k: nat): int
    requires |times| == |inputs| && k <= |inputs|
  {
    IdealRun(id, inputs[..k], times[..k]).now - id.now
  }

  lemma ElapsedStep(id: Ideal, inputs: seq<Input>, times: seq<int>, k: nat)
    requires |times| == |inputs| && k < |inputs|
    requires SteadyRun(id, inputs, times)
    ensures 0 <= Elapsed(id, inputs, times, k + 1) - Elapsed(id, inputs, times, k) <= 0x1000
  {
    assert inputs[..k + 1][..k] == inputs[..k] && times[..k + 1][..k] == times[..k];
    assert SteadyAt(id, inputs, times, k);
  }

  lemma {:induction false} ElapsedGrows(id: Ideal, inputs: seq<Input>, times: seq<int>, j: nat, k: nat)
    requires |times| == |inputs| && j <= k <= |inputs|
    requires SteadyRun(id, inputs, times)
    ensures Elapsed(id, inputs, times, j) <= Elapsed(id, inputs, times, k)
    decreases k - j
  {
    if j < k {
      ElapsedGrows(id, inputs, times, j, k - 1);
      ElapsedStep(id, inputs, times, k - 1);
    }
  }

  lemma {:induction false} LatchStays(id: Ideal, inputs: seq<Input>, times: seq<int>, timer: nat)
    requires |times| == |inputs| && timer < |id.latched|
    requires Untouched(inputs, timer)
    ensures IdealRun(id, inputs, times).latched[timer] == id.latched[timer]
  {
    if inputs != [] {
      var n := |inputs| - 1;
      LatchStays(id, inputs[..n], times[..n], timer);
    }
  }

  /** A poll within one turn of the latch tells the truth. */
  lemma PollExact(w: World, id: Ideal, inputs: seq<Input>, times: seq<int>, k: nat, timer: nat, ms: nat)
    requires Watched(w, id, inputs, times, timer) && k <= |inputs|
    requires Elapsed(id, inputs, times, k) < 0x8000_0000
    ensures Polled(w, inputs, k, timer, ms) <==> Elapsed(id, inputs, times, k) >= Threshold(ms)
  {
    ElapsedGrows(id, inputs, times, 0, k);
    SteadyPrefix(id, inputs, times, k);
    LatchStays(id, inputs[..k], times[..k], timer);
    TimersRefine(w, id, inputs[..k], times[..k], timer, ms);
  }

  /** A run without a reset, beginning in a state that stands for unbounded time and in which a
      timer has just been latched, and not touching that timer. */
  predicate Watched(w: World, id: Ideal, inputs: seq<Input>, times: seq<int>, timer: nat) {
    && Refines(w, id) && |times| == |inputs| && SteadyRun(id, inputs, times)
    && timer < |w.latches| && id.latched[timer] == id.now && Untouched(inputs, timer)
  }

  /** None of the first k polls fires. */
  predicate Quiet(w: World, inputs: seq<Input>, k: nat, timer: nat, ms: nat)
    requires k <= |inputs| + 1 && timer < |w.latches|
  {
    forall j: nat :: j < k ==> !Polled(w, inputs, j, timer, ms)
  }

  /** A timer that has not fired at any poll so far has not been due at any of them. */
  lemma {:induction false} NotDueBefore(
      w: World, id: Ideal, inputs: seq<Input>, times: seq<int>, k: nat, timer: nat, ms: nat)
    requires Watched(w, id, inputs, times, timer) && k <= |inputs| && ms < 1023999
    requires Quiet(w, inputs, k, timer, ms)
    ensures Elapsed(id, inputs, times, k) < Threshold(ms) + 0x1000
    ensures !Polled(w, inputs, k, timer, ms) ==> Elapsed(id, inputs, times, k) < Threshold(ms)
    decreases k
  {
    if k > 0 {
      NotDueBefore(w, id, inputs, times, k - 1, timer, ms);
      ElapsedStep(id, inputs, times, k - 1);
    }
    PollExact(w, id, inputs, times, k, timer, ms);
  }

  /** No timer shorter than 1023999 ms can be missed by a program that polls it when it is latched
      and after every step. As long as it has not fired it was not due; it fires less than 0x1000
      ticks late; and it stays expired for the rest of the clock's turn. */
  lemma NoTimerSkipped(w: World, id: Ideal, inputs: seq<Input>, times: seq<int>, timer: nat, ms: nat)
    requires Watched(w, id, inputs, times, timer) && ms < 1023999
    ensures Quiet(w, inputs, |inputs| + 1, timer, ms) ==> Elapsed(id, inputs, times, |inputs|) < Threshold(ms)
    ensures forall k: nat | k <= |inputs| && Polled(w, inputs, k, timer, ms) && Quiet(w, inputs, k, timer, ms) ::
              Threshold(ms) <= Elapsed(id, inputs, times, k) < Threshold(ms) + 0x1000
    ensures forall j: nat, k: nat | j <= k <= |inputs| && Polled(w, inputs, j, timer, ms) ::
              Elapsed(id, inputs, times, k) < 0x8000_0000 ==> Polled(w, inputs, k, timer, ms)
  {
    if Quiet(w, inputs, |inputs| + 1, timer, ms) {
      NotDueBefore(w, id, inputs, times, |inputs|, timer, ms);
    }
    forall k: nat | k <= |inputs| && Polled(w, inputs, k, timer, ms) && Quiet(w, inputs, k, timer, ms)
      ensures Threshold(ms) <= Elapsed(id, inputs, times, k) < Threshold(ms) + 0x1000
    {
      NotDueBefore(w, id, inputs, times, k, timer, ms);
      PollExact(w, id, inputs, times, k, timer, ms);
    }
    forall j: nat, k: nat | j <= k <= |inputs| && Polled(w, inputs, j, timer, ms)
                            && Elapsed(id, inputs, times, k) < 0x8000_0000
      ensures Polled(w, inputs, k, timer, ms)
    {
      ElapsedGrows(id, inputs, times, j, k);
      PollExact(w, id, inputs, times, j, timer, ms);
      PollExact(w, id, inputs, times, k, timer, ms);
    }
  }

  // ----- The one duration that can be missed -----

  function Report(t: int): Input {
    Pass(Env(Data(Packet(CMD_SYNC3, 1, 0, 0, Low31(t))), true, Reaction(0, [])))
  }

  /** An emulator that reports its time every 0x1000 ticks. */
  function Evenly(now: int, n: nat): seq<Input> {
    seq(n, (i: nat) => Report(now + 0x1000 * (i + 1)))
  }

  function EvenTimes(now: int, n: nat): seq<int> {
    seq(n, (i: nat) => now + 0x1000 * (i + 1))
  }

  lemma EvenlySnoc(now: int, n: nat)
    ensures Evenly(now, n + 1)[..n] == Evenly(now, n)
    ensures EvenTimes(now, n + 1) == EvenTimes(now, n) + [now + 0x1000 * (n + 1)]
    ensures Steady(now + 0x1000 * n, Evenly(now, n + 1)[n], now + 0x1000 * (n + 1))
  {
  }

  lemma {:induction false} EvenlyIsSteady(id: Ideal, n: nat)
    ensures SteadyRun(id, Evenly(id.now, n), EvenTimes(id.now, n))
    ensures IdealRun(id, Evenly(id.now, n), EvenTimes(id.now, n)) == id.(now := id.now + 0x1000 * n)
  {
    if n > 0 {
      EvenlyIsSteady(id, n - 1);
      EvenlySnoc(id.now, n - 1);
      var front := EvenTimes(id.now, n - 1);
      var t := id.now + 0x1000 * n;
      SteadySnoc(id, Evenly(id.now, n), front, t);
      assert (front + [t])[..n - 1] == front;
    }
  }

  /** On a grid of 0x1000 ticks the clock turns over without a reading in the last part of its turn. */
  lemma GridTurns(n: nat)
    ensures Low31(0x1000 * n) <= 0x7FFF_F000
  {
    var q := 0x1000 * n / 0x8000_0000;
    assert Low31(0x1000 * n) == 0x1000 * (n - 0x8_0000 * q);
  }

  lemma NotDueOnTheGrid(w: World, id: Ideal, n: nat, timer: nat)
    requires Refines(w, id) && timer < |w.latches| && id.now - id.latched[timer] == 0x1000 * n
    ensures !Expired(w, timer, 1023999)
  {
    ForwardOfTimes(w.latches[timer], w.clock, id.latched[timer], id.now);
    GridTurns(n);
  }

  lemma EvenlyFront(now: int, n: nat, k: nat)
    requires k <= n
    ensures Evenly(now, n)[..k] == Evenly(now, k) && EvenTimes(now, n)[..k] == EvenTimes(now, k)
  {
  }

  /** At 1023999 ms the margin left before the clock turns over is shorter than the emulator's
      reporting interval, and there is a run without a reset, of any length, in which no poll fires. */
  lemma TimerSkipped(w: World, id: Ideal, n: nat, timer: nat)
    requires Refines(w, id) && timer < |w.latches| && id.latched[timer] == id.now
    ensures Watched(w, id, Evenly(id.now, n), EvenTimes(id.now, n), timer)
    ensures Elapsed(id, Evenly(id.now, n), EvenTimes(id.now, n), n) == 0x1000 * n
    ensures Quiet(w, Evenly(id.now, n), n + 1, timer, 1023999)
  {
    EvenlyIsSteady(id, n);
    EvenlyFront(id.now, n, n);
    forall k: nat | k <= n ensures !Polled(w, Evenly(id.now, n), k, timer, 1023999) {
      EvenlyFront(id.now, n, k);
      EvenlyIsSteady(id, k);
      ClockIsRunningMax(w, id, Evenly(id.now, k), EvenTimes(id.now, k));
      NotDueOnTheGrid(Run(w, Evenly(id.now, k)), id.(now := id.now + 0x1000 * k), k, timer);
    }
  }

  /** The timer falls due but no poll has fired. */
  predicate Missed(w: World, id: Ideal, inputs: seq<Input>, times: seq<int>, timer: nat, ms: nat) {
    && Watched(w, id, inputs, times, timer)
    && Quiet(w, inputs, |inputs| + 1, timer, ms)
    && Elapsed(id, inputs, times, |inputs|) >= Threshold(ms)
  }

  /** Exactly the timers of 1023999 ms or more can be missed. */
  lemma TimerMissedIff(ms: nat)
    requires ms < 2048000
    ensures (exists w, id, inputs, times, timer: nat :: Missed(w, id, inputs, times, timer, ms)) <==> ms >= 1023999
  {
    if ms < 1023999 {
      forall w, id, inputs, times, timer: nat ensures !Missed(w, id, inputs, times, timer, ms) {
        if Watched(w, id, inputs, times, timer) { NoTimerSkipped(w, id, inputs, times, timer, ms); }
      }
    } else {
      var w := World(0, 0, true, 0, true, false, {}, [0], []);
      var id := Ideal(0, [0]);
      var n := 0x10_0000;
      TimerSkipped(w, id, n, 0);
      if ms >= 1024000 {
        forall k: nat | k <= n ensures !Polled(w, Evenly(0, n), k, 0, ms) {
          LongTimersNeverFire(Run(w, Evenly(0, n)[..k]), 0, ms);
        }
      }
      assert Missed(w, id, Evenly(0, n), EvenTimes(0, n), 0, ms);
    }
  }
}
