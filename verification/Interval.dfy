/** dtinterval_scheduled.c: a loop that sleeps until the next tick of a fixed grid, calls back, and looks at the clock
    again. The loop has no end of its own; it is followed for as many laps as its environment is given. */
module Interval {
  import opened Bytes
  import opened Clock

  /** What the environment does to one lap: how long after the last lap the clock is read, how much longer than asked
      the sleep lasts, how long the callback runs and what it answers, and when someone else calls pause. */
  datatype Lap = Lap(
    lag: nat,
    oversleep: nat,
    duration: nat,
    asksPause: bool,
    fails: bool,
    pausedBefore: bool,
    pausedAsleep: bool,
    pausedInCallback: bool)

  /** One callback, in real time, and the tick the code then aims for, if the callback did not fail. */
  datatype Fire = Fire(wake: nat, done: nat, nextTick: Option<uint32>)

  datatype Result = Paused | Failed | Running

  datatype Outcome = Outcome(fires: seq<Fire>, result: Result, shouldPause: bool)

  /** When the callback of a lap starts, if it does: not before the tick, and not before the sleep is over. The raw
      comparison decides whether to sleep at all. */
  function Wake(now: nat, nextTick: uint32, oversleep: nat): (wake: nat)
    ensures now + oversleep <= wake
    ensures now < WRAP ==> nextTick <= wake
  {
    (if Low(now) < nextTick then now + (nextTick - Low(now)) else now) + oversleep
  }

  /** The recomputation after a callback that ends at `done`, in uint32_t arithmetic. */
  function NextTick(startTick: uint32, interval: uint32, done: nat): uint32
    requires interval > 0
  {
    var ticks := Low(Elapsed(Low(done), startTick) / interval + 1);
    Low(startTick + Low(ticks * interval))
  }

  function TickOf(startTick: uint32, interval: uint32): nat -> uint32
    requires interval > 0
  {
    (done: nat) => NextTick(startTick, interval, done)
  }

  /** The loop from the top, with its variables as parameters; `tick` recomputes the next tick. */
  function Loop(tick: nat -> uint32, nextTick: uint32, time: nat, shouldPause: bool, laps: seq<Lap>): Outcome
    decreases |laps|
  {
    if laps == [] then Outcome([], Running, shouldPause)
    else
      var lap := laps[0];
      if shouldPause || lap.pausedBefore || lap.pausedAsleep then Outcome([], Paused, true)
      else
        var wake := Wake(time + lap.lag, nextTick, lap.oversleep);
        var done := wake + lap.duration;
        if lap.fails then Outcome([Fire(wake, done, None)], Failed, lap.pausedInCallback)
        else
          var rest := Loop(tick, tick(done), done, lap.asksPause, laps[1..]);
          rest.(fires := [Fire(wake, done, Some(tick(done)))] + rest.fires)
  }

  function Prefixed(before: seq<Fire>, o: Outcome): Outcome {
    o.(fires := before + o.fires)
  }

  function FirstTick(interval: uint32, time: nat): uint32 {
    Low(Low(time) + interval)
  }

  /** dtinterval_scheduled_start, called at a real time. */
  function StartLoop(interval: uint32, time: nat, shouldPause: bool, laps: seq<Lap>): Outcome
    requires interval > 0
  {
    var startTick := FirstTick(interval, time);
    Loop(TickOf(startTick, interval), startTick, time, shouldPause, laps)
  }

  // ----- The grid -----

  /** The k-th tick after the first. */
  function Point(start: nat, interval: nat, k: nat): (p: nat)
    ensures p >= start
  {
    if k == 0 then start else Point(start, interval, k - 1) + interval
  }

  /** How many ticks after the first have passed. */
  function Cell(start: nat, interval: nat, at: nat): nat
    requires interval > 0
    decreases at
  {
    if at < start + interval then 0 else 1 + Cell(start, interval, at - interval)
  }

  lemma {:induction false} CellMonotonic(start: nat, interval: nat, x: nat, y: nat)
    requires interval > 0 && x <= y
    ensures Cell(start, interval, x) <= Cell(start, interval, y)
    decreases y
  {
    if x >= start + interval {
      CellMonotonic(start, interval, x - interval, y - interval);
    }
  }

  /** From the k-th tick up to the next, k ticks have passed. */
  lemma {:induction false} CellOfPoint(start: nat, interval: nat, k: nat, d: nat)
    requires d < interval
    ensures Cell(start, interval, Point(start, interval, k) + d) == k
  {
    if k > 0 {
      CellOfPoint(start, interval, k - 1, d);
    }
  }

  /** The tick that follows an instant. */
  lemma {:induction false} PointAfter(start: nat, interval: nat, at: nat)
    requires interval > 0 && start <= at
    ensures var next := Point(start, interval, Cell(start, interval, at) + 1);
            at < next <= at + interval
    decreases at
  {
    if at >= start + interval {
      PointAfter(start, interval, at - interval);
    }
  }

  // In closed form, which is what the code computes.

  lemma {:induction false} PointIsMultiple(start: nat, interval: nat, k: nat)
    ensures Point(start, interval, k) == start + k * interval
  {
    if k > 0 {
      PointIsMultiple(start, interval, k - 1);
      assert k * interval == (k - 1) * interval + interval;
    }
  }

  lemma {:induction false} CellIsQuotient(start: nat, interval: nat, at: nat)
    requires interval > 0 && start <= at
    ensures Cell(start, interval, at) == (at - start) / interval
    decreases at
  {
    if at >= start + interval {
      CellIsQuotient(start, interval, at - interval);
      QuotientStep(at - start, interval);
    } else {
      assert (at - start) / interval == 0;
    }
  }

  lemma QuotientStep(x: nat, d: nat)
    requires 0 < d <= x
    ensures x / d == (x - d) / d + 1
  {
    var q, r, q', r' := x / d, x % d, (x - d) / d, (x - d) % d;
    assert x == q * d + r && x - d == q' * d + r';
    assert (q - q' - 1) * d == q * d - q' * d - d == r' - r;
    SmallMultiple(q - q' - 1, d, r' - r);
  }

  lemma SmallMultiple(k: int, d: nat, e: int)
    requires k * d == e && e < d && 0 < d + e
    ensures k == 0
  {
    if k >= 1 {
      MultiplyMonotonic(1, k, d);
    }
  }

  lemma MultiplyMonotonic(a: nat, b: nat, c: nat)
    requires a <= b
    ensures a * c <= b * c
  {
    assert b * c == a * c + (b - a) * c;
  }

  lemma LowOfSmall(n: nat)
    requires n < WRAP
    ensures Low(n) == n
  {
  }

  lemma {:induction false} CellAtMost(start: nat, interval: nat, at: nat)
    requires interval > 0 && start <= at
    ensures Cell(start, interval, at) <= at - start
    decreases at
  {
    if at >= start + interval {
      CellAtMost(start, interval, at - interval);
    }
  }

  /** Below the clock's wrap the 32-bit arithmetic finds the tick that follows. */
  lemma NextTickIsNextPoint(start: nat, interval: uint32, done: nat)
    requires interval > 0 && start <= done && done + interval < WRAP
    ensures NextTick(start, interval, done) == Point(start, interval, Cell(start, interval, done) + 1)
  {
    var cell := Cell(start, interval, done);
    PointAfter(start, interval, done);
    CellIsQuotient(start, interval, done);
    CellAtMost(start, interval, done);
    PointIsMultiple(start, interval, cell + 1);
    LowOfSmall(done);
    LowOfSmall(cell + 1);
    LowOfSmall((cell + 1) * interval);
    LowOfSmall(start + (cell + 1) * interval);
  }

  lemma QuotientIs(e: nat, d: nat, t: nat)
    requires 0 < d && 0 < t && (t - 1) * d <= e < t * d
    ensures e / d == t - 1
  {
    var q, r := e / d, e % d;
    assert e == q * d + r;
    assert t * d == (t - 1) * d + d;
    assert (q - (t - 1)) * d == q * d - (t - 1) * d == (e - (t - 1) * d) - r;
    SmallMultiple(q - (t - 1), d, (e - (t - 1) * d) - r);
  }

  lemma LowOfProduct(t: nat, interval: uint32)
    ensures Low(Low(t) * interval) == Low(t * interval)
  {
    var turns := t / WRAP;
    assert t == turns * WRAP + Low(t);
    assert t * interval == (turns * interval) * WRAP + Low(t) * interval;
    SameLow(Low(t) * interval, turns * interval);
  }

  lemma SameLow(n: nat, turns: nat)
    ensures Low(turns * WRAP + n) == Low(n)
  {
    if turns > 0 {
      SameLow(n, turns - 1);
      assert turns * WRAP + n == ((turns - 1) * WRAP + n) + WRAP;
    }
  }

  lemma LowOfSum(a: nat, b: nat)
    ensures Low(a + Low(b)) == Low(a + b)
  {
    var turns := b / WRAP;
    assert a + b == turns * WRAP + (a + Low(b));
    SameLow(a + Low(b), turns);
  }

  /** Whatever the clock shows: the tick aimed at is the first of the grid after the 32-bit time elapsed since the first
      tick, in 32 bits. */
  lemma NextTickModulo(startTick: uint32, interval: uint32, done: nat, t: nat)
    requires interval > 0 && t > 0
    requires (t - 1) * interval <= Elapsed(done % WRAP, startTick) < t * interval
    ensures NextTick(startTick, interval, done) == (startTick + t * interval) % WRAP
  {
    QuotientIs(Elapsed(Low(done), startTick), interval, t);
    LowOfProduct(t, interval);
    LowOfSum(startTick, t * interval);
  }

  /** What the loop relies on of its recomputation of the next tick. */
  ghost predicate FindsNextPoint(tick: nat -> uint32, start: nat, interval: uint32)
    requires interval > 0
  {
    forall done: nat {:trigger tick(done)} :: start <= done && done + interval < WRAP ==>
      tick(done) == Point(start, interval, Cell(start, interval, done) + 1)
  }

  lemma TickFindsNextPoint(start: uint32, interval: uint32)
    requires interval > 0
    ensures FindsNextPoint(TickOf(start, interval), start, interval)
  {
    forall done: nat | start <= done && done + interval < WRAP
      ensures TickOf(start, interval)(done) == Point(start, interval, Cell(start, interval, done) + 1)
    {
      NextTickIsNextPoint(start, interval, done);
    }
  }

  // ----- No drift -----

  /** A callback whose end is still an interval short of the clock's wrap. */
  predicate BelowWrap(interval: uint32, f: Fire) {
    f.done + interval < WRAP
  }

  /** As long as the clock does not wrap, every callback starts at or after the tick it was aimed at, the tick aimed at
      next is the first of the grid after the callback's end, and successive callbacks start in ever later cells. */
  ghost predicate OnGrid(start: nat, interval: uint32, fires: seq<Fire>, from: nat)
    requires interval > 0
  {
    && (forall i :: 0 <= i < |fires| && BelowWrap(interval, fires[i]) ==>
          FireOnGrid(start, interval, fires[i]) && from <= Cell(start, interval, fires[i].wake))
    && (forall i, j :: 0 <= i < j < |fires| && BelowWrap(interval, fires[j]) ==>
          && fires[i].done <= fires[j].wake
          && Cell(start, interval, fires[i].wake) < Cell(start, interval, fires[j].wake))
  }

  ghost predicate FireOnGrid(start: nat, interval: uint32, f: Fire)
    requires interval > 0
  {
    && start <= f.wake <= f.done
    && (f.nextTick.Some? ==>
          && f.nextTick.value == Point(start, interval, Cell(start, interval, f.done) + 1)
          && f.done < f.nextTick.value <= f.done + interval)
  }

  ghost predicate NotBefore(time: nat, fires: seq<Fire>) {
    forall i :: 0 <= i < |fires| ==> time <= fires[i].wake <= fires[i].done
  }

  lemma {:induction false} FiresInOrder(tick: nat -> uint32, nextTick: uint32, time: nat, shouldPause: bool,
                                        laps: seq<Lap>)
    ensures NotBefore(time, Loop(tick, nextTick, time, shouldPause, laps).fires)
    decreases |laps|
  {
    if laps != [] {
      var lap := laps[0];
      var done := Wake(time + lap.lag, nextTick, lap.oversleep) + lap.duration;
      FiresInOrder(tick, tick(done), done, lap.asksPause, laps[1..]);
    }
  }

  /** The callback that fails is the last, and the only one after which no tick is aimed at. */
  ghost predicate OnlyFailureIsLast(o: Outcome) {
    && (o.result.Failed? ==> o.fires != [])
    && forall i :: 0 <= i < |o.fires| ==> (o.fires[i].nextTick.None? <==> o.result.Failed? && i == |o.fires| - 1)
  }

  lemma {:induction false} FailureEndsTheLoop(tick: nat -> uint32, nextTick: uint32, time: nat, shouldPause: bool,
                                              laps: seq<Lap>)
    ensures OnlyFailureIsLast(Loop(tick, nextTick, time, shouldPause, laps))
    decreases |laps|
  {
    if laps != [] {
      var lap := laps[0];
      var done := Wake(time + lap.lag, nextTick, lap.oversleep) + lap.duration;
      FailureEndsTheLoop(tick, tick(done), done, lap.asksPause, laps[1..]);
    }
  }

  lemma WakesOnGrid(tick: nat -> uint32, start: nat, interval: uint32, k: nat, wake: nat, done: nat, fails: bool)
    requires interval > 0 && FindsNextPoint(tick, start, interval)
    requires Point(start, interval, k) <= wake <= done && done + interval < WRAP
    ensures FireOnGrid(start, interval, Fire(wake, done, if fails then None else Some(tick(done))))
    ensures k <= Cell(start, interval, wake) <= Cell(start, interval, done)
  {
    PointAfter(start, interval, done);
    CellOfPoint(start, interval, k, 0);
    CellMonotonic(start, interval, Point(start, interval, k), wake);
    CellMonotonic(start, interval, wake, done);
  }

  /** The first callback and those that follow it. */
  lemma FirstLap(tick: nat -> uint32, nextTick: uint32, time: nat, shouldPause: bool, laps: seq<Lap>)
    returns (f: Fire, rest: seq<Fire>)
    requires Loop(tick, nextTick, time, shouldPause, laps).fires != []
    ensures laps != [] && Loop(tick, nextTick, time, shouldPause, laps).fires == [f] + rest
    ensures f == Fire(Wake(time + laps[0].lag, nextTick, laps[0].oversleep), f.wake + laps[0].duration,
                      if laps[0].fails then None else Some(tick(f.done)))
    ensures rest == [] || rest == Loop(tick, tick(f.done), f.done, false, laps[1..]).fires
    ensures NotBefore(f.done, rest)
  {
    var all := Loop(tick, nextTick, time, shouldPause, laps).fires;
    f := all[0];
    rest := all[1..];
    FiresInOrder(tick, tick(f.done), f.done, laps[0].asksPause, laps[1..]);
  }

  lemma {:induction false} LoopOnGrid(tick: nat -> uint32, start: nat, interval: uint32, k: nat, nextTick: uint32,
                                      time: nat, shouldPause: bool, laps: seq<Lap>)
    requires interval > 0 && FindsNextPoint(tick, start, interval) && nextTick == Point(start, interval, k)
    ensures OnGrid(start, interval, Loop(tick, nextTick, time, shouldPause, laps).fires, k)
    decreases |laps|
  {
    if Loop(tick, nextTick, time, shouldPause, laps).fires != [] {
      var f, rest := FirstLap(tick, nextTick, time, shouldPause, laps);
      var lap := laps[0];
      if BelowWrap(interval, f) {
        WakesOnGrid(tick, start, interval, k, f.wake, f.done, lap.fails);
        LoopOnGrid(tick, start, interval, Cell(start, interval, f.done) + 1, tick(f.done), f.done, false, laps[1..]);
      }
      JoinOnGrid(start, interval, f, rest, k);
    }
  }

  lemma JoinOnGrid(start: nat, interval: uint32, f: Fire, rest: seq<Fire>, k: nat)
    requires interval > 0 && f.wake <= f.done && NotBefore(f.done, rest)
    requires BelowWrap(interval, f) ==>
               && FireOnGrid(start, interval, f)
               && k <= Cell(start, interval, f.wake) <= Cell(start, interval, f.done)
               && OnGrid(start, interval, rest, Cell(start, interval, f.done) + 1)
    ensures OnGrid(start, interval, [f] + rest, k)
  {
    var all := [f] + rest;
    assert forall i :: 0 < i < |all| ==> all[i] == rest[i - 1];
    forall i, j | 0 <= i < j < |all| && BelowWrap(interval, all[j])
      ensures all[i].done <= all[j].wake && Cell(start, interval, all[i].wake) < Cell(start, interval, all[j].wake)
    {
      assert all[j] == rest[j - 1];
    }
  }

  /** Started below the wrap, the loop first aims an interval ahead, and finds the next point after each callback. */
  lemma StartsOnGrid(interval: uint32, time: nat, shouldPause: bool, laps: seq<Lap>) returns (tick: nat -> uint32)
    requires interval > 0 && time + interval < WRAP
    ensures FindsNextPoint(tick, time + interval, interval)
    ensures StartLoop(interval, time, shouldPause, laps) == Loop(tick, time + interval, time, shouldPause, laps)
  {
    var start := time + interval;
    FirstTickIsAhead(interval, time);
    tick := TickOf(start, interval);
    TickFindsNextPoint(start, interval);
  }

  lemma FirstTickIsAhead(interval: uint32, time: nat)
    requires time + interval < WRAP
    ensures FirstTick(interval, time) == time + interval
  {
    LowOfSmall(time);
    LowOfSmall(time + interval);
  }

  /** Whatever the laps, with no wrap: the phase never drifts, missed ticks are skipped, and no two callbacks share a
      cell of the grid anchored one interval after the start. */
  lemma NoDrift(interval: uint32, time: nat, shouldPause: bool, laps: seq<Lap>)
    requires interval > 0 && time + interval < WRAP
    ensures OnGrid(time + interval, interval, StartLoop(interval, time, shouldPause, laps).fires, 0)
  {
    var tick := StartsOnGrid(interval, time, shouldPause, laps);
    LoopOnGrid(tick, time + interval, interval, 0, time + interval, time, shouldPause, laps);
  }

  /** The callbacks start on the ticks from the k-th on, one after another. */
  ghost predicate OnTicks(start: nat, interval: uint32, fires: seq<Fire>, k: nat) {
    forall i :: 0 <= i < |fires| && BelowWrap(interval, fires[i]) ==> fires[i].wake == Point(start, interval, k + i)
  }

  ghost predicate Exact(interval: uint32, laps: seq<Lap>) {
    forall lap :: lap in laps ==> lap.lag == 0 && lap.oversleep == 0 && lap.duration < interval
  }

  /** A lap of that kind wakes on its tick and aims for the one after. */
  lemma ExactLap(tick: nat -> uint32, start: nat, interval: uint32, k: nat, time: nat, duration: nat, done: nat)
    requires interval > 0 && FindsNextPoint(tick, start, interval) && duration < interval
    requires time <= Point(start, interval, k) < WRAP && done + interval < WRAP
    requires done == Wake(time, Point(start, interval, k), 0) + duration
    ensures done - duration == Point(start, interval, k)
    ensures tick(done) == Point(start, interval, k + 1) && done <= tick(done)
  {
    LowOfSmall(time);
    CellOfPoint(start, interval, k, duration);
  }

  lemma ExactTail(interval: uint32, laps: seq<Lap>)
    requires Exact(interval, laps) && laps != []
    ensures Exact(interval, laps[1..]) && laps[0].lag == 0 && laps[0].oversleep == 0 && laps[0].duration < interval
  {
    assert laps[0] in laps;
  }

  lemma {:induction false} ExactLoop(tick: nat -> uint32, start: nat, interval: uint32, k: nat, nextTick: uint32,
                                     time: nat, laps: seq<Lap>)
    requires interval > 0 && FindsNextPoint(tick, start, interval) && Exact(interval, laps)
    requires nextTick == Point(start, interval, k) && time <= nextTick
    ensures OnTicks(start, interval, Loop(tick, nextTick, time, false, laps).fires, k)
    decreases |laps|
  {
    if Loop(tick, nextTick, time, false, laps).fires != [] {
      var f, rest, next := ExactFirst(tick, start, interval, k, nextTick, time, laps);
      if rest != [] && BelowWrap(interval, f) {
        ExactLoop(tick, start, interval, k + 1, next, f.done, laps[1..]);
      }
      JoinOnTicks(start, interval, f, rest, k);
    }
  }

  /** The first callback, on its tick, and those that follow, of which the first aims for the tick after. */
  lemma ExactFirst(tick: nat -> uint32, start: nat, interval: uint32, k: nat, nextTick: uint32, time: nat,
                   laps: seq<Lap>)
    returns (f: Fire, rest: seq<Fire>, next: uint32)
    requires interval > 0 && FindsNextPoint(tick, start, interval) && Exact(interval, laps)
    requires nextTick == Point(start, interval, k) && time <= nextTick
    requires Loop(tick, nextTick, time, false, laps).fires != []
    ensures laps != [] && Exact(interval, laps[1..])
    ensures Loop(tick, nextTick, time, false, laps).fires == [f] + rest && NotBefore(f.done, rest)
    ensures rest == [] || rest == Loop(tick, next, f.done, false, laps[1..]).fires
    ensures BelowWrap(interval, f) ==>
              && f.wake == Point(start, interval, k)
              && next == Point(start, interval, k + 1) && f.done <= next
  {
    f, rest := FirstLap(tick, nextTick, time, false, laps);
    next := tick(f.done);
    ExactTail(interval, laps);
    if BelowWrap(interval, f) {
      ExactLap(tick, start, interval, k, time, laps[0].duration, f.done);
    }
  }

  lemma JoinOnTicks(start: nat, interval: uint32, f: Fire, rest: seq<Fire>, k: nat)
    requires NotBefore(f.done, rest)
    requires BelowWrap(interval, f) ==> f.wake == Point(start, interval, k) && OnTicks(start, interval, rest, k + 1)
    ensures OnTicks(start, interval, [f] + rest, k)
  {
    var all := [f] + rest;
    forall i | 0 < i < |all| && BelowWrap(interval, all[i]) ensures all[i].wake == Point(start, interval, k + i) {
      assert all[i] == rest[i - 1];
      assert (k + 1) + (i - 1) == k + i;
    }
  }

  /** With exact sleeps, no delay at the top of the loop and callbacks shorter than the interval, the k-th callback
      starts exactly on the k-th tick. */
  lemma ExactTicks(interval: uint32, time: nat, laps: seq<Lap>)
    requires interval > 0 && time + interval < WRAP && Exact(interval, laps)
    ensures OnTicks(time + interval, interval, StartLoop(interval, time, false, laps).fires, 0)
  {
    var tick := StartsOnGrid(interval, time, false, laps);
    ExactLoop(tick, time + interval, interval, 0, time + interval, time, laps);
  }

  // ----- Where the promises end -----

  /** The first callback waits for its tick exactly when that tick is below the clock's wrap; otherwise the raw
      comparison finds it in the past and the callback is made at once. */
  lemma FirstTickIsAwaitedIff(interval: uint32, time: nat, lap: Lap)
    requires interval > 0 && time < WRAP
    requires !lap.pausedBefore && !lap.pausedAsleep && lap.lag == 0 && lap.oversleep == 0
    ensures var fires := StartLoop(interval, time, false, [lap]).fires;
            && |fires| == 1 && (fires[0].wake == time + interval <==> time + interval < WRAP)
            && (time + interval >= WRAP ==> fires[0].wake == time)
  {
    var startTick := FirstTick(interval, time);
    FirstWake(interval, time);
    OneLap(TickOf(startTick, interval), startTick, time, lap);
  }

  lemma FirstWake(interval: uint32, time: nat)
    requires time < WRAP
    ensures Wake(time, FirstTick(interval, time), 0) == if time + interval < WRAP then time + interval else time
  {
    FirstTickWraps(interval, time);
    LowOfSmall(time);
  }

  lemma FirstTickWraps(interval: uint32, time: nat)
    requires time < WRAP
    ensures FirstTick(interval, time) == if time + interval < WRAP then time + interval else time + interval - WRAP
  {
  }

  lemma OneLap(tick: nat -> uint32, nextTick: uint32, time: nat, lap: Lap)
    requires !lap.pausedBefore && !lap.pausedAsleep
    ensures var fires := Loop(tick, nextTick, time, false, [lap]).fires;
            |fires| == 1 && fires[0].wake == Wake(time + lap.lag, nextTick, lap.oversleep)
  {
    assert [lap][1..] == [];
  }

  /** A pause called while the callback runs is overwritten by the callback's own answer and has no effect. */
  lemma {:induction false} PauseInCallbackIsLost(tick: nat -> uint32, nextTick: uint32, time: nat, shouldPause: bool,
                                                 laps: seq<Lap>, i: nat)
    requires i < |laps| && !laps[i].fails
    ensures Loop(tick, nextTick, time, shouldPause, laps[i := laps[i].(pausedInCallback := true)])
         == Loop(tick, nextTick, time, shouldPause, laps)
    decreases |laps|
  {
    var changed := laps[i := laps[i].(pausedInCallback := true)];
    var lap := laps[0];
    var done := Wake(time + lap.lag, nextTick, lap.oversleep) + lap.duration;
    if i == 0 {
      assert changed[1..] == laps[1..];
    } else {
      assert changed[1..] == laps[1..][i - 1 := laps[i].(pausedInCallback := true)];
      PauseInCallbackIsLost(tick, tick(done), done, lap.asksPause, laps[1..], i - 1);
    }
  }

  /** The lap's callback is made, does not fail and does not ask for a pause, and nobody pauses the lap before it. */
  predicate Completes(lap: Lap) {
    !lap.pausedBefore && !lap.pausedAsleep && !lap.fails && !lap.asksPause
  }

  /** The loop comes to the top of lap `i` with the flag unset. */
  ghost predicate Reaches(shouldPause: bool, laps: seq<Lap>, i: nat) {
    i < |laps| && !shouldPause && forall k :: 0 <= k < i ==> Completes(laps[k])
  }

  /** The same lap with nobody calling pause. */
  function Unpaused(lap: Lap): Lap {
    lap.(pausedBefore := false, pausedAsleep := false, pausedInCallback := false)
  }

  predicate PausedInTime(lap: Lap) {
    lap.pausedBefore || lap.pausedAsleep
  }

  /** What a pause in lap `i` can do: nothing, or end the loop there. */
  ghost predicate HonouredIff(lap: Lap, i: nat, o: Outcome, quiet: Outcome) {
    && (o != quiet <==> PausedInTime(lap) || (lap.pausedInCallback && lap.fails))
    && (o != quiet ==> o.result == (if PausedInTime(lap) then Paused else Failed) && o.shouldPause
                       && |o.fires| == (if PausedInTime(lap) then i else i + 1))
    && (o == quiet ==> |o.fires| > i)
  }

  lemma FirstLapPaused(tick: nat -> uint32, nextTick: uint32, time: nat, laps: seq<Lap>)
    requires laps != []
    ensures HonouredIff(laps[0], 0, Loop(tick, nextTick, time, false, laps),
                        Loop(tick, nextTick, time, false, [Unpaused(laps[0])] + laps[1..]))
  {
    assert ([Unpaused(laps[0])] + laps[1..])[1..] == laps[1..];
  }

  /** A lap that completes is followed by the loop from the top. */
  lemma LapCompletes(tick: nat -> uint32, nextTick: uint32, time: nat, lap: Lap, more: seq<Lap>)
    returns (f: Fire, next: uint32, done: nat)
    requires Completes(lap)
    ensures f == Fire(Wake(time + lap.lag, nextTick, lap.oversleep), done, Some(next))
    ensures done == f.wake + lap.duration && next == tick(done)
    ensures Loop(tick, nextTick, time, false, [lap] + more) == Prefixed([f], Loop(tick, next, done, false, more))
  {
    done := Wake(time + lap.lag, nextTick, lap.oversleep) + lap.duration;
    next := tick(done);
    f := Fire(done - lap.duration, done, Some(next));
    assert ([lap] + more)[1..] == more;
  }

  lemma HonouredLater(tick: nat -> uint32, nextTick: uint32, time: nat, first: Lap, more: seq<Lap>, quiet: seq<Lap>,
                      lap: Lap, i: nat)
    requires Completes(first)
    requires var done := Wake(time + first.lag, nextTick, first.oversleep) + first.duration;
             HonouredIff(lap, i, Loop(tick, tick(done), done, false, more), Loop(tick, tick(done), done, false, quiet))
    ensures HonouredIff(lap, i + 1, Loop(tick, nextTick, time, false, [first] + more),
                        Loop(tick, nextTick, time, false, [first] + quiet))
  {
    var f, next, done := LapCompletes(tick, nextTick, time, first, more);
    var f', next', done' := LapCompletes(tick, nextTick, time, first, quiet);
    PrefixedHonoured(f, lap, i, Loop(tick, next, done, false, more), Loop(tick, next, done, false, quiet));
  }

  lemma PrefixedHonoured(f: Fire, lap: Lap, i: nat, o: Outcome, quiet: Outcome)
    requires HonouredIff(lap, i, o, quiet)
    ensures HonouredIff(lap, i + 1, Prefixed([f], o), Prefixed([f], quiet))
  {
    assert ([f] + o.fires)[1..] == o.fires && ([f] + quiet.fires)[1..] == quiet.fires;
  }

  /** The same laps with nobody calling pause in the i-th. */
  function Quiet(laps: seq<Lap>, i: nat): (quiet: seq<Lap>)
    requires i < |laps|
    ensures quiet == laps[i := Unpaused(laps[i])]
    decreases i
  {
    if i == 0 then [Unpaused(laps[0])] + laps[1..] else [laps[0]] + Quiet(laps[1..], i - 1)
  }

  lemma {:induction false} PauseInLoop(tick: nat -> uint32, nextTick: uint32, time: nat, laps: seq<Lap>, i: nat)
    requires Reaches(false, laps, i)
    ensures HonouredIff(laps[i], i, Loop(tick, nextTick, time, false, laps),
                        Loop(tick, nextTick, time, false, Quiet(laps, i)))
    decreases i
  {
    if i == 0 {
      FirstLapPaused(tick, nextTick, time, laps);
    } else {
      var first, more := laps[0], laps[1..];
      var done := Wake(time + first.lag, nextTick, first.oversleep) + first.duration;
      LaterIsReached(laps, i);
      PauseInLoop(tick, tick(done), done, more, i - 1);
      HonouredLater(tick, nextTick, time, first, more, Quiet(more, i - 1), laps[i], i - 1);
      assert laps == [first] + more;
    }
  }

  lemma LaterIsReached(laps: seq<Lap>, i: nat)
    requires i > 0 && Reaches(false, laps, i)
    ensures Completes(laps[0]) && Reaches(false, laps[1..], i - 1) && laps[1..][i - 1] == laps[i]
  {
    assert forall k :: 0 <= k < i - 1 ==> laps[1..][k] == laps[k + 1];
  }

  /** A pause called in a lap that is reached makes a difference if and only if it falls before the lap's callback, or
      the callback fails. Then the loop ends in this lap, no callback follows, and the flag stays set, so that a later
      start makes no callback at all; otherwise the lap's callback is made, and all goes on as if nobody had called. */
  lemma PauseIsHonouredIff(interval: uint32, time: nat, laps: seq<Lap>, i: nat, later: nat, more: seq<Lap>)
    requires interval > 0 && Reaches(false, laps, i)
    ensures var lap := laps[i];
            var o := StartLoop(interval, time, false, laps);
            var quiet := StartLoop(interval, time, false, Quiet(laps, i));
            && (o != quiet <==> PausedInTime(lap) || (lap.pausedInCallback && lap.fails))
            && (o != quiet ==> o.result == (if PausedInTime(lap) then Paused else Failed) && o.shouldPause
                               && |o.fires| == (if PausedInTime(lap) then i else i + 1)
                               && StartLoop(interval, later, o.shouldPause, more).fires == [])
            && (o == quiet ==> |o.fires| > i)
  {
    var start := FirstTick(interval, time);
    PauseInLoop(TickOf(start, interval), start, time, laps, i);
  }

  // ----- How a start ends -----

  /** A lap that is reached and does not complete ends the loop: before its callback if it is paused in time; else behind
      its callback, with the error if that failed, and at the next look at the flag if it asked for a pause. */
  ghost predicate EndsIn(lap: Lap, i: nat, last: bool, o: Outcome) {
    && (PausedInTime(lap) ==> o.result.Paused? && o.shouldPause && |o.fires| == i)
    && (!PausedInTime(lap) ==> |o.fires| == i + 1)
    && (!PausedInTime(lap) && lap.fails ==> o.result.Failed? && o.shouldPause == lap.pausedInCallback)
    && (!PausedInTime(lap) && !lap.fails ==> o.shouldPause && o.result == if last then Running else Paused)
  }

  lemma EndsLater(f: Fire, lap: Lap, i: nat, last: bool, o: Outcome)
    requires EndsIn(lap, i, last, o)
    ensures EndsIn(lap, i + 1, last, Prefixed([f], o))
  {
  }

  lemma EndsAtOnce(tick: nat -> uint32, nextTick: uint32, time: nat, laps: seq<Lap>)
    requires laps != [] && !Completes(laps[0])
    ensures EndsIn(laps[0], 0, |laps| == 1, Loop(tick, nextTick, time, false, laps))
  {
    var lap := laps[0];
    if !PausedInTime(lap) && !lap.fails {
      var done := Wake(time + lap.lag, nextTick, lap.oversleep) + lap.duration;
      assert Loop(tick, tick(done), done, true, laps[1..]).fires == [];
    }
  }

  lemma {:induction false} LoopEndsIn(tick: nat -> uint32, nextTick: uint32, time: nat, laps: seq<Lap>, i: nat)
    requires Reaches(false, laps, i) && !Completes(laps[i])
    ensures EndsIn(laps[i], i, i == |laps| - 1, Loop(tick, nextTick, time, false, laps))
    decreases i
  {
    if i == 0 {
      EndsAtOnce(tick, nextTick, time, laps);
    } else {
      LaterIsReached(laps, i);
      var f, next, done := LapCompletes(tick, nextTick, time, laps[0], laps[1..]);
      assert laps == [laps[0]] + laps[1..];
      LoopEndsIn(tick, next, done, laps[1..], i - 1);
      EndsLater(f, laps[i], i - 1, i == |laps| - 1, Loop(tick, next, done, false, laps[1..]));
    }
  }

  lemma {:induction false} LoopGoesOn(tick: nat -> uint32, nextTick: uint32, time: nat, laps: seq<Lap>)
    requires forall k :: 0 <= k < |laps| ==> Completes(laps[k])
    ensures var o := Loop(tick, nextTick, time, false, laps);
            o.result.Running? && !o.shouldPause && |o.fires| == |laps|
    decreases |laps|
  {
    if laps != [] {
      var f, next, done := LapCompletes(tick, nextTick, time, laps[0], laps[1..]);
      assert laps == [laps[0]] + laps[1..];
      LoopGoesOn(tick, next, done, laps[1..]);
    }
  }

  /** A start makes one callback for each lap until a lap does not complete, and ends as that lap says; if all complete
      it is still running. */
  lemma StartEndsIn(interval: uint32, time: nat, laps: seq<Lap>, i: nat)
    requires interval > 0 && i <= |laps| && forall k :: 0 <= k < i ==> Completes(laps[k])
    ensures var o := StartLoop(interval, time, false, laps);
            && (i < |laps| && !Completes(laps[i]) ==> EndsIn(laps[i], i, i == |laps| - 1, o))
            && (i == |laps| ==> o.result.Running? && !o.shouldPause && |o.fires| == i)
  {
    var start := FirstTick(interval, time);
    if i == |laps| {
      LoopGoesOn(TickOf(start, interval), start, time, laps);
    } else if !Completes(laps[i]) {
      LoopEndsIn(TickOf(start, interval), start, time, laps, i);
    }
  }

  // ----- When the callbacks are made -----

  /** The callback of this lap is made at the next instant at which the 32-bit clock shows the tick aimed at, or at once
      if it shows that tick or a later one when it is read. */
  ghost predicate FireTimed(f: Fire, lap: Lap, aim: uint32, from: nat) {
    var now, awake := from + lap.lag, f.wake - lap.oversleep;
    && f.done == f.wake + lap.duration
    && (now % WRAP >= aim ==> awake == now)
    && (now % WRAP < aim ==> now < awake < now + WRAP && awake % WRAP == aim)
    && (now < WRAP ==> awake == if now < aim then aim else now)
  }

  /** Each lap starts from the end of the callback before, and aims at the tick that was found then. */
  ghost predicate Timed(fires: seq<Fire>, laps: seq<Lap>, aim: uint32, time: nat) {
    && |fires| <= |laps|
    && (fires != [] ==> FireTimed(fires[0], laps[0], aim, time))
    && forall i :: 0 <= i < |fires| - 1 ==> Follows(fires[i], fires[i + 1], laps[i + 1])
  }

  ghost predicate Follows(f: Fire, next: Fire, lap: Lap) {
    f.nextTick.Some? && FireTimed(next, lap, f.nextTick.value, f.done)
  }

  lemma WakeIsTimed(lap: Lap, aim: uint32, from: nat, f: Fire)
    requires f.wake == Wake(from + lap.lag, aim, lap.oversleep) && f.done == f.wake + lap.duration
    ensures FireTimed(f, lap, aim, from)
  {
    var now := from + lap.lag;
    if now % WRAP < aim {
      var turns := now / WRAP;
      assert now + (aim - now % WRAP) == turns * WRAP + aim;
    }
  }

  lemma JoinTimed(f: Fire, rest: seq<Fire>, laps: seq<Lap>, aim: uint32, time: nat)
    requires laps != [] && FireTimed(f, laps[0], aim, time)
    requires rest != [] ==> f.nextTick.Some? && Timed(rest, laps[1..], f.nextTick.value, f.done)
    ensures Timed([f] + rest, laps, aim, time)
  {
    var all := [f] + rest;
    forall i | 0 <= i < |all| - 1 ensures Follows(all[i], all[i + 1], laps[i + 1]) {
      assert all[i + 1] == rest[i] && laps[i + 1] == laps[1..][i];
      if i > 0 {
        assert all[i] == rest[i - 1] && Follows(rest[i - 1], rest[i - 1 + 1], laps[1..][i - 1 + 1]);
      } else {
        assert Follows(f, rest[0], laps[1..][0]);
      }
    }
  }

  lemma {:induction false} LoopIsTimed(tick: nat -> uint32, nextTick: uint32, time: nat, shouldPause: bool,
                                       laps: seq<Lap>)
    ensures Timed(Loop(tick, nextTick, time, shouldPause, laps).fires, laps, nextTick, time)
    decreases |laps|
  {
    if Loop(tick, nextTick, time, shouldPause, laps).fires != [] {
      var f, rest := FirstLap(tick, nextTick, time, shouldPause, laps);
      WakeIsTimed(laps[0], nextTick, time, f);
      if rest != [] {
        LoopIsTimed(tick, tick(f.done), f.done, false, laps[1..]);
      }
      JoinTimed(f, rest, laps, nextTick, time);
    }
  }

  /** When the callbacks of a start are made, whatever the clock shows. */
  lemma StartIsTimed(interval: uint32, time: nat, shouldPause: bool, laps: seq<Lap>)
    requires interval > 0
    ensures Timed(StartLoop(interval, time, shouldPause, laps).fires, laps, (time + interval) % WRAP, time)
  {
    var start := FirstTick(interval, time);
    FirstTickIsSum(interval, time);
    LoopIsTimed(TickOf(start, interval), start, time, shouldPause, laps);
  }

  lemma FirstTickIsSum(interval: uint32, time: nat)
    ensures FirstTick(interval, time) == (time + interval) % WRAP
  {
    var turns := time / WRAP;
    assert time + interval == turns * WRAP + (Low(time) + interval);
  }

  // ----- The object -----

  class IntervalScheduled {
    var intervalMilliseconds: uint32
    var shouldPause: bool

    constructor (interval: uint32)
      ensures intervalMilliseconds == interval && !shouldPause
    {
      intervalMilliseconds := interval;
      shouldPause := false;
    }

    method Pause()
      modifies this
      ensures shouldPause && intervalMilliseconds == old(intervalMilliseconds)
    {
      shouldPause := true;
    }

    /** The loop as written, started at a real time and followed through `laps`. */
    method Start(time: nat, laps: seq<Lap>) returns (fires: seq<Fire>, result: Result)
      requires intervalMilliseconds > 0
      modifies `shouldPause
      ensures Outcome(fires, result, shouldPause) == StartLoop(intervalMilliseconds, time, old(shouldPause), laps)
    {
      var interval := intervalMilliseconds;
      var clock: nat := time;
      var startTick := FirstTick(interval, clock);
      var nextTick := startTick;
      ghost var tick := TickOf(startTick, interval);
      ghost var whole := Loop(tick, nextTick, clock, shouldPause, laps);
      fires, result := [], Running;
      var k := 0;
      while k < |laps| && result.Running?
        invariant k <= |laps|
        invariant whole == if result.Running? then Prefixed(fires, Loop(tick, nextTick, clock, shouldPause, laps[k..]))
                           else Outcome(fires, result, shouldPause)
      {
        ghost var rest := laps[k..];
        assert rest[0] == laps[k] && rest[1..] == laps[k + 1..];
        fires, result, clock, nextTick := RunLap(startTick, laps[k], fires, clock, nextTick, tick, rest, whole);
        k := k + 1;
      }
    }

    /** One turn of the loop: it ends in the callback's time, or the loop ends in it. */
    method RunLap(startTick: uint32, lap: Lap, before: seq<Fire>, time: nat, aim: uint32,
                  ghost tick: nat -> uint32, ghost laps: seq<Lap>, ghost whole: Outcome)
      returns (fires: seq<Fire>, result: Result, clock: nat, nextTick: uint32)
      requires intervalMilliseconds > 0 && tick == TickOf(startTick, intervalMilliseconds)
      requires laps != [] && laps[0] == lap && whole == Prefixed(before, Loop(tick, aim, time, shouldPause, laps))
      modifies `shouldPause
      ensures whole == if result.Running? then Prefixed(fires, Loop(tick, nextTick, clock, shouldPause, laps[1..]))
                       else Outcome(fires, result, shouldPause)
    {
      fires, result, clock, nextTick := before, Running, time, aim;
      shouldPause := shouldPause || lap.pausedBefore;
      if shouldPause {
        result := Paused;
        return;
      }
      clock := clock + lap.lag;
      var now := Low(clock);
      if now < nextTick {
        clock := clock + (nextTick - now);
      }
      clock := clock + lap.oversleep;
      shouldPause := lap.pausedAsleep;
      if shouldPause {
        result := Paused;
        return;
      }
      var wake := clock;
      clock := clock + lap.duration;
      shouldPause := lap.pausedInCallback;
      if lap.fails {
        fires, result := before + [Fire(wake, clock, None)], Failed;
        return;
      }
      shouldPause := lap.asksPause;
      nextTick := NextTick(startTick, intervalMilliseconds, clock);
      fires := before + [Fire(wake, clock, Some(nextTick))];
      LapDone(tick, aim, time, laps, before, wake, clock);
    }
  }

  lemma LapDone(tick: nat -> uint32, aim: uint32, time: nat, laps: seq<Lap>, before: seq<Fire>, wake: nat, done: nat)
    requires laps != []
    requires !laps[0].pausedBefore && !laps[0].pausedAsleep && !laps[0].fails
    requires wake == Wake(time + laps[0].lag, aim, laps[0].oversleep) && done == wake + laps[0].duration
    ensures Prefixed(before, Loop(tick, aim, time, false, laps)) ==
            Prefixed(before + [Fire(wake, done, Some(tick(done)))],
                     Loop(tick, tick(done), done, laps[0].asksPause, laps[1..]))
  {
    var rest := Loop(tick, tick(done), done, laps[0].asksPause, laps[1..]).fires;
    var f := Fire(wake, done, Some(tick(done)));
    assert before + ([f] + rest) == before + [f] + rest;
  }
}
