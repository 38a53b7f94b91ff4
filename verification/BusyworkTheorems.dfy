/** What holds of every run of the busy workers: nobody starves, a stop is prompt, and what a stop leaves behind. */
module BusyworkTheorems {
  import opened Bytes
  import opened BusyworkSpec

  // ----- One worker, whatever the others do -----

  /** A slot once taken stays taken; only its own steps move a worker, and a stop is not taken back. */
  lemma WorkerAfterStep(s: Sys, tick: Tick, i: nat)
    requires i < |s.slots| && s.slots[i].Some?
    ensures i < |Step(s, tick).slots| && Step(s, tick).slots[i].Some?
    ensures var w, w' := s.slots[i].value, Step(s, tick).slots[i].value;
            && (w.stop ==> w'.stop) && (w.triggered ==> w'.triggered)
            && (if tick == WorkerTick(i) then w' == WorkerStep(w, s.tokens).0
                else w'.phase == w.phase && w'.triggered == w.triggered)
  {
  }

  lemma {:induction false} WorkerStays(s: Sys, schedule: seq<Tick>, i: nat)
    requires i < |s.slots| && s.slots[i].Some?
    ensures var t := Execute(s, schedule);
            && i < |t.slots| && t.slots[i].Some?
            && (s.slots[i].value.stop ==> t.slots[i].value.stop)
            && (s.slots[i].value.triggered ==> t.slots[i].value.triggered)
    decreases |schedule|
  {
    if schedule != [] {
      WorkerAfterStep(s, schedule[0], i);
      WorkerStays(Step(s, schedule[0]), schedule[1..], i);
    }
  }

  // ----- Stop -----

  /** How many of its own steps a worker that has been told to stop still takes. */
  function StepsToExit(phase: Phase): (n: nat)
    ensures n <= 2
  {
    match phase
    case Exited => 0
    case PollingToWait => 1
    case PollingWhileBusy => 1
    case _ => 2
  }

  /** From any phase a worker that has been told to stop is gone after two steps of its own, whatever else happens. */
  lemma {:induction false} StopIsPrompt(s: Sys, schedule: seq<Tick>, i: nat)
    requires i < |s.slots| && s.slots[i].Some? && s.slots[i].value.stop
    requires Ticks(schedule, i) >= StepsToExit(s.slots[i].value.phase)
    ensures var t := Execute(s, schedule); i < |t.slots| && t.slots[i].Some? && t.slots[i].value.phase.Exited?
    decreases |schedule|
  {
    if schedule != [] {
      WorkerAfterStep(s, schedule[0], i);
      StopIsPrompt(Step(s, schedule[0]), schedule[1..], i);
    }
  }

  // ----- Nobody starves -----

  /** There have been at least as many posts as there are workers, and no worker is to be added. */
  ghost predicate Supplied(s: Sys) {
    Inv(s) && s.posts >= Occupied(s.slots) && forall k :: 0 <= k < |s.todo| ==> !s.todo[k].AddWorker?
  }

  lemma StaysSupplied(s: Sys, tick: Tick)
    requires Supplied(s)
    ensures Supplied(Step(s, tick))
  {
    StepKeepsInv(s, tick);
    match tick
    case WorkerTick(i) =>
      if i < |s.slots| && s.slots[i].Some? {
        CountsAfterUpdate(s.slots, i, Some(WorkerStep(s.slots[i].value, s.tokens).0));
      }
    case ManagerTick(_) =>
      if s.pc.Signalling? && 0 < s.pc.left <= |s.slots| && s.slots[s.pc.left - 1].Some? {
        CountsAfterUpdate(s.slots, s.pc.left - 1, Some(s.slots[s.pc.left - 1].value.(stop := true)));
      }
  }

  function StepsToTrigger(phase: Phase): (n: nat)
    ensures n <= 3
  {
    match phase
    case Readying => 3
    case PollingToWait => 2
    case WaitingForTrigger => 1
    case _ => 0
  }

  /** After three steps of its own, whatever the others do and take, a worker has been triggered or told to stop. */
  lemma {:induction false} NobodyStarves(s: Sys, schedule: seq<Tick>, i: nat)
    requires Supplied(s) && i < |s.slots| && s.slots[i].Some?
    requires Ticks(schedule, i) >= StepsToTrigger(s.slots[i].value.phase)
    ensures var t := Execute(s, schedule);
            && i < |t.slots| && t.slots[i].Some?
            && (t.slots[i].value.triggered || t.slots[i].value.stop)
    decreases |schedule|
  {
    var w := s.slots[i].value;
    if w.triggered || w.stop {
      WorkerStays(s, schedule, i);
    } else if schedule != [] {
      OneIsNotTriggered(s.slots, i);
      WorkerAfterStep(s, schedule[0], i);
      StaysSupplied(s, schedule[0]);
      NobodyStarves(Step(s, schedule[0]), schedule[1..], i);
    }
  }

  /** A triggered worker spins at every second step of its own for as long as it has not been told to stop. */
  lemma {:induction false} SpinsUntilTold(s: Sys, schedule: seq<Tick>, i: nat)
    requires i < |s.slots| && s.slots[i].Some?
    requires s.slots[i].value.phase.PollingWhileBusy? || s.slots[i].value.phase.Spinning?
    ensures var t := Execute(s, schedule);
            && i < |t.slots| && t.slots[i].Some?
            && (!t.slots[i].value.stop ==>
                  && (t.slots[i].value.phase == s.slots[i].value.phase <==> Ticks(schedule, i) % 2 == 0)
                  && (t.slots[i].value.phase.PollingWhileBusy? || t.slots[i].value.phase.Spinning?))
    decreases |schedule|
  {
    if schedule != [] {
      var s1 := Step(s, schedule[0]);
      WorkerAfterStep(s, schedule[0], i);
      WorkerStays(s1, schedule[1..], i);
      if !s1.slots[i].value.stop {
        SpinsUntilTold(s1, schedule[1..], i);
      }
    }
  }

  // ----- A whole life: k workers added, started once, stopped -----

  function Life(adds: nat): seq<Command> {
    if adds == 0 then [Start, Stop] else [AddWorker] + Life(adds - 1)
  }

  lemma {:induction false} LifeLength(adds: nat)
    ensures |Life(adds)| == adds + 2
  {
    if adds > 0 {
      LifeLength(adds - 1);
    }
  }

  /** The first k slots are in use, those from `from` on told to stop. */
  ghost predicate Layout(slots: seq<Slot>, k: nat, from: nat) {
    && k <= |slots| == MAX_WORKERS
    && (forall i :: 0 <= i < |slots| ==> (slots[i].Some? <==> i < k))
    && (forall i :: 0 <= i < |slots| && slots[i].Some? ==> (slots[i].value.stop <==> i >= from))
  }

  function Min(a: nat, b: nat): nat {
    if a < b then a else b
  }

  /** Where the manager is in this life, and what it has posted by then. */
  ghost predicate Orderly(s: Sys, k: nat) {
    match s.pc
    case Resting =>
      if |s.todo| >= 2
      then |s.todo| <= k + 2 <= MAX_WORKERS + 2 && s.todo == Life(|s.todo| - 2) && s.posts == 0
           && Layout(s.slots, k + 2 - |s.todo|, MAX_WORKERS)
      else if |s.todo| == 1 then s.todo == [Stop] && s.posts == k && Layout(s.slots, k, MAX_WORKERS)
      else s.posts == k + k && Layout(s.slots, k, 0)
    case Posting(i) =>
      s.todo == [Start, Stop] && i <= MAX_WORKERS && s.posts == Min(i, k) && Layout(s.slots, k, MAX_WORKERS)
    case Signalling(left, flagged) =>
      && s.todo == [Stop] && left <= MAX_WORKERS && s.posts == k + (k - Min(left, k))
      && (flagged ==> 0 < left <= k) && Layout(s.slots, k, if flagged then left - 1 else left)
    case Joining(left) => s.todo == [Stop] && s.posts == k + k && Layout(s.slots, k, 0)
  }

  lemma {:induction false} FreeSlotIs(slots: seq<Slot>, used: nat)
    requires used < |slots| && forall i :: 0 <= i < |slots| ==> (slots[i].Some? <==> i < used)
    ensures FreeSlot(slots) == used
    decreases |slots|
  {
    if used > 0 {
      FreeSlotIs(slots[1..], used - 1);
    }
  }

  lemma AddsBehind(slots: seq<Slot>, used: nat)
    requires used < MAX_WORKERS && Layout(slots, used, MAX_WORKERS)
    ensures Layout(WithWorker(slots), used + 1, MAX_WORKERS)
  {
    FreeSlotIs(slots, used);
  }

  lemma LayoutAfterUpdate(slots: seq<Slot>, used: nat, from: nat, to: nat, i: nat, w: Worker)
    requires Layout(slots, used, from) && i < |slots| && slots[i].Some?
    requires (to == from && w.stop == slots[i].value.stop) || (to == from - 1 == i && w.stop)
    ensures Layout(slots[i := Some(w)], used, to)
  {
    forall j | 0 <= j < |slots| && j != i ensures slots[i := Some(w)][j] == slots[j] {
    }
  }

  lemma RestingStaysOrderly(s: Sys, timeout: bool, k: nat)
    requires Orderly(s, k) && s.pc.Resting?
    ensures Orderly(ManagerStep(s, timeout), k)
  {
    if |s.todo| > 2 {
      LifeLength(|s.todo| - 3);
      assert s.todo[1..] == Life(|s.todo| - 3);
      assert s.todo[0] == AddWorker;
      AddsBehind(s.slots, k + 2 - |s.todo|);
    } else if |s.todo| == 2 {
      assert s.todo == Life(0) == [Start, Stop];
    }
  }

  lemma PostingStaysOrderly(s: Sys, timeout: bool, k: nat)
    requires Orderly(s, k) && s.pc.Posting?
    ensures Orderly(ManagerStep(s, timeout), k)
  {
  }

  lemma SignallingStaysOrderly(s: Sys, timeout: bool, k: nat)
    requires Orderly(s, k) && s.pc.Signalling?
    ensures Orderly(ManagerStep(s, timeout), k)
  {
    var left := s.pc.left;
    if left > 0 && s.slots[left - 1].Some? {
      if !s.pc.flagged {
        LayoutAfterUpdate(s.slots, k, left, left - 1, left - 1, s.slots[left - 1].value.(stop := true));
      }
    }
  }

  lemma JoiningStaysOrderly(s: Sys, timeout: bool, k: nat)
    requires Orderly(s, k) && s.pc.Joining?
    ensures Orderly(ManagerStep(s, timeout), k)
  {
  }

  lemma ManagerStaysOrderly(s: Sys, timeout: bool, k: nat)
    requires Orderly(s, k)
    ensures Orderly(ManagerStep(s, timeout), k)
  {
    match s.pc
    case Resting => RestingStaysOrderly(s, timeout, k);
    case Posting(_) => PostingStaysOrderly(s, timeout, k);
    case Signalling(_, _) => SignallingStaysOrderly(s, timeout, k);
    case Joining(_) => JoiningStaysOrderly(s, timeout, k);
  }

  lemma WorkerStaysOrderly(s: Sys, i: nat, k: nat)
    requires Orderly(s, k)
    ensures Orderly(Step(s, WorkerTick(i)), k)
  {
    if i < |s.slots| && s.slots[i].Some? {
      var w := WorkerStep(s.slots[i].value, s.tokens).0;
      forall used, from | Layout(s.slots, used, from) ensures Layout(s.slots[i := Some(w)], used, from) {
        LayoutAfterUpdate(s.slots, used, from, from, i, w);
      }
    }
  }

  lemma {:induction false} RunsAreOrderly(s: Sys, schedule: seq<Tick>, k: nat)
    requires Inv(s) && Orderly(s, k)
    ensures Inv(Execute(s, schedule)) && Orderly(Execute(s, schedule), k)
    decreases |schedule|
  {
    if schedule != [] {
      StepKeepsInv(s, schedule[0]);
      match schedule[0] {
        case WorkerTick(i) => WorkerStaysOrderly(s, i, k);
        case ManagerTick(timeout) => ManagerStaysOrderly(s, timeout, k);
      }
      RunsAreOrderly(Step(s, schedule[0]), schedule[1..], k);
    }
  }

  lemma LivesAreOrderly(k: nat, schedule: seq<Tick>)
    requires k <= MAX_WORKERS
    ensures var s := Execute(Launch(Life(k)), schedule); Inv(s) && Orderly(s, k)
  {
    LifeLength(k);
    NobodyYet(Launch(Life(k)).slots);
    RunsAreOrderly(Launch(Life(k)), schedule, k);
  }

  lemma {:induction false} FirstAreOccupied(slots: seq<Slot>, k: nat)
    requires k <= |slots| && forall i :: 0 <= i < |slots| ==> (slots[i].Some? <==> i < k)
    ensures Occupied(slots) == k
    decreases |slots|
  {
    if slots != [] {
      FirstAreOccupied(slots[1..], if k == 0 then 0 else k - 1);
    }
  }

  predicate StillWaiting(slot: Slot) {
    slot.Some? && StepsToTrigger(slot.value.phase) > 0
  }

  function Waiting(slots: seq<Slot>): nat {
    if slots == [] then 0 else (if StillWaiting(slots[0]) then 1 else 0) + Waiting(slots[1..])
  }

  lemma {:induction false} WaitingOrTriggered(slots: seq<Slot>)
    requires WorkersOk(slots) && forall i :: 0 <= i < |slots| && slots[i].Some? ==> !slots[i].value.stop
    ensures Waiting(slots) + Triggered(slots) == Occupied(slots)
  {
    if slots != [] {
      assert slots[0].Some? ==> WorkerOk(slots[0].value);
      WaitingOrTriggered(slots[1..]);
    }
  }

  /** Nobody gets busy before start is called. */
  lemma NobodyIsBusyBeforeStart(k: nat, schedule: seq<Tick>)
    requires k <= MAX_WORKERS
    ensures var s := Execute(Launch(Life(k)), schedule);
            s.pc.Resting? && |s.todo| >= 2 ==> s.tokens == Triggered(s.slots) == 0
  {
    LivesAreOrderly(k, schedule);
  }

  /** From the return of start to the call of stop the tokens left are just the workers still waiting. */
  lemma TokensLeftAreWorkersWaiting(k: nat, schedule: seq<Tick>)
    requires k <= MAX_WORKERS
    ensures var s := Execute(Launch(Life(k)), schedule);
            s.pc.Resting? && |s.todo| == 1 ==> s.tokens == Waiting(s.slots) && s.tokens + Triggered(s.slots) == k
  {
    LivesAreOrderly(k, schedule);
    var s := Execute(Launch(Life(k)), schedule);
    if s.pc.Resting? && |s.todo| == 1 {
      WaitingOrTriggered(s.slots);
      FirstAreOccupied(s.slots, k);
    }
  }

  /** Once start has returned, every worker gets busy within three steps of its own, unless it is told to stop. */
  lemma StartReachesEveryone(k: nat, before: seq<Tick>, after: seq<Tick>, i: nat)
    requires i < k <= MAX_WORKERS && Ticks(after, i) >= 3
    ensures var s := Execute(Launch(Life(k)), before);
            s.pc.Resting? && |s.todo| == 1 ==>
              var t := Execute(s, after);
              i < |t.slots| && t.slots[i].Some? && (t.slots[i].value.triggered || t.slots[i].value.stop)
  {
    LivesAreOrderly(k, before);
    var s := Execute(Launch(Life(k)), before);
    if s.pc.Resting? && |s.todo| == 1 {
      FirstAreOccupied(s.slots, k);
      NobodyStarves(s, after, i);
    }
  }

  /** When stop has returned all workers have been told, and the semaphore keeps a token for each post of stop and one for
      each worker that was never triggered. */
  lemma StopLeavesTokens(k: nat, schedule: seq<Tick>)
    requires k <= MAX_WORKERS
    ensures var s := Execute(Launch(Life(k)), schedule);
            s.pc.Resting? && s.todo == [] ==>
              && s.tokens == k + (k - Triggered(s.slots)) && Triggered(s.slots) <= k
              && forall i :: 0 <= i < k ==> i < |s.slots| && s.slots[i].Some? && s.slots[i].value.stop
  {
    LivesAreOrderly(k, schedule);
    var s := Execute(Launch(Life(k)), schedule);
    if s.pc.Resting? && s.todo == [] {
      FirstAreOccupied(s.slots, k);
      TriggeredAreOccupied(s.slots);
    }
  }

  // ----- What a stop waits for -----

  /** The step in which a join gives up on a worker that is still there. */
  predicate JoinTimesOut(s: Sys, tick: Tick) {
    && tick == ManagerTick(true) && s.pc.Joining? && 0 < s.pc.left <= |s.slots|
    && s.slots[s.pc.left - 1].Some? && !s.slots[s.pc.left - 1].value.phase.Exited?
  }

  predicate NoJoinTimesOut(s: Sys, schedule: seq<Tick>)
    decreases |schedule|
  {
    schedule == [] || (!JoinTimesOut(s, schedule[0]) && NoJoinTimesOut(Step(s, schedule[0]), schedule[1..]))
  }

  /** The workers in the slots from `from` on have exited. */
  ghost predicate Gone(slots: seq<Slot>, from: nat) {
    forall i :: from <= i < |slots| && slots[i].Some? ==> slots[i].value.phase.Exited?
  }

  /** Those already joined stay gone. */
  ghost predicate JoinedAreGone(s: Sys) {
    s.pc.Joining? ==> s.pc.left <= |s.slots| && Gone(s.slots, s.pc.left)
  }

  lemma JoinedStayGone(s: Sys, tick: Tick)
    requires JoinedAreGone(s)
    ensures JoinedAreGone(Step(s, tick))
  {
    if tick.WorkerTick? && s.pc.Joining? {
      var t := Step(s, tick);
      forall i | s.pc.left <= i < |t.slots| && t.slots[i].Some? ensures t.slots[i].value.phase.Exited? {
        assert s.slots[i].Some?;
        WorkerAfterStep(s, tick, i);
      }
    }
  }

  lemma {:induction false} JoinedStayGoneInRuns(s: Sys, schedule: seq<Tick>)
    requires JoinedAreGone(s)
    ensures JoinedAreGone(Execute(s, schedule))
    decreases |schedule|
  {
    if schedule != [] {
      JoinedStayGone(s, schedule[0]);
      JoinedStayGoneInRuns(Step(s, schedule[0]), schedule[1..]);
    }
  }

  /** The step in which a stop returns, after any commands and any interleaving: a join that times out ends it, and all
      workers have exited exactly if it was not that. */
  lemma StopWaits(commands: seq<Command>, before: seq<Tick>, tick: Tick)
    ensures var s := Execute(Launch(commands), before); var t := Step(s, tick);
            && (JoinTimesOut(s, tick) ==> t.pc.Resting?)
            && (s.pc.Joining? && t.pc.Resting? ==> (Gone(t.slots, 0) <==> !JoinTimesOut(s, tick)))
  {
    JoinedStayGoneInRuns(Launch(commands), before);
  }

  /** Without a join that timed out nobody is left once the last command has returned. */
  ghost predicate StoppedAreGone(s: Sys) {
    JoinedAreGone(s) && (s.pc.Resting? && s.todo == [] ==> Gone(s.slots, 0))
  }

  lemma StoppedStayGone(s: Sys, tick: Tick, k: nat)
    requires Orderly(s, k) && StoppedAreGone(s) && !JoinTimesOut(s, tick)
    ensures StoppedAreGone(Step(s, tick))
  {
    JoinedStayGone(s, tick);
    var t := Step(s, tick);
    if s.pc.Resting? && s.todo == [] {
      forall i | 0 <= i < |t.slots| && t.slots[i].Some? ensures t.slots[i].value.phase.Exited? {
        assert s.slots[i].Some?;
        WorkerAfterStep(s, tick, i);
      }
    }
  }

  lemma {:induction false} StoppedStayGoneInRuns(s: Sys, schedule: seq<Tick>, k: nat)
    requires Inv(s) && Orderly(s, k) && StoppedAreGone(s) && NoJoinTimesOut(s, schedule)
    ensures StoppedAreGone(Execute(s, schedule))
    decreases |schedule|
  {
    if schedule != [] {
      StoppedStayGone(s, schedule[0], k);
      assert [schedule[0]][1..] == [];
      assert Execute(s, [schedule[0]]) == Step(s, schedule[0]);
      RunsAreOrderly(s, [schedule[0]], k);
      StoppedStayGoneInRuns(Step(s, schedule[0]), schedule[1..], k);
    }
  }

  /** Once stop has returned, a worker is still there only if a join timed out. */
  lemma StopOutlastsItsWorkers(k: nat, schedule: seq<Tick>)
    requires k <= MAX_WORKERS && NoJoinTimesOut(Launch(Life(k)), schedule)
    ensures var s := Execute(Launch(Life(k)), schedule);
            s.pc.Resting? && s.todo == [] ==>
              forall i :: 0 <= i < k ==> i < |s.slots| && s.slots[i].Some? && s.slots[i].value.phase.Exited?
  {
    LivesAreOrderly(k, []);
    LivesAreOrderly(k, schedule);
    LifeLength(k);
    StoppedStayGoneInRuns(Launch(Life(k)), schedule, k);
  }

  // ----- A stop returns -----

  /** How many steps the schedule gives the manager. */
  function Moves(schedule: seq<Tick>): nat {
    if schedule == [] then 0 else (if schedule[0].ManagerTick? then 1 else 0) + Moves(schedule[1..])
  }

  predicate Done(s: Sys) {
    s.pc.Resting? && s.todo == []
  }

  /** In the joins of the last command, or past them. */
  predicate Ending(s: Sys) {
    Done(s) || (s.pc.Joining? && |s.todo| == 1 && s.pc.left <= |s.slots|)
  }

  lemma {:induction false} EndsAfterJoins(s: Sys, schedule: seq<Tick>)
    requires Ending(s)
    ensures Ending(Execute(s, schedule))
    decreases |schedule|
  {
    if schedule != [] {
      EndsAfterJoins(Step(s, schedule[0]), schedule[1..]);
    }
  }

  lemma {:induction false} JoinsEnd(s: Sys, schedule: seq<Tick>)
    requires Ending(s) && Gone(s.slots, 0) && (Done(s) || Moves(schedule) > s.pc.left)
    ensures Done(Execute(s, schedule)) && Gone(Execute(s, schedule).slots, 0)
    decreases |schedule|
  {
    if schedule != [] {
      var t := Step(s, schedule[0]);
      forall i | 0 <= i < |t.slots| && t.slots[i].Some? ensures t.slots[i].value.phase.Exited? {
        assert s.slots[i].Some?;
        WorkerAfterStep(s, schedule[0], i);
      }
      JoinsEnd(t, schedule[1..]);
    }
  }

  /** Once the workers have been told, two steps of each worker and then one of the manager for each slot and one more
      bring the stop to its end, however they interleave with others. */
  lemma StopReturns(k: nat, before: seq<Tick>, exits: seq<Tick>, joins: seq<Tick>)
    requires k <= MAX_WORKERS && Execute(Launch(Life(k)), before).pc.Joining?
    requires (forall i :: 0 <= i < k ==> Ticks(exits, i) >= 2) && Moves(joins) > MAX_WORKERS
    ensures var s := Execute(Execute(Execute(Launch(Life(k)), before), exits), joins);
            s.pc.Resting? && s.todo == [] && Gone(s.slots, 0)
  {
    LivesAreOrderly(k, before);
    var told := Execute(Launch(Life(k)), before);
    JoinedStayGoneInRuns(Launch(Life(k)), before);
    RunsAreOrderly(told, exits, k);
    EndsAfterJoins(told, exits);
    var gone := Execute(told, exits);
    forall i | 0 <= i < |gone.slots| && gone.slots[i].Some? ensures gone.slots[i].value.phase.Exited? {
      assert i < k;
      StopIsPrompt(told, exits, i);
    }
    JoinsEnd(gone, joins);
  }

  // ----- A worker added after a stop -----

  /** While no command is given, nobody is told to stop. */
  lemma {:induction false} NobodyIsStopped(s: Sys, schedule: seq<Tick>, i: nat)
    requires s.pc.Resting? && s.todo == [] && i < |s.slots| && s.slots[i].Some? && !s.slots[i].value.stop
    ensures var t := Execute(s, schedule); i < |t.slots| && t.slots[i].Some? && !t.slots[i].value.stop
    decreases |schedule|
  {
    if schedule != [] {
      NobodyIsStopped(Step(s, schedule[0]), schedule[1..], i);
    }
  }

  /** Without a token, and while no command is given, nobody is triggered. */
  lemma {:induction false} NoTokensNoTrigger(s: Sys, schedule: seq<Tick>, i: nat)
    requires Inv(s) && s.pc.Resting? && s.todo == [] && s.tokens == 0
    requires i < |s.slots| && s.slots[i].Some? && !s.slots[i].value.triggered
    ensures var t := Execute(s, schedule); i < |t.slots| && t.slots[i].Some? && !t.slots[i].value.triggered
    decreases |schedule|
  {
    if schedule != [] {
      StepKeepsInv(s, schedule[0]);
      NoTokensNoTrigger(Step(s, schedule[0]), schedule[1..], i);
    }
  }

  /** A worker added after a life of k others has ended does not wait for a start if and only if there were any: it gets
      busy within three steps of its own on what the stop has left. */
  lemma AddedAfterStopIsTriggered(k: nat, life: seq<Tick>, after: seq<Tick>)
    requires k < MAX_WORKERS && Ticks(after, k) >= 3
    ensures var s := Execute(Launch(Life(k)), life);
            s.pc.Resting? && s.todo == [] ==>
              var t := Execute(ManagerStep(s.(todo := [AddWorker]), false), after);
              k < |t.slots| && t.slots[k].Some? && (t.slots[k].value.triggered <==> k > 0)
  {
    LivesAreOrderly(k, life);
    var s := Execute(Launch(Life(k)), life);
    if s.pc.Resting? && s.todo == [] {
      var s0 := s.(todo := [AddWorker]);
      var s1 := ManagerStep(s0, false);
      ManagerStepKeepsInv(s0, false);
      FreeSlotIs(s.slots, k);
      FirstAreOccupied(s1.slots, k + 1);
      if k > 0 {
        NobodyStarves(s1, after, k);
        NobodyIsStopped(s1, after, k);
      } else {
        NoTokensNoTrigger(s1, after, k);
      }
    }
  }
}
