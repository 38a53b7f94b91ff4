/** The busy workers of dtbusywork.c, their manager and the semaphore that triggers them, one step of one of them at a
    time, in any interleaving. */
module BusyworkSpec {
  import opened Bytes

  const MAX_WORKERS := 10

  /** Where a worker is in its entry point. */
  datatype Phase = Readying | PollingToWait | WaitingForTrigger | PollingWhileBusy | Spinning | Exited

  /** `stop` is the tasker's flag; `triggered` only records that the worker has taken a token. */
  datatype Worker = Worker(phase: Phase, stop: bool, triggered: bool)

  type Slot = Option<Worker>

  const FRESH_WORKER := Worker(Readying, false, false)

  /** What the worker does next, and how many tokens that leaves. A wait that finds no token times out. */
  function WorkerStep(w: Worker, tokens: nat): (r: (Worker, nat)) {
    match w.phase
    case Readying => (w.(phase := PollingToWait), tokens)
    case PollingToWait => (w.(phase := if w.stop then Exited else WaitingForTrigger), tokens)
    case WaitingForTrigger =>
      if tokens == 0 then (w.(phase := PollingToWait), tokens)
      else (w.(phase := PollingWhileBusy, triggered := true), tokens - 1)
    case PollingWhileBusy => (w.(phase := if w.stop then Exited else Spinning), tokens)
    case Spinning => (w.(phase := PollingWhileBusy), tokens)
    case Exited => (w, tokens)
  }

  // ----- The manager -----

  datatype Command = AddWorker | Start | Stop

  /** In the loops of start and stop: the slot to look at, or, where slots are taken from the last to the first, how
      many are left; `flagged` tells the stop flag of a slot from its post. */
  datatype Pc = Resting | Posting(i: nat) | Signalling(left: nat, flagged: bool) | Joining(left: nat)

  /** `posts` only records. */
  datatype Sys = Sys(tokens: nat, slots: seq<Slot>, todo: seq<Command>, pc: Pc, posts: nat)

  function FreeSlot(slots: seq<Slot>): (i: nat)
    ensures i <= |slots| && (i < |slots| ==> slots[i].None?)
    ensures forall k :: 0 <= k < i ==> slots[k].Some?
  {
    if slots == [] || slots[0].None? then 0 else 1 + FreeSlot(slots[1..])
  }

  /** With a worker more, if there is a free slot. */
  function WithWorker(slots: seq<Slot>): seq<Slot> {
    var i := FreeSlot(slots);
    if i < |slots| then slots[i := Some(FRESH_WORKER)] else slots
  }

  function Occupied(slots: seq<Slot>): nat {
    if slots == [] then 0 else (if slots[0].Some? then 1 else 0) + Occupied(slots[1..])
  }

  function Triggered(slots: seq<Slot>): nat {
    if slots == [] then 0 else (if slots[0].Some? && slots[0].value.triggered then 1 else 0) + Triggered(slots[1..])
  }

  function Next(s: Sys): Sys {
    s.(pc := Resting, todo := if s.todo == [] then [] else s.todo[1..])
  }

  function Post(s: Sys): Sys {
    s.(tokens := s.tokens + 1, posts := s.posts + 1)
  }

  /** The manager's next step. A join waits for the worker to exit, or times out, which ends the call. */
  function ManagerStep(s: Sys, timeout: bool): Sys {
    match s.pc
    case Resting =>
      if s.todo == [] then s
      else
        (match s.todo[0]
         case AddWorker => Next(s.(slots := WithWorker(s.slots)))
         case Start => s.(pc := Posting(0))
         case Stop => s.(pc := Signalling(|s.slots|, false)))
    case Posting(i) =>
      if i >= |s.slots| then Next(s)
      else (if s.slots[i].Some? then Post(s) else s).(pc := Posting(i + 1))
    case Signalling(left, flagged) =>
      if left == 0 || left > |s.slots| then s.(pc := Joining(|s.slots|))
      else if s.slots[left - 1].None? then s.(pc := Signalling(left - 1, false))
      else if flagged then Post(s).(pc := Signalling(left - 1, false))
      else s.(slots := s.slots[left - 1 := Some(s.slots[left - 1].value.(stop := true))], pc := Signalling(left, true))
    case Joining(left) =>
      if left == 0 || left > |s.slots| then Next(s)
      else if s.slots[left - 1].None? || s.slots[left - 1].value.phase.Exited? then s.(pc := Joining(left - 1))
      else if timeout then Next(s) else s
  }

  datatype Tick = ManagerTick(timeout: bool) | WorkerTick(i: nat)

  /** A tick for a slot without a worker passes. */
  function Step(s: Sys, tick: Tick): Sys {
    match tick
    case ManagerTick(timeout) => ManagerStep(s, timeout)
    case WorkerTick(i) =>
      if i >= |s.slots| || s.slots[i].None? then s
      else
        var (w, tokens) := WorkerStep(s.slots[i].value, s.tokens);
        s.(slots := s.slots[i := Some(w)], tokens := tokens)
  }

  /** A schedule of any length. */
  function Execute(s: Sys, schedule: seq<Tick>): Sys
    decreases |schedule|
  {
    if schedule == [] then s else Execute(Step(s, schedule[0]), schedule[1..])
  }

  function Launch(commands: seq<Command>): Sys {
    Sys(0, seq(MAX_WORKERS, _ => None), commands, Resting, 0)
  }

  /** How often the schedule gives the i-th worker a step. */
  function Ticks(schedule: seq<Tick>, i: nat): nat {
    if schedule == [] then 0 else (if schedule[0] == WorkerTick(i) then 1 else 0) + Ticks(schedule[1..], i)
  }

  // ----- Counting -----

  lemma {:induction false} CountsAfterUpdate(slots: seq<Slot>, i: nat, slot: Slot)
    requires i < |slots|
    ensures Triggered(slots[i := slot]) ==
            Triggered(slots) - (if slots[i].Some? && slots[i].value.triggered then 1 else 0)
            + (if slot.Some? && slot.value.triggered then 1 else 0)
    ensures Occupied(slots[i := slot]) ==
            Occupied(slots) - (if slots[i].Some? then 1 else 0) + (if slot.Some? then 1 else 0)
    decreases |slots|
  {
    if i == 0 {
      assert slots[i := slot][1..] == slots[1..];
    } else {
      assert slots[i := slot][1..] == slots[1..][i - 1 := slot];
      CountsAfterUpdate(slots[1..], i - 1, slot);
    }
  }

  lemma {:induction false} TriggeredAreOccupied(slots: seq<Slot>)
    ensures Triggered(slots) <= Occupied(slots)
  {
    if slots != [] {
      TriggeredAreOccupied(slots[1..]);
    }
  }

  /** One that is not triggered leaves the triggered fewer than the workers. */
  lemma OneIsNotTriggered(slots: seq<Slot>, i: nat)
    requires i < |slots| && slots[i].Some? && !slots[i].value.triggered
    ensures Triggered(slots) < Occupied(slots)
  {
    CountsAfterUpdate(slots, i, None);
    TriggeredAreOccupied(slots[i := None]);
  }

  // ----- What every step keeps -----

  /** Before the trigger, after it, or gone; nobody goes before being told to. */
  ghost predicate WorkerOk(w: Worker) {
    && (w.phase.PollingWhileBusy? || w.phase.Spinning? ==> w.triggered)
    && (w.phase.Readying? || w.phase.PollingToWait? || w.phase.WaitingForTrigger? ==> !w.triggered)
    && (w.phase.Exited? ==> w.stop)
  }

  ghost predicate WorkersOk(slots: seq<Slot>) {
    forall i :: 0 <= i < |slots| && slots[i].Some? ==> WorkerOk(slots[i].value)
  }

  /** Tokens are conserved: each post is still there or has triggered one worker. */
  ghost predicate Inv(s: Sys) {
    s.tokens + Triggered(s.slots) == s.posts && WorkersOk(s.slots)
  }

  lemma UpdateKeepsInv(s: Sys, i: nat, slot: Slot, tokens: nat)
    requires Inv(s) && i < |s.slots| && (slot.Some? ==> WorkerOk(slot.value))
    requires tokens + (if slot.Some? && slot.value.triggered then 1 else 0) ==
             s.tokens + (if s.slots[i].Some? && s.slots[i].value.triggered then 1 else 0)
    ensures tokens + Triggered(s.slots[i := slot]) == s.posts && WorkersOk(s.slots[i := slot])
  {
    CountsAfterUpdate(s.slots, i, slot);
  }

  lemma WorkerStepKeepsInv(s: Sys, i: nat)
    requires Inv(s)
    ensures Inv(Step(s, WorkerTick(i)))
  {
    if i < |s.slots| && s.slots[i].Some? {
      var (w, tokens) := WorkerStep(s.slots[i].value, s.tokens);
      UpdateKeepsInv(s, i, Some(w), tokens);
    }
  }

  lemma ManagerStepKeepsInv(s: Sys, timeout: bool)
    requires Inv(s)
    ensures Inv(ManagerStep(s, timeout))
  {
    if s.pc.Resting? && s.todo != [] && s.todo[0].AddWorker? && FreeSlot(s.slots) < |s.slots| {
      UpdateKeepsInv(s, FreeSlot(s.slots), Some(FRESH_WORKER), s.tokens);
    } else if s.pc.Signalling? && 0 < s.pc.left <= |s.slots| && s.slots[s.pc.left - 1].Some? {
      UpdateKeepsInv(s, s.pc.left - 1, Some(s.slots[s.pc.left - 1].value.(stop := true)), s.tokens);
    }
  }

  lemma StepKeepsInv(s: Sys, tick: Tick)
    requires Inv(s)
    ensures Inv(Step(s, tick))
  {
    match tick
    case WorkerTick(i) => WorkerStepKeepsInv(s, i);
    case ManagerTick(timeout) => ManagerStepKeepsInv(s, timeout);
  }

  lemma {:induction false} NobodyYet(slots: seq<Slot>)
    requires forall i :: 0 <= i < |slots| ==> slots[i].None?
    ensures Triggered(slots) == 0 && Occupied(slots) == 0
  {
    if slots != [] {
      NobodyYet(slots[1..]);
    }
  }

  lemma {:induction false} ExecuteKeepsInv(s: Sys, schedule: seq<Tick>)
    requires Inv(s)
    ensures Inv(Execute(s, schedule))
    decreases |schedule|
  {
    if schedule != [] {
      StepKeepsInv(s, schedule[0]);
      ExecuteKeepsInv(Step(s, schedule[0]), schedule[1..]);
    }
  }

  /** Whatever the manager is told and however the steps interleave: tokens and triggered workers add up to the posts. */
  lemma TokensAreConserved(commands: seq<Command>, schedule: seq<Tick>)
    ensures var s := Execute(Launch(commands), schedule); s.tokens + Triggered(s.slots) == s.posts
  {
    NobodyYet(Launch(commands).slots);
    ExecuteKeepsInv(Launch(commands), schedule);
  }
}
