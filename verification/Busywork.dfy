/** The manager object of dtbusywork.c: its slots and its semaphore, changed in place. What the workers do meanwhile is
    the matter of BusyworkSpec. */
module Busywork {
  import opened Bytes
  import opened BusyworkSpec

  datatype Error = WorkersExhausted

  lemma {:induction false} OccupiedOneMore(slots: seq<Slot>, i: nat)
    requires i < |slots|
    ensures Occupied(slots[..i + 1]) == Occupied(slots[..i]) + if slots[i].Some? then 1 else 0
    decreases |slots|
  {
    if i > 0 {
      OccupiedOneMore(slots[1..], i - 1);
      assert slots[..i + 1][1..] == slots[1..][..i] && slots[..i][1..] == slots[1..][..i - 1];
    }
  }

  lemma {:induction false} FullWithoutFreeSlot(slots: seq<Slot>)
    ensures Occupied(slots) <= |slots| && (Occupied(slots) == |slots| <==> FreeSlot(slots) == |slots|)
  {
    if slots != [] {
      FullWithoutFreeSlot(slots[1..]);
    }
  }

  function ManagerTicks(n: nat): (schedule: seq<Tick>)
    ensures |schedule| == n
  {
    if n == 0 then [] else [ManagerTick(false)] + ManagerTicks(n - 1)
  }

  lemma {:induction false} PostingAlone(s: Sys, i: nat)
    requires s.pc == Posting(i) && i <= |s.slots|
    ensures var posted := Occupied(s.slots[i..]);
            Execute(s, ManagerTicks(|s.slots| - i + 1)) ==
            Next(s.(tokens := s.tokens + posted, posts := s.posts + posted))
    decreases |s.slots| - i
  {
    var ticks := ManagerTicks(|s.slots| - i + 1);
    var s' := ManagerStep(s, false);
    assert Execute(s, ticks) == Execute(s', ManagerTicks(|s.slots| - i));
    if i < |s.slots| {
      assert s.slots[i..][1..] == s.slots[i + 1..];
      PostingAlone(s', i + 1);
    }
  }

  /** The start of the step machine, with nobody in between, does what the method below does. */
  lemma StartAlone(s: Sys)
    requires s.pc.Resting? && s.todo != [] && s.todo[0].Start?
    ensures Execute(s, ManagerTicks(|s.slots| + 2)) ==
            s.(tokens := s.tokens + Occupied(s.slots), posts := s.posts + Occupied(s.slots), todo := s.todo[1..])
  {
    assert s.slots[0..] == s.slots;
    PostingAlone(ManagerStep(s, false), 0);
  }

  /** Every worker told to stop. */
  function AllTold(slots: seq<Slot>): (r: seq<Slot>)
    ensures |r| == |slots|
    ensures forall i :: 0 <= i < |slots| ==> r[i] == Told(slots[i])
  {
    seq(|slots|, i requires 0 <= i < |slots| => Told(slots[i]))
  }

  function Told(slot: Slot): Slot {
    if slot.None? then None else Some(slot.value.(stop := true))
  }

  /** The slots below `left` told to stop. */
  function ToldBelow(slots: seq<Slot>, left: nat): seq<Slot>
    requires left <= |slots|
  {
    AllTold(slots[..left]) + slots[left..]
  }

  lemma ToldOneMore(slots: seq<Slot>, left: nat)
    requires 0 < left <= |slots|
    ensures ToldBelow(slots[left - 1 := Told(slots[left - 1])], left - 1) == ToldBelow(slots, left)
    ensures slots[left - 1 := Told(slots[left - 1])][..left - 1] == slots[..left - 1]
    ensures Occupied(slots[..left]) == Occupied(slots[..left - 1]) + if slots[left - 1].Some? then 1 else 0
  {
    OccupiedOneMore(slots, left - 1);
  }

  /** With so many more posts. */
  function Posted(s: Sys, count: nat): Sys {
    s.(tokens := s.tokens + count, posts := s.posts + count)
  }

  /** The loop of stop one slot further down. */
  function SlotTold(s: Sys, left: nat): Sys
    requires 0 < left <= |s.slots|
  {
    Posted(s, if s.slots[left - 1].Some? then 1 else 0).(
      slots := s.slots[left - 1 := Told(s.slots[left - 1])], pc := Signalling(left - 1, false))
  }

  /** The loop of stop at its end. */
  function AllSignalled(s: Sys, left: nat): Sys
    requires left <= |s.slots|
  {
    Posted(s, Occupied(s.slots[..left])).(slots := ToldBelow(s.slots, left), pc := Joining(|s.slots|))
  }

  lemma SignalledOneMore(s: Sys, left: nat)
    requires 0 < left <= |s.slots|
    ensures AllSignalled(SlotTold(s, left), left - 1) == AllSignalled(s, left)
    ensures SignalTicks(SlotTold(s, left).slots, left - 1) + 1 + (if s.slots[left - 1].Some? then 1 else 0) ==
            SignalTicks(s.slots, left)
  {
    ToldOneMore(s.slots, left);
  }

  /** A step for each free slot and two for each worker, and one to leave the loop. */
  function SignalTicks(slots: seq<Slot>, left: nat): nat
    requires left <= |slots|
  {
    left + Occupied(slots[..left]) + 1
  }

  /** After one step or two the loop comes to the slot below. */
  lemma SlotSignalled(s: Sys, left: nat, n: nat)
    requires s.pc == Signalling(left, false) && 0 < left <= |s.slots|
    ensures Execute(s, ManagerTicks(n + 1 + (if s.slots[left - 1].Some? then 1 else 0))) ==
            Execute(SlotTold(s, left), ManagerTicks(n))
  {
    var s1 := ManagerStep(s, false);
    if s.slots[left - 1].Some? {
      assert Execute(s, ManagerTicks(n + 2)) == Execute(s1, ManagerTicks(n + 1));
      assert Execute(s1, ManagerTicks(n + 1)) == Execute(ManagerStep(s1, false), ManagerTicks(n));
    } else {
      assert s.slots[left - 1 := Told(s.slots[left - 1])] == s.slots;
      assert Execute(s, ManagerTicks(n + 1)) == Execute(s1, ManagerTicks(n));
    }
  }

  lemma NothingToSignal(s: Sys)
    requires s.pc == Signalling(0, false)
    ensures Execute(s, ManagerTicks(1)) == AllSignalled(s, 0)
  {
    assert ToldBelow(s.slots, 0) == s.slots;
    assert ManagerTicks(1) == [ManagerTick(false)] && [ManagerTick(false)][1..] == [];
    var s1 := Step(s, ManagerTick(false));
    assert Execute(s1, []) == s1;
  }

  lemma {:induction false} SignallingAlone(s: Sys, left: nat)
    requires s.pc == Signalling(left, false) && left <= |s.slots|
    ensures Execute(s, ManagerTicks(SignalTicks(s.slots, left))) == AllSignalled(s, left)
    decreases left
  {
    if left == 0 {
      NothingToSignal(s);
    } else {
      SignalledOneMore(s, left);
      SlotSignalled(s, left, SignalTicks(SlotTold(s, left).slots, left - 1));
      SignallingAlone(SlotTold(s, left), left - 1);
    }
  }

  /** The first loop of stop in the step machine, with nobody in between, does what SignalStop does, a step for each
      free slot and two for each worker, and then comes to the joins. */
  lemma StopAlone(s: Sys)
    requires s.pc.Resting? && s.todo != [] && s.todo[0].Stop?
    ensures var posted := Occupied(s.slots);
            Execute(s, ManagerTicks(|s.slots| + posted + 2)) ==
            Posted(s, posted).(slots := AllTold(s.slots), pc := Joining(|s.slots|))
  {
    var n := |s.slots|;
    var s1 := s.(pc := Signalling(n, false));
    WholeLoop(s, s1, n);
    FirstTick(s, s1, SignalTicks(s.slots, n));
    SignallingAlone(s1, n);
  }

  lemma WholeLoop(s: Sys, s1: Sys, n: nat)
    requires n == |s.slots| && s1 == s.(pc := Signalling(n, false))
    ensures SignalTicks(s.slots, n) == n + Occupied(s.slots) + 1
    ensures AllSignalled(s1, n) == Posted(s, Occupied(s.slots)).(slots := AllTold(s.slots), pc := Joining(n))
  {
    assert s.slots[..n] == s.slots && s.slots[n..] == [];
  }

  lemma FirstTick(s: Sys, s1: Sys, n: nat)
    requires s1 == ManagerStep(s, false)
    ensures Execute(s, ManagerTicks(n + 1)) == Execute(s1, ManagerTicks(n))
  {
  }

  class Manager {
    const workers: array<Slot>
    var tokens: nat

    ghost predicate Valid()
      reads this
    {
      workers.Length == MAX_WORKERS
    }

    constructor ()
      ensures Valid() && fresh(workers) && tokens == 0 && workers[..] == Launch([]).slots
    {
      workers := new Slot[MAX_WORKERS](_ => None);
      tokens := 0;
    }

    /** dtbusywork_add_worker: the first free slot, if there is one. */
    method AddWorker() returns (err: Option<Error>)
      requires Valid()
      modifies workers
      ensures workers[..] == WithWorker(old(workers[..]))
      ensures err.Some? <==> Occupied(old(workers[..])) == MAX_WORKERS
    {
      ghost var was := workers[..];
      FullWithoutFreeSlot(was);
      var i: nat := 0;
      while i < MAX_WORKERS && workers[i].Some?
        invariant i <= MAX_WORKERS && workers[..] == was
        invariant forall k :: 0 <= k < i ==> was[k].Some?
      {
        i := i + 1;
      }
      if i == MAX_WORKERS {
        err := Some(WorkersExhausted);
      } else {
        workers[i] := Some(FRESH_WORKER);
        err := None;
      }
    }

    /** dtbusywork_start: one post for each worker. */
    method Start()
      requires Valid()
      modifies `tokens
      ensures tokens == old(tokens) + Occupied(workers[..])
    {
      for i := 0 to MAX_WORKERS
        invariant tokens == old(tokens) + Occupied(workers[..i])
      {
        OccupiedOneMore(workers[..], i);
        assert workers[..][..i + 1] == workers[..i + 1] && workers[..][..i] == workers[..i];
        if workers[i].Some? {
          tokens := tokens + 1;
        }
      }
      assert workers[..MAX_WORKERS] == workers[..];
    }

    /** The first loop of dtbusywork_stop, from the last slot to the first. */
    method SignalStop()
      requires Valid()
      modifies workers, `tokens
      ensures workers[..] == AllTold(old(workers[..]))
      ensures tokens == old(tokens) + Occupied(old(workers[..]))
    {
      ghost var was := workers[..];
      var i: nat := MAX_WORKERS;
      assert was[..i] == was;
      while i > 0
        invariant i <= MAX_WORKERS
        invariant tokens + Occupied(was[..i]) == old(tokens) + Occupied(was)
        invariant forall k :: 0 <= k < MAX_WORKERS ==> workers[k] == if k < i then was[k] else Told(was[k])
      {
        i := i - 1;
        OccupiedOneMore(was, i);
        if workers[i].Some? {
          workers[i] := Told(workers[i]);
          tokens := tokens + 1;
        }
      }
    }
  }
}
