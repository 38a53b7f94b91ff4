/** A manifold without a semaphore, as the netportal's private one is: what holds while its callers keep out of each
    other's way, and what is lost when they do not. */
module ManifoldRaces {
  import opened Bytes
  import opened Slots
  import opened ManifoldSpec
  import opened ManifoldTheorems
  import opened ManifoldThreads

  // ----- Callers that keep out of each other's way -----

  ghost predicate NobodyRefused(s: Sys) {
    && (forall k :: 0 <= k < |s.history| ==> !Refused(s.history[k]))
    && (forall k :: 0 <= k < |s.threads| && s.threads[k].pc.Cleanup? ==> s.threads[k].pc.err != Some(SemaphoreFailed))
  }

  lemma OnlyItsThread(attached: bool, s: Sys, id: nat, choice: bool)
    requires id < |s.threads|
    ensures OnlyThread(s, Advance(attached, s, id, choice), id)
  {
  }

  /** Only the wait for a semaphore ends in its error. */
  lemma StepIsNotRefused(s: Sys, id: nat, choice: bool)
    requires id < |s.threads| && (s.threads[id].pc.Cleanup? ==> s.threads[id].pc.err != Some(SemaphoreFailed))
    ensures var s' := Advance(false, s, id, choice);
            && (s'.threads[id].pc.Cleanup? ==> s'.threads[id].pc.err != Some(SemaphoreFailed))
            && (s'.history == s.history
                || exists reply :: reply != Returned(Some(SemaphoreFailed))
                                   && s'.history == s.history + [Turn(id, s.threads[id].todo[0], reply)])
  {
    var th, s' := s.threads[id], Advance(false, s, id, choice);
    if th.todo != [] {
      match th.pc {
        case Snapped(snaps) => assert s'.history == s.history + [Turn(id, th.todo[0], Calls(snaps))];
        case Collected(topics) => assert s'.history == s.history + [Turn(id, th.todo[0], Visits(topics))];
        case Reported(count) => assert s'.history == s.history + [Turn(id, th.todo[0], Reports(count))];
        case Cleanup(err, answered) =>
          assert s'.history == s.history || s'.history == s.history + [Turn(id, th.todo[0], Returned(err))];
        case _ =>
      }
    }
  }

  lemma NobodyIsRefused(s: Sys, tick: Tick)
    requires NobodyRefused(s)
    ensures NobodyRefused(After(false, s, tick))
  {
    if tick.id < |s.threads| {
      OnlyItsThread(false, s, tick.id, tick.choice);
      StepIsNotRefused(s, tick.id, tick.choice);
    }
  }

  lemma {:induction false} NobodyIsEverRefused(s: Sys, schedule: seq<Tick>)
    requires NobodyRefused(s)
    ensures NobodyRefused(Execute(false, s, schedule))
    decreases |schedule|
  {
    if schedule != [] {
      NobodyIsRefused(s, schedule[0]);
      NobodyIsEverRefused(After(false, s, schedule[0]), schedule[1..]);
    }
  }

  /** Linearizability without a semaphore, in every interleaving in which no call comes to the tables while another is
      there. */
  lemma SerialIsLinear(start: Table, programs: seq<seq<Call>>, schedule: seq<Tick>)
    requires Serial(Launch(start, programs), schedule)
    ensures Linear(false, start, programs, Execute(false, Launch(start, programs), schedule))
  {
    LaunchInv(false, start, programs);
    ExecuteInv(false, start, programs, Launch(start, programs), schedule);
    NobodyIsEverRefused(Launch(start, programs), schedule);
    var s := Execute(false, Launch(start, programs), schedule);
    forall id | 0 <= id < |s.threads| ensures OrderOk(programs[id], s, id) && UserCodeOk(s, id) {
      assert ThreadOk(s, id);
    }
  }

  /** Whoever is at the tables is not waiting to come to them. */
  predicate TurnsAreInside(s: Sys) {
    forall k :: 0 <= k < |s.threads| && s.threads[k].turn ==> InCritical(s.threads[k].pc) || s.threads[k].pc.Cleanup?
  }

  lemma StaysInside(s: Sys, tick: Tick)
    requires TurnsAreInside(s)
    ensures TurnsAreInside(After(false, s, tick)) && |After(false, s, tick).threads| == |s.threads|
  {
    if tick.id < |s.threads| {
      OnlyItsThread(false, s, tick.id, tick.choice);
      StepStaysInside(s, tick.id, tick.choice);
    }
  }

  lemma StepStaysInside(s: Sys, id: nat, choice: bool)
    requires id < |s.threads| && TurnsAreInside(s)
    ensures var th := Advance(false, s, id, choice).threads[id]; th.turn ==> InCritical(th.pc) || th.pc.Cleanup?
  {
  }

  /** All calls on one thread, but for those made by its callbacks, never meet. */
  lemma {:induction false} OneThreadIsSerial(s: Sys, schedule: seq<Tick>)
    requires |s.threads| <= 1 && TurnsAreInside(s)
    ensures Serial(s, schedule)
    decreases |schedule|
  {
    if schedule != [] {
      StaysInside(s, schedule[0]);
      OneThreadIsSerial(After(false, s, schedule[0]), schedule[1..]);
    }
  }

  // Conditions that callers can see to.

  /** At rest, waiting, or in user code. */
  predicate Away(th: Thread) {
    th.pc.Resting? || th.pc.Waiting? || InUserCode(th.pc)
  }

  ghost predicate OthersAway(s: Sys, id: nat) {
    forall k :: 0 <= k < |s.threads| && k != id ==> Away(s.threads[k])
  }

  /** Whoever comes to the tables finds all others away from them. */
  ghost predicate ComesAlone(s: Sys, schedule: seq<Tick>)
    decreases |schedule|
  {
    schedule != [] ==>
      && (Enters(s, schedule[0].id) ==> OthersAway(s, schedule[0].id))
      && ComesAlone(After(false, s, schedule[0]), schedule[1..])
  }

  lemma NobodyIsThere(s: Sys, id: nat)
    requires TurnsAreInside(s) && Enters(s, id) && OthersAway(s, id)
    ensures NobodyThere(s)
  {
  }

  lemma {:induction false} ComesAloneIsSerial(s: Sys, schedule: seq<Tick>)
    requires TurnsAreInside(s) && ComesAlone(s, schedule)
    ensures Serial(s, schedule)
    decreases |schedule|
  {
    if schedule != [] {
      if Enters(s, schedule[0].id) {
        NobodyIsThere(s, schedule[0].id);
      }
      StaysInside(s, schedule[0]);
      ComesAloneIsSerial(After(false, s, schedule[0]), schedule[1..]);
    }
  }

  /** A thread takes a step only when each other has not begun its program or has ended it. */
  ghost predicate OneAfterAnother(programs: seq<seq<Call>>, s: Sys, schedule: seq<Tick>)
    decreases |schedule|
  {
    schedule != [] ==>
      && (forall k :: 0 <= k < |s.threads| && k != schedule[0].id ==>
            s.threads[k].todo == [] || (k < |programs| && s.threads[k] == Unbegun(programs[k])))
      && OneAfterAnother(programs, After(false, s, schedule[0]), schedule[1..])
  }

  function Unbegun(program: seq<Call>): Thread {
    Thread(program, Resting, false, false)
  }

  /** Whoever has ended its program is at rest. */
  predicate EndedAreAtRest(s: Sys) {
    forall k :: 0 <= k < |s.threads| && s.threads[k].todo == [] ==> s.threads[k].pc.Resting?
  }

  lemma StaysAtRest(s: Sys, tick: Tick)
    requires EndedAreAtRest(s)
    ensures EndedAreAtRest(After(false, s, tick))
  {
    if tick.id < |s.threads| {
      OnlyItsThread(false, s, tick.id, tick.choice);
      EndsAtRest(s, tick.id, tick.choice);
    }
  }

  lemma EndsAtRest(s: Sys, id: nat, choice: bool)
    requires id < |s.threads| && (s.threads[id].todo == [] ==> s.threads[id].pc.Resting?)
    ensures var th := Advance(false, s, id, choice).threads[id]; th.todo == [] ==> th.pc.Resting?
  {
  }

  /** Programs carried out one after another, in whatever order: all subscriptions made before the receiver is activated,
      say. */
  lemma {:induction false} OneAfterAnotherComesAlone(programs: seq<seq<Call>>, s: Sys, schedule: seq<Tick>)
    requires EndedAreAtRest(s) && OneAfterAnother(programs, s, schedule)
    ensures ComesAlone(s, schedule)
    decreases |schedule|
  {
    if schedule != [] {
      StaysAtRest(s, schedule[0]);
      OneAfterAnotherComesAlone(programs, After(false, s, schedule[0]), schedule[1..]);
    }
  }

  lemma OneAfterAnotherIsSerial(start: Table, programs: seq<seq<Call>>, schedule: seq<Tick>)
    requires OneAfterAnother(programs, Launch(start, programs), schedule)
    ensures Serial(Launch(start, programs), schedule)
  {
    OneAfterAnotherComesAlone(programs, Launch(start, programs), schedule);
    ComesAloneIsSerial(Launch(start, programs), schedule);
  }

  /** Calls of others are made inside the callbacks of `first`: it takes a step only when they are all at rest, and one of
      them takes a step only while `first` is in user code and the rest are at rest. */
  ghost predicate InsideCallbacks(s: Sys, first: nat, schedule: seq<Tick>)
    decreases |schedule|
  {
    schedule != [] ==>
      && (forall k :: 0 <= k < |s.threads| && k != schedule[0].id ==>
            if k == first then InUserCode(s.threads[k].pc) else s.threads[k].pc.Resting?)
      && InsideCallbacks(After(false, s, schedule[0]), first, schedule[1..])
  }

  lemma {:induction false} InsideCallbacksComesAlone(s: Sys, first: nat, schedule: seq<Tick>)
    requires InsideCallbacks(s, first, schedule)
    ensures ComesAlone(s, schedule)
    decreases |schedule|
  {
    if schedule != [] {
      InsideCallbacksComesAlone(After(false, s, schedule[0]), first, schedule[1..]);
    }
  }

  /** All other calls made by the callbacks of one thread. */
  lemma InsideCallbacksIsSerial(start: Table, programs: seq<seq<Call>>, first: nat, schedule: seq<Tick>)
    requires InsideCallbacks(Launch(start, programs), first, schedule)
    ensures Serial(Launch(start, programs), schedule)
  {
    InsideCallbacksComesAlone(Launch(start, programs), first, schedule);
    ComesAloneIsSerial(Launch(start, programs), schedule);
  }

  // ----- Steps of one thread -----

  /** `n` steps of one thread whose callbacks say yes. */
  function Steps(s: Sys, id: nat, n: nat): Sys
    decreases n
  {
    if n == 0 || id >= |s.threads| then s else Steps(Advance(false, s, id, true), id, n - 1)
  }

  function Ticks(id: nat, n: nat): seq<Tick> {
    if n == 0 then [] else [Tick(id, true)] + Ticks(id, n - 1)
  }

  lemma {:induction false} StepsAreTicks(s: Sys, id: nat, n: nat)
    requires id < |s.threads|
    ensures Steps(s, id, n) == Execute(false, s, Ticks(id, n)) && |Steps(s, id, n).threads| == |s.threads|
    decreases n
  {
    if n > 0 {
      assert Ticks(id, n)[1..] == Ticks(id, n - 1);
      StepsAreTicks(Advance(false, s, id, true), id, n - 1);
    }
  }

  lemma {:induction false} ExecuteAppend(attached: bool, s: Sys, a: seq<Tick>, b: seq<Tick>)
    ensures Execute(attached, s, a + b) == Execute(attached, Execute(attached, s, a), b)
    decreases |a|
  {
    if a == [] {
      assert a + b == b;
    } else {
      assert (a + b)[1..] == a[1..] + b;
      ExecuteAppend(attached, After(attached, s, a[0]), a[1..], b);
    }
  }

  /** A thread about to make a subscribe or a publish that passes the argument checks. */
  ghost predicate About(s: Sys, id: nat) {
    && id < |s.threads| && s.threads[id].todo != [] && !s.threads[id].acquired
    && s.threads[id].todo[0].Mutation? && !s.threads[id].todo[0].op.UnsubscribeOp? && !BadCall(s.threads[id].todo[0])
  }

  /** Three steps bring it to its subject's slot. */
  lemma PicksSubject(s: Sys, id: nat)
    requires About(s, id) && s.threads[id].pc.Resting?
    requires SubjectSlot(s.table, s.threads[id].todo[0].op.name) < |s.table|
    ensures var i := SubjectSlot(s.table, s.threads[id].todo[0].op.name);
            Steps(s, id, 3) == WithThread(s, id, s.threads[id].(pc := SubjectPicked(i), turn := true))
  {
    var th := s.threads[id];
    var s1 := Advance(false, s, id, true);
    var s2 := Advance(false, s1, id, true);
    assert s2 == WithThread(s, id, th.(pc := Entered, turn := true));
    var s3 := Advance(false, s2, id, true);
    assert Steps(s, id, 3) == Steps(s1, id, 2) == Steps(s2, id, 1) == Steps(s3, id, 0);
  }

  /** One more names the slot. */
  lemma NamesSubject(s: Sys, id: nat, i: nat)
    requires About(s, id) && s.threads[id].pc == SubjectPicked(i) && i < |s.table|
    ensures Steps(s, id, 1) == WithThread(s, id, s.threads[id].(pc := SubjectNamed(i))).(
                                 table := s.table[i := s.table[i].(name := s.threads[id].todo[0].op.name)])
  {
    var s1 := Advance(false, s, id, true);
    assert Steps(s, id, 1) == Steps(s1, id, 0);
  }

  /** One more brings a subscribe to its recipient's slot. */
  lemma PicksRecipient(s: Sys, id: nat, i: nat)
    requires About(s, id) && s.threads[id].pc == SubjectNamed(i) && i < |s.table|
    requires s.threads[id].todo[0].op.SubscribeOp?
    requires RecipientSlot(s.table[i].recipients, s.threads[id].todo[0].op.self) < |s.table[i].recipients|
    ensures var j := RecipientSlot(s.table[i].recipients, s.threads[id].todo[0].op.self);
            Steps(s, id, 1) == WithThread(s, id, s.threads[id].(pc := RecipientPicked(i, j)))
  {
    var s1 := Advance(false, s, id, true);
    assert Steps(s, id, 1) == Steps(s1, id, 0);
  }

  /** Two more write it, and it is about to return success. */
  lemma WritesRecipient(s: Sys, id: nat, i: nat, j: nat)
    requires About(s, id) && s.threads[id].pc == RecipientPicked(i, j) && s.threads[id].todo[0].op.SubscribeOp?
    requires i < |s.table| && j < |s.table[i].recipients|
    ensures var op := s.threads[id].todo[0].op;
            Steps(s, id, 2) == WithThread(s, id, s.threads[id].(pc := Cleanup(None, false))).(
                                 table := SetRecipient(s.table, i, j, Recipient(op.self, op.callback)))
  {
    var op := s.threads[id].todo[0].op;
    var s1 := Advance(false, s, id, true);
    var s2 := Advance(false, s1, id, true);
    assert s1.table[i].recipients[j := Recipient(op.self, op.callback)]
        == s.table[i].recipients[j := Recipient(op.self, op.callback)];
    assert s2.table == SetRecipient(s.table, i, j, Recipient(op.self, op.callback));
    assert Steps(s, id, 2) == Steps(s1, id, 1) == Steps(s2, id, 0);
  }

  /** From the slot to success: a subscribe's remaining steps. */
  lemma FinishesSubscribe(s: Sys, id: nat, i: nat)
    requires About(s, id) && s.threads[id].pc == SubjectPicked(i) && i < |s.table|
    requires s.threads[id].todo[0].op.SubscribeOp?
    requires RecipientSlot(s.table[i].recipients, s.threads[id].todo[0].op.self) < |s.table[i].recipients|
    ensures var op := s.threads[id].todo[0].op;
            var j := RecipientSlot(s.table[i].recipients, op.self);
            Steps(Steps(Steps(s, id, 1), id, 1), id, 2) ==
            WithThread(s, id, s.threads[id].(pc := Cleanup(None, false))).(
              table := SetRecipient(s.table[i := s.table[i].(name := op.name)], i, j, Recipient(op.self, op.callback)))
  {
    var j := RecipientSlot(s.table[i].recipients, s.threads[id].todo[0].op.self);
    NamesSubject(s, id, i);
    PicksRecipient(Steps(s, id, 1), id, i);
    WritesRecipient(Steps(Steps(s, id, 1), id, 1), id, i, j);
  }

  /** One more takes a publish's snapshot. */
  lemma TakesSnapshot(s: Sys, id: nat, i: nat)
    requires About(s, id) && s.threads[id].pc == SubjectNamed(i) && i < |s.table|
    requires s.threads[id].todo[0].op.PublishOp?
    ensures Steps(s, id, 1) == WithThread(s, id, s.threads[id].(pc := Snapped(Snapshot(s.table[i].recipients))))
  {
    var s1 := Advance(false, s, id, true);
    assert Steps(s, id, 1) == Steps(s1, id, 0);
  }

  /** Some schedule leads from one state to the other. */
  ghost predicate Reaches(from: Sys, to: Sys) {
    exists schedule :: Execute(false, from, schedule) == to
  }

  lemma ReachesItself(s: Sys)
    ensures Reaches(s, s)
  {
    assert Execute(false, s, []) == s;
  }

  /** The schedule goes on with steps of one thread. */
  lemma GoesOn(from: Sys, s: Sys, id: nat, n: nat)
    requires Reaches(from, s) && id < |s.threads|
    ensures Reaches(from, Steps(s, id, n)) && |Steps(s, id, n).threads| == |s.threads|
  {
    var schedule :| Execute(false, from, schedule) == s;
    ExecuteAppend(false, from, schedule, Ticks(id, n));
    StepsAreTicks(s, id, n);
  }

  predicate Usable(name: Name) {
    name != UNNAMED && |name| <= MAX_NAME_LENGTH
  }

  lemma FreeRow(self: Pointer)
    requires self != NULL
    ensures RecipientSlot(NoRecipients(), self) == 0
  {
  }

  lemma AloneInRow(r: Recipient)
    requires r.self != NULL && r.callback != NULL
    ensures r in Snapshot(NoRecipients()[0 := r])
  {
    var row := NoRecipients()[0 := r];
    assert row[0] == r;
    InSnapshot(row, r);
  }

  lemma NobodyInRow()
    ensures Snapshot(NoRecipients()) == []
  {
    if Snapshot(NoRecipients()) != [] {
      InSnapshot(NoRecipients(), Snapshot(NoRecipients())[0]);
    }
  }

  // ----- What is lost when they do not -----

  /** A subscribe and a publish that meet at a free slot: a recipient that only ever subscribed to `x` is called for what
      is published on `y`. */
  lemma ForeignSubscriberIsCalled(t: Table, x: Name, y: Name, self: Pointer, callback: Pointer) returns (last: Sys)
    requires Usable(x) && Usable(y) && x != y && self != NULL && callback != NULL
    requires x !in Names(t) && y !in Names(t)
    requires var i := IndexOf(Names(t), UNNAMED); i < |t| && t[i].recipients == NoRecipients()
    ensures Reaches(Launch(t, [[Mutation(SubscribeOp(x, self, callback))], [Mutation(PublishOp(y))]]), last)
    ensures |last.threads| == 2 && last.threads[1].todo == [Mutation(PublishOp(y))]
            && last.threads[1].pc.Snapped? && Recipient(self, callback) in last.threads[1].pc.snaps
  {
    var s := Launch(t, [[Mutation(SubscribeOp(x, self, callback))], [Mutation(PublishOp(y))]]);
    var i := IndexOf(Names(t), UNNAMED);
    ReachesItself(s);
    PicksSubject(s, 0);
    GoesOn(s, s, 0, 3);
    var s1 := Steps(s, 0, 3);
    PicksSubject(s1, 1);
    GoesOn(s, s1, 1, 3);
    var s2 := Steps(s1, 1, 3);
    NamesSubject(s2, 1, i);
    GoesOn(s, s2, 1, 1);
    var s3 := Steps(s2, 1, 1);
    FreeRow(self);
    FinishesSubscribe(s3, 0, i);
    Finishes(s, s3, 0);
    var s4 := Steps(Steps(Steps(s3, 0, 1), 0, 1), 0, 2);
    assert s4.table[i].recipients == NoRecipients()[0 := Recipient(self, callback)];
    TakesSnapshot(s4, 1, i);
    GoesOn(s, s4, 1, 1);
    AloneInRow(Recipient(self, callback));
    last := Steps(s4, 1, 1);
  }

  lemma Finishes(from: Sys, s: Sys, id: nat)
    requires Reaches(from, s) && id < |s.threads|
    ensures Reaches(from, Steps(Steps(Steps(s, id, 1), id, 1), id, 2))
  {
    GoesOn(from, s, id, 1);
    GoesOn(from, Steps(s, id, 1), id, 1);
    GoesOn(from, Steps(Steps(s, id, 1), id, 1), id, 2);
  }

  function LossPrograms(x: Name, y: Name, early: Pointer, self: Pointer, callback: Pointer): seq<seq<Call>> {
    [[Mutation(SubscribeOp(x, early, callback))], [Mutation(PublishOp(y))],
     [Mutation(SubscribeOp(x, self, callback))], [Mutation(PublishOp(x))]]
  }

  /** A subscribe that is overtaken renames the slot of another subject: a recipient that has subscribed to `x` and been
      told that it succeeded is not called for the next publish on `x`. The call that does the damage concerns another
      recipient. */
  lemma StandingSubscriberIsLost(t: Table, x: Name, y: Name, early: Pointer, self: Pointer, callback: Pointer)
    returns (last: Sys)
    requires Usable(x) && Usable(y) && x != y && early != self && early != NULL && self != NULL && callback != NULL
    requires x !in Names(t) && y !in Names(t)
    requires var i := IndexOf(Names(t), UNNAMED); i < |t| && t[i].recipients == NoRecipients()
    requires var t1 := AddSubject(t, y);
             var i2 := IndexOf(Names(t1), UNNAMED); i2 < |t1| && t1[i2].recipients == NoRecipients()
    ensures Reaches(Launch(t, LossPrograms(x, y, early, self, callback)), last)
    ensures |last.threads| == 4 && last.threads[2].todo == [Mutation(SubscribeOp(x, self, callback))]
            && last.threads[2].pc == Cleanup(None, false)
            && last.threads[3].todo == [Mutation(PublishOp(x))] && last.threads[3].pc == Snapped([])
  {
    var s := Launch(t, LossPrograms(x, y, early, self, callback));
    var i := IndexOf(Names(t), UNNAMED);
    var s3 := PublishOvertakes(t, x, y, early, self, callback);
    var s4 := SubscribesBehind(s, s3, x, self, callback);
    NamesSubject(s4, 0, i);
    GoesOn(s, s4, 0, 1);
    var s5 := Steps(s4, 0, 1);
    assert s5.table[i] == Subject(x, NoRecipients());
    FirstSlotIsFound(s5.table, x, i);
    last := PublishesAt(s, s5, x, i);
  }

  lemma PublishOvertakes(t: Table, x: Name, y: Name, early: Pointer, self: Pointer, callback: Pointer) returns (s3: Sys)
    requires Usable(x) && Usable(y) && early != NULL && callback != NULL && x !in Names(t) && y !in Names(t)
    requires IndexOf(Names(t), UNNAMED) < |t|
    ensures var s, i := Launch(t, LossPrograms(x, y, early, self, callback)), IndexOf(Names(t), UNNAMED);
            && Reaches(s, s3) && s3.table == AddSubject(t, y) == t[i := t[i].(name := y)]
            && s3.threads == s.threads[0 := s.threads[0].(pc := SubjectPicked(i), turn := true)]
                                      [1 := s.threads[1].(pc := SubjectNamed(i), turn := true)]
  {
    var s := Launch(t, LossPrograms(x, y, early, self, callback));
    var i := IndexOf(Names(t), UNNAMED);
    ReachesItself(s);
    PicksSubject(s, 0);
    GoesOn(s, s, 0, 3);
    var s1 := Steps(s, 0, 3);
    PicksSubject(s1, 1);
    GoesOn(s, s1, 1, 3);
    var s2 := Steps(s1, 1, 3);
    NamesSubject(s2, 1, i);
    GoesOn(s, s2, 1, 1);
    s3 := Steps(s2, 1, 1);
  }

  /** The second subscribe, at the next free slot. */
  lemma SubscribesBehind(from: Sys, s: Sys, x: Name, self: Pointer, callback: Pointer) returns (s': Sys)
    requires Reaches(from, s) && Usable(x) && self != NULL && callback != NULL && x !in Names(s.table)
    requires |s.threads| == 4 && s.threads[2] == Thread([Mutation(SubscribeOp(x, self, callback))], Resting, false, false)
    requires var i := IndexOf(Names(s.table), UNNAMED); i < |s.table| && s.table[i].recipients == NoRecipients()
    ensures Reaches(from, s') && |s'.threads| == 4
    ensures s'.threads[2] == s.threads[2].(pc := Cleanup(None, false), turn := true)
    ensures forall k :: 0 <= k < 4 && k != 2 ==> s'.threads[k] == s.threads[k]
    ensures var i := IndexOf(Names(s.table), UNNAMED);
            |s'.table| == |s.table| && forall k :: 0 <= k < |s.table| && k != i ==> s'.table[k] == s.table[k]
  {
    var i := IndexOf(Names(s.table), UNNAMED);
    PicksSubject(s, 2);
    GoesOn(from, s, 2, 3);
    var s1 := Steps(s, 2, 3);
    FreeRow(self);
    FinishesSubscribe(s1, 2, i);
    Finishes(from, s1, 2);
    s' := Steps(Steps(Steps(s1, 2, 1), 2, 1), 2, 2);
  }

  lemma FirstSlotIsFound(t: Table, x: Name, i: nat)
    requires i < |t| && t[i].name == x && forall k :: 0 <= k < i ==> t[k].name != x
    ensures SubjectSlot(t, x) == i
  {
    var at := IndexOf(Names(t), x);
    assert Names(t)[i] == x;
  }

  lemma PublishesAt(from: Sys, s: Sys, x: Name, i: nat) returns (s': Sys)
    requires Reaches(from, s) && Usable(x) && i < |s.table| && s.table[i] == Subject(x, NoRecipients())
    requires |s.threads| == 4 && s.threads[3] == Thread([Mutation(PublishOp(x))], Resting, false, false)
    requires SubjectSlot(s.table, x) == i
    ensures Reaches(from, s') && s'.threads == s.threads[3 := s.threads[3].(pc := Snapped([]), turn := true)]
  {
    PicksSubject(s, 3);
    GoesOn(from, s, 3, 3);
    s' := SnapsNobody(from, Steps(s, 3, 3), x, i);
  }

  lemma SnapsNobody(from: Sys, s: Sys, x: Name, i: nat) returns (s': Sys)
    requires Reaches(from, s) && Usable(x) && i < |s.table| && s.table[i] == Subject(x, NoRecipients())
    requires |s.threads| == 4 && s.threads[3] == Thread([Mutation(PublishOp(x))], SubjectPicked(i), false, true)
    ensures Reaches(from, s') && s'.threads == s.threads[3 := s.threads[3].(pc := Snapped([]))]
  {
    NamesSubject(s, 3, i);
    GoesOn(from, s, 3, 1);
    var s1 := Steps(s, 3, 1);
    assert s1.table[i] == Subject(x, NoRecipients());
    TakesSnapshot(s1, 3, i);
    GoesOn(from, s1, 3, 1);
    NobodyInRow();
    s' := Steps(s1, 3, 1);
  }

  // ----- Exactly when a semaphore is needed -----

  /** One thread for each recipient, subscribing it to the same subject. */
  function Subscribers(name: Name, rs: seq<Recipient>): seq<seq<Call>> {
    seq(|rs|, k requires 0 <= k < |rs| => [Mutation(SubscribeOp(name, rs[k].self, rs[k].callback))])
  }

  predicate IsIn(t: Table, name: Name, self: Pointer) {
    var i := IndexOf(Names(t), name);
    i < |t| && self in Selves(t[i].recipients)
  }

  /** Every subscribe that is about to return success has subscribed its recipient. */
  ghost predicate ToldAreIn(s: Sys, name: Name, rs: seq<Recipient>) {
    forall k :: 0 <= k < |s.threads| && k < |rs| && s.threads[k].pc == Cleanup(None, false) ==>
      IsIn(s.table, name, rs[k].self)
  }

  lemma SubscribedIsIn(t: Table, op: Op, after: Table)
    requires op.SubscribeOp? && Apply(t, op) == Result(after, None)
    ensures IsIn(after, op.name, op.self)
  {
    var i, at := SubjectSlot(t, op.name), IndexOf(Names(after), op.name);
    assert Names(after)[i] == op.name;
    assert forall k :: 0 <= k < i ==> Names(after)[k] == Names(t)[k] != op.name;
    var j := RecipientSlot(t[i].recipients, op.self);
    assert Selves(after[i].recipients)[j] == op.self;
  }

  lemma OneSubscriberIsIn(t: Table, name: Name, rs: seq<Recipient>, schedule: seq<Tick>)
    requires |rs| <= 1
    ensures ToldAreIn(Execute(false, Launch(t, Subscribers(name, rs)), schedule), name, rs)
  {
    var programs := Subscribers(name, rs);
    var s0 := Launch(t, programs);
    OneThreadIsSerial(s0, schedule);
    LaunchInv(false, t, programs);
    ExecuteInv(false, t, programs, s0, schedule);
    var s := Execute(false, s0, schedule);
    forall k | 0 <= k < |s.threads| && k < |rs| && s.threads[k].pc == Cleanup(None, false)
      ensures IsIn(s.table, name, rs[k].self)
    {
      assert ThreadOk(s, k) && OrderOk(programs[k], s, k);
      assert s.threads[k].todo[0] == programs[k][0];
      SubscribedIsIn(s.base, s.threads[k].todo[0].op, s.table);
    }
  }

  /** The situation: a subject with a free slot that has none of these recipients. */
  ghost predicate RoomForOne(t: Table, name: Name, rs: seq<Recipient>) {
    && Usable(name)
    && (forall k :: 0 <= k < |rs| ==> rs[k].self != NULL && rs[k].callback != NULL)
    && (forall k, l :: 0 <= k < l < |rs| ==> rs[k].self != rs[l].self)
    && var i := IndexOf(Names(t), name);
       i < |t| && NULL in Selves(t[i].recipients) && forall k :: 0 <= k < |rs| ==> rs[k].self !in Selves(t[i].recipients)
  }

  /** Two of them pick the same slot; both are told that they have succeeded, and the first is not subscribed. */
  lemma SubscriptionIsLost(t: Table, name: Name, rs: seq<Recipient>) returns (last: Sys)
    requires RoomForOne(t, name, rs) && |rs| >= 2
    ensures Reaches(Launch(t, Subscribers(name, rs)), last) && |last.threads| == |rs|
    ensures last.threads[0].pc == last.threads[1].pc == Cleanup(None, false)
    ensures !IsIn(last.table, name, rs[0].self) && !ToldAreIn(last, name, rs)
  {
    var i := IndexOf(Names(t), name);
    var j := IndexOf(Selves(t[i].recipients), NULL);
    var s2 := BothPick(t, name, rs);
    last := BothWrite(Launch(t, Subscribers(name, rs)), s2, t, name, rs, i, j);
  }

  lemma BothPick(t: Table, name: Name, rs: seq<Recipient>) returns (s2: Sys)
    requires RoomForOne(t, name, rs) && |rs| >= 2
    ensures var s, i := Launch(t, Subscribers(name, rs)), IndexOf(Names(t), name);
            var j := IndexOf(Selves(t[i].recipients), NULL);
            && Reaches(s, s2) && s2.table == t && j < |t[i].recipients|
            && s2.threads == s.threads[0 := s.threads[0].(pc := RecipientPicked(i, j), turn := true)]
                                      [1 := s.threads[1].(pc := RecipientPicked(i, j), turn := true)]
  {
    var s := Launch(t, Subscribers(name, rs));
    var i := IndexOf(Names(t), name);
    var row := t[i].recipients;
    var j := IndexOf(Selves(row), NULL);
    assert j < |row| && RecipientSlot(row, rs[0].self) == RecipientSlot(row, rs[1].self) == j;
    ReachesItself(s);
    var s1 := PicksSlot(s, s, 0, i, j);
    s2 := PicksSlot(s, s1, 1, i, j);
  }

  lemma BothWrite(from: Sys, s: Sys, t: Table, name: Name, rs: seq<Recipient>, i: nat, j: nat) returns (last: Sys)
    requires RoomForOne(t, name, rs) && |rs| >= 2 && i == IndexOf(Names(t), name) && j < |t[i].recipients|
    requires Reaches(from, s) && s.table == t && |s.threads| == |rs|
    requires forall k :: 0 <= k < 2 ==>
               s.threads[k] == Thread([Mutation(SubscribeOp(name, rs[k].self, rs[k].callback))], RecipientPicked(i, j),
                                      false, true)
    ensures Reaches(from, last) && |last.threads| == |rs|
    ensures last.threads[0].pc == last.threads[1].pc == Cleanup(None, false)
    ensures !IsIn(last.table, name, rs[0].self) && !ToldAreIn(last, name, rs)
  {
    var row := t[i].recipients;
    WritesRecipient(s, 0, i, j);
    GoesOn(from, s, 0, 2);
    var s1 := Steps(s, 0, 2);
    WritesRecipient(s1, 1, i, j);
    GoesOn(from, s1, 1, 2);
    last := Steps(s1, 1, 2);
    TwiceWritten(t, i, j, rs[0], rs[1]);
    SlotIsTaken(t, i, name, row[j := rs[1]]);
    assert Selves(row[j := rs[1]]) == Selves(row)[j := rs[1].self];
  }

  lemma TwiceWritten(t: Table, i: nat, j: nat, a: Recipient, b: Recipient)
    requires i < |t| && j < |t[i].recipients|
    ensures SetRecipient(SetRecipient(t, i, j, a), i, j, b) == t[i := t[i].(recipients := t[i].recipients[j := b])]
  {
    assert t[i].recipients[j := a][j := b] == t[i].recipients[j := b];
  }

  lemma SlotIsTaken(t: Table, i: nat, name: Name, row: seq<Recipient>)
    requires i < |t| && i == IndexOf(Names(t), name)
    ensures var after := t[i := t[i].(recipients := row)]; IndexOf(Names(after), name) == i
  {
    assert Names(t[i := t[i].(recipients := row)]) == Names(t);
  }

  /** Five steps from the start of a subscribe to its recipient's slot. */
  lemma PicksSlot(from: Sys, s: Sys, id: nat, i: nat, j: nat) returns (s': Sys)
    requires Reaches(from, s) && About(s, id) && s.threads[id].pc.Resting? && s.threads[id].todo[0].op.SubscribeOp?
    requires i == IndexOf(Names(s.table), s.threads[id].todo[0].op.name) < |s.table|
    requires j == RecipientSlot(s.table[i].recipients, s.threads[id].todo[0].op.self) < |s.table[i].recipients|
    ensures Reaches(from, s') && s' == WithThread(s, id, s.threads[id].(pc := RecipientPicked(i, j), turn := true))
  {
    PicksSubject(s, id);
    GoesOn(from, s, id, 3);
    var s1 := Steps(s, id, 3);
    NamesSubject(s1, id, i);
    GoesOn(from, s1, id, 1);
    var s2 := Steps(s1, id, 1);
    assert s2.table == s.table;
    PicksRecipient(s2, id, i);
    GoesOn(from, s2, id, 1);
    s' := Steps(s2, id, 1);
  }

  /** Without a semaphore, subscribes from any number of threads are all carried out in every interleaving if and only if
      there is at most one thread. */
  lemma SubscribersNeedASemaphore(t: Table, name: Name, rs: seq<Recipient>)
    requires RoomForOne(t, name, rs)
    ensures (forall s :: Reaches(Launch(t, Subscribers(name, rs)), s) ==> ToldAreIn(s, name, rs)) <==> |rs| <= 1
  {
    if |rs| <= 1 {
      forall s | Reaches(Launch(t, Subscribers(name, rs)), s) ensures ToldAreIn(s, name, rs) {
        var schedule :| Execute(false, Launch(t, Subscribers(name, rs)), schedule) == s;
        OneSubscriberIsIn(t, name, rs, schedule);
      }
    } else {
      var last := SubscriptionIsLost(t, name, rs);
    }
  }
}
