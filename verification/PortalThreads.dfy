/** Why the portal's fan-outs and the calls of others on its private manifold, which has no semaphore, may be taken one
    after another: as long as no call comes to the tables while another is there. */
module PortalThreads {
  import opened Bytes
  import opened FramerSpec
  import R = ManifoldSpec
  import opened ManifoldThreads
  import opened ManifoldRaces
  import P = PortalSystem
  import opened PortalDelivery

  /** The calls among these turns that may change the tables. */
  function OpsOf(history: seq<Turn>): seq<R.Op> {
    if history == [] then []
    else
      var n := |history| - 1;
      OpsOf(history[..n])
      + if history[n].call.Mutation? && !Refused(history[n]) then [history[n].call.op] else []
  }

  lemma ApplyOne(t: R.Table, op: R.Op)
    ensures R.ApplyAll(t, [op]) == R.Apply(t, op).table
  {
    assert [op][1..] == [];
  }

  /** The turns leave the tables as the same calls do when each is a step of its own. */
  lemma {:induction false} TurnsAreCalls(start: R.Table, history: seq<Turn>)
    ensures TableAfter(start, history) == R.ApplyAll(start, OpsOf(history))
    decreases |history|
  {
    if history != [] {
      var n := |history| - 1;
      var front := history[..n];
      TurnsAreCalls(start, front);
      if history[n].call.Mutation? && !Refused(history[n]) {
        R.ApplyAllAppend(start, OpsOf(front), [history[n].call.op]);
        ApplyOne(TableAfter(start, front), history[n].call.op);
      } else {
        assert OpsOf(front) + [] == OpsOf(front);
      }
    }
  }

  lemma {:induction false} TableAfterAppend(start: R.Table, history: seq<Turn>, more: seq<Turn>)
    ensures TableAfter(start, history + more) == TableAfter(TableAfter(start, history), more)
    decreases |more|
  {
    if more == [] {
      assert history + more == history;
    } else {
      var n := |more| - 1;
      assert (history + more)[..|history| + n] == history + more[..n];
      TableAfterAppend(start, history, more[..n]);
    }
  }

  /** What the receiver's publish comes to: the calls it makes, and whether the decoder hears of success. */
  function CallsOn(reply: Reply, m: Message, failAt: Option<nat>): seq<P.Call> {
    if reply.Calls? then P.CallsUpTo(reply.snaps, m, failAt) else []
  }

  predicate Succeeds(reply: Reply, failAt: Option<nat>) {
    reply.Calls? && !P.Fails(reply.snaps, failAt)
  }

  /** The receiver's turn with a message, and the turns of others until its next, are the fan-out of the message: it calls
      those that the turn found, up to the one that fails, and leaves the tables as all these turns do. */
  lemma TurnIsFanOut(start: R.Table, before: seq<Turn>, turn: Turn, others: seq<Turn>, m: Message, failAt: Option<nat>)
    returns (f: P.Fanned)
    requires turn.call == Mutation(R.PublishOp(m.topic)) && !Refused(turn)
    requires turn.reply == Answer(TableAfter(start, before), turn.call).1
    ensures f == P.FanOut(TableAfter(start, before), m, P.Fate(failAt, OpsOf(others)))
    ensures f.table == TableAfter(start, before + [turn] + others)
    ensures f.ok == Succeeds(turn.reply, failAt) && f.calls == CallsOn(turn.reply, m, failAt)
  {
    f := P.FanOut(TableAfter(start, before), m, P.Fate(failAt, OpsOf(others)));
    TableAfterAppend(start, before, [turn]);
    TableAfterAppend(start, before + [turn], others);
    assert [turn][..0] == [];
    TurnsAreCalls(TableAfter(start, before + [turn]), others);
  }

  /** The fan-out is what Manifold.Publish does: the same recipients are called, up to the first that fails, and the
      tables are the same after the calls that their callbacks made. */
  lemma FanOutIsPublish(t: R.Table, m: Message, reactions: R.Reactions) returns (f: P.Fanned)
    ensures var snapshot := R.Snapshot(R.RowOf(t, m.topic));
            var count := R.CallCount(reactions.ok, |snapshot|);
            var fails := count > 0 && !reactions.ok(count - 1);
            && f == P.FanOut(t, m, P.Fate(if fails then Some(count - 1) else None, R.AllOps(reactions.ops, count)))
            && (var touched := R.Apply(t, R.PublishOp(m.topic));
                if touched.err.Some? then !f.ok && f.calls == []
                else f.ok == !fails && f.calls == P.CallsFor(snapshot[..count], m)
                     && f.table == R.AfterReactions(touched.table, reactions.ops, count))
  {
    var snapshot := R.Snapshot(R.RowOf(t, m.topic));
    var count := R.CallCount(reactions.ok, |snapshot|);
    var fails := count > 0 && !reactions.ok(count - 1);
    f := P.FanOut(t, m, P.Fate(if fails then Some(count - 1) else None, R.AllOps(reactions.ops, count)));
    R.ReactionsAreCalls(R.Apply(t, R.PublishOp(m.topic)).table, reactions.ops, count);
    assert !fails ==> snapshot[..count] == snapshot;
  }

  /** Another's turn is a step of the portal's. */
  lemma TurnIsRoute(env: P.Env, s: P.Sys, start: R.Table, before: seq<Turn>, turn: Turn)
    requires turn.call.Mutation? && !Refused(turn) && s.table == TableAfter(start, before)
    ensures P.Next(env, s, P.Route(turn.call.op), s.(table := TableAfter(start, before + [turn])))
  {
    assert (before + [turn])[..|before|] == before;
  }

  // ----- Standing subscribers -----

  ghost predicate AllLeave(programs: seq<seq<Call>>, topic: seq<byte>, self: R.Pointer) {
    forall id, k :: 0 <= id < |programs| && 0 <= k < |programs[id]| && programs[id][k].Mutation? ==>
      Leaves(programs[id][k].op, topic, self)
  }

  lemma {:induction false} TurnIsInProgram(history: seq<Turn>, id: nat, k: nat)
    requires k < |history| && history[k].id == id
    ensures history[k].call in CallsOf(history, id)
    decreases |history|
  {
    if k < |history| - 1 {
      TurnIsInProgram(history[..|history| - 1], id, k);
    }
  }

  lemma {:induction false} OpsLeave(history: seq<Turn>, topic: seq<byte>, self: R.Pointer)
    requires forall k :: 0 <= k < |history| && history[k].call.Mutation? ==> Leaves(history[k].call.op, topic, self)
    ensures forall op :: op in OpsOf(history) ==> Leaves(op, topic, self)
    decreases |history|
  {
    if history != [] {
      OpsLeave(history[..|history| - 1], topic, self);
    }
  }

  lemma HistoryLeaves(attached: bool, start: R.Table, programs: seq<seq<Call>>, s: Sys, topic: seq<byte>, self: R.Pointer)
    requires Linear(attached, start, programs, s) && AllLeave(programs, topic, self)
    ensures forall k :: 0 <= k < |s.history| && s.history[k].call.Mutation? ==> Leaves(s.history[k].call.op, topic, self)
  {
    forall k | 0 <= k < |s.history| && s.history[k].call.Mutation? ensures Leaves(s.history[k].call.op, topic, self) {
      var id := s.history[k].id;
      assert OrderOk(programs[id], s, id);
      TurnIsInProgram(s.history, id, k);
      var call := s.history[k].call;
      assert call in programs[id];
      var at :| 0 <= at < |programs[id]| && programs[id][at] == call;
    }
  }

  predicate Publishing(th: Thread, topic: seq<byte>) {
    th.todo != [] && th.todo[0] == Mutation(R.PublishOp(topic)) && th.pc.Calling?
  }

  /** A recipient that stays subscribed is called by every publish on its topic, as long as no call comes to the tables
      while another is there; StandingSubscriberIsLost shows what happens otherwise. */
  lemma SerialPublishReachesSubscriber(start: R.Table, programs: seq<seq<Call>>, schedule: seq<Tick>, id: nat,
                                       topic: seq<byte>, self: R.Pointer, callback: R.Pointer)
    requires Serial(Launch(start, programs), schedule) && AllLeave(programs, topic, self)
    requires Subscribed(start, topic, self, callback)
    ensures var s := Execute(false, Launch(start, programs), schedule);
            id < |s.threads| && Publishing(s.threads[id], topic) ==>
              R.Recipient(self, callback) in s.threads[id].pc.snaps
  {
    SerialIsLinear(start, programs, schedule);
    var s := Execute(false, Launch(start, programs), schedule);
    if id < |s.threads| && Publishing(s.threads[id], topic) {
      LinearPublishReachesSubscriber(start, programs, s, id, topic, self, callback);
    }
  }

  lemma LinearPublishReachesSubscriber(start: R.Table, programs: seq<seq<Call>>, s: Sys, id: nat, topic: seq<byte>,
                                       self: R.Pointer, callback: R.Pointer)
    requires Linear(false, start, programs, s) && AllLeave(programs, topic, self)
    requires Subscribed(start, topic, self, callback) && id < |s.threads| && Publishing(s.threads[id], topic)
    ensures R.Recipient(self, callback) in s.threads[id].pc.snaps
  {
    assert UserCodeOk(s, id);
    var before := s.history[..s.threads[id].pc.at];
    HistoryLeaves(false, start, programs, s, topic, self);
    StandsAfter(start, before, topic, self, callback);
    SnapshotHas(TableAfter(start, before), topic, self, callback);
  }

  lemma StandsAfter(start: R.Table, history: seq<Turn>, topic: seq<byte>, self: R.Pointer, callback: R.Pointer)
    requires Subscribed(start, topic, self, callback)
    requires forall k :: 0 <= k < |history| && history[k].call.Mutation? ==> Leaves(history[k].call.op, topic, self)
    ensures Subscribed(TableAfter(start, history), topic, self, callback)
  {
    OpsLeave(history, topic, self);
    TurnsAreCalls(start, history);
    SubscriptionStandsAll(start, OpsOf(history), topic, self, callback);
  }

  lemma SnapshotHas(t: R.Table, topic: seq<byte>, self: R.Pointer, callback: R.Pointer)
    requires Subscribed(t, topic, self, callback)
    ensures R.Recipient(self, callback) in R.Snapshot(R.RowOf(t, topic))
  {
    PublishReaches(t, topic);
  }
}
