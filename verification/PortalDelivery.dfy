/** What one subscriber is called with, end to end. */
module PortalDelivery {
  import opened Bytes
  import opened FramerSpec
  import opened FramerTheorems
  import R = ManifoldSpec
  import opened ManifoldTheorems
  import opened PortalSystem
  import opened PortalTears

  /** The payloads this recipient was called with on this topic. */
  function ReceivedBy(calls: seq<Call>, topic: seq<byte>, self: R.Pointer): seq<seq<byte>> {
    if calls == [] then []
    else (if calls[0].topic == topic && calls[0].self == self then [calls[0].payload] else [])
         + ReceivedBy(calls[1..], topic, self)
  }

  function PayloadsOn(ms: seq<Message>, topic: seq<byte>): seq<seq<byte>> {
    if ms == [] then []
    else (if ms[0].topic == topic then [ms[0].payload] else []) + PayloadsOn(ms[1..], topic)
  }

  lemma {:induction false} ReceivedByAppend(a: seq<Call>, b: seq<Call>, topic: seq<byte>, self: R.Pointer)
    ensures ReceivedBy(a + b, topic, self) == ReceivedBy(a, topic, self) + ReceivedBy(b, topic, self)
    decreases |a|
  {
    if a == [] {
      assert a + b == b;
    } else {
      assert (a + b)[1..] == a[1..] + b;
      ReceivedByAppend(a[1..], b, topic, self);
    }
  }

  lemma {:induction false} PayloadsOnAppend(a: seq<Message>, b: seq<Message>, topic: seq<byte>)
    ensures PayloadsOn(a + b, topic) == PayloadsOn(a, topic) + PayloadsOn(b, topic)
    decreases |a|
  {
    if a == [] {
      assert a + b == b;
    } else {
      assert (a + b)[1..] == a[1..] + b;
      PayloadsOnAppend(a[1..], b, topic);
    }
  }

  // ----- The subscription stands -----

  /** The calls neither subscribe nor unsubscribe this recipient on this topic, and all name their subject. */
  predicate Leaves(op: R.Op, topic: seq<byte>, self: R.Pointer) {
    op.name != R.UNNAMED && (op.PublishOp? || op.name != topic || op.self != self)
  }

  /** Nor do the calls made while messages are fanned out. */
  ghost predicate FatesLeave(fates: nat -> Fate, topic: seq<byte>, self: R.Pointer) {
    forall k, op :: op in fates(k).ops ==> Leaves(op, topic, self)
  }

  ghost predicate Subscribed(t: R.Table, topic: seq<byte>, self: R.Pointer, callback: R.Pointer) {
    && R.Good(t) && topic != R.UNNAMED && |topic| <= R.MAX_NAME_LENGTH
    && self in R.RecipientsOf(R.RoutesOf(t), topic) && R.RecipientsOf(R.RoutesOf(t), topic)[self] == callback
  }

  lemma RouteStands(m: R.Routes, op: R.Op, topic: seq<byte>, self: R.Pointer)
    requires Leaves(op, topic, self) && self in R.RecipientsOf(m, topic)
    ensures var m' := R.RouteApply(m, op);
            self in R.RecipientsOf(m', topic) && R.RecipientsOf(m', topic)[self] == R.RecipientsOf(m, topic)[self]
  {
  }

  lemma SubscriptionStands(t: R.Table, op: R.Op, topic: seq<byte>, self: R.Pointer, callback: R.Pointer)
    requires Subscribed(t, topic, self, callback) && Leaves(op, topic, self)
    ensures Subscribed(R.Apply(t, op).table, topic, self, callback)
  {
    ApplyRefines(t, op);
    RouteStands(R.RoutesOf(t), op, topic, self);
  }

  lemma {:induction false} SubscriptionStandsAll(t: R.Table, ops: seq<R.Op>, topic: seq<byte>, self: R.Pointer,
                                                 callback: R.Pointer)
    requires Subscribed(t, topic, self, callback) && forall op :: op in ops ==> Leaves(op, topic, self)
    ensures Subscribed(R.ApplyAll(t, ops), topic, self, callback)
    decreases |ops|
  {
    if ops != [] {
      SubscriptionStands(t, ops[0], topic, self, callback);
      SubscriptionStandsAll(R.Apply(t, ops[0]).table, ops[1..], topic, self, callback);
    }
  }

  // ----- One fan-out -----

  ghost predicate DistinctSelves(rs: seq<R.Recipient>) {
    forall k, l :: 0 <= k < l < |rs| ==> rs[k].self != rs[l].self
  }

  lemma {:induction false} CalledOnce(rs: seq<R.Recipient>, m: Message, self: R.Pointer)
    requires DistinctSelves(rs)
    ensures ReceivedBy(CallsFor(rs, m), m.topic, self) ==
            if exists k :: 0 <= k < |rs| && rs[k].self == self then [m.payload] else []
    decreases |rs|
  {
    if rs != [] {
      var rest := rs[1..];
      assert forall k :: 0 <= k < |rest| ==> rest[k] == rs[k + 1];
      CalledOnce(rest, m, self);
      assert CallsFor(rs, m)[1..] == CallsFor(rest, m);
      if rs[0].self == self {
        assert !exists k :: 0 <= k < |rest| && rest[k].self == self;
      } else if k :| 0 <= k < |rs| && rs[k].self == self {
        assert rest[k - 1].self == self;
      }
    }
  }

  lemma {:induction false} OtherTopic(rs: seq<R.Recipient>, m: Message, topic: seq<byte>, self: R.Pointer)
    requires m.topic != topic
    ensures ReceivedBy(CallsFor(rs, m), topic, self) == []
    decreases |rs|
  {
    if rs != [] {
      assert CallsFor(rs, m)[1..] == CallsFor(rs[1..], m);
      OtherTopic(rs[1..], m, topic, self);
    }
  }

  /** A publish reaches exactly the recipients routed for its topic at that moment, each once with its own callback. */
  lemma PublishReaches(t: R.Table, name: R.Name)
    requires R.Good(t) && name != R.UNNAMED && |name| <= R.MAX_NAME_LENGTH && R.CanTouch(R.RoutesOf(t), name)
    ensures var snapshot, routed := R.Snapshot(R.RowOf(t, name)), R.RecipientsOf(R.RoutesOf(t), name);
            && (forall self, callback ::
                  R.Recipient(self, callback) in snapshot <==> self in routed && routed[self] == callback)
            && DistinctSelves(snapshot) && |snapshot| == |routed|
  {
    TableCapacity(t, name);
    RoutesAfterName(t, name);
    SnapshotAgrees(R.RowOf(t, name));
  }

  /** The subscriber was called with the payloads due to it from these messages: all of them if `complete`, and in any
      case no others and in order. */
  ghost predicate Due(calls: seq<Call>, ms: seq<Message>, complete: bool, topic: seq<byte>, self: R.Pointer) {
    && ReceivedBy(calls, topic, self) <= PayloadsOn(ms, topic)
    && (complete ==> ReceivedBy(calls, topic, self) == PayloadsOn(ms, topic))
  }

  lemma CalledInPrefix(rs: seq<R.Recipient>, r: R.Recipient, m: Message, count: nat)
    requires DistinctSelves(rs) && r in rs && count <= |rs|
    ensures var received := ReceivedBy(CallsFor(rs[..count], m), m.topic, r.self);
            received <= [m.payload] && (count == |rs| ==> received == [m.payload])
  {
    CalledOnce(rs[..count], m, r.self);
    var k :| 0 <= k < |rs| && rs[k] == r;
    assert count == |rs| ==> rs[..count][k].self == r.self;
  }

  lemma CalledForOwnTopic(t: R.Table, m: Message, self: R.Pointer, callback: R.Pointer, count: nat)
    requires Subscribed(t, m.topic, self, callback) && count <= |R.Snapshot(R.RowOf(t, m.topic))|
    ensures var snapshot := R.Snapshot(R.RowOf(t, m.topic));
            var received := ReceivedBy(CallsFor(snapshot[..count], m), m.topic, self);
            received <= [m.payload] && (count == |snapshot| ==> received == [m.payload])
  {
    PublishReaches(t, m.topic);
    CalledInPrefix(R.Snapshot(R.RowOf(t, m.topic)), R.Recipient(self, callback), m, count);
  }

  lemma FanOutKeepsSubscription(t: R.Table, m: Message, fate: Fate, topic: seq<byte>, self: R.Pointer,
                                callback: R.Pointer)
    requires Subscribed(t, topic, self, callback) && m.topic != R.UNNAMED
    requires forall op :: op in fate.ops ==> Leaves(op, topic, self)
    ensures Subscribed(FanOut(t, m, fate).table, topic, self, callback)
  {
    var touch := R.PublishOp(m.topic);
    SubscriptionStands(t, touch, topic, self, callback);
    SubscriptionStandsAll(R.Apply(t, touch).table, fate.ops, topic, self, callback);
  }

  lemma FanOutCalls(t: R.Table, m: Message, fate: Fate, topic: seq<byte>, self: R.Pointer, callback: R.Pointer)
    requires Subscribed(t, topic, self, callback)
    ensures Due(FanOut(t, m, fate).calls, [m], FanOut(t, m, fate).ok, topic, self)
  {
    var f := FanOut(t, m, fate);
    assert PayloadsOn([m], topic) == if m.topic == topic then [m.payload] else [];
    if R.Apply(t, R.PublishOp(m.topic)).err.None? {
      var snapshot := R.Snapshot(R.RowOf(t, m.topic));
      var count := if f.ok then |snapshot| else fate.failAt.value + 1;
      assert snapshot[..|snapshot|] == snapshot;
      assert f.calls == CallsFor(snapshot[..count], m);
      if m.topic == topic {
        CalledForOwnTopic(t, m, self, callback, count);
      } else {
        OtherTopic(snapshot[..count], m, topic, self);
      }
    }
  }

  lemma DueNext(first: seq<Call>, rest: seq<Call>, ms: seq<Message>, firstDone: bool, restDone: bool,
                topic: seq<byte>, self: R.Pointer)
    requires ms != [] && Due(first, [ms[0]], firstDone, topic, self) && Due(rest, ms[1..], restDone, topic, self)
    requires firstDone || rest == []
    ensures Due(first + rest, ms, firstDone && restDone, topic, self)
  {
    ReceivedByAppend(first, rest, topic, self);
    PayloadsOnAppend([ms[0]], ms[1..], topic);
    assert ms == [ms[0]] + ms[1..];
  }

  predicate AllOk(oks: seq<bool>) {
    oks == [] || oks[|oks| - 1]
  }

  lemma {:induction false} FanOutAllKeepsSubscription(t: R.Table, ms: seq<Message>, fates: nat -> Fate, from: nat,
                                                      topic: seq<byte>, self: R.Pointer, callback: R.Pointer)
    requires Subscribed(t, topic, self, callback) && forall m :: m in ms ==> m.topic != R.UNNAMED
    requires FatesLeave(fates, topic, self)
    ensures Subscribed(FanOutAll(t, ms, fates, from).table, topic, self, callback)
    decreases |ms|
  {
    if ms != [] {
      FanOutKeepsSubscription(t, ms[0], fates(from), topic, self, callback);
      FanOutAllKeepsSubscription(FanOut(t, ms[0], fates(from)).table, ms[1..], fates, from + 1, topic, self, callback);
    }
  }

  /** All but the last. */
  ghost predicate FrontOk(oks: seq<bool>) {
    forall k :: 0 <= k < |oks| - 1 ==> oks[k]
  }

  lemma OkNext(first: bool, rest: seq<bool>)
    requires FrontOk([first] + rest)
    ensures FrontOk(rest) && (first || rest == []) && AllOk([first] + rest) == (first && AllOk(rest))
  {
    assert forall k :: 0 <= k < |rest| ==> ([first] + rest)[k + 1] == rest[k];
    assert rest != [] ==> ([first] + rest)[0];
  }

  /** The messages of one chunk: all but the last were accepted, so the subscriber had all of them but perhaps that. */
  lemma {:induction false} FanOutAllCalls(t: R.Table, ms: seq<Message>, fates: nat -> Fate, from: nat,
                                          topic: seq<byte>, self: R.Pointer, callback: R.Pointer)
    requires Subscribed(t, topic, self, callback) && forall m :: m in ms ==> m.topic != R.UNNAMED
    requires FatesLeave(fates, topic, self)
    requires FrontOk(FanOutAll(t, ms, fates, from).oks)
    ensures var f := FanOutAll(t, ms, fates, from); Due(f.calls, ms, AllOk(f.oks), topic, self)
    decreases |ms|
  {
    if ms != [] {
      var first := FanOut(t, ms[0], fates(from));
      var rest := FanOutAll(first.table, ms[1..], fates, from + 1);
      OkNext(first.ok, rest.oks);
      FanOutCalls(t, ms[0], fates(from), topic, self, callback);
      FanOutKeepsSubscription(t, ms[0], fates(from), topic, self, callback);
      FanOutAllCalls(first.table, ms[1..], fates, from + 1, topic, self, callback);
      DueNext(first.calls, rest.calls, ms, first.ok, AllOk(rest.oks), topic, self);
    }
  }

  // ----- Whole runs -----

  lemma StepVerdict(cfg: Config, accepts: nat -> bool, s: Decoder, b: byte)
    requires s.Valid(cfg)
    ensures var o := Step(cfg, Callback(accepts), s, b);
            |o.state.log| <= |s.log| + 1 && (|o.state.log| == |s.log| + 1 && o.err.None? ==> accepts(|s.log|))
  {
  }

  /** A decode call hands nothing over after a message that was rejected. */
  lemma {:induction false} OnlyLastIsRejected(cfg: Config, accepts: nat -> bool, s: Decoder, bytes: seq<byte>)
    requires s.Valid(cfg)
    ensures var o := Run(cfg, Callback(accepts), s, bytes);
            forall k :: |s.log| <= k < |o.state.log| && (k < |o.state.log| - 1 || o.err.None?) ==> accepts(k)
    decreases |bytes|
  {
    if bytes != [] {
      StepVerdict(cfg, accepts, s, bytes[0]);
      var o := Step(cfg, Callback(accepts), s, bytes[0]);
      if o.err.None? {
        OnlyLastIsRejected(cfg, accepts, o.state, bytes[1..]);
      }
    }
  }

  /** No other part of the system touches the subscription. */
  ghost predicate Undisturbed(env: Env, events: seq<Event>, topic: seq<byte>, self: R.Pointer) {
    && (forall e :: e in events && e.Route? ==> Leaves(e.op, topic, self))
    && FatesLeave(env.fates, topic, self)
  }

  lemma UndisturbedBefore(env: Env, events: seq<Event>, topic: seq<byte>, self: R.Pointer)
    requires Undisturbed(env, events, topic, self) && events != []
    ensures Undisturbed(env, events[..|events| - 1], topic, self)
    ensures var e := events[|events| - 1]; e.Route? ==> Leaves(e.op, topic, self)
  {
    assert events[|events| - 1] in events;
  }

  ghost predicate Served(s: Sys, topic: seq<byte>, self: R.Pointer, callback: R.Pointer) {
    Subscribed(s.table, topic, self, callback) && Due(s.calls, s.decoder.log, s.alive, topic, self)
  }

  lemma DueAppend(a: seq<Call>, b: seq<Call>, ms: seq<Message>, more: seq<Message>, done: bool,
                  topic: seq<byte>, self: R.Pointer)
    requires Due(a, ms, true, topic, self) && Due(b, more, done, topic, self)
    ensures Due(a + b, ms + more, done, topic, self)
  {
    ReceivedByAppend(a, b, topic, self);
    PayloadsOnAppend(ms, more, topic);
  }

  /** Of what a chunk hands over, all but the last was accepted. */
  lemma HandedWereAccepted(env: Env, d: Decoder, t: R.Table, chunk: seq<byte>)
    requires d.Valid(env.cfg) && AnswersAgree(env, d, t, chunk)
    ensures var oks := FanOutChunk(env, d, t, chunk).oks;
            && (forall k :: 0 <= k < |oks| - 1 ==> oks[k])
            && (Run(env.cfg, Callback(env.accepts), d, chunk).err.None? ==> AllOk(oks))
  {
    var oks := FanOutChunk(env, d, t, chunk).oks;
    OnlyLastIsRejected(env.cfg, env.accepts, d, chunk);
    assert forall k :: 0 <= k < |oks| ==> env.accepts(|d.log| + k) == oks[k];
  }

  /** What a drain step hands over, as far as the subscriber is concerned. */
  lemma DrainHands(env: Env, s: Sys, count: nat, s': Sys) returns (handed: seq<Message>, f: FannedAll)
    requires Next(env, s, Drain(count), s')
    ensures s.alive && s'.decoder.log == s.decoder.log + handed
    ensures f == FanOutAll(s.table, handed, env.fates, |s.decoder.log|)
    ensures s'.table == f.table && s'.calls == s.calls + f.calls
    ensures forall k :: 0 <= k < |handed| - 1 ==> f.oks[k]
    ensures s'.alive ==> AllOk(f.oks)
  {
    HandedWereAccepted(env, s.decoder, s.table, s.wire[..count]);
    handed := Handed(env, s.decoder, s.wire[..count]);
    f := FanOutChunk(env, s.decoder, s.table, s.wire[..count]);
  }

  lemma ServedDrain(s: Sys, handed: seq<Message>, fates: nat -> Fate, s': Sys,
                    topic: seq<byte>, self: R.Pointer, callback: R.Pointer)
    requires Served(s, topic, self, callback) && s.alive && s'.decoder.log == s.decoder.log + handed
    requires FatesLeave(fates, topic, self)
    requires forall m :: m in s'.decoder.log ==> m.topic != []
    requires var f := FanOutAll(s.table, handed, fates, |s.decoder.log|);
             && s'.table == f.table && s'.calls == s.calls + f.calls
             && (forall k :: 0 <= k < |handed| - 1 ==> f.oks[k])
             && (s'.alive ==> AllOk(f.oks))
    ensures Served(s', topic, self, callback)
  {
    assert forall m :: m in handed ==> m in s'.decoder.log;
    var f := FanOutAll(s.table, handed, fates, |s.decoder.log|);
    FanOutAllKeepsSubscription(s.table, handed, fates, |s.decoder.log|, topic, self, callback);
    FanOutAllCalls(s.table, handed, fates, |s.decoder.log|, topic, self, callback);
    DueAppend(s.calls, f.calls, s.decoder.log, handed, AllOk(f.oks), topic, self);
  }

  lemma ServedStep(env: Env, s: Sys, e: Event, s': Sys, topic: seq<byte>, self: R.Pointer, callback: R.Pointer)
    requires Served(s, topic, self, callback) && Next(env, s, e, s')
    requires e.Route? ==> Leaves(e.op, topic, self)
    requires FatesLeave(env.fates, topic, self)
    requires forall m :: m in s'.decoder.log ==> m.topic != []
    ensures Served(s', topic, self, callback)
  {
    match e {
      case Publish(_) =>
      case Write(_) =>
      case WriteFails =>
      case Drain(count) =>
        var handed, _ := DrainHands(env, s, count, s');
        ServedDrain(s, handed, env.fates, s', topic, self, callback);
      case Route(op) => SubscriptionStands(s.table, op, topic, self, callback);
    }
  }

  /** The topics of what has been handed over are those of what was published. */
  lemma HandedTopics(env: Env, states: seq<Sys>, events: seq<Event>)
    requires IsRun(env, states, events) && ShortTears(env, states, events)
    requires forall m :: m in states[|events|].sent ==> m.topic != []
    ensures forall m :: m in states[|events|].decoder.log ==> m.topic != []
  {
    ShortTearsLoseOnlyTheirOwn(env, states, events);
    FinishedIsReceived(env, states, events);
  }

  lemma FinishedIsReceived(env: Env, states: seq<Sys>, events: seq<Event>)
    requires IsRun(env, states, events) && forall m :: m in states[|events|].sent ==> m.topic != []
    ensures Received(CString(states[0].decoder.storage), Finished(events)) == Finished(events)
    ensures forall m :: m in Finished(events) ==> m.topic != []
  {
    FinishedAreSent(env, states, events);
    ReceivedAsSent(CString(states[0].decoder.storage), Finished(events));
    assert forall i :: 0 <= i < |Finished(events)| ==> Finished(events)[i] in Finished(events);
  }

  lemma SentGrows(env: Env, s: Sys, e: Event, s': Sys)
    requires Next(env, s, e, s')
    ensures s.sent <= s'.sent && (s.torn.Some? || e.WriteFails? ==> s'.torn.Some?)
  {
  }

  lemma {:induction false} ServedRun(env: Env, states: seq<Sys>, events: seq<Event>,
                                     topic: seq<byte>, self: R.Pointer, callback: R.Pointer)
    requires IsRun(env, states, events) && Undisturbed(env, events, topic, self)
    requires Subscribed(states[0].table, topic, self, callback) && ShortTears(env, states, events)
    requires forall m :: m in states[|events|].sent ==> m.topic != []
    ensures Served(states[|events|], topic, self, callback)
    decreases |events|
  {
    if events != [] {
      var n := |events| - 1;
      var front, s, s' := RunBefore(env, states, events);
      SentGrows(env, s, events[n], s');
      ShortTearsBefore(env, states, events);
      UndisturbedBefore(env, events, topic, self);
      ServedRun(env, front, events[..n], topic, self, callback);
      HandedTopics(env, states, events);
      ServedStep(env, s, events[n], s', topic, self, callback);
    }
  }

  lemma {:induction false} PayloadsOnPrefix(a: seq<Message>, b: seq<Message>, topic: seq<byte>)
    requires a <= b
    ensures PayloadsOn(a, topic) <= PayloadsOn(b, topic)
  {
    assert b == a + b[|a|..];
    PayloadsOnAppend(a, b[|a|..], topic);
  }

  /** A recipient that stays subscribed is called with a prefix of the payloads published on its topic in frames that were
      not left unfinished, in order and each once, in every reachable state and whatever the other recipients do, provided
      that no frame was left unfinished after more than its first byte; and with all of them once everything is written
      and drained and no fan-out has failed. The calls on the manifold are steps of their own, none coming to the tables
      while another is there. */
  lemma SubscriberReceivesWhatWasFinished(env: Env, states: seq<Sys>, events: seq<Event>,
                                          topic: seq<byte>, self: R.Pointer, callback: R.Pointer)
    requires IsRun(env, states, events) && Undisturbed(env, events, topic, self)
    requires Subscribed(states[0].table, topic, self, callback) && ShortTears(env, states, events)
    requires forall m :: m in states[|events|].sent ==> m.topic != []
    ensures var s := states[|events|];
            && ReceivedBy(s.calls, topic, self) <= PayloadsOn(Finished(events), topic)
            && (s.alive && s.wire == [] && s.unsent == [] && !s.decoder.Pending() ==>
                  ReceivedBy(s.calls, topic, self) == PayloadsOn(Finished(events), topic))
  {
    ServedRun(env, states, events, topic, self, callback);
    ShortTearsLoseOnlyTheirOwn(env, states, events);
    FinishedIsReceived(env, states, events);
    ServedWith(states[|events|], Finished(events), topic, self, callback);
  }

  lemma ServedWith(s: Sys, ms: seq<Message>, topic: seq<byte>, self: R.Pointer, callback: R.Pointer)
    requires Served(s, topic, self, callback) && s.decoder.log <= ms
    ensures ReceivedBy(s.calls, topic, self) <= PayloadsOn(ms, topic)
    ensures s.alive && !s.decoder.Pending() && s.decoder.log + s.decoder.Owed() == ms ==>
              ReceivedBy(s.calls, topic, self) == PayloadsOn(ms, topic)
  {
    PayloadsOnPrefix(s.decoder.log, ms, topic);
    assert !s.decoder.Pending() ==> s.decoder.log + s.decoder.Owed() == s.decoder.log;
  }

  lemma {:induction false} NoTearIsShort(env: Env, states: seq<Sys>, events: seq<Event>)
    requires IsRun(env, states, events) && states[|events|].torn.None?
    ensures ShortTears(env, states, events)
    decreases |events|
  {
    if events != [] {
      var n := |events| - 1;
      var front, s, s' := RunBefore(env, states, events);
      SentGrows(env, s, events[n], s');
      NoTearIsShort(env, front, events[..n]);
      ShortTearsBefore(env, states, events);
    }
  }

  /** In particular, where no frame was left unfinished, with what was published. */
  lemma SubscriberReceivesWhatWasPublished(env: Env, states: seq<Sys>, events: seq<Event>,
                                           topic: seq<byte>, self: R.Pointer, callback: R.Pointer)
    requires IsRun(env, states, events) && Undisturbed(env, events, topic, self)
    requires Subscribed(states[0].table, topic, self, callback) && states[|events|].torn.None?
    requires forall m :: m in states[|events|].sent ==> m.topic != []
    ensures var s := states[|events|];
            && ReceivedBy(s.calls, topic, self) <= PayloadsOn(s.sent, topic)
            && (s.alive && s.wire == [] && s.unsent == [] && !s.decoder.Pending() ==>
                  ReceivedBy(s.calls, topic, self) == PayloadsOn(s.sent, topic))
  {
    NoTearIsShort(env, states, events);
    FinishedAreSent(env, states, events);
    SubscriberReceivesWhatWasFinished(env, states, events, topic, self, callback);
  }

  /** The receiver survives a message exactly when, at the publish's turn at the tables, its topic fits a subject name,
      has a subject or finds one of the ten free, and no callback of its snapshot fails. */
  lemma FanOutSucceeds(t: R.Table, m: Message, fate: Fate)
    requires R.Good(t) && m.topic != R.UNNAMED
    ensures FanOut(t, m, fate).ok <==>
            && |m.topic| <= R.MAX_NAME_LENGTH && R.CanTouch(R.RoutesOf(t), m.topic)
            && (fate.failAt.None? || fate.failAt.value >= |R.RecipientsOf(R.RoutesOf(t), m.topic)|)
  {
    var routed := R.RecipientsOf(R.RoutesOf(t), m.topic);
    if |m.topic| <= R.MAX_NAME_LENGTH {
      var touched := R.Apply(t, R.PublishOp(m.topic));
      assert touched.err.None? <==> R.CanTouch(R.RoutesOf(t), m.topic) by {
        TouchRefines(t, m.topic);
      }
      if touched.err.None? {
        var snapshot := R.Snapshot(R.RowOf(t, m.topic));
        assert |snapshot| == |routed| by {
          PublishReaches(t, m.topic);
        }
      }
    }
  }

  // ----- Drains are always possible -----

  /** The callback's answers only cut short what is handed over. */
  lemma {:induction false} AnswersOnlyTruncate(cfg: Config, accepts: nat -> bool, s: Decoder, bytes: seq<byte>)
    requires s.Valid(cfg)
    ensures Run(cfg, Callback(accepts), s, bytes).state.log <= Run(cfg, Callback(_ => true), s, bytes).state.log
    decreases |bytes|
  {
    if bytes != [] {
      var yes: nat -> bool := _ => true;
      StepTruncates(cfg, accepts, yes, s, bytes[0]);
      var o := Step(cfg, Callback(accepts), s, bytes[0]);
      if o.err.None? {
        AnswersOnlyTruncate(cfg, accepts, o.state, bytes[1..]);
      }
    }
  }

  lemma StepTruncates(cfg: Config, accepts: nat -> bool, yes: nat -> bool, s: Decoder, b: byte)
    requires s.Valid(cfg) && forall k :: yes(k)
    ensures var o, all := Step(cfg, Callback(accepts), s, b), Step(cfg, Callback(yes), s, b);
            (o.err.None? ==> o == all) && o.state.log <= all.state.log
  {
  }

  lemma {:induction false} FanOutAllPrefix(t: R.Table, a: seq<Message>, b: seq<Message>, fates: nat -> Fate, from: nat)
    requires a <= b
    ensures FanOutAll(t, a, fates, from).oks <= FanOutAll(t, b, fates, from).oks
    decreases |a|
  {
    if a != [] {
      FanOutAllPrefix(FanOut(t, a[0], fates(from)).table, a[1..], b[1..], fates, from + 1);
    }
  }

  /** The answers that the fan-outs of these messages give. */
  function AnswersOf(before: nat, oks: seq<bool>, otherwise: nat -> bool): nat -> bool {
    (k: nat) => if before <= k < before + |oks| then oks[k - before] else otherwise(k)
  }

  /** Whatever the fates, there are answers with which a chunk can be drained: those that the fan-outs give. */
  lemma AnswersExist(env: Env, d: Decoder, t: R.Table, chunk: seq<byte>) returns (accepts: nat -> bool)
    requires d.Valid(env.cfg)
    ensures forall k :: 0 <= k < |d.log| ==> accepts(k) == env.accepts(k)
    ensures AnswersAgree(env.(accepts := accepts), d, t, chunk)
  {
    var before := |d.log|;
    var offered := Run(env.cfg, Callback(_ => true), d, chunk).state.log[before..];
    var oks := FanOutAll(t, offered, env.fates, before).oks;
    accepts := AnswersOf(before, oks, env.accepts);
    AnswersOnlyTruncate(env.cfg, accepts, d, chunk);
    var handed := Handed(env.(accepts := accepts), d, chunk);
    assert handed <= offered;
    FanOutAllPrefix(t, handed, offered, env.fates, before);
  }

  lemma DrainIsPossible(env: Env, s: Sys, count: nat) returns (accepts: nat -> bool, s': Sys)
    requires s.alive && 0 < count <= |s.wire| && count <= RAW_INPUT_SIZE && s.decoder.Valid(env.cfg)
    ensures forall k :: 0 <= k < |s.decoder.log| ==> accepts(k) == env.accepts(k)
    ensures Next(env.(accepts := accepts), s, Drain(count), s')
  {
    accepts := AnswersExist(env, s.decoder, s.table, s.wire[..count]);
    s' := Drained(env.(accepts := accepts), s, count);
  }
}
