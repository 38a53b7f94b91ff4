/** The loops of Portal as runs of PortalSystem: what a publish and a drain do is what the state machine's events do. */
module PortalRuns {
  import opened Bytes
  import opened FramerSpec
  import opened FramerTheorems
  import opened Portal
  import opened PortalSystem
  import opened PortalDelivery
  import Routing = ManifoldSpec

  /** The events lead from one state to the other. */
  ghost predicate Leads(env: Env, s: Sys, events: seq<Event>, s': Sys)
    decreases |events|
  {
    if events == [] then s' == s
    else exists mid :: Next(env, s, events[0], mid) && Leads(env, mid, events[1..], s')
  }

  lemma LeadsOne(env: Env, s: Sys, e: Event, s': Sys)
    requires Next(env, s, e, s')
    ensures Leads(env, s, [e], s')
  {
    assert [e][1..] == [] && Leads(env, s', [], s');
  }

  lemma LeadsFirst(env: Env, s: Sys, e: Event, mid: Sys, events: seq<Event>, s': Sys)
    requires Next(env, s, e, mid) && Leads(env, mid, events, s')
    ensures Leads(env, s, [e] + events, s')
  {
    assert ([e] + events)[0] == e && ([e] + events)[1..] == events;
  }

  lemma FirstState(env: Env, s: Sys, events: seq<Event>, s': Sys) returns (mid: Sys)
    requires Leads(env, s, events, s') && events != []
    ensures Next(env, s, events[0], mid) && Leads(env, mid, events[1..], s')
  {
    mid :| Next(env, s, events[0], mid) && Leads(env, mid, events[1..], s');
  }

  lemma {:induction false} LeadsOn(env: Env, s: Sys, a: seq<Event>, mid: Sys, b: seq<Event>, s': Sys)
    requires Leads(env, s, a, mid) && Leads(env, mid, b, s')
    ensures Leads(env, s, a + b, s')
    decreases |a|
  {
    if a == [] {
      assert a + b == b;
    } else {
      var s1 := FirstState(env, s, a, mid);
      LeadsOn(env, s1, a[1..], mid, b, s');
      LeadsFirst(env, s, a[0], s1, a[1..] + b, s');
      assert [a[0]] + (a[1..] + b) == a + b;
    }
  }

  lemma LongerRun(env: Env, states: seq<Sys>, events: seq<Event>, e: Event, s': Sys)
    requires IsRun(env, states, events) && Next(env, states[|events|], e, s')
    ensures IsRun(env, states + [s'], events + [e])
  {
  }

  /** Such events from an initial state are a run, of which the system's theorems speak. */
  lemma {:induction false} LeadsIsRun(env: Env, states: seq<Sys>, events: seq<Event>, more: seq<Event>, s': Sys)
    returns (longer: seq<Sys>)
    requires IsRun(env, states, events) && Leads(env, states[|events|], more, s')
    ensures IsRun(env, longer, events + more) && longer[0] == states[0] && longer[|events + more|] == s'
    decreases |more|
  {
    if more == [] {
      longer := states;
      assert events + more == events;
    } else {
      var mid := FirstState(env, states[|events|], more, s');
      LongerRun(env, states, events, more[0], mid);
      longer := LeadsIsRun(env, states + [mid], events + [more[0]], more[1..], s');
      assert events + [more[0]] + more[1..] == events + more;
    }
  }

  // ----- Publishing -----

  lemma TakenTwice(s: Sys, count: nat, more: nat)
    requires count + more <= |s.unsent|
    ensures Taken(Taken(s, count), more) == Taken(s, count + more)
  {
    SlicedTwice(s.unsent, count, more);
    Joins(s.wire, s.unsent[..count], s.unsent[count..][..more]);
  }

  lemma SlicedTwice(u: seq<byte>, a: nat, b: nat)
    requires a + b <= |u|
    ensures u[a..][b..] == u[a + b..] && u[..a] + u[a..][..b] == u[..a + b]
  {
  }

  lemma WriteTakes(env: Env, s: Sys, count: nat)
    requires count <= |s.unsent|
    ensures Next(env, s, Write(count), Taken(s, count))
  {
  }

  /** A write, and the writes that take more. */
  lemma WriteThen(env: Env, s: Sys, count: nat, rest: seq<Event>, taken: nat)
    requires count <= taken <= |s.unsent|
    requires Leads(env, Taken(s, count), rest, Taken(Taken(s, count), taken - count))
    ensures Leads(env, s, [Write(count)] + rest, Taken(s, taken))
  {
    TakenTwice(s, count, taken - count);
    assert count + (taken - count) == taken;
    WriteTakes(env, s, count);
    LeadsFirst(env, s, Write(count), Taken(s, count), rest, Taken(s, taken));
  }

  lemma WritesRest(env: Env, s: Sys, taken: nat)
    requires taken == |s.unsent|
    ensures Leads(env, s, [Write(|s.unsent|)], Taken(s, taken))
  {
    WriteTakes(env, s, taken);
    LeadsOne(env, s, Write(taken), Taken(s, taken));
  }

  lemma TakesNothing(env: Env, s: Sys)
    ensures Leads(env, s, [], Taken(s, 0))
  {
    assert s.wire + s.unsent[..0] == s.wire;
  }

  /** The writes of the loop against a script, with so many bytes to be written. */
  function Writes(script: seq<WriteOutcome>, n: nat): (events: seq<Event>)
    ensures forall k :: 0 <= k < |events| ==> events[k].Write?
    decreases |script|
  {
    if script == [] || script[0].Fail? then []
    else if script[0].most >= n then [Write(n)]
    else [Write(script[0].most)] + Writes(script[1..], n - script[0].most)
  }

  /** They take all but the bytes left. */
  lemma {:induction false} WritesAreEvents(env: Env, s: Sys, script: seq<WriteOutcome>, taken: nat)
    requires s.unsent != [] && taken == |s.unsent| - Absorb(script, |s.unsent|).1
    ensures Leads(env, s, Writes(script, |s.unsent|), Taken(s, taken))
    decreases |script|
  {
    if script == [] || script[0].Fail? {
      TakesNothing(env, s);
    } else if script[0].most >= |s.unsent| {
      WritesRest(env, s, taken);
    } else {
      var count := script[0].most;
      var mid := Taken(s, count);
      assert |mid.unsent| == |s.unsent| - count;
      WritesAreEvents(env, mid, script[1..], taken - count);
      WriteThen(env, s, count, Writes(script[1..], |mid.unsent|), taken);
    }
  }

  /** One Publish, then writes. */
  ghost predicate Published(events: seq<Event>, m: Message) {
    events != [] && events[0] == Publish(m) && forall k :: 1 <= k < |events| ==> events[k].Write?
  }

  /** The event Publish and a row of writes. */
  lemma PublishAndWrites(env: Env, s: Sys, m: Message, frame: seq<byte>, script: seq<WriteOutcome>, taken: nat)
    returns (events: seq<Event>)
    requires s.unsent == [] && Sendable(env.cfg, m)
    requires frame == Frame(env.cfg.version, m) && |frame| <= ENCODED_BUFFER_SIZE
    requires taken == |frame| - Absorb(script, |frame|).1
    ensures Leads(env, s, events, Taken(Started(s, m, frame), taken))
    ensures Published(events, m)
  {
    var mid := Started(s, m, frame);
    assert Next(env, s, Publish(m), mid);
    var writes := Writes(script, |frame|);
    WritesAreEvents(env, mid, script, taken);
    LeadsFirst(env, s, Publish(m), mid, writes, Taken(mid, taken));
    events := [Publish(m)] + writes;
  }

  /** The state after a publish whose frame fared so: a device that fails before it has taken anything leaves all as it
      was, and one that fails in the middle of the frame leaves it unfinished. */
  function AfterPublish(s: Sys, m: Message, frame: seq<byte>, taken: nat, result: PublishResult): Sys
    requires taken <= |frame|
  {
    if result != DeviceFailed then Taken(Started(s, m, frame), taken)
    else if taken == 0 then s
    else Torn(Taken(Started(s, m, frame), taken))
  }

  /** A publish of a sendable message is the event Publish and writes, which put on the wire what NetPortal.Publish says
      and leave the rest unsent, and then a failed write if the device fails in the middle of the frame. */
  lemma PublishIsARun(env: Env, s: Sys, m: Message, script: seq<WriteOutcome>) returns (events: seq<Event>, s': Sys)
    requires s.unsent == [] && Sendable(env.cfg, m) && |Frame(env.cfg.version, m)| <= ENCODED_BUFFER_SIZE
    ensures Leads(env, s, events, s')
    ensures var frame := Frame(env.cfg.version, m);
            var (_, left, result) := Absorb(script, |frame|);
            && s' == AfterPublish(s, m, frame, |frame| - left, result)
            && s'.wire == s.wire + frame[..|frame| - left]
            && (result != DeviceFailed ==> Published(events, m) && s'.unsent == frame[|frame| - left..])
  {
    var frame := Frame(env.cfg.version, m);
    var (_, left, result) := Absorb(script, |frame|);
    var taken := |frame| - left;
    s' := AfterPublish(s, m, frame, taken, result);
    if result == DeviceFailed && taken == 0 {
      events := [];
      assert s.wire + frame[..0] == s.wire;
    } else {
      events := PublishAndWrites(env, s, m, frame, script, taken);
      if result == DeviceFailed {
        var written := Taken(Started(s, m, frame), taken);
        LeadsOne(env, written, WriteFails, s');
        LeadsOn(env, s, events, written, [WriteFails], s');
        events := events + [WriteFails];
      }
    }
  }

  // ----- Draining -----

  /** The answers that the decoder gets are those of the fan-outs, chunk after chunk. */
  ghost predicate Agree(env: Env, d: Decoder, t: Routing.Table, chunks: seq<seq<byte>>)
    requires d.Valid(env.cfg)
    decreases |chunks|
  {
    chunks != [] ==>
      && AnswersAgree(env, d, t, chunks[0])
      && Agree(env, Run(env.cfg, Callback(env.accepts), d, chunks[0]).state, FanOutChunk(env, d, t, chunks[0]).table,
               chunks[1..])
  }

  /** The messages handed over in all the chunks, and their fan-outs. */
  function HandedBy(env: Env, d: Decoder, chunks: seq<seq<byte>>): seq<Message>
    requires d.Valid(env.cfg)
  {
    RunChunks(env.cfg, Callback(env.accepts), d, chunks).state.log[|d.log|..]
  }

  function FannedBy(env: Env, d: Decoder, t: Routing.Table, chunks: seq<seq<byte>>): (f: FannedAll)
    requires d.Valid(env.cfg)
    ensures |f.oks| == |HandedBy(env, d, chunks)|
  {
    FanOutAll(t, HandedBy(env, d, chunks), env.fates, |d.log|)
  }

  function BothFanned(a: FannedAll, b: FannedAll): FannedAll {
    FannedAll(b.table, a.calls + b.calls, a.oks + b.oks)
  }

  function Then(one: Fanned, rest: FannedAll): FannedAll {
    FannedAll(rest.table, one.calls + rest.calls, [one.ok] + rest.oks)
  }

  lemma ThenBoth(one: Fanned, front: FannedAll, back: FannedAll)
    ensures Then(one, BothFanned(front, back)) == BothFanned(Then(one, front), back)
  {
    assert one.calls + (front.calls + back.calls) == one.calls + front.calls + back.calls;
    assert [one.ok] + (front.oks + back.oks) == [one.ok] + front.oks + back.oks;
  }

  /** Fan-outs of whatever kind, one after another. */
  function Fold(fan: (Routing.Table, Message, Fate) -> Fanned, t: Routing.Table, ms: seq<Message>, fates: nat -> Fate,
                from: nat): FannedAll
    decreases |ms|
  {
    if ms == [] then FannedAll(t, [], [])
    else
      var one := fan(t, ms[0], fates(from));
      Then(one, Fold(fan, one.table, ms[1..], fates, from + 1))
  }

  lemma {:induction false} FoldBoth(fan: (Routing.Table, Message, Fate) -> Fanned, t: Routing.Table, a: seq<Message>,
                                    b: seq<Message>, fates: nat -> Fate, from: nat)
    ensures var first := Fold(fan, t, a, fates, from);
            Fold(fan, t, a + b, fates, from) == BothFanned(first, Fold(fan, first.table, b, fates, from + |a|))
    decreases |a|
  {
    if a == [] {
      assert a + b == b;
      NothingFirst(t, Fold(fan, t, b, fates, from));
    } else {
      var one := fan(t, a[0], fates(from));
      FoldBoth(fan, one.table, a[1..], b, fates, from + 1);
      var front := Fold(fan, one.table, a[1..], fates, from + 1);
      ThenBoth(one, front, Fold(fan, front.table, b, fates, from + |a|));
      assert (a + b)[1..] == a[1..] + b;
    }
  }

  lemma {:induction false} FanOutAllIsFold(t: Routing.Table, ms: seq<Message>, fates: nat -> Fate, from: nat)
    ensures FanOutAll(t, ms, fates, from) == Fold(FanOut, t, ms, fates, from)
    decreases |ms|
  {
    if ms != [] {
      FanOutAllIsFold(FanOut(t, ms[0], fates(from)).table, ms[1..], fates, from + 1);
    }
  }

  lemma FanOutAllBoth(t: Routing.Table, a: seq<Message>, b: seq<Message>, fates: nat -> Fate, from: nat)
    returns (first: FannedAll, rest: FannedAll)
    ensures first == FanOutAll(t, a, fates, from) && rest == FanOutAll(first.table, b, fates, from + |a|)
    ensures FanOutAll(t, a + b, fates, from) == BothFanned(first, rest)
  {
    FanOutAllIsFold(t, a, fates, from);
    first := Fold(FanOut, t, a, fates, from);
    FanOutAllIsFold(first.table, b, fates, from + |a|);
    rest := Fold(FanOut, first.table, b, fates, from + |a|);
    FanOutAllIsFold(t, a + b, fates, from);
    FoldBoth(FanOut, t, a, b, fates, from);
  }

  lemma NothingFirst(t: Routing.Table, all: FannedAll)
    ensures BothFanned(FannedAll(t, [], []), all) == all
  {
    assert [] + all.calls == all.calls && [] + all.oks == all.oks;
  }

  /** The first chunk, and then the others unless it fails. */
  lemma FannedStep(env: Env, d: Decoder, t: Routing.Table, chunks: seq<seq<byte>>)
    requires d.Valid(env.cfg)
    ensures chunks == [] ==> FannedBy(env, d, t, chunks) == FannedAll(t, [], [])
    ensures chunks != [] ==>
              var o, first := Run(env.cfg, Callback(env.accepts), d, chunks[0]), FanOutChunk(env, d, t, chunks[0]);
              && |o.state.log| == |d.log| + |first.oks|
              && FannedBy(env, d, t, chunks) ==
                 if o.err.Some? then first else BothFanned(first, FannedBy(env, o.state, first.table, chunks[1..]))
  {
    if chunks != [] {
      var o, first := Run(env.cfg, Callback(env.accepts), d, chunks[0]), Handed(env, d, chunks[0]);
      if o.err.None? {
        var rest := HandedBy(env, o.state, chunks[1..]);
        LogGrows(d.log, o.state.log, RunChunks(env.cfg, Callback(env.accepts), o.state, chunks[1..]).state.log);
        assert HandedBy(env, d, chunks) == first + rest;
        var _, _ := FanOutAllBoth(t, first, rest, env.fates, |d.log|);
      }
    }
  }

  lemma LogGrows(a: seq<Message>, b: seq<Message>, c: seq<Message>)
    requires a <= b <= c
    ensures c[|a|..] == b[|a|..] + c[|b|..]
  {
  }

  /** Answers that agree on all that is handed over agree chunk after chunk. */
  lemma {:induction false} AgreeOnAll(env: Env, d: Decoder, t: Routing.Table, chunks: seq<seq<byte>>)
    requires d.Valid(env.cfg) && OnlyLastFails(env.cfg, Callback(env.accepts), d, chunks)
    requires Gives(env.accepts, |d.log|, FannedBy(env, d, t, chunks).oks)
    ensures Agree(env, d, t, chunks)
    decreases |chunks|
  {
    if chunks != [] {
      OnlyLastFailsTail(env.cfg, Callback(env.accepts), d, chunks);
      var o, first, others := FirstAgrees(env, d, t, chunks);
      if o.err.None? {
        AgreeOnAll(env, o.state, first.table, chunks[1..]);
      } else {
        assert chunks[1..] == [];
      }
    }
  }

  lemma FirstAgrees(env: Env, d: Decoder, t: Routing.Table, chunks: seq<seq<byte>>)
    returns (o: Outcome, first: FannedAll, others: FannedAll)
    requires d.Valid(env.cfg) && chunks != []
    requires Gives(env.accepts, |d.log|, FannedBy(env, d, t, chunks).oks)
    ensures o == Run(env.cfg, Callback(env.accepts), d, chunks[0]) && first == FanOutChunk(env, d, t, chunks[0])
    ensures others == FannedBy(env, o.state, first.table, chunks[1..])
    ensures AnswersAgree(env, d, t, chunks[0]) && (o.err.None? ==> Gives(env.accepts, |o.state.log|, others.oks))
  {
    o, first, others := FannedParts(env, d, t, chunks);
    SplitGives(env.accepts, |d.log|, FannedBy(env, d, t, chunks), first, |o.state.log|, others, o.err.Some?);
  }

  lemma FannedParts(env: Env, d: Decoder, t: Routing.Table, chunks: seq<seq<byte>>)
    returns (o: Outcome, first: FannedAll, others: FannedAll)
    requires d.Valid(env.cfg) && chunks != []
    ensures o == Run(env.cfg, Callback(env.accepts), d, chunks[0]) && first == FanOutChunk(env, d, t, chunks[0])
    ensures others == FannedBy(env, o.state, first.table, chunks[1..])
    ensures FannedBy(env, d, t, chunks) == if o.err.Some? then first else BothFanned(first, others)
    ensures |o.state.log| == |d.log| + |first.oks|
  {
    FannedStep(env, d, t, chunks);
    o, first := Run(env.cfg, Callback(env.accepts), d, chunks[0]), FanOutChunk(env, d, t, chunks[0]);
    others := FannedBy(env, o.state, first.table, chunks[1..]);
  }

  lemma SplitGives(accepts: nat -> bool, from: nat, all: FannedAll, first: FannedAll, at: nat, others: FannedAll,
                   ends: bool)
    requires Gives(accepts, from, all.oks) && at == from + |first.oks|
    requires all == if ends then first else BothFanned(first, others)
    ensures Gives(accepts, from, first.oks) && (!ends ==> Gives(accepts, at, others.oks))
  {
    if !ends {
      GivesBoth(accepts, from, first.oks, at, others.oks);
    }
  }

  lemma GivesBoth(accepts: nat -> bool, from: nat, a: seq<bool>, at: nat, b: seq<bool>)
    requires Gives(accepts, from, a + b) && at == from + |a|
    ensures Gives(accepts, from, a) && Gives(accepts, at, b)
  {
    assert forall k :: 0 <= k < |a| ==> a[k] == (a + b)[k];
    forall k | 0 <= k < |b| ensures accepts(at + k) == b[k] {
      assert b[k] == (a + b)[|a| + k] && from + (|a| + k) == at + k;
    }
  }

  function Drains(chunks: seq<seq<byte>>): (events: seq<Event>)
    ensures |events| == |chunks|
  {
    if chunks == [] then [] else [Drain(|chunks[0]|)] + Drains(chunks[1..])
  }

  /** The state after these chunks have been read, decoded and fanned out, with `rest` left on the wire. */
  function DrainedAll(env: Env, s: Sys, chunks: seq<seq<byte>>, rest: seq<byte>): Sys
    requires s.decoder.Valid(env.cfg)
  {
    var o := RunChunks(env.cfg, Callback(env.accepts), s.decoder, chunks);
    var f := FannedBy(env, s.decoder, s.table, chunks);
    s.(wire := rest, decoder := o.state, alive := o.err.None?, table := f.table, calls := s.calls + f.calls)
  }

  /** What RxDrain does with its chunks is a drain event for each of them, which end in its decoder, in a receiver that is
      alive unless the last chunk failed, and with the fan-outs of all that was handed over. */
  lemma {:induction false} DrainIsARun(env: Env, s: Sys, chunks: seq<seq<byte>>, rest: seq<byte>)
    requires s.alive && s.decoder.Valid(env.cfg) && s.wire == Flatten(chunks) + rest
    requires forall k :: 0 <= k < |chunks| ==> 0 < |chunks[k]| <= RAW_INPUT_SIZE
    requires OnlyLastFails(env.cfg, Callback(env.accepts), s.decoder, chunks)
    requires Agree(env, s.decoder, s.table, chunks)
    ensures Leads(env, s, Drains(chunks), DrainedAll(env, s, chunks, rest))
    decreases |chunks|
  {
    if chunks == [] {
      NothingDrained(env, s, rest);
    } else {
      var mid := FirstDrain(env, s, chunks, rest);
      DrainedStep(env, s, chunks, rest, mid);
      if mid.alive {
        DrainIsARun(env, mid, chunks[1..], rest);
        LeadsFirst(env, s, Drain(|chunks[0]|), mid, Drains(chunks[1..]), DrainedAll(env, s, chunks, rest));
      } else {
        LeadsOne(env, s, Drain(|chunks[0]|), mid);
        assert Drains(chunks) == [Drain(|chunks[0]|)];
      }
    }
  }

  lemma NothingDrained(env: Env, s: Sys, rest: seq<byte>)
    requires s.alive && s.decoder.Valid(env.cfg) && s.wire == Flatten([]) + rest
    ensures DrainedAll(env, s, [], rest) == s
  {
    FannedStep(env, s.decoder, s.table, []);
    assert [] + rest == rest && s.calls + [] == s.calls;
  }

  lemma DrainedStep(env: Env, s: Sys, chunks: seq<seq<byte>>, rest: seq<byte>, mid: Sys)
    requires chunks != [] && s.decoder.Valid(env.cfg)
    requires var o, f := Run(env.cfg, Callback(env.accepts), s.decoder, chunks[0]),
                         FanOutChunk(env, s.decoder, s.table, chunks[0]);
             mid == s.(wire := Flatten(chunks[1..]) + rest, decoder := o.state, alive := o.err.None?,
                       table := f.table, calls := s.calls + f.calls)
    requires !mid.alive ==> |chunks| == 1
    ensures mid.decoder.Valid(env.cfg)
    ensures DrainedAll(env, s, chunks, rest) == if mid.alive then DrainedAll(env, mid, chunks[1..], rest) else mid
  {
    FannedStep(env, s.decoder, s.table, chunks);
    var first := FanOutChunk(env, s.decoder, s.table, chunks[0]);
    if mid.alive {
      CallsBoth(s.calls, first, FannedBy(env, mid.decoder, mid.table, chunks[1..]));
    } else {
      NothingBehind(chunks, rest);
    }
  }

  lemma CallsBoth(calls: seq<Call>, a: FannedAll, b: FannedAll)
    ensures calls + BothFanned(a, b).calls == calls + a.calls + b.calls
  {
  }

  lemma NothingBehind(chunks: seq<seq<byte>>, rest: seq<byte>)
    requires |chunks| == 1
    ensures Flatten(chunks[1..]) + rest == rest
  {
  }

  /** After a drain of everything on a wire on which nothing is missing, by a receiver that is alive after it, all that
      was published has been handed over or is owed. */
  lemma DrainedWireIsAll(env: Env, states: seq<Sys>, events: seq<Event>, chunks: seq<seq<byte>>)
    returns (longer: seq<Sys>)
    requires IsRun(env, states, events)
    requires var s := states[|events|];
             && s.alive && s.decoder.Valid(env.cfg) && s.unsent == [] && s.torn.None? && s.wire == Flatten(chunks)
             && OnlyLastFails(env.cfg, Callback(env.accepts), s.decoder, chunks)
             && Agree(env, s.decoder, s.table, chunks)
    requires forall k :: 0 <= k < |chunks| ==> 0 < |chunks[k]| <= RAW_INPUT_SIZE
    ensures IsRun(env, longer, events + Drains(chunks)) && longer[0] == states[0]
    ensures longer[|events + Drains(chunks)|] == DrainedAll(env, states[|events|], chunks, [])
    ensures var s, o := states[|events|], RunChunks(env.cfg, Callback(env.accepts), states[|events|].decoder, chunks);
            o.err.None? ==> o.state.log + o.state.Owed() == Expected(states[0], s)
  {
    var s := states[|events|];
    assert Flatten(chunks) + [] == Flatten(chunks);
    DrainIsARun(env, s, chunks, []);
    longer := LeadsIsRun(env, states, events, Drains(chunks), DrainedAll(env, s, chunks, []));
    FannedOutIsPrefixOfPublished(env, longer, events + Drains(chunks));
  }

  /** The first chunk, and what it leaves for the others. */
  lemma FirstDrain(env: Env, s: Sys, chunks: seq<seq<byte>>, rest: seq<byte>) returns (mid: Sys)
    requires chunks != [] && s.alive && s.decoder.Valid(env.cfg) && s.wire == Flatten(chunks) + rest
    requires 0 < |chunks[0]| <= RAW_INPUT_SIZE
    requires OnlyLastFails(env.cfg, Callback(env.accepts), s.decoder, chunks)
    requires Agree(env, s.decoder, s.table, chunks)
    ensures Next(env, s, Drain(|chunks[0]|), mid)
    ensures var o, f := Run(env.cfg, Callback(env.accepts), s.decoder, chunks[0]),
                        FanOutChunk(env, s.decoder, s.table, chunks[0]);
            mid == s.(wire := Flatten(chunks[1..]) + rest, decoder := o.state, alive := o.err.None?,
                      table := f.table, calls := s.calls + f.calls)
    ensures mid.alive ==> OnlyLastFails(env.cfg, Callback(env.accepts), mid.decoder, chunks[1..])
                          && Agree(env, mid.decoder, mid.table, chunks[1..])
    ensures !mid.alive ==> |chunks| == 1
  {
    FirstOnWire(s.wire, chunks, rest);
    mid := Drained(env, s, |chunks[0]|);
    OnlyLastFailsTail(env.cfg, Callback(env.accepts), s.decoder, chunks);
  }

  lemma FirstOnWire(wire: seq<byte>, chunks: seq<seq<byte>>, rest: seq<byte>)
    requires chunks != [] && wire == Flatten(chunks) + rest
    ensures |chunks[0]| <= |wire| && wire[..|chunks[0]|] == chunks[0]
    ensures wire[|chunks[0]|..] == Flatten(chunks[1..]) + rest
  {
    assert wire == chunks[0] + (Flatten(chunks[1..]) + rest);
  }

  lemma OnlyLastFailsTail(cfg: Config, cb: Callback, d: Decoder, chunks: seq<seq<byte>>)
    requires d.Valid(cfg) && chunks != [] && OnlyLastFails(cfg, cb, d, chunks)
    ensures var o := Run(cfg, cb, d, chunks[0]);
            if o.err.Some? then |chunks| == 1 else OnlyLastFails(cfg, cb, o.state, chunks[1..])
  {
    if |chunks| > 1 {
      var n := |chunks| - 1;
      assert chunks[..n][0] == chunks[0] && chunks[..n][1..] == chunks[1..][..n - 1];
    }
  }

  // ----- There are such answers -----

  /** A decode call depends on the answers it is given and on no others. */
  lemma StepUsesItsAnswer(cfg: Config, a: nat -> bool, b: nat -> bool, s: Decoder, x: byte)
    requires s.Valid(cfg)
    requires |Step(cfg, Callback(a), s, x).state.log| > |s.log| ==> a(|s.log|) == b(|s.log|)
    ensures Step(cfg, Callback(a), s, x) == Step(cfg, Callback(b), s, x)
  {
  }

  lemma {:induction false} RunUsesItsAnswers(cfg: Config, a: nat -> bool, b: nat -> bool, s: Decoder, bytes: seq<byte>)
    requires s.Valid(cfg)
    requires forall k :: |s.log| <= k < |Run(cfg, Callback(a), s, bytes).state.log| ==> a(k) == b(k)
    ensures Run(cfg, Callback(a), s, bytes) == Run(cfg, Callback(b), s, bytes)
    decreases |bytes|
  {
    if bytes != [] {
      var o := Step(cfg, Callback(a), s, bytes[0]);
      StepUsesItsAnswer(cfg, a, b, s, bytes[0]);
      if o.err.None? {
        RunUsesItsAnswers(cfg, a, b, o.state, bytes[1..]);
      }
    }
  }

  /** Whatever the fates of the fan-outs and however the bytes are read, there are answers with which all the chunks can
      be drained: those that the fan-outs give. */
  lemma {:induction false} AgreementExists(env: Env, d: Decoder, t: Routing.Table, chunks: seq<seq<byte>>)
    returns (accepts: nat -> bool)
    requires d.Valid(env.cfg)
    ensures forall k :: 0 <= k < |d.log| ==> accepts(k) == env.accepts(k)
    ensures Agree(env.(accepts := accepts), d, t, chunks)
    decreases |chunks|
  {
    if chunks == [] {
      accepts := env.accepts;
    } else {
      var first := AnswersExist(env, d, t, chunks[0]);
      var env1 := env.(accepts := first);
      var o := Run(env.cfg, Callback(first), d, chunks[0]);
      accepts := AgreementExists(env1, o.state, FanOutChunk(env1, d, t, chunks[0]).table, chunks[1..]);
      SameAnswers(env, d, t, chunks[0], first, accepts);
      assert env1.(accepts := accepts) == env.(accepts := accepts);
    }
  }

  lemma SameAnswers(env: Env, d: Decoder, t: Routing.Table, chunk: seq<byte>, a: nat -> bool, b: nat -> bool)
    requires d.Valid(env.cfg) && AnswersAgree(env.(accepts := a), d, t, chunk)
    requires forall k :: 0 <= k < |Run(env.cfg, Callback(a), d, chunk).state.log| ==> a(k) == b(k)
    ensures Run(env.cfg, Callback(b), d, chunk) == Run(env.cfg, Callback(a), d, chunk)
    ensures FanOutChunk(env.(accepts := b), d, t, chunk) == FanOutChunk(env.(accepts := a), d, t, chunk)
    ensures AnswersAgree(env.(accepts := b), d, t, chunk)
  {
    RunUsesItsAnswers(env.cfg, a, b, d, chunk);
  }
}
