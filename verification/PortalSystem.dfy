/** Two netportals and the wire between them, as a state machine: messages are framed, pushed through a device that
    takes as many bytes as it likes, drained in chunks, decoded and fanned out, while subscriptions come and go.
    The receiver's manifold has no semaphore. Each call on it is one step here, which is what it amounts to as long as no
    call comes to the tables while another is there (PortalThreads): when subscriptions are made before activation, or by
    callbacks, or their callers keep out of the receiver's way in some other manner. */
module PortalSystem {
  import opened Bytes
  import opened FramerSpec
  import opened FramerTheorems
  import opened FramerTears
  import Routing = ManifoldSpec

  const ENCODED_BUFFER_SIZE := 1024
  const RAW_INPUT_SIZE := 128

  /** One invocation of a recipient's callback. */
  datatype Call = Call(self: Routing.Pointer, callback: Routing.Pointer, topic: seq<byte>, payload: seq<byte>)

  /** What happens while one message is fanned out: the callback that fails, if any, and the calls made on the manifold
      between the publish's turn at the tables and the receiver's next, by the callbacks or by others; each finds nobody
      at the tables. */
  datatype Fate = Fate(failAt: Option<nat>, ops: seq<Routing.Op>)

  datatype Fanned = Fanned(table: Routing.Table, calls: seq<Call>, ok: bool)

  function CallsFor(rs: seq<Routing.Recipient>, m: Message): (calls: seq<Call>)
    ensures |calls| == |rs|
    ensures forall k :: 0 <= k < |rs| ==> calls[k] == Call(rs[k].self, rs[k].callback, m.topic, m.payload)
  {
    seq(|rs|, k requires 0 <= k < |rs| => Call(rs[k].self, rs[k].callback, m.topic, m.payload))
  }

  /** One of the callbacks fails. */
  predicate Fails(rs: seq<Routing.Recipient>, failAt: Option<nat>) {
    failAt.Some? && failAt.value < |rs|
  }

  /** The calls up to the one that fails. */
  function CallsUpTo(rs: seq<Routing.Recipient>, m: Message, failAt: Option<nat>): seq<Call> {
    CallsFor(if Fails(rs, failAt) then rs[..failAt.value + 1] else rs, m)
  }

  /** _framer_decoded_callback: the message is published on the private manifold. */
  function FanOut(t: Routing.Table, m: Message, fate: Fate): Fanned {
    var touched := Routing.Apply(t, Routing.PublishOp(m.topic));
    var after := Routing.ApplyAll(touched.table, fate.ops);
    if touched.err.Some? then Fanned(after, [], false)
    else
      var snapshot := Routing.Snapshot(Routing.RowOf(t, m.topic));
      Fanned(after, CallsUpTo(snapshot, m, fate.failAt), !Fails(snapshot, fate.failAt))
  }

  datatype FannedAll = FannedAll(table: Routing.Table, calls: seq<Call>, oks: seq<bool>)

  /** The messages of one drained chunk, in order; `from` numbers the first. */
  function FanOutAll(t: Routing.Table, ms: seq<Message>, fates: nat -> Fate, from: nat): (f: FannedAll)
    ensures |f.oks| == |ms|
    decreases |ms|
  {
    if ms == [] then FannedAll(t, [], [])
    else
      var first := FanOut(t, ms[0], fates(from));
      var rest := FanOutAll(first.table, ms[1..], fates, from + 1);
      FannedAll(rest.table, first.calls + rest.calls, [first.ok] + rest.oks)
  }

  /** The receiver's configuration and all that its environment will do: the fate of each fan-out, and with it the
      answer that the decoder gets. */
  datatype Env = Env(cfg: Config, fates: nat -> Fate, accepts: nat -> bool)

  datatype Sys = Sys(
    sent: seq<Message>,       // published so far, the last one possibly still being written
    unsent: seq<byte>,        // what the device has not yet taken of its frame
    wire: seq<byte>,          // taken by the device and not yet read
    decoder: Decoder,
    alive: bool,              // the rx task has not ended with an error
    table: Routing.Table,
    calls: seq<Call>,
    torn: Option<seq<Message>>)  // once a frame was left unfinished: what had been published before it

  /** A failed write that leaves nothing of a frame on the wire is no event; nor is a publish that is refused. */
  datatype Event =
    | Publish(m: Message)
    | Write(count: nat)
    | WriteFails
    | Drain(count: nat)
    | Route(op: Routing.Op)

  /** The messages that the decoder hands over while it goes through a chunk. */
  function Handed(env: Env, d: Decoder, chunk: seq<byte>): seq<Message>
    requires d.Valid(env.cfg)
  {
    Run(env.cfg, Callback(env.accepts), d, chunk).state.log[|d.log|..]
  }

  function FanOutChunk(env: Env, d: Decoder, t: Routing.Table, chunk: seq<byte>): (f: FannedAll)
    requires d.Valid(env.cfg)
    ensures |f.oks| == |Handed(env, d, chunk)|
  {
    FanOutAll(t, Handed(env, d, chunk), env.fates, |d.log|)
  }

  /** The answers that the decoder gets in a chunk are those of the fan-outs. */
  ghost predicate AnswersAgree(env: Env, d: Decoder, t: Routing.Table, chunk: seq<byte>)
    requires d.Valid(env.cfg)
  {
    Gives(env.accepts, |d.log|, FanOutChunk(env, d, t, chunk).oks)
  }

  ghost predicate Gives(accepts: nat -> bool, from: nat, oks: seq<bool>) {
    forall k :: 0 <= k < |oks| ==> accepts(from + k) == oks[k]
  }

  /** The state after so many bytes have been read, decoded and fanned out. */
  function Drained(env: Env, s: Sys, count: nat): Sys
    requires s.decoder.Valid(env.cfg) && count <= |s.wire|
  {
    var chunk := s.wire[..count];
    var o := Run(env.cfg, Callback(env.accepts), s.decoder, chunk);
    var fanned := FanOutChunk(env, s.decoder, s.table, chunk);
    s.(wire := s.wire[count..], decoder := o.state, alive := o.err.None?,
       table := fanned.table, calls := s.calls + fanned.calls)
  }

  /** The state after a message has been framed. */
  function Started(s: Sys, m: Message, frame: seq<byte>): Sys {
    s.(sent := s.sent + [m], unsent := frame)
  }

  /** The state after the device has taken so many of the bytes still to be written. */
  function Taken(s: Sys, count: nat): Sys
    requires count <= |s.unsent|
  {
    s.(unsent := s.unsent[count..], wire := s.wire + s.unsent[..count])
  }

  /** The state after the device has failed and the rest of the frame is given up. */
  function Torn(s: Sys): Sys
    requires s.sent != []
  {
    s.(unsent := [], torn := if s.torn.Some? then s.torn else Some(s.sent[..|s.sent| - 1]))
  }

  ghost predicate Init(env: Env, s: Sys) {
    && s.sent == [] && s.unsent == [] && s.wire == [] && s.alive && s.calls == [] && s.torn.None?
    && s.decoder.Valid(env.cfg) && s.decoder == Fresh(s.decoder.storage)
    && Routing.Good(s.table)
  }

  /** One write may follow another publish's last byte only: the portal publishes one message at a time. */
  ghost predicate Next(env: Env, s: Sys, e: Event, s': Sys) {
    match e
    case Publish(m) =>
      && s.unsent == []
      && Sendable(env.cfg, m) && |Frame(env.cfg.version, m)| <= ENCODED_BUFFER_SIZE
      && s' == Started(s, m, Frame(env.cfg.version, m))
    case Write(count) =>
      && count <= |s.unsent|
      && s' == Taken(s, count)
    case WriteFails =>
      && s.sent != [] && 0 < |s.unsent| < |Frame(env.cfg.version, s.sent[|s.sent| - 1])|
      && s' == Torn(s)
    case Drain(count) =>
      && s.alive && 0 < count <= |s.wire| && count <= RAW_INPUT_SIZE
      && s.decoder.Valid(env.cfg)
      && AnswersAgree(env, s.decoder, s.table, s.wire[..count])
      && s' == Drained(env, s, count)
    case Route(op) =>  // finding nobody at the tables
      s' == s.(table := Routing.Apply(s.table, op).table)
  }

  ghost predicate IsRun(env: Env, states: seq<Sys>, events: seq<Event>) {
    && |states| == |events| + 1
    && Init(env, states[0])
    && forall i :: 0 <= i < |events| ==> Next(env, states[i], events[i], states[i + 1])
  }

  /** What the receiver will have been shown when everything has arrived. */
  function Expected(s0: Sys, s: Sys): seq<Message> {
    Received(CString(s0.decoder.storage), s.sent)
  }

  // ----- Nothing is lost, doubled or reordered -----

  lemma {:induction false} FramesAppend(version: byte, ms: seq<Message>, m: Message)
    ensures Frames(version, ms + [m]) == Frames(version, ms) + Frame(version, m)
    decreases |ms|
  {
    if ms == [] {
      assert [m][1..] == [];
    } else {
      assert (ms + [m])[1..] == ms[1..] + [m];
      FramesAppend(version, ms[1..], m);
    }
  }

  /** The bytes drained, on the wire and not yet written are together the frames of everything published, or begin with
      the frames of what was published before the first unfinished one, and the decoder is where the drained bytes put
      it. */
  ghost predicate Inv(env: Env, s0: Sys, s: Sys, drained: seq<byte>) {
    && (forall m :: m in s.sent ==> Sendable(env.cfg, m))
    && (if s.torn.None? then drained + s.wire + s.unsent == Frames(env.cfg.version, s.sent)
        else (forall m :: m in s.torn.value ==> Sendable(env.cfg, m))
             && Frames(env.cfg.version, s.torn.value) <= drained + s.wire)
    && s0.decoder.Valid(env.cfg) && s0.decoder.Idle() && s0.decoder.log == []
    && s.decoder.Valid(env.cfg)
    && var o := Run(env.cfg, Callback(env.accepts), s0.decoder, drained);
       s.decoder == o.state && s.alive == o.err.None?
  }

  lemma WriteMovesBytes(drained: seq<byte>, wire: seq<byte>, unsent: seq<byte>, count: nat)
    requires count <= |unsent|
    ensures drained + (wire + unsent[..count]) + unsent[count..] == drained + wire + unsent
    ensures drained + wire <= drained + (wire + unsent[..count])
  {
    assert unsent == unsent[..count] + unsent[count..];
  }

  lemma InvWrite(env: Env, s0: Sys, s: Sys, drained: seq<byte>, count: nat, s': Sys)
    requires Inv(env, s0, s, drained) && count <= |s.unsent|
    requires s' == Taken(s, count)
    ensures Inv(env, s0, s', drained)
  {
    WriteMovesBytes(drained, s.wire, s.unsent, count);
  }

  lemma InvPublish(env: Env, s0: Sys, s: Sys, drained: seq<byte>, m: Message, s': Sys)
    requires Inv(env, s0, s, drained) && s.unsent == [] && Sendable(env.cfg, m)
    requires s' == Started(s, m, Frame(env.cfg.version, m))
    ensures Inv(env, s0, s', drained)
  {
    FramesAppend(env.cfg.version, s.sent, m);
    assert drained + s'.wire + s'.unsent == drained + s.wire + s.unsent + s'.unsent;
  }

  /** What is on the wire when a write fails begins with the frames of all messages but the last. */
  lemma InvTear(env: Env, s0: Sys, s: Sys, drained: seq<byte>, s': Sys)
    requires Inv(env, s0, s, drained) && Next(env, s, WriteFails, s')
    ensures Inv(env, s0, s', drained)
  {
    if s.torn.None? {
      var n := |s.sent| - 1;
      var before := s.sent[..n];
      assert s.sent == before + [s.sent[n]];
      FramesAppend(env.cfg.version, before, s.sent[n]);
      assert Frames(env.cfg.version, before) <= drained + s.wire + s.unsent;
      assert |Frames(env.cfg.version, before)| <= |drained + s.wire|;
      assert drained + s.wire == (drained + s.wire + s.unsent)[..|drained + s.wire|];
    }
  }

  lemma DrainMovesBytes(drained: seq<byte>, wire: seq<byte>, count: nat)
    requires count <= |wire|
    ensures drained + wire[..count] + wire[count..] == drained + wire
  {
    assert wire == wire[..count] + wire[count..];
  }

  lemma InvDrain(env: Env, s0: Sys, s: Sys, drained: seq<byte>, count: nat, s': Sys)
    requires Inv(env, s0, s, drained) && s.alive && count <= |s.wire|
    requires var o := Run(env.cfg, Callback(env.accepts), s.decoder, s.wire[..count]);
             s'.decoder == o.state && s'.alive == o.err.None?
    requires s'.sent == s.sent && s'.unsent == s.unsent && s'.wire == s.wire[count..] && s'.torn == s.torn
    ensures Inv(env, s0, s', drained + s.wire[..count])
  {
    RunAppend(env.cfg, Callback(env.accepts), s0.decoder, drained, s.wire[..count]);
    DrainMovesBytes(drained, s.wire, count);
  }

  /** What a step takes from the wire. */
  function Read(s: Sys, e: Event): seq<byte> {
    if e.Drain? && e.count <= |s.wire| then s.wire[..e.count] else []
  }

  lemma InvStep(env: Env, s0: Sys, s: Sys, drained: seq<byte>, e: Event, s': Sys) returns (drained': seq<byte>)
    requires Inv(env, s0, s, drained) && Next(env, s, e, s')
    ensures Inv(env, s0, s', drained') && drained' == drained + Read(s, e)
  {
    drained' := drained;
    assert drained + [] == drained;
    match e {
      case Publish(m) => InvPublish(env, s0, s, drained, m, s');
      case Write(count) => InvWrite(env, s0, s, drained, count, s');
      case WriteFails => InvTear(env, s0, s, drained, s');
      case Drain(count) =>
        InvDrain(env, s0, s, drained, count, s');
        drained' := drained + s.wire[..count];
      case Route(_) =>
    }
  }

  /** A run without its last step is a run. */
  lemma RunBefore(env: Env, states: seq<Sys>, events: seq<Event>) returns (front: seq<Sys>, s: Sys, s': Sys)
    requires IsRun(env, states, events) && events != []
    ensures front == states[..|events|] && IsRun(env, front, events[..|events| - 1]) && front[0] == states[0]
    ensures s == front[|events| - 1] == states[|events| - 1] && s' == states[|events|]
    ensures Next(env, s, events[|events| - 1], s')
  {
    front, s, s' := states[..|events|], states[|events| - 1], states[|events|];
  }

  lemma {:induction false} InvRun(env: Env, states: seq<Sys>, events: seq<Event>) returns (drained: seq<byte>)
    requires IsRun(env, states, events)
    ensures Inv(env, states[0], states[|events|], drained)
    decreases |events|
  {
    if events == [] {
      drained := [];
    } else {
      var n := |events| - 1;
      var front, s, s' := RunBefore(env, states, events);
      drained := InvRun(env, front, events[..n]);
      drained := InvStep(env, states[0], s, drained, events[n], s');
    }
  }

  lemma Conserved(env: Env, s0: Sys, s: Sys, drained: seq<byte>)
    requires Inv(env, s0, s, drained) && s.torn.None?
    ensures s.decoder.log <= Expected(s0, s)
    ensures s.alive && s.wire == [] && s.unsent == [] ==>
              s.decoder.log + s.decoder.Owed() == Expected(s0, s)
    ensures !s.alive ==> s.decoder.log != [] && !env.accepts(|s.decoder.log| - 1)
  {
    assert drained + (s.wire + s.unsent) == drained + s.wire + s.unsent;
    FramesAreSpaced(env.cfg.version, s.sent);
    SpacedPrefix(env.cfg, env.accepts, s0.decoder, s.sent, drained, s.wire + s.unsent);
  }

  /** What was published before the first unfinished frame. */
  function ExpectedBeforeTear(s0: Sys, s: Sys): seq<Message>
    requires s.torn.Some?
  {
    Received(CString(s0.decoder.storage), s.torn.value)
  }

  lemma ConservedBeforeTear(env: Env, s0: Sys, s: Sys, drained: seq<byte>)
    requires Inv(env, s0, s, drained) && s.torn.Some?
    ensures ArrivedBeforeTear(env, ExpectedBeforeTear(s0, s), s)
  {
    var frames := Frames(env.cfg.version, s.torn.value);
    if |drained| <= |frames| {
      var more := frames[|drained|..];
      assert drained + more == frames;
      FramesAreSpaced(env.cfg.version, s.torn.value);
      SpacedPrefix(env.cfg, env.accepts, s0.decoder, s.torn.value, drained, more);
      assert s.wire == [] ==> |frames| <= |drained|;
    } else {
      assert drained == frames + drained[|frames|..];
      BehindFrames(env.cfg, env.accepts, s0.decoder, s.torn.value, drained[|frames|..]);
    }
  }

  /** Frames, and then any bytes at all. */
  lemma BehindFrames(cfg: Config, accepts: nat -> bool, start: Decoder, ms: seq<Message>, more: seq<byte>)
    requires start.Valid(cfg) && start.Idle() && start.log == [] && (forall m :: m in ms ==> Sendable(cfg, m))
    requires more != []
    ensures var o := Run(cfg, Callback(accepts), start, Frames(cfg.version, ms) + more);
            var expected := Received(CString(start.storage), ms);
            || expected <= o.state.log
            || (o.state.log <= expected && o.err.Some? && o.state.log != [] && !accepts(|o.state.log| - 1))
  {
    var frames, expected := Frames(cfg.version, ms), Received(CString(start.storage), ms);
    StreamConservation(cfg, Callback(accepts), start, ms);
    assert start.log + start.Owed() + expected == expected;
    RunAppend(cfg, Callback(accepts), start, frames, more);
    var mid := Run(cfg, Callback(accepts), start, frames);
    if mid.err.None? {
      OwedComesNext(cfg, Callback(accepts), mid.state, more);
    }
  }

  /** What was to come before the first unfinished frame has come, as far as the receiver has got: all of it once
      everything is drained, unless the receiver was ended by its callback before. */
  ghost predicate ArrivedBeforeTear(env: Env, expected: seq<Message>, s: Sys) {
    && (s.decoder.log <= expected || expected <= s.decoder.log)
    && (s.alive && s.wire == [] ==> expected <= s.decoder.log + s.decoder.Owed())
    && (!s.alive && !(expected <= s.decoder.log) ==> s.decoder.log != [] && !env.accepts(|s.decoder.log| - 1))
  }

  /** In every reachable state the messages handed to the fan-out are, in order and without loss or duplication, a
      prefix of those published, whatever the callbacks do; once everything is written and drained they are all of
      them, but for a last one with an empty payload that no byte has yet followed. Only a fan-out that failed ends
      the receiver. After a write that left a frame unfinished this is so of what was published before it. */
  lemma FannedOutIsPrefixOfPublished(env: Env, states: seq<Sys>, events: seq<Event>)
    requires IsRun(env, states, events)
    ensures var s := states[|events|];
            if s.torn.None? then
              && s.decoder.log <= Expected(states[0], s)
              && (s.alive && s.wire == [] && s.unsent == [] ==>
                    s.decoder.log + s.decoder.Owed() == Expected(states[0], s))
              && (!s.alive ==> s.decoder.log != [] && !env.accepts(|s.decoder.log| - 1))
            else ArrivedBeforeTear(env, ExpectedBeforeTear(states[0], s), s)
  {
    var drained := InvRun(env, states, events);
    if states[|events|].torn.None? {
      Conserved(env, states[0], states[|events|], drained);
    } else {
      ConservedBeforeTear(env, states[0], states[|events|], drained);
    }
  }

  /** With nonempty topics what is expected is what was published. */
  lemma ExpectedIsPublished(s0: Sys, s: Sys)
    requires forall m :: m in s.sent ==> m.topic != []
    ensures Expected(s0, s) == s.sent
  {
    ReceivedAsSent(CString(s0.decoder.storage), s.sent);
    assert forall i :: 0 <= i < |s.sent| ==> s.sent[i] in s.sent;
  }
}
