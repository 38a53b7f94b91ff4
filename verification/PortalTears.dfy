/** Runs of the portal in which the device fails, but never after more than the first byte of a frame. */
module PortalTears {
  import opened Bytes
  import opened FramerSpec
  import opened FramerTheorems
  import opened FramerTears
  import opened PortalSystem

  /** The messages published, without those whose frames were left unfinished. */
  function Finished(events: seq<Event>): seq<Message> {
    if events == [] then [] else FinishedAfter(Finished(events[..|events| - 1]), events[|events| - 1])
  }

  function FinishedAfter(before: seq<Message>, e: Event): seq<Message> {
    match e
    case Publish(m) => before + [m]
    case WriteFails => if before == [] then [] else before[..|before| - 1]
    case _ => before
  }

  /** Of the frame being written only the first byte is on the wire. */
  predicate OnlyFirstByte(version: byte, s: Sys) {
    s.sent != [] && |s.unsent| == |Frame(version, s.sent[|s.sent| - 1])| - 1
  }

  ghost predicate ShortTears(env: Env, states: seq<Sys>, events: seq<Event>)
    requires |states| == |events| + 1
  {
    forall i :: 0 <= i < |events| && events[i].WriteFails? ==> OnlyFirstByte(env.cfg.version, states[i])
  }

  lemma ShortTearsBefore(env: Env, states: seq<Sys>, events: seq<Event>)
    requires |states| == |events| + 1 && events != []
    ensures ShortTears(env, states, events) <==>
            && ShortTears(env, states[..|events|], events[..|events| - 1])
            && (events[|events| - 1].WriteFails? ==> OnlyFirstByte(env.cfg.version, states[|events| - 1]))
  {
    var n := |events| - 1;
    assert forall i :: 0 <= i < n ==> events[..n][i] == events[i] && states[..|events|][i] == states[i];
  }

  /** Frames and lone first bytes are all that was put on the wire, but for the frame being written, which comes behind
      `before`. */
  ghost predicate Clean(version: byte, s: Sys, drained: seq<byte>, finished: seq<Message>, before: seq<byte>) {
    if s.unsent == [] then Spaced(version, drained + s.wire, finished)
    else
      && finished != [] && s.sent != [] && s.sent[|s.sent| - 1] == finished[|finished| - 1]
      && Spaced(version, before, finished[..|finished| - 1])
      && drained + s.wire + s.unsent == before + Frame(version, finished[|finished| - 1])
  }

  lemma CleanStream(version: byte, s: Sys, drained: seq<byte>, finished: seq<Message>, before: seq<byte>)
    requires Clean(version, s, drained, finished, before)
    ensures Spaced(version, drained + s.wire + s.unsent, finished)
  {
    if s.unsent == [] {
      assert drained + s.wire + s.unsent == drained + s.wire;
    } else {
      var n := |finished| - 1;
      OneFrameIsSpaced(version, finished[n]);
      SpacedAppend(version, before, finished[..n], Frame(version, finished[n]), [finished[n]]);
      assert finished[..n] + [finished[n]] == finished;
    }
  }

  lemma CleanWrite(env: Env, s: Sys, drained: seq<byte>, finished: seq<Message>, before: seq<byte>, count: nat, s': Sys)
    requires Clean(env.cfg.version, s, drained, finished, before) && Next(env, s, Write(count), s')
    ensures Clean(env.cfg.version, s', drained, finished, before)
  {
    WriteMovesBytes(drained, s.wire, s.unsent, count);
    if s'.unsent == [] {
      CleanStream(env.cfg.version, s, drained, finished, before);
      assert drained + s'.wire + s'.unsent == drained + s'.wire;
    }
  }

  lemma CleanTear(env: Env, s: Sys, drained: seq<byte>, finished: seq<Message>, before: seq<byte>, s': Sys)
    requires Clean(env.cfg.version, s, drained, finished, before) && Next(env, s, WriteFails, s')
    requires OnlyFirstByte(env.cfg.version, s)
    ensures finished != [] && Clean(env.cfg.version, s', drained, finished[..|finished| - 1], before)
  {
    var n := |finished| - 1;
    var frame := Frame(env.cfg.version, finished[n]);
    assert drained + s.wire == before + [MAGIC_FIRST] by {
      assert frame == [MAGIC_FIRST] + frame[1..];
      SameEnds(drained + s.wire, s.unsent, before + [MAGIC_FIRST], frame[1..]);
    }
    OneByteIsSpaced(env.cfg.version);
    SpacedAppend(env.cfg.version, before, finished[..n], [MAGIC_FIRST], []);
    assert finished[..n] + [] == finished[..n];
  }

  lemma SameEnds(a: seq<byte>, b: seq<byte>, c: seq<byte>, d: seq<byte>)
    requires a + b == c + d && |b| == |d|
    ensures a == c
  {
    assert a == (a + b)[..|a|] && c == (c + d)[..|c|];
  }

  lemma CleanStep(env: Env, s: Sys, drained: seq<byte>, finished: seq<Message>, before: seq<byte>, e: Event, s': Sys)
    returns (before': seq<byte>)
    requires Clean(env.cfg.version, s, drained, finished, before) && Next(env, s, e, s')
    requires e.WriteFails? ==> OnlyFirstByte(env.cfg.version, s)
    ensures Clean(env.cfg.version, s', drained + Read(s, e), FinishedAfter(finished, e), before')
  {
    before' := before;
    assert drained + [] == drained;
    match e {
      case Publish(m) => before' := drained + s.wire;
      case Write(count) => CleanWrite(env, s, drained, finished, before, count, s');
      case WriteFails => CleanTear(env, s, drained, finished, before, s');
      case Drain(count) => DrainMovesBytes(drained, s.wire, count);
      case Route(_) =>
    }
  }

  lemma {:induction false} CleanRun(env: Env, states: seq<Sys>, events: seq<Event>)
    returns (drained: seq<byte>, before: seq<byte>)
    requires IsRun(env, states, events) && ShortTears(env, states, events)
    ensures Inv(env, states[0], states[|events|], drained)
    ensures Clean(env.cfg.version, states[|events|], drained, Finished(events), before)
    decreases |events|
  {
    if events == [] {
      drained, before := [], [];
    } else {
      var n := |events| - 1;
      var front, s, s' := RunBefore(env, states, events);
      ShortTearsBefore(env, states, events);
      drained, before := CleanRun(env, front, events[..n]);
      drained, before := CleanNext(env, states[0], s, drained, Finished(events[..n]), before, events[n], s');
    }
  }

  lemma CleanNext(env: Env, s0: Sys, s: Sys, drained: seq<byte>, finished: seq<Message>, before: seq<byte>, e: Event,
                  s': Sys)
    returns (drained': seq<byte>, before': seq<byte>)
    requires Inv(env, s0, s, drained) && Clean(env.cfg.version, s, drained, finished, before) && Next(env, s, e, s')
    requires e.WriteFails? ==> OnlyFirstByte(env.cfg.version, s)
    ensures Inv(env, s0, s', drained') && Clean(env.cfg.version, s', drained', FinishedAfter(finished, e), before')
  {
    before' := CleanStep(env, s, drained, finished, before, e, s');
    drained' := InvStep(env, s0, s, drained, e, s');
  }

  lemma {:induction false} FinishedAreSent(env: Env, states: seq<Sys>, events: seq<Event>)
    requires IsRun(env, states, events)
    ensures forall m :: m in Finished(events) ==> m in states[|events|].sent
    ensures states[|events|].torn.None? ==> Finished(events) == states[|events|].sent
    decreases |events|
  {
    if events != [] {
      var n := |events| - 1;
      var front, s, s' := RunBefore(env, states, events);
      FinishedAreSent(env, front, events[..n]);
      FinishedStep(env, s, events[n], s', Finished(events[..n]), Finished(events));
    }
  }

  lemma FinishedStep(env: Env, s: Sys, e: Event, s': Sys, before: seq<Message>, after: seq<Message>)
    requires Next(env, s, e, s') && after == FinishedAfter(before, e)
    requires (forall m :: m in before ==> m in s.sent) && (s.torn.None? ==> before == s.sent)
    ensures (forall m :: m in after ==> m in s'.sent) && (s'.torn.None? ==> after == s'.sent)
  {
  }

  /** If the device fails, but never after more than the first byte of a frame: in every reachable state the messages
      handed to the fan-out are a prefix of those published without the unfinished ones, and all of them once everything
      is written and drained, but for an owed last one; only a fan-out that failed ends the receiver. */
  lemma ShortTearsLoseOnlyTheirOwn(env: Env, states: seq<Sys>, events: seq<Event>)
    requires IsRun(env, states, events) && ShortTears(env, states, events)
    ensures var s, expected := states[|events|], Received(CString(states[0].decoder.storage), Finished(events));
            && s.decoder.log <= expected
            && (s.alive && s.wire == [] && s.unsent == [] ==> s.decoder.log + s.decoder.Owed() == expected)
            && (!s.alive ==> s.decoder.log != [] && !env.accepts(|s.decoder.log| - 1))
  {
    var drained, before := CleanRun(env, states, events);
    FinishedAreSent(env, states, events);
    CleanConserved(env, states[0], states[|events|], drained, Finished(events), before);
  }

  lemma CleanConserved(env: Env, s0: Sys, s: Sys, drained: seq<byte>, finished: seq<Message>, before: seq<byte>)
    requires Inv(env, s0, s, drained) && Clean(env.cfg.version, s, drained, finished, before)
    requires forall m :: m in finished ==> m in s.sent
    ensures var expected := Received(CString(s0.decoder.storage), finished);
            && s.decoder.log <= expected
            && (s.alive && s.wire == [] && s.unsent == [] ==> s.decoder.log + s.decoder.Owed() == expected)
            && (!s.alive ==> s.decoder.log != [] && !env.accepts(|s.decoder.log| - 1))
  {
    CleanStream(env.cfg.version, s, drained, finished, before);
    assert drained + (s.wire + s.unsent) == drained + s.wire + s.unsent;
    SpacedPrefix(env.cfg, env.accepts, s0.decoder, finished, drained, s.wire + s.unsent);
  }
}
