/** A run of the portal in which the receiver's subscribers are handed a message that nobody published: the device failed
    in the middle of a frame, and the next publish succeeded. */
module PortalForgery {
  import opened Bytes
  import opened FramerSpec
  import opened FramerTheorems
  import opened FramerTears
  import opened PortalSystem
  import opened PortalDelivery
  import opened PortalRuns

  const FIRST := Message([65], [1, 2])
  const SECOND := Message([66], [3])
  const FORGED := Message([65], [MAGIC_FIRST, MAGIC_SECOND])

  /** How many bytes of the first message's frame the device takes: all but the payload. */
  const TORN_AT := 8

  /** What the wire then carries. */
  function TornWire(version: byte): seq<byte> {
    Frame(version, FIRST)[..TORN_AT] + Frame(version, SECOND)
  }

  /** The frame of the second message, behind its magic bytes, is noise. */
  lemma RestIsNoise(version: byte)
    ensures Frame(version, SECOND) == [MAGIC_FIRST, MAGIC_SECOND] + [version, 0, 1, 0, 1, 66, 3]
    ensures NoMagicPair([version, 0, 1, 0, 1, 66, 3])
  {
  }

  lemma TornWireIsForged(cfg: Config, cb: Callback, s: Decoder)
    requires s.Valid(cfg) && s.Idle() && s.log == [] && cb.Callback? && cfg.maxTopic >= 1 && cfg.maxPayload >= 2
    ensures Run(cfg, cb, s, TornWire(cfg.version)).state.log == [FORGED]
  {
    var magic, noise := [MAGIC_FIRST, MAGIC_SECOND], [cfg.version, 0, 1, 0, 1, 66, 3];
    var torn := Frame(cfg.version, FIRST)[..TORN_AT];
    RestIsNoise(cfg.version);
    FirstIsFilled(cfg, cb, s, torn);
    RunAppend(cfg, cb, s, torn + magic, noise);
    assert torn + magic + noise == TornWire(cfg.version);
    var o := Run(cfg, cb, s, torn + magic);
    if o.err.None? {
      NoiseIsSkipped(cfg, cb, o.state, noise);
    }
  }

  lemma FirstIsFilled(cfg: Config, cb: Callback, s: Decoder, torn: seq<byte>)
    requires s.Valid(cfg) && s.Idle() && s.log == [] && cb.Callback? && cfg.maxTopic >= 1 && cfg.maxPayload >= 2
    requires torn == Frame(cfg.version, FIRST)[..TORN_AT]
    ensures var o := Run(cfg, cb, s, torn + [MAGIC_FIRST, MAGIC_SECOND]);
            o.state.log == [FORGED] && (o.err.None? ==> o.state.Idle())
  {
    var magic := [MAGIC_FIRST, MAGIC_SECOND];
    var o := Run(cfg, cb, s, torn + magic);
    assert Filled(FIRST, TORN_AT, magic) == FORGED;
    TornFrameIsFilled(cfg, cb, s, FIRST, TORN_AT, magic);
    CStringOfPlain(FORGED.topic);
    NothingIsOwed(cfg, cb, s, FORGED, o);
    assert s.log + s.Owed() + [FORGED] == [FORGED];
    assert o.err.None? ==> |o.state.log + o.state.Owed()| == 1;
  }

  /** After the first publish, which fails, and after the second, which does not. */
  function FirstFailed(s: Sys, version: byte): Sys {
    Torn(Taken(Started(s, FIRST, Frame(version, FIRST)), TORN_AT))
  }

  function SecondSent(s: Sys, version: byte): Sys {
    Taken(Started(s, SECOND, Frame(version, SECOND)), |Frame(version, SECOND)|)
  }

  lemma FirstFails(env: Env, s: Sys)
    requires s.unsent == [] && s.sent == [] && env.cfg.maxTopic >= 1 && env.cfg.maxPayload >= 2
    ensures Leads(env, s, [Publish(FIRST), Write(TORN_AT), WriteFails], FirstFailed(s, env.cfg.version))
  {
    var s1 := Started(s, FIRST, Frame(env.cfg.version, FIRST));
    var s2 := Taken(s1, TORN_AT);
    assert Next(env, s, Publish(FIRST), s1);
    WriteTakes(env, s1, TORN_AT);
    LeadsOne(env, s2, WriteFails, FirstFailed(s, env.cfg.version));
    LeadsFirst(env, s1, Write(TORN_AT), s2, [WriteFails], FirstFailed(s, env.cfg.version));
    assert [Write(TORN_AT)] + [WriteFails] == [Write(TORN_AT), WriteFails];
    LeadsFirst(env, s, Publish(FIRST), s1, [Write(TORN_AT), WriteFails], FirstFailed(s, env.cfg.version));
    assert [Publish(FIRST)] + [Write(TORN_AT), WriteFails] == [Publish(FIRST), Write(TORN_AT), WriteFails];
  }

  lemma SecondGoesOut(env: Env, s: Sys)
    requires s.unsent == [] && env.cfg.maxTopic >= 1 && env.cfg.maxPayload >= 1
    ensures Leads(env, s, [Publish(SECOND), Write(|Frame(env.cfg.version, SECOND)|)], SecondSent(s, env.cfg.version))
  {
    var frame := Frame(env.cfg.version, SECOND);
    var s1 := Started(s, SECOND, frame);
    assert Next(env, s, Publish(SECOND), s1);
    WriteTakes(env, s1, |frame|);
    LeadsOne(env, s1, Write(|frame|), SecondSent(s, env.cfg.version));
    LeadsFirst(env, s, Publish(SECOND), s1, [Write(|frame|)], SecondSent(s, env.cfg.version));
    assert [Publish(SECOND)] + [Write(|frame|)] == [Publish(SECOND), Write(|frame|)];
  }

  lemma BothAttempted(s: Sys, version: byte)
    requires s.wire == [] && s.sent == [] && s.torn.None?
    ensures var s' := SecondSent(FirstFailed(s, version), version);
            && s' == s.(sent := [FIRST, SECOND], unsent := [], wire := TornWire(version), torn := Some([]))
            && |s'.wire| == 17 && s'.wire[..17] == s'.wire && s'.wire[17..] == []
  {
    var s3 := FirstFailed(s, version);
    assert s3 == s.(sent := [FIRST], unsent := [], wire := Frame(version, FIRST)[..TORN_AT], torn := Some([]));
  }

  /** From any initial state, whatever the subscribers will do: the first publish fails after eight bytes, the second
      succeeds, everything is drained, and all that was handed over is a message that is neither of them. */
  lemma ForgedMessage(env: Env, s0: Sys) returns (accepts: nat -> bool, states: seq<Sys>, events: seq<Event>)
    requires Init(env, s0) && env.cfg.maxTopic >= 1 && env.cfg.maxPayload >= 2
    ensures IsRun(env.(accepts := accepts), states, events) && states[0] == s0
    ensures var s := states[|events|];
            && s.sent == [FIRST, SECOND] && s.wire == [] && s.unsent == [] && s.torn == Some([])
            && s.decoder.log == [FORGED] && FORGED !in s.sent
  {
    var s3 := FirstFailed(s0, env.cfg.version);
    var s5 := SecondSent(s3, env.cfg.version);
    var s6: Sys;
    BothAttempted(s0, env.cfg.version);
    accepts, s6 := DrainIsPossible(env, s5, 17);
    var env' := env.(accepts := accepts);
    TornWireIsForged(env.cfg, Callback(accepts), s5.decoder);
    var a, b := [Publish(FIRST), Write(TORN_AT), WriteFails],
                [Publish(SECOND), Write(|Frame(env.cfg.version, SECOND)|)];
    FirstFails(env', s0);
    SecondGoesOut(env', s3);
    LeadsOne(env', s5, Drain(17), s6);
    LeadsOn(env', s3, b, s5, [Drain(17)], s6);
    LeadsOn(env', s0, a, s3, b + [Drain(17)], s6);
    assert IsRun(env', [s0], []);
    states := LeadsIsRun(env', [s0], [], a + (b + [Drain(17)]), s6);
    events := a + (b + [Drain(17)]);
    assert [] + events == events;
  }
}
