/** What a receiver makes of a frame whose sender's device failed in the middle, and of the frames behind it. */
module FramerTears {
  import opened Bytes
  import opened FramerSpec
  import opened FramerTheorems

  // ----- One byte of a frame -----

  /** A stream of frames with any number of first magic bytes, left alone by frames that went no further, before, between
      and behind them. */
  ghost predicate Spaced(version: byte, bytes: seq<byte>, ms: seq<Message>)
    decreases |bytes|
  {
    || (bytes == [] && ms == [])
    || (bytes != [] && bytes[0] == MAGIC_FIRST && Spaced(version, bytes[1..], ms))
    || (ms != [] && Frame(version, ms[0]) <= bytes && Spaced(version, bytes[|Frame(version, ms[0])|..], ms[1..]))
  }

  lemma SpacedByte(version: byte, bytes: seq<byte>, ms: seq<Message>)
    requires Spaced(version, bytes, ms)
    ensures Spaced(version, [MAGIC_FIRST] + bytes, ms)
  {
    assert ([MAGIC_FIRST] + bytes)[1..] == bytes;
  }

  lemma SpacedFrame(version: byte, bytes: seq<byte>, m: Message, ms: seq<Message>)
    requires Spaced(version, bytes, ms)
    ensures Spaced(version, Frame(version, m) + bytes, [m] + ms)
  {
    var frame := Frame(version, m);
    assert (frame + bytes)[|frame|..] == bytes && ([m] + ms)[1..] == ms;
  }

  lemma {:induction false} SpacedAppend(version: byte, a: seq<byte>, ms: seq<Message>, b: seq<byte>, more: seq<Message>)
    requires Spaced(version, a, ms) && Spaced(version, b, more)
    ensures Spaced(version, a + b, ms + more)
    decreases |a|
  {
    if a == [] && ms == [] {
      assert a + b == b && ms + more == more;
    } else if a != [] && a[0] == MAGIC_FIRST && Spaced(version, a[1..], ms) {
      assert a + b == [MAGIC_FIRST] + (a[1..] + b);
      SpacedAppend(version, a[1..], ms, b, more);
      SpacedByte(version, a[1..] + b, ms + more);
    } else {
      var tail := a[|Frame(version, ms[0])|..];
      assert a == Frame(version, ms[0]) + tail && ms == [ms[0]] + ms[1..];
      SpacedAppend(version, tail, ms[1..], b, more);
      SpacedFrame(version, tail + b, ms[0], ms[1..] + more);
      Joins(Frame(version, ms[0]), tail, b);
      assert [ms[0]] + (ms[1..] + more) == ms + more;
    }
  }

  lemma OneByteIsSpaced(version: byte)
    ensures Spaced(version, [MAGIC_FIRST], [])
  {
    SpacedByte(version, [], []);
    assert [MAGIC_FIRST] + [] == [MAGIC_FIRST];
  }

  lemma OneFrameIsSpaced(version: byte, m: Message)
    ensures Spaced(version, Frame(version, m), [m])
  {
    SpacedFrame(version, [], m, []);
    assert Frame(version, m) + [] == Frame(version, m) && [m] + [] == [m];
  }

  lemma {:induction false} FramesAreSpaced(version: byte, ms: seq<Message>)
    ensures Spaced(version, Frames(version, ms), ms)
    decreases |ms|
  {
    if ms != [] {
      FramesAreSpaced(version, ms[1..]);
      SpacedFrame(version, Frames(version, ms[1..]), ms[0], ms[1..]);
      assert [ms[0]] + ms[1..] == ms;
    }
  }

  /** A first magic byte hands over what is owed, and nothing else. */
  lemma OneMagicByte(cfg: Config, cb: Callback, s: Decoder)
    requires s.Valid(cfg) && Ready(s) && cb.Callback?
    ensures var o := Run(cfg, cb, s, [MAGIC_FIRST]);
            HandsOver(cb, s, [], o) && o.state.storage == s.storage
  {
    SingleStep(cfg, cb, s, [MAGIC_FIRST]);
    var o := Run(cfg, cb, s, [MAGIC_FIRST]);
    assert s.log + s.Owed() + [] == s.log + s.Owed();
    assert o.err.None? ==> o.state.phase.WaitMagicSecond? && o.state.log == s.log + s.Owed();
  }

  /** Frames of which no more than the first byte was written do no harm: what is handed over and owed are the messages
      of the others. */
  lemma {:induction false} SpacedStream(cfg: Config, cb: Callback, s: Decoder, bytes: seq<byte>, ms: seq<Message>)
    requires s.Valid(cfg) && Ready(s) && cb.Callback? && Spaced(cfg.version, bytes, ms)
    requires forall m :: m in ms ==> Sendable(cfg, m)
    ensures HandsOver(cb, s, Received(CString(s.storage), ms), Run(cfg, cb, s, bytes))
    decreases |bytes|
  {
    if bytes == [] && ms == [] {
      assert s.log + s.Owed() + [] == s.log + s.Owed();
    } else if bytes != [] && bytes[0] == MAGIC_FIRST && Spaced(cfg.version, bytes[1..], ms) {
      var rest, o := bytes[1..], Run(cfg, cb, s, [MAGIC_FIRST]);
      assert bytes == [MAGIC_FIRST] + rest;
      SpacedAfterByte(cfg, cb, s, rest, ms);
      if o.err.None? {
        SpacedStream(cfg, cb, o.state, rest, ms);
      }
    } else {
      var frame := Frame(cfg.version, ms[0]);
      var rest, o := bytes[|frame|..], Run(cfg, cb, s, frame);
      assert bytes == frame + rest;
      SpacedAfterFrame(cfg, cb, s, rest, ms);
      if o.err.None? {
        SpacedStream(cfg, cb, o.state, rest, ms[1..]);
      }
    }
  }

  lemma SpacedAfterByte(cfg: Config, cb: Callback, s: Decoder, rest: seq<byte>, ms: seq<Message>)
    requires s.Valid(cfg) && Ready(s) && cb.Callback?
    ensures var o := Run(cfg, cb, s, [MAGIC_FIRST]);
            && (o.err.None? ==> Ready(o.state))
            && ((o.err.None? ==>
                   HandsOver(cb, o.state, Received(CString(o.state.storage), ms), Run(cfg, cb, o.state, rest))) ==>
                  HandsOver(cb, s, Received(CString(s.storage), ms), Run(cfg, cb, s, [MAGIC_FIRST] + rest)))
  {
    var o, received := Run(cfg, cb, s, [MAGIC_FIRST]), Received(CString(s.storage), ms);
    OneMagicByte(cfg, cb, s);
    RunAppend(cfg, cb, s, [MAGIC_FIRST], rest);
    if o.err.None? {
      if HandsOver(cb, o.state, received, Run(cfg, cb, o.state, rest)) {
        HandsOverBoth(cb, s, [], o, received, Run(cfg, cb, o.state, rest));
        assert [] + received == received;
      }
    } else {
      assert s.log + s.Owed() + [] <= s.log + s.Owed() + received;
    }
  }

  lemma SpacedAfterFrame(cfg: Config, cb: Callback, s: Decoder, rest: seq<byte>, ms: seq<Message>)
    requires s.Valid(cfg) && Ready(s) && cb.Callback? && ms != [] && Sendable(cfg, ms[0])
    ensures var o := Run(cfg, cb, s, Frame(cfg.version, ms[0]));
            && (o.err.None? ==> Ready(o.state))
            && ((o.err.None? ==>
                   HandsOver(cb, o.state, Received(CString(o.state.storage), ms[1..]), Run(cfg, cb, o.state, rest))) ==>
                  HandsOver(cb, s, Received(CString(s.storage), ms), Run(cfg, cb, s, Frame(cfg.version, ms[0]) + rest)))
  {
    var frame := Frame(cfg.version, ms[0]);
    var o, shown := Run(cfg, cb, s, frame), if ms[0].topic == [] then CString(s.storage) else ms[0].topic;
    var first, others := [Message(shown, ms[0].payload)], Received(shown, ms[1..]);
    assert Received(CString(s.storage), ms) == first + others;
    OneFrame(cfg, cb, s, ms[0]);
    RunAppend(cfg, cb, s, frame, rest);
    if o.err.None? {
      if HandsOver(cb, o.state, others, Run(cfg, cb, o.state, rest)) {
        HandsOverBoth(cb, s, first, o, others, Run(cfg, cb, o.state, rest));
      }
    } else {
      assert s.log + s.Owed() + first <= s.log + s.Owed() + (first + others);
    }
  }

  /** What the beginning of such a stream, cut anywhere, shows to a decoder that has seen nothing, what all of it does,
      and why the decoder can fail on it. */
  lemma SpacedPrefix(cfg: Config, accepts: nat -> bool, start: Decoder, ms: seq<Message>, bytes: seq<byte>,
                     more: seq<byte>)
    requires start.Valid(cfg) && start.Idle() && start.log == [] && (forall m :: m in ms ==> Sendable(cfg, m))
    requires Spaced(cfg.version, bytes + more, ms)
    ensures var o, expected := Run(cfg, Callback(accepts), start, bytes), Received(CString(start.storage), ms);
            && o.state.log <= expected && (o.err.None? && more == [] ==> o.state.log + o.state.Owed() == expected)
            && (o.err.Some? ==> o.state.log != [] && !accepts(|o.state.log| - 1))
  {
    var expected := Received(CString(start.storage), ms);
    RunAppend(cfg, Callback(accepts), start, bytes, more);
    SpacedStream(cfg, Callback(accepts), start, bytes + more, ms);
    assert start.log + start.Owed() + expected == expected;
    assert more == [] ==> bytes + more == bytes;
  }

  /** The first byte of a frame left alone: no later frame suffers. */
  lemma ShortTearIsHarmless(cfg: Config, cb: Callback, s: Decoder, ms: seq<Message>)
    requires s.Valid(cfg) && Ready(s) && cb.Callback? && forall m :: m in ms ==> Sendable(cfg, m)
    ensures Conserves(cb, s, Received(CString(s.storage), ms), Run(cfg, cb, s, [MAGIC_FIRST] + Frames(cfg.version, ms)))
  {
    var o, received := Run(cfg, cb, s, [MAGIC_FIRST]), Received(CString(s.storage), ms);
    SpacedAfterByte(cfg, cb, s, Frames(cfg.version, ms), ms);
    RunAppend(cfg, cb, s, [MAGIC_FIRST], Frames(cfg.version, ms));
    if o.err.None? {
      StreamConservation(cfg, cb, o.state, ms);
    }
  }

  // ----- Part of a header -----

  /** The header that a frame left unfinished after `k` bytes gets from the frame behind it. */
  function MixedHeader(version: byte, m: Message, k: nat, next: Message): (h: seq<byte>)
    requires 2 <= k < FRAME_OVERHEAD
    ensures |h| == HEADER_SIZE
  {
    Frame(version, m)[2..k] + Frame(version, next)[..FRAME_OVERHEAD - k]
  }

  /** It is the header of whatever its fields say, and is accepted or rejected as such. */
  lemma TornHeaderIsMixed(cfg: Config, cb: Callback, s: Decoder, m: Message, k: nat, next: Message)
    requires s.Valid(cfg) && Hunting(s) && 2 <= k < FRAME_OVERHEAD
    ensures Run(cfg, cb, s, Frame(cfg.version, m)[..k] + Frame(cfg.version, next)[..FRAME_OVERHEAD - k]) ==
            AcceptHeader(cfg, s.(phase := ReadHeader, header := MixedHeader(cfg.version, m, k, next)))
  {
    var magic, header := [MAGIC_FIRST, MAGIC_SECOND], MixedHeader(cfg.version, m, k, next);
    var frame := Frame(cfg.version, m);
    assert frame[..k] == magic + frame[2..k];
    assert frame[..k] + Frame(cfg.version, next)[..FRAME_OVERHEAD - k] == magic + header;
    MagicIsRead(cfg, cb, s);
    RunAppend(cfg, cb, s, magic, header);
    WholeHeader(cfg, cb, s.(phase := ReadHeader, header := []), header);
  }

  /** The version, the topic length and the payload length that the mixed header announces, after 2 to 6 bytes: the magic
      bytes of the second frame end up in one of them. */
  function MixedFields(version: byte, m: Message, k: nat, next: Message): (byte, nat, nat)
    requires 2 <= k < FRAME_OVERHEAD
  {
    var (t, p, t') := (|m.topic| % 0x1_0000, |m.payload| % 0x1_0000, |next.topic| % 0x1_0000);
    if k == 2 then (MAGIC_FIRST, 0x5A00 + version, t')
    else if k == 3 then (version, 0xA55A, version * 256 + t' / 256)
    else if k == 4 then (version, t / 256 * 256 + 0xA5, 0x5A00 + version)
    else if k == 5 then (version, t, 0xA55A)
    else (version, t, p / 256 * 256 + 0xA5)
  }

  lemma MixedHeaderSays(version: byte, m: Message, k: nat, next: Message)
    requires 2 <= k < FRAME_OVERHEAD
    ensures var h := MixedHeader(version, m, k, next);
            (h[0], LoadU16(h, 1), LoadU16(h, 3)) == MixedFields(version, m, k, next)
  {
    var a, b := Frame(version, m), Frame(version, next);
    var h := MixedHeader(version, m, k, next);
    assert a[..7] == [MAGIC_FIRST, MAGIC_SECOND] + FrameHeader(version, m);
    assert b[..7] == [MAGIC_FIRST, MAGIC_SECOND] + FrameHeader(version, next);
    assert forall i :: 0 <= i < 5 ==> h[i] == if i + 2 < k then a[i + 2] else b[i + 2 - k];
  }

  /** A frame left unfinished inside its header, with another behind it: the decoder fails, which ends the receiver, if
      and only if the mixed header announces another version or lengths beyond the maxima. If it does not fail, it takes
      what follows for a message of these lengths. */
  lemma TornHeaderIsFatalIff(cfg: Config, cb: Callback, s: Decoder, m: Message, k: nat, next: Message)
    requires s.Valid(cfg) && Hunting(s) && 2 <= k < FRAME_OVERHEAD
    ensures var o := Run(cfg, cb, s, Frame(cfg.version, m)[..k] + Frame(cfg.version, next)[..FRAME_OVERHEAD - k]);
            var (v, t, p) := MixedFields(cfg.version, m, k, next);
            && (o.err.Some? <==> (cfg.version != 0 && v != cfg.version) || t > cfg.maxTopic || p > cfg.maxPayload)
            && (o.err.None? ==> o.state.topicLength == t && o.state.payloadLength == p)
            && o.state.log == s.log
  {
    TornHeaderIsMixed(cfg, cb, s, m, k, next);
    MixedHeaderSays(cfg.version, m, k, next);
  }

  /** Two bytes left alone end the receiver with the next frame, whatever it is, unless versions are not looked at or it
      is the one that looks like a magic byte. */
  lemma TwoTornBytesAreFatal(cfg: Config, cb: Callback, s: Decoder, m: Message, next: Message)
    requires s.Valid(cfg) && Hunting(s) && cfg.version != 0 && cfg.version != MAGIC_FIRST
    ensures var o := Run(cfg, cb, s, Frame(cfg.version, m)[..2] + Frame(cfg.version, next));
            o == Outcome(Reset(s), Some(UnexpectedVersion))
  {
    var frame := Frame(cfg.version, next);
    TornHeaderIsMixed(cfg, cb, s, m, 2, next);
    RunAppend(cfg, cb, s, Frame(cfg.version, m)[..2] + frame[..5], frame[5..]);
    assert Frame(cfg.version, m)[..2] + frame[..5] + frame[5..] == Frame(cfg.version, m)[..2] + frame;
  }

  // ----- A whole header and perhaps more -----

  /** The message that a frame left unfinished becomes: its lengths, filled from what follows on the wire. */
  function Filled(m: Message, k: nat, rest: seq<byte>): (f: Message)
    requires FRAME_OVERHEAD <= k && k + |rest| == FRAME_OVERHEAD + |m.topic| + |m.payload|
    ensures |f.topic| == |m.topic| && |f.payload| == |m.payload|
  {
    var body := (m.topic + m.payload)[..k - FRAME_OVERHEAD] + rest;
    Message(body[..|m.topic|], body[|m.topic|..])
  }

  lemma FilledFrame(version: byte, m: Message, k: nat, rest: seq<byte>)
    requires |m.topic| < 0x1_0000 && |m.payload| < 0x1_0000
    requires FRAME_OVERHEAD <= k && k + |rest| == |Frame(version, m)|
    ensures Frame(version, m)[..k] + rest == Frame(version, Filled(m, k, rest))
  {
    var f, head, body := Filled(m, k, rest), Head(version, |m.topic|, |m.payload|), m.topic + m.payload;
    SmallFrameParts(version, m);
    SmallFrameParts(version, f);
    assert (head + body)[..k] == head + body[..k - FRAME_OVERHEAD];
    assert f.topic + f.payload == body[..k - FRAME_OVERHEAD] + rest;
    Joins(head, body[..k - FRAME_OVERHEAD], rest);
  }

  /** A frame left unfinished behind its header takes the bytes that follow for its own: with them it is another message's
      frame, which is handed over in place of what was sent. */
  lemma TornFrameIsFilled(cfg: Config, cb: Callback, s: Decoder, m: Message, k: nat, rest: seq<byte>)
    requires s.Valid(cfg) && Ready(s) && cb.Callback? && Fits(cfg, m)
    requires FRAME_OVERHEAD <= k && k + |rest| == |Frame(cfg.version, m)|
    ensures Frame(cfg.version, m)[..k] + rest == Frame(cfg.version, Filled(m, k, rest))
    ensures var f := Filled(m, k, rest);
            Conserves(cb, s, [Message(Shown(CString(s.storage), f.topic), f.payload)],
                      Run(cfg, cb, s, Frame(cfg.version, m)[..k] + rest))
  {
    FilledFrame(cfg.version, m, k, rest);
    AnyFrame(cfg, cb, s, Filled(m, k, rest));
  }

  /** In particular a frame left unfinished in front of its payload: the payload handed over on its topic is the beginning
      of the next frame. */
  lemma TornPayloadIsNextFrame(cfg: Config, cb: Callback, s: Decoder, m: Message, next: Message)
    requires s.Valid(cfg) && s.Idle() && cb.Callback? && Sendable(cfg, m) && m.topic != [] && m.payload != []
    requires |m.payload| <= |Frame(cfg.version, next)|
    ensures var torn, frame := Frame(cfg.version, m)[..FRAME_OVERHEAD + |m.topic|], Frame(cfg.version, next);
            s.log + [Message(m.topic, frame[..|m.payload|])] <= Run(cfg, cb, s, torn + frame).state.log
  {
    var k, n, frame := FRAME_OVERHEAD + |m.topic|, |m.payload|, Frame(cfg.version, next);
    var torn, f := Frame(cfg.version, m)[..k], Filled(m, k, frame[..n]);
    assert f == Message(m.topic, frame[..n]) by {
      assert (m.topic + m.payload)[..|m.topic|] == m.topic;
    }
    TornFrameIsFilled(cfg, cb, s, m, k, frame[..n]);
    CStringOfPlain(m.topic);
    RunAppend(cfg, cb, s, torn + frame[..n], frame[n..]);
    assert torn + frame[..n] + frame[n..] == torn + frame;
    NothingIsOwed(cfg, cb, s, f, Run(cfg, cb, s, torn + frame[..n]));
  }

  lemma NothingIsOwed(cfg: Config, cb: Callback, s: Decoder, f: Message, o: Outcome)
    requires cb.Callback? && s.Idle() && o.state.Valid(cfg) && f.payload != [] && Conserves(cb, s, [f], o)
    ensures o.state.log == s.log + [f]
  {
    var owed := o.state.Owed();
    assert s.log + s.Owed() + [f] == s.log + [f];
    assert o.err.None? ==> (o.state.log + owed)[|s.log|] == f;
    assert owed != [] ==> (o.state.log + owed)[|o.state.log|] == owed[0];
  }
}
