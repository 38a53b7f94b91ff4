/** What the decoder guarantees about whole byte streams. */
module FramerTheorems {
  import opened Bytes
  import opened FramerSpec

  // ----- Chunking -----

  /** Cutting the bytes of a call in two changes nothing, unless the first part fails: then the second is dropped. */
  lemma {:induction false} RunAppend(cfg: Config, cb: Callback, s: Decoder, a: seq<byte>, b: seq<byte>)
    requires s.Valid(cfg)
    ensures var first := Run(cfg, cb, s, a);
            Run(cfg, cb, s, a + b) == if first.err.Some? then first else Run(cfg, cb, first.state, b)
    decreases |a|
  {
    if a == [] {
      assert a + b == b;
    } else {
      assert (a + b)[0] == a[0] && (a + b)[1..] == a[1..] + b;
      var o := Step(cfg, cb, s, a[0]);
      if o.err.None? {
        RunAppend(cfg, cb, o.state, a[1..], b);
      }
    }
  }

  /** However a byte stream is cut into decode calls, the outcome is that of one call with all of it. */
  lemma {:induction false} ChunkingIsInvisible(cfg: Config, cb: Callback, s: Decoder, chunks: seq<seq<byte>>)
    requires s.Valid(cfg)
    ensures RunChunks(cfg, cb, s, chunks) == Run(cfg, cb, s, Flatten(chunks))
    decreases |chunks|
  {
    if chunks != [] {
      RunAppend(cfg, cb, s, chunks[0], Flatten(chunks[1..]));
      var o := Run(cfg, cb, s, chunks[0]);
      if o.err.None? {
        ChunkingIsInvisible(cfg, cb, o.state, chunks[1..]);
      }
    }
  }

  // ----- Bulk copies -----

  predicate Hunting(s: Decoder) {
    s.phase.WaitMagicFirst? || s.phase.WaitMagicSecond?
  }

  function HeaderTurn(cfg: Config, s: Decoder, chunk: seq<byte>): Outcome {
    var s1 := s.(header := s.header + chunk);
    if |s1.header| == HEADER_SIZE then AcceptHeader(cfg, s1) else Outcome(s1, None)
  }

  function TopicTurn(s: Decoder, chunk: seq<byte>): Outcome
    requires s.topicFilled + |chunk| <= s.topicLength < |s.storage|
  {
    var s1 := s.(storage := Overwrite(s.storage, s.topicFilled, chunk), topicFilled := s.topicFilled + |chunk|);
    Outcome(if s1.topicFilled == s1.topicLength
            then s1.(storage := s1.storage[s1.topicLength := 0], phase := ReadPayload)
            else s1, None)
  }

  function PayloadTurn(cb: Callback, s: Decoder, chunk: seq<byte>): Outcome {
    var s1 := s.(payload := s.payload + chunk);
    if |s1.payload| == s1.payloadLength then Deliver(cb, s1) else Outcome(s1, None)
  }

  function MagicTurn(s: Decoder, b: byte): Decoder {
    if s.phase.WaitMagicFirst? then (if b == MAGIC_FIRST then s.(phase := WaitMagicSecond) else s)
    else if b == MAGIC_SECOND then s.(phase := ReadHeader, header := [])
    else if b == MAGIC_FIRST then s
    else s.(phase := WaitMagicFirst)
  }

  /** How many of the available bytes a turn of the decoding loop takes: all that its phase still wants. */
  function TurnSize(s: Decoder, available: nat): (n: int)
  {
    var wanted :=
      match s.phase
      case WaitMagicFirst => 1
      case WaitMagicSecond => 1
      case ReadHeader => HEADER_SIZE - |s.header|
      case ReadTopic => s.topicLength - s.topicFilled
      case ReadPayload => s.payloadLength - |s.payload|;
    if available < wanted then available else wanted
  }

  /** One turn of the decoding loop, on the bytes it takes. */
  function Turn(cfg: Config, cb: Callback, s: Decoder, chunk: seq<byte>): Outcome
    requires s.Valid(cfg) && |chunk| <= TurnSize(s, |chunk|)
    requires Hunting(s) ==> |chunk| == 1
  {
    match s.phase
    case WaitMagicFirst => Outcome(MagicTurn(s, chunk[0]), None)
    case WaitMagicSecond => Outcome(MagicTurn(s, chunk[0]), None)
    case ReadHeader => HeaderTurn(cfg, s, chunk)
    case ReadTopic => TopicTurn(s, chunk)
    case ReadPayload => PayloadTurn(cb, s, chunk)
  }

  /** Part of a header, copied at once. */
  lemma {:induction false} BulkHeader(cfg: Config, cb: Callback, s: Decoder, chunk: seq<byte>)
    requires s.Valid(cfg) && s.phase.ReadHeader?
    requires 0 < |chunk| <= HEADER_SIZE - |s.header|
    ensures Run(cfg, cb, s, chunk) == HeaderTurn(cfg, s, chunk)
    decreases |chunk|
  {
    if |chunk| == 1 {
      SingleStep(cfg, cb, s, chunk);
      assert [chunk[0]] == chunk;
    } else {
      var s1 := s.(header := s.header + [chunk[0]]);
      assert Step(cfg, cb, s, chunk[0]) == Outcome(s1, None);
      BulkHeader(cfg, cb, s1, chunk[1..]);
      assert s1.header + chunk[1..] == s.header + chunk;
    }
  }

  lemma OverwriteBoth(storage: seq<byte>, at: nat, first: byte, rest: seq<byte>)
    requires at + 1 + |rest| <= |storage|
    ensures Overwrite(storage[at := first], at + 1, rest) == Overwrite(storage, at, [first] + rest)
  {
    assert storage[at := first][..at + 1] == storage[..at] + [first];
  }

  /** One byte of a topic, and then the others, is all of them. */
  lemma TopicTurnBoth(s: Decoder, chunk: seq<byte>)
    requires 1 < |chunk| && s.topicFilled + |chunk| <= s.topicLength < |s.storage|
    ensures var s1 := s.(storage := s.storage[s.topicFilled := chunk[0]], topicFilled := s.topicFilled + 1);
            TopicTurn(s1, chunk[1..]) == TopicTurn(s, chunk)
  {
    OverwriteBoth(s.storage, s.topicFilled, chunk[0], chunk[1..]);
    assert [chunk[0]] + chunk[1..] == chunk;
  }

  lemma TopicByte(cfg: Config, cb: Callback, s: Decoder, b: byte)
    requires s.Valid(cfg) && s.phase.ReadTopic?
    ensures Step(cfg, cb, s, b) == TopicTurn(s, [b])
  {
    assert Overwrite(s.storage, s.topicFilled, [b]) == s.storage[s.topicFilled := b];
  }

  /** Part of a topic, copied at once. */
  lemma {:induction false} BulkTopic(cfg: Config, cb: Callback, s: Decoder, chunk: seq<byte>)
    requires s.Valid(cfg) && s.phase.ReadTopic?
    requires 0 < |chunk| <= s.topicLength - s.topicFilled
    ensures Run(cfg, cb, s, chunk) == TopicTurn(s, chunk)
    decreases |chunk|
  {
    if |chunk| == 1 {
      SingleStep(cfg, cb, s, chunk);
      TopicByte(cfg, cb, s, chunk[0]);
      assert chunk == [chunk[0]];
    } else {
      var s1 := s.(storage := s.storage[s.topicFilled := chunk[0]], topicFilled := s.topicFilled + 1);
      assert Step(cfg, cb, s, chunk[0]) == Outcome(s1, None);
      BulkTopic(cfg, cb, s1, chunk[1..]);
      TopicTurnBoth(s, chunk);
    }
  }

  /** Part of a payload, copied at once. */
  lemma {:induction false} BulkPayload(cfg: Config, cb: Callback, s: Decoder, chunk: seq<byte>)
    requires s.Valid(cfg) && s.phase.ReadPayload?
    requires 0 < |chunk| <= s.payloadLength - |s.payload|
    ensures Run(cfg, cb, s, chunk) == PayloadTurn(cb, s, chunk)
    decreases |chunk|
  {
    var o := Step(cfg, cb, s, chunk[0]);
    if |chunk| == 1 {
      assert s.payload + [chunk[0]] == s.payload + chunk;
    } else {
      BulkPayload(cfg, cb, o.state, chunk[1..]);
      assert (s.payload + [chunk[0]]) + chunk[1..] == s.payload + chunk;
    }
  }

  /** A turn of the loop that takes bytes does to the machine what those bytes do one at a time. */
  lemma TurnIsRun(cfg: Config, cb: Callback, s: Decoder, chunk: seq<byte>)
    requires s.Valid(cfg) && 0 < |chunk| == TurnSize(s, |chunk|)
    ensures Run(cfg, cb, s, chunk) == Turn(cfg, cb, s, chunk)
  {
    match s.phase {
      case WaitMagicFirst => SingleStep(cfg, cb, s, chunk);
      case WaitMagicSecond => SingleStep(cfg, cb, s, chunk);
      case ReadHeader => BulkHeader(cfg, cb, s, chunk);
      case ReadTopic => BulkTopic(cfg, cb, s, chunk);
      case ReadPayload => BulkPayload(cfg, cb, s, chunk);
    }
  }

  lemma SingleStep(cfg: Config, cb: Callback, s: Decoder, chunk: seq<byte>)
    requires s.Valid(cfg) && |chunk| == 1
    ensures Run(cfg, cb, s, chunk) == Step(cfg, cb, s, chunk[0])
  {
    assert chunk[1..] == [];
    var o := Step(cfg, cb, s, chunk[0]);
    assert Run(cfg, cb, o.state, []) == Outcome(o.state, None);
  }

  /** One turn of the loop with `rest` still to be read: an error ends the call there, and otherwise what remains to be
      done is what the new state makes of the bytes not taken. Each turn takes bytes, but for one that only hands over
      an owed message. */
  lemma TurnRefines(cfg: Config, cb: Callback, s: Decoder, rest: seq<byte>)
    requires s.Valid(cfg) && rest != []
    ensures var n := TurnSize(s, |rest|);
            && 0 <= n <= |rest| && (n == 0 <==> s.Pending())
            && var o := Turn(cfg, cb, s, rest[..n]);
            && o.state.Valid(cfg) && (s.Pending() ==> !o.state.Pending())
            && Run(cfg, cb, s, rest) == if o.err.Some? then o else Run(cfg, cb, o.state, rest[n..])
  {
    var n := TurnSize(s, |rest|);
    if n == 0 {
      NextByteReleases(cfg, cb, s, rest);
      assert s.payload + rest[..0] == s.payload;
      assert rest[0..] == rest;
    } else {
      TurnIsRun(cfg, cb, s, rest[..n]);
      assert rest == rest[..n] + rest[n..];
      RunAppend(cfg, cb, s, rest[..n], rest[n..]);
    }
  }

  lemma TurnKeeps(cfg: Config, cb: Callback, s: Decoder, chunk: seq<byte>, left: seq<byte>, o: Outcome, whole: Outcome)
    requires s.Valid(cfg) && chunk + left != [] && |chunk| == TurnSize(s, |chunk + left|)
    requires Hunting(s) ==> |chunk| == 1
    requires o == Turn(cfg, cb, s, chunk) && whole == Run(cfg, cb, s, chunk + left)
    ensures o.state.Valid(cfg) && (chunk == [] <==> s.Pending()) && (s.Pending() ==> !o.state.Pending())
    ensures whole == if o.err.Some? then o else Run(cfg, cb, o.state, left)
  {
    var rest := chunk + left;
    assert rest[..|chunk|] == chunk && rest[|chunk|..] == left;
    TurnRefines(cfg, cb, s, rest);
  }

  // ----- Whole frames -----

  /** The messages whose frames a decoder with this configuration takes: the encoder's and the decoder's limits. */
  ghost predicate Sendable(cfg: Config, m: Message) {
    0 !in m.topic && Fits(cfg, m)
  }

  predicate Fits(cfg: Config, m: Message) {
    && |m.topic| <= cfg.maxTopic && |m.topic| < 0x1_0000
    && |m.payload| <= cfg.maxPayload && |m.payload| < 0x1_0000
  }

  /** Between frames: hunting for a frame start, or owing an empty-payload message. */
  predicate Ready(s: Decoder) {
    s.phase.WaitMagicFirst? || s.phase.WaitMagicSecond? || s.Pending()
  }

  /** The state in which a frame has been read in full. */
  function Complete(cfg: Config, s: Decoder, m: Message): (r: Decoder)
    requires s.Valid(cfg) && Fits(cfg, m)
    ensures r.Valid(cfg) ==> m.payload == []
  {
    s.(phase := ReadPayload, header := FrameHeader(cfg.version, m),
       topicLength := |m.topic|, topicFilled := |m.topic|, payloadLength := |m.payload|, payload := m.payload,
       storage := if m.topic == [] then s.storage else Overwrite(s.storage, 0, m.topic)[|m.topic| := 0])
  }

  /** What the callback is shown for a topic in a frame: the topic, as far as a reader of a C string sees it, or without
      one whatever was shown last. */
  function Shown(before: seq<byte>, topic: seq<byte>): seq<byte> {
    if topic == [] then before else CString(topic)
  }

  /** The callback is shown the frame's topic, or without one whatever the storage still holds. */
  lemma TopicShown(cfg: Config, s: Decoder, m: Message)
    requires s.Valid(cfg) && Fits(cfg, m)
    ensures CString(Complete(cfg, s, m).storage) == Shown(CString(s.storage), m.topic)
  {
    if m.topic != [] {
      var rest := s.storage[|m.topic| + 1..];
      assert Complete(cfg, s, m).storage == m.topic + [0] + rest;
      CStringOfTerminated(m.topic, rest);
    }
  }

  /** The two magic bytes, from a state hunting for a frame: even one whose last byte looked like a frame start. */
  lemma MagicIsRead(cfg: Config, cb: Callback, s: Decoder)
    requires s.Valid(cfg) && (s.phase.WaitMagicFirst? || s.phase.WaitMagicSecond?)
    ensures Run(cfg, cb, s, [MAGIC_FIRST, MAGIC_SECOND]) == Outcome(s.(phase := ReadHeader, header := []), None)
  {
    var magic := [MAGIC_FIRST, MAGIC_SECOND];
    var o := Step(cfg, cb, s, magic[0]);
    assert o == Outcome(s.(phase := WaitMagicSecond), None);
    assert magic[1..] == [MAGIC_SECOND];
    var o2 := Step(cfg, cb, o.state, MAGIC_SECOND);
    assert o2 == Outcome(s.(phase := ReadHeader, header := []), None);
    assert [MAGIC_SECOND][1..] == [];
    assert Run(cfg, cb, o2.state, []) == Outcome(o2.state, None);
    assert Run(cfg, cb, o.state, [MAGIC_SECOND]) == o2;
  }

  function HeaderRead(cfg: Config, s: Decoder, m: Message): Decoder {
    s.(phase := if m.topic == [] then ReadPayload else ReadTopic, header := FrameHeader(cfg.version, m),
       topicLength := |m.topic|, topicFilled := 0, payloadLength := |m.payload|, payload := [])
  }

  lemma WholeHeader(cfg: Config, cb: Callback, s: Decoder, header: seq<byte>)
    requires s.Valid(cfg) && s.phase.ReadHeader? && s.header == [] && |header| == HEADER_SIZE
    ensures Run(cfg, cb, s, header) == AcceptHeader(cfg, s.(header := header))
  {
    BulkHeader(cfg, cb, s, header);
    assert s.header + header == header;
  }

  lemma HeaderIsRead(cfg: Config, cb: Callback, s: Decoder, m: Message)
    requires s.Valid(cfg) && s.phase.ReadHeader? && s.header == []
    requires Fits(cfg, m)
    ensures Run(cfg, cb, s, FrameHeader(cfg.version, m)) == Outcome(HeaderRead(cfg, s, m), None)
  {
    WholeHeader(cfg, cb, s, FrameHeader(cfg.version, m));
  }

  lemma TopicIsRead(cfg: Config, cb: Callback, s: Decoder, m: Message)
    requires s.Valid(cfg) && Fits(cfg, m)
    requires HeaderRead(cfg, s, m).Valid(cfg)
    ensures Run(cfg, cb, HeaderRead(cfg, s, m), m.topic) == Outcome(Complete(cfg, s, m).(payload := []), None)
  {
    if m.topic != [] {
      BulkTopic(cfg, cb, HeaderRead(cfg, s, m), m.topic);
    }
  }

  lemma PayloadIsRead(cfg: Config, cb: Callback, s: Decoder, m: Message)
    requires s.Valid(cfg) && Fits(cfg, m)
    requires Complete(cfg, s, m).(payload := []).Valid(cfg)
    ensures Run(cfg, cb, Complete(cfg, s, m).(payload := []), m.payload) ==
            if m.payload == [] then Outcome(Complete(cfg, s, m), None) else Deliver(cb, Complete(cfg, s, m))
  {
    if m.payload != [] {
      BulkPayload(cfg, cb, Complete(cfg, s, m).(payload := []), m.payload);
      assert [] + m.payload == m.payload;
    }
  }

  /** A whole frame, from a state hunting for one. */
  lemma FrameIsRead(cfg: Config, cb: Callback, s: Decoder, m: Message)
    requires s.Valid(cfg) && Hunting(s)
    requires Fits(cfg, m)
    ensures Run(cfg, cb, s, Frame(cfg.version, m)) ==
            if m.payload == [] then Outcome(Complete(cfg, s, m), None) else Deliver(cb, Complete(cfg, s, m))
  {
    var magic, header := [MAGIC_FIRST, MAGIC_SECOND], FrameHeader(cfg.version, m);
    MagicIsRead(cfg, cb, s);
    HeaderIsRead(cfg, cb, s.(phase := ReadHeader, header := []), m);
    TopicIsRead(cfg, cb, s, m);
    PayloadIsRead(cfg, cb, s, m);
    RunAppend(cfg, cb, s, magic, header);
    RunAppend(cfg, cb, s, magic + header, m.topic);
    RunAppend(cfg, cb, s, magic + header + m.topic, m.payload);
  }

  /** The first byte after an owed message releases it and is then processed as if the message had been complete
      before. */
  lemma NextByteReleases(cfg: Config, cb: Callback, s: Decoder, bytes: seq<byte>)
    requires s.Valid(cfg) && s.Pending() && bytes != []
    ensures var d := Deliver(cb, s);
            Run(cfg, cb, s, bytes) == if d.err.Some? then d else Run(cfg, cb, d.state, bytes)
  {
  }

  // ----- Streams of frames -----

  /** What a receiver is shown for these messages: an empty topic repeats the topic shown before it. */
  function Received(shown: seq<byte>, ms: seq<Message>): (r: seq<Message>)
    ensures |r| == |ms|
    decreases |ms|
  {
    if ms == [] then []
    else
      var topic := if ms[0].topic == [] then shown else ms[0].topic;
      [Message(topic, ms[0].payload)] + Received(topic, ms[1..])
  }

  function TopicBefore(shown: seq<byte>, ms: seq<Message>, i: nat): seq<byte>
    requires i < |ms|
  {
    if i == 0 then shown else ms[i - 1].topic
  }

  /** No empty topic follows a nonempty one. */
  ghost predicate NoTopicIsLost(shown: seq<byte>, ms: seq<Message>) {
    forall i :: 0 <= i < |ms| && ms[i].topic == [] ==> TopicBefore(shown, ms, i) == []
  }

  lemma NoTopicIsLostTail(shown: seq<byte>, ms: seq<Message>)
    requires ms != [] && (ms[0].topic == [] ==> shown == [])
    ensures NoTopicIsLost(shown, ms) <==> NoTopicIsLost(ms[0].topic, ms[1..])
  {
    var rest := ms[1..];
    forall i | 0 <= i < |rest|
      ensures rest[i] == ms[i + 1] && TopicBefore(ms[0].topic, rest, i) == TopicBefore(shown, ms, i + 1)
    {
    }
    if NoTopicIsLost(ms[0].topic, rest) {
      forall i | 0 <= i < |ms| && ms[i].topic == [] ensures TopicBefore(shown, ms, i) == [] {
        if i > 0 {
          assert rest[i - 1] == ms[i];
        }
      }
    }
  }

  /** A stream of messages is received as it was sent exactly when no empty topic follows a nonempty one. */
  lemma {:induction false} ReceivedAsSent(shown: seq<byte>, ms: seq<Message>)
    ensures Received(shown, ms) == ms <==> NoTopicIsLost(shown, ms)
    decreases |ms|
  {
    if ms != [] {
      var topic := if ms[0].topic == [] then shown else ms[0].topic;
      var r := Received(topic, ms[1..]);
      assert ms == [ms[0]] + ms[1..];
      assert Received(shown, ms)[0] == Message(topic, ms[0].payload) && Received(shown, ms)[1..] == r;
      if topic == ms[0].topic {
        ReceivedAsSent(topic, ms[1..]);
        NoTopicIsLostTail(shown, ms);
        assert Received(shown, ms) == ms <==> r == ms[1..];
      } else {
        assert TopicBefore(shown, ms, 0) == shown != [];
      }
    }
  }

  /** Delivered plus owed is what was to come: `o`, reached from `s`, handed over in order a prefix of what `s` owed
      and of the messages `sent` since; only the callback can have stopped it, and if it did not, everything is handed
      over or owed. */
  ghost predicate Conserves(cb: Callback, s: Decoder, sent: seq<Message>, o: Outcome)
    requires cb.Callback?
  {
    && HandsOver(cb, s, sent, o)
    && (o.err.None? && sent != [] ==> o.state.Idle() || o.state.Pending())
  }

  /** The same but for the state at the end, which may be hunting with half of a frame start seen. */
  ghost predicate HandsOver(cb: Callback, s: Decoder, sent: seq<Message>, o: Outcome)
    requires cb.Callback?
  {
    var all := s.log + s.Owed() + sent;
    && o.state.log <= all
    && (o.err.None? ==> Ready(o.state) && o.state.log + o.state.Owed() == all)
    && (o.err.Some? ==> o.err == Some(CallbackFailed) && |s.log| < |o.state.log| && !cb.accepts(|o.state.log| - 1))
  }

  lemma HandsOverBoth(cb: Callback, s: Decoder, sent1: seq<Message>, mid: Outcome, sent2: seq<Message>, o: Outcome)
    requires cb.Callback? && HandsOver(cb, s, sent1, mid) && mid.err.None? && HandsOver(cb, mid.state, sent2, o)
    requires s.log <= mid.state.log
    ensures HandsOver(cb, s, sent1 + sent2, o)
  {
    assert s.log + s.Owed() + (sent1 + sent2) == mid.state.log + mid.state.Owed() + sent2;
  }

  lemma ConservesTransitive(cb: Callback, s: Decoder, sent1: seq<Message>, mid: Outcome, sent2: seq<Message>, o: Outcome)
    requires cb.Callback? && Conserves(cb, s, sent1, mid) && mid.err.None? && Conserves(cb, mid.state, sent2, o)
    requires s.log <= mid.state.log && (sent2 == [] ==> o == mid)
    ensures Conserves(cb, s, sent1 + sent2, o)
  {
    HandsOverBoth(cb, s, sent1, mid, sent2, o);
  }

  lemma DeliverConserves(cb: Callback, s: Decoder, sent: seq<Message>)
    requires cb.Callback? && s.Pending()
    ensures var d := Deliver(cb, s);
            if d.err.None? then Conserves(cb, s, [], d) else Conserves(cb, s, sent, d)
  {
  }

  lemma OwedIsConserved(cb: Callback, s: Decoder, m: Message, o: Outcome)
    requires cb.Callback? && s.Owed() == [] && o.err.None? && o.state.Pending()
    requires o.state.log == s.log && o.state.Owed() == [m]
    ensures Conserves(cb, s, [m], o)
  {
    assert s.log + s.Owed() + [m] == s.log + [m];
  }

  lemma DeliveredIsConserved(cb: Callback, s: Decoder, m: Message, o: Outcome)
    requires cb.Callback? && s.Owed() == [] && o.state.Idle() && o.state.log == s.log + [m]
    requires o.err == if cb.accepts(|s.log|) then None else Some(CallbackFailed)
    ensures Conserves(cb, s, [m], o)
  {
    assert s.log + s.Owed() + [m] == s.log + [m];
    assert o.state.Owed() == [];
  }

  lemma CompleteConserves(cfg: Config, cb: Callback, s: Decoder, m: Message, o: Outcome)
    requires s.Valid(cfg) && Hunting(s) && cb.Callback? && Fits(cfg, m)
    requires o == if m.payload == [] then Outcome(Complete(cfg, s, m), None) else Deliver(cb, Complete(cfg, s, m))
    ensures var shown := Shown(CString(s.storage), m.topic);
            Conserves(cb, s, [Message(shown, m.payload)], o) && (o.err.None? ==> CString(o.state.storage) == shown)
  {
    TopicShown(cfg, s, m);
    var given := Message(Shown(CString(s.storage), m.topic), m.payload);
    if m.payload == [] {
      OwedIsConserved(cb, s, given, o);
    } else {
      DeliveredIsConserved(cb, s, given, o);
    }
  }

  /** A frame of any topic and payload within the limits, even of a topic that holds a NUL, as no sender makes it. */
  lemma AnyFrame(cfg: Config, cb: Callback, s: Decoder, m: Message)
    requires s.Valid(cfg) && Ready(s) && cb.Callback? && Fits(cfg, m)
    ensures var o := Run(cfg, cb, s, Frame(cfg.version, m));
            var shown := Shown(CString(s.storage), m.topic);
            Conserves(cb, s, [Message(shown, m.payload)], o) && (o.err.None? ==> CString(o.state.storage) == shown)
  {
    var frame := Frame(cfg.version, m);
    var given := Message(Shown(CString(s.storage), m.topic), m.payload);
    if s.Pending() {
      NextByteReleases(cfg, cb, s, frame);
      DeliverConserves(cb, s, [given]);
      var d := Deliver(cb, s);
      if d.err.None? {
        FrameIsRead(cfg, cb, d.state, m);
        var o := Run(cfg, cb, d.state, frame);
        CompleteConserves(cfg, cb, d.state, m, o);
        ConservesTransitive(cb, s, [], d, [given], o);
        assert [] + [given] == [given];
      }
    } else {
      FrameIsRead(cfg, cb, s, m);
      CompleteConserves(cfg, cb, s, m, Run(cfg, cb, s, frame));
    }
  }

  lemma OneFrame(cfg: Config, cb: Callback, s: Decoder, m: Message)
    requires s.Valid(cfg) && Ready(s) && cb.Callback? && Sendable(cfg, m)
    ensures var o := Run(cfg, cb, s, Frame(cfg.version, m));
            var shown := if m.topic == [] then CString(s.storage) else m.topic;
            Conserves(cb, s, [Message(shown, m.payload)], o) && (o.err.None? ==> CString(o.state.storage) == shown)
  {
    AnyFrame(cfg, cb, s, m);
    CStringOfPlain(m.topic);
  }

  /** From between frames, any stream of frames of sendable messages conserves them. */
  lemma {:induction false} StreamConservation(cfg: Config, cb: Callback, s: Decoder, ms: seq<Message>)
    requires s.Valid(cfg) && Ready(s) && cb.Callback?
    requires forall m :: m in ms ==> Sendable(cfg, m)
    ensures Conserves(cb, s, Received(CString(s.storage), ms), Run(cfg, cb, s, Frames(cfg.version, ms)))
    decreases |ms|
  {
    if ms != [] {
      var m, rest := ms[0], ms[1..];
      var frame := Frame(cfg.version, m);
      RunAppend(cfg, cb, s, frame, Frames(cfg.version, rest));
      OneFrame(cfg, cb, s, m);
      var shown := if m.topic == [] then CString(s.storage) else m.topic;
      var o := Run(cfg, cb, s, frame);
      if o.err.None? {
        StreamConservation(cfg, cb, o.state, rest);
        ConservesTransitive(cb, s, [Message(shown, m.payload)], o,
                            Received(shown, rest), Run(cfg, cb, o.state, Frames(cfg.version, rest)));
      }
    }
  }

  ghost predicate AcceptsAll(cb: Callback) {
    cb.Callback? && forall k :: cb.accepts(k)
  }

  /** Round trip. The concatenated frames of sendable messages are decoded without error and everything is handed over
      but a last message with an empty payload; what is received is what was sent exactly when no empty topic follows
      a nonempty one. */
  lemma RoundTrip(cfg: Config, cb: Callback, s: Decoder, ms: seq<Message>)
    requires s.Valid(cfg) && s.Idle() && AcceptsAll(cb)
    requires forall m :: m in ms ==> Sendable(cfg, m)
    ensures RoundTrips(s, ms, Run(cfg, cb, s, Frames(cfg.version, ms)))
  {
    StreamConservation(cfg, cb, s, ms);
    ReceivedRoundTrips(cfg, cb, s, ms, Run(cfg, cb, s, Frames(cfg.version, ms)));
  }

  ghost predicate RoundTrips(s: Decoder, ms: seq<Message>, o: Outcome) {
    && o.err.None?
    && (o.state.Idle() || o.state.Pending())
    && (o.state.log + o.state.Owed() == s.log + ms <==> NoTopicIsLost(CString(s.storage), ms))
    && (o.state.Pending() ==> ms != [] && ms[|ms| - 1].payload == [])
  }

  lemma ReceivedRoundTrips(cfg: Config, cb: Callback, s: Decoder, ms: seq<Message>, o: Outcome)
    requires s.Idle() && AcceptsAll(cb) && o.state.Valid(cfg)
    requires Conserves(cb, s, Received(CString(s.storage), ms), o) && (ms == [] ==> o == Outcome(s, None))
    ensures RoundTrips(s, ms, o)
  {
    var shown := CString(s.storage);
    var r := Received(shown, ms);
    ReceivedAsSent(shown, ms);
    assert s.log + s.Owed() + r == s.log + r;
    if s.log + r == s.log + ms {
      assert r == (s.log + r)[|s.log|..] == (s.log + ms)[|s.log|..] == ms;
    }
    if o.state.Pending() {
      OwedHasNoPayload(cfg, o.state);
      ReceivedPayloads(shown, ms);
      assert |s.log + r| == |o.state.log| + 1;
      assert (o.state.log + o.state.Owed())[|o.state.log|] == o.state.Owed()[0];
    }
  }

  lemma OwedHasNoPayload(cfg: Config, s: Decoder)
    requires s.Valid(cfg) && s.Pending()
    ensures s.Owed() == [Message(CString(s.storage), [])]
  {
  }

  lemma {:induction false} ReceivedPayloads(shown: seq<byte>, ms: seq<Message>)
    ensures forall i :: 0 <= i < |ms| ==> Received(shown, ms)[i].payload == ms[i].payload
    decreases |ms|
  {
    if ms != [] {
      var topic := if ms[0].topic == [] then shown else ms[0].topic;
      ReceivedPayloads(topic, ms[1..]);
      assert Received(shown, ms)[1..] == Received(topic, ms[1..]);
      forall i | 0 < i < |ms| ensures Received(shown, ms)[i].payload == ms[i].payload {
        assert Received(shown, ms)[i] == Received(topic, ms[1..])[i - 1];
        assert ms[i] == ms[1..][i - 1];
      }
    }
  }

  // ----- Without a callback -----

  /** The same but for what has been handed over. */
  predicate SameButLog(a: Decoder, b: Decoder) {
    a == b.(log := a.log)
  }

  lemma ConsumeWithoutCallback(cfg: Config, cb: Callback, silent: Decoder, heard: Decoder, b: byte)
    requires silent.Valid(cfg) && heard.Valid(cfg) && SameButLog(silent, heard) && AcceptsAll(cb) && !silent.Pending()
    ensures var a, o := Consume(cfg, NoCallback, silent, b), Consume(cfg, cb, heard, b);
            SameButLog(a.state, o.state) && a.state.log == silent.log && a.err == o.err
  {
  }

  lemma StepWithoutCallback(cfg: Config, cb: Callback, silent: Decoder, heard: Decoder, b: byte)
    requires silent.Valid(cfg) && heard.Valid(cfg) && SameButLog(silent, heard) && AcceptsAll(cb)
    ensures var a, o := Step(cfg, NoCallback, silent, b), Step(cfg, cb, heard, b);
            SameButLog(a.state, o.state) && a.state.log == silent.log && a.err == o.err
  {
    if silent.Pending() {
      ConsumeWithoutCallback(cfg, cb, Reset(silent), Deliver(cb, heard).state, b);
    } else {
      ConsumeWithoutCallback(cfg, cb, silent, heard, b);
    }
  }

  /** Any bytes: without a callback everything goes as with one that accepts everything, only that nothing is handed
      over. */
  lemma {:induction false} NoCallbackDiscards(cfg: Config, cb: Callback, silent: Decoder, heard: Decoder,
                                              bytes: seq<byte>)
    requires silent.Valid(cfg) && heard.Valid(cfg) && SameButLog(silent, heard) && AcceptsAll(cb)
    ensures var a, o := Run(cfg, NoCallback, silent, bytes), Run(cfg, cb, heard, bytes);
            SameButLog(a.state, o.state) && a.state.log == silent.log && a.err == o.err
    decreases |bytes|
  {
    if bytes != [] {
      var a, o := Step(cfg, NoCallback, silent, bytes[0]), Step(cfg, cb, heard, bytes[0]);
      StepWithoutCallback(cfg, cb, silent, heard, bytes[0]);
      if a.err.None? {
        NoCallbackDiscards(cfg, cb, a.state, o.state, bytes[1..]);
      }
    }
  }

  /** Without a callback the frames of sendable messages are decoded without an error and discarded. */
  lemma FramesAreDiscarded(cfg: Config, s: Decoder, ms: seq<Message>)
    requires s.Valid(cfg) && s.Idle() && forall m :: m in ms ==> Sendable(cfg, m)
    ensures var o := Run(cfg, NoCallback, s, Frames(cfg.version, ms));
            o.err.None? && o.state.log == s.log && (o.state.Idle() || o.state.Pending())
  {
    var all := Callback((k: nat) => true);
    RoundTrip(cfg, all, s, ms);
    NoCallbackDiscards(cfg, all, s, s, Frames(cfg.version, ms));
  }

  /** The law the module exists for: nonempty topics and payloads, of any bytes at all, arrive as they were sent and
      leave the decoder idle. */
  lemma CleanRoundTrip(cfg: Config, cb: Callback, s: Decoder, ms: seq<Message>)
    requires s.Valid(cfg) && s.Idle() && AcceptsAll(cb)
    requires forall m :: m in ms ==> Sendable(cfg, m) && m.topic != [] && m.payload != []
    ensures var o := Run(cfg, cb, s, Frames(cfg.version, ms));
            o.err.None? && o.state.log == s.log + ms && o.state.Idle()
  {
    RoundTrip(cfg, cb, s, ms);
    assert NoTopicIsLost(CString(s.storage), ms) by {
      forall i | 0 <= i < |ms| ensures ms[i].topic != [] {
        assert ms[i] in ms;
      }
    }
    var o := Run(cfg, cb, s, Frames(cfg.version, ms));
    assert ms != [] ==> ms[|ms| - 1] in ms;
    assert !o.state.Pending();
  }

  /** An empty topic does not survive: a fresh decoder that is sent a message on "A" and one without a topic hands over
      two messages on "A". */
  lemma EmptyTopicIsLost(cfg: Config, cb: Callback, s: Decoder, p: byte, q: byte)
    requires s.Valid(cfg) && s.Idle() && s.log == [] && AcceptsAll(cb) && cfg.maxTopic > 0 && cfg.maxPayload > 0
    ensures var o := Run(cfg, cb, s, Frames(cfg.version, [Message([65], [p]), Message([], [q])]));
            o.err.None? && o.state.log == [Message([65], [p]), Message([65], [q])]
  {
    var a, b := Message([65], [p]), Message([], [q]);
    var ms := [a, b];
    StreamConservation(cfg, cb, s, ms);
    var o, shown := Run(cfg, cb, s, Frames(cfg.version, ms)), CString(s.storage);
    assert Received(shown, ms) == [a, Message([65], [q])] by {
      assert ms[1..] == [b] && [b][1..] == [];
      assert Received([65], [b]) == [Message([65], [q])] + Received([65], []);
    }
    ReceivedRoundTrips(cfg, cb, s, ms, o);
    assert s.log + s.Owed() + Received(shown, ms) == Received(shown, ms);
    assert ms[|ms| - 1] == b;
    assert !o.state.Pending();
    assert o.state.log + o.state.Owed() == o.state.log;
  }

  /** Any part of a stream of frames, cut anywhere, hands over a prefix of the messages of the whole stream. */
  lemma PrefixOfStream(cfg: Config, cb: Callback, s: Decoder, ms: seq<Message>, bytes: seq<byte>)
    requires s.Valid(cfg) && s.Idle() && cb.Callback?
    requires forall m :: m in ms ==> Sendable(cfg, m)
    requires bytes <= Frames(cfg.version, ms)
    ensures Run(cfg, cb, s, bytes).state.log <= s.log + Received(CString(s.storage), ms)
    ensures AcceptsAll(cb) ==> Run(cfg, cb, s, bytes).err.None?
  {
    var stream := Frames(cfg.version, ms);
    assert stream == bytes + stream[|bytes|..];
    RunAppend(cfg, cb, s, bytes, stream[|bytes|..]);
    StreamConservation(cfg, cb, s, ms);
    assert s.log + s.Owed() == s.log;
  }

  // ----- Noise and errors -----

  ghost predicate NoMagicPair(noise: seq<byte>) {
    forall i :: 0 <= i < |noise| - 1 ==> noise[i] != MAGIC_FIRST || noise[i + 1] != MAGIC_SECOND
  }

  function AfterNoise(s: Decoder, noise: seq<byte>): Decoder {
    if noise == [] then s
    else s.(phase := if noise[|noise| - 1] == MAGIC_FIRST then WaitMagicSecond else WaitMagicFirst)
  }

  /** Noise without a magic pair only moves the machine between its two hunting phases. */
  lemma {:induction false} NoiseIsSkipped(cfg: Config, cb: Callback, s: Decoder, noise: seq<byte>)
    requires s.Valid(cfg) && Hunting(s) && NoMagicPair(noise)
    requires s.phase.WaitMagicSecond? ==> noise == [] || noise[0] != MAGIC_SECOND
    ensures Run(cfg, cb, s, noise) == Outcome(AfterNoise(s, noise), None)
    decreases |noise|
  {
    if noise != [] {
      var o := Step(cfg, cb, s, noise[0]);
      assert o == Outcome(AfterNoise(s, [noise[0]]), None);
      assert forall i :: 0 <= i < |noise| - 1 ==> noise[1..][i] == noise[i + 1];
      NoiseIsSkipped(cfg, cb, o.state, noise[1..]);
    }
  }

  /** A magic pair at the end of the noise, the first in it, ends the hunt. */
  lemma PairEndsHunt(cfg: Config, cb: Callback, s: Decoder, noise: seq<byte>)
    requires s.Valid(cfg) && s.phase.WaitMagicFirst? && !NoMagicPair(noise) && NoMagicPair(noise[..|noise| - 1])
    ensures !Hunting(Run(cfg, cb, s, noise).state)
  {
    var n := |noise| - 1;
    var shorter := noise[..n];
    assert forall i :: 0 <= i < n ==> shorter[i] == noise[i];
    assert noise[n - 1] == MAGIC_FIRST && noise[n] == MAGIC_SECOND;
    NoiseIsSkipped(cfg, cb, s, shorter);
    RunAppend(cfg, cb, s, shorter, [noise[n]]);
    assert noise == shorter + [noise[n]];
    SingleStep(cfg, cb, AfterNoise(s, shorter), [noise[n]]);
  }

  /** The converse: the machine is still hunting after every prefix of the noise exactly when no magic pair is in it. */
  lemma {:induction false} HuntingMeansNoPair(cfg: Config, cb: Callback, s: Decoder, noise: seq<byte>)
    requires s.Valid(cfg) && s.phase.WaitMagicFirst?
    ensures NoMagicPair(noise) <==>
            forall k :: 0 <= k <= |noise| ==> Hunting(Run(cfg, cb, s, noise[..k]).state)
    decreases |noise|
  {
    if NoMagicPair(noise) {
      forall k | 0 <= k <= |noise| ensures Hunting(Run(cfg, cb, s, noise[..k]).state) {
        NoiseIsSkipped(cfg, cb, s, noise[..k]);
      }
    } else {
      var n := |noise| - 1;
      var shorter := noise[..n];
      if NoMagicPair(shorter) {
        PairEndsHunt(cfg, cb, s, noise);
        assert noise[..|noise|] == noise;
      } else {
        HuntingMeansNoPair(cfg, cb, s, shorter);
        var k :| 0 <= k <= n && !Hunting(Run(cfg, cb, s, shorter[..k]).state);
        assert shorter[..k] == noise[..k];
      }
    }
  }

  /** Noise without a magic pair, even noise ending in half of one, followed by frames delivers those frames. */
  lemma NoiseThenFrames(cfg: Config, cb: Callback, s: Decoder, noise: seq<byte>, ms: seq<Message>)
    requires s.Valid(cfg) && s.Idle() && cb.Callback? && NoMagicPair(noise)
    requires forall m :: m in ms ==> Sendable(cfg, m)
    ensures Conserves(cb, s, Received(CString(s.storage), ms), Run(cfg, cb, s, noise + Frames(cfg.version, ms)))
  {
    var frames := Frames(cfg.version, ms);
    NoiseIsSkipped(cfg, cb, s, noise);
    RunAppend(cfg, cb, s, noise, frames);
    StreamConservation(cfg, cb, AfterNoise(s, noise), ms);
    ConservesFromNoise(cb, s, noise, Received(CString(s.storage), ms), Run(cfg, cb, AfterNoise(s, noise), frames));
  }

  lemma ConservesFromNoise(cb: Callback, s: Decoder, noise: seq<byte>, sent: seq<Message>, o: Outcome)
    requires cb.Callback? && s.Idle() && Conserves(cb, AfterNoise(s, noise), sent, o)
    ensures Conserves(cb, s, sent, o)
  {
    assert AfterNoise(s, noise).Owed() == s.Owed();
  }

  /** Whatever bytes made a decode call fail, and from whatever state, the frames of the next calls are delivered. */
  lemma ResumesAfterError(cfg: Config, cb: Callback, s: Decoder, garbage: seq<byte>, chunks: seq<seq<byte>>,
                          ms: seq<Message>)
    requires s.Valid(cfg) && cb.Callback? && Run(cfg, cb, s, garbage).err.Some?
    requires Flatten(chunks) == Frames(cfg.version, ms) && forall m :: m in ms ==> Sendable(cfg, m)
    ensures var failed := Run(cfg, cb, s, garbage).state;
            && failed.Idle()
            && Conserves(cb, failed, Received(CString(failed.storage), ms), RunChunks(cfg, cb, failed, chunks))
  {
    var failed := Run(cfg, cb, s, garbage).state;
    ChunkingIsInvisible(cfg, cb, failed, chunks);
    StreamConservation(cfg, cb, failed, ms);
  }

  // ----- Messages beyond the limits -----

  lemma HeaderIsRejected(cfg: Config, cb: Callback, s: Decoder, version: byte, m: Message, err: Error)
    requires s.Valid(cfg) && Hunting(s)
    requires AcceptHeader(cfg, s.(phase := ReadHeader, header := FrameHeader(version, m))).err == Some(err)
    ensures var o := Run(cfg, cb, s, Frame(version, m));
            o.err == Some(err) && o.state.log == s.log && o.state.Idle()
  {
    var magic, header := [MAGIC_FIRST, MAGIC_SECOND], FrameHeader(version, m);
    var s0 := s.(phase := ReadHeader, header := []);
    MagicIsRead(cfg, cb, s);
    WholeHeader(cfg, cb, s0, header);
    assert s0.(header := header) == s.(phase := ReadHeader, header := header);
    var tail := m.topic + m.payload;
    assert Frame(version, m) == magic + (header + tail);
    RunAppend(cfg, cb, s, magic, header + tail);
    RunAppend(cfg, cb, s0, header, tail);
  }

  lemma OwedComesNext(cfg: Config, cb: Callback, s: Decoder, bytes: seq<byte>)
    requires s.Valid(cfg) && cb.Callback? && bytes != []
    ensures s.log + s.Owed() <= Run(cfg, cb, s, bytes).state.log
  {
    if s.Pending() {
      NextByteReleases(cfg, cb, s, bytes);
    }
  }

  /** What the frame of a message says it holds: its bytes cut by the low 16 bits of both lengths. */
  function Cut(m: Message): (c: Message)
    ensures |c.topic| == |m.topic| % 0x1_0000 && |c.payload| == |m.payload| % 0x1_0000
  {
    var body, t, p := m.topic + m.payload, |m.topic| % 0x1_0000, |m.payload| % 0x1_0000;
    Message(body[..t], body[t..t + p])
  }

  /** What precedes the topic and the payload; it depends on the lengths alone. */
  function Head(version: byte, t: nat, p: nat): (h: seq<byte>)
    requires t < 0x1_0000 && p < 0x1_0000
    ensures |h| == FRAME_OVERHEAD
  {
    [MAGIC_FIRST, MAGIC_SECOND] + ([version] + StoreU16(t) + StoreU16(p))
  }

  lemma FrameParts(version: byte, m: Message)
    ensures Frame(version, m) == Head(version, |m.topic| % 0x1_0000, |m.payload| % 0x1_0000) + (m.topic + m.payload)
  {
  }

  lemma SmallFrameParts(version: byte, m: Message)
    requires |m.topic| < 0x1_0000 && |m.payload| < 0x1_0000
    ensures Frame(version, m) == Head(version, |m.topic|, |m.payload|) + (m.topic + m.payload)
  {
    FrameParts(version, m);
  }

  lemma FrameOfCut(version: byte, m: Message) returns (rest: seq<byte>)
    ensures Frame(version, m) == Frame(version, Cut(m)) + rest
    ensures |rest| == |m.topic| + |m.payload| - |Cut(m).topic| - |Cut(m).payload|
    ensures Cut(m).topic == m.topic[..|Cut(m).topic|]
  {
    var cut := Cut(m);
    rest := CutBody(m, cut);
    FrameParts(version, m);
    SmallFrameParts(version, cut);
    Joins(Head(version, |cut.topic|, |cut.payload|), cut.topic + cut.payload, rest);
  }

  lemma CutBody(m: Message, cut: Message) returns (rest: seq<byte>)
    requires cut == Cut(m)
    ensures m.topic + m.payload == cut.topic + cut.payload + rest && cut.topic == m.topic[..|cut.topic|]
  {
    rest := (m.topic + m.payload)[|cut.topic| + |cut.payload|..];
  }

  lemma Joins(a: seq<byte>, b: seq<byte>, c: seq<byte>)
    ensures (a + b) + c == a + (b + c)
  {
  }

  /** A topic or a payload of 64 KiB or more is cut to its length's low 16 bits; the message shown is never the one
      sent, unless the topic shown last was itself that long, which no frame can have made it. */
  lemma LongMessageIsCut(cfg: Config, cb: Callback, s: Decoder, m: Message)
    requires s.Valid(cfg) && s.Idle() && AcceptsAll(cb) && |CString(s.storage)| < 0x1_0000
    requires 0 !in m.topic && |m.topic| <= cfg.maxTopic && |m.payload| % 0x1_0000 <= cfg.maxPayload
    requires |m.topic| >= 0x1_0000 || |m.payload| >= 0x1_0000
    ensures var log := Run(cfg, cb, s, Frame(cfg.version, m)).state.log;
            |log| > |s.log| && (|log[|s.log|].topic| < |m.topic| || |log[|s.log|].payload| < |m.payload|)
  {
    var cut := Cut(m);
    var rest := FrameOfCut(cfg.version, m);
    var shown := if cut.topic == [] then CString(s.storage) else cut.topic;
    CutIsSendable(cfg, m);
    FrameThenMore(cfg, cb, s, cut, rest);
    assert s.log + s.Owed() + [Message(shown, cut.payload)] == s.log + [Message(shown, cut.payload)];
  }

  lemma CutIsSendable(cfg: Config, m: Message)
    requires 0 !in m.topic && |m.topic| <= cfg.maxTopic && |m.payload| % 0x1_0000 <= cfg.maxPayload
    ensures Sendable(cfg, Cut(m))
  {
    var rest := FrameOfCut(cfg.version, m);
  }

  /** A frame followed by anything: its message is handed over. */
  lemma FrameThenMore(cfg: Config, cb: Callback, s: Decoder, m: Message, rest: seq<byte>)
    requires s.Valid(cfg) && Ready(s) && AcceptsAll(cb) && Sendable(cfg, m) && rest != []
    ensures var shown := if m.topic == [] then CString(s.storage) else m.topic;
            s.log + s.Owed() + [Message(shown, m.payload)] <= Run(cfg, cb, s, Frame(cfg.version, m) + rest).state.log
  {
    RunAppend(cfg, cb, s, Frame(cfg.version, m), rest);
    OneFrame(cfg, cb, s, m);
    OwedComesNext(cfg, cb, Run(cfg, cb, s, Frame(cfg.version, m)).state, rest);
  }

  /** One message, encoded under any version and any lengths, comes out as it went in exactly when the versions agree, its
      lengths fit 16 bits, the payload is within the receiver's maximum, and a topic is given or none was shown. */
  lemma ComesOutAsItWentIn(cfg: Config, cb: Callback, s: Decoder, version: byte, m: Message)
    requires s.Valid(cfg) && s.Idle() && AcceptsAll(cb) && cfg.version != 0 && |CString(s.storage)| < 0x1_0000
    requires 0 !in m.topic && |m.topic| <= cfg.maxTopic
    ensures var o := Run(cfg, cb, s, Frame(version, m));
            o.err.None? && o.state.log + o.state.Owed() == s.log + [m] <==>
            && version == cfg.version && |m.topic| < 0x1_0000
            && |m.payload| <= cfg.maxPayload && |m.payload| < 0x1_0000
            && (m.topic == [] ==> CString(s.storage) == [])
  {
    var o := Run(cfg, cb, s, Frame(version, m));
    if version != cfg.version {
      HeaderIsRejected(cfg, cb, s, version, m, UnexpectedVersion);
    } else if |m.payload| % 0x1_0000 > cfg.maxPayload {
      HeaderIsRejected(cfg, cb, s, version, m, PayloadTooLong);
    } else if |m.topic| >= 0x1_0000 || |m.payload| >= 0x1_0000 {
      LongMessageIsCut(cfg, cb, s, m);
      assert (o.state.log + o.state.Owed())[|s.log|] == o.state.log[|s.log|] != m == (s.log + [m])[|s.log|];
    } else {
      OneFrame(cfg, cb, s, m);
      var shown := if m.topic == [] then CString(s.storage) else m.topic;
      assert s.log + s.Owed() + [Message(shown, m.payload)] == s.log + [Message(shown, m.payload)];
      assert (s.log + [Message(shown, m.payload)])[|s.log|] == Message(shown, m.payload);
      assert (s.log + [m])[|s.log|] == m;
    }
  }
}
