/** The wire format and the decoder of dtframer_simple.c, one byte at a time. */
module FramerSpec {
  import opened Bytes

  const MAGIC_FIRST: byte := 0xA5
  const MAGIC_SECOND: byte := 0x5A
  const HEADER_SIZE := 5

  datatype FramingMode = Stream | Bus

  datatype Config = Config(version: byte, maxTopic: nat, maxPayload: nat, mode: FramingMode)

  /** What was configured is kept, and what was left zero takes its default, which for the maxima is the mode's. */
  predicate Configured(c: Config, config: Config) {
    && config.mode == c.mode
    && config.version == (if c.version != 0 then c.version else 1)
    && (c.maxTopic != 0 ==> config.maxTopic == c.maxTopic)
    && (c.maxTopic == 0 ==> config.maxTopic == match c.mode case Bus => 32 case Stream => 64)
    && (c.maxPayload != 0 ==> config.maxPayload == c.maxPayload)
    && (c.maxPayload == 0 ==> config.maxPayload == match c.mode case Bus => 256 case Stream => 2048)
  }

  /** dtframer_simple_apply_defaults: zero fields take their defaults; in particular no configured framer has
      version 0. */
  function ApplyDefaults(c: Config): (r: Config)
    ensures r.version != 0 && r.maxTopic > 0 && r.maxPayload > 0 && Configured(c, r)
  {
    Config(
      if c.version == 0 then 1 else c.version,
      if c.maxTopic != 0 then c.maxTopic else if c.mode.Bus? then 32 else 64,
      if c.maxPayload != 0 then c.maxPayload else if c.mode.Bus? then 256 else 2048,
      c.mode)
  }

  datatype Message = Message(topic: seq<byte>, payload: seq<byte>)

  datatype Phase = WaitMagicFirst | WaitMagicSecond | ReadHeader | ReadTopic | ReadPayload

  datatype Error =
    | NegativeLength
    | UnexpectedVersion
    | TopicTooLong
    | PayloadTooLong
    | BufferTooSmall
    | CallbackFailed

  /** The application's callback. `accepts(k)` says whether its k-th invocation succeeds, so that quantifying over
      all such functions covers every behaviour of the application. */
  datatype Callback = NoCallback | Callback(accepts: nat -> bool)

  /** The decoder's fields. `header` and `payload` are the filled parts of their buffers; the topic storage is kept
      whole, because a frame without a topic exposes what an earlier frame left in it. `log` lists the callback's
      invocations. */
  datatype Decoder = Decoder(
    phase: Phase,
    header: seq<byte>,
    topicLength: nat,
    payloadLength: nat,
    storage: seq<byte>,
    topicFilled: nat,
    payload: seq<byte>,
    log: seq<Message>)
  {
    /** The reachable states: fill counters within the current lengths, current lengths within the storage. */
    ghost predicate Valid(cfg: Config) {
      && |storage| == cfg.maxTopic + 1
      && |header| <= HEADER_SIZE
      && topicFilled <= topicLength <= cfg.maxTopic
      && |payload| <= payloadLength <= cfg.maxPayload
      && (phase.ReadHeader? ==> |header| < HEADER_SIZE)
      && (phase.ReadTopic? ==> topicFilled < topicLength && payload == [])
      && (phase.ReadPayload? ==> topicFilled == topicLength && (|payload| < payloadLength || payloadLength == 0))
      && (!phase.ReadTopic? && !phase.ReadPayload? ==> topicLength == payloadLength == 0)
    }

    /** A complete message with an empty payload that no byte has yet arrived to release. */
    predicate Pending() {
      phase.ReadPayload? && |payload| == payloadLength
    }

    predicate Idle() {
      phase.WaitMagicFirst? && header == [] && topicLength == topicFilled == payloadLength == 0 && payload == []
    }

    /** The messages received in full but not yet handed over. */
    function Owed(): seq<Message> {
      if Pending() then [Message(CString(storage), payload)] else []
    }
  }

  datatype Outcome = Outcome(state: Decoder, err: Option<Error>)

  function Fresh(storage: seq<byte>): Decoder {
    Decoder(WaitMagicFirst, [], 0, 0, storage, 0, [], [])
  }

  function Reset(s: Decoder): Decoder {
    s.(phase := WaitMagicFirst, header := [], topicLength := 0, payloadLength := 0, topicFilled := 0, payload := [])
  }

  function LoadU16(b: seq<byte>, at: nat): (r: nat)
    requires at + 2 <= |b|
    ensures r < 0x1_0000
  {
    b[at] as int * 256 + b[at + 1] as int
  }

  function StoreU16(v: nat): (b: seq<byte>)
    requires v < 0x1_0000
    ensures |b| == 2 && LoadU16(b, 0) == v
  {
    [v / 256, v % 256]
  }

  /** A complete message is handed to the callback and the machine starts over, whatever the callback answers. */
  function Deliver(cb: Callback, s: Decoder): Outcome {
    match cb
    case NoCallback => Outcome(Reset(s), None)
    case Callback(accepts) =>
      Outcome(Reset(s).(log := s.log + [Message(CString(s.storage), s.payload)]),
              if accepts(|s.log|) then None else Some(CallbackFailed))
  }

  function AcceptHeader(cfg: Config, s: Decoder): Outcome
    requires |s.header| == HEADER_SIZE
  {
    var topicLength := LoadU16(s.header, 1);
    var payloadLength := LoadU16(s.header, 3);
    if cfg.version != 0 && s.header[0] != cfg.version then Outcome(Reset(s), Some(UnexpectedVersion))
    else if topicLength > cfg.maxTopic then Outcome(Reset(s), Some(TopicTooLong))
    else if payloadLength > cfg.maxPayload then Outcome(Reset(s), Some(PayloadTooLong))
    else
      Outcome(s.(topicLength := topicLength, payloadLength := payloadLength, topicFilled := 0, payload := [],
                 phase := if topicLength > 0 then ReadTopic else ReadPayload), None)
  }

  /** One byte, in a state that does not owe a message. */
  function Consume(cfg: Config, cb: Callback, s: Decoder, b: byte): (o: Outcome)
    requires s.Valid(cfg) && !s.Pending()
    ensures o.state.Valid(cfg)
    ensures o.err.Some? ==> o.state.Idle()
    ensures s.log <= o.state.log
  {
    match s.phase
    case WaitMagicFirst =>
      Outcome(if b == MAGIC_FIRST then s.(phase := WaitMagicSecond) else s, None)
    case WaitMagicSecond =>
      Outcome(if b == MAGIC_SECOND then s.(phase := ReadHeader, header := [])
              else if b == MAGIC_FIRST then s
              else s.(phase := WaitMagicFirst), None)
    case ReadHeader =>
      var s1 := s.(header := s.header + [b]);
      if |s1.header| == HEADER_SIZE then AcceptHeader(cfg, s1) else Outcome(s1, None)
    case ReadTopic =>
      var s1 := s.(storage := s.storage[s.topicFilled := b], topicFilled := s.topicFilled + 1);
      Outcome(if s1.topicFilled == s1.topicLength
              then s1.(storage := s1.storage[s1.topicLength := 0], phase := ReadPayload)
              else s1, None)
    case ReadPayload =>
      var s1 := s.(payload := s.payload + [b]);
      if |s1.payload| == s1.payloadLength then Deliver(cb, s1) else Outcome(s1, None)
  }

  /** One byte: it first releases an owed message, and is then processed normally. */
  function Step(cfg: Config, cb: Callback, s: Decoder, b: byte): (o: Outcome)
    requires s.Valid(cfg)
    ensures o.state.Valid(cfg)
    ensures o.err.Some? ==> o.state.Idle()
    ensures s.log <= o.state.log
  {
    if s.Pending() then
      var o := Deliver(cb, s);
      if o.err.Some? then o else Consume(cfg, cb, o.state, b)
    else
      Consume(cfg, cb, s, b)
  }

  /** All the bytes of one decode call; an error drops the rest of them. */
  function Run(cfg: Config, cb: Callback, s: Decoder, bytes: seq<byte>): (o: Outcome)
    requires s.Valid(cfg)
    ensures o.state.Valid(cfg)
    ensures o.err.Some? ==> o.state.Idle()
    ensures s.log <= o.state.log
    decreases |bytes|
  {
    if bytes == [] then Outcome(s, None)
    else
      var o := Step(cfg, cb, s, bytes[0]);
      if o.err.Some? then o else Run(cfg, cb, o.state, bytes[1..])
  }

  /** Successive decode calls, given up at the first that fails. */
  function RunChunks(cfg: Config, cb: Callback, s: Decoder, chunks: seq<seq<byte>>): (o: Outcome)
    requires s.Valid(cfg)
    ensures o.state.Valid(cfg)
    ensures s.log <= o.state.log
    decreases |chunks|
  {
    if chunks == [] then Outcome(s, None)
    else
      var o := Run(cfg, cb, s, chunks[0]);
      if o.err.Some? then o else RunChunks(cfg, cb, o.state, chunks[1..])
  }

  const FRAME_OVERHEAD := 7

  /** The bytes that dtframer_simple_encode writes; both lengths are narrowed to 16 bits. */
  function Frame(version: byte, m: Message): (f: seq<byte>)
    ensures |f| == FRAME_OVERHEAD + |m.topic| + |m.payload|
  {
    [MAGIC_FIRST, MAGIC_SECOND] + FrameHeader(version, m) + m.topic + m.payload
  }

  /** The frame byte by byte. */
  lemma FrameLayout(version: byte, m: Message)
    ensures var f, t := Frame(version, m), |m.topic|;
            && f[0] == 0xA5 && f[1] == 0x5A && f[2] == version
            && f[3] as int * 256 + f[4] as int == t % 0x1_0000
            && f[5] as int * 256 + f[6] as int == |m.payload| % 0x1_0000
            && f[7..7 + t] == m.topic && f[7 + t..] == m.payload
  {
    var f, h := Frame(version, m), FrameHeader(version, m);
    assert f[2..7] == h && f[3] == h[1] && f[4] == h[2] && f[5] == h[3] && f[6] == h[4];
    assert LoadU16(h, 1) == h[1] as int * 256 + h[2] as int && LoadU16(h, 3) == h[3] as int * 256 + h[4] as int;
  }

  function FrameHeader(version: byte, m: Message): (h: seq<byte>)
    ensures |h| == HEADER_SIZE && h[0] == version
    ensures LoadU16(h, 1) == |m.topic| % 0x1_0000 && LoadU16(h, 3) == |m.payload| % 0x1_0000
  {
    [version] + StoreU16(|m.topic| % 0x1_0000) + StoreU16(|m.payload| % 0x1_0000)
  }

  function Frames(version: byte, ms: seq<Message>): seq<byte> {
    if ms == [] then [] else Frame(version, ms[0]) + Frames(version, ms[1..])
  }
}
