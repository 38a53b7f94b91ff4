/** dtframer_simple.c as it is written: storage updated in place, bytes copied in bulk. */
module Framer {
  import opened Bytes
  import opened FramerSpec
  import opened FramerTheorems

  datatype EncodeResult = Encoded(length: nat) | Refused(error: Error)

  /** memcpy between buffers that do not overlap. */
  method CopyBytes(destination: array<byte>, at: nat, source: array<byte>, from: nat, count: nat)
    requires destination != source
    requires at + count <= destination.Length && from + count <= source.Length
    modifies destination
    ensures destination[..] == Overwrite(old(destination[..]), at, source[from..from + count])
  {
    forall i | 0 <= i < count {
      destination[at + i] := source[from + i];
    }
  }

  /** What a turn means for the call, where its bytes lie in a buffer. */
  lemma TurnInBuffer(cfg: Config, cb: Callback, s: Decoder, bytes: seq<byte>, index: nat, next: nat, length: nat,
                     o: Outcome, whole: Outcome)
    requires s.Valid(cfg) && index < length <= |bytes| && index <= next <= length
    requires next == index + TurnSize(s, length - index)
    requires o == Turn(cfg, cb, s, bytes[index..next]) && whole == Run(cfg, cb, s, bytes[index..length])
    ensures o.state.Valid(cfg) && (next == index <==> s.Pending()) && (next == index ==> !o.state.Pending())
    ensures whole == if o.err.Some? then o else Run(cfg, cb, o.state, bytes[next..length])
  {
    assert bytes[index..length] == bytes[index..next] + bytes[next..length];
    TurnKeeps(cfg, cb, s, bytes[index..next], bytes[next..length], o, whole);
  }

  class FramerSimple {
    var config: Config
    var phase: Phase
    const headerBuffer: array<byte>
    var headerFilled: nat
    var topicLength: nat
    var payloadLength: nat
    var topicStorage: array<byte>
    var topicFilled: nat
    var payloadStorage: array<byte>
    var payloadFilled: nat
    var callback: Callback
    /** The invocations of the callback so far. */
    var calls: seq<Message>

    ghost predicate Valid()
      reads this, headerBuffer, topicStorage, payloadStorage
    {
      && headerBuffer.Length == HEADER_SIZE
      && topicStorage.Length == config.maxTopic + 1
      && payloadStorage.Length == config.maxPayload
      && headerBuffer != topicStorage && headerBuffer != payloadStorage && topicStorage != payloadStorage
      && config.version != 0
      && headerFilled <= HEADER_SIZE && payloadFilled <= payloadStorage.Length
      && State().Valid(config)
    }

    ghost function State(): Decoder
      requires headerFilled <= headerBuffer.Length && payloadFilled <= payloadStorage.Length
      reads this, headerBuffer, topicStorage, payloadStorage
    {
      Decoder(phase, headerBuffer[..headerFilled], topicLength, payloadLength, topicStorage[..], topicFilled,
              payloadStorage[..payloadFilled], calls)
    }

    /** dtframer_simple_init, then dtframer_simple_configure. The topic storage is not cleared. */
    constructor (c: Config)
      ensures Valid() && fresh(headerBuffer) && fresh(topicStorage) && fresh(payloadStorage)
      ensures config == ApplyDefaults(c) && Configured(c, config) && callback == NoCallback
      ensures State() == Fresh(topicStorage[..])
    {
      var defaulted := ApplyDefaults(c);
      config := defaulted;
      headerBuffer := new byte[HEADER_SIZE];
      topicStorage := new byte[defaulted.maxTopic + 1];
      payloadStorage := new byte[defaulted.maxPayload];
      phase, headerFilled, topicLength, payloadLength := WaitMagicFirst, 0, 0, 0;
      topicFilled, payloadFilled := 0, 0;
      callback, calls := NoCallback, [];
    }

    method Configure(c: Config)
      requires Valid()
      modifies this
      ensures Valid() && fresh(topicStorage) && fresh(payloadStorage)
      ensures config == ApplyDefaults(c) && Configured(c, config) && callback == old(callback)
      ensures State() == Fresh(topicStorage[..]).(log := old(calls))
    {
      config := ApplyDefaults(c);
      topicStorage := new byte[config.maxTopic + 1];
      payloadStorage := new byte[config.maxPayload];
      payloadFilled := 0;
      ResetDecodeState();
    }

    method SetMessageCallback(cb: Callback)
      requires Valid()
      modifies `callback
      ensures callback == cb
    {
      callback := cb;
    }

    method ResetDecodeState()
      requires headerFilled <= headerBuffer.Length && payloadFilled <= payloadStorage.Length
      modifies `phase, `headerFilled, `topicLength, `payloadLength, `topicFilled, `payloadFilled
      ensures headerFilled == 0 && payloadFilled == 0
      ensures State() == Reset(old(State()))
    {
      phase := WaitMagicFirst;
      headerFilled := 0;
      topicLength := 0;
      payloadLength := 0;
      topicFilled := 0;
      payloadFilled := 0;
    }

    // ----- Encoding -----

    /** The frame is written at the start of `output`; a refused message leaves all of it alone. */
    method Encode(topic: seq<byte>, payload: seq<byte>, output: array<byte>) returns (r: EncodeResult)
      requires Valid() && 0 !in topic
      requires output != headerBuffer && output != topicStorage && output != payloadStorage
      modifies output
      ensures r.Refused? <==> |topic| > config.maxTopic || output.Length < FRAME_OVERHEAD + |topic| + |payload|
      ensures r.Refused? ==> output[..] == old(output[..])
                             && r.error == if |topic| > config.maxTopic then TopicTooLong else BufferTooSmall
      ensures r.Encoded? ==> r.length == FRAME_OVERHEAD + |topic| + |payload|
                             && output[..r.length] == Frame(config.version, Message(topic, payload))
                             && output[r.length..] == old(output[r.length..])
    {
      if |topic| > config.maxTopic {
        return Refused(TopicTooLong);
      }
      var total := FRAME_OVERHEAD + |topic| + |payload|;
      if output.Length < total {
        return Refused(BufferTooSmall);
      }
      ghost var was := output[..];
      assert was == Overwrite(was, 0, []);
      var at := 0;
      ghost var written := [];
      at, written := Write(output, at, [MAGIC_FIRST, MAGIC_SECOND], was, written);
      at, written := Write(output, at, [config.version], was, written);
      at, written := Write(output, at, StoreU16(|topic| % 0x1_0000), was, written);
      at, written := Write(output, at, StoreU16(|payload| % 0x1_0000), was, written);
      assert written == [MAGIC_FIRST, MAGIC_SECOND] + FrameHeader(config.version, Message(topic, payload));
      at, written := Write(output, at, topic, was, written);
      at, written := Write(output, at, payload, was, written);
      assert written == Frame(config.version, Message(topic, payload));
      r := Encoded(total);
    }

    /** Store at the write pointer and advance it. */
    static method Write(output: array<byte>, at: nat, bytes: seq<byte>, ghost was: seq<byte>, ghost written: seq<byte>)
      returns (next: nat, ghost nowWritten: seq<byte>)
      requires |written| == at && at + |bytes| <= output.Length == |was|
      requires output[..] == Overwrite(was, 0, written)
      modifies output
      ensures nowWritten == written + bytes && next == |nowWritten|
      ensures output[..] == Overwrite(was, 0, nowWritten)
    {
      forall i | 0 <= i < |bytes| {
        output[at + i] := bytes[i];
      }
      next, nowWritten := at + |bytes|, written + bytes;
    }

    // ----- Decoding -----

    method TakeMagic(buffer: array<byte>, index: nat) returns (next: nat)
      requires Valid() && Hunting(State())
      requires index < buffer.Length
      modifies `phase, `headerFilled
      ensures next == index + 1 && headerFilled <= headerBuffer.Length
      ensures State() == MagicTurn(old(State()), buffer[index])
    {
      var current := buffer[index];
      if phase.WaitMagicFirst? {
        if current == MAGIC_FIRST {
          phase := WaitMagicSecond;
        }
      } else if current == MAGIC_SECOND {
        phase := ReadHeader;
        headerFilled := 0;
      } else if current != MAGIC_FIRST {
        phase := WaitMagicFirst;
      }
      next := index + 1;
    }

    method TakeHeader(buffer: array<byte>, index: nat, length: nat) returns (next: nat, err: Option<Error>)
      requires Valid() && phase.ReadHeader?
      requires index < length <= buffer.Length && buffer != headerBuffer
      modifies `phase, `headerFilled, `topicLength, `payloadLength, `topicFilled, `payloadFilled, headerBuffer
      ensures next == index + TurnSize(old(State()), length - index) <= length
      ensures headerFilled <= headerBuffer.Length && payloadFilled <= payloadStorage.Length
      ensures Outcome(State(), err) == HeaderTurn(config, old(State()), buffer[index..next])
    {
      var remaining := HEADER_SIZE - headerFilled;
      var count := if length - index < remaining then length - index else remaining;
      next := index + count;
      ghost var before := State();
      CopyBytes(headerBuffer, headerFilled, buffer, index, count);
      headerFilled := headerFilled + count;
      assert headerBuffer[..headerFilled] == before.header + buffer[index..next];
      err := None;
      if headerFilled == HEADER_SIZE {
        err := CheckHeader();
      }
    }

    method CheckHeader() returns (err: Option<Error>)
      requires headerFilled == headerBuffer.Length == HEADER_SIZE && payloadFilled <= payloadStorage.Length
      modifies `phase, `headerFilled, `topicLength, `payloadLength, `topicFilled, `payloadFilled
      ensures headerFilled <= headerBuffer.Length && payloadFilled <= payloadStorage.Length
      ensures Outcome(State(), err) == AcceptHeader(config, old(State()))
    {
      assert headerBuffer[..] == headerBuffer[..headerFilled];
      var newTopicLength := LoadU16(headerBuffer[..], 1);
      var newPayloadLength := LoadU16(headerBuffer[..], 3);
      if config.version != 0 && headerBuffer[0] != config.version {
        err := Some(UnexpectedVersion);
        ResetDecodeState();
      } else if newTopicLength > config.maxTopic {
        err := Some(TopicTooLong);
        ResetDecodeState();
      } else if newPayloadLength > config.maxPayload {
        err := Some(PayloadTooLong);
        ResetDecodeState();
      } else {
        err := None;
        topicLength, payloadLength := newTopicLength, newPayloadLength;
        topicFilled, payloadFilled := 0, 0;
        phase := if topicLength > 0 then ReadTopic else ReadPayload;
      }
    }

    method TakeTopic(buffer: array<byte>, index: nat, length: nat) returns (next: nat)
      requires Valid() && phase.ReadTopic?
      requires index < length <= buffer.Length && buffer != topicStorage
      modifies `phase, `topicFilled, topicStorage
      ensures next == index + TurnSize(old(State()), length - index) <= length
      ensures Outcome(State(), None) == TopicTurn(old(State()), buffer[index..next])
    {
      var remaining := topicLength - topicFilled;
      var count := if length - index < remaining then length - index else remaining;
      next := index + count;
      ghost var copied := Overwrite(topicStorage[..], topicFilled, buffer[index..next]);
      CopyBytes(topicStorage, topicFilled, buffer, index, count);
      topicFilled := topicFilled + count;
      if topicFilled == topicLength {
        topicStorage[topicLength] := 0;
        assert topicStorage[..] == copied[topicLength := 0];
        phase := ReadPayload;
      }
    }

    method TakePayload(buffer: array<byte>, index: nat, length: nat) returns (next: nat, err: Option<Error>)
      requires Valid() && phase.ReadPayload?
      requires index < length <= buffer.Length && buffer != payloadStorage
      modifies `phase, `headerFilled, `topicLength, `payloadLength, `topicFilled, `payloadFilled, `calls, payloadStorage
      ensures next == index + TurnSize(old(State()), length - index) <= length
      ensures headerFilled <= headerBuffer.Length && payloadFilled <= payloadStorage.Length
      ensures Outcome(State(), err) == PayloadTurn(callback, old(State()), buffer[index..next])
    {
      var remaining := payloadLength - payloadFilled;
      var count := if length - index < remaining then length - index else remaining;
      next := index + count;
      ghost var before := State();
      if count > 0 {
        CopyBytes(payloadStorage, payloadFilled, buffer, index, count);
        payloadFilled := payloadFilled + count;
      }
      assert payloadStorage[..payloadFilled] == before.payload + buffer[index..next];
      err := None;
      if payloadFilled == payloadLength {
        err := HandOver();
      }
    }

    /** A complete message: invoke the callback, if there is one, and start over. */
    method HandOver() returns (err: Option<Error>)
      requires headerFilled <= headerBuffer.Length && payloadFilled == payloadLength <= payloadStorage.Length
      modifies `phase, `headerFilled, `topicLength, `payloadLength, `topicFilled, `payloadFilled, `calls
      ensures headerFilled <= headerBuffer.Length && payloadFilled <= payloadStorage.Length
      ensures Outcome(State(), err) == Deliver(callback, old(State()))
    {
      err := None;
      if callback.Callback? {
        var accepted := callback.accepts(|calls|);
        calls := calls + [Message(CString(topicStorage[..]), payloadStorage[..payloadLength])];
        if !accepted {
          err := Some(CallbackFailed);
        }
      }
      ResetDecodeState();
    }

    /** One turn of the decoding loop. */
    method TakeTurn(buffer: array<byte>, index: nat, length: nat) returns (next: nat, err: Option<Error>)
      requires Valid() && index < length <= buffer.Length
      requires buffer != headerBuffer && buffer != topicStorage && buffer != payloadStorage
      modifies `phase, `headerFilled, `topicLength, `payloadLength, `topicFilled, `payloadFilled, `calls,
               headerBuffer, topicStorage, payloadStorage
      ensures next == index + TurnSize(old(State()), length - index) <= length
      ensures headerFilled <= headerBuffer.Length && payloadFilled <= payloadStorage.Length
      ensures index <= next && Outcome(State(), err) == Turn(config, callback, old(State()), buffer[index..next])
    {
      err := None;
      match phase {
        case WaitMagicFirst => next := TakeMagic(buffer, index);
        case WaitMagicSecond => next := TakeMagic(buffer, index);
        case ReadHeader => next, err := TakeHeader(buffer, index, length);
        case ReadTopic => next := TakeTopic(buffer, index, length);
        case ReadPayload => next, err := TakePayload(buffer, index, length);
      }
    }

    /** A turn of the loop, seen from the bytes still to be read: the outcome of the whole call is not affected. */
    method TakeTurnOf(buffer: array<byte>, index: nat, length: nat, ghost whole: Outcome)
      returns (next: nat, err: Option<Error>)
      requires Valid() && index < length <= buffer.Length
      requires buffer != headerBuffer && buffer != topicStorage && buffer != payloadStorage
      requires whole == Run(config, callback, State(), buffer[index..length])
      modifies `phase, `headerFilled, `topicLength, `payloadLength, `topicFilled, `payloadFilled, `calls,
               headerBuffer, topicStorage, payloadStorage
      ensures Valid() && index <= next <= length
      ensures next == index <==> old(State().Pending())
      ensures next == index ==> !State().Pending()
      ensures whole == if err.Some? then Outcome(State(), err)
                       else Run(config, callback, State(), buffer[next..length])
    {
      ghost var cfg, cb, before, bytes := config, callback, State(), buffer[..];
      next, err := TakeTurn(buffer, index, length);
      assert buffer[..] == bytes;
      TurnInBuffer(cfg, cb, before, bytes, index, next, length, Outcome(State(), err), whole);
    }

    /** The in-place, bulk-copying loop does what the byte machine does, in at most two turns a byte. */
    method Decode(buffer: array<byte>, length: int) returns (err: Option<Error>, ghost turns: nat)
      requires Valid() && length <= buffer.Length
      requires buffer != headerBuffer && buffer != topicStorage && buffer != payloadStorage
      modifies this, headerBuffer, topicStorage, payloadStorage
      ensures Valid() && topicStorage == old(topicStorage) && payloadStorage == old(payloadStorage)
      ensures config == old(config) && callback == old(callback)
      ensures length < 0 ==> err == Some(NegativeLength) && State() == old(State())
      ensures length >= 0 ==> Outcome(State(), err) == Run(config, callback, old(State()), buffer[..length])
      ensures turns <= if length < 0 then 0 else 2 * length
    {
      turns := 0;
      if length < 0 {
        return Some(NegativeLength), 0;
      }
      ghost var whole := Run(config, callback, State(), buffer[..length]);
      var index: nat := 0;
      assert buffer[0..length] == buffer[..length];
      while index < length
        invariant Valid() && topicStorage == old(topicStorage) && payloadStorage == old(payloadStorage)
        invariant config == old(config) && callback == old(callback)
        invariant index <= length && buffer[..] == old(buffer[..])
        invariant whole == Run(config, callback, State(), buffer[index..length])
        invariant turns <= 2 * index + if index < length && !State().Pending() then 1 else 0
        decreases length - index, if State().Pending() then 1 else 0
      {
        index, err := TakeTurnOf(buffer, index, length, whole);
        turns := turns + 1;
        if err.Some? {
          return;
        }
      }
      err := None;
    }
  }

  /** What a caller sees of a framer's configuration: the version on the wire, and the longest topic that is not refused,
      are those configured, or their defaults. */
  method EncodeConfigured(c: Config, topic: seq<byte>, payload: seq<byte>, output: array<byte>) returns (r: EncodeResult)
    requires 0 !in topic
    modifies output
    ensures var most := if c.maxTopic != 0 then c.maxTopic else match c.mode case Bus => 32 case Stream => 64;
            && (r == Refused(TopicTooLong) <==> |topic| > most)
            && (r == Refused(BufferTooSmall) <==> |topic| <= most && output.Length < 7 + |topic| + |payload|)
    ensures r.Encoded? ==>
              && r.length == 7 + |topic| + |payload| <= output.Length
              && output[0] == 0xA5 && output[1] == 0x5A
              && output[2] == (if c.version != 0 then c.version else 1)
              && output[3] as int * 256 + output[4] as int == |topic| % 0x1_0000
              && output[5] as int * 256 + output[6] as int == |payload| % 0x1_0000
              && output[7..7 + |topic|] == topic && output[7 + |topic|..r.length] == payload
  {
    var framer := new FramerSimple(c);
    r := framer.Encode(topic, payload, output);
    if r.Encoded? {
      FrameLayout(framer.config.version, Message(topic, payload));
      ghost var frame, out := output[..r.length], output[..];
      assert forall i :: 0 <= i < 7 ==> output[i] == frame[i];
      assert frame == out[0..r.length] && frame[7 + |topic|..] == frame[7 + |topic|..r.length];
      SliceOfSlice(out, 0, r.length, 7, 7 + |topic|);
      SliceOfSlice(out, 0, r.length, 7 + |topic|, r.length);
    }
  }
}
