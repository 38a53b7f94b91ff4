/** dtnetportal_iox.c as it is written: the partial-write loop and the drain loop. */
module Portal {
  import opened Bytes
  import opened FramerSpec
  import opened FramerTheorems
  import opened Framer
  import opened PortalSystem

  /** What the device does with one write: takes up to so many bytes, or fails. */
  datatype WriteOutcome = Accept(most: nat) | Fail

  /** A byte device after the contract of dtiox.h: it neither loses nor reorders what it takes. Its future answers to
      writes are a script; a publish still waiting when the script ends is a publish observed in mid-flight. */
  class Device {
    var wire: seq<byte>
    var script: seq<WriteOutcome>
    const readSizes: nat -> nat
    var readCount: nat

    constructor (script: seq<WriteOutcome>, readSizes: nat -> nat)
      ensures wire == [] && this.script == script && this.readSizes == readSizes && readCount == 0
    {
      wire, readCount := [], 0;
      this.script, this.readSizes := script, readSizes;
    }

    /** Non-blocking; not an error if not everything is taken. */
    method Write(source: array<byte>, from: nat, count: nat) returns (ok: bool, written: nat)
      requires from + count <= source.Length && script != []
      modifies this
      ensures script == old(script)[1..] && readCount == old(readCount)
      ensures ok <==> old(script)[0].Accept?
      ensures written == if !ok then 0
                         else if old(script)[0].most < count then old(script)[0].most else count
      ensures wire == old(wire) + source[from..from + written]
    {
      ok := script[0].Accept?;
      written := if !ok then 0 else if script[0].most < count then script[0].most else count;
      wire := wire + source[from..from + written];
      script := script[1..];
    }

    /** Non-blocking; reads what is there, up to the buffer's size, or less. */
    method Read(target: array<byte>) returns (count: nat)
      modifies this, target
      ensures count <= target.Length && target[..count] + wire == old(wire)
      ensures count <= readSizes(old(readCount))
      ensures count == readSizes(old(readCount)) || count == target.Length || count == |old(wire)|
      ensures script == old(script) && readCount == old(readCount) + 1
    {
      var most := if readSizes(readCount) < target.Length then readSizes(readCount) else target.Length;
      count := if |wire| < most then |wire| else most;
      forall i | 0 <= i < count {
        target[i] := wire[i];
      }
      assert target[..count] == wire[..count];
      wire := wire[count..];
      readCount := readCount + 1;
    }
  }

  datatype PublishResult = Sent | Refused(error: Error) | DeviceFailed | StillWriting

  /** How a frame's last `left` bytes fare against a script: what remains of both. */
  function Absorb(script: seq<WriteOutcome>, left: nat): (r: (seq<WriteOutcome>, nat, PublishResult))
    requires left > 0
    ensures r.1 <= left && (r.2 == Sent <==> r.1 == 0)
    decreases |script|
  {
    if script == [] then (script, left, StillWriting)
    else if script[0].Fail? then (script[1..], left, DeviceFailed)
    else if script[0].most >= left then (script[1..], 0, Sent)
    else Absorb(script[1..], left - script[0].most)
  }

  /** All the bytes that these answers take. */
  function Sum(script: seq<WriteOutcome>): nat {
    if script == [] then 0 else (if script[0].Accept? then script[0].most else 0) + Sum(script[1..])
  }

  ghost predicate NoneFails(script: seq<WriteOutcome>) {
    forall k :: 0 <= k < |script| ==> script[k].Accept?
  }

  /** The first `used` answers are those that a write loop with `length` bytes to write gets: none but the last can end
      it, by failing, or by taking the last of the bytes. */
  ghost predicate Fares(script: seq<WriteOutcome>, length: nat, used: nat, left: nat, result: PublishResult) {
    && used <= |script|
    && match result
       case Sent => 0 < used && NoneFails(script[..used]) && Sum(script[..used - 1]) < length <= Sum(script[..used])
                    && left == 0
       case DeviceFailed => 0 < used && NoneFails(script[..used - 1]) && script[used - 1].Fail?
                            && Sum(script[..used - 1]) < length && left == length - Sum(script[..used - 1])
       case StillWriting => used == |script| && NoneFails(script) && Sum(script) < length && left == length - Sum(script)
       case Refused(_) => false
  }

  lemma FaresAfter(first: WriteOutcome, script: seq<WriteOutcome>, length: nat, used: nat, left: nat,
                   result: PublishResult)
    requires first.Accept? && first.most < length && Fares(script, length - first.most, used, left, result)
    ensures Fares([first] + script, length, used + 1, left, result)
  {
    var all := [first] + script;
    assert all[..used + 1] == [first] + script[..used];
    assert ([first] + script[..used])[1..] == script[..used];
    if used > 0 {
      assert all[..used] == [first] + script[..used - 1];
      assert ([first] + script[..used - 1])[1..] == script[..used - 1];
    }
    assert all[1..] == script;
  }

  /** What a write loop comes to, in terms of what the device takes: it goes on until all is taken or a write fails. */
  lemma {:induction false} AbsorbFares(script: seq<WriteOutcome>, length: nat) returns (used: nat)
    requires length > 0
    ensures var (rest, left, result) := Absorb(script, length);
            Fares(script, length, used, left, result) && rest == script[used..]
    decreases |script|
  {
    used := 0;
    if script != [] {
      if script[0].Accept? && script[0].most < length {
        var more := AbsorbFares(script[1..], length - script[0].most);
        var (_, left, result) := Absorb(script, length);
        FaresAfter(script[0], script[1..], length, more, left, result);
        assert [script[0]] + script[1..] == script;
        used := more + 1;
      } else {
        used := 1;
        assert script[..1] == [script[0]] && script[..1][1..] == [];
      }
    }
  }

  /** The publish succeeds if and only if the device takes as many bytes as there are before it fails; it fails if and
      only if the device fails before; and it is still writing if and only if the answers end before either. */
  lemma AbsorbedIff(script: seq<WriteOutcome>, length: nat)
    requires length > 0
    ensures var result := Absorb(script, length).2;
            && (result == Sent <==>
                  exists k :: 0 <= k <= |script| && NoneFails(script[..k]) && Sum(script[..k]) >= length)
            && (result == DeviceFailed <==>
                  exists k :: 0 <= k < |script| && NoneFails(script[..k]) && script[k].Fail? && Sum(script[..k]) < length)
            && (result == StillWriting <==> NoneFails(script) && Sum(script) < length)
  {
    var used := AbsorbFares(script, length);
    var result := Absorb(script, length).2;
    if result == Sent {
      SentAlone(script, length, used);
    } else if result == DeviceFailed {
      FailedAlone(script, length, used - 1);
    } else {
      StillAlone(script, length);
    }
  }

  /** More answers take no fewer bytes. */
  lemma {:induction false} SumGrows(script: seq<WriteOutcome>, a: nat, b: nat)
    requires a <= b <= |script|
    ensures Sum(script[..a]) <= Sum(script[..b])
    decreases a
  {
    if a > 0 {
      assert script[..a][1..] == script[1..][..a - 1] && script[..b][1..] == script[1..][..b - 1];
      SumGrows(script[1..], a - 1, b - 1);
    }
  }

  lemma SentAlone(script: seq<WriteOutcome>, length: nat, used: nat)
    requires 0 < used <= |script| && NoneFails(script[..used]) && Sum(script[..used - 1]) < length <= Sum(script[..used])
    ensures exists k :: 0 <= k <= |script| && NoneFails(script[..k]) && Sum(script[..k]) >= length
    ensures forall k :: 0 <= k < |script| && NoneFails(script[..k]) && script[k].Fail? ==> Sum(script[..k]) >= length
    ensures !(NoneFails(script) && Sum(script) < length)
  {
    NoneFailsBefore(script, used);
    forall k | 0 <= k < |script| && script[k].Fail? ensures Sum(script[..k]) >= length {
      SumGrows(script, used, k);
    }
    SumGrows(script, used, |script|);
    assert script[..|script|] == script;
  }

  lemma FailedAlone(script: seq<WriteOutcome>, length: nat, at: nat)
    requires at < |script| && NoneFails(script[..at]) && script[at].Fail? && Sum(script[..at]) < length
    ensures forall k :: 0 <= k <= |script| && NoneFails(script[..k]) ==> Sum(script[..k]) < length
    ensures !NoneFails(script)
  {
    forall k | 0 <= k <= |script| && NoneFails(script[..k]) ensures Sum(script[..k]) < length {
      NoneFailsBefore(script, k);
      SumGrows(script, k, at);
    }
  }

  lemma NoneFailsBefore(script: seq<WriteOutcome>, n: nat)
    requires n <= |script| && NoneFails(script[..n])
    ensures forall k :: 0 <= k < n ==> script[k].Accept?
  {
    assert forall k :: 0 <= k < n ==> script[..n][k] == script[k];
  }

  lemma StillAlone(script: seq<WriteOutcome>, length: nat)
    requires NoneFails(script) && Sum(script) < length
    ensures forall k :: 0 <= k <= |script| ==> Sum(script[..k]) < length
  {
    forall k | 0 <= k <= |script| ensures Sum(script[..k]) < length {
      SumGrows(script, k, |script|);
      assert script[..|script|] == script;
    }
  }

  /** The drain stops at the first chunk that fails. */
  ghost predicate OnlyLastFails(cfg: Config, cb: Callback, start: Decoder, chunks: seq<seq<byte>>)
    requires start.Valid(cfg)
  {
    chunks != [] ==> RunChunks(cfg, cb, start, chunks[..|chunks| - 1]).err.None?
  }

  /** The decoder has been through these reads, with that outcome. */
  ghost predicate WentThrough(cfg: Config, cb: Callback, start: Decoder, chunks: seq<seq<byte>>, o: Outcome)
    requires start.Valid(cfg)
  {
    && RunChunks(cfg, cb, start, chunks) == o
    && (forall k :: 0 <= k < |chunks| ==> 0 < |chunks[k]| <= RAW_INPUT_SIZE)
    && OnlyLastFails(cfg, cb, start, chunks)
  }

  lemma WentThroughOneMore(cfg: Config, cb: Callback, start: Decoder, before: seq<seq<byte>>, s: Decoder,
                           chunk: seq<byte>, o: Outcome)
    requires start.Valid(cfg) && s.Valid(cfg) && WentThrough(cfg, cb, start, before, Outcome(s, None))
    requires 0 < |chunk| <= RAW_INPUT_SIZE && o == Run(cfg, cb, s, chunk)
    ensures WentThrough(cfg, cb, start, before + [chunk], o)
  {
    RunChunksAppend(cfg, cb, start, before, chunk);
    assert (before + [chunk])[..|before|] == before;
  }

  lemma OneMoreRead(before: seq<seq<byte>>, chunk: seq<byte>, wire: seq<byte>, was: seq<byte>)
    requires chunk + wire == was
    ensures Flatten(before + [chunk]) + wire == Flatten(before) + was
  {
    FlattenAppend(before, chunk);
    assert Flatten(before) + chunk + wire == Flatten(before) + (chunk + wire);
  }

  class NetPortal {
    const framer: FramerSimple
    const device: Device
    const encodedBuffer: array<byte>
    const rawInput: array<byte>

    ghost predicate Valid()
      reads this, framer, framer.headerBuffer, framer.topicStorage, framer.payloadStorage
    {
      && framer.Valid()
      && encodedBuffer.Length == ENCODED_BUFFER_SIZE && rawInput.Length == RAW_INPUT_SIZE
      && encodedBuffer != rawInput
      && Apart(encodedBuffer) && Apart(rawInput)
    }

    ghost predicate Apart(buffer: array<byte>)
      reads framer
    {
      buffer != framer.headerBuffer && buffer != framer.topicStorage && buffer != framer.payloadStorage
    }

    constructor (framer: FramerSimple, device: Device)
      requires framer.Valid()
      ensures Valid() && this.framer == framer && this.device == device
    {
      this.framer, this.device := framer, device;
      encodedBuffer := new byte[ENCODED_BUFFER_SIZE];
      rawInput := new byte[RAW_INPUT_SIZE];
    }

    /** The frame is on the wire when the publish succeeds, a proper beginning of it when the device fails or is still
        taking it, and nothing of it when the framer refuses the message. */
    method Publish(topic: seq<byte>, payload: seq<byte>) returns (r: PublishResult, ghost used: nat, ghost left: nat)
      requires Valid() && 0 !in topic
      modifies encodedBuffer, device
      ensures Valid()
      ensures var frame := Frame(framer.config.version, Message(topic, payload));
              if |topic| > framer.config.maxTopic || |frame| > ENCODED_BUFFER_SIZE
              then r.Refused? && device.wire == old(device.wire) && device.script == old(device.script)
              else
                && Fares(old(device.script), |frame|, used, left, r) && device.script == old(device.script)[used..]
                && left <= |frame| && device.wire == old(device.wire) + frame[..|frame| - left]
                && Absorb(old(device.script), |frame|) == (device.script, left, r)
    {
      var encoded := framer.Encode(topic, payload, encodedBuffer);
      if encoded.Refused? {
        return PublishResult.Refused(encoded.error), 0, 0;
      }
      r, used, left := WriteAll(encoded.length);
    }

    /** Goes on writing until all is taken or a write fails. */
    method WriteAll(length: nat) returns (r: PublishResult, ghost used: nat, ghost left: nat)
      requires 0 < length <= encodedBuffer.Length
      modifies device
      ensures Fares(old(device.script), length, used, left, r) && device.script == old(device.script)[used..]
      ensures left <= length && device.wire == old(device.wire) + encodedBuffer[..length - left]
      ensures Absorb(old(device.script), length) == (device.script, left, r)
    {
      ghost var fate := Absorb(device.script, length);
      used := AbsorbFares(device.script, length);
      left := fate.1;
      var remaining: nat := length;
      var p: nat := 0;
      while device.script != []
        invariant 0 < remaining && p + remaining == length
        invariant device.wire == old(device.wire) + encodedBuffer[..p]
        invariant Absorb(device.script, remaining) == fate
        decreases |device.script|
      {
        var ok, written := device.Write(encodedBuffer, p, remaining);
        if !ok {
          r := DeviceFailed;
          return;
        }
        assert encodedBuffer[..p + written] == encodedBuffer[..p] + encodedBuffer[p..p + written];
        p := p + written;
        remaining := remaining - written;
        if remaining == 0 {
          r := Sent;
          return;
        }
      }
      r := StillWriting;
    }

    method ReadAndDecode() returns (count: nat, err: Option<Error>, ghost chunk: seq<byte>)
      requires Valid()
      modifies device, rawInput, framer, framer.headerBuffer, framer.topicStorage, framer.payloadStorage
      ensures Valid() && framer.config == old(framer.config) && framer.callback == old(framer.callback)
      ensures framer.topicStorage == old(framer.topicStorage) && framer.payloadStorage == old(framer.payloadStorage)
      ensures |chunk| == count <= RAW_INPUT_SIZE && chunk + device.wire == old(device.wire)
      ensures device.readCount == old(device.readCount) + 1
      ensures count == 0 <==> device.readSizes(old(device.readCount)) == 0 || old(device.wire) == []
      ensures count == 0 ==> framer.State() == old(framer.State()) && err == None
      ensures Outcome(framer.State(), err) == Run(framer.config, framer.callback, old(framer.State()), chunk)
    {
      count := device.Read(rawInput);
      chunk := rawInput[..count];
      err := None;
      if count > 0 {
        ghost var turns: nat;
        err, turns := framer.Decode(rawInput, count);
      }
    }

    /** One turn of the drain loop, after the reads in `before`. */
    method DrainOne(ghost start: Decoder, ghost before: seq<seq<byte>>)
      returns (more: bool, err: Option<Error>, ghost chunks: seq<seq<byte>>)
      requires Valid() && start.Valid(framer.config)
      requires WentThrough(framer.config, framer.callback, start, before, Outcome(framer.State(), None))
      modifies device, rawInput, framer, framer.headerBuffer, framer.topicStorage, framer.payloadStorage
      ensures Valid() && framer.config == old(framer.config) && framer.callback == old(framer.callback)
      ensures framer.topicStorage == old(framer.topicStorage) && framer.payloadStorage == old(framer.payloadStorage)
      ensures WentThrough(framer.config, framer.callback, start, chunks, Outcome(framer.State(), err))
      ensures Flatten(chunks) + device.wire == Flatten(before) + old(device.wire)
      ensures more ==> |device.wire| < |old(device.wire)|
      ensures device.readCount == old(device.readCount) + 1
      ensures if more then |chunks| == |before| + 1
              else chunks == before && err.None?
                   && (device.wire == [] || device.readSizes(old(device.readCount)) == 0)
    {
      ghost var cfg, cb, s := framer.config, framer.callback, framer.State();
      ghost var was := device.wire;
      var count: nat;
      ghost var chunk: seq<byte>;
      count, err, chunk := ReadAndDecode();
      more := count > 0;
      chunks := before;
      if more {
        chunks := before + [chunk];
        WentThroughOneMore(cfg, cb, start, before, s, chunk, Outcome(framer.State(), err));
        OneMoreRead(before, chunk, device.wire, was);
      } else {
        assert chunk + device.wire == device.wire;
      }
    }

    /** Reads until the device has nothing more to give and decodes each chunk as it comes. `chunks` are the reads: on
        success the decoder has been through all of them, and one more read gave nothing; on an error the rest of the last
        one is dropped. */
    method RxDrain() returns (err: Option<Error>, ghost chunks: seq<seq<byte>>)
      requires Valid()
      modifies device, rawInput, framer, framer.headerBuffer, framer.topicStorage, framer.payloadStorage
      ensures Valid() && framer.config == old(framer.config) && framer.callback == old(framer.callback)
      ensures Flatten(chunks) + device.wire == old(device.wire)
      ensures forall k :: 0 <= k < |chunks| ==> 0 < |chunks[k]| <= RAW_INPUT_SIZE
      ensures Outcome(framer.State(), err) ==
              RunChunks(framer.config, framer.callback, old(framer.State()), chunks)
      ensures OnlyLastFails(framer.config, framer.callback, old(framer.State()), chunks)
      ensures device.readCount == old(device.readCount) + |chunks| + (if err.None? then 1 else 0)
      ensures err.None? ==> device.wire == [] || device.readSizes(device.readCount - 1) == 0
      ensures err.None? && (forall k :: device.readSizes(k) > 0) ==> device.wire == []
    {
      chunks := [];
      err := None;
      ghost var config, start := framer.config, framer.State();
      var more := true;
      while more && err.None?
        invariant Valid() && framer.config == config && framer.callback == old(framer.callback)
        invariant framer.topicStorage == old(framer.topicStorage) && framer.payloadStorage == old(framer.payloadStorage)
        invariant Flatten(chunks) + device.wire == old(device.wire)
        invariant WentThrough(config, framer.callback, start, chunks, Outcome(framer.State(), err))
        invariant device.readCount == old(device.readCount) + |chunks| + (if more then 0 else 1)
        invariant !more ==> err.None? && (device.wire == [] || device.readSizes(device.readCount - 1) == 0)
        decreases more, |device.wire|
      {
        more, err, chunks := DrainOne(start, chunks);
      }
    }
  }

  lemma {:induction false} RunChunksAppend(cfg: Config, cb: Callback, s: Decoder, chunks: seq<seq<byte>>, last: seq<byte>)
    requires s.Valid(cfg)
    ensures var o := RunChunks(cfg, cb, s, chunks);
            RunChunks(cfg, cb, s, chunks + [last]) == if o.err.Some? then o else Run(cfg, cb, o.state, last)
  {
    ChunkingIsInvisible(cfg, cb, s, chunks);
    ChunkingIsInvisible(cfg, cb, s, chunks + [last]);
    FlattenAppend(chunks, last);
    RunAppend(cfg, cb, s, Flatten(chunks), last);
  }
}
