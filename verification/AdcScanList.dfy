/** dtadc_scanlist.c and dtadc_scan.c as they are written: one allocation cut into slices, cursors through a byte
    buffer. */
module AdcScanList {
  import opened Bytes
  import opened Records
  import opened AdcSpec

  datatype Error = BadArgument | ArgumentNull | NoRoom

  /** A scan struct; its channel pointer is an index into the channel block behind the structs, and not NULL if `present`
      says so. */
  datatype Header = Header(timestamp: uint64, sequence: uint64, base: nat, present: bool)

  /** No channel pointer is NULL. */
  ghost predicate AllPresent(hs: seq<Header>) {
    forall i :: 0 <= i < |hs| ==> hs[i].present
  }

  /** The sizes are computed in int32_t; beyond this they overflow. */
  predicate Allocatable(scanCount: int, channelCount: int) {
    scanCount > 0 && channelCount > 0 ==> 24 * scanCount + 4 * Total(scanCount, channelCount) < 0x8000_0000
  }

  predicate Laid(hs: seq<Header>, channelCount: nat, block: seq<int32>) {
    |block| == Total(|hs|, channelCount) && Based(hs, channelCount, |block|)
  }

  predicate Based(hs: seq<Header>, channelCount: nat, limit: nat) {
    forall i :: 0 <= i < |hs| ==> hs[i].base == Total(i, channelCount) && hs[i].base + channelCount <= limit
  }

  function ScanOf(h: Header, channelCount: nat, block: seq<int32>): Scan
    requires h.base + channelCount <= |block|
  {
    Scan(h.timestamp, h.sequence, block[h.base..h.base + channelCount])
  }

  /** The first n scans. */
  function ScansOf(hs: seq<Header>, channelCount: nat, block: seq<int32>, n: nat): (scans: seq<Scan>)
    requires n <= |hs| && Based(hs, channelCount, |block|)
    ensures |scans| == n
  {
    if n == 0 then []
    else ScansOf(hs, channelCount, block, n - 1) + [ScanOf(hs[n - 1], channelCount, block)]
  }

  lemma {:induction false} ScansOfAt(hs: seq<Header>, channelCount: nat, block: seq<int32>, n: nat, i: nat)
    requires i < n <= |hs| && Based(hs, channelCount, |block|)
    ensures ScansOf(hs, channelCount, block, n)[i] == ScanOf(hs[i], channelCount, block)
  {
    if i < n - 1 {
      ScansOfAt(hs, channelCount, block, n - 1, i);
    }
  }

  /** The slices are disjoint and tile the channel block exactly: each reading belongs to exactly one scan. */
  lemma SlicesTile(hs: seq<Header>, channelCount: nat, block: seq<int32>, k: nat) returns (i: nat)
    requires Laid(hs, channelCount, block) && k < |block|
    ensures i < |hs| && hs[i].base <= k < hs[i].base + channelCount
    ensures forall j :: 0 <= j < |hs| && hs[j].base <= k < hs[j].base + channelCount ==> j == i
  {
    i := RecordOf(|hs|, channelCount, k);
  }

  // ----- A list filled in by hand -----

  /** The readings of the first n scans, one scan behind the other. */
  function Readings(scans: seq<Scan>, n: nat): seq<int32>
    requires n <= |scans|
  {
    if n == 0 then [] else Readings(scans, n - 1) + scans[n - 1].channels
  }

  lemma {:induction false} ReadingsLength(scans: seq<Scan>, width: nat, n: nat)
    requires n <= |scans| && forall k :: 0 <= k < |scans| ==> |scans[k].channels| == width
    ensures |Readings(scans, n)| == Total(n, width)
  {
    if n > 0 {
      ReadingsLength(scans, width, n - 1);
    }
  }

  lemma {:induction false} ReadingsAt(scans: seq<Scan>, width: nat, n: nat, i: nat)
    requires i < n <= |scans| && forall k :: 0 <= k < |scans| ==> |scans[k].channels| == width
    ensures Total(i, width) + width <= |Readings(scans, n)|
    ensures Readings(scans, n)[Total(i, width)..Total(i, width) + width] == scans[i].channels
  {
    var front, last := Readings(scans, n - 1), scans[n - 1].channels;
    ReadingsLength(scans, width, n - 1);
    if i == n - 1 {
      assert (front + last)[|front|..] == last;
    } else {
      ReadingsAt(scans, width, n - 1, i);
      SliceOfFront(front, last, Total(i, width), Total(i, width) + width);
    }
  }

  lemma SliceOfFront<T>(front: seq<T>, last: seq<T>, a: nat, b: nat)
    requires a <= b <= |front|
    ensures (front + last)[a..b] == front[a..b]
  {
  }

  lemma BuiltList(hs: seq<Header>, width: nat, scans: seq<Scan>)
    requires |hs| == |scans| && forall i :: 0 <= i < |scans| ==> |scans[i].channels| == width
    requires forall i :: 0 <= i < |hs| ==>
               hs[i] == Header(scans[i].timestamp, scans[i].sequence, Total(i, width), hs[i].present)
    ensures var block := Readings(scans, |scans|);
            Laid(hs, width, block) && ScansOf(hs, width, block, |hs|) == scans
  {
    var block := Readings(scans, |scans|);
    forall i | 0 <= i < |hs|
      ensures |block| == Total(|hs|, width) && hs[i].base + width <= |block|
      ensures block[hs[i].base..hs[i].base + width] == scans[i].channels
    {
      ReadingsLength(scans, width, |scans|);
      ReadingsAt(scans, width, |scans|, i);
    }
    ReadingsLength(scans, width, |scans|);
    assert Based(hs, width, |block|);
    forall i | 0 <= i < |hs| ensures ScansOf(hs, width, block, |hs|)[i] == scans[i] {
      ScansOfAt(hs, width, block, |hs|, i);
    }
  }

  // ----- Cursors through a byte buffer -----

  /** dtpackx: bytes go out at the cursor if they fit. */
  method Put(bytes: seq<byte>, output: array<byte>, p: nat, length: nat) returns (ok: bool, next: nat)
    requires length <= output.Length
    modifies output
    ensures ok <==> p + |bytes| <= length
    ensures if ok then next == p + |bytes| && Wrote(output[..], old(output[..]), p, bytes)
            else next == p && output[..] == old(output[..])
  {
    ok, next := p + |bytes| <= length, p;
    if ok {
      forall i | 0 <= i < |bytes| {
        output[p + i] := bytes[i];
      }
      next := p + |bytes|;
    }
  }

  method PackReadings(c: Codec, readings: seq<int32>, output: array<byte>, p: nat, length: nat)
    returns (ok: bool, next: nat)
    requires c.Lawful() && p <= length <= output.Length
    modifies output
    ensures ok <==> p + Total(|readings|, INT32_SIZE) <= length
    ensures if ok then next == p + Total(|readings|, INT32_SIZE)
                       && Wrote(output[..], old(output[..]), p, Pack(c.packInt32, readings, |readings|))
            else Outside(output[..], old(output[..]), p, length)
  {
    ok, next := true, p;
    ghost var was, packed := output[..], [];
    var j: nat := 0;
    while j < |readings|
      invariant j <= |readings| && ok
      invariant packed == Pack(c.packInt32, readings, j)
      invariant next == p + |packed| == p + Total(j, INT32_SIZE) <= length
      invariant Wrote(output[..], was, p, packed)
    {
      ghost var mid, word := output[..], c.packInt32(readings[j]);
      ok, next := Put(c.packInt32(readings[j]), output, next, length);
      if !ok {
        TotalMonotonic(j + 1, |readings|, INT32_SIZE);
        OutsideBoth(output[..], mid, was, p, p + |packed|, length, length);
        return;
      }
      WroteBoth(output[..], mid, was, p, packed, word);
      packed := packed + word;
      j := j + 1;
    }
  }

  /** dtadc_scan_packx. */
  method PackScan(c: Codec, s: Scan, output: array<byte>, p: nat, length: nat) returns (ok: bool, next: nat)
    requires c.Lawful() && p <= length <= output.Length
    modifies output
    ensures ok <==> p + ScanSize(|s.channels|) <= length
    ensures if ok then next == p + ScanSize(|s.channels|) && Wrote(output[..], old(output[..]), p, ScanBytes(c, s))
            else Outside(output[..], old(output[..]), p, length)
  {
    ghost var a, b, was := c.packInt64(Signed(s.timestamp)), c.packInt64(Signed(s.sequence)), output[..];
    ok, next := Put(c.packInt64(Signed(s.timestamp)), output, p, length);
    if !ok {
      return;
    }
    ghost var first := output[..];
    ok, next := Put(c.packInt64(Signed(s.sequence)), output, next, length);
    if !ok {
      OutsideBoth(output[..], first, was, p, p + |a|, length, length);
      return;
    }
    ghost var second := output[..];
    WroteBoth(second, first, was, p, a, b);
    ok, next := PackReadings(c, s.channels, output, next, length);
    if ok {
      WroteBoth(output[..], second, was, p, a + b, Pack(c.packInt32, s.channels, |s.channels|));
    } else {
      OutsideBoth(output[..], second, was, p, p + |a + b|, p + |a + b|, length);
    }
  }

  method UnpackReadings(c: Codec, block: array<int32>, base: nat, count: nat, input: seq<byte>, p: nat)
    returns (ok: bool, next: nat)
    requires base + count <= block.Length && p <= |input|
    modifies block
    ensures ok <==> p + Total(count, INT32_SIZE) <= |input|
    ensures block[..base] == old(block[..base])
    ensures ok ==> next == p + Total(count, INT32_SIZE)
                   && block[base..base + count] == Read(Int32Reader(c, input), INT32_SIZE, p, count)
  {
    ok, next := true, p;
    var j: nat := 0;
    while j < count
      invariant j <= count && ok && next == p + Total(j, INT32_SIZE) <= |input|
      invariant block[..base] == old(block[..base])
      invariant block[base..base + j] == Read(Int32Reader(c, input), INT32_SIZE, p, j)
    {
      ok := next + INT32_SIZE <= |input|;
      if !ok {
        TotalMonotonic(j + 1, count, INT32_SIZE);
        return;
      }
      block[base + j] := ReadInt32(c, input, next);
      assert block[base..base + j + 1] == block[base..base + j] + [block[base + j]];
      next := next + INT32_SIZE;
      j := j + 1;
    }
  }

  lemma {:induction false} SameScans(hs: seq<Header>, now: seq<Header>, width: nat, limit: nat,
                                     before: seq<int32>, after: seq<int32>, n: nat)
    requires n <= |hs| == |now| && hs[..n] == now[..n] && Based(hs, width, |before|) && Based(now, width, |after|)
    requires limit <= |before| && limit <= |after| && before[..limit] == after[..limit]
    requires forall k :: 0 <= k < n ==> hs[k].base + width <= limit
    ensures ScansOf(hs, width, before, n) == ScansOf(now, width, after, n)
  {
    if n > 0 {
      assert now[n - 1] == now[..n][n - 1] == hs[..n][n - 1] == hs[n - 1];
      assert now[..n - 1] == now[..n][..n - 1] == hs[..n - 1];
      SliceOfSlice(before, 0, limit, hs[n - 1].base, hs[n - 1].base + width);
      SliceOfSlice(after, 0, limit, hs[n - 1].base, hs[n - 1].base + width);
      SameScans(hs, now, width, limit, before, after, n - 1);
    }
  }

  /** The slices keep their places; the scans before the i-th are what they were. */
  lemma OnlyChangedAt(hs: seq<Header>, now: seq<Header>, width: nat, before: seq<int32>, after: seq<int32>, i: nat)
    requires Laid(hs, width, before) && i < |hs| == |now| && |before| == |after|
    requires now[i].base == hs[i].base && forall k :: 0 <= k < |hs| && k != i ==> now[k] == hs[k]
    requires before[..hs[i].base] == after[..hs[i].base]
    ensures Laid(now, width, after)
    ensures ScansOf(hs, width, before, i) == ScansOf(now, width, after, i)
  {
    forall k | 0 <= k < i ensures hs[k].base + width <= hs[i].base {
      TotalMonotonic(k, i, width);
    }
    assert hs[..i] == now[..i];
    SameScans(hs, now, width, hs[i].base, before, after, i);
  }

  lemma ScanIsRead(c: Codec, h: Header, width: nat, block: seq<int32>, input: seq<byte>, p: nat, read: nat -> Scan)
    requires ReadsScans(read, c, input, width) && p + ScanSize(width) <= |input| && h.base + width <= |block|
    requires h.timestamp == Unsigned(ReadInt64(c, input, p))
    requires h.sequence == Unsigned(ReadInt64(c, input, p + INT64_SIZE))
    requires block[h.base..h.base + width] == Read(Int32Reader(c, input), INT32_SIZE, p + 2 * INT64_SIZE, width)
    ensures ScanOf(h, width, block) == read(p)
  {
    assert ScanOf(h, width, block) == ReadScan(c, input, p, width);
  }

  /** dtadc_scan_unpackx, into the i-th scan's storage; the scans before it are not touched. */
  method UnpackScan(c: Codec, structs: array<Header>, width: nat, block: array<int32>, i: nat,
                    input: seq<byte>, p: nat, ghost read: nat -> Scan) returns (ok: bool, next: nat)
    requires ReadsScans(read, c, input, width) && AllPresent(structs[..])
    requires Laid(structs[..], width, block[..]) && i < structs.Length && p <= |input|
    modifies structs, block
    ensures AllPresent(structs[..])
    ensures Laid(structs[..], width, block[..]) && (ok <==> p + ScanSize(width) <= |input|)
    ensures ScansOf(structs[..], width, block[..], i) == old(ScansOf(structs[..], width, block[..], i))
    ensures ok ==> next == p + ScanSize(width) && ScanOf(structs[i], width, block[..]) == read(p)
  {
    ghost var hs, was := structs[..], block[..];
    ok := UnpackStamps(c, structs, i, input, p);
    next := p + 2 * INT64_SIZE;
    if ok {
      ok, next := UnpackReadings(c, block, structs[i].base, width, input, next);
    }
    OnlyChangedAt(hs, structs[..], width, was, block[..], i);
    if ok {
      ScanIsRead(c, structs[i], width, block[..], input, p, read);
    }
  }

  method UnpackStamps(c: Codec, structs: array<Header>, i: nat, input: seq<byte>, p: nat) returns (ok: bool)
    requires i < structs.Length && p <= |input|
    modifies structs
    ensures ok <==> p + 2 * INT64_SIZE <= |input|
    ensures structs[i].base == old(structs[i].base) && structs[i].present == old(structs[i].present)
    ensures forall k :: 0 <= k < structs.Length && k != i ==> structs[k] == old(structs[k])
    ensures ok ==> structs[i].timestamp == Unsigned(ReadInt64(c, input, p))
                   && structs[i].sequence == Unsigned(ReadInt64(c, input, p + INT64_SIZE))
  {
    ok := p + INT64_SIZE <= |input|;
    if ok {
      structs[i] := structs[i].(timestamp := Unsigned(ReadInt64(c, input, p)));
      ok := p + 2 * INT64_SIZE <= |input|;
      if ok {
        structs[i] := structs[i].(sequence := Unsigned(ReadInt64(c, input, p + INT64_SIZE)));
      }
    }
  }

  lemma NextScan(hs: seq<Header>, width: nat, block: seq<int32>, read: nat -> Scan, size: nat, at: nat, i: nat)
    requires i < |hs| && Based(hs, width, |block|)
    requires ScansOf(hs, width, block, i) == Read(read, size, at, i)
    requires ScanOf(hs[i], width, block) == read(at + Total(i, size))
    ensures ScansOf(hs, width, block, i + 1) == Read(read, size, at, i + 1)
  {
  }

  /** One more scan, where the first i have been read. */
  method UnpackNext(c: Codec, structs: array<Header>, width: nat, block: array<int32>, i: nat, input: seq<byte>,
                    ghost at: nat, p: nat, ghost read: nat -> Scan) returns (ok: bool, next: nat)
    requires ReadsScans(read, c, input, width) && AllPresent(structs[..])
    requires Laid(structs[..], width, block[..]) && i < structs.Length
    requires p == at + Total(i, ScanSize(width)) <= |input|
    requires ScansOf(structs[..], width, block[..], i) == Read(read, ScanSize(width), at, i)
    modifies structs, block
    ensures Laid(structs[..], width, block[..]) && AllPresent(structs[..])
    ensures ok <==> at + Total(i + 1, ScanSize(width)) <= |input|
    ensures ok ==> next == at + Total(i + 1, ScanSize(width))
                   && ScansOf(structs[..], width, block[..], i + 1) == Read(read, ScanSize(width), at, i + 1)
  {
    ok, next := UnpackScan(c, structs, width, block, i, input, p, read);
    if ok {
      NextScan(structs[..], width, block[..], read, ScanSize(width), at, i);
    }
  }

  method UnpackScans(c: Codec, structs: array<Header>, width: nat, block: array<int32>, input: seq<byte>, at: nat,
                     ghost read: nat -> Scan) returns (ok: bool, p: nat)
    requires ReadsScans(read, c, input, width) && AllPresent(structs[..])
    requires Laid(structs[..], width, block[..]) && at <= |input|
    modifies structs, block
    ensures Laid(structs[..], width, block[..]) && AllPresent(structs[..])
    ensures ok <==> at + Total(structs.Length, ScanSize(width)) <= |input|
    ensures ok ==> p == at + Total(structs.Length, ScanSize(width))
                   && ScansOf(structs[..], width, block[..], structs.Length) ==
                      Read(read, ScanSize(width), at, structs.Length)
  {
    ok, p := true, at;
    ghost var size := ScanSize(width);
    var i: nat := 0;
    while i < structs.Length
      invariant i <= structs.Length && ok && p == at + Total(i, size) <= |input|
      invariant Laid(structs[..], width, block[..]) && AllPresent(structs[..])
      invariant ScansOf(structs[..], width, block[..], i) == Read(read, size, at, i)
    {
      ok, p := UnpackNext(c, structs, width, block, i, input, at, p, read);
      if !ok {
        TotalMonotonic(i + 1, structs.Length, size);
        return;
      }
      i := i + 1;
    }
  }

  class ScanListObject {
    var scanCount: int32
    var channelCount: int32
    var headers: array?<Header>
    var channels: array<int32>

    /** A list that the caller has filled in by hand may have scans without channels. */
    ghost predicate Valid()
      reads this, headers, channels
    {
      headers != null ==>
        && scanCount >= 0 && channelCount >= 0
        && headers.Length == scanCount && Laid(headers[..], channelCount, channels[..])
    }

    ghost function View(): ScanList
      requires Valid()
      reads this, headers, channels
    {
      ScanList(scanCount, channelCount,
               if headers == null then [] else ScansOf(headers[..], channelCount, channels[..], headers.Length))
    }

    /** What packx accepts is a list that round trips. */
    lemma ViewIsPackable()
      requires Valid() && scanCount >= 0 && channelCount >= 0 && (scanCount > 0 ==> headers != null)
      ensures Packable(View())
    {
      if headers != null {
        forall i | 0 <= i < headers.Length ensures |View().scans[i].channels| == channelCount {
          ScansOfAt(headers[..], channelCount, channels[..], headers.Length, i);
        }
      }
    }

    /** Zeroed, as the caller or memset leaves it before init. */
    constructor (scanCount: int32, channelCount: int32)
      ensures Valid() && headers == null && this.scanCount == scanCount && this.channelCount == channelCount
    {
      this.scanCount, this.channelCount := scanCount, channelCount;
      headers := null;
      channels := new int32[0];
    }

    /** Filled in by the caller, whose scans need not come from init, and whose channel pointers may be NULL; the readings
        of a scan without one are never looked at. */
    constructor Of(l: ScanList, present: nat -> bool)
      requires Packable(l)
      ensures Valid() && headers != null && fresh(headers) && fresh(channels) && View() == l
      ensures forall i :: 0 <= i < headers.Length ==> headers[i].present == present(i)
    {
      scanCount, channelCount := l.scanCount, l.channelCount;
      var n, width: nat := |l.scans|, l.channelCount;
      var readings := Readings(l.scans, n);
      var structs := new Header[n](i requires 0 <= i < n =>
                                     Header(l.scans[i].timestamp, l.scans[i].sequence, Total(i, width), present(i)));
      var block := new int32[|readings|](k requires 0 <= k < |readings| => readings[k]);
      headers, channels := structs, block;
      new;
      assert block[..] == readings;
      BuiltList(structs[..], width, l.scans);
    }

    /** dtadc_scanlist_init. */
    method Allocate() returns (err: Option<Error>)
      requires Valid() && headers == null && Allocatable(scanCount, channelCount)
      modifies `headers, `channels
      ensures Valid() && (err.None? <==> scanCount > 0 && channelCount > 0)
      ensures err.None? ==> headers != null && fresh(headers) && fresh(channels) && AllPresent(headers[..])
      ensures err.Some? ==> err == Some(BadArgument) && headers == null
    {
      if scanCount <= 0 {
        return Some(BadArgument);
      }
      if channelCount <= 0 {
        return Some(BadArgument);
      }
      var n: nat, width: nat := scanCount, channelCount;
      TotalIsProduct(n, width);
      var structs := new Header[n](_ => Header(0, 0, 0, true));
      var block := new int32[n * width];
      PointSlices(structs, width);
      headers, channels := structs, block;
      err := None;
    }

    static method PointSlices(structs: array<Header>, width: nat)
      modifies structs
      ensures Based(structs[..], width, Total(structs.Length, width))
      ensures forall k :: 0 <= k < structs.Length ==> structs[k].present == old(structs[k].present)
    {
      var i: nat := 0;
      while i < structs.Length
        invariant i <= structs.Length
        invariant forall k :: 0 <= k < structs.Length ==> structs[k].present == old(structs[k].present)
        invariant Based(structs[..i], width, Total(structs.Length, width))
      {
        var base := SliceBase(i, structs.Length, width);
        structs[i] := structs[i].(base := base);
        assert structs[..i + 1] == structs[..i] + [structs[i]];
        i := i + 1;
      }
      assert structs[..i] == structs[..];
    }

    static method SliceBase(i: nat, count: nat, width: nat) returns (base: nat)
      requires i < count
      ensures base == Total(i, width) && base + width <= Total(count, width)
    {
      base := i * width;
      TotalIsProduct(i, width);
      TotalMonotonic(i, count, width);
    }

    // ----- Packing -----

    /** dtadc_scanlist_packx_length. It asks the first scan struct, so it fails for an empty list, whose struct pointer is
        NULL, although such a list is packed. */
    method PackxLength() returns (err: Option<Error>, length: nat)
      requires Valid()
      ensures err == if scanCount < 0 || channelCount < 0 then Some(BadArgument)
                     else if headers == null then Some(ArgumentNull) else None
      ensures err.None? ==> length == ListSize(scanCount, channelCount)
    {
      length := 0;
      if scanCount < 0 || channelCount < 0 {
        return Some(BadArgument), 0;
      }
      if headers == null {
        return Some(ArgumentNull), 0;
      }
      TotalIsProduct(channelCount, INT32_SIZE);
      var scanLength := 8 + 8 + channelCount * 4;
      TotalIsProduct(scanCount, scanLength);
      length := 4 + 4 + scanLength * scanCount;
      err := None;
    }

    /** One more scan, where the first i have been packed. */
    static method PackNext(c: Codec, structs: array<Header>, width: nat, block: array<int32>, i: nat,
                           ghost scans: seq<Scan>, ghost pack: Scan -> seq<byte>, output: array<byte>,
                           ghost was: seq<byte>, ghost start: nat, p: nat, length: nat)
      returns (err: Option<Error>, next: nat)
      requires c.Lawful() && PacksScans(pack, c) && Based(structs[..], width, block.Length)
      requires scans == ScansOf(structs[..], width, block[..], structs.Length)
      requires i < structs.Length && p <= length <= output.Length
      requires p == start + |Pack(pack, scans, i)| && Wrote(output[..], was, start, Pack(pack, scans, i))
      modifies output
      ensures err.None? <==> structs[i].present && p + ScanSize(width) <= length
      ensures if err.None? then next == p + ScanSize(width) == start + |Pack(pack, scans, i + 1)|
                         && Wrote(output[..], was, start, Pack(pack, scans, i + 1))
              else Outside(output[..], was, start, length)
    {
      if !structs[i].present {
        OutsideBoth(output[..], output[..], was, start, p, p, length);
        return Some(ArgumentNull), p;
      }
      ghost var mid := output[..];
      var s := ScanOf(structs[i], width, block[..]);
      ScansOfAt(structs[..], width, block[..], structs.Length, i);
      ScanBytesLength(c, s);
      var ok: bool;
      ok, next := PackScan(c, s, output, p, length);
      err := if ok then None else Some(NoRoom);
      if ok {
        WroteBoth(output[..], mid, was, start, Pack(pack, scans, i), pack(scans[i]));
      } else {
        OutsideBoth(output[..], mid, was, start, p, p, length);
      }
    }

    static method PackScans(c: Codec, structs: array<Header>, width: nat, block: array<int32>,
                            ghost scans: seq<Scan>, ghost pack: Scan -> seq<byte>,
                            output: array<byte>, p: nat, length: nat) returns (err: Option<Error>, next: nat)
      requires c.Lawful() && PacksScans(pack, c) && Based(structs[..], width, block.Length)
      requires scans == ScansOf(structs[..], width, block[..], structs.Length)
      requires p <= length <= output.Length
      modifies output
      ensures err.None? <==> AllPresent(structs[..]) && p + Total(structs.Length, ScanSize(width)) <= length
      ensures if err.None? then next == p + Total(structs.Length, ScanSize(width))
                                && Wrote(output[..], old(output[..]), p, Pack(pack, scans, |scans|))
              else Outside(output[..], old(output[..]), p, length)
    {
      err, next := None, p;
      ghost var was := output[..];
      var i: nat := 0;
      while i < structs.Length
        invariant i <= structs.Length && err.None?
        invariant forall k :: 0 <= k < i ==> structs[k].present
        invariant next == p + |Pack(pack, scans, i)| == p + Total(i, ScanSize(width)) <= length
        invariant Wrote(output[..], was, p, Pack(pack, scans, i))
      {
        err, next := PackNext(c, structs, width, block, i, scans, pack, output, was, p, next, length);
        if err.Some? {
          TotalMonotonic(i + 1, structs.Length, ScanSize(width));
          return;
        }
        i := i + 1;
      }
    }

    method PackHeader(c: Codec, output: array<byte>, p: nat, length: nat) returns (ok: bool, next: nat)
      requires c.Lawful() && length <= output.Length
      modifies output
      ensures ok <==> p + 2 * INT32_SIZE <= length
      ensures if ok then next == p + 2 * INT32_SIZE
                         && Wrote(output[..], old(output[..]), p, HeaderBytes(c, scanCount, channelCount))
              else Spared(output[..], old(output[..]), p, length)
    {
      ghost var was := output[..];
      ok, next := Put(c.packInt32(scanCount), output, p, length);
      if !ok {
        return;
      }
      ghost var mid := output[..];
      ok, next := Put(c.packInt32(channelCount), output, next, length);
      if ok {
        WroteBoth(output[..], mid, was, p, c.packInt32(scanCount), c.packInt32(channelCount));
      } else {
        OutsideBoth(output[..], mid, was, p, p + INT32_SIZE, length, length);
      }
    }

    /** dtadc_scanlist_packx: the list's bytes, if they fit between the offset and the length; otherwise the offset does
        not move, and nothing is written before it or beyond the length. */
    method Packx(c: Codec, output: array<byte>, offset: nat, length: nat) returns (err: Option<Error>, next: nat)
      requires Valid() && c.Lawful() && length <= output.Length
      modifies output
      ensures err.None? <==>
              && scanCount >= 0 && channelCount >= 0
              && (scanCount > 0 ==> headers != null && AllPresent(headers[..]))
              && offset + ListSize(scanCount, channelCount) <= length
      ensures if err.None? then next == offset + ListSize(scanCount, channelCount)
                                && Wrote(output[..], old(output[..]), offset, ListBytes(c, old(View())))
              else next == offset && Spared(output[..], old(output[..]), offset, length)
    {
      next := offset;
      if scanCount < 0 || channelCount < 0 {
        return Some(BadArgument), offset;
      }
      if scanCount > 0 && headers == null {
        return Some(BadArgument), offset;
      }
      ghost var was, scans := output[..], View().scans;
      var ok, p := PackHeader(c, output, offset, length);
      if !ok {
        return Some(NoRoom), offset;
      }
      if scanCount > 0 {
        ghost var mid := output[..];
        err, p := PackScans(c, headers, channelCount, channels, scans, ScanPacker(c), output, p, length);
        if err.Some? {
          OutsideBoth(output[..], mid, was, offset, offset + 8, offset + 8, length);
          return err, offset;
        }
        WroteBoth(output[..], mid, was, offset, HeaderBytes(c, scanCount, channelCount),
                  Pack(ScanPacker(c), scans, |scans|));
      }
      err, next := None, p;
    }

    // ----- Unpacking -----

    method Dispose()
      modifies `scanCount, `channelCount, `headers
      ensures Valid() && scanCount == channelCount == 0 && headers == null
    {
      scanCount, channelCount, headers := 0, 0, null;
    }

    /** dtadc_scanlist_unpackx: what the bytes say if they suffice, and otherwise an empty object and an offset that has
        not moved. The result of init is not looked at. */
    method Unpackx(c: Codec, input: seq<byte>, offset: nat) returns (ok: bool, next: nat)
      requires Valid()
      requires offset + 8 <= |input| ==> Allocatable(ReadInt32(c, input, offset), ReadInt32(c, input, offset + 4))
      modifies this
      ensures Valid() && Unpacked(c, input, offset) == if ok then Some((View(), next)) else None
      ensures !ok ==> next == offset && scanCount == channelCount == 0 && headers == null
      ensures ok && scanCount > 0 ==> headers != null && AllPresent(headers[..])
    {
      Dispose();
      ok, next := false, offset;
      if offset + 4 > |input| {
        return;
      }
      scanCount := ReadInt32(c, input, offset);
      if offset + 8 > |input| {
        Dispose();
        return;
      }
      channelCount := ReadInt32(c, input, offset + 4);
      ok, next := UnpackBody(c, input, offset + 8);
      UnpackedBody(c, input, offset, View(), ok, next);
      if !ok {
        Dispose();
        next := offset;
      }
    }

    static lemma UnpackedBody(c: Codec, input: seq<byte>, offset: nat, l: ScanList, ok: bool, p: nat)
      requires offset + 8 <= |input|
      requires l.scanCount == ReadInt32(c, input, offset) && l.channelCount == ReadInt32(c, input, offset + 4)
      requires ok <==> l.scanCount <= 0
                       || (l.channelCount > 0
                           && offset + 8 + Total(l.scanCount, ScanSize(l.channelCount)) <= |input|)
      requires ok && l.scanCount <= 0 ==> p == offset + 8 && l.scans == []
      requires ok && l.scanCount > 0 ==>
                 p == offset + 8 + Total(l.scanCount, ScanSize(l.channelCount))
                 && l.scans ==
                    Read(ScanReader(c, input, l.channelCount), ScanSize(l.channelCount), offset + 8, l.scanCount)
      ensures Unpacked(c, input, offset) == if ok then Some((l, p)) else None
    {
    }

    /** What follows the two counts. */
    method UnpackBody(c: Codec, input: seq<byte>, at: nat) returns (ok: bool, p: nat)
      requires Valid() && headers == null && Allocatable(scanCount, channelCount) && at <= |input|
      modifies `headers, `channels
      ensures Valid()
      ensures ok <==> scanCount <= 0 || (channelCount > 0 && at + Total(scanCount, ScanSize(channelCount)) <= |input|)
      ensures ok && scanCount <= 0 ==> p == at && View().scans == []
      ensures ok && scanCount > 0 ==> headers != null && AllPresent(headers[..])
      ensures ok && scanCount > 0 ==>
                p == at + Total(scanCount, ScanSize(channelCount))
                && View().scans ==
                   Read(ScanReader(c, input, channelCount), ScanSize(channelCount), at, scanCount)
    {
      var ignored := Allocate();
      ok, p := true, at;
      if scanCount > 0 {
        if headers == null {
          return false, at;
        }
        ScanReaderReadsScans(c, input, channelCount);
        ok, p := UnpackScans(c, headers, channelCount, channels, input, p, ScanReader(c, input, channelCount));
      }
    }
  }

  /** Both ends: what packx accepts comes out of unpackx at the other end exactly when it is empty or has channels. Scans
      without channels are packed all the same, if only their channel pointers are not NULL, and the bytes are refused. */
  method Carry(c: Codec, source: ScanListObject, target: ScanListObject, buffer: array<byte>, offset: nat)
    returns (err: Option<Error>, ok: bool)
    requires source.Valid() && target.Valid() && source != target && c.Lawful()
    requires Allocatable(source.scanCount, source.channelCount)
    modifies target, buffer
    ensures err.None? <==>
            && source.scanCount >= 0 && source.channelCount >= 0
            && (source.scanCount > 0 ==> source.headers != null && AllPresent(source.headers[..]))
            && offset + ListSize(source.scanCount, source.channelCount) <= buffer.Length
    ensures err.None? ==> (ok <==> source.scanCount == 0 || source.channelCount > 0)
    ensures target.Valid() && (ok ==> target.View() == old(source.View()))
  {
    ok := false;
    ghost var l := source.View();
    var next: nat;
    err, next := source.Packx(c, buffer, offset, buffer.Length);
    if err.None? {
      source.ViewIsPackable();
      ListBytesLength(c, l);
      RoundTrip(c, buffer[..], offset, l);
      CountsOnWire(c, buffer[..], offset, l);
      ok, next := target.Unpackx(c, buffer[..], offset);
    }
  }

  lemma CountsOnWire(c: Codec, input: seq<byte>, offset: nat, l: ScanList)
    requires c.Lawful() && Packable(l) && offset + |ListBytes(c, l)| <= |input|
    requires input[offset..offset + |ListBytes(c, l)|] == ListBytes(c, l)
    ensures offset + 8 <= |input|
    ensures ReadInt32(c, input, offset) == l.scanCount && ReadInt32(c, input, offset + 4) == l.channelCount
  {
    SplitSlice(input, offset, offset + |ListBytes(c, l)|, HeaderBytes(c, l.scanCount, l.channelCount),
               Pack(ScanPacker(c), l.scans, |l.scans|));
    ReadHeaderBack(c, input, offset, l.scanCount, l.channelCount);
  }
}
