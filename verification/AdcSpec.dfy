/** The packed form of ADC scans and scan lists (dtadc_scan.c, dtadc_scanlist.c). */
module AdcSpec {
  import opened Bytes
  import opened Records

  type int32 = x: int | -0x8000_0000 <= x < 0x8000_0000
  type int64 = x: int | -0x8000_0000_0000_0000 <= x < 0x8000_0000_0000_0000
  type uint64 = x: int | 0 <= x < 0x1_0000_0000_0000_0000

  const INT32_SIZE := 4
  const INT64_SIZE := 8

  /** dtpackx, of which only this is known: integers take 4 and 8 bytes and come back as they went in. */
  datatype Codec = Codec(
    packInt32: int32 -> seq<byte>,
    unpackInt32: seq<byte> -> int32,
    packInt64: int64 -> seq<byte>,
    unpackInt64: seq<byte> -> int64)
  {
    ghost predicate Lawful() {
      && (forall x :: |packInt32(x)| == INT32_SIZE && unpackInt32(packInt32(x)) == x)
      && (forall x :: |packInt64(x)| == INT64_SIZE && unpackInt64(packInt64(x)) == x)
    }
  }

  /** (int64_t) of a uint64_t, and back. What fits stays what it is, and in any case the number is the same modulo
      2^64. */
  function Signed(x: uint64): (r: int64)
    ensures x < 0x8000_0000_0000_0000 ==> r == x
    ensures (r - x) % 0x1_0000_0000_0000_0000 == 0
  {
    if x < 0x8000_0000_0000_0000 then x else x - 0x1_0000_0000_0000_0000
  }

  function Unsigned(x: int64): (r: uint64)
    ensures Signed(r) == x
  {
    if x >= 0 then x else x + 0x1_0000_0000_0000_0000
  }

  datatype Scan = Scan(timestamp: uint64, sequence: uint64, channels: seq<int32>)

  datatype ScanList = ScanList(scanCount: int32, channelCount: int32, scans: seq<Scan>)

  /** The length that dtadc_scan_packx_length computes. */
  function ScanSize(channelCount: nat): nat {
    2 * INT64_SIZE + Total(channelCount, INT32_SIZE)
  }

  /** The length that dtadc_scanlist_packx_length computes. */
  function ListSize(scanCount: nat, channelCount: nat): nat {
    2 * INT32_SIZE + Total(scanCount, ScanSize(channelCount))
  }

  function ScanBytes(c: Codec, s: Scan): seq<byte> {
    c.packInt64(Signed(s.timestamp)) + c.packInt64(Signed(s.sequence)) + Pack(c.packInt32, s.channels, |s.channels|)
  }

  function ScanPacker(c: Codec): Scan -> seq<byte> {
    s => ScanBytes(c, s)
  }

  function HeaderBytes(c: Codec, scanCount: int32, channelCount: int32): seq<byte> {
    c.packInt32(scanCount) + c.packInt32(channelCount)
  }

  function ListBytes(c: Codec, l: ScanList): seq<byte> {
    HeaderBytes(c, l.scanCount, l.channelCount) + Pack(ScanPacker(c), l.scans, |l.scans|)
  }

  function ReadInt32(c: Codec, input: seq<byte>, at: nat): int32
    requires at + INT32_SIZE <= |input|
  {
    c.unpackInt32(input[at..at + INT32_SIZE])
  }

  function ReadInt64(c: Codec, input: seq<byte>, at: nat): int64
    requires at + INT64_SIZE <= |input|
  {
    c.unpackInt64(input[at..at + INT64_SIZE])
  }

  function Int32Reader(c: Codec, input: seq<byte>): nat -> int32 {
    (at: nat) => if at + INT32_SIZE <= |input| then ReadInt32(c, input, at) else 0
  }

  function ReadScan(c: Codec, input: seq<byte>, at: nat, channelCount: nat): (s: Scan)
    requires at + ScanSize(channelCount) <= |input|
    ensures |s.channels| == channelCount
  {
    Scan(Unsigned(ReadInt64(c, input, at)), Unsigned(ReadInt64(c, input, at + INT64_SIZE)),
         Read(Int32Reader(c, input), INT32_SIZE, at + 2 * INT64_SIZE, channelCount))
  }

  function ScanReader(c: Codec, input: seq<byte>, channelCount: nat): nat -> Scan {
    (at: nat) => if at + ScanSize(channelCount) <= |input| then ReadScan(c, input, at, channelCount) else Scan(0, 0, [])
  }

  /** This finds the scan at each position. */
  ghost predicate ReadsScans(read: nat -> Scan, c: Codec, input: seq<byte>, channelCount: nat) {
    forall at: nat {:trigger ReadScan(c, input, at, channelCount)} ::
      at + ScanSize(channelCount) <= |input| ==> read(at) == ReadScan(c, input, at, channelCount)
  }

  lemma ScanReaderReadsScans(c: Codec, input: seq<byte>, channelCount: nat)
    ensures ReadsScans(ScanReader(c, input, channelCount), c, input, channelCount)
  {
  }

  /** This turns each scan into its bytes. */
  ghost predicate PacksScans(pack: Scan -> seq<byte>, c: Codec) {
    forall s {:trigger ScanBytes(c, s)} :: pack(s) == ScanBytes(c, s)
  }

  /** What dtadc_scanlist_unpackx makes of these bytes, if it succeeds. A count of scans that is not positive is taken
      as it comes, with no scans; a positive one needs channels. */
  function Unpacked(c: Codec, input: seq<byte>, offset: nat): Option<(ScanList, nat)> {
    if offset + 2 * INT32_SIZE > |input| then None
    else
      var n, channels := ReadInt32(c, input, offset), ReadInt32(c, input, offset + INT32_SIZE);
      var at := offset + 2 * INT32_SIZE;
      if n <= 0 then Some((ScanList(n, channels, []), at))
      else if channels <= 0 || at + Total(n, ScanSize(channels)) > |input| then None
      else Some((ScanList(n, channels, Read(ScanReader(c, input, channels), ScanSize(channels), at, n)),
                 at + Total(n, ScanSize(channels))))
  }

  // ----- Where everything lies -----

  /** A scan's timestamp, its sequence number and its j-th reading, by their positions. */
  lemma ScanLayout(c: Codec, s: Scan, j: nat)
    requires c.Lawful() && j <= |s.channels|
    ensures var b := ScanBytes(c, s);
            && |b| == 16 + 4 * |s.channels|
            && b[0..8] == c.packInt64(Signed(s.timestamp)) && b[8..16] == c.packInt64(Signed(s.sequence))
            && (j < |s.channels| ==> b[16 + 4 * j..20 + 4 * j] == c.packInt32(s.channels[j]))
  {
    var b, stamps := ScanBytes(c, s), c.packInt64(Signed(s.timestamp)) + c.packInt64(Signed(s.sequence));
    ScanBytesLength(c, s);
    TotalIsProduct(|s.channels|, INT32_SIZE);
    SplitSlice(b, 0, |b|, stamps, Pack(c.packInt32, s.channels, |s.channels|));
    SplitSlice(b, 0, 16, c.packInt64(Signed(s.timestamp)), c.packInt64(Signed(s.sequence)));
    if j < |s.channels| {
      PackedAt(c.packInt32, INT32_SIZE, s.channels, |s.channels|, b, 16, j);
      TotalIsProduct(j, INT32_SIZE);
    }
  }

  /** A list's two counts and its i-th scan, by their positions. */
  lemma ListLayout(c: Codec, l: ScanList, i: nat)
    requires c.Lawful() && Packable(l) && i <= |l.scans|
    ensures var b, size := ListBytes(c, l), 16 + 4 * l.channelCount;
            && |b| == 8 + |l.scans| * size
            && b[0..4] == c.packInt32(l.scanCount) && b[4..8] == c.packInt32(l.channelCount)
            && (i < |l.scans| ==>
                  8 + i * size + size <= |b| && b[8 + i * size..8 + i * size + size] == ScanBytes(c, l.scans[i]))
  {
    var b, size := ListBytes(c, l), 16 + 4 * l.channelCount;
    ListBytesLength(c, l);
    TotalIsProduct(l.channelCount, INT32_SIZE);
    TotalIsProduct(|l.scans|, size);
    TotalIsProduct(i, size);
    SplitSlice(b, 0, |b|, HeaderBytes(c, l.scanCount, l.channelCount), Pack(ScanPacker(c), l.scans, |l.scans|));
    SplitSlice(b, 0, 8, c.packInt32(l.scanCount), c.packInt32(l.channelCount));
    if i < |l.scans| {
      ScansAreSized(c, l.scans, l.channelCount);
      PackedAt(ScanPacker(c), size, l.scans, |l.scans|, b, 8, i);
    }
  }

  /** Whatever the bytes are, they unpack if and only if there are two counts, and then no scans are promised, or scans
      with channels that are all there. */
  lemma UnpacksIff(c: Codec, input: seq<byte>, offset: nat)
    ensures Unpacked(c, input, offset).Some? <==>
            && offset + 8 <= |input|
            && var n: int := c.unpackInt32(input[offset..offset + 4]);
               var channels: int := c.unpackInt32(input[offset + 4..offset + 8]);
               n <= 0 || (channels > 0 && offset + 8 + n * (16 + 4 * channels) <= |input|)
  {
    if offset + 8 <= |input| {
      var n, channels := ReadInt32(c, input, offset), ReadInt32(c, input, offset + 4);
      if n > 0 && channels > 0 {
        TotalIsProduct(channels, INT32_SIZE);
        TotalIsProduct(n, ScanSize(channels));
      }
    }
  }

  /** What unpacks has the two counts that come first, and each scan is read from its own place. */
  lemma UnpackedIs(c: Codec, input: seq<byte>, offset: nat, l: ScanList, next: nat)
    requires Unpacked(c, input, offset) == Some((l, next))
    ensures offset + 8 <= |input|
    ensures l.scanCount == c.unpackInt32(input[offset..offset + 4])
    ensures l.channelCount == c.unpackInt32(input[offset + 4..offset + 8])
    ensures l.scanCount <= 0 ==> l.scans == [] && next == offset + 8
    ensures l.scanCount > 0 ==>
              |l.scans| == l.scanCount && next == offset + 8 + l.scanCount * (16 + 4 * l.channelCount)
  {
    if l.scanCount > 0 {
      TotalIsProduct(l.channelCount, INT32_SIZE);
      TotalIsProduct(l.scanCount, ScanSize(l.channelCount));
    }
  }

  lemma UnpackedScanIs(c: Codec, input: seq<byte>, offset: nat, l: ScanList, next: nat, i: nat)
    requires Unpacked(c, input, offset) == Some((l, next)) && i < |l.scans|
    ensures l.channelCount > 0
    ensures var at := offset + 8 + Total(i, ScanSize(l.channelCount));
            at + ScanSize(l.channelCount) <= |input| && l.scans[i] == ReadScan(c, input, at, l.channelCount)
  {
    UnpackedScansAre(c, input, offset, l, next);
    NextScanIs(c, input, l.channelCount, ScanSize(l.channelCount), offset + 8, l.scanCount, l.scans, i);
  }

  lemma UnpackedScansAre(c: Codec, input: seq<byte>, offset: nat, l: ScanList, next: nat)
    requires Unpacked(c, input, offset) == Some((l, next)) && l.scans != []
    ensures l.scanCount > 0 && l.channelCount > 0
    ensures var size := ScanSize(l.channelCount);
            && offset + 8 + Total(l.scanCount, size) <= |input|
            && l.scans == Read(ScanReader(c, input, l.channelCount), size, offset + 8, l.scanCount)
  {
  }

  lemma NextScanIs(c: Codec, input: seq<byte>, channelCount: nat, size: nat, at: nat, n: nat, scans: seq<Scan>, i: nat)
    requires i < n && size == ScanSize(channelCount) && at + Total(n, size) <= |input|
    requires scans == Read(ScanReader(c, input, channelCount), size, at, n)
    ensures at + Total(i, size) + size <= |input|
    ensures scans[i] == ReadScan(c, input, at + Total(i, size), channelCount)
  {
    TotalMonotonic(i, n, size);
    ReadAt(ScanReader(c, input, channelCount), size, at, n, i);
  }

  /** A scan is read as its two stamps and, behind them, its readings, four bytes each. */
  lemma ScanIsReadFrom(c: Codec, input: seq<byte>, at: nat, channelCount: nat, j: nat)
    requires at + ScanSize(channelCount) <= |input| && j <= channelCount
    ensures var s := ReadScan(c, input, at, channelCount);
            && at + 16 + 4 * channelCount <= |input|
            && Signed(s.timestamp) == c.unpackInt64(input[at..at + 8])
            && Signed(s.sequence) == c.unpackInt64(input[at + 8..at + 16])
            && (j < channelCount ==> s.channels[j] == c.unpackInt32(input[at + 16 + 4 * j..at + 20 + 4 * j]))
  {
    TotalIsProduct(channelCount, INT32_SIZE);
    if j < channelCount {
      TotalIsProduct(j, INT32_SIZE);
      ReadAt(Int32Reader(c, input), INT32_SIZE, at + 16, channelCount, j);
    }
  }

  // ----- Round trip -----

  /** A list as the packer takes it: as many scans as counted, with as many channels each. */
  ghost predicate Packable(l: ScanList) {
    && l.scanCount == |l.scans| && l.channelCount >= 0
    && forall i :: 0 <= i < |l.scans| ==> |l.scans[i].channels| == l.channelCount
  }

  lemma ScanBytesLength(c: Codec, s: Scan)
    requires c.Lawful()
    ensures |ScanBytes(c, s)| == ScanSize(|s.channels|)
  {
    PackLength(c.packInt32, INT32_SIZE, s.channels, |s.channels|);
  }

  lemma ReadReadingsBack(c: Codec, readings: seq<int32>, input: seq<byte>, at: nat)
    requires c.Lawful() && at + Total(|readings|, INT32_SIZE) <= |input|
    requires input[at..at + Total(|readings|, INT32_SIZE)] == Pack(c.packInt32, readings, |readings|)
    ensures Read(Int32Reader(c, input), INT32_SIZE, at, |readings|) == readings
  {
    forall i | 0 <= i < |readings| ensures Int32Reader(c, input)(at + Total(i, INT32_SIZE)) == readings[i] {
      PackedAt(c.packInt32, INT32_SIZE, readings, |readings|, input, at, i);
    }
    ReadBack(Int32Reader(c, input), INT32_SIZE, readings, |readings|, at);
  }

  lemma ReadScanBack(c: Codec, s: Scan, input: seq<byte>, at: nat)
    requires c.Lawful() && at + ScanSize(|s.channels|) <= |input|
    requires input[at..at + ScanSize(|s.channels|)] == ScanBytes(c, s)
    ensures ReadScan(c, input, at, |s.channels|) == s
  {
    var a, b := c.packInt64(Signed(s.timestamp)), c.packInt64(Signed(s.sequence));
    var readings := Pack(c.packInt32, s.channels, |s.channels|);
    var end := at + ScanSize(|s.channels|);
    assert ScanBytes(c, s) == a + (b + readings);
    SplitSlice(input, at, end, a, b + readings);
    SplitSlice(input, at + INT64_SIZE, end, b, readings);
    ReadReadingsBack(c, s.channels, input, at + 2 * INT64_SIZE);
  }

  lemma ReadScansBack(c: Codec, read: nat -> Scan, scans: seq<Scan>, channelCount: nat, input: seq<byte>, at: nat)
    requires c.Lawful() && at + Total(|scans|, ScanSize(channelCount)) <= |input|
    requires ReadsScans(read, c, input, channelCount)
    requires forall i :: 0 <= i < |scans| ==> |scans[i].channels| == channelCount
    requires input[at..at + Total(|scans|, ScanSize(channelCount))] == Pack(ScanPacker(c), scans, |scans|)
    ensures Read(read, ScanSize(channelCount), at, |scans|) == scans
  {
    var size := ScanSize(channelCount);
    ScansAreSized(c, scans, channelCount);
    forall i | 0 <= i < |scans| ensures read(at + Total(i, size)) == scans[i] {
      PackedAt(ScanPacker(c), size, scans, |scans|, input, at, i);
      ReadScanBack(c, scans[i], input, at + Total(i, size));
    }
    ReadBack(read, size, scans, |scans|, at);
  }

  lemma ScansAreSized(c: Codec, scans: seq<Scan>, channelCount: nat)
    requires c.Lawful() && forall i :: 0 <= i < |scans| ==> |scans[i].channels| == channelCount
    ensures Sized(ScanPacker(c), ScanSize(channelCount), scans)
  {
    forall i | 0 <= i < |scans| ensures |ScanPacker(c)(scans[i])| == ScanSize(channelCount) {
      ScanBytesLength(c, scans[i]);
    }
  }

  lemma ReadHeaderBack(c: Codec, input: seq<byte>, at: nat, scanCount: int32, channelCount: int32)
    requires c.Lawful() && at + 2 * INT32_SIZE <= |input|
    requires input[at..at + 2 * INT32_SIZE] == HeaderBytes(c, scanCount, channelCount)
    ensures ReadInt32(c, input, at) == scanCount && ReadInt32(c, input, at + INT32_SIZE) == channelCount
  {
    SplitSlice(input, at, at + 2 * INT32_SIZE, c.packInt32(scanCount), c.packInt32(channelCount));
  }

  /** packx writes as many bytes as packx_length says. */
  lemma ListBytesLength(c: Codec, l: ScanList)
    requires c.Lawful() && Packable(l)
    ensures |ListBytes(c, l)| == ListSize(l.scanCount, l.channelCount)
  {
    ScansAreSized(c, l.scans, l.channelCount);
    PackLength(ScanPacker(c), ScanSize(l.channelCount), l.scans, |l.scans|);
  }

  /** Round trip: a packed list, anywhere in a buffer, unpacks exactly when it is empty or has channels, and then to the
      same list and the offset just behind it. */
  lemma RoundTrip(c: Codec, input: seq<byte>, offset: nat, l: ScanList)
    requires c.Lawful() && Packable(l)
    requires offset + ListSize(l.scanCount, l.channelCount) <= |input|
    requires input[offset..offset + ListSize(l.scanCount, l.channelCount)] == ListBytes(c, l)
    ensures Unpacked(c, input, offset) ==
            if l.scanCount == 0 || l.channelCount > 0
            then Some((l, offset + ListSize(l.scanCount, l.channelCount))) else None
  {
    var at, end := offset + 2 * INT32_SIZE, offset + ListSize(l.scanCount, l.channelCount);
    SplitSlice(input, offset, end, HeaderBytes(c, l.scanCount, l.channelCount), Pack(ScanPacker(c), l.scans, |l.scans|));
    ReadHeaderBack(c, input, offset, l.scanCount, l.channelCount);
    ScanReaderReadsScans(c, input, l.channelCount);
    ReadScansBack(c, ScanReader(c, input, l.channelCount), l.scans, l.channelCount, input, at);
  }
}
