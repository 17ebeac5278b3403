/**
 The index file: a checksummed header, the metadata, one record per entry and the modification time.
 Both the Chromium loader and the Java one read this format.
 */
module IndexFile {
  import opened ByteSeqs
  import opened EntryFormat
  import opened IndexModel

  const INDEX_MAGIC: nat := 0x656e74657220796f
  const INDEX_VERSION: nat := 9
  const MIN_INDEX_VERSION: nat := 8
  const REASON_MAX: nat := 4
  const MAX_ENTRIES: nat := 1000000
  const MAX_INDEX_FILE_SIZE: nat := MAX_ENTRIES * 24
  const RECORDS_START: nat := 40
  const RECORD_SIZE: nat := 24

  const I64_LIMIT: int := 0x8000_0000_0000_0000
  type i64 = x: int | -0x8000_0000_0000_0000 <= x < 0x8000_0000_0000_0000

  function Bits(x: i64): u64 {
    x % U64_LIMIT
  }

  function FromBits(u: u64): i64 {
    if u >= I64_LIMIT then u - U64_LIMIT else u
  }

  lemma BitsRoundTrip(x: i64)
    ensures FromBits(Bits(x)) == x
  {
  }

  // ---------------------------------------------------------------------------
  // Times
  // ---------------------------------------------------------------------------

  const MICROS: int := 1000000
  const UNIX_EPOCH: int := 11644473600 * MICROS

  /** Seconds since the Unix epoch, saturated to 32 bits; 0 stands for the null time only. */
  function LastUsedSeconds(t: i64): (s: u32) {
    if t == 0 then 0
    else
      var d := if t < UNIX_EPOCH then 0 else (t - UNIX_EPOCH) / MICROS;
      if d == 0 then 1 else if d >= U32_LIMIT then U32_LIMIT - 1 else d
  }

  function LastUsedTime(s: u32): i64 {
    if s == 0 then 0 else UNIX_EPOCH + s * MICROS
  }

  /** A time from the first to the last second of the range is cut to whole seconds. */
  lemma CutToSeconds(t: i64)
    requires UNIX_EPOCH + MICROS <= t < UNIX_EPOCH + U32_LIMIT * MICROS
    ensures LastUsedTime(LastUsedSeconds(t)) <= t < LastUsedTime(LastUsedSeconds(t)) + MICROS
  {
  }

  /** Stored seconds survive being written and read. */
  lemma SecondsRoundTrip(s: u32)
    ensures LastUsedSeconds(LastUsedTime(s)) == s
  {
  }

  // ---------------------------------------------------------------------------
  // The format
  // ---------------------------------------------------------------------------

  datatype Record = Record(hash: u64, lastUsed: i64, chunks: Chunks, hints: u32)

  datatype Head = Head(magic: u64, version: u32, count: u64, cacheSize: u64, reason: u32)

  function Packed(r: Record): u64 {
    r.chunks * 256 + r.hints % 4
  }

  function RecordBytes(r: Record): (b: Bytes)
    ensures |b| == RECORD_SIZE
  {
    LE(8, r.hash) + LE(8, Bits(r.lastUsed)) + LE(8, Packed(r))
  }

  function Records(rs: seq<Record>): (b: Bytes)
    ensures |b| == RECORD_SIZE * |rs|
  {
    if rs == [] then [] else Records(rs[..|rs| - 1]) + RecordBytes(rs[|rs| - 1])
  }

  lemma RecordsNext(rs: seq<Record>, r: Record)
    ensures Records(rs + [r]) == Records(rs) + RecordBytes(r)
  {
    assert (rs + [r])[..|rs|] == rs;
  }

  function HeadBytes(h: Head): (b: Bytes)
    ensures |b| == 32
  {
    LE(8, h.magic) + LE(4, h.version) + LE(8, h.count) + LE(8, h.cacheSize) + LE(4, h.reason)
  }

  function Payload(h: Head, rs: seq<Record>, modified: i64): (b: Bytes)
    ensures |b| == 40 + RECORD_SIZE * |rs|
  {
    HeadBytes(h) + Records(rs) + LE(8, Bits(modified))
  }

  function Framed(hashes: Hashes, payload: Bytes): (b: Bytes)
    ensures |b| == 8 + |payload|
  {
    LE(4, |payload|) + LE(4, hashes.crc32(payload)) + payload
  }

  // ---------------------------------------------------------------------------
  // Reading
  // ---------------------------------------------------------------------------

  /** The stated payload size is the file's. */
  predicate FrameFits(f: Bytes) {
    |f| >= 8 && |f| == 8 + U32At(f, 0)
  }

  predicate FrameIntact(hashes: Hashes, f: Bytes) {
    FrameFits(f) && U32At(f, 4) == hashes.crc32(f[8..])
  }

  function HeadOf(f: Bytes): Head
    requires |f| >= RECORDS_START
  {
    Head(U64At(f, 8), U32At(f, 16), U64At(f, 20), U64At(f, 28), U32At(f, 36))
  }

  /** One record; nothing when it is cut off or its packed field has more than 38 bits. */
  function RecordAt(f: Bytes, off: nat): Option<Record> {
    if off + RECORD_SIZE > |f| || U64At(f, off + 16) >= 0x40_0000_0000 then None
    else Some(Record(U64At(f, off), FromBits(U64At(f, off + 8)), U64At(f, off + 16) / 256, U64At(f, off + 16) % 4))
  }

  function Masked(r: Record): Record {
    r.(hints := r.hints % 4)
  }

  function MaskAll(rs: seq<Record>): (ms: seq<Record>)
    ensures |ms| == |rs| && forall i | 0 <= i < |rs| :: ms[i] == Masked(rs[i])
  {
    seq(|rs|, i requires 0 <= i < |rs| => Masked(rs[i]))
  }

  lemma ThreeFields(a: Bytes, b: Bytes, c: Bytes)
    requires |a| == |b| == |c| == 8
    ensures var r := a + b + c; r[0..8] == a && r[8..16] == b && r[16..24] == c
  {
  }

  lemma PackedFields(r: Record)
    ensures Packed(r) < 0x40_0000_0000 && Packed(r) / 256 == r.chunks && Packed(r) % 4 == r.hints % 4
  {
    PackedParts(r.chunks, r.hints % 4);
  }

  lemma PackedParts(chunks: nat, bits: nat)
    requires bits < 4
    ensures (chunks * 256 + bits) / 256 == chunks
    ensures (chunks * 256 + bits) % 4 == bits
  {
    assert chunks * 256 + bits == chunks * 64 * 4 + bits;
  }

  lemma U64InSlice(f: Bytes, lo: nat, hi: nat, k: nat)
    requires lo + k + 8 <= hi <= |f|
    ensures U64At(f, lo + k) == FromLE(f[lo..hi][k..k + 8])
  {
    hide FromLE;
    SliceOfSlice(f, lo, hi, lo + k, lo + k + 8);
  }

  /** A record reads back as written, with only the two hint bits. */
  lemma RecordRoundTrip(f: Bytes, off: nat, r: Record)
    requires off + RECORD_SIZE <= |f| && f[off..off + RECORD_SIZE] == RecordBytes(r)
    ensures RecordAt(f, off) == Some(Masked(r))
  {
    hide LE, FromLE, Packed, U64At;
    ThreeFields(LE(8, r.hash), LE(8, Bits(r.lastUsed)), LE(8, Packed(r)));
    RoundTrip64(r.hash);
    RoundTrip64(Bits(r.lastUsed));
    RoundTrip64(Packed(r));
    U64InSlice(f, off, off + RECORD_SIZE, 0);
    U64InSlice(f, off, off + RECORD_SIZE, 8);
    U64InSlice(f, off, off + RECORD_SIZE, 16);
    BitsRoundTrip(r.lastUsed);
    PackedFields(r);
  }

  function At(i: nat): nat {
    RECORDS_START + RECORD_SIZE * i
  }

  /** The file's records, in order, are these. */
  ghost predicate HasRecords(f: Bytes, rs: seq<Record>) {
    forall i | 0 <= i < |rs| :: RecordAt(f, At(i)) == Some(rs[i])
  }

  lemma {:induction false} RecordInRecords(rs: seq<Record>, i: nat)
    requires i < |rs|
    ensures RECORD_SIZE * i + RECORD_SIZE <= |Records(rs)|
    ensures Records(rs)[RECORD_SIZE * i..RECORD_SIZE * i + RECORD_SIZE] == RecordBytes(rs[i])
  {
    hide RecordBytes;
    var n := |rs| - 1;
    if i < n {
      RecordInRecords(rs[..n], i);
      var a, b := RECORD_SIZE * i, RECORD_SIZE * i + RECORD_SIZE;
      PrefixSlice(Records(rs[..n]), RecordBytes(rs[n]), a, b);
    }
  }

  lemma PrefixSlice(x: Bytes, y: Bytes, a: nat, b: nat)
    requires a <= b <= |x|
    ensures (x + y)[a..b] == x[a..b]
  {
  }

  lemma HeadFields(a: Bytes, b: Bytes, c: Bytes, d: Bytes, e: Bytes)
    requires |a| == |c| == |d| == 8 && |b| == |e| == 4
    ensures var h := a + b + c + d + e;
            h[0..8] == a && h[8..12] == b && h[12..20] == c && h[20..28] == d && h[28..32] == e
  {
  }

  lemma HeadRoundTrip(f: Bytes, h: Head)
    requires |f| >= RECORDS_START && f[8..RECORDS_START] == HeadBytes(h)
    ensures HeadOf(f) == h
  {
    hide LE, FromLE;
    HeadFields(LE(8, h.magic), LE(4, h.version), LE(8, h.count), LE(8, h.cacheSize), LE(4, h.reason));
    RoundTrip64(h.magic);
    RoundTrip32(h.version);
    RoundTrip64(h.count);
    RoundTrip64(h.cacheSize);
    RoundTrip32(h.reason);
    SliceOfSlice(f, 8, RECORDS_START, 8, 16);
    SliceOfSlice(f, 8, RECORDS_START, 16, 20);
    SliceOfSlice(f, 8, RECORDS_START, 20, 28);
    SliceOfSlice(f, 8, RECORDS_START, 28, 36);
    SliceOfSlice(f, 8, RECORDS_START, 36, 40);
  }

  lemma FrameRoundTrip(hashes: Hashes, payload: Bytes)
    requires |payload| < U32_LIMIT
    ensures var f := Framed(hashes, payload); FrameIntact(hashes, f) && f[8..] == payload
  {
    hide LE, FromLE;
    var f := Framed(hashes, payload);
    RoundTrip32(|payload|);
    RoundTrip32(hashes.crc32(payload));
    assert f[0..4] == LE(4, |payload|) && f[4..8] == LE(4, hashes.crc32(payload));
    assert f[8..] == payload;
  }

  lemma SuffixSlice(f: Bytes, payload: Bytes, a: nat, b: nat)
    requires |f| >= 8 && f[8..] == payload && a <= b <= |payload|
    ensures f[8 + a..8 + b] == payload[a..b]
  {
  }

  lemma PayloadPieces(h: Head, rs: seq<Record>, modified: i64)
    ensures var p, n := Payload(h, rs, modified), 32 + RECORD_SIZE * |rs|;
            p[0..32] == HeadBytes(h) && p[32..n] == Records(rs) && p[n..n + 8] == LE(8, Bits(modified))
  {
    hide HeadBytes, Records, LE, Bits, Payload;
    var a, b, c := HeadBytes(h), Records(rs), LE(8, Bits(modified));
    PayloadIs(h, rs, modified, a, b, c);
    ThreePieces(a, b, c, 32, 32 + RECORD_SIZE * |rs|);
  }

  lemma PayloadIs(h: Head, rs: seq<Record>, modified: i64, a: Bytes, b: Bytes, c: Bytes)
    requires a == HeadBytes(h) && b == Records(rs) && c == LE(8, Bits(modified))
    ensures Payload(h, rs, modified) == a + b + c
  {
    hide HeadBytes, Records, LE, Bits;
  }

  lemma ThreePieces(a: Bytes, b: Bytes, c: Bytes, i: nat, j: nat)
    requires i == |a| && j == i + |b|
    ensures var s := a + b + c; |s| == j + |c| && s[0..i] == a && s[i..j] == b && s[j..j + |c|] == c
  {
    var s := a + b + c;
    assert forall k | 0 <= k < |c| :: s[j..j + |c|][k] == c[k];
    assert forall k | 0 <= k < |b| :: s[i..j][k] == b[k];
  }

  /** What was framed is found again: frame, head, every record and the time. */
  lemma FileRoundTrip(hashes: Hashes, h: Head, rs: seq<Record>, modified: i64)
    requires 40 + RECORD_SIZE * |rs| < U32_LIMIT
    ensures var f := Framed(hashes, Payload(h, rs, modified));
            && |f| == At(|rs|) + 8
            && FrameIntact(hashes, f) && HeadOf(f) == h && HasRecords(f, MaskAll(rs))
            && FromBits(U64At(f, At(|rs|))) == modified
  {
    hide HeadBytes, Records, LE, FromLE, Framed, Payload, FrameIntact, HeadOf, RecordAt;
    var p := Payload(h, rs, modified);
    var f, n := Framed(hashes, p), 32 + RECORD_SIZE * |rs|;
    FrameRoundTrip(hashes, p);
    PayloadPieces(h, rs, modified);
    SuffixSlice(f, p, 0, 32);
    HeadRoundTrip(f, h);
    SuffixSlice(f, p, n, n + 8);
    RoundTrip64(Bits(modified));
    BitsRoundTrip(modified);
    forall i | 0 <= i < |rs|
      ensures RecordAt(f, At(i)) == Some(MaskAll(rs)[i])
    {
      RecordInFile(f, p, rs, i);
    }
  }

  lemma RecordInFile(f: Bytes, p: Bytes, rs: seq<Record>, i: nat)
    requires i < |rs| && |f| >= 8 && f[8..] == p && |p| >= 32 + RECORD_SIZE * |rs|
    requires p[32..32 + RECORD_SIZE * |rs|] == Records(rs)
    ensures RecordAt(f, At(i)) == Some(Masked(rs[i]))
  {
    hide Records, RecordBytes, RecordAt, Masked;
    var a := RECORD_SIZE * i;
    RecordInRecords(rs, i);
    NestedSlice(f, p, Records(rs), a, a + RECORD_SIZE);
    RecordRoundTrip(f, At(i), rs[i]);
  }

  /** A slice of the records, found in the file around the payload around them. */
  lemma NestedSlice(f: Bytes, p: Bytes, records: Bytes, a: nat, b: nat)
    requires |f| >= 8 && f[8..] == p && |p| >= 32 + |records| && p[32..32 + |records|] == records
    requires a <= b <= |records|
    ensures f[RECORDS_START + a..RECORDS_START + b] == records[a..b]
  {
    SuffixSlice(f, p, 32 + a, 32 + b);
    SliceOfSlice(p, 32, 32 + |records|, 32 + a, 32 + b);
  }
}
