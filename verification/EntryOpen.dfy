/**
 Opening an entry file: the header check, the tail checks that recover both stream
 sizes and stream 0, and the prefetch buffer the reads may be served from.
 */
module EntryOpen {
  import opened ByteSeqs
  import opened EntryFormat
  import opened DenseEntry

  const INITIAL_HEADER_READ: nat := 65536

  /** Stream sizes for which all file offsets are within 63 bits. */
  const OFFSET_LIMIT: nat := 0x4000_0000_0000_0000

  // ---------------------------------------------------------------------------
  // What an open without prefetch decides
  // ---------------------------------------------------------------------------

  /** The key in the file header, when magic, version, length and key hash are right. */
  function HeaderKey(hashes: Hashes, f: Bytes): Option<Bytes> {
    if |f| < FILE_HEADER_SIZE || FromLE(f[0..8]) != INITIAL_MAGIC || FromLE(f[8..12]) != ENTRY_VERSION then None
    else
      var end := FILE_HEADER_SIZE + FromLE(f[12..16]);
      if |f| < end || hashes.keyHash(f[FILE_HEADER_SIZE..end]) != FromLE(f[16..20]) then None
      else Some(f[FILE_HEADER_SIZE..end])
  }

  datatype OpenResult = Opened(key: Bytes, stat: EntryStat, stream0: Bytes) | OpenFailed

  function EofAt(f: Bytes, off: int): Option<Eof> {
    if off < 0 || off + EOF_SIZE > |f| then None
    else
      var e := ReadEof(f[off..off + EOF_SIZE]);
      if e.magic != FINAL_MAGIC || e.streamSize > INT_MAX then None else Some(e)
  }

  function Extra(e: Eof): nat {
    if HasKeySha256(e) then SHA256_SIZE else 0
  }

  function Stream1Size(f: Bytes, keyLength: nat, e: Eof): int {
    |f| - 2 * EOF_SIZE - e.streamSize - FILE_HEADER_SIZE - keyLength - Extra(e)
  }

  predicate CrcMatches(hashes: Hashes, e: Eof, data: Bytes) {
    HasCrc32(e) ==> e.crc == hashes.crc32(data)
  }

  /** The checks made from the tail of the file, for a known key. */
  function OpenTail(hashes: Hashes, f: Bytes, key: Bytes): OpenResult {
    match EofAt(f, |f| - EOF_SIZE)
    case None => OpenFailed
    case Some(e) =>
      var size0, extra, size1 := e.streamSize, Extra(e), Stream1Size(f, |key|, e);
      if size0 > |f| || size1 < 0 || size0 + extra > INT_MAX then OpenFailed
      else
        var at := OffsetInFile(EntryStat(size0, size1), |key|, 0, 0);
        var data := f[at..at + size0];
        if !CrcMatches(hashes, e, data) then OpenFailed
        else if extra > 0 && f[at + size0..at + size0 + SHA256_SIZE] != hashes.sha256(key) then OpenFailed
        else Opened(key, EntryStat(size0, size1), data)
  }

  /** An open: with a known key the header is consulted only when the tail carries no key digest. */
  function OpenSpec(hashes: Hashes, f: Bytes, key: Option<Bytes>): OpenResult {
    match key
    case None => (match HeaderKey(hashes, f) case None => OpenFailed case Some(k) => OpenTail(hashes, f, k))
    case Some(k) =>
      var r := OpenTail(hashes, f, k);
      if r.Opened? && !HasKeySha256(EofAt(f, |f| - EOF_SIZE).value) && HeaderKey(hashes, f) != Some(k) then OpenFailed
      else r
  }

  /** Stream 1's own record and checksum, which only a prefetched open looks at. */
  ghost predicate Stream1Ok(hashes: Hashes, f: Bytes, key: Bytes, st: EntryStat) {
    var at := FILE_HEADER_SIZE + |key|;
    var e := EofAt(f, at + st.size1);
    e.Some? && st.size1 <= INT_MAX && CrcMatches(hashes, e.value, f[at..at + st.size1])
  }

  /** An open that succeeds has found the checksum of stream 0 that the last record stores, if it stores one. */
  lemma ChecksumCompared(hashes: Hashes, f: Bytes, key: Option<Bytes>)
    requires OpenSpec(hashes, f, key).Opened?
    ensures |f| >= 48
    ensures FromLE(f[|f| - 16..|f| - 12]) % 2 == 1 ==>
              hashes.crc32(OpenSpec(hashes, f, key).stream0) == FromLE(f[|f| - 12..|f| - 8])
  {
    hide FromLE, HeaderKey;
    SliceOfSlice(f, |f| - EOF_SIZE, |f|, |f| - 16, |f| - 12);
    SliceOfSlice(f, |f| - EOF_SIZE, |f|, |f| - 12, |f| - 8);
  }

  // ---------------------------------------------------------------------------
  // Opening what was closed
  // ---------------------------------------------------------------------------

  /** A stream 0 record that the tail checks accept for these bytes. */
  ghost predicate GoodEof0(hashes: Hashes, p: Parts, e: Eof) {
    && p.eof0 == EofBytes(e)
    && e.magic == FINAL_MAGIC && e.streamSize == |p.stream0| <= INT_MAX
    && CrcMatches(hashes, e, p.stream0)
    && p.digest == if HasKeySha256(e) then hashes.sha256(p.key) else []
  }

  ghost predicate GoodEof1(hashes: Hashes, p: Parts, e: Eof) {
    p.eof1 == EofBytes(e) && e.magic == FINAL_MAGIC && e.streamSize == 0 && CrcMatches(hashes, e, p.stream1)
  }

  lemma EofAtEnd(f: Bytes, p: Parts, e: Eof)
    requires WellSized(p) && Holds(f, p) && p.eof0 == EofBytes(e)
    requires e.magic == FINAL_MAGIC && e.streamSize <= INT_MAX
    ensures EofAt(f, |f| - EOF_SIZE) == Some(e)
  {
    hide EofBytes, ReadEof;
    EofRoundTrip(e);
    assert f[|f| - EOF_SIZE..|f| - EOF_SIZE + EOF_SIZE] == f[|f| - EOF_SIZE..];
  }

  /** The tail checks recover key, sizes and stream 0 exactly when the size limit for stream 0 is met. */
  lemma TailRecovers(hashes: Hashes, f: Bytes, p: Parts, e: Eof)
    requires WellSized(p) && Holds(f, p) && GoodEof0(hashes, p, e)
    ensures OpenTail(hashes, f, p.key)
         == if |p.stream0| + Extra(e) <= INT_MAX
            then Opened(p.key, EntryStat(|p.stream0|, |p.stream1|), p.stream0) else OpenFailed
  {
    hide EofAt, EofBytes;
    EofAtEnd(f, p, e);
    assert Stream1Size(f, |p.key|, e) == |p.stream1|;
  }

  /** The header gives back the key it was written for. */
  lemma HeaderRecovers(hashes: Hashes, f: Bytes, p: Parts)
    requires WellSized(p) && Holds(f, p) && |p.key| < U32_LIMIT
    requires p.header == FileHeader(ENTRY_VERSION, |p.key|, hashes.keyHash(p.key))
    ensures HeaderKey(hashes, f) == Some(p.key)
  {
    hide FileHeader;
    FileHeaderFields(ENTRY_VERSION, |p.key|, hashes.keyHash(p.key));
    var h := f[..FILE_HEADER_SIZE];
    assert f[0..8] == h[0..8] && f[8..12] == h[8..12] && f[12..16] == h[12..16] && f[16..20] == h[16..20];
  }

  /** Any well-formed file opens, with the key or without, if and only if stream 0 is small enough. */
  lemma OpenRecovers(hashes: Hashes, f: Bytes, p: Parts, e: Eof, key: Option<Bytes>)
    requires WellSized(p) && Holds(f, p) && GoodEof0(hashes, p, e) && |p.key| < U32_LIMIT
    requires p.header == FileHeader(ENTRY_VERSION, |p.key|, hashes.keyHash(p.key))
    requires key == None || key == Some(p.key)
    ensures OpenSpec(hashes, f, key)
         == if |p.stream0| + Extra(e) <= INT_MAX
            then Opened(p.key, EntryStat(|p.stream0|, |p.stream1|), p.stream0) else OpenFailed
  {
    hide HeaderKey, OpenTail, FileHeader, Holds;
    HeaderRecovers(hashes, f, p);
    TailRecovers(hashes, f, p, e);
  }

  /** The stream 1 checks also pass. */
  lemma Stream1Recovers(hashes: Hashes, f: Bytes, p: Parts, e1: Eof)
    requires WellSized(p) && Holds(f, p) && GoodEof1(hashes, p, e1)
    requires |p.stream1| <= INT_MAX
    ensures Stream1Ok(hashes, f, p.key, EntryStat(|p.stream0|, |p.stream1|))
  {
    hide EofBytes, ReadEof;
    EofRoundTrip(e1);
    var at := HeaderEnd(p) + |p.stream1|;
    assert f[at..at + EOF_SIZE] == p.eof1;
  }

  /** The records that close writes are acceptable when the checksums given are right. */
  lemma ClosedGood(hashes: Hashes, key: Bytes, stream1: Bytes, stream0: Bytes, r0: CrcRecord, r1: CrcRecord)
    requires r0.index == 0 && r1.index == 1
    requires r0.hasCrc ==> r0.crc == hashes.crc32(stream0)
    requires r1.hasCrc ==> r1.crc == hashes.crc32(stream1)
    requires |stream0| <= INT_MAX
    ensures var p := ClosedParts(hashes, key, stream1, stream0, r0, r1);
            var e0, e1 := EofFor(hashes, stream0, r0), EofFor(hashes, stream0, r1);
            && WellSized(p) && p.key == key && p.stream1 == stream1 && p.stream0 == stream0
            && p.header == FileHeader(ENTRY_VERSION, |key|, hashes.keyHash(key))
            && GoodEof0(hashes, p, e0) && HasKeySha256(e0) && GoodEof1(hashes, p, e1)
  {
    hide FileHeader, EofBytes;
  }

  /** Closed with a record for each stream, a file opens with both streams, if and only if stream 0 is small enough. */
  lemma CloseThenOpen(hashes: Hashes, f: Bytes, key: Bytes, stream1: Bytes, stream0: Bytes,
                      r0: CrcRecord, r1: CrcRecord, rs: seq<CrcRecord>)
    requires r0.index == 0 && r1.index == 1 && (rs == [r0, r1] || rs == [r1, r0])
    requires r0.hasCrc ==> r0.crc == hashes.crc32(stream0)
    requires r1.hasCrc ==> r1.crc == hashes.crc32(stream1)
    requires |stream0| <= INT_MAX && |key| < U32_LIMIT
    requires var h := FILE_HEADER_SIZE + |key|;
             && h + |stream1| <= |f|
             && f[..FILE_HEADER_SIZE] == FileHeader(ENTRY_VERSION, |key|, hashes.keyHash(key))
             && f[FILE_HEADER_SIZE..h] == key
             && f[h..h + |stream1|] == stream1
    ensures var st := EntryStat(|stream0|, |stream1|);
            var f' := FileAfterRecords(hashes, f, key, st, stream0, rs);
            var small := |stream0| + SHA256_SIZE <= INT_MAX;
            && OpenSpec(hashes, f', Some(key)) == (if small then Opened(key, st, stream0) else OpenFailed)
            && OpenSpec(hashes, f', None) == (if small then Opened(key, st, stream0) else OpenFailed)
            && |f'| >= FILE_HEADER_SIZE + |key| + |stream1|
            && f'[FILE_HEADER_SIZE + |key|..FILE_HEADER_SIZE + |key| + |stream1|] == stream1
            && (Stream1Ok(hashes, f', key, st) <==> |stream1| <= INT_MAX)
  {
    hide FileHeader, EofBytes, Assemble, FileAfterRecords, OpenSpec, Stream1Ok, EofFor, ClosedParts;
    var p := ClosedParts(hashes, key, stream1, stream0, r0, r1);
    var e0, e1 := EofFor(hashes, stream0, r0), EofFor(hashes, stream0, r1);
    ClosedGood(hashes, key, stream1, stream0, r0, r1);
    var f' := FileAfterRecords(hashes, f, key, EntryStat(|stream0|, |stream1|), stream0, rs);
    CloseAssembles(hashes, f, key, stream1, stream0, r0, r1, rs);
    HoldsIsAssemble(f', p);
    OpenRecovers(hashes, f', p, e0, Some(key));
    OpenRecovers(hashes, f', p, e0, None);
    if |stream1| <= INT_MAX {
      Stream1Recovers(hashes, f', p, e1);
    }
    Stream1Limit(hashes, f', key, EntryStat(|stream0|, |stream1|));
  }

  lemma Stream1Limit(hashes: Hashes, f: Bytes, key: Bytes, st: EntryStat)
    ensures Stream1Ok(hashes, f, key, st) ==> st.size1 <= INT_MAX
  {
  }

  // ---------------------------------------------------------------------------
  // The prefetch buffer
  // ---------------------------------------------------------------------------

  class PrefetchData {
    const file: Bytes
    var buffer: Bytes
    var offsetInFile: nat
    var earliest: nat

    /** Number of reads that went to the file after the prefetch. */
    var fileReads: nat

    ghost predicate Valid()
      reads this
    {
      && earliest <= |file|
      && offsetInFile + |buffer| <= |file|
      && buffer == file[offsetInFile..offsetInFile + |buffer|]
    }

    constructor (file: Bytes)
      ensures Valid() && this.file == file && buffer == [] && offsetInFile == 0
      ensures earliest == |file| && fileReads == 0
    {
      this.file := file;
      buffer, offsetInFile, earliest, fileReads := [], 0, |file|, 0;
    }

    predicate Covered(offset: nat, length: nat)
      reads this
    {
      offset + length < U64_LIMIT && offsetInFile <= offset && offset + length <= offsetInFile + |buffer|
    }

    /** The buffer holds the file from `start` to its end; nothing if `start` is the end. */
    ghost predicate HoldsFrom(start: nat)
      reads this
    {
      (buffer == [] && start == |file|) || (offsetInFile == start && start + |buffer| == |file|)
    }

    /** With the buffer holding the end of the file, just what starts in it is covered. */
    lemma CoversFrom(start: nat, offset: nat, length: nat)
      requires Valid() && HoldsFrom(start) && length > 0 && offset + length <= |file| < U64_LIMIT
      ensures Covered(offset, length) <==> start <= offset
    {
    }

    method HasData(offset: nat, length: nat) returns (has: bool)
      requires Valid()
      modifies this`earliest
      ensures Valid() && has == Covered(offset, length)
      ensures earliest == if offset + length < U64_LIMIT then Min(old(earliest), offset) else old(earliest)
    {
      if offset + length >= U64_LIMIT { return false; }
      earliest := Min(earliest, offset);
      return offset >= offsetInFile && offset + length <= offsetInFile + |buffer|;
    }

    method PrefetchFromFile(offset: nat, length: nat) returns (ok: bool)
      requires Valid()
      modifies this`buffer, this`offsetInFile
      ensures Valid()
      ensures ok == (old(buffer) == [] && offset + length <= |file|)
      ensures ok ==> offsetInFile == offset && |buffer| == length
      ensures !ok ==> buffer == old(buffer) && offsetInFile == old(offsetInFile)
    {
      if buffer != [] { return false; }
      if offset + length > |file| { return false; }
      buffer, offsetInFile := file[offset..offset + length], offset;
      return true;
    }

    /** Read from the buffer when it covers the range, else from the file; either way the bytes are the file's. */
    method Read(offset: int, size: nat) returns (ok: bool, data: Bytes)
      requires Valid() && |file| < U64_LIMIT
      modifies this`earliest, this`fileReads
      ensures Valid()
      ensures ok == (0 <= offset && (size == 0 || offset + size <= |file|))
      ensures ok && size > 0 ==> data == file[offset..offset + size]
      ensures ok && size == 0 ==> data == []
      ensures earliest == if offset >= 0 && size > 0 && offset + size < U64_LIMIT then Min(old(earliest), offset)
                          else old(earliest)
      ensures fileReads == old(fileReads) + if offset >= 0 && size > 0 && !Covered(offset, size) then 1 else 0
    {
      data := [];
      if offset < 0 { return false, []; }
      if size == 0 { return true, []; }
      var has := HasData(offset, size);
      if has {
        SliceOfSlice(file, offsetInFile, offsetInFile + |buffer|, offset, offset + size);
        return true, buffer[offset - offsetInFile..offset - offsetInFile + size];
      }
      fileReads := fileReads + 1;
      if offset + size <= |file| {
        return true, file[offset..offset + size];
      }
      return false, [];
    }

    /** The requested trailing length, cut to 32 bits. */
    method DesiredTrailerPrefetchSize() returns (n: nat)
      requires Valid()
      ensures n == (|file| - earliest) % U32_LIMIT
    {
      n := (|file| - earliest) % U32_LIMIT;
    }
  }

  /** The hint a saturating 32-bit minimum would give. */
  function SaturatedTrailer(length: nat): u32 {
    Min(length, U32_LIMIT - 1)
  }

  /** Truncating differs from saturating exactly from 2^32 on, except just below a multiple of it; 2^32 gives 0. */
  lemma TruncationDiffers(length: nat)
    ensures length % U32_LIMIT != SaturatedTrailer(length)
        <==> length >= U32_LIMIT && length % U32_LIMIT != U32_LIMIT - 1
    ensures length == U32_LIMIT ==> length % U32_LIMIT == 0 != SaturatedTrailer(length)
  {
  }

  /** No open gets that far: after stream 0 has been read, its trailer is below 2^32 and the hint is exact. */
  lemma TrailerFits(hashes: Hashes, f: Bytes, key: Bytes)
    requires OpenTail(hashes, f, key).Opened?
    ensures var st := OpenTail(hashes, f, key).stat;
            var length := |f| - OffsetInFile(st, |key|, 0, 0);
            0 <= length && length % U32_LIMIT == SaturatedTrailer(length) == length
  {
    hide ReadEof, HasKeySha256;
  }

  /** Sizes that the prefetch feature sets, 0 when it is off: of small files read whole, and of trailers read ahead. */
  datatype Settings = Settings(fullSize: u32, speculative: u32)

  /** A hint that is positive as a signed number takes precedence; any other is ignored. */
  function TrailerSize(settings: Settings, hint: u32): u32 {
    if Signed(hint) > 0 then hint else settings.speculative
  }

  /**
   The trailer that close estimates comes back as a usable hint if and only if it is within `int`; otherwise it has
   become negative and the next open ignores it.
   */
  lemma HintSurvives(settings: Settings, size0: nat)
    requires size0 <= INT_MAX
    ensures var n := size0 + SHA256_SIZE + EOF_SIZE;
            var hint := Signed(n) % U32_LIMIT;
            && (Signed(n) == n <==> n <= INT_MAX)
            && (Signed(n) > 0 <==> n <= INT_MAX)
            && TrailerSize(settings, hint) == if n <= INT_MAX then n else settings.speculative
  {
  }

  /** The largest stream 0 that can be opened: its estimate is negative, and the hint is lost. */
  lemma LargestHintLost(settings: Settings)
    ensures var n := INT_MAX - SHA256_SIZE + SHA256_SIZE + EOF_SIZE;
            Signed(n) == -2147483625 && TrailerSize(settings, Signed(n) % U32_LIMIT) == settings.speculative
  {
  }

  /** Where the prefetched part of the file starts: 0 for the whole file, its length when nothing is prefetched. */
  function PrefetchStart(f: Bytes, settings: Settings, hint: u32): (start: nat)
    ensures start <= |f|
  {
    var trailer := TrailerSize(settings, hint);
    if |f| <= settings.fullSize || |f| <= trailer then 0
    else if trailer > 0 then |f| - trailer
    else |f|
  }

  // ---------------------------------------------------------------------------
  // The open itself
  // ---------------------------------------------------------------------------

  /**
   Read and check header and key; a missing `key` is filled in from the header. The bytes always come from the file:
   in one read, or in two when the key turns out to be longer than expected.
   */
  method CheckHeaderAndKey(hashes: Hashes, f: Bytes, key: Option<Bytes>) returns (found: Option<Bytes>, count: nat)
    ensures found == if key == None || HeaderKey(hashes, f) == key then HeaderKey(hashes, f) else None
    ensures 1 <= count <= 2
    ensures found.Some? ==> (count == 2 <==> key == None && FILE_HEADER_SIZE + |found.value| > INITIAL_HEADER_READ)
  {
    count := 1;
    var want := if key == None then INITIAL_HEADER_READ else FILE_HEADER_SIZE + |key.value|;
    var header := ReadUpTo(f, 0, want);
    if |header| < FILE_HEADER_SIZE { return None, count; }
    HeaderPrefix(f, want);
    if FromLE(header[0..8]) != INITIAL_MAGIC { return None, count; }
    if FromLE(header[8..12]) != ENTRY_VERSION { return None, count; }
    var keyLength := FromLE(header[12..16]);
    var storedHash := FromLE(header[16..20]);
    if |header| < FILE_HEADER_SIZE + keyLength {
      count := 2;
      if |f| < FILE_HEADER_SIZE + keyLength { return None, count; }
      header := header + f[|header|..FILE_HEADER_SIZE + keyLength];
      assert header == f[..|header|];
    }
    var fromHeader := header[FILE_HEADER_SIZE..FILE_HEADER_SIZE + keyLength];
    SliceOfSlice(f, 0, |header|, FILE_HEADER_SIZE, FILE_HEADER_SIZE + keyLength);
    if hashes.keyHash(fromHeader) != storedHash { return None, count; }
    if key != None && key.value != fromHeader { return None, count; }
    return Some(fromHeader), count;
  }

  lemma HeaderPrefix(f: Bytes, want: nat)
    requires |ReadUpTo(f, 0, want)| >= FILE_HEADER_SIZE
    ensures var h := ReadUpTo(f, 0, want);
            && |h| <= |f| && h == f[..|h|]
            && h[0..8] == f[0..8] && h[8..12] == f[8..12] && h[12..16] == f[12..16] && h[16..20] == f[16..20]
  {
  }

  method GetEofRecordData(pd: PrefetchData, offset: int) returns (e: Option<Eof>)
    requires pd.Valid() && |pd.file| < U64_LIMIT
    modifies pd`earliest, pd`fileReads
    ensures pd.Valid() && e == EofAt(pd.file, offset)
    ensures e.Some? ==> pd.earliest == Min(old(pd.earliest), offset)
    ensures pd.fileReads == old(pd.fileReads) + if offset >= 0 && !pd.Covered(offset, EOF_SIZE) then 1 else 0
  {
    hide ReadEof;
    var ok, data := pd.Read(offset, EOF_SIZE);
    if !ok { return None; }
    var record := ReadEof(data);
    if record.magic != FINAL_MAGIC { return None; }
    if record.streamSize > INT_MAX { return None; }
    return Some(record);
  }

  /** Read a stream's payload plus `extra` bytes after it, and check the payload's checksum. */
  method PreReadStreamPayload(hashes: Hashes, pd: PrefetchData, at: nat, size: nat, extra: nat, e: Eof)
    returns (data: Option<Bytes>)
    requires pd.Valid() && |pd.file| < U64_LIMIT && at + size + extra <= |pd.file|
    modifies pd`earliest, pd`fileReads
    ensures pd.Valid()
    ensures data == if size + extra > INT_MAX || !CrcMatches(hashes, e, pd.file[at..at + size]) then None
                    else Some(pd.file[at..at + size + extra])
    ensures e.flags % 2 == 1 && e.crc != hashes.crc32(pd.file[at..at + size]) ==> data == None
    ensures pd.earliest == if size + extra == 0 || size + extra > INT_MAX then old(pd.earliest)
                           else Min(old(pd.earliest), at)
    ensures pd.fileReads == old(pd.fileReads)
                            + if 0 < size + extra <= INT_MAX && !pd.Covered(at, size + extra) then 1 else 0
  {
    if size + extra > INT_MAX { return None; }
    var ok, bytes := pd.Read(at, size + extra);
    if !ok { return None; }
    assert bytes == pd.file[at..at + size + extra];
    assert bytes[..size] == pd.file[at..at + size];
    if HasCrc32(e) && e.crc != hashes.crc32(bytes[..size]) { return None; }
    return Some(bytes);
  }

  /** Prefetch the whole file, its trailer, or nothing. */
  method Prefetch(pd: PrefetchData, settings: Settings, hint: u32)
    requires pd.Valid() && pd.buffer == [] && pd.offsetInFile == 0
    modifies pd`buffer, pd`offsetInFile
    ensures pd.Valid()
    ensures pd.HoldsFrom(PrefetchStart(pd.file, settings, hint))
  {
    var trailerSize := if Signed(hint) > 0 then hint else settings.speculative;
    if |pd.file| <= settings.fullSize || |pd.file| <= trailerSize {
      var ok := pd.PrefetchFromFile(0, |pd.file|);
    } else if trailerSize > 0 {
      var length := Min(trailerSize, |pd.file|);
      var ok := pd.PrefetchFromFile(|pd.file| - length, length);
    }
  }

  /** Reads of stream 0's record and data that the prefetched part from `start` on does not serve. */
  function DataReads(f: Bytes, at: nat, start: nat): nat {
    (if start <= |f| - EOF_SIZE then 0 else 1) + (if start <= at || at == |f| - EOF_SIZE then 0 else 1)
  }

  /** Reads of header and key: always for an unknown key, and for a known one that the file has no digest of. */
  function HeaderReads(known: bool, keyLength: nat, digest: bool): nat {
    if !known then (if FILE_HEADER_SIZE + keyLength > INITIAL_HEADER_READ then 2 else 1) else if digest then 0 else 1
  }

  /** Only the prefetch is read exactly when the key is known, the digest there and the prefetch reaches stream 0. */
  lemma NoFurtherRead(f: Bytes, at: nat, start: nat, known: bool, keyLength: nat, digest: bool)
    requires at + EOF_SIZE <= |f|
    ensures HeaderReads(known, keyLength, digest) + DataReads(f, at, start) == 0 <==> known && digest && start <= at
  {
  }

  /** Open with prefetch: what is decided, what the next open should prefetch, and every read besides the prefetch. */
  method OpenEntry(hashes: Hashes, f: Bytes, key: Option<Bytes>, settings: Settings, hint: u32)
    returns (r: OpenResult, stream1: Option<Bytes>, trailer: nat, fileReads: nat)
    requires |f| < U64_LIMIT
    ensures var spec := OpenSpec(hashes, f, key);
            var start := PrefetchStart(f, settings, hint);
            && (r.Opened? ==> r == spec)
            && (r.Opened? <==> spec.Opened? && Stream1Passes(hashes, f, spec, start))
            && (r.Opened? ==>
                  && EofAt(f, |f| - EOF_SIZE).Some?
                  && var e := EofAt(f, |f| - EOF_SIZE).value;
                  && trailer == r.stat.size0 + Extra(e) + EOF_SIZE
                  && fileReads == HeaderReads(key != None, |r.key|, HasKeySha256(e))
                                  + DataReads(f, OffsetInFile(r.stat, |r.key|, 0, 0), start))
            && (r.Opened? && SeesStream1(f, spec, start) ==>
                  var at := FILE_HEADER_SIZE + |r.key|; stream1 == Some(f[at..at + r.stat.size1]))
    ensures r.Opened? ==> |f| >= 48
    ensures r.Opened? && FromLE(f[|f| - 16..|f| - 12]) % 2 == 1 ==>
              hashes.crc32(r.stream0) == FromLE(f[|f| - 12..|f| - 8])
  {
    hide DataReads, PrefetchStart, OpenTail, HeaderKey, EofAt, Stream1Ok, Extra, HasKeySha256;
    r, stream1, trailer, fileReads := OpenFailed, None, 0, 0;
    var known, headerReads := key, 0;
    if key == None {
      known, headerReads := CheckHeaderAndKey(hashes, f, None);
      if known == None { return; }
    }
    var k := known.value;
    TailKey(hashes, f, k);
    r, stream1, trailer, fileReads := ReadAndValidateStreams(hashes, f, k, settings, hint);
    if r.Opened? && key != None && !HasKeySha256(EofAt(f, |f| - EOF_SIZE).value) {
      var found: Option<Bytes>;
      found, headerReads := CheckHeaderAndKey(hashes, f, known);
      if found == None { r := OpenFailed; }
    }
    fileReads := fileReads + headerReads;
    if r.Opened? { ChecksumCompared(hashes, f, key); }
  }

  lemma TailKey(hashes: Hashes, f: Bytes, key: Bytes)
    ensures OpenTail(hashes, f, key).Opened? ==> OpenTail(hashes, f, key).key == key
  {
    hide EofAt;
  }

  /** Stream 1 is looked at when the key digest is there and the prefetched part reaches back to its start. */
  ghost predicate SeesStream1(f: Bytes, r: OpenResult, start: nat) {
    r.Opened? && EofAt(f, |f| - EOF_SIZE).Some? && HasKeySha256(EofAt(f, |f| - EOF_SIZE).value)
    && start <= FILE_HEADER_SIZE + |r.key|
  }

  /** Where stream 1 is looked at, it has to be right. */
  ghost predicate Stream1Passes(hashes: Hashes, f: Bytes, r: OpenResult, start: nat) {
    r.Opened? && SeesStream1(f, r, start) ==> Stream1Ok(hashes, f, r.key, r.stat)
  }

  method ReadAndValidateStreams(hashes: Hashes, f: Bytes, key: Bytes, settings: Settings, hint: u32)
    returns (r: OpenResult, stream1: Option<Bytes>, trailer: nat, fileReads: nat)
    requires |f| < U64_LIMIT
    ensures var spec := OpenTail(hashes, f, key);
            var start := PrefetchStart(f, settings, hint);
            && (r.Opened? ==> r == spec)
            && (r.Opened? <==> spec.Opened? && Stream1Passes(hashes, f, spec, start))
            && (r.Opened? ==>
                  && EofAt(f, |f| - EOF_SIZE).Some?
                  && trailer == r.stat.size0 + Extra(EofAt(f, |f| - EOF_SIZE).value) + EOF_SIZE
                  && fileReads == DataReads(f, OffsetInFile(r.stat, |key|, 0, 0), start))
            && (r.Opened? && SeesStream1(f, spec, start) ==>
                  var at := FILE_HEADER_SIZE + |r.key|; stream1 == Some(f[at..at + r.stat.size1]))
  {
    hide EofAt, Stream1Ok, PrefetchStart, Extra, HasKeySha256;
    r, stream1, trailer, fileReads := OpenFailed, None, 0, 0;
    var pd := new PrefetchData(f);
    Prefetch(pd, settings, hint);
    ghost var start := PrefetchStart(f, settings, hint);
    var eof0, data := ReadStream0(hashes, pd, key);
    if data == None { return; }
    trailer := pd.DesiredTrailerPrefetchSize();
    var st := EntryStat(eof0.streamSize, Stream1Size(f, |key|, eof0));
    if HasKeySha256(eof0) {
      var ok: bool;
      ok, stream1 := ReadStream1(hashes, pd, key, st, start);
      if !ok { return; }
      if hashes.sha256(key) != data.value[st.size0..] { return; }
    }
    ghost var at := OffsetInFile(st, |key|, 0, 0);
    pd.CoversFrom(start, |f| - EOF_SIZE, EOF_SIZE);
    if st.size0 + Extra(eof0) > 0 { pd.CoversFrom(start, at, st.size0 + Extra(eof0)); }
    fileReads := pd.fileReads;
    r := Opened(key, st, data.value[..st.size0]);
  }

  /** Without a good record, or with sizes that do not fit, the tail checks fail. */
  lemma NoTail(hashes: Hashes, f: Bytes, key: Bytes)
    ensures var e := EofAt(f, |f| - EOF_SIZE);
            (e.Some? ==> e.value.streamSize > |f| || !(0 <= Stream1Size(f, |key|, e.value) <= |f|))
            ==> OpenTail(hashes, f, key) == OpenFailed
  {
    hide EofAt;
  }

  /** Where stream 0 and its record are. */
  lemma TailPlaces(f: Bytes, key: Bytes, e: Eof)
    requires |f| >= EOF_SIZE && Stream1Size(f, |key|, e) >= 0
    ensures var st := EntryStat(e.streamSize, Stream1Size(f, |key|, e));
            var at := OffsetInFile(st, |key|, 0, 0);
            && at + e.streamSize + Extra(e) + EOF_SIZE == |f|
            && Extra(e) == if HasKeySha256(e) then SHA256_SIZE else 0
  {
    hide HasKeySha256;
  }

  /** What the tail checks decide, in terms of stream 0 and what follows it read in one piece. */
  lemma TailDecided(hashes: Hashes, f: Bytes, key: Bytes, e: Eof)
    requires EofAt(f, |f| - EOF_SIZE) == Some(e) && e.streamSize <= |f| && Stream1Size(f, |key|, e) >= 0
    ensures var st := EntryStat(e.streamSize, Stream1Size(f, |key|, e));
            var at := OffsetInFile(st, |key|, 0, 0);
            && at + st.size0 + Extra(e) <= |f|
            && var data := f[at..at + st.size0 + Extra(e)];
            OpenTail(hashes, f, key)
            == if st.size0 + Extra(e) > INT_MAX || !CrcMatches(hashes, e, f[at..at + st.size0]) then OpenFailed
               else if HasKeySha256(e) && data[st.size0..] != hashes.sha256(key) then OpenFailed
               else Opened(key, st, data[..st.size0])
  {
    hide EofAt, HasKeySha256, CrcMatches;
    var st := EntryStat(e.streamSize, Stream1Size(f, |key|, e));
    var at := OffsetInFile(st, |key|, 0, 0);
    SliceOfSlice(f, at, at + st.size0 + Extra(e), at, at + st.size0);
    SliceOfSlice(f, at, at + st.size0 + Extra(e), at + st.size0, at + st.size0 + Extra(e));
  }

  /** The stream 0 record, the sizes it implies, and stream 0 with the key digest after it if there is one. */
  method ReadStream0(hashes: Hashes, pd: PrefetchData, key: Bytes) returns (e: Eof, data: Option<Bytes>)
    requires pd.Valid() && |pd.file| < U64_LIMIT && pd.earliest == |pd.file| && pd.fileReads == 0
    modifies pd`earliest, pd`fileReads
    ensures pd.Valid()
    ensures data == None ==> OpenTail(hashes, pd.file, key) == OpenFailed
    ensures data.Some? ==>
              && EofAt(pd.file, |pd.file| - EOF_SIZE) == Some(e)
              && Stream1Size(pd.file, |key|, e) >= 0
              && |data.value| == e.streamSize + Extra(e)
    ensures data.Some? ==>
              var st := EntryStat(e.streamSize, Stream1Size(pd.file, |key|, e));
              var at := OffsetInFile(st, |key|, 0, 0);
              && pd.earliest == at && |pd.file| - at < U32_LIMIT
              && pd.fileReads == (if pd.Covered(|pd.file| - EOF_SIZE, EOF_SIZE) then 0 else 1)
                                 + (if st.size0 + Extra(e) == 0 || pd.Covered(at, st.size0 + Extra(e)) then 0 else 1)
              && at + st.size0 + Extra(e) + EOF_SIZE == |pd.file|
              && OpenTail(hashes, pd.file, key)
                 == if HasKeySha256(e) && data.value[st.size0..] != hashes.sha256(key) then OpenFailed
                    else Opened(key, st, data.value[..st.size0])
  {
    hide EofAt, OpenTail, CrcMatches, Stream1Size, Extra;
    var f := pd.file;
    data := None;
    NoTail(hashes, f, key);
    e := Eof(0, 0, 0, 0, 0);
    var eof0 := GetEofRecordData(pd, |f| - EOF_SIZE);
    if eof0 == None { return; }
    e := eof0.value;
    if e.streamSize > |f| { return; }
    var size0, extra, size1 := e.streamSize, Extra(e), Stream1Size(f, |key|, e);
    if size1 < 0 || size1 > |f| { return; }
    var at := OffsetInFile(EntryStat(size0, size1), |key|, 0, 0);
    TailPlaces(f, key, e);
    TailDecided(hashes, f, key, e);
    data := PreReadStreamPayload(hashes, pd, at, size0, extra, e);
  }

  /** Stream 1 through the prefetch buffer, if the buffer reaches back to it. */
  method ReadStream1(hashes: Hashes, pd: PrefetchData, key: Bytes, st: EntryStat, ghost start: nat)
    returns (ok: bool, stream1: Option<Bytes>)
    requires pd.Valid() && pd.HoldsFrom(start)
    requires FILE_HEADER_SIZE + |key| + st.size1 + EOF_SIZE <= |pd.file| < U64_LIMIT
    modifies pd`earliest, pd`fileReads
    ensures pd.Valid() && pd.fileReads == old(pd.fileReads)
    ensures var h := FILE_HEADER_SIZE + |key|;
            && ok == (start <= h ==> Stream1Ok(hashes, pd.file, key, st))
            && (ok && start <= h ==> stream1 == Some(pd.file[h..h + st.size1]))
  {
    hide EofAt;
    var h := FILE_HEADER_SIZE + |key|;
    var has := pd.HasData(h, EOF_SIZE + st.size1);
    if !has { return true, None; }
    var eof1 := GetEofRecordData(pd, EofOffsetInFile(st, |key|, 1));
    if eof1 == None { return false, None; }
    stream1 := PreReadStreamPayload(hashes, pd, h, st.size1, 0, eof1.value);
    ok := stream1 != None;
  }

  /**
   A whole life: create, any run of stream 1 writes, close with a record for each stream, open again with any
   prefetch settings and any hint, and with the hint that close estimated. The entry opens with both streams as
   written, if and only if stream 0 is small enough and so is stream 1 where the prefetched part reaches back to it.
   The estimate is the trailer that the next open computes if and only if it is within `int`; then an open that is
   given it reads nothing besides the prefetch. Beyond, the open behaves as without a hint.
   */
  method CreateWriteCloseOpen(hashes: Hashes, key: Bytes, ws: seq<StreamWrite>, stream0: Bytes,
                              records: seq<CrcRecord>, settings: Settings, hint: u32)
    returns (r: OpenResult, r': OpenResult, estimate: int, trailer: nat, fileReads: nat, file: Bytes)
    requires |key| < U32_LIMIT && |stream0| <= INT_MAX && |Replay([], ws)| < OFFSET_LIMIT
    requires |records| == 2 && records[0].index <= 1 && records[1].index == 1 - records[0].index
    requires forall c | c in records && c.hasCrc ::
               c.crc == hashes.crc32(if c.index == 0 then stream0 else Replay([], ws))
    ensures var small := |stream0| + SHA256_SIZE <= INT_MAX;
            var st, h := EntryStat(|stream0|, |Replay([], ws)|), FILE_HEADER_SIZE + |key|;
            var start := PrefetchStart(file, settings, hint);
            var start' := PrefetchStart(file, settings, estimate % U32_LIMIT);
            var found := Opened(key, st, stream0);
            && r == (if small && (start <= h ==> st.size1 <= INT_MAX) then found else OpenFailed)
            && r' == (if small && (start' <= h ==> st.size1 <= INT_MAX) then found else OpenFailed)
            && (r'.Opened? ==> (trailer == estimate <==> trailer <= INT_MAX))
            && (r'.Opened? && trailer <= INT_MAX ==> fileReads == 0)
            && (r'.Opened? && trailer > INT_MAX ==>
                  && estimate < 0 && start' == PrefetchStart(file, settings, 0)
                  && fileReads == DataReads(file, OffsetInFile(st, |key|, 0, 0), start'))
            && (r'.Opened? ==> trailer == |stream0| + SHA256_SIZE + EOF_SIZE)
    ensures var h := FILE_HEADER_SIZE + |key|;
            |file| >= h + |Replay([], ws)| && file[h..h + |Replay([], ws)|] == Replay([], ws)
  {
    hide FileHeader, DenseEntry.Replay, FileAfterRecords, OpenSpec, Stream1Ok, EofAt, Signed, PrefetchStart, DataReads,
      HasZero;
    var entry := new DenseSynchronousEntry(hashes, key);
    entry.WriteAll(ws);
    ghost var stream1, f := entry.Stream1(), entry.file;
    var r0, r1 := if records[0].index == 0 then records[0] else records[1],
                  if records[0].index == 0 then records[1] else records[0];
    assert records == [records[0], records[1]];
    assert r0 in records && r1 in records;
    HasZeroHere(records);
    estimate := entry.Close(records, stream0);
    file := entry.file;
    CloseThenOpen(hashes, f, key, stream1, stream0, r0, r1, records);
    ClosedSize(hashes, f, key, stream1, stream0, r0, r1, records);
    HintOfClosed(file, settings, key, EntryStat(|stream0|, |stream1|));
    var s1: Option<Bytes>, t: nat, n: nat;
    r, s1, t, n := OpenEntry(hashes, entry.file, Some(key), settings, hint);
    var s1': Option<Bytes>;
    r', s1', trailer, fileReads := OpenEntry(hashes, entry.file, Some(key), settings, estimate % U32_LIMIT);
  }

  lemma HasZeroHere(rs: seq<CrcRecord>)
    requires |rs| == 2 && (rs[0].index == 0 || rs[1].index == 0)
    ensures HasZero(rs)
  {
  }

  /** What an estimate does for the open that gets it as its hint. */
  lemma HintOfClosed(f: Bytes, settings: Settings, key: Bytes, st: EntryStat)
    requires st.size0 <= INT_MAX
    requires |f| == OffsetInFile(st, |key|, 0, 0) + st.size0 + SHA256_SIZE + EOF_SIZE
    ensures var n, at := st.size0 + SHA256_SIZE + EOF_SIZE, OffsetInFile(st, |key|, 0, 0);
            var start := PrefetchStart(f, settings, Signed(n) % U32_LIMIT);
            && (n <= INT_MAX ==> Signed(n) == n && start <= at && DataReads(f, at, start) == 0)
            && (n > INT_MAX ==> Signed(n) < 0 && start == PrefetchStart(f, settings, 0))
  {
    HintSurvives(settings, st.size0);
    HintSurvives(settings, INT_MAX);
    assert TrailerSize(settings, 0) == settings.speculative;
  }

  /** Length of a closed file, and its last record. */
  lemma ClosedSize(hashes: Hashes, f: Bytes, key: Bytes, stream1: Bytes, stream0: Bytes,
                   r0: CrcRecord, r1: CrcRecord, rs: seq<CrcRecord>)
    requires r0.index == 0 && r1.index == 1 && (rs == [r0, r1] || rs == [r1, r0])
    requires |stream0| <= INT_MAX
    requires var h := FILE_HEADER_SIZE + |key|;
             && h + |stream1| <= |f|
             && f[..FILE_HEADER_SIZE] == FileHeader(ENTRY_VERSION, |key|, hashes.keyHash(key))
             && f[FILE_HEADER_SIZE..h] == key
             && f[h..h + |stream1|] == stream1
    ensures var f' := FileAfterRecords(hashes, f, key, EntryStat(|stream0|, |stream1|), stream0, rs);
            && |f'| == FILE_HEADER_SIZE + |key| + |stream1| + EOF_SIZE + |stream0| + SHA256_SIZE + EOF_SIZE
            && EofAt(f', |f'| - EOF_SIZE) == Some(EofFor(hashes, stream0, r0))
  {
    hide FileHeader, EofBytes, Assemble, FileAfterRecords, EofAt;
    var p := ClosedParts(hashes, key, stream1, stream0, r0, r1);
    var f' := FileAfterRecords(hashes, f, key, EntryStat(|stream0|, |stream1|), stream0, rs);
    CloseAssembles(hashes, f, key, stream1, stream0, r0, r1, rs);
    HoldsIsAssemble(f', p);
    EofAtEnd(f', p, EofFor(hashes, stream0, r0));
  }
}
