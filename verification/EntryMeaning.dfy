/**
 Entry files by position: what an open, the reader of stream 1, the Java reader and the two writers
 have to do with the numbers at fixed places of the file.
 */
module EntryMeaning {
  import opened ByteSeqs
  import opened EntryFormat
  import opened DenseEntry
  import opened EntryOpen
  import opened JavaEntry

  // ---------------------------------------------------------------------------
  // Records
  // ---------------------------------------------------------------------------

  /** The fields of an end-of-stream record, wherever it is in a file. */
  lemma RecordFields(f: Bytes, off: nat)
    requires off + 24 <= |f|
    ensures var e := ReadEof(f[off..off + 24]);
            && e.magic == FromLE(f[off..off + 8]) && e.flags == FromLE(f[off + 8..off + 12])
            && e.crc == FromLE(f[off + 12..off + 16]) && e.streamSize == FromLE(f[off + 16..off + 20])
            && e.padding == FromLE(f[off + 20..off + 24])
  {
    hide FromLE;
    SliceOfSlice(f, off, off + 24, off, off + 8);
    SliceOfSlice(f, off, off + 24, off + 8, off + 12);
    SliceOfSlice(f, off, off + 24, off + 12, off + 16);
    SliceOfSlice(f, off, off + 24, off + 16, off + 20);
    SliceOfSlice(f, off, off + 24, off + 20, off + 24);
  }

  /** Just a record with the right magic number and a size within `int` is one. */
  lemma RecordMeans(f: Bytes, off: int)
    ensures EofAt(f, off).Some? <==>
              && 0 <= off && off + 24 <= |f|
              && FromLE(f[off..off + 8]) == 0xf4fa6f45970d41d8 && FromLE(f[off + 16..off + 20]) <= 0x7fff_ffff
    ensures EofAt(f, off).Some? ==> EofAt(f, off).value == ReadEof(f[off..off + 24])
  {
    hide ReadEof, FromLE;
    if 0 <= off && off + 24 <= |f| {
      RecordFields(f, off);
    }
  }

  // ---------------------------------------------------------------------------
  // Opening
  // ---------------------------------------------------------------------------

  /** The header names a key just when magic number, version, length and key hash all say so. */
  lemma HeaderMeans(hashes: Hashes, f: Bytes, key: Bytes)
    ensures HeaderKey(hashes, f) == Some(key) <==>
              && 24 + |key| <= |f|
              && FromLE(f[0..8]) == 0xfcfb6d1ba7725c30 && FromLE(f[8..12]) == 5
              && FromLE(f[12..16]) == |key| && f[24..24 + |key|] == key
              && FromLE(f[16..20]) == hashes.keyHash(key)
  {
    hide FromLE;
  }

  /**
   The tail checks pass just when the last 24 bytes are a record, what they say fits the file, and checksum and key
   digest are right where they are there.
   */
  lemma TailMeans(hashes: Hashes, f: Bytes, key: Bytes, flags: nat, size0: nat, digest: nat, at: int)
    requires |f| >= 24 && flags == FromLE(f[|f| - 16..|f| - 12]) && size0 == FromLE(f[|f| - 8..|f| - 4])
    requires digest == (if flags / 2 % 2 == 1 then 32 else 0) && at == |f| - 24 - digest - size0
    ensures OpenTail(hashes, f, key).Opened? <==>
              && FromLE(f[|f| - 24..|f| - 16]) == 0xf4fa6f45970d41d8
              && size0 + digest <= 0x7fff_ffff && 24 + |key| + 24 <= at
              && (flags % 2 == 1 ==> FromLE(f[|f| - 12..|f| - 8]) == hashes.crc32(f[at..at + size0]))
              && (digest == 32 ==> f[|f| - 56..|f| - 24] == hashes.sha256(key))
    ensures OpenTail(hashes, f, key).Opened? ==>
              at >= 0 && OpenTail(hashes, f, key) == Opened(key, EntryStat(size0, at - 48 - |key|), f[at..at + size0])
  {
    hide ReadEof, FromLE;
    RecordFields(f, |f| - 24);
    RecordMeans(f, |f| - 24);
  }

  /** An unknown key comes from the header; a known one has to be there too when the file has no digest of it. */
  lemma OpenMeans(hashes: Hashes, f: Bytes, key: Option<Bytes>)
    ensures var found := HeaderKey(hashes, f);
            OpenSpec(hashes, f, key).Opened? <==>
              if key == None then found.Some? && OpenTail(hashes, f, found.value).Opened?
              else OpenTail(hashes, f, key.value).Opened?
                   && (found == key || FromLE(f[|f| - 16..|f| - 12]) / 2 % 2 == 1)
    ensures OpenSpec(hashes, f, key).Opened? ==>
              OpenSpec(hashes, f, key)
              == OpenTail(hashes, f, if key == None then HeaderKey(hashes, f).value else key.value)
    ensures |f| < 24 ==> OpenSpec(hashes, f, key) == OpenFailed
  {
    hide OpenTail, HeaderKey, ReadEof, FromLE;
    RecordMeans(f, |f| - 24);
    if |f| >= 24 {
      RecordFields(f, |f| - 24);
    }
    forall k: Bytes
      ensures OpenTail(hashes, f, k).Opened? ==> EofAt(f, |f| - 24).Some?
    {
      OpenedHasRecord(hashes, f, k);
    }
  }

  lemma OpenedHasRecord(hashes: Hashes, f: Bytes, key: Bytes)
    ensures OpenTail(hashes, f, key).Opened? ==> EofAt(f, |f| - 24).Some?
  {
    hide EofAt;
  }

  /** Where stream 1 is looked at, its record has to be one and its checksum right if it is there. */
  lemma Stream1Means(hashes: Hashes, f: Bytes, key: Bytes, st: EntryStat)
    ensures var h := 24 + |key|;
            var end := h + st.size1;
            Stream1Ok(hashes, f, key, st) <==>
              && end + 24 <= |f| && st.size1 <= 0x7fff_ffff
              && FromLE(f[end..end + 8]) == 0xf4fa6f45970d41d8 && FromLE(f[end + 16..end + 20]) <= 0x7fff_ffff
              && (FromLE(f[end + 8..end + 12]) % 2 == 1 ==>
                    FromLE(f[end + 12..end + 16]) == hashes.crc32(f[h..end]))
  {
    hide ReadEof, FromLE;
    var end := 24 + |key| + st.size1;
    RecordMeans(f, end);
    if end + 24 <= |f| {
      RecordFields(f, end);
    }
  }

  /**
   Stream 1 is looked at when the last record says that there is a key digest and the prefetched part reaches back to
   it; an open then succeeds only if it passes.
   */
  lemma LookedAtMeans(hashes: Hashes, f: Bytes, r: OpenResult, start: nat)
    requires r.Opened? && OpenTail(hashes, f, r.key) == r
    ensures |f| >= 48
    ensures SeesStream1(f, r, start) <==>
              FromLE(f[|f| - 16..|f| - 12]) / 2 % 2 == 1 && start <= 24 + |r.key|
    ensures Stream1Passes(hashes, f, r, start) <==>
              (FromLE(f[|f| - 16..|f| - 12]) / 2 % 2 == 1 && start <= 24 + |r.key| ==>
                 Stream1Ok(hashes, f, r.key, r.stat))
  {
    hide ReadEof, FromLE, Stream1Ok;
    RecordMeans(f, |f| - 24);
    RecordFields(f, |f| - 24);
  }

  /** How much of the end of the file is prefetched: a small file whole, else as much as a positive hint or setting. */
  lemma PrefetchMeans(f: Bytes, settings: Settings, hint: u32)
    ensures var wanted := if 0 < hint < 0x8000_0000 then hint else settings.speculative;
            |f| - PrefetchStart(f, settings, hint) == if |f| <= settings.fullSize || |f| <= wanted then |f| else wanted
  {
  }

  // ---------------------------------------------------------------------------
  // The Java reader
  // ---------------------------------------------------------------------------

  /** The Java reader accepts a file just when header and both records are where the sizes say. */
  lemma ParseMeans(f: Bytes, flags: nat, size0: nat, digest: nat, at: int)
    requires |f| >= 48 && flags == FromLE(f[|f| - 16..|f| - 12]) && size0 == FromLE(f[|f| - 8..|f| - 4])
    requires digest == (if flags / 2 % 2 == 1 then 32 else 0) && at == |f| - 24 - digest - size0
    ensures ParseSpec(f).Some? <==>
              && FromLE(f[0..8]) == 0xfcfb6d1ba7725c30 && 24 + FromLE(f[12..16]) + 24 <= at
              && FromLE(f[|f| - 24..|f| - 16]) == 0xf4fa6f45970d41d8
              && FromLE(f[at - 24..at - 16]) == 0xf4fa6f45970d41d8
    ensures ParseSpec(f).Some? ==>
              var e, h := ParseSpec(f).value, 24 + FromLE(f[12..16]);
              && h + 24 <= at
              && e.version == FromLE(f[8..12]) && e.keyLength == FromLE(f[12..16]) && e.keyHash == FromLE(f[16..20])
              && e.key == f[24..h] && e.stream1 == f[h..at - 24] && e.stream0 == f[at..at + size0]
              && e.eof1 == ReadEof(f[at - 24..at]) && e.eof0 == ReadEof(f[|f| - 24..])
              && e.keySha256 == if digest == 32 then Some(f[|f| - 56..|f| - 24]) else None
  {
    hide ReadEof, FromLE;
    LastRecordAgrees(f);
    RecordFields(f, |f| - 24);
    if 24 <= at <= |f| {
      RecordFields(f, at - 24);
    }
  }

  /** A file without room for a header and two records is malformed. */
  lemma ParseTooShort(f: Bytes)
    requires |f| < 48
    ensures ParseSpec(f) == None
  {
    hide ReadEof, FromLE;
  }

  /** Each warning is there just when its hash is stored and differs. */
  lemma WarningsMean(hashes: Hashes, e: Entry)
    ensures var w := Warnings(hashes, e);
            && (KeyHashMismatch in w <==> hashes.keyHash(e.key) != e.keyHash)
            && (Stream1CrcMismatch in w <==> e.eof1.flags % 2 == 1 && hashes.crc32(e.stream1) != e.eof1.crc)
            && (Stream0CrcMismatch in w <==> e.eof0.flags % 2 == 1 && hashes.crc32(e.stream0) != e.eof0.crc)
            && (KeyDigestMismatch in w <==>
                e.eof0.flags / 2 % 2 == 1 && e.keySha256.Some? && hashes.sha256(e.key) != e.keySha256.value)
  {
  }

  /** A changed byte of either stream that changes the checksum is reported for every file that stores checksums. */
  lemma ChangedStreamsWarn(hashes: Hashes, f: Bytes)
    requires |f| >= 48 && ParseSpec(f).Some?
    ensures var e := ParseSpec(f).value;
            && (FromLE(f[|f| - 16..|f| - 12]) % 2 == 1 && FromLE(f[|f| - 12..|f| - 8]) != hashes.crc32(e.stream0)
                <==> Stream0CrcMismatch in Warnings(hashes, e))
            && var at := 24 + |e.key| + |e.stream1|;
            && at + 24 <= |f|
            && (FromLE(f[at + 8..at + 12]) % 2 == 1 && FromLE(f[at + 12..at + 16]) != hashes.crc32(e.stream1)
                <==> Stream1CrcMismatch in Warnings(hashes, e))
  {
    hide ParseSpec, ReadEof, FromLE, Warnings;
    var flags, size0 := FromLE(f[|f| - 16..|f| - 12]), FromLE(f[|f| - 8..|f| - 4]);
    var digest := if flags / 2 % 2 == 1 then 32 else 0;
    ParseMeans(f, flags, size0, digest, |f| - 24 - digest - size0);
    LastRecordAgrees(f);
    RecordFields(f, |f| - 24);
    RecordFields(f, |f| - 24 - digest - size0 - 24);
    WarningsMean(hashes, ParseSpec(f).value);
  }

  // ---------------------------------------------------------------------------
  // What the writers lay down
  // ---------------------------------------------------------------------------

  /** The pieces of a file, by position. */
  lemma PiecePlaces(p: Parts)
    requires WellSized(p)
    ensures var f, h := Assemble(p), 24 + |p.key|;
            var b := h + |p.stream1|;
            var d := b + 24 + |p.stream0|;
            && |f| == d + |p.digest| + 24
            && f[0..24] == p.header && f[24..h] == p.key && f[h..b] == p.stream1 && f[b..b + 24] == p.eof1
            && f[b + 24..d] == p.stream0 && f[d..d + |p.digest|] == p.digest && f[|f| - 24..|f|] == p.eof0
  {
    hide Assemble;
    AssembleHolds(p);
    var f := Assemble(p);
    assert f[|f| - 24..] == f[|f| - 24..|f|] && f[..24] == f[0..24];
  }

  /** A header at the front of a file, field by field. */
  ghost predicate HeaderHere(f: Bytes, version: nat, keyLength: nat, keyHash: nat) {
    && |f| >= 24
    && FromLE(f[0..8]) == 0xfcfb6d1ba7725c30 && FromLE(f[8..12]) == version
    && FromLE(f[12..16]) == keyLength && FromLE(f[16..20]) == keyHash && FromLE(f[20..24]) == 0
  }

  /** A record in a file, field by field. */
  ghost predicate RecordHere(f: Bytes, off: nat, flags: nat, crc: nat, size: nat) {
    && off + 24 <= |f|
    && FromLE(f[off..off + 8]) == 0xf4fa6f45970d41d8 && FromLE(f[off + 8..off + 12]) == flags
    && FromLE(f[off + 12..off + 16]) == crc && FromLE(f[off + 16..off + 20]) == size
    && FromLE(f[off + 20..off + 24]) == 0
  }

  lemma HeaderFound(f: Bytes, version: nat, keyLength: nat, keyHash: u32)
    requires version < U32_LIMIT && keyLength < U32_LIMIT && |f| >= 24
    requires f[0..24] == FileHeader(version, keyLength, keyHash)
    ensures HeaderHere(f, version, keyLength, keyHash)
  {
    hide FileHeader, FromLE;
    FileHeaderFields(version, keyLength, keyHash);
    SliceOfSlice(f, 0, 24, 0, 8);
    SliceOfSlice(f, 0, 24, 8, 12);
    SliceOfSlice(f, 0, 24, 12, 16);
    SliceOfSlice(f, 0, 24, 16, 20);
    SliceOfSlice(f, 0, 24, 20, 24);
  }

  lemma RecordFound(f: Bytes, off: nat, e: Eof)
    requires off + 24 <= |f| && f[off..off + 24] == EofBytes(e) && e.magic == FINAL_MAGIC && e.padding == 0
    ensures RecordHere(f, off, e.flags, e.crc, e.streamSize)
  {
    hide EofBytes, ReadEof, FromLE;
    EofRoundTrip(e);
    RecordFields(f, off);
  }

  /** A closed file: every field, both streams and the key digest at their places. */
  lemma ClosedBytes(hashes: Hashes, key: Bytes, stream1: Bytes, stream0: Bytes, r0: CrcRecord, r1: CrcRecord)
    requires r0.index == 0 && r1.index == 1 && |key| < U32_LIMIT && |stream0| <= INT_MAX
    ensures var f := Assemble(ClosedParts(hashes, key, stream1, stream0, r0, r1));
            var b := 24 + |key| + |stream1|;
            var d := b + 24 + |stream0|;
            && |f| == d + 56
            && HeaderHere(f, 5, |key|, hashes.keyHash(key))
            && f[24..24 + |key|] == key && f[24 + |key|..b] == stream1 && f[b + 24..d] == stream0
            && f[d..d + 32] == hashes.sha256(key)
            && RecordHere(f, b, if r1.hasCrc then 1 else 0, r1.crc, 0)
            && RecordHere(f, d + 32, 3, if r0.hasCrc then r0.crc else hashes.crc32(stream0), |stream0|)
  {
    hide Assemble, EofBytes, FileHeader, HeaderHere, RecordHere;
    var p := ClosedParts(hashes, key, stream1, stream0, r0, r1);
    PiecePlaces(p);
    var f := Assemble(p);
    HeaderFound(f, 5, |key|, hashes.keyHash(key));
    RecordFound(f, 24 + |key| + |stream1|, EofFor(hashes, stream0, r1));
    RecordFound(f, |f| - 24, EofFor(hashes, stream0, r0));
  }

  /** A file of the Java writer: the same places, a checksum in both records and the digest when it is asked for. */
  lemma JavaBytes(hashes: Hashes, version: u32, key: Bytes, stream1: Bytes, stream0: Bytes, withDigest: bool)
    requires |key| < U32_LIMIT && |stream0| < U32_LIMIT
    ensures var f := SerializeSpec(hashes, version, key, stream1, stream0, withDigest);
            var b := 24 + |key| + |stream1|;
            var d := b + 24 + |stream0|;
            && |f| == d + (if withDigest then 56 else 24)
            && HeaderHere(f, version, |key|, hashes.keyHash(key))
            && f[24..24 + |key|] == key && f[24 + |key|..b] == stream1 && f[b + 24..d] == stream0
            && (withDigest ==> f[d..d + 32] == hashes.sha256(key))
            && RecordHere(f, b, 1, hashes.crc32(stream1), 0)
            && RecordHere(f, |f| - 24, if withDigest then 3 else 1, hashes.crc32(stream0), |stream0|)
  {
    hide Assemble, EofBytes, FileHeader, HeaderHere, RecordHere;
    var e := Sealed(hashes, version, key, stream1, stream0, withDigest);
    PiecePlaces(EntryParts(e));
    var f := Assemble(EntryParts(e));
    HeaderFound(f, version, |key|, hashes.keyHash(key));
    RecordFound(f, 24 + |key| + |stream1|, e.eof1);
    RecordFound(f, |f| - 24, e.eof0);
  }

  /** One byte of stream 0 or of its stored checksum changed, so that they differ: a closed file no longer opens. */
  lemma CorruptionStopsOpen(hashes: Hashes, f: Bytes, key: Option<Bytes>, at: nat, size0: nat)
    requires |f| >= 48 && at + size0 + 56 == |f| && size0 == FromLE(f[|f| - 8..|f| - 4])
    requires FromLE(f[|f| - 16..|f| - 12]) == 3
    requires FromLE(f[|f| - 12..|f| - 8]) != hashes.crc32(f[at..at + size0])
    ensures OpenSpec(hashes, f, key) == OpenFailed
  {
    hide OpenTail, HeaderKey, FromLE;
    OpenMeans(hashes, f, key);
    forall k: Bytes
      ensures OpenTail(hashes, f, k) == OpenFailed
    {
      TailMeans(hashes, f, k, 3, size0, 32, at);
    }
  }
}
