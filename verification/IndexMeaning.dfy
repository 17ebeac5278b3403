/**
 Index files by position: what both readers do with the numbers at fixed places of the file, and the
 limits, versions and times they know.
 */
module IndexMeaning {
  import opened ByteSeqs
  import opened EntryFormat
  import opened IndexModel
  import opened IndexFile
  import opened IndexLoad
  import JI = JavaIndex

  /** The frame: the length of what follows, its checksum, and nothing besides. */
  lemma FrameMeans(hashes: Hashes, f: Bytes)
    ensures FrameFits(f) <==> |f| >= 8 && |f| == 8 + FromLE(f[0..4])
    ensures FrameIntact(hashes, f) <==> FrameFits(f) && FromLE(f[4..8]) == hashes.crc32(f[8..])
  {
    hide FromLE;
  }

  /** The head of the payload. */
  lemma HeadMeans(f: Bytes)
    requires |f| >= 40
    ensures var h := HeadOf(f);
            && h.magic == FromLE(f[8..16]) && h.version == FromLE(f[16..20]) && h.count == FromLE(f[20..28])
            && h.cacheSize == FromLE(f[28..36]) && h.reason == FromLE(f[36..40])
    ensures HeadAccepted(HeadOf(f)) <==>
              && FromLE(f[8..16]) == 0x656e74657220796f && 8 <= FromLE(f[16..20]) <= 9
              && FromLE(f[20..28]) <= 1000000 && FromLE(f[36..40]) < 4
  {
    hide FromLE;
  }

  /** A record: hash, signed time, and a number of 38 bits whose low byte holds two hint bits. */
  lemma RecordMeans(f: Bytes, off: nat)
    ensures RecordAt(f, off).Some? <==> off + 24 <= |f| && FromLE(f[off + 16..off + 24]) < 0x40_0000_0000
    ensures RecordAt(f, off).Some? ==>
              var r, t := RecordAt(f, off).value, FromLE(f[off + 8..off + 16]);
              && r.hash == FromLE(f[off..off + 8])
              && r.lastUsed == (if t < 0x8000_0000_0000_0000 then t else t - 0x1_0000_0000_0000_0000)
              && r.chunks == FromLE(f[off + 16..off + 24]) / 256 && r.hints == FromLE(f[off + 16..off + 24]) % 4
  {
    hide FromLE;
  }

  /** What Chromium loads has an intact frame, an accepted head and its reason. */
  lemma LoadMeans(hashes: Hashes, ct: CacheType, f: Bytes)
    requires DeserializeSpec(hashes, ct, f).Some?
    ensures |f| >= 48 && |f| == 8 + FromLE(f[0..4]) && FromLE(f[4..8]) == hashes.crc32(f[8..])
    ensures FromLE(f[8..16]) == 0x656e74657220796f && 8 <= FromLE(f[16..20]) <= 9
    ensures FromLE(f[20..28]) <= 1000000 && FromLE(f[36..40]) < 4
    ensures DeserializeSpec(hashes, ct, f).value.reason == FromLE(f[36..40])
  {
    hide FromLE, HeadOf, FrameIntact, FrameFits, HeadAccepted, LoadFrom;
    FrameMeans(hashes, f);
    HeadMeans(f);
    var h := HeadOf(f);
    LoadReads(ct, h.version, f, 0, map[], h.count);
  }

  /** From disk, files longer than 24,000,000 bytes are refused first. */
  lemma FromDiskMeans(hashes: Hashes, ct: CacheType, f: Bytes)
    ensures LoadFromDisk(hashes, ct, f) == if |f| > 24000000 then None else DeserializeSpec(hashes, ct, f)
  {
    hide DeserializeSpec;
  }

  /** The Java reader accepts a file just when frame and head are right and all records are there and good. */
  lemma JavaParseMeans(hashes: Hashes, f: Bytes, verifyCrc: bool, n: nat)
    requires |f| >= 40 && n == if FromLE(f[20..28]) >= 0x8000_0000_0000_0000 then 0 else FromLE(f[20..28])
    ensures JI.ParseSpec(hashes, f, verifyCrc).Some? <==>
              && |f| == 8 + FromLE(f[0..4]) && FromLE(f[8..16]) == 0x656e74657220796f && 8 <= FromLE(f[16..20]) <= 9
              && 48 + 24 * n <= |f| && forall k | 0 <= k < n :: FromLE(f[At(k) + 16..At(k) + 24]) < 0x40_0000_0000
    ensures JI.ParseSpec(hashes, f, verifyCrc).Some? ==>
              var x := JI.ParseSpec(hashes, f, verifyCrc).value;
              && x.version == FromLE(f[16..20]) && x.cacheSize == FromLE(f[28..36]) && x.reason == FromLE(f[36..40])
              && |x.entries| == n && (forall k | 0 <= k < n :: RecordAt(f, At(k)) == Some(x.entries[k]))
              && x.crcWarning == (verifyCrc && FromLE(f[4..8]) != hashes.crc32(f[8..]))
  {
    hide FromLE, HeadOf, FrameIntact, FrameFits, RecordAt, JI.RecordsOf;
    FrameMeans(hashes, f);
    HeadMeans(f);
    JI.RecordsOfLength(f, n);
    forall k: nat { RecordMeans(f, At(k)); }
    if JI.RecordsOf(f, n).Some? {
      JI.RecordsOfHas(f, JI.RecordsOf(f, n).value);
    }
  }

  /** A shorter file is an exception. */
  lemma JavaTooShort(hashes: Hashes, f: Bytes, verifyCrc: bool)
    requires |f| < 40
    ensures JI.ParseSpec(hashes, f, verifyCrc) == None
  {
    hide FrameFits;
  }

  /** Records follow one another from byte 40 on. */
  lemma RecordPlaces(i: nat)
    ensures At(i) == 40 + 24 * i
  {
  }

  /** Seconds since 1970 of a time in microseconds since 1601, kept within 32 bits; 0 only for the null time. */
  lemma LastUsedMeans(t: i64, s: u32)
    ensures LastUsedSeconds(t) == if t == 0 then 0
                                  else if t < 11644473601000000 then 1
                                  else if t >= 15939440896000000 then 0xffff_ffff
                                  else (t - 11644473600000000) / 1000000
    ensures LastUsedTime(s) == if s == 0 then 0 else 11644473600000000 + s * 1000000
  {
  }

  /** What a record becomes in memory; the app cache keeps a prefetch size that only version 9 stores. */
  lemma MetaMeans(ct: CacheType, version: u32, r: Record)
    ensures var m := MetaOf(ct, version, r);
            && m.chunks == r.chunks && m.hints == r.hints
            && (ct == HttpCache ==> m.time == LastUsedSeconds(r.lastUsed))
            && (ct == AppCache ==>
                  m.time == if version < 9 || r.lastUsed < 0 || r.lastUsed > 0xffff_ffff then 0 else r.lastUsed)
  {
    hide LastUsedSeconds;
  }
}
