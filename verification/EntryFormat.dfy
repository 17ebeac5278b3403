/**
 The records of an entry file: file header, end-of-stream records and the layout
 [header][key][stream 1][EOF 1][stream 0][SHA-256 of the key, optional][EOF 0].
 The hash functions are parameters: every claim holds for all of them.
 */
module EntryFormat {
  import opened ByteSeqs

  const FILE_HEADER_SIZE: nat := 24
  const EOF_SIZE: nat := 24
  const SHA256_SIZE: nat := 32
  const INITIAL_MAGIC: nat := 0xfcfb6d1ba7725c30
  const FINAL_MAGIC: nat := 0xf4fa6f45970d41d8
  const ENTRY_VERSION: nat := 5

  type Digest256 = d: Bytes | |d| == 32 witness Zeros(32)
  type Digest160 = d: Bytes | |d| == 20 witness Zeros(20)

  /** CRC-32, SHA-256, SHA-1 and the key hash of the file header. */
  datatype Hashes = Hashes(crc32: Bytes -> u32, sha256: Bytes -> Digest256, sha1: Bytes -> Digest160,
                           keyHash: Bytes -> u32)

  /** A 64-bit field and four 32-bit fields, taken apart again. */
  lemma FiveFields(a: Bytes, b: Bytes, c: Bytes, d: Bytes, e: Bytes)
    requires |a| == 8 && |b| == |c| == |d| == |e| == 4
    ensures var h := a + b + c + d + e;
            h[0..8] == a && h[8..12] == b && h[12..16] == c && h[16..20] == d && h[20..24] == e
  {
  }

  /** SimpleFileHeader; the key length field keeps the low 32 bits. */
  function FileHeader(version: nat, keyLength: nat, keyHash: u32): (h: Bytes)
    ensures |h| == FILE_HEADER_SIZE
  {
    LE(8, INITIAL_MAGIC) + LE(4, version) + LE(4, keyLength) + LE(4, keyHash) + LE(4, 0)
  }

  /** A header and a key written to an empty file. */
  lemma FreshFile(header: Bytes, key: Bytes)
    requires |header| == FILE_HEADER_SIZE
    ensures var f := WriteAt(WriteAt([], 0, header), FILE_HEADER_SIZE, key);
            && |f| == FILE_HEADER_SIZE + |key|
            && f[..FILE_HEADER_SIZE] == header && f[FILE_HEADER_SIZE..FILE_HEADER_SIZE + |key|] == key
  {
    assert WriteAt([], 0, header) == header;
  }

  lemma FileHeaderFields(version: nat, keyLength: nat, keyHash: u32)
    requires version < U32_LIMIT && keyLength < U32_LIMIT
    ensures var h := FileHeader(version, keyLength, keyHash);
            FromLE(h[0..8]) == INITIAL_MAGIC && FromLE(h[8..12]) == version
            && FromLE(h[12..16]) == keyLength && FromLE(h[16..20]) == keyHash && FromLE(h[20..24]) == 0
  {
    hide LE, FromLE;
    FiveFields(LE(8, INITIAL_MAGIC), LE(4, version), LE(4, keyLength), LE(4, keyHash), LE(4, 0));
    RoundTrip64(INITIAL_MAGIC);
    RoundTrip32(version);
    RoundTrip32(keyLength);
    RoundTrip32(keyHash);
    RoundTrip32(0);
  }

  /** SimpleFileEOF. */
  datatype Eof = Eof(magic: u64, flags: u32, crc: u32, streamSize: u32, padding: u32)

  predicate HasCrc32(e: Eof) {
    e.flags % 2 == 1
  }

  predicate HasKeySha256(e: Eof) {
    e.flags / 2 % 2 == 1
  }

  function EofBytes(e: Eof): (b: Bytes)
    ensures |b| == EOF_SIZE
  {
    LE(8, e.magic) + LE(4, e.flags) + LE(4, e.crc) + LE(4, e.streamSize) + LE(4, e.padding)
  }

  function ReadEof(b: Bytes): Eof
    requires |b| == EOF_SIZE
  {
    Pow256Values();
    FromLEBound(b[0..8]);
    FromLEBound(b[8..12]);
    FromLEBound(b[12..16]);
    FromLEBound(b[16..20]);
    FromLEBound(b[20..24]);
    Eof(FromLE(b[0..8]), FromLE(b[8..12]), FromLE(b[12..16]), FromLE(b[16..20]), FromLE(b[20..24]))
  }

  /** An end-of-stream record reads back as it was written. */
  lemma EofRoundTrip(e: Eof)
    ensures ReadEof(EofBytes(e)) == e
  {
    hide LE, FromLE;
    FiveFields(LE(8, e.magic), LE(4, e.flags), LE(4, e.crc), LE(4, e.streamSize), LE(4, e.padding));
    RoundTrip64(e.magic);
    RoundTrip32(e.flags);
    RoundTrip32(e.crc);
    RoundTrip32(e.streamSize);
    RoundTrip32(e.padding);
  }

  /** The consecutive pieces of an entry file. */
  datatype Parts = Parts(header: Bytes, key: Bytes, stream1: Bytes, eof1: Bytes, stream0: Bytes, digest: Bytes,
                         eof0: Bytes)

  ghost predicate WellSized(p: Parts) {
    |p.header| == FILE_HEADER_SIZE && |p.eof1| == EOF_SIZE && |p.eof0| == EOF_SIZE
  }

  function Assemble(p: Parts): Bytes {
    p.header + p.key + p.stream1 + p.eof1 + p.stream0 + p.digest + p.eof0
  }

  function HeaderEnd(p: Parts): nat {
    FILE_HEADER_SIZE + |p.key|
  }

  function Stream0Start(p: Parts): nat {
    HeaderEnd(p) + |p.stream1| + EOF_SIZE
  }

  function TotalSize(p: Parts): nat {
    Stream0Start(p) + |p.stream0| + |p.digest| + EOF_SIZE
  }

  /** The file has each piece in its place. */
  ghost predicate Holds(f: Bytes, p: Parts) {
    var a, b, c := HeaderEnd(p), Stream0Start(p), Stream0Start(p) + |p.stream0|;
    && |f| == TotalSize(p)
    && f[..FILE_HEADER_SIZE] == p.header
    && f[FILE_HEADER_SIZE..a] == p.key
    && f[a..a + |p.stream1|] == p.stream1
    && f[a + |p.stream1|..b] == p.eof1
    && f[b..c] == p.stream0
    && f[c..c + |p.digest|] == p.digest
    && f[c + |p.digest|..] == p.eof0
  }

  lemma AssembleHolds(p: Parts)
    requires WellSized(p)
    ensures Holds(Assemble(p), p)
  {
    var f := Assemble(p);
    var a, b, c := HeaderEnd(p), Stream0Start(p), Stream0Start(p) + |p.stream0|;
    assert f[..FILE_HEADER_SIZE] == p.header;
    assert f[FILE_HEADER_SIZE..a] == p.key;
    assert f[a..a + |p.stream1|] == p.stream1;
    assert f[a + |p.stream1|..b] == p.eof1;
    assert f[b..c] == p.stream0;
    assert f[c..c + |p.digest|] == p.digest;
    assert f[c + |p.digest|..] == p.eof0;
  }

  lemma SliceByte(f: Bytes, g: Bytes, lo: nat, hi: nat)
    requires lo <= hi <= |f| && hi <= |g| && f[lo..hi] == g[lo..hi]
    ensures forall i | lo <= i < hi :: f[i] == g[i]
  {
    assert forall i | lo <= i < hi :: f[i] == f[lo..hi][i - lo] && g[i] == g[lo..hi][i - lo];
  }

  /** The pieces decide the file. */
  lemma HoldsDecides(f: Bytes, g: Bytes, p: Parts)
    requires WellSized(p) && Holds(f, p) && Holds(g, p)
    ensures f == g
  {
    var a, b, c := HeaderEnd(p), Stream0Start(p), Stream0Start(p) + |p.stream0|;
    var d := c + |p.digest|;
    SliceByte(f, g, 0, FILE_HEADER_SIZE);
    SliceByte(f, g, FILE_HEADER_SIZE, a);
    SliceByte(f, g, a, a + |p.stream1|);
    SliceByte(f, g, a + |p.stream1|, b);
    SliceByte(f, g, b, c);
    SliceByte(f, g, c, d);
    assert f[d..|f|] == f[d..] == g[d..] == g[d..|g|];
    SliceByte(f, g, d, |f|);
  }

  /** Having every piece in its place is the same as being the assembled file. */
  lemma HoldsIsAssemble(f: Bytes, p: Parts)
    requires WellSized(p)
    ensures Holds(f, p) <==> f == Assemble(p)
  {
    hide Holds, Assemble;
    AssembleHolds(p);
    if Holds(f, p) {
      HoldsDecides(f, Assemble(p), p);
    }
  }
}
