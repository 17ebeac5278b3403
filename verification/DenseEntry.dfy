/**
 The dense streams of a cache entry. Stream 1 is edited in place in a file that also
 holds stream 0 after it; closing lays down both end-of-stream records.
 */
module DenseEntry {
  import opened ByteSeqs
  import opened EntryFormat

  /** One end-of-stream record to write on close; stream index 0 or 1. */
  datatype CrcRecord = CrcRecord(index: nat, hasCrc: bool, crc: u32)

  /** A stream as a plain byte sequence: write `buf` at `offset`, zero-filling a gap, optionally truncating after it. */
  function WriteStream(s: Bytes, offset: nat, buf: Bytes, truncate: bool): Bytes {
    var base := if |s| < offset then s + Zeros(offset - |s|) else s;
    var end := offset + |buf|;
    base[..offset] + buf + (if truncate || |base| <= end then [] else base[end..])
  }

  datatype StreamWrite = StreamWrite(offset: nat, buf: Bytes, truncate: bool)

  function Replay(s: Bytes, ws: seq<StreamWrite>): Bytes {
    if ws == [] then s
    else
      var w := ws[|ws| - 1];
      WriteStream(Replay(s, ws[..|ws| - 1]), w.offset, w.buf, w.truncate)
  }

  // ---------------------------------------------------------------------------
  // Offsets in the file
  // ---------------------------------------------------------------------------

  /** Stream sizes recorded for the entry. */
  datatype EntryStat = EntryStat(size0: nat, size1: nat)

  function DataSize(st: EntryStat, stream: nat): nat {
    if stream == 0 then st.size0 else st.size1
  }

  function OffsetInFile(st: EntryStat, keyLength: nat, offset: nat, stream: nat): nat {
    FILE_HEADER_SIZE + keyLength + offset + (if stream == 0 then st.size1 + EOF_SIZE else 0)
  }

  function EofOffsetInFile(st: EntryStat, keyLength: nat, stream: nat): nat {
    (if stream == 0 then SHA256_SIZE else 0) + OffsetInFile(st, keyLength, DataSize(st, stream), stream)
  }

  function LastEofOffsetInFile(st: EntryStat, keyLength: nat, stream: nat): nat {
    EofOffsetInFile(st, keyLength, if stream == 1 then 0 else stream)
  }

  // ---------------------------------------------------------------------------
  // Effect of a stream 1 write on the file
  // ---------------------------------------------------------------------------

  /** File contents after the write, and whether the trailing bytes are cut to the last record's offset. */
  function FileAfterWrite(f: Bytes, h: nat, size0: nat, size1: nat, offset: nat, buf: Bytes, truncate: bool): Bytes {
    var extending := offset + |buf| > size1;
    var f1 := if extending then SetLength(f, h + size1) else f;
    var f2 := WriteAt(f1, h + offset, buf);
    if !truncate && (|buf| > 0 || !extending) then f2
    else SetLength(f2, h + (offset + |buf|) + EOF_SIZE + size0 + SHA256_SIZE)
  }

  function SizeAfterWrite(size1: nat, offset: nat, buf: Bytes, truncate: bool): nat {
    if !truncate && (|buf| > 0 || !(offset + |buf| > size1)) then Max(size1, offset + |buf|) else offset + |buf|
  }

  /** Byte `i` of a written stream: from the buffer, from before, or zero in a gap. */
  lemma StreamByte(s: Bytes, offset: nat, buf: Bytes, truncate: bool, i: nat)
    requires i < |WriteStream(s, offset, buf, truncate)|
    ensures WriteStream(s, offset, buf, truncate)[i]
         == if offset <= i < offset + |buf| then buf[i - offset] else Peek(s, i)
  {
  }

  /** A write that truncates ends the stream after it; any other only ever makes it longer. */
  lemma StreamLength(s: Bytes, offset: nat, buf: Bytes, truncate: bool)
    ensures |WriteStream(s, offset, buf, truncate)| == SizeAfterWrite(|s|, offset, buf, truncate)
         == if truncate || |s| < offset + |buf| then offset + |buf| else |s|
  {
  }

  /** What is written stays until it is written over or cut off. */
  lemma {:induction false} StaysInStream(s: Bytes, ws: seq<StreamWrite>, i: nat, p: nat)
    requires i < |ws| && ws[i].offset <= p < ws[i].offset + |ws[i].buf|
    requires forall j | i < j < |ws| ::
               && !(ws[j].offset <= p < ws[j].offset + |ws[j].buf|)
               && (ws[j].truncate ==> p < ws[j].offset)
    ensures p < |Replay(s, ws)| && Replay(s, ws)[p] == ws[i].buf[p - ws[i].offset]
    decreases |ws|
  {
    hide WriteStream;
    var n := |ws| - 1;
    var before, w := Replay(s, ws[..n]), ws[n];
    StreamLength(before, w.offset, w.buf, w.truncate);
    if i < n {
      StaysInStream(s, ws[..n], i, p);
    }
    StreamByte(before, w.offset, w.buf, w.truncate, p);
  }

  lemma FileByte(f: Bytes, h: nat, size0: nat, size1: nat, offset: nat, buf: Bytes, truncate: bool, k: nat)
    requires h + size1 <= |f| && k < h + SizeAfterWrite(size1, offset, buf, truncate)
    ensures var f' := FileAfterWrite(f, h, size0, size1, offset, buf, truncate);
            k < |f'| && f'[k] == if h + offset <= k < h + offset + |buf| then buf[k - h - offset]
                                 else if k < h + size1 then f[k] else 0
  {
    hide WriteAt, SetLength;
  }

  /** Editing the file edits the stream, with gaps read back as zeros. */
  lemma WriteIsStreamWrite(f: Bytes, h: nat, size0: nat, size1: nat, offset: nat, buf: Bytes, truncate: bool)
    requires h + size1 <= |f|
    ensures var f' := FileAfterWrite(f, h, size0, size1, offset, buf, truncate);
            var size1' := SizeAfterWrite(size1, offset, buf, truncate);
            && h + size1' <= |f'|
            && f'[..h] == f[..h]
            && f'[h..h + size1'] == WriteStream(f[h..h + size1], offset, buf, truncate)
  {
    hide FileAfterWrite, WriteStream, SizeAfterWrite;
    var f' := FileAfterWrite(f, h, size0, size1, offset, buf, truncate);
    var size1' := SizeAfterWrite(size1, offset, buf, truncate);
    var s := f[h..h + size1];
    var s' := WriteStream(s, offset, buf, truncate);
    StreamLength(s, offset, buf, truncate);
    if h + size1' > 0 {
      FileByte(f, h, size0, size1, offset, buf, truncate, h + size1' - 1);
    }
    forall k | 0 <= k < h
      ensures f'[k] == f[k]
    {
      FileByte(f, h, size0, size1, offset, buf, truncate, k);
    }
    forall i | 0 <= i < size1'
      ensures f'[h..h + size1'][i] == s'[i]
    {
      FileByte(f, h, size0, size1, offset, buf, truncate, h + i);
      StreamByte(s, offset, buf, truncate, i);
    }
  }

  // ---------------------------------------------------------------------------
  // Effect of closing
  // ---------------------------------------------------------------------------

  function EofFor(hashes: Hashes, stream0: Bytes, r: CrcRecord): Eof {
    if r.index == 0 then
      Eof(FINAL_MAGIC, 3, if r.hasCrc then r.crc else hashes.crc32(stream0), |stream0| % U32_LIMIT, 0)
    else
      Eof(FINAL_MAGIC, if r.hasCrc then 1 else 0, r.crc, 0, 0)
  }

  /** Stream 0, the key digest and the record, written in turn from offset `b`, the length being set before the last. */
  function Stream0Written(f: Bytes, b: nat, s0: Bytes, sha: Bytes, eof: Bytes): Bytes {
    var c := b + |s0| + |sha|;
    WriteAt(SetLength(WriteAt(WriteAt(f, b, s0), b + |s0|, sha), c), c, eof)
  }

  /** File contents after one record is written. */
  function FileAfterRecord(hashes: Hashes, f: Bytes, key: Bytes, st: EntryStat, stream0: Bytes, r: CrcRecord): Bytes {
    var eofOffset := EofOffsetInFile(st, |key|, r.index);
    var eof := EofBytes(EofFor(hashes, stream0, r));
    if r.index == 0 then
      var at := OffsetInFile(st, |key|, 0, 0);
      Stream0Written(f, at, stream0, hashes.sha256(key), eof)
    else
      WriteAt(f, eofOffset, eof)
  }

  function FileAfterRecords(hashes: Hashes, f: Bytes, key: Bytes, st: EntryStat, stream0: Bytes,
                            rs: seq<CrcRecord>): Bytes
  {
    if rs == [] then f
    else FileAfterRecord(hashes, FileAfterRecords(hashes, f, key, st, stream0, rs[..|rs| - 1]), key, st, stream0,
                         rs[|rs| - 1])
  }

  /** Stream 0's record is among these. */
  predicate HasZero(rs: seq<CrcRecord>) {
    exists i :: 0 <= i < |rs| && rs[i].index == 0
  }

  lemma NoZero()
    ensures !HasZero([])
  {
  }

  lemma HasZeroNext(rs: seq<CrcRecord>, r: CrcRecord)
    ensures HasZero(rs + [r]) <==> HasZero(rs) || r.index == 0
  {
    var rs' := rs + [r];
    assert rs'[|rs|] == r && forall i | 0 <= i < |rs| :: rs'[i] == rs[i];
  }

  /** The pieces of a closed entry file. */
  function ClosedParts(hashes: Hashes, key: Bytes, stream1: Bytes, stream0: Bytes, r0: CrcRecord,
                       r1: CrcRecord): Parts
  {
    Parts(FileHeader(ENTRY_VERSION, |key|, hashes.keyHash(key)), key, stream1, EofBytes(EofFor(hashes, stream0, r1)),
          stream0, hashes.sha256(key), EofBytes(EofFor(hashes, stream0, r0)))
  }

  /** The tail of the file is exactly the pieces, and what lies before is untouched. */
  ghost predicate TailHolds(f: Bytes, f': Bytes, a: nat, e1: Bytes, s0: Bytes, sha: Bytes, e0: Bytes) {
    var b := a + |e1|;
    var c := b + |s0|;
    && a <= |f|
    && |f'| == c + |sha| + |e0|
    && f'[..a] == f[..a] && f'[a..b] == e1 && f'[b..c] == s0 && f'[c..c + |sha|] == sha && f'[c + |sha|..] == e0
  }

  lemma Stream0Bytes(f: Bytes, b: nat, s0: Bytes, sha: Bytes, e0: Bytes, i: nat)
    requires |sha| > 0 && |e0| > 0 && i < b + |s0| + |sha| + |e0|
    ensures var c := b + |s0|;
            var f' := Stream0Written(f, b, s0, sha, e0);
            |f'| == c + |sha| + |e0|
            && f'[i] == if i < b then Peek(f, i) else if i < c then s0[i - b]
                        else if i < c + |sha| then sha[i - c] else e0[i - c - |sha|]
  {
  }

  /** Byte `i` of a file that keeps `f` up to `a` and then holds the four pieces. */
  function TailByte(f: Bytes, a: nat, e1: Bytes, s0: Bytes, sha: Bytes, e0: Bytes, i: nat): byte
    requires a <= |f| && i < a + |e1| + |s0| + |sha| + |e0|
  {
    var b := a + |e1|;
    var c := b + |s0|;
    var d := c + |sha|;
    if i < a then f[i] else if i < b then e1[i - a] else if i < c then s0[i - b] else if i < d then sha[i - c]
    else e0[i - d]
  }

  lemma TailFromBytes(f: Bytes, f': Bytes, a: nat, e1: Bytes, s0: Bytes, sha: Bytes, e0: Bytes)
    requires a <= |f| && |f'| == a + |e1| + |s0| + |sha| + |e0|
    requires forall i | 0 <= i < |f'| :: f'[i] == TailByte(f, a, e1, s0, sha, e0, i)
    ensures TailHolds(f, f', a, e1, s0, sha, e0)
  {
  }

  lemma ZeroThenOne(f: Bytes, a: nat, e1: Bytes, s0: Bytes, sha: Bytes, e0: Bytes)
    requires a <= |f| && |sha| > 0 && |e0| > 0 && |e1| > 0
    ensures TailHolds(f, WriteAt(Stream0Written(f, a + |e1|, s0, sha, e0), a, e1), a, e1, s0, sha, e0)
  {
    hide Stream0Written, WriteAt, TailHolds;
    var b := a + |e1|;
    Stream0Bytes(f, b, s0, sha, e0, 0);
    var g := Stream0Written(f, b, s0, sha, e0);
    var f' := WriteAt(g, a, e1);
    forall i | 0 <= i < |f'|
      ensures f'[i] == TailByte(f, a, e1, s0, sha, e0, i)
    {
      Stream0Bytes(f, b, s0, sha, e0, i);
    }
    TailFromBytes(f, f', a, e1, s0, sha, e0);
  }

  lemma OneThenZero(f: Bytes, a: nat, e1: Bytes, s0: Bytes, sha: Bytes, e0: Bytes)
    requires a <= |f| && |sha| > 0 && |e0| > 0 && |e1| > 0
    ensures TailHolds(f, Stream0Written(WriteAt(f, a, e1), a + |e1|, s0, sha, e0), a, e1, s0, sha, e0)
  {
    hide Stream0Written, WriteAt, TailHolds;
    var b, g := a + |e1|, WriteAt(f, a, e1);
    Stream0Bytes(g, b, s0, sha, e0, 0);
    var f' := Stream0Written(g, b, s0, sha, e0);
    forall i | 0 <= i < |f'|
      ensures f'[i] == TailByte(f, a, e1, s0, sha, e0, i)
    {
      Stream0Bytes(g, b, s0, sha, e0, i);
    }
    TailFromBytes(f, f', a, e1, s0, sha, e0);
  }

  /** Stream 0 alone, with its digest and record: what lies before is untouched. */
  lemma ZeroAlone(f: Bytes, a: nat, s0: Bytes, sha: Bytes, e0: Bytes)
    requires a <= |f| && |sha| > 0 && |e0| > 0
    ensures TailHolds(f, Stream0Written(f, a, s0, sha, e0), a, [], s0, sha, e0)
  {
    hide Stream0Written, TailHolds;
    Stream0Bytes(f, a, s0, sha, e0, 0);
    var f' := Stream0Written(f, a, s0, sha, e0);
    forall i | 0 <= i < |f'|
      ensures f'[i] == TailByte(f, a, [], s0, sha, e0, i)
    {
      Stream0Bytes(f, a, s0, sha, e0, i);
    }
    TailFromBytes(f, f', a, [], s0, sha, e0);
  }

  /** With only stream 0's record, the file has the new stream 0 and all other pieces as before. */
  lemma CloseZeroOnly(hashes: Hashes, f: Bytes, p: Parts, stream0: Bytes, r0: CrcRecord)
    requires WellSized(p) && Holds(f, p) && p.digest == hashes.sha256(p.key) && r0.index == 0
    ensures var st := EntryStat(|stream0|, |p.stream1|);
            Holds(FileAfterRecords(hashes, f, p.key, st, stream0, [r0]),
                  p.(stream0 := stream0, eof0 := EofBytes(EofFor(hashes, stream0, r0))))
  {
    hide EofBytes, EofFor, Stream0Written, TailHolds;
    var st, e0 := EntryStat(|stream0|, |p.stream1|), EofBytes(EofFor(hashes, stream0, r0));
    var a := Stream0Start(p);
    assert [r0][..0] == [];
    var f' := FileAfterRecord(hashes, f, p.key, st, stream0, r0);
    assert FileAfterRecords(hashes, f, p.key, st, stream0, [r0]) == f';
    ZeroAlone(f, a, stream0, p.digest, e0);
    FrontKept(f, f', p, stream0, e0);
  }

  lemma FrontKept(f: Bytes, f': Bytes, p: Parts, stream0: Bytes, e0: Bytes)
    requires WellSized(p) && Holds(f, p) && |e0| == EOF_SIZE
    requires TailHolds(f, f', Stream0Start(p), [], stream0, p.digest, e0)
    ensures Holds(f', p.(stream0 := stream0, eof0 := e0))
  {
    var h, a := HeaderEnd(p), Stream0Start(p);
    PrefixSliceKept(f, f', a, 0, FILE_HEADER_SIZE);
    PrefixSliceKept(f, f', a, FILE_HEADER_SIZE, h);
    PrefixSliceKept(f, f', a, h, h + |p.stream1|);
    PrefixSliceKept(f, f', a, h + |p.stream1|, a);
  }

  lemma TailGivesHolds(f: Bytes, f': Bytes, p: Parts)
    requires WellSized(p)
    requires TailHolds(f, f', HeaderEnd(p) + |p.stream1|, p.eof1, p.stream0, p.digest, p.eof0)
    requires var h := HeaderEnd(p);
             f[..FILE_HEADER_SIZE] == p.header && f[FILE_HEADER_SIZE..h] == p.key && f[h..h + |p.stream1|] == p.stream1
    ensures Holds(f', p)
  {
    var h, a := HeaderEnd(p), HeaderEnd(p) + |p.stream1|;
    PrefixSliceKept(f, f', a, 0, FILE_HEADER_SIZE);
    PrefixSliceKept(f, f', a, FILE_HEADER_SIZE, h);
    PrefixSliceKept(f, f', a, h, a);
  }

  /** Files that agree on a prefix agree on every slice of it. */
  lemma PrefixSliceKept(f: Bytes, f': Bytes, a: nat, lo: nat, hi: nat)
    requires lo <= hi <= a <= |f| && a <= |f'| && f'[..a] == f[..a]
    ensures f'[lo..hi] == f[lo..hi]
  {
    SliceOfSlice(f, 0, a, lo, hi);
    SliceOfSlice(f', 0, a, lo, hi);
  }

  /** Both records, in either order, give the same file: every piece in its place. */
  lemma CloseAssembles(hashes: Hashes, f: Bytes, key: Bytes, stream1: Bytes, stream0: Bytes, r0: CrcRecord,
                       r1: CrcRecord, rs: seq<CrcRecord>)
    requires r0.index == 0 && r1.index == 1 && (rs == [r0, r1] || rs == [r1, r0])
    requires var h := FILE_HEADER_SIZE + |key|;
             && h + |stream1| <= |f|
             && f[..FILE_HEADER_SIZE] == FileHeader(ENTRY_VERSION, |key|, hashes.keyHash(key))
             && f[FILE_HEADER_SIZE..h] == key
             && f[h..h + |stream1|] == stream1
    ensures FileAfterRecords(hashes, f, key, EntryStat(|stream0|, |stream1|), stream0, rs)
         == Assemble(ClosedParts(hashes, key, stream1, stream0, r0, r1))
  {
    hide FileHeader, EofBytes, EofFor, WriteAt, Stream0Written, TailHolds, Assemble, Holds;
    var st, p := EntryStat(|stream0|, |stream1|), ClosedParts(hashes, key, stream1, stream0, r0, r1);
    var a := HeaderEnd(p) + |stream1|;
    assert rs[..1][..0] == [] && rs[..1] == [rs[0]];
    var g := FileAfterRecord(hashes, f, key, st, stream0, rs[0]);
    assert FileAfterRecords(hashes, f, key, st, stream0, rs[..1]) == g;
    var g' := FileAfterRecord(hashes, g, key, st, stream0, rs[1]);
    if rs == [r0, r1] {
      ZeroThenOne(f, a, p.eof1, stream0, p.digest, p.eof0);
    } else {
      OneThenZero(f, a, p.eof1, stream0, p.digest, p.eof0);
    }
    TailGivesHolds(f, g', p);
    HoldsIsAssemble(g', p);
  }

  // ---------------------------------------------------------------------------
  // The entry object
  // ---------------------------------------------------------------------------

  class DenseSynchronousEntry {
    const hashes: Hashes
    const key: Bytes

    var file: Bytes
    var size0: nat
    var size1: nat

    ghost predicate Valid()
      reads this
    {
      var h := FILE_HEADER_SIZE + |key|;
      && h + size1 <= |file|
      && file[..FILE_HEADER_SIZE] == FileHeader(ENTRY_VERSION, |key|, hashes.keyHash(key))
      && file[FILE_HEADER_SIZE..h] == key
    }

    ghost function Stream1(): Bytes
      requires Valid()
      reads this
    {
      file[FILE_HEADER_SIZE + |key|..FILE_HEADER_SIZE + |key| + size1]
    }

    /** Create the file: header and key, both streams empty. */
    constructor (hashes: Hashes, key: Bytes)
      ensures Valid() && Stream1() == [] && size0 == 0
      ensures this.hashes == hashes && this.key == key
    {
      hide FileHeader, WriteAt;
      this.hashes, this.key := hashes, key;
      size0, size1 := 0, 0;
      file := WriteAt(WriteAt([], 0, FileHeader(ENTRY_VERSION, |key|, hashes.keyHash(key))), FILE_HEADER_SIZE, key);
      new;
      FreshFile(FileHeader(ENTRY_VERSION, |key|, hashes.keyHash(key)), key);
    }

    /** The entry for a file that has been opened, with the sizes found. */
    constructor Reopened(hashes: Hashes, key: Bytes, file: Bytes, st: EntryStat)
      requires var h := FILE_HEADER_SIZE + |key|;
               && h + st.size1 <= |file|
               && file[..FILE_HEADER_SIZE] == FileHeader(ENTRY_VERSION, |key|, hashes.keyHash(key))
               && file[FILE_HEADER_SIZE..h] == key
      ensures Valid() && this.hashes == hashes && this.key == key
      ensures this.file == file && size0 == st.size0 && size1 == st.size1
    {
      hide FileHeader;
      this.hashes, this.key, this.file, size0, size1 := hashes, key, file, st.size0, st.size1;
    }

    /** Write to stream 1. */
    method WriteData(offset: nat, buf: Bytes, truncate: bool)
      requires Valid()
      modifies this
      ensures Valid() && size0 == old(size0)
      ensures Stream1() == WriteStream(old(Stream1()), offset, buf, truncate)
    {
      hide FileHeader, FileAfterWrite, SizeAfterWrite, WriteStream;
      ghost var f, h := file, FILE_HEADER_SIZE + |key|;
      WriteIsStreamWrite(f, h, size0, size1, offset, buf, truncate);
      EditFile(offset, buf, truncate);
      HeaderKept(f, file, FILE_HEADER_SIZE, h);
    }

    /** Extend, write and cut the file, and set the stream's size. */
    method EditFile(offset: nat, buf: Bytes, truncate: bool)
      modifies this
      ensures file == FileAfterWrite(old(file), FILE_HEADER_SIZE + |key|, size0, old(size1), offset, buf, truncate)
      ensures size0 == old(size0) && size1 == SizeAfterWrite(old(size1), offset, buf, truncate)
    {
      hide WriteAt, SetLength;
      var fileOffset := OffsetInFile(EntryStat(size0, size1), |key|, offset, 1);
      var extending := offset + |buf| > size1;
      if extending {
        file := SetLength(file, EofOffsetInFile(EntryStat(size0, size1), |key|, 1));
      }
      file := WriteAt(file, fileOffset, buf);
      if !truncate && (|buf| > 0 || !extending) {
        size1 := Max(size1, offset + |buf|);
      } else {
        size1 := offset + |buf|;
        file := SetLength(file, LastEofOffsetInFile(EntryStat(size0, size1), |key|, 1));
      }
    }

    /**
     Lay down the end-of-stream records. With stream 0's among them the result is the trailer size the next open
     should prefetch, as a signed 32-bit number; without it, -1.
     */
    method Close(records: seq<CrcRecord>, stream0: Bytes) returns (estimatedTrailer: int)
      requires Valid() && |stream0| <= INT_MAX
      requires forall i | 0 <= i < |records| :: records[i].index <= 1
      modifies this
      ensures size0 == |stream0| && size1 == old(size1)
      ensures file == FileAfterRecords(hashes, old(file), key, EntryStat(|stream0|, size1), stream0, records)
      ensures estimatedTrailer == if HasZero(records) then Signed(|stream0| + SHA256_SIZE + EOF_SIZE) else -1
    {
      hide FileAfterRecord, FileHeader, Signed, HasZero;
      NoZero();
      assert records[..0] == [];
      size0 := |stream0|;
      estimatedTrailer := -1;
      var i := 0;
      while i < |records|
        invariant i <= |records| && size0 == |stream0| && size1 == old(size1)
        invariant file == FileAfterRecords(hashes, old(file), key, EntryStat(|stream0|, size1), stream0, records[..i])
        invariant estimatedTrailer == if HasZero(records[..i]) then Signed(|stream0| + SHA256_SIZE + EOF_SIZE) else -1
      {
        WriteRecord(records[i], stream0);
        if records[i].index == 0 {
          estimatedTrailer := Signed(|stream0| + SHA256_SIZE + EOF_SIZE);
        }
        assert records[..i + 1][..i] == records[..i];
        HasZeroNext(records[..i], records[i]);
        assert records[..i + 1] == records[..i] + [records[i]];
        i := i + 1;
      }
      assert records[..i] == records;
    }

    method WriteRecord(r: CrcRecord, stream0: Bytes)
      requires r.index <= 1 && size0 == |stream0| <= INT_MAX
      modifies this`file
      ensures file == FileAfterRecord(hashes, old(file), key, EntryStat(size0, size1), stream0, r)
    {
      hide EofBytes, WriteAt, SetLength;
      var st := EntryStat(size0, size1);
      var crc, hasCrc := r.crc, r.hasCrc;
      if r.index == 0 {
        var at := OffsetInFile(st, |key|, 0, 0);
        file := WriteAt(file, at, stream0);
        file := WriteAt(file, at + size0, hashes.sha256(key));
        if !hasCrc {
          crc, hasCrc := hashes.crc32(stream0), true;
        }
      }
      var flags := (if hasCrc then 1 else 0) + (if r.index == 0 then 2 else 0);
      var eof := Eof(FINAL_MAGIC, flags, crc, if r.index == 0 then size0 else 0, 0);
      var eofOffset := EofOffsetInFile(st, |key|, r.index);
      if r.index == 0 {
        file := SetLength(file, eofOffset);
      }
      file := WriteAt(file, eofOffset, EofBytes(eof));
      assert eof == EofFor(hashes, stream0, r);
    }

    /** Any run of stream 1 writes leaves the stream the same writes leave in a plain sequence. */
    method WriteAll(ws: seq<StreamWrite>)
      requires Valid()
      modifies this
      ensures ws == [] ==> file == old(file)
      ensures Valid() && size0 == old(size0) && Stream1() == Replay(old(Stream1()), ws)
    {
      hide FileHeader, WriteStream;
      var i := 0;
      while i < |ws|
        invariant i <= |ws| && Valid() && size0 == old(size0) && Stream1() == Replay(old(Stream1()), ws[..i])
        invariant i == 0 ==> file == old(file)
      {
        assert ws[..i + 1][..i] == ws[..i];
        WriteData(ws[i].offset, ws[i].buf, ws[i].truncate);
        i := i + 1;
      }
      assert ws[..i] == ws;
    }
  }

  lemma HeaderKept(f: Bytes, f': Bytes, a: nat, b: nat)
    requires a <= b <= |f| && b <= |f'| && f'[..b] == f[..b]
    ensures f'[..a] == f[..a] && f'[a..b] == f[a..b]
  {
    assert f'[..a] == f'[..b][..a] && f[..a] == f[..b][..a];
    assert f'[a..b] == f'[..b][a..] && f[a..b] == f[..b][a..];
  }
}
