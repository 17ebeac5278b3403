/** The entry object that owns the sparse file, with its in-memory index. */
module SparseEntry {
  import opened ByteSeqs
  import opened EntryFormat
  import opened SparseLayout
  import opened SparseStore

  datatype SparseOp = Write(offset: nat, buf: Bytes, limit: nat) | Reopen

  ghost predicate InRange(op: SparseOp) {
    op.Write? ==> op.offset + |op.buf| < U64_LIMIT
  }

  /** The partial map after a run of operations on a new entry. */
  ghost function Replay(ops: seq<SparseOp>): map<int, byte> {
    if ops == [] then map[]
    else
      var m := Replay(ops[..|ops| - 1]);
      match ops[|ops| - 1]
      case Write(offset, buf, limit) => WriteSpec(m, offset, buf, limit)
      case Reopen => m
  }

  class SparseSynchronousEntry {
    const crc32: Bytes -> u32
    const key: Bytes
    const keyHash: u32

    var isOpen: bool
    var file: Bytes
    var ranges: seq<SparseRange>
    var tail: nat
    var dataSize: nat

    /** The same ranges in file order. */
    ghost var log: seq<SparseRange>

    ghost function Start(): nat {
      FILE_HEADER_SIZE + |key|
    }

    ghost predicate Opened()
      reads this
    {
      && isOpen
      && tail == |file|
      && Start() <= |file|
      && file[..FILE_HEADER_SIZE] == FileHeader(SPARSE_ENTRY_VERSION, |key|, keyHash)
      && file[FILE_HEADER_SIZE..Start()] == key
      && Layout(crc32, Start(), file, ranges, log)
    }

    ghost predicate Inv()
      reads this
    {
      if isOpen then Opened() else file == [] && ranges == []
    }

    /** Memory and file agree, and the recorded size is the total length of the ranges. */
    ghost predicate Valid()
      reads this
    {
      Inv() && dataSize == Total(ranges)
    }

    ghost function Stored(): map<int, byte>
      requires Inv()
      reads this
    {
      Contents(crc32, file, ranges)
    }

    lemma OpenedSorted()
      requires Inv()
      ensures Sorted(ranges)
    {
    }

    lemma SizeIsStoredCount()
      requires Valid()
      ensures |Stored()| == dataSize
      ensures !isOpen ==> dataSize == 0 && Stored() == map[]
    {
      TotalIsStoredCount(crc32, file, ranges);
    }

    constructor (crc32: Bytes -> u32, key: Bytes, keyHash: u32)
      ensures Valid() && Stored() == map[]
      ensures this.crc32 == crc32 && this.key == key && this.keyHash == keyHash
    {
      this.crc32, this.key, this.keyHash := crc32, key, keyHash;
      isOpen, file, ranges, tail, dataSize := false, [], [], 0, 0;
      log := [];
    }

    /** Index of the first range at or after `offset`. */
    method LowerBound(offset: nat) returns (k: nat)
      requires Sorted(ranges)
      ensures k <= |ranges|
      ensures forall i | 0 <= i < k :: ranges[i].offset < offset
      ensures forall i | k <= i < |ranges| :: offset <= ranges[i].offset
    {
      k := 0;
      while k < |ranges| && ranges[k].offset < offset
        invariant k <= |ranges|
        invariant forall i | 0 <= i < k :: ranges[i].offset < offset
      {
        k := k + 1;
      }
    }

    method CreateSparseFile()
      requires Inv() && !isOpen
      modifies this
      ensures Opened() && Stored() == map[] && Total(ranges) == 0 && dataSize == old(dataSize)
    {
      hide FileHeader, WriteAt;
      FreshFile(FileHeader(SPARSE_ENTRY_VERSION, |key|, keyHash), key);
      file := WriteAt([], 0, FileHeader(SPARSE_ENTRY_VERSION, |key|, keyHash));
      file := WriteAt(file, FILE_HEADER_SIZE, key);
      ranges := [];
      tail := FILE_HEADER_SIZE + |key|;
      isOpen := true;
      log := [];
    }

    method TruncateSparseFile()
      requires Opened()
      modifies this
      ensures Opened() && Stored() == map[] && Total(ranges) == 0 && dataSize == old(dataSize)
    {
      hide FileHeader;
      ghost var was := file;
      file := SetLength(file, FILE_HEADER_SIZE + |key|);
      assert file[..FILE_HEADER_SIZE] == was[..FILE_HEADER_SIZE];
      assert file[FILE_HEADER_SIZE..Start()] == was[FILE_HEADER_SIZE..Start()];
      ranges := [];
      tail := FILE_HEADER_SIZE + |key|;
      log := [];
    }

    /** Write `d` at `o` bytes into range `i`, keeping its checksum right on disk and in memory. */
    method WriteSparseRange(i: nat, o: nat, d: Bytes)
      requires Opened() && i < |ranges| && o + |d| <= ranges[i].length
      modifies this
      ensures Opened() && dataSize == old(dataSize)
      ensures ranges == old(ranges)[i := old(ranges[i]).(crc := CrcAfter(crc32, old(ranges[i]), o, d))]
      ensures ranges[i].crc == if o == 0 && |d| == ranges[i].length then crc32(d) else 0
      ensures Stored() == old(Stored()) + IntervalMap(old(ranges[i].offset) + o, d)
    {
      hide RangeHeader, FileHeader, Contents, IntervalMap, Sorted, AllApart, Chain, WriteAt, RecordOk, Rewritten;
      ghost var rs, f := ranges, file;
      assert rs[i] in log;
      ghost var j :| 0 <= j < |log| && log[j] == rs[i];
      ghost var r' := rs[i].(crc := CrcAfter(crc32, rs[i], o, d));
      RewriteKeepsLayout(crc32, Start(), f, rs, log, i, j, o, d);
      RewriteContents(crc32, f, rs, i, o, d);
      ChainBounds(log, Start(), |f|, j);
      EditRange(i, o, d);
      log := log[j := r'];
      KeptBefore(f, r', o, d, Start());
    }

    /** The header, if the checksum changes, and then the data. */
    method EditRange(i: nat, o: nat, d: Bytes)
      requires i < |ranges| && RecordOk(crc32, file, ranges[i]) && o + |d| <= ranges[i].length
      modifies this`ranges, this`file
      ensures var r' := old(ranges[i]).(crc := CrcAfter(crc32, old(ranges[i]), o, d));
              && ranges == old(ranges)[i := r']
              && file == Rewritten(old(file), r', RangeHeader(r'), o, d)
    {
      hide RangeHeader, WriteAt;
      ghost var f := file;
      var r := ranges[i];
      var newCrc: u32 := 0;
      if o == 0 && |d| == r.length {
        newCrc := crc32(d);
      }
      if newCrc != r.crc {
        ranges := ranges[i := r.(crc := newCrc)];
        file := WriteAt(file, r.fileOffset - RANGE_HEADER_SIZE, RangeHeader(ranges[i]));
      } else {
        SameHeader(crc32, f, r);
      }
      file := WriteAt(file, r.fileOffset + o, d);
    }

    /** Append a new range at the end of the file and enter it into the index at position `k`. */
    method AppendSparseRange(offset: nat, d: Bytes) returns (k: nat)
      requires Opened() && d != [] && offset + |d| < U64_LIMIT
      requires forall i | 0 <= i < |ranges| :: End(ranges[i]) <= offset || offset + |d| <= ranges[i].offset
      modifies this
      ensures Opened() && dataSize == old(dataSize)
      ensures k <= |old(ranges)|
      ensures forall i | 0 <= i < k :: End(old(ranges)[i]) <= offset
      ensures forall i | k <= i < |old(ranges)| :: offset + |d| <= old(ranges)[i].offset
      ensures ranges == Inserted(old(ranges), k, SparseRange(offset, |d|, crc32(d), |old(file)| + RANGE_HEADER_SIZE))
      ensures Stored() == old(Stored()) + IntervalMap(offset, d)
    {
      hide RangeHeader, FileHeader, Contents, IntervalMap, AllApart, Chain, Inserted, RecordOk, WriteAt, SameElements;
      ghost var rs, f := ranges, file;
      k := LowerBound(offset);
      assert forall i | 0 <= i < k :: End(rs[i]) <= offset;
      ghost var r' := SparseRange(offset, |d|, crc32(d), |f| + RANGE_HEADER_SIZE);
      AppendKeepsLayout(crc32, Start(), f, rs, log, k, r', d);
      AppendContents(crc32, f, rs, k, r', d);

      var header := SparseRange(offset, |d|, crc32(d), tail + RANGE_HEADER_SIZE);
      file := WriteAt(file, tail, RangeHeader(header));
      tail := tail + RANGE_HEADER_SIZE;
      file := WriteAt(file, tail, d);
      var dataOffset := tail;
      tail := tail + |d|;
      ranges := Inserted(ranges, k, SparseRange(offset, |d|, crc32(d), dataOffset));
      log := log + [r'];
      AppendedFile(f, RangeHeader(r'), d, Start());
    }

    /** Write the part of `buf` that falls into the range overlapping its start, if there is one. */
    method WriteOverlap(offset: nat, buf: Bytes) returns (written: nat, it: nat)
      requires Opened() && offset + |buf| < U64_LIMIT
      modifies this
      ensures Opened() && dataSize == old(dataSize) && Total(ranges) == old(Total(ranges))
      ensures written <= |buf| && it <= |ranges|
      ensures Stored() == old(Stored()) + IntervalMap(offset, buf[..written])
      ensures written < |buf| ==> forall i | 0 <= i < it :: End(ranges[i]) <= offset + written
      ensures forall i | it <= i < |ranges| :: offset + written <= ranges[i].offset
    {
      hide Layout, Contents, IntervalMap, Total, FileHeader;
      OpenedSorted();
      it := LowerBound(offset);
      written := 0;
      NothingWritten(Stored(), offset, buf);
      if it > 0 {
        var r := ranges[it - 1];
        if End(r) > offset {
          var offsetInRange := offset - r.offset;
          written := Min(|buf|, r.length - offsetInRange);
          TotalUpdated(ranges, it - 1, r.(crc := CrcAfter(crc32, r, offsetInRange, buf[..written])));
          WriteSparseRange(it - 1, offsetInRange, buf[..written]);
        }
      }
    }

    /** One round: fill the gap before range `it`, then overwrite the range as far as `buf` goes. */
    method WriteThrough(offset: nat, buf: Bytes, w: nat, it: nat, ghost base: map<int, byte>)
      returns (written: nat, appended: nat, next: nat)
      requires Opened() && offset + |buf| < U64_LIMIT
      requires w < |buf| && it < |ranges| && ranges[it].offset < offset + |buf|
      requires Stored() == base + IntervalMap(offset, buf[..w])
      requires forall i | 0 <= i < it :: End(ranges[i]) <= offset + w
      requires forall i | it <= i < |ranges| :: offset + w <= ranges[i].offset
      modifies this
      ensures Opened() && dataSize == old(dataSize)
      ensures w < written <= |buf| && next <= |ranges| && |ranges| - next < |old(ranges)| - it
      ensures appended <= written - w && Total(ranges) == old(Total(ranges)) + appended
      ensures Stored() == base + IntervalMap(offset, buf[..written])
      ensures written < |buf| ==> forall i | 0 <= i < next :: End(ranges[i]) <= offset + written
      ensures forall i | next <= i < |ranges| :: offset + written <= ranges[i].offset
    {
      hide Layout, Contents, IntervalMap, Total, FileHeader, Sorted;
      written, appended, next := w, 0, it;
      if offset + written < ranges[it].offset {
        written, appended, next := FillGap(offset, buf, w, it, base);
      }
      RangeNonEmpty(next);
      var n := OverwriteRange(offset, buf, written, next, base);
      written := written + n;
      next := next + 1;
    }

    /** Overwrite range `it`, which starts where the written part ends. */
    method OverwriteRange(offset: nat, buf: Bytes, w: nat, it: nat, ghost base: map<int, byte>) returns (n: nat)
      requires Opened() && w <= |buf| && it < |ranges| && ranges[it].offset == offset + w
      requires Stored() == base + IntervalMap(offset, buf[..w])
      modifies this
      ensures Opened() && dataSize == old(dataSize) && Total(ranges) == old(Total(ranges))
      ensures n == Min(|buf| - w, old(ranges)[it].length)
      ensures Stored() == base + IntervalMap(offset, buf[..w + n])
      ensures |ranges| == |old(ranges)|
      ensures forall i | 0 <= i < |ranges| ::
                ranges[i].offset == old(ranges)[i].offset && ranges[i].length == old(ranges)[i].length
      ensures forall i | it < i < |ranges| :: offset + w + n <= ranges[i].offset
    {
      hide Layout, Contents, IntervalMap, Total, FileHeader, CrcAfter;
      OpenedSorted();
      var r := ranges[it];
      n := Min(|buf| - w, r.length);
      var piece := buf[w..w + n];
      TotalUpdated(ranges, it, r.(crc := CrcAfter(crc32, r, 0, piece)));
      WriteSparseRange(it, 0, piece);
      MoreWritten(base, offset, buf, w, n);
    }

    /** Append the bytes between what is written and the start of range `it`; that range moves up by one. */
    method FillGap(offset: nat, buf: Bytes, w: nat, it: nat, ghost base: map<int, byte>)
      returns (written: nat, appended: nat, next: nat)
      requires Opened() && offset + |buf| < U64_LIMIT
      requires w < |buf| && it < |ranges| && offset + w < ranges[it].offset < offset + |buf|
      requires Stored() == base + IntervalMap(offset, buf[..w])
      requires forall i | 0 <= i < it :: End(ranges[i]) <= offset + w
      modifies this
      ensures Opened() && dataSize == old(dataSize)
      ensures next == it + 1 && |ranges| == |old(ranges)| + 1 && ranges[next] == old(ranges)[it]
      ensures offset + written == ranges[next].offset && appended == written - w
      ensures Total(ranges) == old(Total(ranges)) + appended
      ensures Stored() == base + IntervalMap(offset, buf[..written])
      ensures forall i | 0 <= i < next :: End(ranges[i]) <= offset + written
      ensures forall i | next <= i < |ranges| :: offset + written <= ranges[i].offset
    {
      hide Layout, Contents, IntervalMap, Total, FileHeader, Inserted;
      OpenedSorted();
      ghost var rs := ranges;
      appended := ranges[it].offset - (offset + w);
      var piece := buf[w..w + appended];
      assert forall i | it < i < |rs| :: End(rs[it]) <= rs[i].offset;
      ghost var r := SparseRange(offset + w, |piece|, crc32(piece), |file| + RANGE_HEADER_SIZE);
      var k := AppendSparseRange(offset + w, piece);
      ghost var ends := (if k < |rs| then End(rs[k]) else 0, End(rs[it]));
      assert k == it;
      TotalInserted(rs, k, r);
      GapFilled(rs, it, r);
      MoreWritten(base, offset, buf, w, appended);
      written, next := w + appended, it + 1;
    }

    /** Write all of `buf`, counting the bytes that went into new ranges. */
    method WritePieces(offset: nat, buf: Bytes) returns (appended: nat)
      requires Opened() && offset + |buf| < U64_LIMIT
      modifies this
      ensures Opened() && dataSize == old(dataSize)
      ensures appended <= |buf| && Total(ranges) == old(Total(ranges)) + appended
      ensures Stored() == old(Stored()) + IntervalMap(offset, buf)
    {
      hide Layout, Contents, IntervalMap, Total, FileHeader, Inserted;
      ghost var base := Stored();
      appended := 0;
      var written: nat, it: nat := WriteOverlap(offset, buf);
      while written < |buf| && it < |ranges| && ranges[it].offset < offset + |buf|
        invariant Opened() && dataSize == old(dataSize)
        invariant written <= |buf| && it <= |ranges|
        invariant appended <= written && Total(ranges) == old(Total(ranges)) + appended
        invariant Stored() == base + IntervalMap(offset, buf[..written])
        invariant written < |buf| ==> forall i | 0 <= i < it :: End(ranges[i]) <= offset + written
        invariant forall i | it <= i < |ranges| :: offset + written <= ranges[i].offset
        decreases |ranges| - it
      {
        var more: nat;
        written, more, it := WriteThrough(offset, buf, written, it, base);
        appended := appended + more;
      }
      if written < |buf| {
        var more := WriteTail(offset, buf, written, it, base);
        appended := appended + more;
      } else {
        assert buf[..written] == buf;
      }
    }

    /** Write `buf` at `offset` over existing ranges and into the gaps between them. */
    method WriteSparseData(offset: nat, buf: Bytes, limit: nat) returns (outcome: WriteOutcome)
      requires Valid() && offset + |buf| < U64_LIMIT
      modifies this
      ensures Valid()
      ensures Stored() == WriteSpec(old(Stored()), offset, buf, limit)
      ensures outcome.Written? ==> forall p: int ::
                if offset <= p < offset + |buf| then p in Stored() && Stored()[p] == buf[p - offset]
                else if old(dataSize) + |buf| <= limit
                then (p in Stored() <==> p in old(Stored())) && (p in Stored() ==> Stored()[p] == old(Stored())[p])
                else p !in Stored()
      ensures outcome == if old(dataSize) + |buf| >= U64_LIMIT then WriteFailure else Written(|buf|)
      ensures outcome.Written? ==> isOpen && dataSize <= Max(limit, |buf|)
    {
      hide Layout, Contents, Total, FileHeader, WriteSpec;
      SizeIsStoredCount();
      if dataSize + |buf| < U64_LIMIT {
        forall p: int { WriteSpecMeans(Stored(), offset, buf, limit, p); }
      } else {
        NothingIfTooLarge(Stored(), offset, buf, limit);
      }
      if !isOpen {
        CreateSparseFile();
      }
      if dataSize + |buf| >= U64_LIMIT {
        return WriteFailure;
      }
      WriteWithin(offset, buf, limit);
      return Written(|buf|);
    }

    /** The write itself, on an open file. */
    method WriteWithin(offset: nat, buf: Bytes, limit: nat)
      requires Valid() && isOpen && offset + |buf| < U64_LIMIT && dataSize + |buf| < U64_LIMIT
      modifies this
      ensures Valid() && isOpen && dataSize <= Max(limit, |buf|)
      ensures Stored() == WriteSpec(old(Stored()), offset, buf, limit)
    {
      hide Layout, Contents, IntervalMap, Total, FileHeader;
      SizeIsStoredCount();
      MakeRoom(|buf|, limit);
      var appended := WritePieces(offset, buf);
      dataSize := dataSize + appended;
    }

    /** Empty the file when `n` more bytes might be too many. */
    method MakeRoom(n: nat, limit: nat)
      requires Valid() && isOpen
      modifies this
      ensures Valid() && isOpen && dataSize <= old(dataSize)
      ensures if old(dataSize) + n > limit then Stored() == map[] && dataSize == 0
              else Stored() == old(Stored()) && dataSize == old(dataSize)
    {
      hide Layout, Contents, Total, FileHeader;
      if dataSize + n > limit {
        TruncateSparseFile();
        dataSize := 0;
      }
    }

    /** Append what is left of `buf` after the last range it meets. */
    method WriteTail(offset: nat, buf: Bytes, w: nat, it: nat, ghost base: map<int, byte>) returns (appended: nat)
      requires Opened() && offset + |buf| < U64_LIMIT
      requires w < |buf| && it <= |ranges| && (it < |ranges| ==> offset + |buf| <= ranges[it].offset)
      requires Stored() == base + IntervalMap(offset, buf[..w])
      requires forall i | 0 <= i < it :: End(ranges[i]) <= offset + w
      modifies this
      ensures Opened() && dataSize == old(dataSize)
      ensures appended == |buf| - w && Total(ranges) == old(Total(ranges)) + appended
      ensures Stored() == base + IntervalMap(offset, buf)
    {
      hide Layout, Contents, IntervalMap, Total, FileHeader, Inserted;
      OpenedSorted();
      ghost var rs := ranges;
      appended := |buf| - w;
      var piece := buf[w..];
      assert piece == buf[w..w + appended] && buf[..w + appended] == buf;
      assert forall i | it < i < |rs| :: End(rs[it]) <= rs[i].offset;
      ghost var r := SparseRange(offset + w, |piece|, crc32(piece), |file| + RANGE_HEADER_SIZE);
      var k := AppendSparseRange(offset + w, piece);
      TotalInserted(rs, k, r);
      MoreWritten(base, offset, buf, w, appended);
    }

    /** Read `n` bytes from `o` bytes into range `i`, checking its checksum when all of it is read. */
    method ReadSparseRange(i: nat, o: nat, n: nat) returns (ok: bool, bytes: Bytes)
      requires Opened() && i < |ranges| && o + n <= ranges[i].length
      ensures ok && |bytes| == n
      ensures forall p | ranges[i].offset + o <= p < ranges[i].offset + o + n ::
                p in Stored() && Stored()[p] == bytes[p - ranges[i].offset - o]
    {
      hide Contents, Chain, RangeHeader, FileHeader;
      var r := ranges[i];
      assert RecordOk(crc32, file, r);
      forall p | r.offset <= p < r.offset + r.length
        ensures p in Stored() && Stored()[p] == file[r.fileOffset + (p - r.offset)]
      {
        ContentsAt(crc32, file, ranges, i, p);
      }
      ok, bytes := ReadChecked(r, o, n);
      if o == 0 && n == r.length {
        assert bytes == Data(file, r);
      }
    }

    /** Read from a range of any file; reading all of it fails exactly when a checksum is stored and does not match. */
    method ReadChecked(r: SparseRange, o: nat, n: nat) returns (ok: bool, bytes: Bytes)
      requires o + n <= r.length && r.fileOffset + o + n <= |file|
      ensures var data := file[r.fileOffset + o..r.fileOffset + o + n];
              && (ok <==> (o == 0 && n == r.length && r.crc != 0 ==> crc32(data) == r.crc))
              && (ok ==> bytes == data)
    {
      bytes := file[r.fileOffset + o..r.fileOffset + o + n];
      if o == 0 && n == r.length && r.crc != 0 {
        if crc32(bytes) != r.crc {
          return false, [];
        }
      }
      ok := true;
    }

    lemma RangeNonEmpty(i: nat)
      requires Inv() && i < |ranges|
      ensures 0 < ranges[i].length
    {
      OpenedSorted();
    }

    /** Nothing is stored at `p` when every range ends before it or starts after it. */
    lemma NotStored(p: int)
      requires Inv()
      requires forall i | 0 <= i < |ranges| :: End(ranges[i]) <= p || p < ranges[i].offset
      ensures p !in Stored()
    {
      ContentsNot(crc32, file, ranges, p);
    }

    /** Everything a range covers is stored. */
    lemma RangeStored(i: nat, p: int)
      requires Inv() && i < |ranges| && ranges[i].offset <= p < End(ranges[i])
      ensures p in Stored()
    {
      ContentsAt(crc32, file, ranges, i, p);
    }

    /** Read as many contiguous bytes from `offset` as are stored, up to `n`. */
    method ReadSparseData(offset: nat, n: nat) returns (outcome: ReadOutcome)
      requires Valid()
      ensures outcome.Read?
      ensures |outcome.bytes| == RunLength(Stored(), offset, n)
      ensures forall p | offset <= p < offset + |outcome.bytes| ::
                p in Stored() && Stored()[p] == outcome.bytes[p - offset]
    {
      hide Layout, Contents, FileHeader, Total, RunLength;
      OpenedSorted();
      if !isOpen || n == 0 {
        if n > 0 { NotStored(offset); }
        RunLengthUnique(Stored(), offset, n, 0);
        return Read([]);
      }
      var ok: bool, bytes: Bytes, it: nat;
      ok, bytes, it := ReadOverlap(offset, n);
      if !ok { return ReadFailure; }
      while |bytes| < n && it < |ranges| && ranges[it].offset == offset + |bytes|
        invariant |bytes| <= n && it <= |ranges|
        invariant forall p | offset <= p < offset + |bytes| :: p in Stored() && Stored()[p] == bytes[p - offset]
        invariant |bytes| < n ==> forall i | 0 <= i < it :: End(ranges[i]) <= offset + |bytes|
        invariant |bytes| < n ==> forall i | it <= i < |ranges| :: offset + |bytes| <= ranges[i].offset
        decreases |ranges| - it
      {
        var r := ranges[it];
        var chunk: Bytes;
        ok, chunk := ReadSparseRange(it, 0, Min(n - |bytes|, r.length));
        if !ok { return ReadFailure; }
        bytes := bytes + chunk;
        it := it + 1;
      }
      if |bytes| < n {
        NotStored(offset + |bytes|);
      }
      RunLengthUnique(Stored(), offset, n, |bytes|);
      return Read(bytes);
    }

    /** Read what the range overlapping the start has, if there is one. */
    method ReadOverlap(offset: nat, n: nat) returns (ok: bool, bytes: Bytes, it: nat)
      requires Opened()
      ensures ok && |bytes| <= n && it <= |ranges|
      ensures forall p | offset <= p < offset + |bytes| :: p in Stored() && Stored()[p] == bytes[p - offset]
      ensures |bytes| < n ==> forall i | 0 <= i < it :: End(ranges[i]) <= offset + |bytes|
      ensures |bytes| < n ==> forall i | it <= i < |ranges| :: offset + |bytes| <= ranges[i].offset
    {
      hide Layout, Contents, FileHeader;
      OpenedSorted();
      ok, bytes := true, [];
      it := LowerBound(offset);
      if it > 0 {
        var r := ranges[it - 1];
        if End(r) > offset {
          var o := offset - r.offset;
          ok, bytes := ReadSparseRange(it - 1, o, Min(n, r.length - o));
        }
      }
    }

    /** First stored position in the window, and how far the data from there is contiguous inside it. */
    method GetAvailableRange(offset: nat, len: nat) returns (start: nat, avail: nat)
      requires Valid() && offset + len < U64_LIMIT
      ensures offset <= start <= offset + len
      ensures forall p | offset <= p < start :: p !in Stored()
      ensures avail == RunLength(Stored(), start, offset + len - start)
      ensures avail == 0 ==> start == offset && forall p | offset <= p < offset + len :: p !in Stored()
    {
      hide Layout, Contents, FileHeader, Total, RunLength;
      OpenedSorted();
      var soFar: nat, it: nat;
      start, soFar, it := FirstInWindow(offset, len);
      soFar := ExtendRun(start, soFar, it, offset + len);
      avail := Min(soFar, len - (start - offset));
      RunLengthUnique(Stored(), start, offset + len - start, avail);
    }

    /** Where stored data starts in the window, and how much of it the range overlapping the window's start gives. */
    method FirstInWindow(offset: nat, len: nat) returns (start: nat, soFar: nat, it: nat)
      requires Inv() && offset + len < U64_LIMIT
      ensures (start == offset || offset < start < offset + len) && it <= |ranges|
      ensures forall p | offset <= p < start :: p !in Stored()
      ensures forall p | start <= p < start + soFar :: p in Stored()
      ensures forall i | 0 <= i < it :: End(ranges[i]) <= start + soFar
      ensures forall i | it <= i < |ranges| :: start + soFar <= ranges[i].offset
      ensures soFar == 0 && !(it < |ranges| && ranges[it].offset == start < offset + len) ==>
                start == offset && forall p | offset <= p < offset + len :: p !in Stored()
    {
      hide Layout, Contents, FileHeader;
      OpenedSorted();
      it := LowerBound(offset);
      start, soFar := offset, 0;
      if it < |ranges| && ranges[it].offset < offset + len {
        start := ranges[it].offset;
      }
      if (it == |ranges| || ranges[it].offset > offset) && it > 0 {
        if End(ranges[it - 1]) > offset {
          start, soFar := offset, End(ranges[it - 1]) - offset;
          forall p | start <= p < start + soFar ensures p in Stored() { RangeStored(it - 1, p); }
        }
      }
      assert forall i | 0 <= i < it :: End(ranges[i]) <= start + soFar;
      if soFar == 0 {
        forall p | offset <= p < offset + len && (p < start || it == |ranges| || ranges[it].offset >= offset + len)
          ensures p !in Stored()
        {
          NotStored(p);
        }
      }
    }

    /** Follow adjoining ranges from index `first` until a gap or the end of the window. */
    method ExtendRun(start: nat, soFar: nat, first: nat, end: nat) returns (total: nat)
      requires Inv() && first <= |ranges|
      requires forall p | start <= p < start + soFar :: p in Stored()
      requires forall i | 0 <= i < first :: End(ranges[i]) <= start + soFar
      requires forall i | first <= i < |ranges| :: start + soFar <= ranges[i].offset
      ensures soFar <= total
      ensures forall p | start <= p < start + total :: p in Stored()
      ensures start + total < end ==> start + total !in Stored()
      ensures first < |ranges| && ranges[first].offset == start + soFar < end ==> total > soFar
    {
      hide Layout, Contents, FileHeader;
      OpenedSorted();
      var it := first;
      total := soFar;
      while start + total < end && it < |ranges| && ranges[it].offset == start + total
        invariant first <= it <= |ranges| && soFar <= total && (it > first ==> total > soFar)
        invariant it == first ==> total == soFar
        invariant forall p | start <= p < start + total :: p in Stored()
        invariant forall i | 0 <= i < it :: End(ranges[i]) <= start + total
        invariant forall i | it <= i < |ranges| :: start + total <= ranges[i].offset
        decreases |ranges| - it
      {
        forall p | ranges[it].offset <= p < End(ranges[it]) ensures p in Stored() { RangeStored(it, p); }
        total := total + ranges[it].length;
        it := it + 1;
      }
      if start + total < end {
        NotStored(start + total);
      }
    }

    /** A read from where the query points, to the end of the window, returns exactly what it announced. */
    method ReadAvailableRange(offset: nat, len: nat) returns (start: nat, avail: nat, outcome: ReadOutcome)
      requires Valid() && offset + len < U64_LIMIT
      ensures offset <= start <= offset + len
      ensures outcome.Read? && |outcome.bytes| == avail
      ensures forall p | start <= p < start + avail :: p in Stored() && Stored()[p] == outcome.bytes[p - start]
      ensures forall p | offset <= p < start :: p !in Stored()
    {
      hide Layout, Contents, FileHeader, Total, RunLength;
      start, avail := GetAvailableRange(offset, len);
      outcome := ReadSparseData(start, offset + len - start);
    }

    /** Close and open again: the index is rebuilt from the file alone. */
    method ReopenSparseFile() returns (outcome: ScanOutcome)
      requires Valid() && isOpen && |file| < U64_LIMIT
      modifies this
      ensures Valid() && outcome.Scanned?
      ensures isOpen && file == old(file) && ranges == old(ranges) && tail == old(tail) && dataSize == old(dataSize)
      ensures log == old(log)
    {
      hide Layout, FileHeader, Contents, Total, ScanFrom;
      HeaderAccepted(file, |key|, keyHash);
      ScanRebuilds(crc32, Start(), file, ranges, log);
      outcome := ScanSparseFile(file, |key|);
      ranges, tail, dataSize := outcome.ranges, outcome.tail, outcome.dataSize;
    }

    /** Any run of writes and reopenings stores what the same run stores in the partial map. */
    method RunAll(ops: seq<SparseOp>)
      requires Valid() && Stored() == map[]
      requires forall i | 0 <= i < |ops| :: InRange(ops[i])
      modifies this
      ensures Valid() && Stored() == Replay(ops) && dataSize == |Replay(ops)|
    {
      hide Layout, FileHeader, Contents, Total, WriteSpec;
      var i: nat := 0;
      while i < |ops|
        invariant i <= |ops| && Valid() && Stored() == Replay(ops[..i])
      {
        assert ops[..i + 1][..i] == ops[..i] && InRange(ops[i]);
        match ops[i] {
          case Write(offset, buf, limit) =>
            var outcome := WriteSparseData(offset, buf, limit);
          case Reopen =>
            if isOpen && |file| < U64_LIMIT {
              var outcome := ReopenSparseFile();
            }
        }
        i := i + 1;
      }
      assert ops[..i] == ops;
      SizeIsStoredCount();
    }
  }

  /** What is written stays until it is written over, as long as no later write exceeds its limit. */
  lemma {:induction false} StaysUntilOverwritten(ops: seq<SparseOp>, i: nat, p: int)
    requires i < |ops| && ops[i].Write? && ops[i].offset <= p < ops[i].offset + |ops[i].buf|
    requires |Replay(ops[..i])| + |ops[i].buf| < U64_LIMIT
    requires forall j | i < j < |ops| && ops[j].Write? ::
               && !(ops[j].offset <= p < ops[j].offset + |ops[j].buf|)
               && |Replay(ops[..j])| + |ops[j].buf| <= ops[j].limit
    ensures p in Replay(ops) && Replay(ops)[p] == ops[i].buf[p - ops[i].offset]
    decreases |ops|
  {
    hide WriteSpec;
    var n := |ops| - 1;
    var m, op := Replay(ops[..n]), ops[n];
    if i < n {
      var before := ops[..n];
      assert before[..i] == ops[..i];
      forall j | i < j < n
        ensures before[j] == ops[j] && before[..j] == ops[..j]
      {
      }
      StaysUntilOverwritten(before, i, p);
      if op.Write? {
        KeptByWrite(m, op.offset, op.buf, op.limit, p);
      }
    } else {
      WriteSpecMeans(m, op.offset, op.buf, op.limit, p);
    }
  }

  lemma KeptByWrite(m: map<int, byte>, offset: nat, buf: Bytes, limit: nat, p: int)
    requires p in m && !(offset <= p < offset + |buf|) && |m| + |buf| <= limit
    ensures p in WriteSpec(m, offset, buf, limit) && WriteSpec(m, offset, buf, limit)[p] == m[p]
  {
    hide WriteSpec;
    if |m| + |buf| < U64_LIMIT {
      WriteSpecMeans(m, offset, buf, limit, p);
    } else {
      NothingIfTooLarge(m, offset, buf, limit);
    }
  }

  lemma NothingIfTooLarge(m: map<int, byte>, offset: nat, buf: Bytes, limit: nat)
    requires |m| + |buf| >= U64_LIMIT
    ensures WriteSpec(m, offset, buf, limit) == m
  {
  }

  lemma NothingWritten(m: map<int, byte>, offset: int, buf: Bytes)
    ensures m + IntervalMap(offset, buf[..0]) == m
  {
    hide IntervalMap;
  }

  /** A range put into the gap before range `it`, ending where that one starts. */
  lemma GapFilled(rs: seq<SparseRange>, it: nat, r: SparseRange)
    requires Sorted(rs) && it < |rs| && End(r) == rs[it].offset
    requires forall i | 0 <= i < it :: End(rs[i]) <= r.offset
    ensures var rs' := Inserted(rs, it, r);
            && |rs'| == |rs| + 1 && rs'[it + 1] == rs[it]
            && (forall i | 0 <= i <= it :: End(rs'[i]) <= rs[it].offset)
            && (forall i | it < i < |rs'| :: rs[it].offset <= rs'[i].offset)
  {
    var rs' := Inserted(rs, it, r);
    assert forall i | 0 <= i < it :: rs'[i] == rs[i];
    assert forall i | it < i < |rs'| :: rs'[i] == rs[i - 1];
  }

  /** Writing the next `n` bytes of a buffer extends what is written. */
  lemma MoreWritten(m: map<int, byte>, offset: int, buf: Bytes, w: nat, n: nat)
    requires w + n <= |buf|
    ensures m + IntervalMap(offset, buf[..w]) + IntervalMap(offset + w, buf[w..w + n])
         == m + IntervalMap(offset, buf[..w + n])
  {
    hide IntervalMap, Lookup;
    var m1 := m + IntervalMap(offset, buf[..w]);
    var a, b := m1 + IntervalMap(offset + w, buf[w..w + n]), m + IntervalMap(offset, buf[..w + n]);
    forall p
      ensures Lookup(a, p) == Lookup(b, p)
    {
      LookupOverlay(m, offset, buf[..w], p);
      LookupOverlay(m1, offset + w, buf[w..w + n], p);
      LookupOverlay(m, offset, buf[..w + n], p);
    }
    LookupsDecide(a, b);
  }

  lemma SameHeader(crc32: Bytes -> u32, f: Bytes, r: SparseRange)
    requires RecordOk(crc32, f, r)
    ensures WriteAt(f, r.fileOffset - RANGE_HEADER_SIZE, RangeHeader(r)) == f
  {
    hide RangeHeader, WriteAt;
    SameBytes(f, r.fileOffset - RANGE_HEADER_SIZE, RangeHeader(r));
  }

  lemma SameBytes(f: Bytes, off: nat, h: Bytes)
    requires off + |h| <= |f| && f[off..off + |h|] == h
    ensures WriteAt(f, off, h) == f
  {
    var g := WriteAt(f, off, h);
    forall i | 0 <= i < |f|
      ensures g[i] == f[i]
    {
      if off <= i < off + |h| {
        assert f[off..off + |h|][i - off] == f[i];
      }
    }
  }

  lemma AppendedFile(f: Bytes, h: Bytes, d: Bytes, n: nat)
    requires FILE_HEADER_SIZE <= n <= |f| && h != []
    ensures WriteAt(WriteAt(f, |f|, h), |f| + |h|, d) == f + h + d
    ensures (f + h + d)[..FILE_HEADER_SIZE] == f[..FILE_HEADER_SIZE]
    ensures (f + h + d)[FILE_HEADER_SIZE..n] == f[FILE_HEADER_SIZE..n]
  {
    hide WriteAt;
    assert WriteAt(f, |f|, h) == f + h;
    var x, y := WriteAt(f + h, |f| + |h|, d), f + h + d;
    assert |x| == |y|;
    assert forall i | 0 <= i < |y| :: x[i] == y[i];
  }

  lemma KeptBefore(f: Bytes, r: SparseRange, o: nat, d: Bytes, n: nat)
    requires FILE_HEADER_SIZE <= n <= r.fileOffset - RANGE_HEADER_SIZE && n <= |f|
    ensures var g := Rewritten(f, r, RangeHeader(r), o, d);
            n <= |g| && g[..FILE_HEADER_SIZE] == f[..FILE_HEADER_SIZE]
            && g[FILE_HEADER_SIZE..n] == f[FILE_HEADER_SIZE..n]
  {
    hide WriteAt, RangeHeader;
    PrefixKept(f, r.fileOffset - RANGE_HEADER_SIZE, RangeHeader(r), r.fileOffset + o, d, n);
  }

  lemma PrefixKept(f: Bytes, off: nat, h: Bytes, off': nat, d: Bytes, n: nat)
    requires FILE_HEADER_SIZE <= n <= off && n <= off' && n <= |f|
    ensures var g := WriteAt(WriteAt(f, off, h), off', d);
            n <= |g| && g[..FILE_HEADER_SIZE] == f[..FILE_HEADER_SIZE]
            && g[FILE_HEADER_SIZE..n] == f[FILE_HEADER_SIZE..n]
  {
  }
}
