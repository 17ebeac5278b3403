/**
 What the sparse stream of a cache entry promises in terms of a partial map from sparse offset to byte, and the
 scan that rebuilds the index of its ranges from the file.
 */
module SparseStore {
  import opened ByteSeqs
  import opened EntryFormat
  import opened SparseLayout

  datatype WriteOutcome = Written(count: nat) | WriteFailure
  datatype ReadOutcome = Read(bytes: Bytes) | ReadFailure

  /** `OffsetWraps` marks the point where the scan's 64-bit file offset would wrap. */
  datatype ScanOutcome = Scanned(ranges: seq<SparseRange>, tail: nat, dataSize: nat) | Rejected | OffsetWraps

  // ---------------------------------------------------------------------------
  // Specification on the partial map
  // ---------------------------------------------------------------------------

  /** A write first empties the store when the pessimistic size estimate exceeds the limit. */
  ghost function WriteSpec(m: map<int, byte>, offset: nat, buf: Bytes, limit: nat): map<int, byte> {
    if |m| + |buf| >= U64_LIMIT then m
    else (if |m| + |buf| > limit then map[] else m) + IntervalMap(offset, buf)
  }

  /**
   Byte by byte: inside the buffer's interval the buffer's, elsewhere what was there, unless old size and buffer
   together exceed the limit; then nothing else is left.
   */
  lemma WriteSpecMeans(m: map<int, byte>, offset: nat, buf: Bytes, limit: nat, p: int)
    requires |m| + |buf| < U64_LIMIT
    ensures var m' := WriteSpec(m, offset, buf, limit);
            if offset <= p < offset + |buf| then p in m' && m'[p] == buf[p - offset]
            else if |m| + |buf| <= limit then (p in m' <==> p in m) && (p in m ==> m'[p] == m[p])
            else p !in m'
  {
    hide IntervalMap;
    LookupOverlay(if |m| + |buf| > limit then map[] else m, offset, buf, p);
  }

  /** Length of the contiguous stored run from `p`, at most `cap`. */
  ghost function RunLength(m: map<int, byte>, p: int, cap: nat): (n: nat)
    ensures n <= cap
    ensures forall k | p <= k < p + n :: k in m
    ensures n < cap ==> p + n !in m
    decreases cap
  {
    if cap == 0 || p !in m then 0 else 1 + RunLength(m, p + 1, cap - 1)
  }

  /** The run length is the only number with these properties. */
  lemma {:induction false} RunLengthUnique(m: map<int, byte>, p: int, cap: nat, n: nat)
    requires n <= cap
    requires forall k | p <= k < p + n :: k in m
    requires n < cap ==> p + n !in m
    ensures n == RunLength(m, p, cap)
    decreases cap
  {
    if n > 0 {
      RunLengthUnique(m, p + 1, cap - 1, n - 1);
    }
  }

  // ---------------------------------------------------------------------------
  // The scan that rebuilds the index
  // ---------------------------------------------------------------------------

  /** Insertion into the ordered map: an existing key keeps its old range. */
  function Emplace(rs: seq<SparseRange>, r: SparseRange): seq<SparseRange> {
    if rs == [] then [r]
    else if rs[0].offset == r.offset then rs
    else if r.offset < rs[0].offset then [r] + rs
    else [rs[0]] + Emplace(rs[1..], r)
  }

  lemma {:induction false} EmplaceElements(rs: seq<SparseRange>, r: SparseRange, x: SparseRange)
    requires forall i | 0 <= i < |rs| :: rs[i].offset != r.offset
    ensures x in Emplace(rs, r) <==> x in rs || x == r
  {
    if rs != [] && rs[0].offset < r.offset {
      EmplaceElements(rs[1..], r, x);
      assert x in rs <==> x == rs[0] || x in rs[1..];
    }
  }

  lemma {:induction false} EmplaceSorted(rs: seq<SparseRange>, r: SparseRange)
    requires Sorted(rs) && 0 < r.length && End(r) < U64_LIMIT
    requires forall i | 0 <= i < |rs| :: End(rs[i]) <= r.offset || End(r) <= rs[i].offset
    ensures Sorted(Emplace(rs, r)) && Total(Emplace(rs, r)) == Total(rs) + r.length
  {
    if rs == [] {
    } else if r.offset < rs[0].offset {
      PrependSorted(r, rs);
    } else {
      SortedTail(rs);
      EmplaceSorted(rs[1..], r);
      EmplaceAbove(rs[1..], r, End(rs[0]));
      PrependSorted(rs[0], Emplace(rs[1..], r));
    }
  }

  /** A range in front of ranges that lie above it. */
  lemma PrependSorted(r: SparseRange, rs: seq<SparseRange>)
    requires Sorted(rs) && 0 < r.length && End(r) < U64_LIMIT
    requires forall i | 0 <= i < |rs| :: End(r) <= rs[i].offset
    ensures Sorted([r] + rs) && Total([r] + rs) == r.length + Total(rs)
  {
    assert ([r] + rs)[1..] == rs;
  }

  lemma SortedTail(rs: seq<SparseRange>)
    requires Sorted(rs) && rs != []
    ensures Sorted(rs[1..]) && Total(rs) == rs[0].length + Total(rs[1..])
    ensures 0 < rs[0].length && End(rs[0]) < U64_LIMIT
    ensures forall i | 0 <= i < |rs[1..]| :: End(rs[0]) <= rs[1..][i].offset
  {
  }

  lemma {:induction false} EmplaceAbove(rs: seq<SparseRange>, r: SparseRange, lo: nat)
    requires lo <= r.offset && forall i | 0 <= i < |rs| :: lo <= rs[i].offset
    ensures forall i | 0 <= i < |Emplace(rs, r)| :: lo <= Emplace(rs, r)[i].offset
  {
    if rs != [] && rs[0].offset < r.offset {
      EmplaceAbove(rs[1..], r, lo);
    }
  }

  function RangeAt(h: Bytes, off: nat): (r: SparseRange)
    requires |h| == RANGE_HEADER_SIZE
  {
    FromLEBound(h[24..28]);
    Pow256Values();
    SparseRange(FromLE(h[8..16]), FromLE(h[16..24]), FromLE(h[24..28]), off + RANGE_HEADER_SIZE)
  }

  /** What the scan yields from file offset `off` on, given what it has collected so far. */
  function ScanFrom(f: Bytes, off: nat, rs: seq<SparseRange>, size: nat): ScanOutcome
    decreases |f| - off
  {
    var h := ReadUpTo(f, off, RANGE_HEADER_SIZE);
    if h == [] then Scanned(rs, off, size)
    else if |h| != RANGE_HEADER_SIZE || FromLE(h[0..8]) != SPARSE_RANGE_MAGIC then Rejected
    else
      var r := RangeAt(h, off);
      if End(r) >= U64_LIMIT then Rejected
      else if FileEnd(r) >= U64_LIMIT then OffsetWraps
      else ScanFrom(f, FileEnd(r), Emplace(rs, r), size + r.length)
  }

  /**
   At the end of the file the scan is done. A header that is cut off, has another magic number or describes a range
   beyond 64 bits rejects the whole file.
   */
  lemma ScanRejects(f: Bytes, off: nat, rs: seq<SparseRange>, size: nat)
    ensures off >= |f| ==> ScanFrom(f, off, rs, size) == Scanned(rs, off, size)
    ensures off < |f| < off + 32 ==> ScanFrom(f, off, rs, size) == Rejected
    ensures off + 32 <= |f| && FromLE(f[off..off + 8]) != 0xeb97bf016553676b ==> ScanFrom(f, off, rs, size) == Rejected
    ensures off + 32 <= |f| && FromLE(f[off + 8..off + 16]) + FromLE(f[off + 16..off + 24]) >= U64_LIMIT ==>
              ScanFrom(f, off, rs, size) == Rejected
  {
    hide FromLE, Emplace;
    var h := ReadUpTo(f, off, RANGE_HEADER_SIZE);
    if off + 32 <= |f| {
      SliceOfSlice(f, off, off + 32, off, off + 8);
      SliceOfSlice(f, off, off + 32, off + 8, off + 16);
      SliceOfSlice(f, off, off + 32, off + 16, off + 24);
    }
  }

  /** A sparse offset seen before keeps its first range. */
  lemma {:induction false} EmplaceKeepsFirst(rs: seq<SparseRange>, r: SparseRange, i: nat)
    requires Sorted(rs) && i < |rs| && rs[i].offset == r.offset
    ensures Emplace(rs, r) == rs
  {
    if i > 0 {
      EmplaceKeepsFirst(rs[1..], r, i - 1);
      assert rs[0].offset < rs[0].offset + rs[0].length <= rs[i].offset;
    }
  }

  /** The scan reads a stored record back as exactly the range it was written for. */
  lemma ScanStep(crc32: Bytes -> u32, f: Bytes, r: SparseRange, rs: seq<SparseRange>, size: nat)
    requires RecordOk(crc32, f, r) && 0 < r.length && End(r) < U64_LIMIT && |f| < U64_LIMIT
    ensures ScanFrom(f, r.fileOffset - RANGE_HEADER_SIZE, rs, size)
         == ScanFrom(f, FileEnd(r), Emplace(rs, r), size + r.length)
  {
    hide RangeHeader, Emplace;
    var off := r.fileOffset - RANGE_HEADER_SIZE;
    var h := ReadUpTo(f, off, RANGE_HEADER_SIZE);
    assert h == RangeHeader(r);
    RangeHeaderFields(r);
    assert RangeAt(h, off) == r;
  }

  ghost predicate DisjointFrom(rs: seq<SparseRange>, r: SparseRange) {
    forall i | 0 <= i < |rs| :: End(rs[i]) <= r.offset || End(r) <= rs[i].offset
  }

  lemma OthersDisjoint(rs: seq<SparseRange>, acc: seq<SparseRange>, r: SparseRange)
    requires Sorted(rs) && r in rs && r !in acc && forall x | x in acc :: x in rs
    ensures DisjointFrom(acc, r) && 0 < r.length && End(r) < U64_LIMIT
  {
    var j :| 0 <= j < |rs| && rs[j] == r;
    forall i | 0 <= i < |acc|
      ensures End(acc[i]) <= r.offset || End(r) <= acc[i].offset
    {
      assert acc[i] in rs;
      var k :| 0 <= k < |rs| && rs[k] == acc[i];
      assert k != j;
    }
  }

  /** Taking in the next record keeps the collected ranges sorted and equal to the log so far. */
  lemma AccumulateNext(start: nat, tail: nat, rs: seq<SparseRange>, log: seq<SparseRange>,
                       i: nat, acc: seq<SparseRange>)
    requires Sorted(rs) && Chain(log, start, tail) && SameElements(rs, log) && i < |log|
    requires Sorted(acc) && SameElements(acc, log[..i])
    ensures Sorted(Emplace(acc, log[i])) && Total(Emplace(acc, log[i])) == Total(acc) + log[i].length
    ensures SameElements(Emplace(acc, log[i]), log[..i + 1])
    ensures log[i] in rs && 0 < log[i].length && End(log[i]) < U64_LIMIT
  {
    hide Emplace, Chain;
    var r := log[i];
    assert r in log;
    NewInLog(log, start, tail, i);
    forall x | x in acc
      ensures x in rs
    {
      assert x in log[..i] && x in log;
    }
    OthersDisjoint(rs, acc, r);
    EmplaceSorted(acc, r);
    AccumulatedElements(log, i, acc);
  }

  lemma AccumulatedElements(log: seq<SparseRange>, i: nat, acc: seq<SparseRange>)
    requires i < |log| && SameElements(acc, log[..i]) && DisjointFrom(acc, log[i]) && 0 < log[i].length
    requires forall k | 0 <= k < |acc| :: 0 < acc[k].length
    ensures SameElements(Emplace(acc, log[i]), log[..i + 1])
  {
    hide Emplace;
    var r := log[i];
    assert log[..i + 1] == log[..i] + [r];
    forall x: SparseRange
      ensures x in Emplace(acc, r) <==> x in log[..i + 1]
    {
      EmplaceElements(acc, r, x);
    }
  }

  lemma LayoutParts(crc32: Bytes -> u32, start: nat, f: Bytes, rs: seq<SparseRange>, log: seq<SparseRange>)
    requires Layout(crc32, start, f, rs, log)
    ensures Sorted(rs) && Chain(log, start, |f|) && SameElements(rs, log)
    ensures forall i | 0 <= i < |log| :: RecordOk(crc32, f, log[i])
  {
    hide Chain, RecordOk;
    forall i | 0 <= i < |log|
      ensures RecordOk(crc32, f, log[i])
    {
      assert log[i] in log;
    }
  }

  /** The first of the remaining records starts where they start; without any, that is their end. */
  lemma ChainOpens(log: seq<SparseRange>, i: nat, pos: nat, end: nat)
    requires i <= |log| && Chain(log[i..], pos, end)
    ensures i == |log| ==> pos == end
    ensures i < |log| ==> log[i].fileOffset == pos + RANGE_HEADER_SIZE && Chain(log[i + 1..], FileEnd(log[i]), end)
  {
    if i < |log| {
      assert log[i..][0] == log[i] && log[i..][1..] == log[i + 1..];
    }
  }

  lemma AtEndOfFile(f: Bytes, rs: seq<SparseRange>, size: nat)
    ensures ScanFrom(f, |f|, rs, size) == Scanned(rs, |f|, size)
  {
  }

  lemma SameIndex(acc: seq<SparseRange>, rs: seq<SparseRange>, log: seq<SparseRange>)
    requires Sorted(acc) && Sorted(rs) && SameElements(acc, log) && SameElements(rs, log)
    ensures acc == rs
  {
    hide Sorted;
    SortedUnique(acc, rs);
  }

  /** From record `i` on, the scan finishes with the full index. */
  lemma {:induction false} ScanRebuildsFrom(crc32: Bytes -> u32, start: nat, f: Bytes, rs: seq<SparseRange>,
                                            log: seq<SparseRange>, i: nat, pos: nat, acc: seq<SparseRange>)
    requires Layout(crc32, start, f, rs, log) && |f| < U64_LIMIT
    requires i <= |log| && Chain(log[i..], pos, |f|)
    requires Sorted(acc) && SameElements(acc, log[..i])
    ensures ScanFrom(f, pos, acc, Total(acc)) == Scanned(rs, |f|, Total(rs))
    decreases |log| - i
  {
    hide RecordOk, Emplace, Layout, Sorted, SameElements, Chain, ScanFrom, Total;
    LayoutParts(crc32, start, f, rs, log);
    ChainOpens(log, i, pos, |f|);
    if i == |log| {
      assert log[..i] == log;
      AtEndOfFile(f, acc, Total(acc));
      SameIndex(acc, rs, log);
    } else {
      var r := log[i];
      AccumulateNext(start, |f|, rs, log, i, acc);
      ScanStep(crc32, f, r, acc, Total(acc));
      ScanRebuildsFrom(crc32, start, f, rs, log, i + 1, FileEnd(r), Emplace(acc, r));
    }
  }

  lemma NewInLog(log: seq<SparseRange>, start: nat, tail: nat, i: nat)
    requires Chain(log, start, tail) && i < |log|
    ensures log[i] !in log[..i]
  {
    forall k | 0 <= k < i
      ensures log[k] != log[i]
    {
      ChainDistinct(log, start, tail, k, i);
    }
  }

  /** Scanning a file this code laid out rebuilds the index, the tail and the size exactly. */
  lemma ScanRebuilds(crc32: Bytes -> u32, start: nat, f: Bytes, rs: seq<SparseRange>, log: seq<SparseRange>)
    requires Layout(crc32, start, f, rs, log) && |f| < U64_LIMIT
    ensures ScanFrom(f, start, [], 0) == Scanned(rs, |f|, Total(rs))
  {
    assert log[0..] == log;
    ScanRebuildsFrom(crc32, start, f, rs, log, 0, start, []);
  }

  /** Read the whole file and rebuild the index from it; `keyLength` is the length of the entry's key. */
  method ScanSparseFile(f: Bytes, keyLength: nat) returns (outcome: ScanOutcome)
    ensures |f| < FILE_HEADER_SIZE ==> outcome == Rejected
    ensures |f| >= FILE_HEADER_SIZE ==>
              outcome == if FromLE(f[0..8]) == INITIAL_MAGIC && FromLE(f[8..12]) == SPARSE_ENTRY_VERSION
                         then ScanFrom(f, FILE_HEADER_SIZE + keyLength, [], 0) else Rejected
  {
    if |f| < FILE_HEADER_SIZE { return Rejected; }
    if FromLE(f[0..8]) != INITIAL_MAGIC { return Rejected; }
    if FromLE(f[8..12]) != SPARSE_ENTRY_VERSION { return Rejected; }
    var ranges: seq<SparseRange>, off: nat, size: nat := [], FILE_HEADER_SIZE + keyLength, 0;
    while true
      invariant ScanFrom(f, FILE_HEADER_SIZE + keyLength, [], 0) == ScanFrom(f, off, ranges, size)
      decreases |f| - off
    {
      var h := ReadUpTo(f, off, RANGE_HEADER_SIZE);
      if h == [] { break; }
      if |h| != RANGE_HEADER_SIZE { return Rejected; }
      if FromLE(h[0..8]) != SPARSE_RANGE_MAGIC { return Rejected; }
      var r := RangeAt(h, off);
      if End(r) >= U64_LIMIT { return Rejected; }
      if FileEnd(r) >= U64_LIMIT { return OffsetWraps; }
      ranges := Emplace(ranges, r);
      off := FileEnd(r);
      size := size + r.length;
    }
    return Scanned(ranges, off, size);
  }

  lemma HeaderAccepted(f: Bytes, keyLength: nat, keyHash: u32)
    requires FILE_HEADER_SIZE <= |f| && f[..FILE_HEADER_SIZE] == FileHeader(SPARSE_ENTRY_VERSION, keyLength, keyHash)
    ensures FromLE(f[0..8]) == INITIAL_MAGIC && FromLE(f[8..12]) == SPARSE_ENTRY_VERSION
  {
    hide LE, FromLE;
    var h := f[..FILE_HEADER_SIZE];
    FiveFields(LE(8, INITIAL_MAGIC), LE(4, SPARSE_ENTRY_VERSION), LE(4, keyLength), LE(4, keyHash), LE(4, 0));
    assert f[0..8] == h[0..8] && f[8..12] == h[8..12];
    RoundTrip64(INITIAL_MAGIC);
    RoundTrip32(SPARSE_ENTRY_VERSION);
  }
}
