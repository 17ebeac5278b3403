/**
 The sparse file as a value: range records, the partial byte map they stand for,
 and what an in-place write or an append does to both.
 */
module SparseLayout {
  import opened ByteSeqs

  const RANGE_HEADER_SIZE: nat := 32
  const SPARSE_RANGE_MAGIC: nat := 0xeb97bf016553676b
  const SPARSE_ENTRY_VERSION: nat := 9

  /** One range of stored bytes; `fileOffset` is where its data starts in the file. */
  datatype SparseRange = SparseRange(offset: nat, length: nat, crc: u32, fileOffset: nat)

  function End(r: SparseRange): nat {
    r.offset + r.length
  }

  function FileEnd(r: SparseRange): nat {
    r.fileOffset + r.length
  }

  predicate Covers(r: SparseRange, p: int) {
    r.offset <= p < r.offset + r.length
  }

  function RangeHeader(r: SparseRange): (h: Bytes)
    ensures |h| == RANGE_HEADER_SIZE
  {
    LE(8, SPARSE_RANGE_MAGIC) + LE(8, r.offset) + LE(8, r.length) + LE(4, r.crc) + LE(4, 0)
  }

  lemma RangeFields(a: Bytes, b: Bytes, c: Bytes, d: Bytes, e: Bytes)
    requires |a| == |b| == |c| == 8 && |d| == |e| == 4
    ensures var h := a + b + c + d + e;
            h[0..8] == a && h[8..16] == b && h[16..24] == c && h[24..28] == d
  {
  }

  lemma RangeHeaderFields(r: SparseRange)
    requires r.offset < U64_LIMIT && r.length < U64_LIMIT
    ensures var h := RangeHeader(r);
            FromLE(h[0..8]) == 0xeb97bf016553676b && FromLE(h[8..16]) == r.offset
            && FromLE(h[16..24]) == r.length && FromLE(h[24..28]) == r.crc
  {
    hide LE, FromLE;
    RangeFields(LE(8, SPARSE_RANGE_MAGIC), LE(8, r.offset), LE(8, r.length), LE(4, r.crc), LE(4, 0));
    RoundTrip64(SPARSE_RANGE_MAGIC);
    RoundTrip64(r.offset);
    RoundTrip64(r.length);
    RoundTrip32(r.crc);
  }

  // ---------------------------------------------------------------------------
  // Blocks of bytes and the partial map they stand for
  // ---------------------------------------------------------------------------

  /** Consecutive bytes starting at a sparse offset. */
  datatype Block = Block(offset: int, data: Bytes)

  ghost predicate BlocksSorted(bs: seq<Block>) {
    forall i, j | 0 <= i < j < |bs| :: bs[i].offset + |bs[i].data| <= bs[j].offset
  }

  ghost function Interval(a: int, n: nat): set<int> {
    if n == 0 then {} else Interval(a, n - 1) + {a + n - 1}
  }

  lemma {:induction false} IntervalHas(a: int, n: nat, p: int)
    ensures p in Interval(a, n) <==> a <= p < a + n
    ensures |Interval(a, n)| == n
  {
    if n > 0 {
      IntervalHas(a, n - 1, p);
      IntervalHas(a, n - 1, a + n - 1);
    }
  }

  /** The map with byte `d[k]` at `offset + k`. */
  ghost function IntervalMap(offset: int, d: Bytes): (m: map<int, byte>)
    ensures forall p :: p in m <==> offset <= p < offset + |d|
    ensures forall p | p in m :: m[p] == d[p - offset]
  {
    IntervalIs(offset, |d|);
    map p | p in Interval(offset, |d|) :: d[p - offset]
  }

  lemma IntervalIs(a: int, n: nat)
    ensures forall p :: p in Interval(a, n) <==> a <= p < a + n
  {
    forall p
      ensures p in Interval(a, n) <==> a <= p < a + n
    {
      IntervalHas(a, n, p);
    }
  }

  lemma IntervalMapSize(offset: int, d: Bytes)
    ensures |IntervalMap(offset, d)| == |d|
  {
    IntervalHas(offset, |d|, offset);
    assert IntervalMap(offset, d).Keys == Interval(offset, |d|);
  }

  ghost function BlockMap(bs: seq<Block>): map<int, byte> {
    if bs == [] then map[] else IntervalMap(bs[0].offset, bs[0].data) + BlockMap(bs[1..])
  }

  lemma {:induction false} BlockMapBounds(bs: seq<Block>, lo: int)
    requires forall i | 0 <= i < |bs| :: lo <= bs[i].offset
    ensures forall p | p in BlockMap(bs) :: lo <= p
  {
    hide IntervalMap;
    if bs != [] {
      BlockMapBounds(bs[1..], lo);
    }
  }

  /** A covered offset holds the block's byte. */
  lemma {:induction false} BlockMapAt(bs: seq<Block>, i: nat, p: int)
    requires BlocksSorted(bs) && i < |bs| && bs[i].offset <= p < bs[i].offset + |bs[i].data|
    ensures p in BlockMap(bs) && BlockMap(bs)[p] == bs[i].data[p - bs[i].offset]
  {
    hide IntervalMap;
    if i == 0 {
      BlockMapBounds(bs[1..], bs[0].offset + |bs[0].data|);
    } else {
      BlockMapAt(bs[1..], i - 1, p);
    }
  }

  /** An offset no block covers is not in the map. */
  lemma {:induction false} BlockMapNot(bs: seq<Block>, p: int)
    requires forall i | 0 <= i < |bs| :: !(bs[i].offset <= p < bs[i].offset + |bs[i].data|)
    ensures p !in BlockMap(bs)
  {
    hide IntervalMap;
    if bs != [] {
      BlockMapNot(bs[1..], p);
    }
  }

  function Spliced(data: Bytes, o: nat, d: Bytes): (r: Bytes)
    requires o + |d| <= |data|
    ensures |r| == |data|
  {
    data[..o] + d + data[o + |d|..]
  }

  /** What a map says about one offset. */
  ghost function Lookup(m: map<int, byte>, p: int): Option<byte> {
    if p in m then Some(m[p]) else None
  }

  lemma LookupsDecide(a: map<int, byte>, b: map<int, byte>)
    requires forall p :: Lookup(a, p) == Lookup(b, p)
    ensures a == b
  {
    forall p
      ensures p in a <==> p in b
      ensures p in a && p in b ==> a[p] == b[p]
    {
      assert Lookup(a, p) == Lookup(b, p);
    }
  }

  /** One offset, seen through an overwritten stretch. */
  ghost function Overlaid(old_: Option<byte>, offset: int, d: Bytes, p: int): Option<byte> {
    if offset <= p < offset + |d| then Some(d[p - offset]) else old_
  }

  lemma LookupOverlay(m: map<int, byte>, offset: int, d: Bytes, p: int)
    ensures Lookup(m + IntervalMap(offset, d), p) == Overlaid(Lookup(m, p), offset, d, p)
  {
    hide IntervalMap;
  }

  lemma LookupCons(bs: seq<Block>, b: Block, rest: seq<Block>, p: int)
    requires bs != [] && bs[0] == b && bs[1..] == rest
    ensures Lookup(BlockMap(bs), p)
         == if p in BlockMap(rest) then Lookup(BlockMap(rest), p)
            else if b.offset <= p < b.offset + |b.data| then Some(b.data[p - b.offset]) else None
  {
    hide IntervalMap;
  }

  lemma {:induction false} SpliceLookup(bs: seq<Block>, i: nat, o: nat, d: Bytes, p: int)
    requires BlocksSorted(bs) && i < |bs| && o + |d| <= |bs[i].data|
    ensures Lookup(BlockMap(bs[i := Block(bs[i].offset, Spliced(bs[i].data, o, d))]), p)
         == Overlaid(Lookup(BlockMap(bs), p), bs[i].offset + o, d, p)
  {
    hide IntervalMap, BlockMap;
    var b := Block(bs[i].offset, Spliced(bs[i].data, o, d));
    LookupCons(bs, bs[0], bs[1..], p);
    if i == 0 {
      LookupCons(bs[i := b], b, bs[1..], p);
      BlockMapBounds(bs[1..], bs[0].offset + |bs[0].data|);
    } else {
      LookupCons(bs[i := b], bs[0], bs[1..][i - 1 := b], p);
      SpliceLookup(bs[1..], i - 1, o, d, p);
    }
  }

  /** Overwriting inside one block overwrites the map there and nowhere else. */
  lemma BlockMapSplice(bs: seq<Block>, i: nat, o: nat, d: Bytes)
    requires BlocksSorted(bs) && i < |bs| && o + |d| <= |bs[i].data|
    ensures BlockMap(bs[i := Block(bs[i].offset, Spliced(bs[i].data, o, d))])
         == BlockMap(bs) + IntervalMap(bs[i].offset + o, d)
  {
    hide IntervalMap, BlockMap, Spliced, Lookup;
    var a := BlockMap(bs[i := Block(bs[i].offset, Spliced(bs[i].data, o, d))]);
    var b := BlockMap(bs) + IntervalMap(bs[i].offset + o, d);
    forall p
      ensures Lookup(a, p) == Lookup(b, p)
    {
      SpliceLookup(bs, i, o, d, p);
      LookupOverlay(BlockMap(bs), bs[i].offset + o, d, p);
    }
    LookupsDecide(a, b);
  }

  lemma {:induction false} InsertLookup(bs: seq<Block>, k: nat, b: Block, p: int)
    requires k <= |bs|
    requires forall i | k <= i < |bs| :: b.offset + |b.data| <= bs[i].offset
    ensures Lookup(BlockMap(bs[..k] + [b] + bs[k..]), p) == Overlaid(Lookup(BlockMap(bs), p), b.offset, b.data, p)
  {
    hide IntervalMap, BlockMap;
    var bs' := bs[..k] + [b] + bs[k..];
    if k == 0 {
      LookupCons(bs', b, bs, p);
      BlockMapBounds(bs, b.offset + |b.data|);
    } else {
      LookupCons(bs, bs[0], bs[1..], p);
      LookupCons(bs', bs[0], bs[1..][..k - 1] + [b] + bs[1..][k - 1..], p);
      InsertLookup(bs[1..], k - 1, b, p);
    }
  }

  /** Inserting a block between its neighbours adds exactly its bytes. */
  lemma BlockMapInsert(bs: seq<Block>, k: nat, b: Block)
    requires k <= |bs|
    requires forall i | k <= i < |bs| :: b.offset + |b.data| <= bs[i].offset
    ensures BlockMap(bs[..k] + [b] + bs[k..]) == BlockMap(bs) + IntervalMap(b.offset, b.data)
  {
    hide IntervalMap, BlockMap, Lookup;
    var m, m' := BlockMap(bs) + IntervalMap(b.offset, b.data), BlockMap(bs[..k] + [b] + bs[k..]);
    forall p
      ensures Lookup(m', p) == Lookup(m, p)
    {
      InsertLookup(bs, k, b, p);
      LookupOverlay(BlockMap(bs), b.offset, b.data, p);
    }
    LookupsDecide(m', m);
  }

  /** Disjoint blocks store as many bytes as they have in all. */
  lemma {:induction false} BlockMapSize(bs: seq<Block>)
    requires BlocksSorted(bs)
    ensures |BlockMap(bs)| == BlocksTotal(bs)
  {
    hide IntervalMap;
    if bs != [] {
      BlockMapSize(bs[1..]);
      IntervalMapSize(bs[0].offset, bs[0].data);
      BlockMapBounds(bs[1..], bs[0].offset + |bs[0].data|);
      var a, b := IntervalMap(bs[0].offset, bs[0].data), BlockMap(bs[1..]);
      assert (a + b).Keys == a.Keys + b.Keys && a.Keys !! b.Keys;
    }
  }

  function BlocksTotal(bs: seq<Block>): nat {
    if bs == [] then 0 else |bs[0].data| + BlocksTotal(bs[1..])
  }

  // ---------------------------------------------------------------------------
  // Well-formed range lists and files
  // ---------------------------------------------------------------------------

  /** Non-empty ranges that do not overlap, in increasing order. */
  ghost predicate Sorted(rs: seq<SparseRange>) {
    && (forall i | 0 <= i < |rs| :: 0 < rs[i].length && End(rs[i]) < U64_LIMIT)
    && (forall i, j | 0 <= i < j < |rs| :: End(rs[i]) <= rs[j].offset)
  }

  ghost predicate InBounds(f: Bytes, r: SparseRange) {
    RANGE_HEADER_SIZE <= r.fileOffset && FileEnd(r) <= |f|
  }

  /** The data bytes of a range. */
  ghost function Data(f: Bytes, r: SparseRange): Bytes
    requires InBounds(f, r)
  {
    f[r.fileOffset..r.fileOffset + r.length]
  }

  ghost function HeaderBytes(f: Bytes, r: SparseRange): Bytes
    requires InBounds(f, r)
  {
    f[r.fileOffset - RANGE_HEADER_SIZE..r.fileOffset]
  }

  /** The file holds the range's header, and its checksum is absent (0) or right. */
  ghost predicate RecordOk(crc32: Bytes -> u32, f: Bytes, r: SparseRange) {
    && InBounds(f, r)
    && HeaderBytes(f, r) == RangeHeader(r)
    && (r.crc != 0 ==> crc32(Data(f, r)) == r.crc)
  }

  /** `log` lists the records in file order, laid end to end from `start` to `tail`. */
  ghost predicate Chain(log: seq<SparseRange>, start: nat, tail: nat) {
    if log == [] then start == tail
    else log[0].fileOffset == start + RANGE_HEADER_SIZE && Chain(log[1..], FileEnd(log[0]), tail)
  }

  lemma {:induction false} ChainAppend(log: seq<SparseRange>, start: nat, tail: nat, r: SparseRange)
    requires Chain(log, start, tail) && r.fileOffset == tail + RANGE_HEADER_SIZE
    ensures Chain(log + [r], start, FileEnd(r))
  {
    if log != [] {
      ChainAppend(log[1..], FileEnd(log[0]), tail, r);
      assert (log + [r])[1..] == log[1..] + [r];
    }
  }

  lemma {:induction false} ChainUpdate(log: seq<SparseRange>, start: nat, tail: nat, j: nat, r: SparseRange)
    requires Chain(log, start, tail)
    requires j < |log| && r == log[j].(crc := r.crc)
    ensures Chain(log[j := r], start, tail)
  {
    if j == 0 {
      assert log[j := r][1..] == log[1..];
    } else {
      ChainUpdate(log[1..], FileEnd(log[0]), tail, j - 1, r);
      assert log[j := r][1..] == log[1..][j - 1 := r];
    }
  }

  /** Records of a chain lie between its ends. */
  lemma {:induction false} ChainBounds(log: seq<SparseRange>, start: nat, tail: nat, j: nat)
    requires Chain(log, start, tail) && j < |log|
    ensures start + RANGE_HEADER_SIZE <= log[j].fileOffset && FileEnd(log[j]) <= tail
  {
    if j == 0 {
      if |log| > 1 { ChainBounds(log[1..], FileEnd(log[0]), tail, 0); }
    } else {
      ChainBounds(log[1..], FileEnd(log[0]), tail, j - 1);
    }
  }

  /** No two records of a chain are the same, since their file positions differ. */
  lemma {:induction false} ChainDistinct(log: seq<SparseRange>, start: nat, tail: nat, i: nat, j: nat)
    requires Chain(log, start, tail) && i < j < |log|
    ensures log[i].fileOffset < log[j].fileOffset
  {
    if i == 0 {
      ChainBounds(log[1..], FileEnd(log[0]), tail, j - 1);
    } else {
      ChainDistinct(log[1..], FileEnd(log[0]), tail, i - 1, j - 1);
    }
  }

  ghost predicate SameElements(a: seq<SparseRange>, b: seq<SparseRange>) {
    forall r :: r in a <==> r in b
  }

  ghost predicate AllRecordsOk(crc32: Bytes -> u32, f: Bytes, rs: seq<SparseRange>) {
    forall i | 0 <= i < |rs| :: RecordOk(crc32, f, rs[i])
  }

  /** Records are apart in the file, headers included. */
  predicate Apart(a: SparseRange, b: SparseRange) {
    FileEnd(a) + RANGE_HEADER_SIZE <= b.fileOffset || FileEnd(b) + RANGE_HEADER_SIZE <= a.fileOffset
  }

  ghost predicate AllApart(rs: seq<SparseRange>) {
    forall i, j | 0 <= i < |rs| && 0 <= j < |rs| && i != j :: Apart(rs[i], rs[j])
  }

  /** Everything memory and file agree on. */
  ghost predicate Layout(crc32: Bytes -> u32, start: nat, f: Bytes, rs: seq<SparseRange>, log: seq<SparseRange>) {
    && Sorted(rs)
    && AllApart(rs)
    && AllRecordsOk(crc32, f, rs)
    && Chain(log, start, |f|)
    && SameElements(rs, log)
  }

  ghost function Blocks(crc32: Bytes -> u32, f: Bytes, rs: seq<SparseRange>): (bs: seq<Block>)
    requires AllRecordsOk(crc32, f, rs)
    ensures |bs| == |rs|
    ensures forall i | 0 <= i < |bs| :: bs[i] == Block(rs[i].offset, Data(f, rs[i]))
    ensures Sorted(rs) ==> BlocksSorted(bs)
  {
    seq(|rs|, i requires 0 <= i < |rs| => assert RecordOk(crc32, f, rs[i]); Block(rs[i].offset, Data(f, rs[i])))
  }

  /** The partial map from sparse offset to byte that file and ranges stand for. */
  ghost function Contents(crc32: Bytes -> u32, f: Bytes, rs: seq<SparseRange>): map<int, byte>
    requires AllRecordsOk(crc32, f, rs)
  {
    BlockMap(Blocks(crc32, f, rs))
  }

  lemma ContentsAt(crc32: Bytes -> u32, f: Bytes, rs: seq<SparseRange>, i: nat, p: int)
    requires Sorted(rs) && AllRecordsOk(crc32, f, rs) && i < |rs| && Covers(rs[i], p)
    ensures RecordOk(crc32, f, rs[i])
    ensures var m := Contents(crc32, f, rs);
            p in m && m[p] == f[rs[i].fileOffset + (p - rs[i].offset)]
  {
    hide BlockMap, RangeHeader;
    assert RecordOk(crc32, f, rs[i]);
    BlockMapAt(Blocks(crc32, f, rs), i, p);
  }

  lemma ContentsNot(crc32: Bytes -> u32, f: Bytes, rs: seq<SparseRange>, p: int)
    requires AllRecordsOk(crc32, f, rs)
    requires forall i | 0 <= i < |rs| :: !Covers(rs[i], p)
    ensures p !in Contents(crc32, f, rs)
  {
    hide BlockMap, RangeHeader;
    var bs := Blocks(crc32, f, rs);
    forall i | 0 <= i < |bs|
      ensures !(bs[i].offset <= p < bs[i].offset + |bs[i].data|)
    {
      assert RecordOk(crc32, f, rs[i]) && !Covers(rs[i], p);
    }
    BlockMapNot(bs, p);
  }

  // ---------------------------------------------------------------------------
  // Overwriting part of one range
  // ---------------------------------------------------------------------------

  /** The file after header `h` and then `d`, `o` bytes into the data, are written for range `r`. */
  function Rewritten(f: Bytes, r: SparseRange, h: Bytes, o: nat, d: Bytes): Bytes
    requires RANGE_HEADER_SIZE <= r.fileOffset
  {
    WriteAt(WriteAt(f, r.fileOffset - RANGE_HEADER_SIZE, h), r.fileOffset + o, d)
  }

  lemma RewrittenHere(f: Bytes, r: SparseRange, h: Bytes, o: nat, d: Bytes)
    requires InBounds(f, r) && |h| == RANGE_HEADER_SIZE && o + |d| <= r.length
    ensures var g := Rewritten(f, r, h, o, d);
            |g| == |f| && HeaderBytes(g, r) == h && Data(g, r) == Spliced(Data(f, r), o, d)
  {
    hide WriteAt, Spliced;
    var g := Rewritten(f, r, h, o, d);
    assert |g| == |f|;
    assert HeaderBytes(g, r) == h;
    var x, y := Data(g, r), Spliced(Data(f, r), o, d);
    SplicedBytes(Data(f, r), o, d);
    assert |x| == |y|;
    forall i | 0 <= i < |y|
      ensures x[i] == y[i]
    {
      assert x[i] == g[r.fileOffset + i];
      assert Data(f, r)[i] == f[r.fileOffset + i];
    }
  }

  lemma SplicedBytes(data: Bytes, o: nat, d: Bytes)
    requires o + |d| <= |data|
    ensures |Spliced(data, o, d)| == |data|
    ensures forall i | 0 <= i < |data| ::
              Spliced(data, o, d)[i] == if o <= i < o + |d| then d[i - o] else data[i]
  {
  }

  lemma RewrittenElsewhere(f: Bytes, r: SparseRange, h: Bytes, o: nat, d: Bytes, s: SparseRange)
    requires InBounds(f, r) && |h| == RANGE_HEADER_SIZE && o + |d| <= r.length
    requires InBounds(f, s) && Apart(r, s)
    ensures var g := Rewritten(f, r, h, o, d);
            |g| == |f| && HeaderBytes(g, s) == HeaderBytes(f, s) && Data(g, s) == Data(f, s)
  {
    hide WriteAt;
    var g := Rewritten(f, r, h, o, d);
    assert |g| == |f|;
    assert HeaderBytes(g, s) == HeaderBytes(f, s);
    assert Data(g, s) == Data(f, s);
  }

  /** The checksum a write of `d` at `o` leaves on a range: exact for a whole overwrite, else absent. */
  function CrcAfter(crc32: Bytes -> u32, r: SparseRange, o: nat, d: Bytes): u32 {
    if o == 0 && |d| == r.length then crc32(d) else 0
  }

  lemma RewriteRecords(crc32: Bytes -> u32, f: Bytes, rs: seq<SparseRange>, i: nat, o: nat, d: Bytes)
    requires AllApart(rs) && AllRecordsOk(crc32, f, rs)
    requires i < |rs| && o + |d| <= rs[i].length
    ensures InBounds(f, rs[i])
    ensures var r := rs[i].(crc := CrcAfter(crc32, rs[i], o, d));
            var g := Rewritten(f, r, RangeHeader(r), o, d);
            && |g| == |f| && AllRecordsOk(crc32, g, rs[i := r])
            && Data(g, r) == Spliced(Data(f, rs[i]), o, d)
            && forall k | 0 <= k < |rs| && k != i :: InBounds(f, rs[k]) && Data(g, rs[k]) == Data(f, rs[k])
  {
    hide RangeHeader, Rewritten, WriteAt;
    assert RecordOk(crc32, f, rs[i]);
    var r := rs[i].(crc := CrcAfter(crc32, rs[i], o, d));
    var h := RangeHeader(r);
    var g := Rewritten(f, r, h, o, d);
    RewrittenHere(f, r, h, o, d);
    assert o == 0 && |d| == r.length ==> Spliced(Data(f, rs[i]), o, d) == d;
    assert RecordOk(crc32, g, r);
    forall k | 0 <= k < |rs| && k != i
      ensures RecordOk(crc32, g, rs[k]) && InBounds(f, rs[k]) && Data(g, rs[k]) == Data(f, rs[k])
    {
      assert RecordOk(crc32, f, rs[k]) && Apart(rs[i], rs[k]);
      RewrittenElsewhere(f, r, h, o, d, rs[k]);
    }
  }

  lemma RewriteKeepsLayout(crc32: Bytes -> u32, start: nat, f: Bytes, rs: seq<SparseRange>, log: seq<SparseRange>,
                           i: nat, j: nat, o: nat, d: Bytes)
    requires Layout(crc32, start, f, rs, log)
    requires i < |rs| && j < |log| && rs[i] == log[j] && o + |d| <= rs[i].length
    ensures InBounds(f, rs[i])
    ensures var r := rs[i].(crc := CrcAfter(crc32, rs[i], o, d));
            var g := Rewritten(f, r, RangeHeader(r), o, d);
            |g| == |f| && Layout(crc32, start, g, rs[i := r], log[j := r])
  {
    hide RangeHeader, Rewritten, CrcAfter, RecordOk;
    var r := rs[i].(crc := CrcAfter(crc32, rs[i], o, d));
    RewriteRecords(crc32, f, rs, i, o, d);
    UpdateKeepsElements(rs, log, start, |f|, i, j, r);
    ChainUpdate(log, start, |f|, j, r);
    UpdateKeepsSorted(rs, i, r);
  }

  lemma UpdateKeepsSorted(rs: seq<SparseRange>, i: nat, r: SparseRange)
    requires Sorted(rs) && AllApart(rs)
    requires i < |rs| && r == rs[i].(crc := r.crc)
    ensures Sorted(rs[i := r]) && AllApart(rs[i := r])
  {
  }

  lemma BlocksUpdated(crc32: Bytes -> u32, f: Bytes, rs: seq<SparseRange>, g: Bytes, i: nat, r: SparseRange, b: Block)
    requires AllRecordsOk(crc32, f, rs) && i < |rs| && AllRecordsOk(crc32, g, rs[i := r])
    requires InBounds(g, r) && b == Block(r.offset, Data(g, r))
    requires forall k | 0 <= k < |rs| && k != i ::
               InBounds(f, rs[k]) && InBounds(g, rs[k]) && Data(g, rs[k]) == Data(f, rs[k])
    ensures Blocks(crc32, g, rs[i := r]) == Blocks(crc32, f, rs)[i := b]
  {
    hide RangeHeader, Data, RecordOk;
  }

  lemma RewriteContents(crc32: Bytes -> u32, f: Bytes, rs: seq<SparseRange>, i: nat, o: nat, d: Bytes)
    requires Sorted(rs) && AllApart(rs) && AllRecordsOk(crc32, f, rs)
    requires i < |rs| && o + |d| <= rs[i].length
    ensures InBounds(f, rs[i])
    ensures var r := rs[i].(crc := CrcAfter(crc32, rs[i], o, d));
            var g := Rewritten(f, r, RangeHeader(r), o, d);
            AllRecordsOk(crc32, g, rs[i := r])
            && Contents(crc32, g, rs[i := r]) == Contents(crc32, f, rs) + IntervalMap(rs[i].offset + o, d)
  {
    hide RangeHeader, Rewritten, CrcAfter, RecordOk, BlockMap, IntervalMap, Spliced;
    var r := rs[i].(crc := CrcAfter(crc32, rs[i], o, d));
    RewriteRecords(crc32, f, rs, i, o, d);
    var g := Rewritten(f, r, RangeHeader(r), o, d);
    var bs, b := Blocks(crc32, f, rs), Block(rs[i].offset, Spliced(Data(f, rs[i]), o, d));
    BlocksUpdated(crc32, f, rs, g, i, r, b);
    BlockMapSplice(bs, i, o, d);
  }

  lemma UpdateKeepsElements(rs: seq<SparseRange>, log: seq<SparseRange>, start: nat, tail: nat,
                            i: nat, j: nat, r: SparseRange)
    requires Sorted(rs) && SameElements(rs, log) && Chain(log, start, tail)
    requires i < |rs| && j < |log| && rs[i] == log[j]
    ensures SameElements(rs[i := r], log[j := r])
  {
    var rs', log' := rs[i := r], log[j := r];
    assert rs'[i] == r && log'[j] == r;
    forall x | x in rs'
      ensures x in log'
    {
      if x != r {
        var k :| 0 <= k < |rs| && rs'[k] == x;
        assert rs[k] in log;
        var l :| 0 <= l < |log| && log[l] == x;
        assert log'[l] == x;
      }
    }
    forall x | x in log'
      ensures x in rs'
    {
      if x != r {
        var l :| 0 <= l < |log| && log'[l] == x;
        assert log[l] in rs;
        var k :| 0 <= k < |rs| && rs[k] == x;
        if k == i {
          ChainDistinct(log, start, tail, if l < j then l else j, if l < j then j else l);
        }
        assert rs'[k] == x;
      }
    }
  }

  // ---------------------------------------------------------------------------
  // Appending a range
  // ---------------------------------------------------------------------------

  function Inserted(rs: seq<SparseRange>, k: nat, r: SparseRange): (rs': seq<SparseRange>)
    requires k <= |rs|
    ensures |rs'| == |rs| + 1
    ensures forall i | 0 <= i < |rs'| :: rs'[i] == if i < k then rs[i] else if i == k then r else rs[i - 1]
  {
    rs[..k] + [r] + rs[k..]
  }

  lemma AppendedHere(f: Bytes, h: Bytes, d: Bytes, r: SparseRange)
    requires |h| == RANGE_HEADER_SIZE && r.fileOffset == |f| + RANGE_HEADER_SIZE && r.length == |d|
    ensures InBounds(f + h + d, r) && HeaderBytes(f + h + d, r) == h && Data(f + h + d, r) == d
  {
  }

  lemma AppendedElsewhere(f: Bytes, h: Bytes, d: Bytes, s: SparseRange)
    requires InBounds(f, s)
    ensures InBounds(f + h + d, s)
    ensures HeaderBytes(f + h + d, s) == HeaderBytes(f, s) && Data(f + h + d, s) == Data(f, s)
  {
  }

  lemma AppendRecords(crc32: Bytes -> u32, f: Bytes, rs: seq<SparseRange>, k: nat, r: SparseRange, d: Bytes)
    requires AllApart(rs) && AllRecordsOk(crc32, f, rs) && k <= |rs|
    requires |d| == r.length && r.fileOffset == |f| + RANGE_HEADER_SIZE && r.crc == crc32(d)
    ensures var g := f + RangeHeader(r) + d;
            && AllRecordsOk(crc32, g, Inserted(rs, k, r)) && AllApart(Inserted(rs, k, r))
            && InBounds(g, r) && Data(g, r) == d
            && forall i | 0 <= i < |rs| :: InBounds(f, rs[i]) && InBounds(g, rs[i]) && Data(g, rs[i]) == Data(f, rs[i])
  {
    hide RangeHeader;
    var h := RangeHeader(r);
    var g := f + h + d;
    AppendedHere(f, h, d, r);
    assert RecordOk(crc32, g, r);
    forall i | 0 <= i < |rs|
      ensures RecordOk(crc32, g, rs[i]) && RecordOk(crc32, f, rs[i]) && Data(g, rs[i]) == Data(f, rs[i])
    {
      assert RecordOk(crc32, f, rs[i]);
      AppendedElsewhere(f, h, d, rs[i]);
    }
  }

  lemma AppendKeepsLayout(crc32: Bytes -> u32, start: nat, f: Bytes, rs: seq<SparseRange>, log: seq<SparseRange>,
                          k: nat, r: SparseRange, d: Bytes)
    requires Layout(crc32, start, f, rs, log)
    requires k <= |rs| && |d| == r.length > 0 && End(r) < U64_LIMIT
    requires r.fileOffset == |f| + RANGE_HEADER_SIZE && r.crc == crc32(d)
    requires forall i | 0 <= i < k :: End(rs[i]) <= r.offset
    requires forall i | k <= i < |rs| :: End(r) <= rs[i].offset
    ensures Layout(crc32, start, f + RangeHeader(r) + d, Inserted(rs, k, r), log + [r])
  {
    hide RangeHeader, RecordOk, Chain, Inserted, AllApart;
    AppendRecords(crc32, f, rs, k, r, d);
    AppendKeepsElements(rs, log, k, r);
    ChainAppend(log, start, |f|, r);
    AppendKeepsSorted(rs, k, r);
  }

  lemma AppendKeepsSorted(rs: seq<SparseRange>, k: nat, r: SparseRange)
    requires Sorted(rs) && k <= |rs| && r.length > 0 && End(r) < U64_LIMIT
    requires forall i | 0 <= i < k :: End(rs[i]) <= r.offset
    requires forall i | k <= i < |rs| :: End(r) <= rs[i].offset
    ensures Sorted(Inserted(rs, k, r))
  {
  }

  lemma BlocksInserted(crc32: Bytes -> u32, f: Bytes, rs: seq<SparseRange>, g: Bytes, k: nat, r: SparseRange, b: Block)
    requires AllRecordsOk(crc32, f, rs) && k <= |rs| && AllRecordsOk(crc32, g, Inserted(rs, k, r))
    requires InBounds(g, r) && b == Block(r.offset, Data(g, r))
    requires forall i | 0 <= i < |rs| :: InBounds(f, rs[i]) && InBounds(g, rs[i]) && Data(g, rs[i]) == Data(f, rs[i])
    ensures var bs := Blocks(crc32, f, rs);
            Blocks(crc32, g, Inserted(rs, k, r)) == bs[..k] + [b] + bs[k..]
  {
    hide RangeHeader, Data, RecordOk;
  }

  lemma AppendContents(crc32: Bytes -> u32, f: Bytes, rs: seq<SparseRange>, k: nat, r: SparseRange, d: Bytes)
    requires Sorted(rs) && AllApart(rs) && AllRecordsOk(crc32, f, rs) && k <= |rs|
    requires |d| == r.length && r.fileOffset == |f| + RANGE_HEADER_SIZE && r.crc == crc32(d)
    requires forall i | k <= i < |rs| :: End(r) <= rs[i].offset
    ensures var g := f + RangeHeader(r) + d;
            AllRecordsOk(crc32, g, Inserted(rs, k, r))
            && Contents(crc32, g, Inserted(rs, k, r)) == Contents(crc32, f, rs) + IntervalMap(r.offset, d)
  {
    hide RangeHeader, RecordOk, BlockMap, IntervalMap, AllApart;
    var g, rs' := f + RangeHeader(r) + d, Inserted(rs, k, r);
    AppendRecords(crc32, f, rs, k, r, d);
    var bs := Blocks(crc32, f, rs);
    BlockMapInsert(bs, k, Block(r.offset, d));
    BlocksInserted(crc32, f, rs, g, k, r, Block(r.offset, d));
  }

  lemma AppendKeepsElements(rs: seq<SparseRange>, log: seq<SparseRange>, k: nat, r: SparseRange)
    requires SameElements(rs, log) && k <= |rs|
    ensures SameElements(Inserted(rs, k, r), log + [r])
  {
    forall x: SparseRange
      ensures x in Inserted(rs, k, r) <==> x in log + [r]
    {
      InsertedElements(rs, k, r, x);
    }
  }

  lemma InsertedElements(rs: seq<SparseRange>, k: nat, r: SparseRange, x: SparseRange)
    requires k <= |rs|
    ensures x in Inserted(rs, k, r) <==> x in rs || x == r
  {
    assert rs == rs[..k] + rs[k..];
  }

  // ---------------------------------------------------------------------------
  // Sizes
  // ---------------------------------------------------------------------------

  function Total(rs: seq<SparseRange>): nat {
    if rs == [] then 0 else rs[0].length + Total(rs[1..])
  }

  lemma {:induction false} TotalInserted(rs: seq<SparseRange>, k: nat, r: SparseRange)
    requires k <= |rs|
    ensures Total(Inserted(rs, k, r)) == Total(rs) + r.length
  {
    if k == 0 {
      assert Inserted(rs, k, r)[1..] == rs;
    } else {
      assert Inserted(rs, k, r)[1..] == Inserted(rs[1..], k - 1, r);
      TotalInserted(rs[1..], k - 1, r);
    }
  }

  lemma {:induction false} TotalUpdated(rs: seq<SparseRange>, i: nat, r: SparseRange)
    requires i < |rs| && r.length == rs[i].length
    ensures Total(rs[i := r]) == Total(rs)
  {
    if i == 0 {
      assert rs[i := r][1..] == rs[1..];
    } else {
      assert rs[i := r][1..] == rs[1..][i - 1 := r];
      TotalUpdated(rs[1..], i - 1, r);
    }
  }

  /** The total length of the ranges is the number of bytes stored. */
  lemma {:induction false} TotalIsBlocksTotal(rs: seq<SparseRange>, bs: seq<Block>)
    requires |rs| == |bs| && forall i | 0 <= i < |rs| :: |bs[i].data| == rs[i].length
    ensures BlocksTotal(bs) == Total(rs)
  {
    if rs != [] {
      TotalIsBlocksTotal(rs[1..], bs[1..]);
    }
  }

  lemma TotalIsStoredCount(crc32: Bytes -> u32, f: Bytes, rs: seq<SparseRange>)
    requires Sorted(rs) && AllRecordsOk(crc32, f, rs)
    ensures |Contents(crc32, f, rs)| == Total(rs)
  {
    var bs := Blocks(crc32, f, rs);
    forall i | 0 <= i < |rs|
      ensures |bs[i].data| == rs[i].length
    {
      assert RecordOk(crc32, f, rs[i]);
    }
    TotalIsBlocksTotal(rs, bs);
    BlockMapSize(bs);
  }

  // ---------------------------------------------------------------------------
  // Uniqueness of the sorted form
  // ---------------------------------------------------------------------------

  /** The first elements of two sorted lists with the same elements agree. */
  lemma SortedHeads(a: seq<SparseRange>, b: seq<SparseRange>)
    requires Sorted(a) && Sorted(b) && SameElements(a, b) && a != []
    ensures b != [] && a[0] == b[0]
  {
    assert a[0] in b;
    assert b[0] in a;
    var i :| 0 <= i < |b| && b[i] == a[0];
    var j :| 0 <= j < |a| && a[j] == b[0];
  }

  lemma SortedTailElements(a: seq<SparseRange>, b: seq<SparseRange>, r: SparseRange)
    requires Sorted(a) && Sorted(b) && SameElements(a, b) && a != [] && b != [] && a[0] == b[0]
    requires r in a[1..]
    ensures r in b[1..]
  {
    assert r in a;
    var i :| 0 <= i < |b| && b[i] == r;
    assert i != 0;
    assert b[1..][i - 1] == r;
  }

  /** A sorted range list is determined by its elements. */
  lemma {:induction false} SortedUnique(a: seq<SparseRange>, b: seq<SparseRange>)
    requires Sorted(a) && Sorted(b) && SameElements(a, b)
    ensures a == b
  {
    if a == [] {
      if b != [] { SortedHeads(b, a); }
    } else {
      SortedHeads(a, b);
      forall r
        ensures r in a[1..] <==> r in b[1..]
      {
        if r in a[1..] { SortedTailElements(a, b, r); }
        if r in b[1..] { SortedTailElements(b, a, r); }
      }
      SortedUnique(a[1..], b[1..]);
    }
  }
}
