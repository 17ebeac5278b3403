/**
 The Java reader and writer of index files, related to Chromium's. A `None` result stands for an exception.
 */
module JavaIndex {
  import opened ByteSeqs
  import opened EntryFormat
  import opened IndexModel
  import opened IndexFile
  import opened IndexLoad

  const REASON_IDLE: u32 := 2

  // ---------------------------------------------------------------------------
  // Entry sizes
  // ---------------------------------------------------------------------------

  function Wrapped64(x: int): i64 {
    FromBits(x % U64_LIMIT)
  }

  /** Size in 256-byte chunks, rounded up; an exception when it needs more than 30 bits. */
  function ChunksFor(bytes: i64): Option<Chunks> {
    var chunks := Wrapped64(bytes + 255) / 256;
    if 0 <= chunks < SIZE_LIMIT_CHUNKS then Some(chunks) else None
  }

  /** The Java addition wraps for the last 255 sizes below 2^63. */
  lemma WrappedSum(bytes: i64)
    ensures Wrapped64(bytes + 255) == if bytes + 255 >= I64_LIMIT then bytes + 255 - U64_LIMIT else bytes + 255
  {
  }

  /** The Chromium addition wraps for the last 255 sizes below 2^64, which in Java are the sizes from -255 on. */
  lemma WrappedRounding(bytes: i64)
    ensures RoundedChunks(Bits(bytes)) == (if bytes < -255 then bytes + 255 + U64_LIMIT else bytes + 255) / 256
  {
    var sum := Bits(bytes) + 255;
    if bytes < 0 {
      assert Bits(bytes) == bytes + U64_LIMIT;
    }
    assert sum % U64_LIMIT == if bytes < -255 then bytes + 255 + U64_LIMIT else bytes + 255;
  }

  /** Java and Chromium accept the same sizes and round them alike, on every 64-bit pattern. */
  lemma SizesAgree(m: Meta, bytes: i64)
    ensures ChunksFor(bytes).Some? <==> SetEntrySize(m, Bits(bytes)).Some?
    ensures ChunksFor(bytes).Some? ==> ChunksFor(bytes).value == SetEntrySize(m, Bits(bytes)).value.chunks
  {
    hide Wrapped64, RoundedChunks, Bits;
    WrappedSum(bytes);
    WrappedRounding(bytes);
  }

  // ---------------------------------------------------------------------------
  // Specification
  // ---------------------------------------------------------------------------

  datatype Index = Index(version: u32, reason: u32, cacheSize: u64, modified: i64, entries: seq<Record>,
                         crcWarning: bool)

  /** The first `n` records; nothing if any of them is bad. */
  function RecordsOf(f: Bytes, n: nat): Option<seq<Record>> {
    if n == 0 then Some([])
    else
      match RecordsOf(f, n - 1)
      case None => None
      case Some(rs) =>
        match RecordAt(f, At(n - 1))
        case None => None
        case Some(r) => Some(rs + [r])
  }

  /** The loop bound: a count with its top bit set is negative, so no entry is read. */
  function LoopCount(count: u64): nat {
    if count >= I64_LIMIT then 0 else count
  }

  function ParseSpec(hashes: Hashes, f: Bytes, verifyCrc: bool): Option<Index> {
    if !FrameFits(f) || |f| < RECORDS_START then None
    else
      var h := HeadOf(f);
      if h.magic != INDEX_MAGIC || !(MIN_INDEX_VERSION <= h.version <= INDEX_VERSION) then None
      else
        var n := LoopCount(h.count);
        match RecordsOf(f, n)
        case None => None
        case Some(rs) =>
          if At(n) + 8 > |f| then None
          else Some(Index(h.version, h.reason, h.cacheSize, FromBits(U64At(f, At(n))), rs,
                          verifyCrc && !FrameIntact(hashes, f)))
  }

  function SerializeSpec(hashes: Hashes, x: Index): Bytes
    requires |x.entries| < U64_LIMIT
  {
    Framed(hashes,
           Payload(Head(INDEX_MAGIC, INDEX_VERSION, |x.entries|, x.cacheSize, x.reason), x.entries, x.modified))
  }

  lemma {:induction false} RecordsOfHas(f: Bytes, rs: seq<Record>)
    ensures RecordsOf(f, |rs|) == Some(rs) <==> HasRecords(f, rs)
  {
    hide RecordAt;
    if rs != [] {
      var n := |rs| - 1;
      var init := rs[..n];
      RecordsOfHas(f, init);
      assert rs == init + [rs[n]];
      assert forall i | 0 <= i < n :: init[i] == rs[i];
      assert HasRecords(f, rs) <==> HasRecords(f, init) && RecordAt(f, At(n)) == Some(rs[n]);
      RecordsOfLength(f, n);
    }
  }

  lemma {:induction false} RecordsOfLength(f: Bytes, n: nat)
    ensures RecordsOf(f, n).Some? ==> |RecordsOf(f, n).value| == n
    ensures RecordsOf(f, n).Some? <==> forall k | 0 <= k < n :: RecordAt(f, At(k)).Some?
  {
    hide RecordAt;
    if n > 0 {
      RecordsOfLength(f, n - 1);
    }
  }

  // ---------------------------------------------------------------------------
  // Round trips and the two readers
  // ---------------------------------------------------------------------------

  /** What the Java writer wrote, the Java reader finds again without warnings. */
  lemma ParseOfSerialize(hashes: Hashes, x: Index, verifyCrc: bool)
    requires 48 + RECORD_SIZE * |x.entries| <= INT_MAX
    ensures ParseSpec(hashes, SerializeSpec(hashes, x), verifyCrc)
         == Some(x.(version := INDEX_VERSION, entries := MaskAll(x.entries), crcWarning := false))
  {
    hide Framed, Payload, HeadOf, RecordAt, U64At, RecordsOf;
    var h := Head(INDEX_MAGIC, INDEX_VERSION, |x.entries|, x.cacheSize, x.reason);
    var f := SerializeSpec(hashes, x);
    FileRoundTrip(hashes, h, x.entries, x.modified);
    RecordsOfHas(f, MaskAll(x.entries));
  }

  /** Chromium accepts a file that Java reads without warnings, if its head is acceptable and its hashes differ. */
  lemma JavaThenChromium(hashes: Hashes, ct: CacheType, f: Bytes)
    requires ParseSpec(hashes, f, true).Some?
    requires var x := ParseSpec(hashes, f, true).value; !x.crcWarning && DistinctHashes(x.entries)
    ensures var x := ParseSpec(hashes, f, true).value;
            DeserializeSpec(hashes, ct, f)
            == if HeadAccepted(HeadOf(f)) then Some(LoadResult(MapOf(ct, x.version, x.entries), x.reason, x.modified))
               else None
  {
    hide HeadOf, RecordAt, U64At, RecordsOf, MapOf, FrameIntact, DistinctHashes, LoadFrom;
    var n := LoopCount(HeadOf(f).count);
    var x := ParseSpec(hashes, f, true).value;
    RecordsOfLength(f, n);
    RecordsOfHas(f, x.entries);
    if HeadOf(f).count < I64_LIMIT {
      DeserializeDistinct(hashes, ct, f, x.entries);
    }
  }

  /** Java reads every file that Chromium loads, without warnings. */
  lemma ChromiumThenJava(hashes: Hashes, ct: CacheType, f: Bytes)
    requires DeserializeSpec(hashes, ct, f).Some?
    ensures ParseSpec(hashes, f, true).Some? && !ParseSpec(hashes, f, true).value.crcWarning
    ensures ParseSpec(hashes, f, true).value.reason == DeserializeSpec(hashes, ct, f).value.reason
    ensures |ParseSpec(hashes, f, true).value.entries| == HeadOf(f).count <= MAX_ENTRIES
  {
    hide HeadOf, RecordAt, U64At, RecordsOf, LoadFrom;
    var h := HeadOf(f);
    LoadReads(ct, h.version, f, 0, map[], h.count);
    RecordsOfLength(f, h.count);
  }

  /**
   Chromium loads a Java index if and only if its hashes differ, there are not too many and the reason is a
   known one; then it has the same sizes and hint bits, and times in whole seconds.
   */
  lemma ChromiumLoadsJavaIndex(hashes: Hashes, x: Index)
    requires 48 + RECORD_SIZE * |x.entries| <= INT_MAX
    ensures var r := DeserializeSpec(hashes, HttpCache, SerializeSpec(hashes, x));
            && (r.Some? <==> DistinctHashes(x.entries) && |x.entries| <= MAX_ENTRIES && x.reason < REASON_MAX)
            && (r.Some? ==>
                  && r.value.reason == x.reason && r.value.modified == x.modified
                  && |r.value.entries| == |x.entries|
                  && forall i | 0 <= i < |x.entries| ::
                       && x.entries[i].hash in r.value.entries
                       && r.value.entries[x.entries[i].hash]
                          == Meta(LastUsedSeconds(x.entries[i].lastUsed), x.entries[i].chunks, x.entries[i].hints % 4))
  {
    hide DeserializeSpec, SerializeSpec, ParseSpec, MapOf, LastUsedSeconds, HeadOf;
    var f, ms := SerializeSpec(hashes, x), MaskAll(x.entries);
    ParseOfSerialize(hashes, x, true);
    MaskedDistinct(x.entries);
    HeadOfSerialized(hashes, x);
    if DistinctHashes(x.entries) {
      JavaThenChromium(hashes, HttpCache, f);
      MapOfLists(HttpCache, INDEX_VERSION, ms);
      assert forall i | 0 <= i < |ms| :: ms[i] == Masked(x.entries[i]);
    } else {
      RepeatedHashRefused(hashes, x);
    }
  }

  lemma RepeatedHashRefused(hashes: Hashes, x: Index)
    requires 48 + RECORD_SIZE * |x.entries| <= INT_MAX && !DistinctHashes(x.entries)
    ensures DeserializeSpec(hashes, HttpCache, SerializeSpec(hashes, x)) == None
  {
    hide Framed, Payload, HeadOf, RecordAt, U64At, FrameIntact, DeserializeSpec;
    FileRoundTrip(hashes, Head(INDEX_MAGIC, INDEX_VERSION, |x.entries|, x.cacheSize, x.reason), x.entries, x.modified);
    MaskedDistinct(x.entries);
    DeserializeRepeated(hashes, HttpCache, SerializeSpec(hashes, x), MaskAll(x.entries));
  }

  lemma MaskedDistinct(rs: seq<Record>)
    ensures DistinctHashes(MaskAll(rs)) <==> DistinctHashes(rs)
  {
    assert forall i | 0 <= i < |rs| :: MaskAll(rs)[i].hash == rs[i].hash;
  }

  lemma HeadOfSerialized(hashes: Hashes, x: Index)
    requires 48 + RECORD_SIZE * |x.entries| <= INT_MAX
    ensures var f := SerializeSpec(hashes, x);
            && |f| == 48 + RECORD_SIZE * |x.entries|
            && HeadOf(f) == Head(INDEX_MAGIC, INDEX_VERSION, |x.entries|, x.cacheSize, x.reason)
  {
    hide Framed, Payload, HeadOf, RecordAt, U64At;
    FileRoundTrip(hashes, Head(INDEX_MAGIC, INDEX_VERSION, |x.entries|, x.cacheSize, x.reason), x.entries, x.modified);
  }

  /** A Java index loads from disk if and only if it loads at all and has at most 999,998 entries. */
  lemma JavaIndexFromDisk(hashes: Hashes, x: Index)
    requires 48 + RECORD_SIZE * |x.entries| <= INT_MAX
    ensures LoadFromDisk(hashes, HttpCache, SerializeSpec(hashes, x)).Some?
            <==> DistinctHashes(x.entries) && |x.entries| <= MAX_ENTRIES - 2 && x.reason < REASON_MAX
  {
    hide DeserializeSpec, SerializeSpec, HeadOf;
    HeadOfSerialized(hashes, x);
    ChromiumLoadsJavaIndex(hashes, x);
  }

  /** An index of 999,999 different hashes. */
  function LongIndex(): Index {
    Index(INDEX_VERSION, REASON_IDLE, 0, 0,
          seq(MAX_ENTRIES - 1, i requires 0 <= i < MAX_ENTRIES - 1 => Record(i, 0, 0, 0)), false)
  }

  /** The count check accepts it, and the file size limit refuses it. */
  lemma OneTooMany(hashes: Hashes)
    ensures var f := SerializeSpec(hashes, LongIndex());
            DeserializeSpec(hashes, HttpCache, f).Some? && LoadFromDisk(hashes, HttpCache, f).None?
  {
    hide DeserializeSpec, SerializeSpec, HeadOf, LoadFromDisk;
    assert DistinctHashes(LongIndex().entries);
    ChromiumLoadsJavaIndex(hashes, LongIndex());
    JavaIndexFromDisk(hashes, LongIndex());
  }

  // ---------------------------------------------------------------------------
  // Editing the list
  // ---------------------------------------------------------------------------

  function FirstIndex(rs: seq<Record>, h: u64): (i: nat)
    ensures i <= |rs| && (i < |rs| ==> rs[i].hash == h) && forall j | 0 <= j < i :: rs[j].hash != h
  {
    if rs == [] || rs[0].hash == h then 0 else 1 + FirstIndex(rs[1..], h)
  }

  /** The record replaces the first one with its hash, or is added at the end. */
  function PutSpec(rs: seq<Record>, r: Record): seq<Record> {
    var i := FirstIndex(rs, r.hash);
    if i == |rs| then rs + [r] else rs[i := r]
  }

  lemma PutKeepsDistinct(rs: seq<Record>, r: Record)
    requires DistinctHashes(rs)
    ensures DistinctHashes(PutSpec(rs, r))
    ensures forall x: Record :: x in PutSpec(rs, r) <==> x == r || (x in rs && x.hash != r.hash)
  {
    hide FirstIndex;
    var i := FirstIndex(rs, r.hash);
    var ps := PutSpec(rs, r);
    forall x: Record
      ensures x in ps <==> x == r || (x in rs && x.hash != r.hash)
    {
      if x in rs && x.hash != r.hash {
        var k :| 0 <= k < |rs| && rs[k] == x;
        assert ps[k] == x;
      }
      assert i < |ps| && ps[i] == r;
    }
  }

  function SizeSum(rs: seq<Record>): nat {
    if rs == [] then 0 else SizeSum(rs[..|rs| - 1]) + rs[|rs| - 1].chunks * 256
  }

  lemma SizeSumNone()
    ensures SizeSum([]) == 0
  {
  }

  /** Adding with 64-bit wrap-around follows the true sum. */
  lemma SizeSumNext(rs: seq<Record>, r: Record)
    ensures SizeSum(rs + [r]) == SizeSum(rs) + r.chunks * 256
    ensures SizeSum(rs + [r]) % U64_LIMIT == (SizeSum(rs) % U64_LIMIT + r.chunks * 256) % U64_LIMIT
  {
    assert (rs + [r])[..|rs|] == rs;
  }

  /** The Java total is the total Chromium computes from the loaded set. */
  lemma {:induction false} SizeSumIsTotal(ct: CacheType, version: u32, rs: seq<Record>)
    requires DistinctHashes(rs)
    ensures SizeSum(rs) == Total(MapOf(ct, version, rs))
  {
    hide Total, Lists, MetaOf;
    if rs == [] {
      TotalEmpty();
    } else {
      var init, last := rs[..|rs| - 1], rs[|rs| - 1];
      SizeSumIsTotal(ct, version, init);
      assert rs == init + [last];
      DistinctInit(init, last);
      MapOfLists(ct, version, init);
      ListsNext(ct, version, MapOf(ct, version, init), init, last);
      TotalPut(MapOf(ct, version, init), last.hash, MetaOf(ct, version, last));
      MetaChunks(ct, version, last);
    }
  }

  lemma MetaChunks(ct: CacheType, version: u32, r: Record)
    ensures MetaOf(ct, version, r).chunks == r.chunks
  {
  }

  // ---------------------------------------------------------------------------
  // The classes
  // ---------------------------------------------------------------------------

  function Aligned(b: Bytes): (a: Bytes)
    ensures |a| % 4 == 0 && |b| <= |a| < |b| + 4
    ensures |b| % 4 == 0 ==> a == b
  {
    b + Zeros((4 - |b| % 4) % 4)
  }

  /** The five fields of the head, appended one after the other to nothing. */
  lemma HeadInTurn(h: Head)
    ensures HeadBytes(h)
         == [] + LE(8, h.magic) + LE(4, h.version) + LE(8, h.count) + LE(8, h.cacheSize) + LE(4, h.reason)
  {
    hide LE;
    assert [] + LE(8, h.magic) == LE(8, h.magic);
  }

  class PickleWriter {
    var out: Bytes

    constructor ()
      ensures out == []
    {
      out := [];
    }

    method Align4()
      modifies this
      ensures out == Aligned(old(out))
    {
      while |out| % 4 != 0
        invariant |out| <= |Aligned(old(out))| && out == Aligned(old(out))[..|out|]
        decreases |Aligned(old(out))| - |out|
      {
        out := out + [0];
      }
    }

    method WriteU32(v: u32)
      modifies this
      ensures out == Aligned(old(out)) + LE(4, v)
    {
      hide LE;
      Align4();
      out := out + LE(4, v);
    }

    method WriteU64(v: u64)
      modifies this
      ensures out == Aligned(old(out)) + LE(8, v)
    {
      hide LE;
      Align4();
      out := out + LE(8, v);
    }

    /** The three fields of one entry, on an aligned writer. */
    method WriteRecord(r: Record)
      requires |out| % 4 == 0
      modifies this
      ensures out == old(out) + RecordBytes(r) && |out| % 4 == 0
    {
      hide LE, Aligned;
      WriteU64(r.hash);
      WriteU64(Bits(r.lastUsed));
      WriteU64(Packed(r));
    }

    /** The fields before the entries, on a new writer. */
    method WriteHead(h: Head)
      requires out == []
      modifies this
      ensures out == HeadBytes(h) && |out| % 4 == 0
    {
      hide LE, Aligned, HeadBytes;
      WriteU64(h.magic);
      WriteU32(h.version);
      WriteU64(h.count);
      WriteU64(h.cacheSize);
      WriteU32(h.reason);
      HeadInTurn(h);
    }
  }

  class SimpleCacheIndex {
    var version: u32
    var reason: u32
    var cacheSize: u64
    var modified: i64
    var entries: seq<Record>
    var crcWarning: bool

    constructor ()
      ensures View() == Index(INDEX_VERSION, REASON_IDLE, 0, 0, [], false)
    {
      version, reason, cacheSize, modified, entries, crcWarning := INDEX_VERSION, REASON_IDLE, 0, 0, [], false;
    }

    function View(): Index
      reads this
    {
      Index(version, reason, cacheSize, modified, entries, crcWarning)
    }

    /** Every malformed file is an exception; a wrong checksum only a warning. */
    static method Parse(hashes: Hashes, data: Bytes, verifyCrc: bool) returns (r: Option<SimpleCacheIndex>)
      requires |data| <= INT_MAX
      ensures r.Some? <==> ParseSpec(hashes, data, verifyCrc).Some?
      ensures r.Some? ==> fresh(r.value) && r.value.View() == ParseSpec(hashes, data, verifyCrc).value
    {
      hide RecordAt, HeadOf, RecordsOf, Signed, U32At, U64At;
      if |data| < 8 {
        return None;
      }
      PayloadSizeFits(data);
      if Signed(8 + Signed(U32At(data, 0))) != |data| {
        return None;
      }
      var warn := verifyCrc && U32At(data, 4) != hashes.crc32(data[8..]);
      if |data| < RECORDS_START {
        return None;
      }
      var h := HeadOf(data);
      if h.magic != INDEX_MAGIC || h.version < MIN_INDEX_VERSION || h.version > INDEX_VERSION {
        return None;
      }
      var n := LoopCount(h.count);
      var entries := ReadRecords(data, n);
      if entries == None {
        return None;
      }
      if At(n) + 8 > |data| {
        return None;
      }
      var idx := new SimpleCacheIndex();
      idx.version, idx.reason, idx.cacheSize, idx.entries := h.version, h.reason, h.cacheSize, entries.value;
      idx.modified, idx.crcWarning := FromBits(U64At(data, At(n))), warn;
      return Some(idx);
    }

    /** An exception when no array is long enough. */
    method Serialize(hashes: Hashes) returns (out: Option<Bytes>)
      requires |entries| <= INT_MAX
      ensures out == if 48 + RECORD_SIZE * |entries| <= INT_MAX then Some(SerializeSpec(hashes, View())) else None
    {
      hide Payload, LE;
      var payload := WritePayload(Head(INDEX_MAGIC, INDEX_VERSION, |entries|, cacheSize, reason), entries, modified);
      if 8 + |payload| > INT_MAX {
        return None;
      }
      return Some(LE(4, |payload|) + LE(4, hashes.crc32(payload)) + payload);
    }

    /** Replace the record with this hash, or add it. */
    method Put(r: Record)
      modifies this`entries
      ensures entries == PutSpec(old(entries), r)
    {
      var i := 0;
      while i < |entries| && entries[i].hash != r.hash
        invariant i <= |entries| && forall j | 0 <= j < i :: entries[j].hash != r.hash
      {
        i := i + 1;
      }
      if i < |entries| {
        entries := entries[i := r];
      } else {
        entries := entries + [r];
      }
    }

    method RecomputeCacheSize()
      modifies this`cacheSize
      ensures cacheSize == SizeSum(entries) % U64_LIMIT
    {
      hide SizeSum;
      var total: u64 := 0;
      var i := 0;
      SizeSumNone();
      assert entries[..0] == [];
      while i < |entries|
        invariant i <= |entries| && total == SizeSum(entries[..i]) % U64_LIMIT
      {
        assert entries[..i + 1] == entries[..i] + [entries[i]];
        SizeSumNext(entries[..i], entries[i]);
        total := (total + entries[i].chunks * 256) % U64_LIMIT;
        i := i + 1;
      }
      assert entries[..i] == entries;
      cacheSize := total;
    }
  }

  /** The metadata, the entries and the final time, through a pickle writer. */
  method WritePayload(head: Head, entries: seq<Record>, modified: i64) returns (payload: Bytes)
    ensures payload == Payload(head, entries, modified)
  {
    hide HeadBytes, Records, RecordBytes, LE, Aligned, Started, Payload;
    var w := new PickleWriter();
    w.WriteHead(head);
    var i := 0;
    StartedNone(head);
    assert entries[..0] == [];
    while i < |entries|
      invariant i <= |entries| && w.out == Started(head, entries[..i]) && |w.out| % 4 == 0
    {
      StartedNext(head, entries[..i], entries[i]);
      assert entries[..i + 1] == entries[..i] + [entries[i]];
      w.WriteRecord(entries[i]);
      i := i + 1;
    }
    assert entries[..i] == entries;
    StartedAll(head, entries, modified);
    w.WriteU64(Bits(modified));
    payload := w.out;
  }

  function Started(head: Head, rs: seq<Record>): Bytes {
    HeadBytes(head) + Records(rs)
  }

  lemma StartedNone(head: Head)
    ensures Started(head, []) == HeadBytes(head)
  {
    hide HeadBytes;
  }

  lemma StartedNext(head: Head, rs: seq<Record>, r: Record)
    ensures Started(head, rs + [r]) == Started(head, rs) + RecordBytes(r)
  {
    hide HeadBytes, RecordBytes, Records;
    RecordsNext(rs, r);
  }

  lemma StartedAll(head: Head, rs: seq<Record>, modified: i64)
    ensures Started(head, rs) + LE(8, Bits(modified)) == Payload(head, rs, modified)
  {
    hide HeadBytes, Records, LE;
  }

  lemma PayloadSizeFits(data: Bytes)
    requires 8 <= |data| <= INT_MAX
    ensures Signed(8 + Signed(U32At(data, 0))) == |data| <==> FrameFits(data)
  {
    hide FromLE;
  }

  /** Read entries one after the other. */
  method ReadRecords(data: Bytes, n: nat) returns (r: Option<seq<Record>>)
    ensures r == RecordsOf(data, n)
  {
    hide RecordAt;
    var entries: seq<Record> := [];
    var i, off := 0, RECORDS_START;
    while i < n
      invariant i <= n && off == At(i) && RecordsOf(data, i) == Some(entries)
    {
      var record := RecordAt(data, off);
      if record == None {
        RecordsOfLength(data, n);
        return None;
      }
      entries := entries + [record.value];
      i, off := i + 1, off + RECORD_SIZE;
    }
    return Some(entries);
  }
}
