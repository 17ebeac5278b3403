/**
 Chromium's reader and writer of the index file. The load loop is specified on arbitrary files; on files
 whose hashes differ it yields exactly the listed entries.
 */
module IndexLoad {
  import opened ByteSeqs
  import opened EntryFormat
  import opened IndexModel
  import opened IndexFile

  datatype LoadResult = LoadResult(entries: EntrySet, reason: u32, modified: i64)

  datatype Loaded = Loaded(entries: EntrySet, next: nat)

  /** What an entry record means in memory; the app cache keeps a prefetch size where others keep a time. */
  function MetaOf(ct: CacheType, version: u32, r: Record): Meta {
    var time: u32 :=
      if ct.HttpCache? then LastUsedSeconds(r.lastUsed)
      else if version >= INDEX_VERSION && 0 <= r.lastUsed < U32_LIMIT then r.lastUsed
      else 0;
    Meta(time, r.chunks, r.hints)
  }

  predicate HeadAccepted(h: Head) {
    && h.count <= MAX_ENTRIES && h.magic == INDEX_MAGIC
    && MIN_INDEX_VERSION <= h.version <= INDEX_VERSION && h.reason < REASON_MAX
  }

  function Emplaced(es: EntrySet, h: u64, m: Meta): EntrySet {
    if h in es then es else es[h := m]
  }

  /** Take records from `off` on until the set has `count` entries; a hash seen before does not count. */
  function LoadFrom(ct: CacheType, version: u32, f: Bytes, off: nat, es: EntrySet, count: nat): Option<Loaded>
    decreases |f| - off
  {
    if |es| >= count then Some(Loaded(es, off))
    else
      match RecordAt(f, off)
      case None => None
      case Some(r) => LoadFrom(ct, version, f, off + RECORD_SIZE, Emplaced(es, r.hash, MetaOf(ct, version, r)), count)
  }

  function DeserializeSpec(hashes: Hashes, ct: CacheType, f: Bytes): Option<LoadResult> {
    if !FrameIntact(hashes, f) || |f| < RECORDS_START || !HeadAccepted(HeadOf(f)) then None
    else
      var h := HeadOf(f);
      match LoadFrom(ct, h.version, f, RECORDS_START, map[], h.count)
      case None => None
      case Some(l) =>
        if l.next + 8 > |f| then None else Some(LoadResult(l.entries, h.reason, FromBits(U64At(f, l.next))))
  }

  /** The load loop ends on every input: each round consumes a record, even when the set does not grow. */
  method Deserialize(hashes: Hashes, ct: CacheType, f: Bytes) returns (r: Option<LoadResult>)
    ensures r == DeserializeSpec(hashes, ct, f)
  {
    hide RecordAt, HeadOf;
    if !FrameFits(f) { return None; }
    if U32At(f, 4) != hashes.crc32(f[8..]) { return None; }
    if |f| < RECORDS_START { return None; }
    var h := HeadOf(f);
    if !HeadAccepted(h) { return None; }
    var entries: EntrySet := map[];
    var off: nat := RECORDS_START;
    while |entries| < h.count
      invariant LoadFrom(ct, h.version, f, off, entries, h.count)
             == LoadFrom(ct, h.version, f, RECORDS_START, map[], h.count)
      decreases |f| - off
    {
      var record := RecordAt(f, off);
      if record == None { return None; }
      RecordFits(f, off);
      var m := MetaOf(ct, h.version, record.value);
      if record.value.hash !in entries {
        entries := entries[record.value.hash := m];
      }
      off := off + RECORD_SIZE;
    }
    if off + 8 > |f| { return None; }
    return Some(LoadResult(entries, h.reason, FromBits(U64At(f, off))));
  }

  lemma RecordFits(f: Bytes, off: nat)
    requires RecordAt(f, off).Some?
    ensures off + RECORD_SIZE <= |f|
  {
  }

  /** Reading the file from disk first refuses files that are too long. */
  function LoadFromDisk(hashes: Hashes, ct: CacheType, f: Bytes): Option<LoadResult> {
    if |f| > MAX_INDEX_FILE_SIZE then None else DeserializeSpec(hashes, ct, f)
  }

  // ---------------------------------------------------------------------------
  // Files whose hashes differ
  // ---------------------------------------------------------------------------

  ghost predicate DistinctHashes(rs: seq<Record>) {
    forall i, j | 0 <= i < j < |rs| :: rs[i].hash != rs[j].hash
  }

  ghost predicate Named(rs: seq<Record>, h: u64) {
    exists i :: 0 <= i < |rs| && rs[i].hash == h
  }

  lemma NamedNext(rs: seq<Record>, r: Record, h: u64)
    ensures Named(rs + [r], h) <==> Named(rs, h) || r.hash == h
  {
    var rs' := rs + [r];
    assert rs'[|rs|] == r && forall i | 0 <= i < |rs| :: rs'[i] == rs[i];
  }

  lemma DistinctNext(rs: seq<Record>, r: Record)
    requires DistinctHashes(rs) && !Named(rs, r.hash)
    ensures DistinctHashes(rs + [r])
  {
  }

  lemma DistinctInit(rs: seq<Record>, r: Record)
    requires DistinctHashes(rs + [r])
    ensures DistinctHashes(rs) && !Named(rs, r.hash)
  {
    var rs' := rs + [r];
    assert rs'[|rs|] == r && forall i | 0 <= i < |rs| :: rs'[i] == rs[i];
  }

  /** The set that lists exactly these records. */
  ghost predicate Lists(ct: CacheType, version: u32, es: EntrySet, rs: seq<Record>) {
    && (forall i | 0 <= i < |rs| :: rs[i].hash in es && es[rs[i].hash] == MetaOf(ct, version, rs[i]))
    && (forall h | h in es :: Named(rs, h))
  }

  /** The set after these records; the first record of a hash counts. */
  function MapOf(ct: CacheType, version: u32, rs: seq<Record>): EntrySet {
    if rs == [] then map[]
    else
      var last := rs[|rs| - 1];
      Emplaced(MapOf(ct, version, rs[..|rs| - 1]), last.hash, MetaOf(ct, version, last))
  }

  lemma MapOfNext(ct: CacheType, version: u32, rs: seq<Record>, r: Record)
    ensures MapOf(ct, version, rs + [r]) == Emplaced(MapOf(ct, version, rs), r.hash, MetaOf(ct, version, r))
  {
    assert (rs + [r])[..|rs|] == rs;
  }

  lemma ListsNext(ct: CacheType, version: u32, es: EntrySet, rs: seq<Record>, r: Record)
    requires Lists(ct, version, es, rs) && !Named(rs, r.hash)
    ensures Lists(ct, version, es[r.hash := MetaOf(ct, version, r)], rs + [r]) && r.hash !in es
  {
    hide MetaOf, Named;
    var es' := es[r.hash := MetaOf(ct, version, r)];
    forall i | 0 <= i < |rs + [r]|
      ensures var x := (rs + [r])[i]; x.hash in es' && es'[x.hash] == MetaOf(ct, version, x)
    {
      if i < |rs| {
        assert rs[i].hash in es;
        NamedAt(rs, i);
      }
    }
    forall h | h in es'
      ensures Named(rs + [r], h)
    {
      NamedNext(rs, r, h);
    }
  }

  lemma NamedAt(rs: seq<Record>, i: nat)
    requires i < |rs|
    ensures Named(rs, rs[i].hash)
  {
  }

  lemma {:induction false} MapOfLists(ct: CacheType, version: u32, rs: seq<Record>)
    requires DistinctHashes(rs)
    ensures Lists(ct, version, MapOf(ct, version, rs), rs) && |MapOf(ct, version, rs)| == |rs|
  {
    hide MetaOf, Lists, DistinctHashes, Named;
    if rs == [] {
      ListsNone(ct, version);
    } else {
      var init, last := rs[..|rs| - 1], rs[|rs| - 1];
      assert rs == init + [last];
      DistinctInit(init, last);
      MapOfLists(ct, version, init);
      ListsNext(ct, version, MapOf(ct, version, init), init, last);
    }
  }

  lemma ListsNone(ct: CacheType, version: u32)
    ensures Lists(ct, version, map[], [])
  {
  }

  /** Only one set lists given records. */
  lemma ListsUnique(ct: CacheType, version: u32, a: EntrySet, b: EntrySet, rs: seq<Record>)
    requires Lists(ct, version, a, rs) && Lists(ct, version, b, rs)
    ensures a == b
  {
    assert a.Keys == b.Keys;
    forall h | h in a
      ensures a[h] == b[h]
    {
    }
  }

  lemma {:induction false} MapOfSize(ct: CacheType, version: u32, rs: seq<Record>)
    ensures |MapOf(ct, version, rs)| <= |rs|
    ensures forall h :: h in MapOf(ct, version, rs) <==> Named(rs, h)
    ensures |MapOf(ct, version, rs)| == |rs| <==> DistinctHashes(rs)
  {
    hide MetaOf, DistinctHashes, Named;
    if rs == [] {
      NothingYet();
    } else {
      var init, last := rs[..|rs| - 1], rs[|rs| - 1];
      assert rs == init + [last];
      MapOfSize(ct, version, init);
      forall h { NamedNext(init, last, h); }
      if DistinctHashes(rs) {
        DistinctInit(init, last);
      } else if DistinctHashes(init) && !Named(init, last.hash) {
        DistinctNext(init, last);
      }
    }
  }

  /** As long as records are left that count, the loop adds them one by one. */
  lemma {:induction false} LoadAll(ct: CacheType, version: u32, f: Bytes, rs: seq<Record>, i: nat)
    requires HasRecords(f, rs) && i <= |rs|
    ensures LoadFrom(ct, version, f, At(i), MapOf(ct, version, rs[..i]), |rs|)
         == LoadFrom(ct, version, f, At(|rs|), MapOf(ct, version, rs), |rs|)
    decreases |rs| - i
  {
    hide MetaOf, RecordAt, DistinctHashes, MapOf, Emplaced;
    MapOfSize(ct, version, rs[..i]);
    if i < |rs| {
      assert rs[..i + 1] == rs[..i] + [rs[i]];
      MapOfNext(ct, version, rs[..i], rs[i]);
      LoadAll(ct, version, f, rs, i + 1);
    } else {
      assert rs[..i] == rs;
    }
  }

  /** A file with an intact frame and different hashes loads as the set that lists its records. */
  lemma DeserializeDistinct(hashes: Hashes, ct: CacheType, f: Bytes, rs: seq<Record>)
    requires FrameIntact(hashes, f) && |f| >= At(|rs|) + 8
    requires HeadOf(f).count == |rs| && HasRecords(f, rs) && DistinctHashes(rs)
    ensures var h := HeadOf(f);
            DeserializeSpec(hashes, ct, f)
            == if !HeadAccepted(h) then None
               else Some(LoadResult(MapOf(ct, h.version, rs), h.reason, FromBits(U64At(f, At(|rs|)))))
  {
    hide HeadOf, RecordAt, FrameIntact, DistinctHashes;
    var h := HeadOf(f);
    MapOfSize(ct, h.version, rs);
    LoadAll(ct, h.version, f, rs, 0);
    assert rs[..0] == [];
  }

  /** A file with nothing but its records and the time does not load when a hash occurs twice. */
  lemma DeserializeRepeated(hashes: Hashes, ct: CacheType, f: Bytes, rs: seq<Record>)
    requires FrameIntact(hashes, f) && |f| == At(|rs|) + 8
    requires HeadOf(f).count == |rs| && HasRecords(f, rs) && !DistinctHashes(rs)
    ensures DeserializeSpec(hashes, ct, f) == None
  {
    hide HeadOf, FrameIntact, DistinctHashes, U64At;
    var h := HeadOf(f);
    MapOfSize(ct, h.version, rs);
    LoadAll(ct, h.version, f, rs, 0);
    assert rs[..0] == [];
    assert RecordAt(f, At(|rs|)) == None;
  }

  /** A load that succeeds has read at least as many good records as were still missing. */
  lemma {:induction false} LoadReads(ct: CacheType, version: u32, f: Bytes, i: nat, es: EntrySet, count: nat)
    requires LoadFrom(ct, version, f, At(i), es, count).Some? && |es| <= count
    ensures forall k | i <= k < i + count - |es| :: RecordAt(f, At(k)).Some?
    ensures LoadFrom(ct, version, f, At(i), es, count).value.next >= At(i + count - |es|)
    decreases |f| - At(i)
  {
    hide MetaOf, RecordAt;
    if |es| < count {
      RecordFits(f, At(i));
      var r := RecordAt(f, At(i)).value;
      var es' := Emplaced(es, r.hash, MetaOf(ct, version, r));
      assert |es'| <= |es| + 1;
      LoadReads(ct, version, f, i + 1, es', count);
    }
  }

  /** A load that succeeds ends with exactly the number of entries asked for. */
  lemma {:induction false} LoadCounts(ct: CacheType, version: u32, f: Bytes, off: nat, es: EntrySet, count: nat)
    requires |es| <= count && LoadFrom(ct, version, f, off, es, count).Some?
    ensures |LoadFrom(ct, version, f, off, es, count).value.entries| == count
    decreases |f| - off
  {
    hide MetaOf, RecordAt;
    if |es| < count {
      RecordFits(f, off);
      var r := RecordAt(f, off).value;
      LoadCounts(ct, version, f, off + RECORD_SIZE, Emplaced(es, r.hash, MetaOf(ct, version, r)), count);
    }
  }

  /** From disk at most 999,998 entries are ever loaded: the file size limit is stricter than the count check. */
  lemma DiskLimit(hashes: Hashes, ct: CacheType, f: Bytes)
    requires LoadFromDisk(hashes, ct, f).Some?
    ensures |LoadFromDisk(hashes, ct, f).value.entries| == HeadOf(f).count <= MAX_ENTRIES - 2
  {
    hide HeadOf, FrameIntact, RecordAt, U64At, LoadFrom;
    var h := HeadOf(f);
    LoadCounts(ct, h.version, f, RECORDS_START, map[], h.count);
    LoadReads(ct, h.version, f, 0, map[], h.count);
  }

  // ---------------------------------------------------------------------------
  // Chromium's writer
  // ---------------------------------------------------------------------------

  function DiskRecord(ct: CacheType, h: u64, m: Meta): Record
    requires 0 <= m.hints < 4
  {
    Record(h, if ct.AppCache? then m.time else LastUsedTime(m.time), m.chunks, m.hints)
  }

  lemma MetaRoundTrip(ct: CacheType, h: u64, m: Meta)
    requires 0 <= m.hints < 4
    ensures MetaOf(ct, INDEX_VERSION, Masked(DiskRecord(ct, h, m))) == m
  {
    SecondsRoundTrip(m.time);
  }

  ghost predicate HintsFit(es: EntrySet) {
    forall h | h in es :: 0 <= es[h].hints < 4
  }

  /** Each entry once, in some order. */
  ghost predicate Enumerates(ct: CacheType, es: EntrySet, rs: seq<Record>)
    requires HintsFit(es)
  {
    && DistinctHashes(rs)
    && (forall i | 0 <= i < |rs| :: rs[i].hash in es && rs[i] == DiskRecord(ct, rs[i].hash, es[rs[i].hash]))
    && (forall h | h in es :: Named(rs, h))
  }

  lemma EnumeratesListed(ct: CacheType, es: EntrySet, rs: seq<Record>)
    requires HintsFit(es) && Enumerates(ct, es, rs)
    ensures MapOf(ct, INDEX_VERSION, MaskAll(rs)) == es && |rs| == |es|
  {
    hide MetaOf, DiskRecord;
    var ms := MaskAll(rs);
    assert DistinctHashes(ms);
    MapOfLists(ct, INDEX_VERSION, ms);
    forall i | 0 <= i < |ms|
      ensures ms[i].hash in es && es[ms[i].hash] == MetaOf(ct, INDEX_VERSION, ms[i])
    {
      MetaRoundTrip(ct, rs[i].hash, es[rs[i].hash]);
    }
    forall h | h in es
      ensures Named(ms, h)
    {
      var i :| 0 <= i < |rs| && rs[i].hash == h;
      assert ms[i].hash == h;
    }
    ListsUnique(ct, INDEX_VERSION, es, MapOf(ct, INDEX_VERSION, ms), ms);
  }

  /** The index file with these records. */
  function FileWith(hashes: Hashes, count: u64, rs: seq<Record>, cacheSize: u64, reason: u32, modified: i64): Bytes {
    Framed(hashes, Payload(Head(INDEX_MAGIC, INDEX_VERSION, count, cacheSize, reason), rs, modified))
  }

  /** Write the entry set, in whatever order it is iterated, and the final data. */
  method Serialize(hashes: Hashes, ct: CacheType, es: EntrySet, cacheSize: u64, reason: u32, modified: i64)
      returns (f: Bytes)
    requires HintsFit(es) && |es| < U64_LIMIT
    ensures exists rs :: Enumerates(ct, es, rs) && f == FileWith(hashes, |es|, rs, cacheSize, reason, modified)
  {
    hide HeadBytes, RecordBytes, LE, DiskRecord, Named, DistinctHashes, Records;
    var payload := HeadBytes(Head(INDEX_MAGIC, INDEX_VERSION, |es|, cacheSize, reason));
    ghost var head := payload;
    var left := es.Keys;
    ghost var rs: seq<Record> := [];
    NothingYet();
    while left != {}
      invariant left <= es.Keys && DistinctHashes(rs)
      invariant forall i | 0 <= i < |rs| :: rs[i].hash in es && rs[i] == DiskRecord(ct, rs[i].hash, es[rs[i].hash])
      invariant forall h | h in es :: Named(rs, h) <==> h !in left
      invariant payload == head + Records(rs)
    {
      var h :| h in left;
      var r := DiskRecord(ct, h, es[h]);
      DiskRecordHash(ct, h, es[h]);
      RecordsNext(rs, r);
      DistinctNext(rs, r);
      forall k { NamedNext(rs, r, k); }
      payload := payload + RecordBytes(r);
      rs := rs + [r];
      left := left - {h};
    }
    payload := payload + LE(8, Bits(modified));
    f := Framed(hashes, payload);
    assert Enumerates(ct, es, rs) && f == FileWith(hashes, |es|, rs, cacheSize, reason, modified);
  }

  lemma NothingYet()
    ensures DistinctHashes([]) && Records([]) == [] && forall h :: !Named([], h)
  {
  }

  lemma DiskRecordHash(ct: CacheType, h: u64, m: Meta)
    requires 0 <= m.hints < 4
    ensures DiskRecord(ct, h, m).hash == h
  {
  }

  /** Chromium loads exactly the set it wrote, whatever the iteration order was. */
  lemma LoadOfSerialize(hashes: Hashes, ct: CacheType, es: EntrySet, rs: seq<Record>, cacheSize: u64, reason: u32,
                        modified: i64)
    requires HintsFit(es) && Enumerates(ct, es, rs) && |es| <= MAX_ENTRIES && reason < REASON_MAX
    ensures DeserializeSpec(hashes, ct, FileWith(hashes, |es|, rs, cacheSize, reason, modified))
         == Some(LoadResult(es, reason, modified))
  {
    hide Framed, Payload, HeadOf, FrameIntact, RecordAt, MapOf, DeserializeSpec, U64At;
    var h := Head(INDEX_MAGIC, INDEX_VERSION, |es|, cacheSize, reason);
    EnumeratesListed(ct, es, rs);
    FileRoundTrip(hashes, h, rs, modified);
    DeserializeDistinct(hashes, ct, Framed(hashes, Payload(h, rs, modified)), MaskAll(rs));
  }
}
