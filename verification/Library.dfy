/**
 Restoring every entry of a cache and modifying the body of one: after a modification, restoring gives the
 new body for that entry and the same results for all others. A `None` result stands for an exception.
 */
module Library {
  import opened ByteSeqs
  import opened EntryFormat
  import opened IndexModel
  import opened IndexFile
  import opened IndexLoad
  import opened HttpMetadata
  import opened HttpPatch
  import JE = JavaEntry
  import JI = JavaIndex

  // ---------------------------------------------------------------------------
  // Content encodings
  // ---------------------------------------------------------------------------

  /** "gzip" */
  const GZIP: Bytes := [103, 122, 105, 112]

  /** "deflate" */
  const DEFLATE: Bytes := [100, 101, 102, 108, 97, 116, 101]

  const SEMICOLON: byte := 59

  /** The compression library; `None` when it fails. */
  datatype Codec = Codec(gzip: Bytes -> Option<Bytes>, gunzip: Bytes -> Option<Bytes>,
                         compress: Bytes -> Option<Bytes>, expand: Bytes -> Option<Bytes>)

  ghost predicate Inverse(c: Codec) {
    && (forall b :: c.gzip(b).Some? ==> c.gunzip(c.gzip(b).value) == Some(b))
    && (forall b :: c.compress(b).Some? ==> c.expand(c.compress(b).value) == Some(b))
  }

  /** Trimmed, in lower case and without parameters. */
  function Normalize(encoding: Option<Bytes>): Option<Bytes> {
    if encoding == None then None
    else
      var e := Lowered(Trim(encoding.value));
      var semi := IndexOf(e, [SEMICOLON], 0);
      var n := if semi >= 0 then Trim(e[..semi]) else e;
      if n == [] then None else Some(n)
  }

  predicate IsCompressed(encoding: Option<Bytes>) {
    Normalize(encoding) == Some(GZIP) || Normalize(encoding) == Some(DEFLATE)
  }

  function Encode(c: Codec, data: Bytes, encoding: Option<Bytes>): Option<Bytes> {
    var e := Normalize(encoding);
    if e == Some(GZIP) then c.gzip(data) else if e == Some(DEFLATE) then c.compress(data) else Some(data)
  }

  function Decode(c: Codec, data: Bytes, encoding: Option<Bytes>): Option<Bytes> {
    var e := Normalize(encoding);
    if e == Some(GZIP) then c.gunzip(data) else if e == Some(DEFLATE) then c.expand(data) else Some(data)
  }

  lemma DecodeOfEncode(c: Codec, data: Bytes, encoding: Option<Bytes>)
    requires Inverse(c) && Encode(c, data, encoding).Some?
    ensures Decode(c, Encode(c, data, encoding).value, encoding) == Some(data)
  {
    hide Normalize;
  }

  // ---------------------------------------------------------------------------
  // Restore
  // ---------------------------------------------------------------------------

  datatype RestoreWarning = MissingFile | InEntry(warning: JE.Warning) | DecodeFailed

  datatype Restored = Restored(hash: u64, key: Bytes, body: Bytes, rawBody: Bytes, metadata: Bytes,
                               encoding: Option<Bytes>, warnings: seq<RestoreWarning>)

  type Provider = u64 -> Option<Bytes>

  function Wrapped(ws: seq<JE.Warning>): seq<RestoreWarning> {
    seq(|ws|, i requires 0 <= i < |ws| => InEntry(ws[i]))
  }

  /** The result for one hash and its file. */
  function RestoreOne(hashes: Hashes, c: Codec, h: u64, file: Option<Bytes>): Option<Restored> {
    if file == None then Some(Restored(h, [], [], [], [], None, [MissingFile]))
    else
      match JE.ParseSpec(file.value)
      case None => None
      case Some(e) =>
        match ContentEncodingSpec(e.stream0)
        case None => None
        case Some(enc) =>
          var ws := Wrapped(JE.Warnings(hashes, e));
          if !IsCompressed(enc) then Some(Restored(h, e.key, e.stream1, e.stream1, e.stream0, enc, ws))
          else
            match Decode(c, e.stream1, enc)
            case None => Some(Restored(h, e.key, e.stream1, e.stream1, e.stream0, enc, ws + [DecodeFailed]))
            case Some(d) => Some(Restored(h, e.key, d, e.stream1, e.stream0, enc, ws))
  }

  function RestoreAll(hashes: Hashes, c: Codec, rs: seq<Record>, provider: Provider): Option<seq<Restored>> {
    if rs == [] then Some([])
    else
      var last := rs[|rs| - 1];
      match RestoreAll(hashes, c, rs[..|rs| - 1], provider)
      case None => None
      case Some(done) =>
        match RestoreOne(hashes, c, last.hash, provider(last.hash))
        case None => None
        case Some(r) => Some(done + [r])
  }

  /** One result per index entry, in index order; any exception ends it all. */
  function RestoreSpec(hashes: Hashes, c: Codec, index: Bytes, provider: Provider): Option<seq<Restored>> {
    match JI.ParseSpec(hashes, index, true)
    case None => None
    case Some(x) => RestoreAll(hashes, c, x.entries, provider)
  }

  lemma {:induction false} RestoreAllPointwise(hashes: Hashes, c: Codec, rs: seq<Record>, provider: Provider)
    ensures RestoreAll(hashes, c, rs, provider).Some? <==>
              forall i | 0 <= i < |rs| :: RestoreOne(hashes, c, rs[i].hash, provider(rs[i].hash)).Some?
    ensures RestoreAll(hashes, c, rs, provider).Some? ==>
              && |RestoreAll(hashes, c, rs, provider).value| == |rs|
              && forall i | 0 <= i < |rs| ::
                   Some(RestoreAll(hashes, c, rs, provider).value[i])
                   == RestoreOne(hashes, c, rs[i].hash, provider(rs[i].hash))
  {
    hide RestoreOne;
    if rs != [] {
      var init := rs[..|rs| - 1];
      RestoreAllPointwise(hashes, c, init, provider);
      assert forall i | 0 <= i < |init| :: init[i] == rs[i];
    }
  }

  lemma {:induction false} RestoreAllPrefix(hashes: Hashes, c: Codec, rs: seq<Record>, provider: Provider, i: nat)
    requires i <= |rs| && RestoreAll(hashes, c, rs[..i], provider) == None
    ensures RestoreAll(hashes, c, rs, provider) == None
    decreases |rs|
  {
    if i == |rs| {
      assert rs[..i] == rs;
    } else {
      assert rs[..|rs| - 1][..i] == rs[..i];
      RestoreAllPrefix(hashes, c, rs[..|rs| - 1], provider, i);
    }
  }

  /** Restore one entry from its file. */
  method RestoreEntry(hashes: Hashes, c: Codec, h: u64, file: Option<Bytes>) returns (r: Option<Restored>)
    requires file.Some? ==> |file.value| <= INT_MAX
    ensures r == RestoreOne(hashes, c, h, file)
  {
    hide JE.ParseSpec, JE.Warnings, HeaderValueSpec, Normalize, Decode;
    if file == None {
      return Some(Restored(h, [], [], [], [], None, [MissingFile]));
    }
    var parsed := JE.SimpleCacheEntry.Parse(hashes, file.value, true);
    if parsed == None {
      return None;
    }
    var e := parsed.value;
    var value := HeaderValue(e.stream0, CONTENT_ENCODING);
    if value == None {
      return None;
    }
    var encoding := if value.value == Some([]) then None else value.value;
    var body, warnings := e.stream1, Wrapped(e.warnings);
    if IsCompressed(encoding) {
      var decoded := Decode(c, e.stream1, encoding);
      if decoded.Some? {
        body := decoded.value;
      } else {
        warnings := warnings + [DecodeFailed];
      }
    }
    return Some(Restored(h, e.key.value, body, e.stream1, e.stream0, encoding, warnings));
  }

  method Restore(hashes: Hashes, c: Codec, index: Bytes, provider: Provider) returns (r: Option<seq<Restored>>)
    requires |index| <= INT_MAX
    requires forall h :: provider(h).Some? ==> |provider(h).value| <= INT_MAX
    ensures r == RestoreSpec(hashes, c, index, provider)
  {
    hide JI.ParseSpec, RestoreOne;
    var parsed := JI.SimpleCacheIndex.Parse(hashes, index, true);
    if parsed == None {
      return None;
    }
    var entries := parsed.value.entries;
    var out: seq<Restored> := [];
    var i := 0;
    assert entries[..0] == [];
    while i < |entries|
      invariant i <= |entries| && RestoreAll(hashes, c, entries[..i], provider) == Some(out)
    {
      assert entries[..i + 1][..i] == entries[..i];
      var one := RestoreEntry(hashes, c, entries[i].hash, provider(entries[i].hash));
      if one == None {
        assert RestoreAll(hashes, c, entries[..i + 1], provider) == None;
        RestoreAllPrefix(hashes, c, entries, provider, i + 1);
        return None;
      }
      out := out + [one.value];
      i := i + 1;
    }
    assert entries[..i] == entries;
    return Some(out);
  }

  // ---------------------------------------------------------------------------
  // Modify
  // ---------------------------------------------------------------------------

  datatype Modified = Modified(hash: u64, entryFile: Bytes, indexFile: Bytes)

  /** The first eight bytes of the key's SHA-1. */
  function EntryHash(hashes: Hashes, key: Bytes): u64 {
    U64At(hashes.sha1(key), 0)
  }

  /** What is stored for a new body: re-encoded when the entry is compressed and the caller wants that. */
  function StoredBody(c: Codec, body: Bytes, encoding: Option<Bytes>): Option<Bytes> {
    if !IsCompressed(encoding) then Some(body)
    else
      match Encode(c, body, encoding)
      case None => None
      case Some(b) => if |b| > INT_MAX then None else Some(b)
  }

  lemma ParsedFits(file: Bytes)
    requires |file| <= INT_MAX && JE.ParseSpec(file).Some?
    ensures var e := JE.ParseSpec(file).value; |e.key| <= INT_MAX && |e.stream0| <= INT_MAX
  {
    hide ReadEof, U32At, U64At;
  }

  lemma PatchFits(s: Bytes, newLength: int)
    requires |s| <= INT_MAX && PatchSpec(s, newLength).Some?
    ensures |PatchSpec(s, newLength).value| <= INT_MAX
  {
    hide BlockOf, Replace, Decimal, Needle;
  }

  function ModifyEntrySpec(hashes: Hashes, c: Codec, file: Bytes, body: Bytes, autoEncode: bool): (r: Option<Bytes>)
    requires |file| <= INT_MAX
    ensures r.Some? ==> |r.value| <= INT_MAX
  {
    match JE.ParseSpec(file)
    case None => None
    case Some(e) =>
      ParsedFits(file);
      match (if autoEncode then ContentEncodingSpec(e.stream0) else Some(None))
      case None => None
      case Some(enc) =>
        match StoredBody(c, body, enc)
        case None => None
        case Some(stored) =>
          match PatchSpec(e.stream0, |stored|)
          case None => None
          case Some(stream0) =>
            PatchFits(e.stream0, |stored|);
            var out := JE.SerializeSpec(hashes, e.version, e.key, stored, stream0, HasKeySha256(e.eof0));
            if |out| > INT_MAX then None else Some(out)
  }

  /** Replace the body of an entry file. */
  method ModifyEntryBody(hashes: Hashes, c: Codec, file: Bytes, body: Bytes, autoEncode: bool)
      returns (r: Option<Bytes>)
    requires |file| <= INT_MAX && |body| <= INT_MAX
    ensures r == ModifyEntrySpec(hashes, c, file, body, autoEncode)
  {
    hide JE.ParseSpec, JE.SerializeSpec, JE.Sealed, PatchSpec, HeaderValueSpec, Normalize, Encode, HasKeySha256;
    var parsed := JE.SimpleCacheEntry.Parse(hashes, file, true);
    if parsed == None {
      return None;
    }
    ParsedFits(file);
    var e := parsed.value;
    var stored := body;
    if autoEncode {
      var value := HeaderValue(e.stream0, CONTENT_ENCODING);
      if value == None {
        return None;
      }
      var encoding := if value.value == Some([]) then None else value.value;
      if IsCompressed(encoding) {
        var encoded := Encode(c, body, encoding);
        if encoded == None || |encoded.value| > INT_MAX {
          return None;
        }
        stored := encoded.value;
      }
    } else {
      NoEncoding();
    }
    var patched := PatchContentLength(e.stream0, |stored|);
    if patched == None {
      return None;
    }
    PatchFits(e.stream0, |stored|);
    e.stream1 := stored;
    e.stream0 := patched.value;
    r := e.Serialize(hashes, HasKeySha256(e.eof0));
  }

  lemma NoEncoding()
    ensures !IsCompressed(None)
  {
  }

  /** The index with this record put, its total recomputed and the time and reason set. */
  function UpdatedIndex(x: JI.Index, r: Record): JI.Index {
    var entries := JI.PutSpec(x.entries, r);
    x.(entries := entries, cacheSize := JI.SizeSum(entries) % U64_LIMIT, reason := JI.REASON_IDLE,
       modified := r.lastUsed)
  }

  function NewRecord(hashes: Hashes, key: Bytes, fileSize: nat, lastUsed: i64): Option<Record>
    requires fileSize <= INT_MAX
  {
    match JI.ChunksFor(fileSize)
    case None => None
    case Some(chunks) => Some(Record(EntryHash(hashes, key), lastUsed, chunks, 0))
  }

  function UpdateIndexSpec(hashes: Hashes, index: Bytes, file: Bytes, lastUsed: i64): Option<Bytes>
    requires |file| <= INT_MAX
  {
    match JI.ParseSpec(hashes, index, true)
    case None => None
    case Some(x) =>
      match JE.ParseSpec(file)
      case None => None
      case Some(e) =>
        match NewRecord(hashes, e.key, |file|, lastUsed)
        case None => None
        case Some(r) =>
          var x' := UpdatedIndex(x, r);
          if 48 + RECORD_SIZE * |x'.entries| > INT_MAX then None else Some(JI.SerializeSpec(hashes, x'))
  }

  method UpdateIndex(hashes: Hashes, index: Bytes, file: Bytes, lastUsed: i64) returns (r: Option<Bytes>)
    requires |index| <= INT_MAX && |file| <= INT_MAX
    ensures r == UpdateIndexSpec(hashes, index, file, lastUsed)
  {
    hide JI.ParseSpec, JE.ParseSpec, JI.SerializeSpec, JI.PutSpec, JI.SizeSum, JI.ChunksFor, EntryHash;
    var parsed := JI.SimpleCacheIndex.Parse(hashes, index, true);
    if parsed == None {
      return None;
    }
    var idx := parsed.value;
    IndexFits(hashes, index);
    var entry := JE.SimpleCacheEntry.Parse(hashes, file, true);
    if entry == None {
      return None;
    }
    var chunks := JI.ChunksFor(|file|);
    if chunks == None {
      return None;
    }
    var record := Record(EntryHash(hashes, entry.value.key.value), lastUsed, chunks.value, 0);
    PutLength(idx.entries, record);
    idx.Put(record);
    idx.RecomputeCacheSize();
    idx.reason := JI.REASON_IDLE;
    idx.modified := lastUsed;
    r := idx.Serialize(hashes);
  }

  lemma PutLength(rs: seq<Record>, r: Record)
    ensures |rs| <= |JI.PutSpec(rs, r)| <= |rs| + 1
  {
  }

  lemma IndexFits(hashes: Hashes, index: Bytes)
    requires |index| <= INT_MAX && JI.ParseSpec(hashes, index, true).Some?
    ensures 48 + RECORD_SIZE * |JI.ParseSpec(hashes, index, true).value.entries| <= |index|
  {
    hide HeadOf, RecordAt, U64At, JI.RecordsOf;
    JI.RecordsOfLength(index, JI.LoopCount(HeadOf(index).count));
  }

  function ModifySpec(hashes: Hashes, c: Codec, index: Bytes, file: Bytes, body: Bytes, lastUsed: i64): Option<Modified>
    requires |file| <= INT_MAX
  {
    match ModifyEntrySpec(hashes, c, file, body, true)
    case None => None
    case Some(newFile) =>
      match UpdateIndexSpec(hashes, index, newFile, lastUsed)
      case None => None
      case Some(newIndex) =>
        match JE.ParseSpec(newFile)
        case None => None
        case Some(e) => Some(Modified(EntryHash(hashes, e.key), newFile, newIndex))
  }

  method Modify(hashes: Hashes, c: Codec, index: Bytes, file: Bytes, body: Bytes, lastUsed: i64)
      returns (r: Option<Modified>)
    requires |index| <= INT_MAX && |file| <= INT_MAX && |body| <= INT_MAX
    ensures r == ModifySpec(hashes, c, index, file, body, lastUsed)
  {
    hide ModifyEntrySpec, UpdateIndexSpec, JE.ParseSpec, EntryHash;
    var newFile := ModifyEntryBody(hashes, c, file, body, true);
    if newFile == None {
      return None;
    }
    var newIndex := UpdateIndex(hashes, index, newFile.value, lastUsed);
    if newIndex == None {
      return None;
    }
    var e := JE.SimpleCacheEntry.Parse(hashes, newFile.value, true);
    if e == None {
      return None;
    }
    return Some(Modified(EntryHash(hashes, e.value.key.value), newFile.value, newIndex.value));
  }

  // ---------------------------------------------------------------------------
  // Modify, then restore
  // ---------------------------------------------------------------------------

  /** The entry in the file, its encoding, and the streams a modification gives it. */
  ghost predicate Edits(c: Codec, file: Bytes, body: Bytes, e: JE.Entry, enc: Option<Bytes>, stored: Bytes,
                        stream0: Bytes) {
    && |file| <= INT_MAX
    && JE.ParseSpec(file) == Some(e)
    && ContentEncodingSpec(e.stream0) == Some(enc)
    && StoredBody(c, body, enc) == Some(stored)
    && PatchSpec(e.stream0, |stored|) == Some(stream0)
  }

  /** The rewritten file parses to the same key and version with the new streams, without warnings. */
  lemma ModifiedFile(hashes: Hashes, c: Codec, file: Bytes, body: Bytes, e: JE.Entry, enc: Option<Bytes>,
                     stored: Bytes, stream0: Bytes)
    requires Edits(c, file, body, e, enc, stored, stream0)
    requires ModifyEntrySpec(hashes, c, file, body, true).Some?
    ensures var newFile := ModifyEntrySpec(hashes, c, file, body, true).value;
            var digest := HasKeySha256(e.eof0);
            && |e.key| <= INT_MAX && |stream0| <= INT_MAX
            && newFile == JE.SerializeSpec(hashes, e.version, e.key, stored, stream0, digest)
            && JE.ParseSpec(newFile) == Some(JE.Sealed(hashes, e.version, e.key, stored, stream0, digest))
            && JE.Warnings(hashes, JE.Sealed(hashes, e.version, e.key, stored, stream0, digest)) == []
  {
    hide JE.ParseSpec, JE.SerializeSpec, JE.Sealed, JE.Warnings, PatchSpec, ContentEncodingSpec, StoredBody,
      HasKeySha256;
    ParsedFits(file);
    PatchFits(e.stream0, |stored|);
    JE.ParseOfSerialize(hashes, e.version, e.key, stored, stream0, HasKeySha256(e.eof0));
  }

  /** Once the streams are determined, a modification fails only when a file becomes too long for an array. */
  lemma ModifySucceeds(hashes: Hashes, c: Codec, index: Bytes, file: Bytes, body: Bytes, lastUsed: i64, x: JI.Index,
                       e: JE.Entry, enc: Option<Bytes>, stored: Bytes, stream0: Bytes)
    requires Edits(c, file, body, e, enc, stored, stream0)
    requires |index| <= INT_MAX && |file| <= INT_MAX && JI.ParseSpec(hashes, index, true) == Some(x)
    ensures |e.key| <= INT_MAX && |stream0| <= INT_MAX
    ensures ModifySpec(hashes, c, index, file, body, lastUsed).Some? <==>
              && |JE.SerializeSpec(hashes, e.version, e.key, stored, stream0, HasKeySha256(e.eof0))| <= INT_MAX
              && var n := |x.entries| + if Named(x.entries, EntryHash(hashes, e.key)) then 0 else 1;
              48 + RECORD_SIZE * n <= INT_MAX
  {
    hide JE.ParseSpec, JI.ParseSpec, JI.SerializeSpec, JE.SerializeSpec, JE.Sealed, JE.Warnings, PatchSpec, StoredBody,
      ContentEncodingSpec, HasKeySha256, EntryHash, JI.ChunksFor, JI.PutSpec, MaskAll, Named;
    ParsedFits(file);
    PatchFits(e.stream0, |stored|);
    var digest := HasKeySha256(e.eof0);
    var out := JE.SerializeSpec(hashes, e.version, e.key, stored, stream0, digest);
    if |out| <= INT_MAX {
      JE.ParseOfSerialize(hashes, e.version, e.key, stored, stream0, digest);
      SealedStreams(hashes, e.version, e.key, stored, stream0, digest);
      ChunksCover(|out|);
      var r := NewRecord(hashes, e.key, |out|, lastUsed).value;
      PutHashes(x.entries, r);
    }
  }

  /** An entry without a header block keeps its stream 0 and stores the new body as it is. */
  lemma HeaderlessEdits(c: Codec, file: Bytes, body: Bytes, e: JE.Entry)
    requires |file| <= INT_MAX && JE.ParseSpec(file) == Some(e) && BlockOf(e.stream0).NoBlock?
    ensures Edits(c, file, body, e, None, body, e.stream0) && PatchSafe(e.stream0, |body|)
  {
    hide JE.ParseSpec, BlockOf;
    NoEncoding();
  }

  lemma SealedStreams(hashes: Hashes, version: u32, key: Bytes, stream1: Bytes, stream0: Bytes, digest: bool)
    requires |key| <= INT_MAX && |stream0| <= INT_MAX
    ensures var e := JE.Sealed(hashes, version, key, stream1, stream0, digest);
            e.key == key && e.stream1 == stream1 && e.stream0 == stream0
  {
  }

  lemma StoredRestores(c: Codec, body: Bytes, enc: Option<Bytes>)
    requires Inverse(c) && StoredBody(c, body, enc).Some?
    ensures var stored := StoredBody(c, body, enc).value;
            if IsCompressed(enc) then Decode(c, stored, enc) == Some(body) else stored == body
  {
    hide Normalize, Encode, Decode;
    if IsCompressed(enc) {
      DecodeOfEncode(c, body, enc);
    }
  }

  /** Restoring the rewritten file gives the new body with the same key and content-encoding and no warnings. */
  lemma ModifiedFileRestores(hashes: Hashes, c: Codec, file: Bytes, body: Bytes, e: JE.Entry, enc: Option<Bytes>,
                             stored: Bytes, stream0: Bytes, h: u64)
    requires Inverse(c) && Edits(c, file, body, e, enc, stored, stream0) && PatchSafe(e.stream0, |stored|)
    requires ModifyEntrySpec(hashes, c, file, body, true).Some?
    ensures RestoreOne(hashes, c, h, ModifyEntrySpec(hashes, c, file, body, true))
         == Some(Restored(h, e.key, body, stored, stream0, enc, []))
  {
    hide JE.ParseSpec, JE.SerializeSpec, JE.Sealed, JE.Warnings, PatchSpec, ContentEncodingSpec, StoredBody, Decode,
      IsCompressed, ModifyEntrySpec, PatchSafe, HasKeySha256;
    ModifiedFile(hashes, c, file, body, e, enc, stored, stream0);
    SealedStreams(hashes, e.version, e.key, stored, stream0, HasKeySha256(e.eof0));
    ParsedFits(file);
    PatchKeepsEncoding(e.stream0, |stored|);
    StoredRestores(c, body, enc);
    assert Wrapped([]) == [];
  }

  /** The rewritten index lists the same hashes in the same order, and the entry's own. */
  lemma ModifiedIndex(hashes: Hashes, index: Bytes, file: Bytes, lastUsed: i64, e: JE.Entry, x: JI.Index)
    requires |file| <= INT_MAX && JE.ParseSpec(file) == Some(e) && JI.ParseSpec(hashes, index, true) == Some(x)
    requires UpdateIndexSpec(hashes, index, file, lastUsed).Some? && |index| <= INT_MAX
    ensures var r := NewRecord(hashes, e.key, |file|, lastUsed);
            && r.Some? && r.value.hash == EntryHash(hashes, e.key)
            && var x' := UpdatedIndex(x, r.value);
            && UpdateIndexSpec(hashes, index, file, lastUsed).value == JI.SerializeSpec(hashes, x')
            && 48 + RECORD_SIZE * |x'.entries| <= INT_MAX
            && JI.ParseSpec(hashes, JI.SerializeSpec(hashes, x'), true)
               == Some(x'.(version := INDEX_VERSION, entries := MaskAll(x'.entries), crcWarning := false))
  {
    hide JE.ParseSpec, JI.ParseSpec, JI.SerializeSpec, EntryHash, JI.ChunksFor, UpdatedIndex;
    var r := NewRecord(hashes, e.key, |file|, lastUsed).value;
    JI.ParseOfSerialize(hashes, UpdatedIndex(x, r), true);
  }

  lemma PutHashes(rs: seq<Record>, r: Record)
    ensures var ps := MaskAll(JI.PutSpec(rs, r));
            && |rs| <= |ps| <= |rs| + 1
            && (forall i | 0 <= i < |rs| :: ps[i].hash == rs[i].hash)
            && (|ps| > |rs| ==> ps[|rs|].hash == r.hash)
            && (|ps| == |rs| <==> Named(rs, r.hash))
  {
    hide JI.FirstIndex;
    var i := JI.FirstIndex(rs, r.hash);
    assert i < |rs| ==> rs[i].hash == r.hash;
  }

  function With(provider: Provider, h: u64, file: Bytes): Provider {
    k => if k == h then Some(file) else provider(k)
  }

  /** Restoring a list with one file replaced. */
  lemma RestoredLists(hashes: Hashes, c: Codec, provider: Provider, h: u64, file: Bytes, rs: seq<Record>,
                      ps: seq<Record>, restored: Restored)
    requires |rs| <= |ps| <= |rs| + 1 && forall i | 0 <= i < |rs| :: ps[i].hash == rs[i].hash
    requires |ps| > |rs| ==> ps[|rs|].hash == h
    requires RestoreOne(hashes, c, h, Some(file)) == Some(restored)
    ensures var after := RestoreAll(hashes, c, ps, With(provider, h, file));
            && (after.Some? <==> forall i | 0 <= i < |rs| && rs[i].hash != h ::
                                   RestoreOne(hashes, c, rs[i].hash, provider(rs[i].hash)).Some?)
            && (after.Some? ==>
                  && |after.value| == |ps|
                  && forall i | 0 <= i < |ps| ::
                       if i == |rs| || rs[i].hash == h then after.value[i] == restored
                       else Some(after.value[i]) == RestoreOne(hashes, c, rs[i].hash, provider(rs[i].hash)))
  {
    hide RestoreOne, RestoreAll;
    RestoreAllPointwise(hashes, c, ps, With(provider, h, file));
    if forall i | 0 <= i < |rs| && rs[i].hash != h :: RestoreOne(hashes, c, rs[i].hash, provider(rs[i].hash)).Some? {
      forall i | 0 <= i < |ps|
        ensures RestoreOne(hashes, c, ps[i].hash, With(provider, h, file)(ps[i].hash)).Some?
      {
        if i < |rs| && rs[i].hash != h {
          assert RestoreOne(hashes, c, rs[i].hash, provider(rs[i].hash)).Some?;
        }
      }
    }
  }

  /**
   After `Modify`, with the rewritten file in place, restoring succeeds if and only if every other listed entry
   could be restored before; it then gives the new body for the modified hash and the old result for every
   other one, in the same order.
   */
  lemma ModifyThenRestore(hashes: Hashes, c: Codec, index: Bytes, provider: Provider, file: Bytes, body: Bytes,
                          lastUsed: i64, x: JI.Index, e: JE.Entry, enc: Option<Bytes>, stored: Bytes, stream0: Bytes)
    requires Inverse(c) && Edits(c, file, body, e, enc, stored, stream0) && PatchSafe(e.stream0, |stored|)
    requires |index| <= INT_MAX && |file| <= INT_MAX && JI.ParseSpec(hashes, index, true) == Some(x)
    requires ModifySpec(hashes, c, index, file, body, lastUsed).Some?
    ensures var m := ModifySpec(hashes, c, index, file, body, lastUsed).value;
            var after := RestoreSpec(hashes, c, m.indexFile, With(provider, m.hash, m.entryFile));
            && m.hash == EntryHash(hashes, e.key)
            && (after.Some? <==> forall i | 0 <= i < |x.entries| && x.entries[i].hash != m.hash ::
                                   RestoreOne(hashes, c, x.entries[i].hash, provider(x.entries[i].hash)).Some?)
            && (after.Some? ==>
                  && |after.value| == |x.entries| + (if Named(x.entries, m.hash) then 0 else 1)
                  && forall i | 0 <= i < |after.value| ::
                       if i == |x.entries| || x.entries[i].hash == m.hash
                       then after.value[i] == Restored(m.hash, e.key, body, stored, stream0, enc, [])
                       else Some(after.value[i])
                            == RestoreOne(hashes, c, x.entries[i].hash, provider(x.entries[i].hash)))
  {
    hide JE.ParseSpec, JI.ParseSpec, JI.SerializeSpec, ModifyEntrySpec, UpdateIndexSpec, RestoreOne, RestoreAll, Edits,
      PatchSafe, EntryHash, JI.PutSpec, MaskAll, JE.Sealed, JE.SerializeSpec, Named, HasKeySha256, Inverse, With;
    var m := ModifySpec(hashes, c, index, file, body, lastUsed).value;
    ModifiedFile(hashes, c, file, body, e, enc, stored, stream0);
    var digest := HasKeySha256(e.eof0);
    SealedStreams(hashes, e.version, e.key, stored, stream0, digest);
    ModifiedFileRestores(hashes, c, file, body, e, enc, stored, stream0, m.hash);
    var sealed_ := JE.Sealed(hashes, e.version, e.key, stored, stream0, digest);
    ModifiedIndex(hashes, index, m.entryFile, lastUsed, sealed_, x);
    var r := NewRecord(hashes, e.key, |m.entryFile|, lastUsed).value;
    var ps := MaskAll(JI.PutSpec(x.entries, r));
    PutHashes(x.entries, r);
    RestoredLists(hashes, c, provider, m.hash, m.entryFile, x.entries, ps,
                  Restored(m.hash, e.key, body, stored, stream0, enc, []));
  }

  // ---------------------------------------------------------------------------
  // Chromium after a modification
  // ---------------------------------------------------------------------------

  lemma {:induction false} MaskedSizes(rs: seq<Record>)
    ensures JI.SizeSum(MaskAll(rs)) == JI.SizeSum(rs)
  {
    if rs != [] {
      MaskedSizes(rs[..|rs| - 1]);
      assert MaskAll(rs)[..|rs| - 1] == MaskAll(rs[..|rs| - 1]);
    }
  }

  lemma ChunksCover(size: nat)
    requires size <= INT_MAX
    ensures JI.ChunksFor(size).Some? && size <= JI.ChunksFor(size).value * 256 < size + 256
  {
    assert (size + 255) % U64_LIMIT == size + 255;
  }

  lemma PutMember(rs: seq<Record>, r: Record)
    ensures Named(JI.PutSpec(rs, r), r.hash)
    ensures DistinctHashes(rs) ==> forall i | 0 <= i < |rs| && rs[i].hash != r.hash :: JI.PutSpec(rs, r)[i] == rs[i]
  {
    hide JI.FirstIndex;
    var i := JI.FirstIndex(rs, r.hash);
    assert JI.PutSpec(rs, r)[i].hash == r.hash;
  }

  /** Every record of the list is in the loaded set. */
  lemma ListedAs(rs: seq<Record>, es: EntrySet)
    requires Lists(HttpCache, INDEX_VERSION, es, MaskAll(rs))
    ensures forall r | r in rs ::
              r.hash in es && es[r.hash] == Meta(LastUsedSeconds(r.lastUsed), r.chunks, r.hints % 4)
  {
    hide LastUsedSeconds, Named;
    forall r | r in rs
      ensures r.hash in es && es[r.hash] == Meta(LastUsedSeconds(r.lastUsed), r.chunks, r.hints % 4)
    {
      var i :| 0 <= i < |rs| && rs[i] == r;
      assert MaskAll(rs)[i] == Masked(r);
    }
  }

  /** Chromium opens the rewritten file with the same key and the new streams. */
  lemma ChromiumOpensModified(hashes: Hashes, c: Codec, file: Bytes, body: Bytes, e: JE.Entry, enc: Option<Bytes>,
                              stored: Bytes, stream0: Bytes)
    requires Edits(c, file, body, e, enc, stored, stream0) && e.version == ENTRY_VERSION
    requires ModifyEntrySpec(hashes, c, file, body, true).Some?
    ensures JE.ChromiumReads(hashes, ModifyEntrySpec(hashes, c, file, body, true).value, e.key, stored, stream0)
  {
    hide JE.ParseSpec, JE.SerializeSpec, JE.Sealed, JE.Warnings, JE.ChromiumReads, ModifyEntrySpec, Edits, HasKeySha256;
    ModifiedFile(hashes, c, file, body, e, enc, stored, stream0);
    JE.ChromiumOpensJavaFile(hashes, e.key, stored, stream0, HasKeySha256(e.eof0));
  }

  /**
   From an index with different hashes, Chromium loads the rewritten one if and only if it is not too long. The
   stored total is then the sum over the loaded entries, the entry has its new time and rounded file size, and
   every other entry is as it was listed.
   */
  lemma ChromiumLoadsModified(hashes: Hashes, index: Bytes, file: Bytes, lastUsed: i64, e: JE.Entry, x: JI.Index)
    requires |file| <= INT_MAX && JE.ParseSpec(file) == Some(e)
    requires |index| <= INT_MAX && JI.ParseSpec(hashes, index, true) == Some(x) && DistinctHashes(x.entries)
    requires UpdateIndexSpec(hashes, index, file, lastUsed).Some?
    ensures var f, h := UpdateIndexSpec(hashes, index, file, lastUsed).value, EntryHash(hashes, e.key);
            var n := |x.entries| + (if Named(x.entries, h) then 0 else 1);
            var r := DeserializeSpec(hashes, HttpCache, f);
            && (r.Some? <==> n <= MAX_ENTRIES)
            && (r.Some? ==>
                  && |r.value.entries| == n && r.value.modified == lastUsed && r.value.reason == 2
                  && |f| >= RECORDS_START && HeadOf(f).cacheSize == Total(r.value.entries) % U64_LIMIT
                  && h in r.value.entries
                  && r.value.entries[h].time == LastUsedSeconds(lastUsed) && r.value.entries[h].hints == 0
                  && |file| <= EntrySize(r.value.entries[h]) < |file| + 256
                  && forall i | 0 <= i < |x.entries| && x.entries[i].hash != h ::
                       && x.entries[i].hash in r.value.entries
                       && r.value.entries[x.entries[i].hash]
                          == Meta(LastUsedSeconds(x.entries[i].lastUsed), x.entries[i].chunks, x.entries[i].hints % 4))
  {
    hide JE.ParseSpec, JI.ParseSpec, JI.SerializeSpec, UpdateIndexSpec, EntryHash, DeserializeSpec, HeadOf, Total,
      MapOf, JI.SizeSum, JI.PutSpec, JI.ChunksFor, LastUsedSeconds, Named, DistinctHashes;
    ModifiedIndex(hashes, index, file, lastUsed, e, x);
    var r := NewRecord(hashes, e.key, |file|, lastUsed).value;
    var x' := UpdatedIndex(x, r);
    var f := JI.SerializeSpec(hashes, x');
    ChunksCover(|file|);
    PutHashes(x.entries, r);
    PutMember(x.entries, r);
    JI.PutKeepsDistinct(x.entries, r);
    JI.MaskedDistinct(x'.entries);
    JI.HeadOfSerialized(hashes, x');
    JI.JavaThenChromium(hashes, HttpCache, f);
    MapOfLists(HttpCache, INDEX_VERSION, MaskAll(x'.entries));
    JI.SizeSumIsTotal(HttpCache, INDEX_VERSION, MaskAll(x'.entries));
    MaskedSizes(x'.entries);
    var es := MapOf(HttpCache, INDEX_VERSION, MaskAll(x'.entries));
    ListedAs(x'.entries, es);
    assert r in x'.entries;
  }
}
