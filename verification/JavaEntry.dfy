/**
 The Java reader and writer of entry files, related to Chromium's reader: both accept the same files
 and see the same key and streams in them. A `None` result stands for an exception.
 */
module JavaEntry {
  import opened ByteSeqs
  import opened EntryFormat
  import opened DenseEntry
  import opened EntryOpen

  // ---------------------------------------------------------------------------
  // Java integers and arrays
  // ---------------------------------------------------------------------------

  /** A copy of part of an array; an exception when any of it is missing. */
  function Slice(data: Bytes, off: int, len: int): Option<Bytes> {
    if len < 0 || off < 0 || off + len > |data| then None else Some(data[off..off + len])
  }

  function ReadEofAt(data: Bytes, off: int): Option<Eof> {
    if off < 0 || off + EOF_SIZE > |data| then None else Some(ReadEof(data[off..off + EOF_SIZE]))
  }

  // ---------------------------------------------------------------------------
  // Specification
  // ---------------------------------------------------------------------------

  datatype Entry = Entry(version: u32, keyLength: u32, keyHash: u32, headerPadding: u32, key: Bytes, stream1: Bytes,
                         eof1: Eof, stream0: Bytes, keySha256: Option<Bytes>, eof0: Eof)

  datatype Warning = KeyHashMismatch | Stream1CrcMismatch | Stream0CrcMismatch | KeyDigestMismatch

  /** What a file says, or nothing when it is malformed. */
  function ParseSpec(data: Bytes): Option<Entry> {
    if |data| < FILE_HEADER_SIZE + EOF_SIZE || U64At(data, 0) != INITIAL_MAGIC then None
    else
      var keyLength := U32At(data, 12);
      var keyEnd := FILE_HEADER_SIZE + keyLength;
      var eof0 := ReadEof(data[|data| - EOF_SIZE..]);
      var stream0End := |data| - EOF_SIZE - Extra(eof0);
      var stream0Start := stream0End - eof0.streamSize;
      var eof1At := stream0Start - EOF_SIZE;
      if keyEnd > |data| || eof0.magic != FINAL_MAGIC || eof1At < keyEnd then None
      else
        var eof1 := ReadEof(data[eof1At..stream0Start]);
        if eof1.magic != FINAL_MAGIC then None
        else Some(Entry(U32At(data, 8), keyLength, U32At(data, 16), U32At(data, 20),
                        data[FILE_HEADER_SIZE..keyEnd], data[keyEnd..eof1At], eof1, data[stream0Start..stream0End],
                        if HasKeySha256(eof0) then Some(data[stream0End..|data| - EOF_SIZE]) else None, eof0))
  }

  function Warnings(hashes: Hashes, e: Entry): seq<Warning> {
    (if hashes.keyHash(e.key) != e.keyHash then [KeyHashMismatch] else [])
    + (if !CrcMatches(hashes, e.eof1, e.stream1) then [Stream1CrcMismatch] else [])
    + (if !CrcMatches(hashes, e.eof0, e.stream0) then [Stream0CrcMismatch] else [])
    + (if HasKeySha256(e.eof0) && e.keySha256.Some? && hashes.sha256(e.key) != e.keySha256.value
       then [KeyDigestMismatch] else [])
  }

  /** The entry after it has been written: lengths, hashes and records follow from key and streams. */
  function Sealed(hashes: Hashes, version: u32, key: Bytes, stream1: Bytes, stream0: Bytes, withDigest: bool): Entry
    requires |key| < U32_LIMIT && |stream0| < U32_LIMIT
  {
    Entry(version, |key|, hashes.keyHash(key), 0, key, stream1,
          Eof(FINAL_MAGIC, 1, hashes.crc32(stream1), 0, 0), stream0,
          if withDigest then Some(hashes.sha256(key)) else None,
          Eof(FINAL_MAGIC, if withDigest then 3 else 1, hashes.crc32(stream0), |stream0|, 0))
  }

  function EntryParts(e: Entry): (p: Parts)
    ensures WellSized(p)
  {
    Parts(FileHeader(e.version, e.keyLength, e.keyHash), e.key, e.stream1, EofBytes(e.eof1), e.stream0,
          if e.keySha256.Some? then e.keySha256.value else [], EofBytes(e.eof0))
  }

  /** The file for these streams. */
  function SerializeSpec(hashes: Hashes, version: u32, key: Bytes, stream1: Bytes, stream0: Bytes,
                         withDigest: bool): Bytes
    requires |key| < U32_LIMIT && |stream0| < U32_LIMIT
  {
    Assemble(EntryParts(Sealed(hashes, version, key, stream1, stream0, withDigest)))
  }

  // ---------------------------------------------------------------------------
  // Two readers of one format
  // ---------------------------------------------------------------------------

  /** A Chromium open that also looked at stream 1's record. */
  ghost predicate ChromiumReads(hashes: Hashes, f: Bytes, key: Bytes, stream1: Bytes, stream0: Bytes) {
    var st := EntryStat(|stream0|, |stream1|);
    var at := FILE_HEADER_SIZE + |key|;
    && OpenSpec(hashes, f, None) == Opened(key, st, stream0)
    && Stream1Ok(hashes, f, key, st)
    && at + |stream1| <= |f| && f[at..at + |stream1|] == stream1
  }

  /** The Java reader has nothing to complain about, the version is Chromium's and stream 1's size field is an `int`. */
  ghost predicate JavaReads(hashes: Hashes, f: Bytes, key: Bytes, stream1: Bytes, stream0: Bytes) {
    && ParseSpec(f).Some?
    && var e := ParseSpec(f).value;
    && Warnings(hashes, e) == []
    && e.version == ENTRY_VERSION && e.eof1.streamSize <= INT_MAX
    && e.key == key && e.stream1 == stream1 && e.stream0 == stream0
  }

  lemma HeaderFieldsAgree(f: Bytes)
    requires |f| >= FILE_HEADER_SIZE
    ensures U64At(f, 0) == FromLE(f[0..8]) && U32At(f, 8) == FromLE(f[8..12])
    ensures U32At(f, 12) == FromLE(f[12..16]) && U32At(f, 16) == FromLE(f[16..20])
  {
  }

  lemma LastRecordAgrees(f: Bytes)
    requires |f| >= EOF_SIZE
    ensures f[|f| - EOF_SIZE..] == f[|f| - EOF_SIZE..|f| - EOF_SIZE + EOF_SIZE]
  {
  }

  lemma JavaThenChromium(hashes: Hashes, f: Bytes, key: Bytes, stream1: Bytes, stream0: Bytes)
    requires |f| <= INT_MAX && JavaReads(hashes, f, key, stream1, stream0)
    ensures ChromiumReads(hashes, f, key, stream1, stream0)
  {
    hide FromLE, ReadEof, HasKeySha256, HasCrc32;
    HeaderFieldsAgree(f);
    LastRecordAgrees(f);
  }

  lemma ChromiumThenJava(hashes: Hashes, f: Bytes, key: Bytes, stream1: Bytes, stream0: Bytes)
    requires |f| <= INT_MAX && ChromiumReads(hashes, f, key, stream1, stream0)
    ensures JavaReads(hashes, f, key, stream1, stream0)
  {
    hide FromLE, ReadEof, HasKeySha256, HasCrc32;
    HeaderFieldsAgree(f);
    LastRecordAgrees(f);
  }

  /** On every file both readers reach the same verdict and see the same key and streams. */
  lemma ReadersAgree(hashes: Hashes, f: Bytes, key: Bytes, stream1: Bytes, stream0: Bytes)
    requires |f| <= INT_MAX
    ensures JavaReads(hashes, f, key, stream1, stream0) <==> ChromiumReads(hashes, f, key, stream1, stream0)
  {
    hide *;
    if JavaReads(hashes, f, key, stream1, stream0) {
      JavaThenChromium(hashes, f, key, stream1, stream0);
    }
    if ChromiumReads(hashes, f, key, stream1, stream0) {
      ChromiumThenJava(hashes, f, key, stream1, stream0);
    }
  }

  // ---------------------------------------------------------------------------
  // What was written is read back
  // ---------------------------------------------------------------------------

  /** A file written by the Java writer parses to exactly the sealed entry, without warnings. */
  lemma ParseOfSerialize(hashes: Hashes, version: u32, key: Bytes, stream1: Bytes, stream0: Bytes, withDigest: bool)
    requires |key| < U32_LIMIT && |stream0| < U32_LIMIT
    ensures var e := Sealed(hashes, version, key, stream1, stream0, withDigest);
            && ParseSpec(SerializeSpec(hashes, version, key, stream1, stream0, withDigest)) == Some(e)
            && Warnings(hashes, e) == []
            && HasKeySha256(e.eof0) == withDigest
  {
    hide Assemble, ParseSpec, Sealed;
    var e := Sealed(hashes, version, key, stream1, stream0, withDigest);
    SealedFields(hashes, version, key, stream1, stream0, withDigest);
    var f := Assemble(EntryParts(e));
    AssembleHolds(EntryParts(e));
    ParseOfParts(f, e);
  }

  lemma SealedFields(hashes: Hashes, version: u32, key: Bytes, stream1: Bytes, stream0: Bytes, withDigest: bool)
    requires |key| < U32_LIMIT && |stream0| < U32_LIMIT
    ensures var e := Sealed(hashes, version, key, stream1, stream0, withDigest);
            && Warnings(hashes, e) == [] && HasKeySha256(e.eof0) == withDigest && Consistent(e)
  {
  }

  /** The length and digest fields describe the entry's own parts. */
  ghost predicate Consistent(e: Entry) {
    && e.keyLength == |e.key| && e.headerPadding == 0
    && e.eof0.magic == FINAL_MAGIC && e.eof1.magic == FINAL_MAGIC
    && e.eof0.streamSize == |e.stream0|
    && e.keySha256.Some? == HasKeySha256(e.eof0)
    && (e.keySha256.Some? ==> |e.keySha256.value| == SHA256_SIZE)
  }

  lemma ParseOfParts(f: Bytes, e: Entry)
    requires Consistent(e) && Holds(f, EntryParts(e))
    ensures ParseSpec(f) == Some(e)
  {
    hide FromLE, ReadEof, HasKeySha256, EofBytes, FileHeader;
    var p := EntryParts(e);
    EofRoundTrip(e.eof0);
    EofRoundTrip(e.eof1);
    FileHeaderFields(e.version, e.keyLength, e.keyHash);
    var h := f[..FILE_HEADER_SIZE];
    assert f[0..8] == h[0..8] && f[8..12] == h[8..12] && f[12..16] == h[12..16] && f[16..20] == h[16..20];
    assert f[20..24] == h[20..24];
    assert f[|f| - EOF_SIZE..] == p.eof0;
  }

  lemma KnownKeyChangesNothing(hashes: Hashes, f: Bytes, key: Bytes)
    requires OpenSpec(hashes, f, None).Opened? && OpenSpec(hashes, f, None).key == key
    ensures OpenSpec(hashes, f, Some(key)) == OpenSpec(hashes, f, None)
  {
    hide EofAt, FromLE;
  }

  /**
   Chromium opens every version-5 file the Java writer produces, with the key digest or without, and finds
   the same key and streams.
   */
  lemma ChromiumOpensJavaFile(hashes: Hashes, key: Bytes, stream1: Bytes, stream0: Bytes, withDigest: bool)
    requires |key| < U32_LIMIT && |stream0| < U32_LIMIT
    requires |SerializeSpec(hashes, ENTRY_VERSION, key, stream1, stream0, withDigest)| <= INT_MAX
    ensures var f := SerializeSpec(hashes, ENTRY_VERSION, key, stream1, stream0, withDigest);
            && ChromiumReads(hashes, f, key, stream1, stream0)
            && OpenSpec(hashes, f, Some(key)) == OpenSpec(hashes, f, None)
  {
    hide SerializeSpec, ParseSpec, Warnings, OpenTail, HeaderKey, Stream1Ok;
    var f := SerializeSpec(hashes, ENTRY_VERSION, key, stream1, stream0, withDigest);
    ParseOfSerialize(hashes, ENTRY_VERSION, key, stream1, stream0, withDigest);
    assert JavaReads(hashes, f, key, stream1, stream0);
    ReadersAgree(hashes, f, key, stream1, stream0);
    KnownKeyChangesNothing(hashes, f, key);
  }

  /** Rewriting a file that Chromium closed with checksums for both streams reproduces it byte for byte. */
  lemma RewriteOfClosed(hashes: Hashes, key: Bytes, stream1: Bytes, stream0: Bytes)
    requires |key| < U32_LIMIT && |stream0| <= INT_MAX
    ensures var r0, r1 := CrcRecord(0, true, hashes.crc32(stream0)), CrcRecord(1, true, hashes.crc32(stream1));
            SerializeSpec(hashes, ENTRY_VERSION, key, stream1, stream0, true)
            == Assemble(ClosedParts(hashes, key, stream1, stream0, r0, r1))
  {
    hide FileHeader, EofBytes, Assemble;
  }

  // ---------------------------------------------------------------------------
  // The class
  // ---------------------------------------------------------------------------

  lemma KeyEndFits(n: nat, keyLength: u32)
    requires n <= INT_MAX
    ensures var len := Signed(keyLength);
            Signed(FILE_HEADER_SIZE + len) <= n && 0 <= len && FILE_HEADER_SIZE + len <= n
            <==> FILE_HEADER_SIZE + keyLength <= n
    ensures FILE_HEADER_SIZE + keyLength <= n ==>
              Signed(keyLength) == keyLength && Signed(FILE_HEADER_SIZE + keyLength) == FILE_HEADER_SIZE + keyLength
  {
  }

  /** In 32-bit arithmetic too, the records fit if and only if the true offsets do. */
  lemma TailFits(n: nat, extra: nat, size: u32, keyEnd: nat)
    requires 2 * EOF_SIZE <= n <= INT_MAX && extra <= SHA256_SIZE
    ensures var start := Signed(n - EOF_SIZE - extra - Signed(size));
            var at := Signed(start - EOF_SIZE);
            var true_ := n - EOF_SIZE - extra - size;
            && (keyEnd <= at && at + EOF_SIZE <= n && 0 <= Signed(size) && at + EOF_SIZE <= start
                <==> keyEnd <= true_ - EOF_SIZE)
            && (keyEnd <= true_ - EOF_SIZE ==> Signed(size) == size && start == true_ && at == true_ - EOF_SIZE)
  {
  }

  datatype Tail = Tail(eof0: Eof, eof1: Eof, eof1Off: nat, stream0Start: nat)

  /** Find both end-of-stream records from the end of the file. */
  method FindTail(data: Bytes, keyEnd: nat) returns (r: Option<Tail>)
    requires 2 * EOF_SIZE <= |data| <= INT_MAX
    ensures var eof0 := ReadEof(data[|data| - EOF_SIZE..]);
            var start := |data| - EOF_SIZE - Extra(eof0) - eof0.streamSize;
            r == if eof0.magic == FINAL_MAGIC && keyEnd <= start - EOF_SIZE
                    && ReadEof(data[start - EOF_SIZE..start]).magic == FINAL_MAGIC
                 then Some(Tail(eof0, ReadEof(data[start - EOF_SIZE..start]), start - EOF_SIZE, start))
                 else None
  {
    hide ReadEof, HasKeySha256, Signed;
    var eof0Off := |data| - EOF_SIZE;
    LastRecordAgrees(data);
    var eof0 := ReadEof(data[eof0Off..eof0Off + EOF_SIZE]);
    if eof0.magic != FINAL_MAGIC {
      return None;
    }
    var stream0Size := Signed(eof0.streamSize);
    var extra := if HasKeySha256(eof0) then SHA256_SIZE else 0;
    TailFits(|data|, extra, eof0.streamSize, keyEnd);
    var stream0Start := Signed(eof0Off - extra - stream0Size);
    var eof1Off := Signed(stream0Start - EOF_SIZE);
    if eof1Off < keyEnd {
      return None;
    }
    var eof1 := ReadEofAt(data, eof1Off);
    if eof1 == None || eof1.value.magic != FINAL_MAGIC {
      return None;
    }
    if stream0Size < 0 || stream0Start < eof1Off + EOF_SIZE {
      return None;
    }
    return Some(Tail(eof0, eof1.value, eof1Off, stream0Start));
  }

  /** Take the file apart with 32-bit arithmetic; a malformed file, whatever its size fields say, is an exception. */
  method Decode(data: Bytes) returns (r: Option<Entry>)
    requires |data| <= INT_MAX
    ensures r == ParseSpec(data)
  {
    hide FromLE, ReadEof, HasKeySha256, Signed;
    if |data| < FILE_HEADER_SIZE + EOF_SIZE {
      return None;
    }
    if U64At(data, 0) != INITIAL_MAGIC {
      return None;
    }
    var keyLength := U32At(data, 12);
    KeyEndFits(|data|, keyLength);
    var keyEnd := Signed(FILE_HEADER_SIZE + Signed(keyLength));
    if keyEnd > |data| {
      return None;
    }
    var key := Slice(data, FILE_HEADER_SIZE, Signed(keyLength));
    if key == None {
      return None;
    }
    var tail := FindTail(data, keyEnd);
    if tail == None {
      return None;
    }
    var eof0, eof1, eof0Off := tail.value.eof0, tail.value.eof1, |data| - EOF_SIZE;
    var eof1Off, stream0Start := tail.value.eof1Off, tail.value.stream0Start;
    var stream1, stream0 := data[keyEnd..eof1Off], data[stream0Start..stream0Start + eof0.streamSize];
    var keySha256 := if HasKeySha256(eof0) then Some(data[eof0Off - SHA256_SIZE..eof0Off]) else None;
    return Some(Entry(U32At(data, 8), keyLength, U32At(data, 16), U32At(data, 20), key.value, stream1, eof1,
                      stream0, keySha256, eof0));
  }

  class SimpleCacheEntry {
    var initialMagic: u64
    var version: u32
    var keyLength: u32
    var keyHash: u32
    var headerPadding: u32
    var key: Option<Bytes>
    var stream1: Bytes
    var eof1: Eof
    var stream0: Bytes
    var keySha256: Option<Bytes>
    var eof0: Eof
    var warnings: seq<Warning>

    constructor ()
      ensures initialMagic == INITIAL_MAGIC && version == ENTRY_VERSION && key == None
      ensures stream1 == [] && stream0 == [] && keySha256 == None && warnings == []
    {
      initialMagic, version, keyLength, keyHash, headerPadding := INITIAL_MAGIC, ENTRY_VERSION, 0, 0, 0;
      key, stream1, stream0, keySha256, warnings := None, [], [], None, [];
      eof1, eof0 := Eof(0, 0, 0, 0, 0), Eof(0, 0, 0, 0, 0);
    }

    ghost function View(): Entry
      reads this
      requires key.Some?
    {
      Entry(version, keyLength, keyHash, headerPadding, key.value, stream1, eof1, stream0, keySha256, eof0)
    }

    /** An entry object with the fields of the file, checked on request. */
    static method Parse(hashes: Hashes, data: Bytes, verify: bool) returns (r: Option<SimpleCacheEntry>)
      requires |data| <= INT_MAX
      ensures r.Some? <==> ParseSpec(data).Some?
      ensures r.Some? ==>
                && fresh(r.value) && r.value.initialMagic == INITIAL_MAGIC && r.value.key.Some?
                && r.value.View() == ParseSpec(data).value
                && r.value.warnings == if verify then Warnings(hashes, ParseSpec(data).value) else []
    {
      hide ParseSpec, Warnings;
      var decoded := Decode(data);
      if decoded == None {
        return None;
      }
      var d := decoded.value;
      var e := new SimpleCacheEntry();
      e.version, e.keyLength, e.keyHash, e.headerPadding := d.version, d.keyLength, d.keyHash, d.headerPadding;
      e.key, e.stream1, e.eof1, e.stream0, e.keySha256, e.eof0 :=
        Some(d.key), d.stream1, d.eof1, d.stream0, d.keySha256, d.eof0;
      if verify {
        e.Verify(hashes);
      }
      return Some(e);
    }

    /** Add a warning for each hash that does not match. */
    method Verify(hashes: Hashes)
      requires key.Some?
      modifies this`warnings
      ensures warnings == old(warnings) + Warnings(hashes, View())
    {
      if hashes.keyHash(key.value) != keyHash {
        warnings := warnings + [KeyHashMismatch];
      }
      if HasCrc32(eof1) && hashes.crc32(stream1) != eof1.crc {
        warnings := warnings + [Stream1CrcMismatch];
      }
      if HasCrc32(eof0) && hashes.crc32(stream0) != eof0.crc {
        warnings := warnings + [Stream0CrcMismatch];
      }
      if HasKeySha256(eof0) && keySha256.Some? {
        var expected := hashes.sha256(key.value);
        if expected != keySha256.value {
          warnings := warnings + [KeyDigestMismatch];
        }
      }
    }

    /** Seal the entry and lay out its file; an exception without a key or when no array is long enough. */
    method Serialize(hashes: Hashes, withDigest: bool) returns (out: Option<Bytes>)
      requires initialMagic == INITIAL_MAGIC
      requires key.Some? ==> |key.value| <= INT_MAX
      requires |stream0| <= INT_MAX && |stream1| <= INT_MAX
      modifies this
      ensures key == old(key) && initialMagic == old(initialMagic) && warnings == old(warnings)
      ensures old(key).None? ==> out == None
      ensures old(key).Some? ==>
                var file := SerializeSpec(hashes, old(version), old(key).value, old(stream1), old(stream0), withDigest);
                && View() == Sealed(hashes, old(version), old(key).value, old(stream1), old(stream0), withDigest)
                && out == if |file| <= INT_MAX then Some(file) else None
    {
      hide FileHeader, EofBytes, Assemble;
      if key == None {
        return None;
      }
      keyLength, keyHash, headerPadding := |key.value|, hashes.keyHash(key.value), 0;
      eof1 := Eof(FINAL_MAGIC, 1, hashes.crc32(stream1), 0, 0);
      eof0 := Eof(FINAL_MAGIC, if withDigest then 3 else 1, hashes.crc32(stream0), |stream0|, 0);
      var header := FileHeader(version, keyLength, keyHash);
      var eof1Bytes, eof0Bytes := EofBytes(eof1), EofBytes(eof0);
      var sha := if withDigest then hashes.sha256(key.value) else [];
      keySha256 := if withDigest then Some(sha) else None;
      out := Concat([header, key.value, stream1, eof1Bytes, stream0, sha, eof0Bytes]);
      JoinedSeven(Parts(header, key.value, stream1, eof1Bytes, stream0, sha, eof0Bytes));
    }
  }

  /** All parts one after the other. */
  function Joined(parts: seq<Bytes>): Bytes {
    if parts == [] then [] else Joined(parts[..|parts| - 1]) + parts[|parts| - 1]
  }

  lemma JoinedNext(parts: seq<Bytes>, part: Bytes)
    ensures Joined(parts + [part]) == Joined(parts) + part
  {
    assert (parts + [part])[..|parts|] == parts;
  }

  lemma JoinedSeven(p: Parts)
    ensures Joined([p.header, p.key, p.stream1, p.eof1, p.stream0, p.digest, p.eof0]) == Assemble(p)
  {
    hide Joined;
    var a := [p.header, p.key];
    var b := a + [p.stream1] + [p.eof1];
    var c := b + [p.stream0] + [p.digest];
    assert [p.header, p.key, p.stream1, p.eof1, p.stream0, p.digest, p.eof0] == c + [p.eof0];
    JoinedTwo(p.header, p.key);
    JoinedNext(a, p.stream1);
    JoinedNext(a + [p.stream1], p.eof1);
    JoinedNext(b, p.stream0);
    JoinedNext(b + [p.stream0], p.digest);
    JoinedNext(c, p.eof0);
  }

  lemma JoinedTwo(a: Bytes, b: Bytes)
    ensures Joined([a, b]) == a + b
  {
    JoinedNext([], a);
    JoinedNext([a], b);
    assert [] + [a] == [a] && [a] + [b] == [a, b] && Joined([]) == [];
  }

  /** Copy the parts into one array; an exception if and only if the result is too long for an array. */
  method Concat(parts: seq<Bytes>) returns (out: Option<Bytes>)
    requires forall i | 0 <= i < |parts| :: |parts[i]| <= INT_MAX
    ensures out == if |Joined(parts)| <= INT_MAX then Some(Joined(parts)) else None
  {
    hide Joined;
    var total := TotalLength(parts);
    if total < 0 {
      return None;
    }
    out := CopyParts(parts, total);
  }

  /** Reducing a summand first does not change the reduced sum. */
  lemma SignedAdd(x: int, y: int)
    ensures Signed(Signed(x) + y) == Signed(x + y)
  {
    SameRemainder(Signed(x) + y, x + y, if x % U32_LIMIT > INT_MAX then -(x / U32_LIMIT) - 1 else -(x / U32_LIMIT));
  }

  lemma SignedZero()
    ensures Signed(0) == 0
  {
  }

  lemma SameRemainder(x: int, y: int, k: int)
    requires x == y + k * U32_LIMIT
    ensures x % U32_LIMIT == y % U32_LIMIT
  {
  }

  /** The sum of the lengths, in 32-bit arithmetic. */
  method TotalLength(parts: seq<Bytes>) returns (total: int)
    ensures total == Signed(|Joined(parts)|)
  {
    hide Joined, Signed;
    SignedZero();
    total := 0;
    var i := 0;
    JoinedNone();
    assert parts[..0] == [];
    while i < |parts|
      invariant i <= |parts| && total == Signed(|Joined(parts[..i])|)
    {
      assert parts[..i + 1] == parts[..i] + [parts[i]];
      JoinedNext(parts[..i], parts[i]);
      SignedAdd(|Joined(parts[..i])|, |parts[i]|);
      total := Signed(total + |parts[i]|);
      i := i + 1;
    }
    assert parts[..i] == parts;
  }

  /** Fill an array of this length; an exception when a part does not fit. */
  method CopyParts(parts: seq<Bytes>, total: nat) returns (out: Option<Bytes>)
    ensures out == if |Joined(parts)| <= total then Some(Joined(parts)) else None
  {
    hide Joined;
    var buffer := new byte[total];
    var off, i := 0, 0;
    JoinedNone();
    assert parts[..0] == [];
    while i < |parts|
      invariant i <= |parts| && off == |Joined(parts[..i])| <= total
      invariant buffer[..off] == Joined(parts[..i])
    {
      assert parts[..i + 1] == parts[..i] + [parts[i]];
      JoinedNext(parts[..i], parts[i]);
      if off + |parts[i]| > total {
        JoinedGrows(parts, i + 1);
        return None;
      }
      CopyInto(buffer, off, parts[i]);
      off := off + |parts[i]|;
      i := i + 1;
    }
    assert parts[..i] == parts;
    return Some(buffer[..off]);
  }

  lemma JoinedNone()
    ensures Joined([]) == []
  {
  }

  lemma {:induction false} JoinedGrows(parts: seq<Bytes>, i: nat)
    requires i <= |parts|
    ensures |Joined(parts[..i])| <= |Joined(parts)|
    decreases |parts|
  {
    if i == |parts| {
      assert parts[..i] == parts;
    } else {
      JoinedGrows(parts[..|parts| - 1], i);
      assert parts[..|parts| - 1][..i] == parts[..i];
    }
  }

  method CopyInto(buffer: array<byte>, off: nat, part: Bytes)
    requires off + |part| <= buffer.Length
    modifies buffer
    ensures buffer[..off] == old(buffer[..off]) && buffer[off..off + |part|] == part
    ensures buffer[..off + |part|] == old(buffer[..off]) + part
  {
    forall j | 0 <= j < |part| {
      buffer[off + j] := part[j];
    }
  }
}
