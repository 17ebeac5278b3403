/**
 Content encodings by their bytes, and what restoring and modifying do for each of them.
 */
module LibraryMeaning {
  import opened ByteSeqs
  import opened EntryFormat
  import opened HttpMetadata
  import opened HttpPatch
  import opened HttpMeaning
  import opened IndexModel
  import opened IndexFile
  import opened Library
  import JE = JavaEntry
  import JI = JavaIndex

  // ---------------------------------------------------------------------------
  // Names of encodings
  // ---------------------------------------------------------------------------

  predicate Blank(b: Bytes) {
    forall i | 0 <= i < |b| :: b[i] <= 32
  }

  /** Trimming is decided by where the first and the last other character are. */
  lemma TrimIs(a: Bytes, b: Bytes, z: Bytes)
    requires Blank(a) && Blank(z) && b != [] && b[0] > 32 && b[|b| - 1] > 32
    ensures Trim(a + b + z) == b
  {
    hide Trim;
    var s := a + b + z;
    var n, m := TrimBounds(s);
    assert s[|a|] == b[0] && s[|a| + |b| - 1] == b[|b| - 1];
    assert n <= |a| && |a| + |b| <= m;
    assert forall i | 0 <= i < |a| :: s[i] == a[i];
    assert forall i | 0 <= i < |z| :: s[|a| + |b| + i] == z[i];
    assert n == |a|;
    assert m == |a| + |b|;
    assert s[|a|..|a| + |b|] == b;
  }

  /** A token in any spelling, with blanks around it, is that token in lower case. */
  lemma SpelledEncoding(a: Bytes, spelling: Bytes, z: Bytes, name: Bytes)
    requires Blank(a) && Blank(z) && LowerName(name) && FreeOf(name, 59) && name != [] && |spelling| == |name|
    requires forall i | 0 <= i < |name| ::
               spelling[i] == name[i] || (97 <= name[i] <= 122 && spelling[i] == name[i] - 32)
    ensures Normalize(Some(a + spelling + z)) == Some(name)
  {
    hide Trim, IndexOf;
    TrimIs(a, spelling, z);
    assert Lowered(spelling) == name;
    NoSemicolon(name);
  }

  lemma NoSemicolon(b: Bytes)
    requires FreeOf(b, 59)
    ensures IndexOf(b, [SEMICOLON], 0) == -1
  {
    hide IndexOf;
    forall i | 0 <= i < |b|
      ensures !OccursAt(b, [SEMICOLON], i)
    {
      assert b[i..i + 1] == [b[i]];
    }
  }

  /** So it is with parameters after a semicolon. */
  lemma SpelledWithParameters(a: Bytes, spelling: Bytes, z: Bytes, parameters: Bytes, name: Bytes)
    requires Blank(a) && Blank(z) && LowerName(name) && FreeOf(name, 59) && name != [] && |spelling| == |name|
    requires forall i | 0 <= i < |name| ::
               spelling[i] == name[i] || (97 <= name[i] <= 122 && spelling[i] == name[i] - 32)
    ensures Normalize(Some(a + spelling + z + [59] + parameters)) == Some(name)
  {
    hide Trim, IndexOf, Normalize;
    var x := spelling + z + [59];
    var n, m := TrimBounds(parameters);
    var kept, cut := if n == m then x else x + parameters[..m], if n == m then parameters else parameters[m..];
    assert kept[0] == spelling[0] && kept[|kept| - 1] > 32;
    assert parameters == parameters[..m] + parameters[m..];
    assert a + spelling + z + [59] + parameters == a + kept + cut;
    TrimIs(a, kept, cut);
    assert kept == spelling + z + [59] + (if n == m then [] else parameters[..m]);
    CutAtSemicolon(a + kept + cut, spelling, z, if n == m then [] else parameters[..m], name);
  }

  lemma CutAtSemicolon(x: Bytes, spelling: Bytes, z: Bytes, rest: Bytes, name: Bytes)
    requires Trim(x) == spelling + z + [59] + rest && Lowered(spelling) == name && Blank(z)
    requires LowerName(name) && FreeOf(name, 59) && name != []
    ensures Normalize(Some(x)) == Some(name)
  {
    hide Trim, IndexOf;
    var e := Lowered(Trim(x));
    var k := |spelling| + |z|;
    assert e[..k] == name + z;
    forall i | 0 <= i < k
      ensures !OccursAt(e, [SEMICOLON], i)
    {
      assert e[i] == e[..k][i];
      assert e[i..i + 1] == [e[i]];
    }
    assert e[k..k + 1] == [59];
    IndexOfIs(e, [SEMICOLON], k);
    assert [] + name + z == name + z;
    TrimIs([], name, z);
  }

  /** Without a value, or with nothing but blanks, there is no encoding. */
  lemma NoEncodingMeans(b: Bytes)
    requires Blank(b)
    ensures Normalize(None) == None && Normalize(Some(b)) == None
  {
    hide Trim, IndexOf;
    var n, m := TrimBounds(b);
    assert Trim(b) == [];
    NoSemicolon([]);
  }

  /** Nor is there one when nothing but blanks stands before the first semicolon. */
  lemma OnlyParameters(b: Bytes, parameters: Bytes)
    requires Blank(b)
    ensures Normalize(Some(b + [59] + parameters)) == None
  {
    hide IndexOf, Trim;
    var n, m := TrimBounds(parameters);
    if n == m {
      assert b + [59] + parameters == b + ([59] + []) + parameters;
      AtSemicolon(b, [], parameters);
    } else {
      Regrouped(b, [59], parameters, m);
      AtSemicolon(b, parameters[..m], parameters[m..]);
    }
  }

  lemma Regrouped(a: Bytes, b: Bytes, c: Bytes, m: nat)
    requires m <= |c|
    ensures a + b + c == a + (b + c[..m]) + c[m..]
  {
  }

  lemma AtSemicolon(b: Bytes, kept: Bytes, cut: Bytes)
    requires Blank(b) && Blank(cut) && (kept != [] ==> kept[|kept| - 1] > 32)
    ensures Normalize(Some(b + ([59] + kept) + cut)) == None
  {
    hide IndexOf, Trim;
    TrimIs(b, [59] + kept, cut);
    var e := Lowered([59] + kept);
    assert e[0..1] == [59];
    IndexOfIs(e, [SEMICOLON], 0);
    NoEncodingMeans([]);
    var n, m := TrimBounds([]);
    assert e[..0] == [];
  }

  /** "gzip" and "deflate" are decoded and encoded by the two pairs of functions; anything else is left as it is. */
  lemma EncodingsMean(c: Codec, data: Bytes, encoding: Option<Bytes>)
    ensures Normalize(encoding) == Some([103, 122, 105, 112]) ==>
              IsCompressed(encoding) && Decode(c, data, encoding) == c.gunzip(data)
              && Encode(c, data, encoding) == c.gzip(data)
    ensures Normalize(encoding) == Some([100, 101, 102, 108, 97, 116, 101]) ==>
              IsCompressed(encoding) && Decode(c, data, encoding) == c.expand(data)
              && Encode(c, data, encoding) == c.compress(data)
    ensures Normalize(encoding) != Some([103, 122, 105, 112])
            && Normalize(encoding) != Some([100, 101, 102, 108, 97, 116, 101]) ==>
              !IsCompressed(encoding) && Decode(c, data, encoding) == Some(data)
              && Encode(c, data, encoding) == Some(data)
  {
    hide Normalize;
  }

  // ---------------------------------------------------------------------------
  // Restoring and modifying
  // ---------------------------------------------------------------------------

  /**
   A file whose content-encoding is "gzip" or "deflate" restores with its body decompressed, or, if that fails, as it
   is and with a warning. The other fields are those of the file.
   */
  lemma CompressedRestores(hashes: Hashes, c: Codec, h: u64, file: Bytes, e: JE.Entry, value: Bytes, gzip: bool)
    requires JE.ParseSpec(file) == Some(e) && HeaderValueSpec(e.stream0, CONTENT_ENCODING) == Some(Some(value))
    requires Normalize(Some(value))
          == Some(if gzip then [103, 122, 105, 112] else [100, 101, 102, 108, 97, 116, 101])
    ensures RestoreOne(hashes, c, h, Some(file)).Some?
    ensures var r := RestoreOne(hashes, c, h, Some(file)).value;
            var decoded := if gzip then c.gunzip(e.stream1) else c.expand(e.stream1);
            && r.hash == h && r.key == e.key && r.rawBody == e.stream1 && r.metadata == e.stream0
            && r.encoding == Some(value)
            && r.body == (if decoded.Some? then decoded.value else e.stream1)
            && (DecodeFailed in r.warnings <==> decoded == None)
  {
    hide JE.ParseSpec, JE.Warnings, HeaderValueSpec, Normalize;
    EncodingsMean(c, e.stream1, Some(value));
    NoEncodingMeans([]);
  }

  /** So it does for "gzip" in any spelling, with blanks and parameters. */
  lemma GzipRestores(hashes: Hashes, c: Codec, h: u64, file: Bytes, e: JE.Entry, spelling: Bytes, z: Bytes, ps: Bytes)
    requires JE.ParseSpec(file) == Some(e) && Blank(z) && |spelling| == 4
    requires forall i | 0 <= i < 4 ::
               var l := "gzip"[i] as int; spelling[i] == l || spelling[i] == l - 32
    requires HeaderValueSpec(e.stream0, CONTENT_ENCODING) == Some(Some(spelling + z + [59] + ps))
          || HeaderValueSpec(e.stream0, CONTENT_ENCODING) == Some(Some(spelling))
    ensures RestoreOne(hashes, c, h, Some(file)).Some?
    ensures c.gunzip(e.stream1).Some? ==>
              RestoreOne(hashes, c, h, Some(file)).value.body == c.gunzip(e.stream1).value
  {
    hide JE.ParseSpec, HeaderValueSpec, Normalize, RestoreOne;
    SpelledEncoding([], spelling, [], GZIP);
    SpelledWithParameters([], spelling, z, ps, GZIP);
    assert [] + spelling + [] == spelling && [] + spelling + z + [59] + ps == spelling + z + [59] + ps;
    CompressedRestores(hashes, c, h, file, e, HeaderValueSpec(e.stream0, CONTENT_ENCODING).value.value, true);
  }

  /** An entry of any other encoding, or of none, restores with its body as it is. */
  lemma PlainRestores(hashes: Hashes, c: Codec, h: u64, file: Bytes, e: JE.Entry, value: Option<Bytes>)
    requires JE.ParseSpec(file) == Some(e) && HeaderValueSpec(e.stream0, CONTENT_ENCODING) == Some(value)
    requires Normalize(value) != Some([103, 122, 105, 112])
    requires Normalize(value) != Some([100, 101, 102, 108, 97, 116, 101])
    ensures RestoreOne(hashes, c, h, Some(file)).Some?
    ensures var r := RestoreOne(hashes, c, h, Some(file)).value;
            && r.hash == h && r.key == e.key && r.body == r.rawBody == e.stream1 && r.metadata == e.stream0
            && r.encoding == (if value == Some([]) then None else value) && DecodeFailed !in r.warnings
  {
    hide JE.ParseSpec, JE.Warnings, HeaderValueSpec, Normalize, Trim;
    EncodingsMean(c, e.stream1, value);
    NoEncodingMeans([]);
    EncodingsMean(c, e.stream1, None);
  }

  /** What the warnings of a restored entry are: those of its file, and whether decoding failed. */
  lemma RestoredWarnings(hashes: Hashes, c: Codec, h: u64, file: Bytes, e: JE.Entry, w: JE.Warning)
    requires JE.ParseSpec(file) == Some(e) && RestoreOne(hashes, c, h, Some(file)).Some?
    ensures InEntry(w) in RestoreOne(hashes, c, h, Some(file)).value.warnings <==> w in JE.Warnings(hashes, e)
    ensures MissingFile !in RestoreOne(hashes, c, h, Some(file)).value.warnings
  {
    hide JE.ParseSpec, JE.Warnings, ContentEncodingSpec, IsCompressed, Decode;
    var ws := JE.Warnings(hashes, e);
    assert forall i | 0 <= i < |ws| :: Wrapped(ws)[i] == InEntry(ws[i]);
  }

  /** A compressed entry stores the compressed new body, any other the body itself. */
  lemma StoredMeans(c: Codec, body: Bytes, encoding: Option<Bytes>)
    requires |body| <= 0x7fff_ffff
    ensures Normalize(encoding) == Some([103, 122, 105, 112]) ==>
              StoredBody(c, body, encoding)
              == if c.gzip(body).Some? && |c.gzip(body).value| <= 0x7fff_ffff then c.gzip(body) else None
    ensures Normalize(encoding) == Some([100, 101, 102, 108, 97, 116, 101]) ==>
              StoredBody(c, body, encoding)
              == if c.compress(body).Some? && |c.compress(body).value| <= 0x7fff_ffff then c.compress(body) else None
    ensures Normalize(encoding) != Some([103, 122, 105, 112])
            && Normalize(encoding) != Some([100, 101, 102, 108, 97, 116, 101]) ==>
              StoredBody(c, body, encoding) == Some(body)
  {
    hide Normalize;
    EncodingsMean(c, body, encoding);
  }

  /** Without automatic encoding the new body is stored as it is, whatever the entry's encoding. */
  lemma UnencodedMeans(hashes: Hashes, c: Codec, file: Bytes, body: Bytes, e: JE.Entry)
    requires |file| <= INT_MAX && JE.ParseSpec(file) == Some(e)
    requires ModifyEntrySpec(hashes, c, file, body, false).Some?
    ensures PatchSpec(e.stream0, |body|).Some?
    ensures var r := JE.ParseSpec(ModifyEntrySpec(hashes, c, file, body, false).value);
            && r.Some? && r.value.stream1 == body && r.value.key == e.key && r.value.version == e.version
            && r.value.stream0 == PatchSpec(e.stream0, |body|).value
  {
    hide JE.ParseSpec, JE.SerializeSpec, JE.Warnings, PatchSpec, HasKeySha256;
    NoEncoding();
    ParsedFits(file);
    PatchFits(e.stream0, |body|);
    JE.ParseOfSerialize(hashes, e.version, e.key, body, PatchSpec(e.stream0, |body|).value, HasKeySha256(e.eof0));
  }

  /** The hash of an entry is the first eight bytes of its key's SHA-1, least significant first. */
  lemma EntryHashMeans(hashes: Hashes, key: Bytes)
    ensures LE(8, EntryHash(hashes, key)) == hashes.sha1(key)[0..8]
  {
    hide FromLE, LE;
    LEOfFromLE(hashes.sha1(key)[0..8]);
  }

  /** The updated index: its reason and time, the total of its entries, and the new record in its place. */
  lemma UpdatedMeans(x: JI.Index, r: Record, i: nat)
    requires i <= |x.entries| && forall j | 0 <= j < i :: x.entries[j].hash != r.hash
    requires i < |x.entries| ==> x.entries[i].hash == r.hash
    ensures var x' := UpdatedIndex(x, r);
            && x'.entries == x.entries[..i] + [r] + (if i < |x.entries| then x.entries[i + 1..] else [])
            && x'.reason == 2 && x'.modified == r.lastUsed
            && x'.version == x.version && x'.crcWarning == x.crcWarning
  {
    hide JI.FirstIndex, JI.SizeSum;
    assert JI.FirstIndex(x.entries, r.hash) == i;
  }
}
