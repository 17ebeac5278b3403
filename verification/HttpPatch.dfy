/**
 Reading headers from stream 0 and rewriting its content-length together with both pickle length fields.
 A `None` result of an operation stands for an exception.
 */
module HttpPatch {
  import opened ByteSeqs
  import opened JavaEntry
  import opened HttpMetadata

  // ---------------------------------------------------------------------------
  // Locating the block
  // ---------------------------------------------------------------------------

  datatype BlockResult = NoBlock | Throws | Block(start: nat, text: Bytes)

  /** Offset of the status line; the check of the stored length is made in 32-bit arithmetic. */
  function HeaderOffset(s: Bytes): (r: int)
    ensures r == -1 || (4 <= r <= |s| && r == IndexOf(s, STATUS_START, 0))
  {
    if |s| < 8 then -1
    else
      var hs := IndexOf(s, STATUS_START, 0);
      if hs < 4 then -1
      else
        var length := Signed(U32At(s, hs - 4));
        if length <= 0 || Signed(hs + length) > |s| then -1 else hs
  }

  method FindHeader(s: Bytes) returns (hs: int)
    ensures hs == HeaderOffset(s)
  {
    hide IndexOf, Signed;
    if |s| < 8 {
      return -1;
    }
    hs := FindBytes(s, STATUS_START, 0);
    if hs < 4 {
      return -1;
    }
    var length := Signed(U32At(s, hs - 4));
    if length <= 0 || Signed(hs + length) > |s| {
      return -1;
    }
  }

  /** The block behind the status line found; copying it out may be an exception. */
  method HeaderBlock(s: Bytes) returns (r: BlockResult)
    ensures r == BlockOf(s)
  {
    hide HeaderOffset, Signed;
    var hs := FindHeader(s);
    if hs < 0 {
      return NoBlock;
    }
    var block := Slice(s, hs, Signed(U32At(s, hs - 4)));
    if block == None {
      return Throws;
    }
    return Block(hs, block.value);
  }

  function BlockOf(s: Bytes): BlockResult {
    var hs := HeaderOffset(s);
    if hs < 0 then NoBlock
    else
      var length := Signed(U32At(s, hs - 4));
      if length < 0 || hs + length > |s| then Throws else Block(hs, s[hs..hs + length])
  }

  /** A stored length is an exception exactly when adding the offset leaves the range of `int`. */
  lemma ThrowsWhenWrapped(s: Bytes)
    requires |s| <= INT_MAX
    ensures BlockOf(s).Throws? <==>
              var hs := IndexOf(s, STATUS_START, 0);
              |s| >= 8 && hs >= 4 && U32At(s, hs - 4) <= INT_MAX && hs + U32At(s, hs - 4) > INT_MAX
  {
    hide IndexOf, U32At;
  }

  // ---------------------------------------------------------------------------
  // Reading headers
  // ---------------------------------------------------------------------------

  function ValueIn(b: Bytes, name: Bytes): Option<Bytes> {
    var n := Needle(name);
    var i := MatchFrom(b, n, 0);
    if i < 0 then None else Some(Trim(b[i + |n|..EndFrom(b, i + |n|)]))
  }

  /** The position search finds the value on the first line with that name. */
  lemma ValueIsLookup(b: Bytes, name: Bytes)
    requires IsName(name)
    ensures ValueIn(b, name)
         == match Lookup(b, Needle(name)) case None => None case Some(v) => Some(Trim(v))
  {
    hide MatchFrom, Lookup, Replace, Trim, EndFrom;
    NameNeedle(name);
    MatchIsLookup(b, Needle(name), []);
  }

  lemma NameNeedle(name: Bytes)
    requires IsName(name)
    ensures FreeOf(Needle(name), 0)
  {
  }

  /** Value of the named header, if the block has it. */
  function HeaderValueSpec(s: Bytes, name: Bytes): Option<Option<Bytes>> {
    match BlockOf(s)
    case NoBlock => Some(None)
    case Throws => None
    case Block(_, b) => Some(ValueIn(b, name))
  }

  /** The content-encoding; an empty value counts as none. */
  function ContentEncodingSpec(s: Bytes): Option<Option<Bytes>> {
    var r := HeaderValueSpec(s, CONTENT_ENCODING);
    if r == Some(Some([])) then Some(None) else r
  }

  function ContentLengthSpec(s: Bytes): Option<int> {
    match BlockOf(s)
    case NoBlock => Some(-1)
    case Throws => None
    case Block(_, b) => Some(DeclaredLength(b))
  }

  /** Search the block for the name at the start of a line. */
  method FindValue(block: Bytes, name: Bytes) returns (r: Option<Bytes>)
    ensures r == ValueIn(block, name)
  {
    hide MatchFrom, Trim, IndexOf, EndFrom;
    var needle := Needle(name);
    var idx := FindLine(block, needle);
    if idx < 0 {
      return None;
    }
    var start := idx + |needle|;
    var end := IndexOf(block, [0], start);
    EndFromIsIndexOf(block, start);
    if end < 0 {
      end := |block|;
    }
    return Some(Trim(block[start..end]));
  }

  method HeaderValue(s: Bytes, name: Bytes) returns (r: Option<Option<Bytes>>)
    ensures r == HeaderValueSpec(s, name)
  {
    hide BlockOf, ValueIn;
    var found := HeaderBlock(s);
    match found
    case NoBlock =>
      return Some(None);
    case Throws =>
      return None;
    case Block(_, block) =>
      var v := FindValue(block, name);
      return Some(v);
  }

  // ---------------------------------------------------------------------------
  // Rewriting the content-length
  // ---------------------------------------------------------------------------

  /** Put a new value on the first content-length line, if there is one. */
  method ReplaceContentLength(block: Bytes, value: Bytes) returns (r: Option<Bytes>)
    ensures r == Replace(block, Needle(CONTENT_LENGTH), value)
  {
    hide MatchFrom, Lookup, Replace, IndexOf;
    var needle := Needle(CONTENT_LENGTH);
    NameNeedle(CONTENT_LENGTH);
    MatchIsLookup(block, needle, value);
    var idx := FindLine(block, needle);
    if idx < 0 {
      return None;
    }
    var start := idx + |needle|;
    var end := IndexOf(block, [0], start);
    EndFromIsIndexOf(block, start);
    if end < 0 {
      end := |block|;
    }
    return Some(block[..start] + value + block[end..]);
  }

  function Align4(n: nat): (a: nat)
    ensures a % 4 == 0 && n <= a < n + 4
  {
    (n + 3) / 4 * 4
  }

  function Padding(n: nat): (p: nat)
    ensures n + p == Align4(n)
  {
    (4 - n % 4) % 4
  }

  /** The stream with another block, before the first length field is set. */
  function Spliced(s: Bytes, hs: nat, oldLength: nat, block: Bytes): (r: Bytes)
    requires 4 <= hs <= |s| && Align4(hs + oldLength) <= |s|
    ensures |r| >= 4
  {
    s[..hs - 4] + LE(4, |block|) + block + Zeros(Padding(hs + |block|)) + s[Align4(hs + oldLength)..]
  }

  /** The stream with its first length field set. */
  function TotalSet(out: Bytes): Bytes
    requires |out| >= 4
  {
    WriteAt(out, 0, LE(4, |out| - 4))
  }

  function PatchSpec(s: Bytes, newLength: int): Option<Bytes> {
    match BlockOf(s)
    case NoBlock => Some(s)
    case Throws => None
    case Block(hs, b) =>
      match Replace(b, Needle(CONTENT_LENGTH), Decimal(newLength))
      case None => Some(s)
      case Some(b') =>
        if hs < 4 || Align4(hs + |b|) > |s| then None
        else
          var out := Spliced(s, hs, |b|, b');
          if |out| > INT_MAX then None else Some(TotalSet(out))
  }

  /** Put the new block in place; an exception when the padding is missing or the result is too long. */
  method SpliceBlock(s: Bytes, hs: nat, oldLength: nat, b': Bytes) returns (r: Option<Bytes>)
    requires 4 <= hs && hs + oldLength <= |s| <= INT_MAX
    ensures r == if Align4(hs + oldLength) > |s| || |Spliced(s, hs, oldLength, b')| > INT_MAX then None
                 else Some(Spliced(s, hs, oldLength, b'))
  {
    hide LE, Joined, Align4, Padding;
    var alignedEnd := Align4(hs + oldLength);
    var head := Slice(s, 0, hs - 4);
    var rest := Slice(s, alignedEnd, |s| - alignedEnd);
    if head == None || rest == None || |b'| > INT_MAX {
      return None;
    }
    assert rest.value == s[alignedEnd..] && head.value == s[..hs - 4];
    var z := Zeros(Padding(hs + |b'|));
    JoinedFive(head.value, LE(4, |b'|), b', z, rest.value);
    r := Concat([head.value, LE(4, |b'|), b', z, rest.value]);
  }

  method PatchContentLength(s: Bytes, newLength: int) returns (r: Option<Bytes>)
    requires |s| <= INT_MAX
    ensures r == PatchSpec(s, newLength)
  {
    hide BlockOf, Replace, Decimal, Needle, LE, Spliced, WriteAt, Align4;
    BlockFits(s);
    var found := HeaderBlock(s);
    match found
    case NoBlock =>
      return Some(s);
    case Throws =>
      return None;
    case Block(hs, block) =>
      var newBlock := ReplaceContentLength(block, Decimal(newLength));
      if newBlock == None {
        return Some(s);
      }
      var out := SpliceBlock(s, hs, |block|, newBlock.value);
      if out == None {
        return None;
      }
      return Some(WriteAt(out.value, 0, LE(4, |out.value| - 4)));
  }

  lemma BlockFits(s: Bytes)
    ensures BlockOf(s).Block? ==> 4 <= BlockOf(s).start && BlockOf(s).start + |BlockOf(s).text| <= |s|
  {
  }

  lemma JoinedFive(a: Bytes, b: Bytes, c: Bytes, d: Bytes, e: Bytes)
    ensures Joined([a, b, c, d, e]) == a + b + c + d + e
  {
    hide Joined;
    JoinedTwo(a, b);
    JoinedNext([a, b], c);
    JoinedNext([a, b] + [c], d);
    JoinedNext([a, b] + [c] + [d], e);
    assert [a, b, c, d, e] == [a, b] + [c] + [d] + [e];
  }

  // ---------------------------------------------------------------------------
  // The patched stream
  // ---------------------------------------------------------------------------

  /**
   What stands before the block after a patch: both length fields and, between them, what was there. Before a block
   at offset 4 to 7 the stream's own field covers the beginning of the block's.
   */
  function NewPrefix(s: Bytes, hs: nat, total: nat, length: nat): (p: Bytes)
    requires 4 <= hs <= |s| && total >= 4
    ensures |p| == hs
  {
    LE(4, total - 4) + if hs >= 8 then s[4..hs - 4] + LE(4, length) else LE(4, length)[8 - hs..]
  }

  /** The bytes that both length fields share, if any, are the same for either. */
  predicate FieldsAgree(hs: nat, total: nat, length: nat)
    requires 4 <= hs && total >= 4
  {
    hs >= 8 || LE(4, total - 4)[hs - 4..] == LE(4, length)[..8 - hs]
  }

  predicate NoStatusLine(p: Bytes) {
    forall i :: 0 <= i <= |p| - |STATUS_START| ==> !OccursAt(p, STATUS_START, i)
  }

  /** A patch is about to rewrite this block to that one, and the result fits in an array. */
  ghost predicate Patches(s: Bytes, newLength: int, hs: nat, b: Bytes, b': Bytes, out: Bytes) {
    && |s| <= INT_MAX && BlockOf(s) == Block(hs, b)
    && Replace(b, Needle(CONTENT_LENGTH), Decimal(newLength)) == Some(b')
    && PatchSpec(s, newLength) == Some(out)
  }

  /** Four pieces, one after the other. */
  lemma FourPieces(p: Bytes, b: Bytes, z: Bytes, r: Bytes)
    ensures var out := p + b + z + r;
            && out[..|p|] == p && out[|p|..|p| + |b|] == b && out[|p| + |b| + |z|..] == r
            && |out| == |p| + |b| + |z| + |r|
  {
  }

  lemma OutPieces(s: Bytes, hs: nat, oldLength: nat, b': Bytes)
    requires 4 <= hs <= |s| && Align4(hs + oldLength) <= |s|
    ensures var raw := Spliced(s, hs, oldLength, b');
            && |raw| == Align4(hs + |b'|) + |s| - Align4(hs + oldLength)
            && TotalSet(raw)
               == NewPrefix(s, hs, |raw|, |b'|) + b' + Zeros(Padding(hs + |b'|)) + s[Align4(hs + oldLength)..]
  {
    hide LE, Align4, Padding, Zeros, WriteAt, NewPrefix;
    var raw, head, y := Spliced(s, hs, oldLength, b'), s[..hs - 4], LE(4, |b'|);
    var z, r := Zeros(Padding(hs + |b'|)), s[Align4(hs + oldLength)..];
    SameSplice(head, y, b', z, r);
    SameSplice(NewPrefix(s, hs, |raw|, |b'|), [], b', z, r);
    Retotalled(head, y, b' + z + r, LE(4, |raw| - 4));
    PrefixIs(s, hs, |raw|, |b'|);
  }

  /** The new prefix, in terms of the bytes before the block and its length field. */
  lemma PrefixIs(s: Bytes, hs: nat, total: nat, length: nat)
    requires 4 <= hs <= |s| && total >= 4
    ensures NewPrefix(s, hs, total, length) == LE(4, total - 4) + Behind(s[..hs - 4], LE(4, length))
  {
    hide LE;
    if hs >= 8 {
      assert s[..hs - 4][4..] == s[4..hs - 4];
    }
  }

  /** What the stream's length field leaves of these bytes and the field after them. */
  function Behind(head: Bytes, y: Bytes): Bytes
    requires |y| == 4
  {
    if |head| >= 4 then head[4..] + y else y[4 - |head|..]
  }

  lemma Retotalled(head: Bytes, y: Bytes, rest: Bytes, f: Bytes)
    requires |y| == 4 == |f|
    ensures WriteAt(head + y + rest, 0, f) == f + Behind(head, y) + rest
  {
    hide WriteAt;
    Overwritten(head + y + rest, f);
    BehindTotal(head, y, rest);
  }

  lemma SameSplice(a: Bytes, y: Bytes, b: Bytes, z: Bytes, r: Bytes)
    ensures a + y + b + z + r == a + y + (b + z + r)
    ensures y == [] ==> a + b + z + r == a + (b + z + r)
  {
  }

  lemma Overwritten(x: Bytes, f: Bytes)
    requires |f| == 4 <= |x|
    ensures WriteAt(x, 0, f) == f + x[4..]
  {
    var y, z := WriteAt(x, 0, f), f + x[4..];
    assert |y| == |z| && forall i | 0 <= i < |y| :: y[i] == z[i];
  }

  lemma BehindTotal(head: Bytes, y: Bytes, rest: Bytes)
    requires |y| == 4
    ensures (head + y + rest)[4..] == Behind(head, y) + rest
  {
  }

  lemma LineHasFirst(b: Bytes, needle: Bytes)
    requires LineHas(b, needle) && needle != []
    ensures b != [] && Lower(b[0]) == needle[0]
  {
    assert Lowered(b[..LineEnd(b)])[..|needle|][0] == Lower(b[0]);
  }

  /** The new block still begins with the status line. */
  lemma StatusKept(s: Bytes, hs: nat, b: Bytes, v: Bytes)
    requires BlockOf(s) == Block(hs, b) && Replace(b, Needle(CONTENT_LENGTH), v).Some?
    ensures StartsWith(Replace(b, Needle(CONTENT_LENGTH), v).value, STATUS_START)
  {
    hide BlockOf, LineHas;
    BlockStart(s, hs, b);
    var c, e := Needle(CONTENT_LENGTH), LineEnd(b);
    assert c[0] == 99;
    if LineHas(b, c) {
      LineHasFirst(b, c);
      assert false;
    }
    var r := Replace(b, c, v).value;
    assert b[e] == 0;
    assert r[..7] == b[..7] == STATUS_START;
  }

  lemma BlockStart(s: Bytes, hs: nat, b: Bytes)
    requires BlockOf(s) == Block(hs, b)
    ensures forall k | 0 <= k < |b| && k < 7 :: b[k] == STATUS_START[k]
  {
    hide IndexOf, U32At, Signed;
    var w := s[hs..hs + 7];
    assert w == STATUS_START;
    assert forall k | 0 <= k < |b| && k < 7 :: b[k] == w[k];
  }

  /** The status line does not overlap itself, so an earlier one lies before the block. */
  lemma FirstStatus(p: Bytes, rest: Bytes)
    requires StartsWith(rest, STATUS_START)
    ensures IndexOf(p + rest, STATUS_START, 0) == |p| <==> NoStatusLine(p)
  {
    hide IndexOf;
    var out := p + rest;
    forall i | 0 <= i < |p|
      ensures OccursAt(out, STATUS_START, i) <==> OccursAt(p, STATUS_START, i)
    {
      StatusBefore(p, rest, i);
    }
    assert out[|p|..|p| + 7] == rest[..7];
    assert OccursAt(out, STATUS_START, |p|);
    var r := IndexOf(out, STATUS_START, 0);
    assert r <= |p|;
    if r < |p| {
      assert OccursAt(p, STATUS_START, r);
    }
  }

  lemma StatusBefore(p: Bytes, rest: Bytes, i: nat)
    requires StartsWith(rest, STATUS_START) && i < |p|
    ensures OccursAt(p + rest, STATUS_START, i) <==> OccursAt(p, STATUS_START, i)
  {
    var out := p + rest;
    if i + 7 <= |p| {
      assert out[i..i + 7] == p[i..i + 7];
    } else {
      assert out[|p|] == rest[..7][0] == 72;
      if OccursAt(out, STATUS_START, i) {
        assert out[i..i + 7][|p| - i] == 72;
      }
    }
  }

  lemma HeaderOffsetIs(out: Bytes, hs: nat, b: Bytes)
    requires |out| <= INT_MAX && 4 <= hs && hs + |b| <= |out| && 4 <= |b| && out[hs..hs + |b|] == b
    ensures BlockOf(out) == Block(hs, b) <==> IndexOf(out, STATUS_START, 0) == hs && U32At(out, hs - 4) == |b|
  {
    hide IndexOf, U32At, BlockOf, HeaderOffset;
    if IndexOf(out, STATUS_START, 0) == hs && U32At(out, hs - 4) == |b| {
      HeaderFound(out, hs, |b|);
    }
    BlockTells(out);
  }

  lemma HeaderFound(out: Bytes, hs: nat, length: nat)
    requires |out| <= INT_MAX && 4 <= hs && hs + length <= |out| && 4 <= length
    requires IndexOf(out, STATUS_START, 0) == hs && U32At(out, hs - 4) == length
    ensures BlockOf(out) == Block(hs, out[hs..hs + length])
  {
    hide IndexOf, U32At, Signed;
    SignedSame(length);
    SignedSame(hs + length);
    assert HeaderOffset(out) == hs;
  }

  lemma SignedSame(x: int)
    requires 0 <= x <= INT_MAX
    ensures Signed(x) == x
  {
  }

  /** A block is where the first status line is, and as long as the number before it says. */
  lemma BlockTells(s: Bytes)
    ensures BlockOf(s).Block? ==>
              var hs, b := BlockOf(s).start, BlockOf(s).text;
              4 <= hs && hs + |b| <= |s| && IndexOf(s, STATUS_START, 0) == hs && U32At(s, hs - 4) == |b|
  {
    hide IndexOf, U32At;
  }

  /**
   The stream's length field is right, and the block's is if and only if the shared bytes agree. What follows the
   block is unchanged and again starts at a multiple of four.
   */
  lemma PatchLayout(s: Bytes, newLength: int, hs: nat, b: Bytes, b': Bytes, out: Bytes)
    requires Patches(s, newLength, hs, b, b', out)
    ensures 4 <= hs && Align4(hs + |b|) <= |s|
    ensures |out| == Align4(hs + |b'|) + |s| - Align4(hs + |b|) <= INT_MAX && hs + |b'| <= Align4(hs + |b'|) <= |out|
    ensures U32At(out, 0) == |out| - 4
    ensures U32At(out, hs - 4) == |b'| <==> FieldsAgree(hs, |out|, |b'|)
    ensures out[..hs] == NewPrefix(s, hs, |out|, |b'|)
    ensures out[hs..hs + |b'|] == b'
    ensures out[Align4(hs + |b'|)..] == s[Align4(hs + |b|)..]
  {
    hide BlockOf, Replace, Decimal, Needle, LE, FromLE, Align4, Spliced, TotalSet, FieldsAgree, NewPrefix;
    BlockFits(s);
    OutPieces(s, hs, |b|, b');
    var pre, z, rest := NewPrefix(s, hs, |out|, |b'|), Zeros(Padding(hs + |b'|)), s[Align4(hs + |b|)..];
    FourPieces(pre, b', z, rest);
    PrefixFields(s, hs, |out|, |b'|);
    SliceOfSlice(out, 0, hs, 0, 4);
    SliceOfSlice(out, 0, hs, hs - 4, hs);
    FieldDecides(out, 0, pre[0..4], |out| - 4);
    FieldDecides(out, hs - 4, pre[hs - 4..hs], |b'|);
  }

  /** Where both length fields are in the new prefix, and when the second one is whole. */
  lemma PrefixFields(s: Bytes, hs: nat, total: nat, length: nat)
    requires 4 <= hs <= |s| && total >= 4
    ensures var p := NewPrefix(s, hs, total, length);
            p[0..4] == LE(4, total - 4) && (p[hs - 4..hs] == LE(4, length) <==> FieldsAgree(hs, total, length))
  {
    hide LE;
    var p, x, y := NewPrefix(s, hs, total, length), LE(4, total - 4), LE(4, length);
    if hs < 8 {
      assert p[hs - 4..hs] == x[hs - 4..] + y[8 - hs..];
      assert y == y[..8 - hs] + y[8 - hs..];
      SamePrefix(x[hs - 4..], y[..8 - hs], y[8 - hs..]);
    }
  }

  /**
   The patched stream holds the new block, if and only if the length fields do not disagree on shared bytes and form
   no earlier status line.
   */
  lemma PatchedBlock(s: Bytes, newLength: int, hs: nat, b: Bytes, b': Bytes, out: Bytes)
    requires Patches(s, newLength, hs, b, b', out)
    ensures 4 <= hs <= |s| && |out| >= 4
    ensures BlockOf(out) == Block(hs, b')
        <==> FieldsAgree(hs, |out|, |b'|) && NoStatusLine(NewPrefix(s, hs, |out|, |b'|))
  {
    hide BlockOf, Replace, Decimal, Needle, PatchSpec, U32At, IndexOf, NewPrefix, OccursAt, NoStatusLine, FieldsAgree;
    PatchLayout(s, newLength, hs, b, b', out);
    StatusKept(s, hs, b, Decimal(newLength));
    HeaderOffsetIs(out, hs, b');
    assert out == out[..hs] + out[hs..];
    assert out[hs..][..7] == out[hs..hs + |b'|][..7];
    FirstStatus(out[..hs], out[hs..]);
  }

  /** The patched stream declares the new length and keeps every other header. */
  lemma PatchKeepsMeaning(s: Bytes, newLength: int, hs: nat, b: Bytes, b': Bytes, out: Bytes, other: Bytes)
    requires Patches(s, newLength, hs, b, b', out) && 4 <= hs <= |s| && |out| >= 4
    requires FieldsAgree(hs, |out|, |b'|) && NoStatusLine(NewPrefix(s, hs, |out|, |b'|))
    requires IsName(other) && Lowered(other) != CONTENT_LENGTH
    ensures 0 <= newLength <= INT_MAX ==> ContentLengthSpec(out) == Some(newLength)
    ensures HeaderValueSpec(out, other) == HeaderValueSpec(s, other)
  {
    hide BlockOf, Replace, PatchSpec, Lookup, DeclaredLength, ValueIn, Trim, NoStatusLine, NewPrefix, Needle,
      FieldsAgree;
    PatchedBlock(s, newLength, hs, b, b', out);
    if 0 <= newLength <= INT_MAX {
      DeclaredReplaced(b, newLength);
    }
    LoweredContentLength();
    LookupOther(b, CONTENT_LENGTH, Decimal(newLength), other);
    ValueIsLookup(b, other);
    ValueIsLookup(b', other);
  }

  lemma LoweredContentLength()
    ensures Lowered(CONTENT_LENGTH) == CONTENT_LENGTH && IsName(CONTENT_LENGTH)
  {
  }

  /** A block at offset 4 shares its length field with the stream: it is right only when nothing follows the block. */
  lemma SharedLengthField(s: Bytes, newLength: int, b: Bytes, b': Bytes, out: Bytes)
    requires Patches(s, newLength, 4, b, b', out)
    ensures U32At(out, 0) == |b'| <==> |b'| % 4 == 0 && |s| == Align4(4 + |b|)
  {
    hide BlockOf, Replace, Decimal, Needle, LE, FromLE;
    RoundTrip32(|out| - 4);
    assert out[0..4] == LE(4, |out| - 4);
  }

  /** A field holds a number exactly when its bytes are those of the number. */
  lemma FieldDecides(f: Bytes, off: nat, w: Bytes, n: u32)
    requires off + 4 <= |f| && f[off..off + 4] == w
    ensures U32At(f, off) == n <==> w == LE(4, n)
  {
    hide LE, FromLE;
    RoundTrip32(n);
    LEOfFromLE(w);
  }

  lemma SamePrefix(a: Bytes, b: Bytes, c: Bytes)
    requires |a| == |b|
    ensures a + c == b + c <==> a == b
  {
    if a + c == b + c {
      assert a == (a + c)[..|a|] == (b + c)[..|b|] == b;
    }
  }

  // ---------------------------------------------------------------------------
  // A patch that hides the header block
  // ---------------------------------------------------------------------------

  /** "HTTP/1" stands before the block length, whose low byte is 45, and after a length of 7. */
  const BEFORE_PREFIX: Bytes := [0, 0, 0, 0, 7, 0, 0, 0, 72, 84, 84, 80, 47, 49, 45, 0, 0, 0]

  /** The same after the block has grown to 46 bytes, "." in Latin-1, in a stream of 64. */
  const AFTER_PREFIX: Bytes := [60, 0, 0, 0, 7, 0, 0, 0, 72, 84, 84, 80, 47, 49, 46, 0, 0, 0]

  /** A status line of 28 characters and a content-length line. */
  function ExampleBlock(value: Bytes): Bytes {
    STATUS_START + seq(21, _ => 97) + [0] + (Needle(CONTENT_LENGTH) + value)
  }

  function ExampleStream(): Bytes {
    BEFORE_PREFIX + ExampleBlock([57]) + [0]
  }

  lemma SmallLE(n: nat)
    requires n < 256
    ensures LE(4, n) == [n, 0, 0, 0] && FromLE([n, 0, 0, 0]) == n
  {
    assert LE(1, 0) == [0] && LE(2, 0) == [0, 0] && LE(3, 0) == [0, 0, 0];
    RoundTrip32(n);
  }

  lemma ExampleSizes(v: Bytes)
    ensures |Needle(CONTENT_LENGTH)| == 15 && |ExampleBlock(v)| == 44 + |v|
    ensures FreeOf(STATUS_START + seq(21, _ => 97), 0) && FreeOf(Needle(CONTENT_LENGTH), 0)
    ensures Lowered(Needle(CONTENT_LENGTH)) == Needle(CONTENT_LENGTH)
  {
    NameNeedle(CONTENT_LENGTH);
    LoweredContentLength();
  }

  lemma ExampleReplaced()
    ensures Decimal(10) == [49, 48]
    ensures Replace(ExampleBlock([57]), Needle(CONTENT_LENGTH), [49, 48]) == Some(ExampleBlock([49, 48]))
  {
    hide LineHas, Needle, Replace;
    var line, c := STATUS_START + seq(21, _ => 97), Needle(CONTENT_LENGTH);
    ExampleSizes([57]);
    LastLine(c, [57], [49, 48]);
    NoLengthHere(line);
    ReplaceInFront(line, c + [57], c, [49, 48]);
  }

  lemma NoLengthHere(line: Bytes)
    requires StartsWith(line, STATUS_START)
    ensures !StartsWith(Lowered(line), Needle(CONTENT_LENGTH))
  {
    StartsAlike(line, STATUS_START);
    if StartsWith(Lowered(line), Needle(CONTENT_LENGTH)) {
      StartsAlike(Lowered(line), Needle(CONTENT_LENGTH));
      assert false;
    }
  }

  lemma StartsAlike(b: Bytes, n: Bytes)
    requires StartsWith(b, n) && n != []
    ensures b != [] && b[0] == n[0]
  {
    assert b[..|n|][0] == n[0];
  }

  /** A block of one line that starts with the needle in lower case. */
  lemma LastLine(needle: Bytes, value: Bytes, v: Bytes)
    requires FreeOf(needle, 0) && FreeOf(value, 0) && Lowered(needle) == needle
    ensures Replace(needle + value, needle, v) == Some(needle + v)
  {
    var b := needle + value;
    LineEndIs(b, |b|);
    assert b[..|b|] == b;
    assert Lowered(b)[..|needle|] == Lowered(needle);
    assert b[..|needle|] == needle;
    assert needle + v + b[|b|..] == needle + v;
  }

  lemma ExampleOpens()
    ensures BlockOf(ExampleStream()) == Block(18, ExampleBlock([57]))
    ensures |ExampleStream()| == 64
  {
    hide Needle, IndexOf, ExampleBlock, NoStatusLine, BEFORE_PREFIX;
    var s, b := ExampleStream(), ExampleBlock([57]);
    ExampleSizes([57]);
    ExampleStart([57]);
    ExamplePrefix();
    assert s == BEFORE_PREFIX + (b + [0]);
    assert (b + [0])[..7] == b[..7];
    FirstStatus(BEFORE_PREFIX, b + [0]);
    assert s[14..18] == BEFORE_PREFIX[14..18];
    SmallLE(45);
    assert s[18..63] == b;
  }

  lemma ExamplePrefix()
    ensures |BEFORE_PREFIX| == 18 && BEFORE_PREFIX[14..18] == [45, 0, 0, 0] && NoStatusLine(BEFORE_PREFIX)
    ensures BEFORE_PREFIX[4..14] == [7, 0, 0, 0, 72, 84, 84, 80, 47, 49]
  {
    forall i | 0 <= i <= 11
      ensures !OccursAt(BEFORE_PREFIX, STATUS_START, i)
    {
      if OccursAt(BEFORE_PREFIX, STATUS_START, i) {
        StatusChars(BEFORE_PREFIX, i);
        assert false;
      }
    }
  }

  lemma StatusChars(b: Bytes, i: nat)
    requires OccursAt(b, STATUS_START, i)
    ensures b[i] == 72 && b[i + 6] == 46
  {
    assert b[i..i + 7][0] == b[i] && b[i..i + 7][6] == b[i + 6];
  }

  lemma ExampleStart(v: Bytes)
    ensures StartsWith(ExampleBlock(v), STATUS_START)
  {
    assert ExampleBlock(v)[..7] == STATUS_START;
  }

  lemma PatchedExample(out: Bytes)
    requires |out| == 64 && out[..18] == AFTER_PREFIX
    ensures ContentLengthSpec(out) == Some(-1)
  {
    hide BlockOf;
    PatchedExampleBlock(out);
    LineEndIs(STATUS_START, 7);
    assert STATUS_START[..7] == STATUS_START;
    NoLengthHere(STATUS_START);
  }

  lemma PatchedPrefix(s: Bytes)
    requires s == ExampleStream() && |s| == 64
    ensures NewPrefix(s, 18, 64, 46) == AFTER_PREFIX
  {
    hide ExampleBlock, LE, BEFORE_PREFIX;
    SmallLE(60);
    SmallLE(46);
    ExamplePrefix();
    assert s[4..14] == BEFORE_PREFIX[4..14];
  }

  lemma PatchedExampleBlock(out: Bytes)
    requires |out| == 64 && out[..18] == AFTER_PREFIX
    ensures BlockOf(out) == Block(8, STATUS_START)
  {
    hide IndexOf, FromLE;
    PatchedBytes(out);
    IndexOfIs(out, STATUS_START, 8);
    SmallLE(7);
  }

  lemma PatchedBytes(out: Bytes)
    requires |out| == 64 && out[..18] == AFTER_PREFIX
    ensures OccursAt(out, STATUS_START, 8) && forall i | 0 <= i < 8 :: !OccursAt(out, STATUS_START, i)
    ensures out[4..8] == [7, 0, 0, 0]
  {
    assert forall i | 0 <= i < 18 :: out[i] == AFTER_PREFIX[i];
    assert out[4..8] == AFTER_PREFIX[4..8] == [7, 0, 0, 0];
    assert out[8..15] == STATUS_START;
    forall i | 0 <= i < 8
      ensures !OccursAt(out, STATUS_START, i)
    {
      assert out[i..i + 7][0] == out[i];
    }
  }

  lemma ExampleDeclares()
    ensures DeclaredLength(ExampleBlock([57])) == 9
  {
    hide Needle, Replace, DeclaredLength;
    var line, c := STATUS_START + seq(21, _ => 97), Needle(CONTENT_LENGTH);
    ExampleSizes([57]);
    NoLengthHere(line);
    DeclaredInFront(line, c + [57]);
    DeclaresNine(c);
  }

  lemma DeclaresNine(c: Bytes)
    requires c == Needle(CONTENT_LENGTH) && |c| == 15 && FreeOf(c, 0)
    ensures DeclaredLength(c + [57]) == 9
  {
    var b := c + [57];
    LineEndIs(b, 16);
    LoweredContentLength();
    assert b[..16] == b;
    assert Lowered(b)[..15] == Lowered(c) == c;
    assert b[15..16] == [57];
    assert DigitRun([57]) == 1;
    assert DigitsValue([57]) == 9;
  }

  /** The condition is needed: this stream declares a length before the patch, and none after it. */
  lemma PatchHidesBlock()
    ensures ContentLengthSpec(ExampleStream()) == Some(9)
    ensures PatchSpec(ExampleStream(), 10).Some? && ContentLengthSpec(PatchSpec(ExampleStream(), 10).value) == Some(-1)
    ensures !PatchSafe(ExampleStream(), 10)
  {
    hide BlockOf, Replace, Decimal, Needle, DeclaredLength, NoStatusLine, ExampleBlock, ExampleStream, LE, NewPrefix,
      FieldsAgree;
    var s, b, b' := ExampleStream(), ExampleBlock([57]), ExampleBlock([49, 48]);
    ExampleOpens();
    ExampleReplaced();
    ExampleSizes([57]);
    ExampleSizes([49, 48]);
    ExampleDeclares();
    assert Align4(18 + 45) == 64 && Align4(18 + 46) == 64;
    OutPieces(s, 18, 45, b');
    var out := PatchSpec(s, 10).value;
    assert Patches(s, 10, 18, b, b', out);
    PatchLayout(s, 10, 18, b, b', out);
    PatchedPrefix(s);
    PatchedExample(out);
    PatchedBlock(s, 10, 18, b, b', out);
    PatchedExampleBlock(out);
  }

  /**
   Rewriting the content-length of this stream is harmless: there is nothing to rewrite, or the new length fields do
   not disagree on shared bytes and form no earlier status line.
   */
  predicate PatchSafe(s: Bytes, newLength: int) {
    match BlockOf(s)
    case NoBlock => true
    case Throws => true
    case Block(hs, b) =>
      match Replace(b, Needle(CONTENT_LENGTH), Decimal(newLength))
      case None => true
      case Some(b') =>
        && 4 <= hs <= |s| && Align4(hs + |b|) <= |s|
        && var total := Align4(hs + |b'|) + |s| - Align4(hs + |b|);
        && FieldsAgree(hs, total, |b'|) && NoStatusLine(NewPrefix(s, hs, total, |b'|))
  }

  /** A harmless patch leaves the content-encoding alone. */
  lemma PatchKeepsEncoding(s: Bytes, newLength: int)
    requires |s| <= INT_MAX && PatchSafe(s, newLength) && PatchSpec(s, newLength).Some?
    ensures ContentEncodingSpec(PatchSpec(s, newLength).value) == ContentEncodingSpec(s)
  {
    hide Replace, Decimal, Needle, HeaderOffset, NoStatusLine, NewPrefix, Align4, HeaderValueSpec, Lowered, BlockOf,
      FieldsAgree, Spliced;
    EncodingIsOther();
    if BlockOf(s).Block? && Replace(BlockOf(s).text, Needle(CONTENT_LENGTH), Decimal(newLength)).Some? {
      var hs, b := BlockOf(s).start, BlockOf(s).text;
      var b' := Replace(b, Needle(CONTENT_LENGTH), Decimal(newLength)).value;
      var out := PatchSpec(s, newLength).value;
      PatchLayout(s, newLength, hs, b, b', out);
      PatchKeepsMeaning(s, newLength, hs, b, b', out, CONTENT_ENCODING);
    }
  }

  lemma EncodingIsOther()
    ensures IsName(CONTENT_ENCODING) && Lowered(CONTENT_ENCODING) != CONTENT_LENGTH
  {
    assert Lowered(CONTENT_ENCODING)[8] == 101;
  }
}
