/**
 Headers by their bytes: names are matched in any case, line by line; where the header block of a stream is;
 what trimming leaves; and that a content-length line in any spelling is the one a patch rewrites.
 */
module HttpMeaning {
  import opened ByteSeqs
  import opened JavaEntry
  import opened HttpMetadata
  import opened HttpPatch

  // ---------------------------------------------------------------------------
  // Names
  // ---------------------------------------------------------------------------

  /** The texts searched for. */
  lemma TextsAre()
    ensures |STATUS_START| == |"HTTP/1."| && forall i | 0 <= i < 7 :: STATUS_START[i] == "HTTP/1."[i] as int
    ensures |CONTENT_LENGTH| == |"content-length"|
    ensures forall i | 0 <= i < 14 :: CONTENT_LENGTH[i] == "content-length"[i] as int
    ensures |CONTENT_ENCODING| == |"content-encoding"|
    ensures forall i | 0 <= i < 16 :: CONTENT_ENCODING[i] == "content-encoding"[i] as int
  {
  }

  /** A name of printable ASCII characters, without a colon and without upper-case letters. */
  predicate LowerName(name: Bytes) {
    forall i | 0 <= i < |name| :: 32 < name[i] < 127 && name[i] != 58 && !(65 <= name[i] <= 90)
  }

  lemma LowerNames()
    ensures LowerName(CONTENT_LENGTH) && LowerName(CONTENT_ENCODING)
  {
  }

  /** Such a name is its own lower case. */
  lemma LowerNeedle(name: Bytes)
    requires LowerName(name)
    ensures Needle(name) == name + [58] && IsName(name) && FreeOf(Needle(name), 0)
  {
    assert Lowered(name) == name;
  }

  /** A line has the name just when it spells it, each letter in either case, before a colon. */
  lemma LineNames(line: Bytes, name: Bytes)
    requires LowerName(name)
    ensures StartsWith(Lowered(line), Needle(name)) <==>
              && |name| < |line| && line[|name|] == 58
              && forall i | 0 <= i < |name| ::
                   line[i] == name[i] || (97 <= name[i] <= 122 && line[i] == name[i] - 32)
  {
    LowerNeedle(name);
    var low, n := Lowered(line), name + [58];
    if StartsWith(low, n) {
      assert forall i | 0 <= i < |n| :: low[i] == low[..|n|][i] == n[i];
      assert Lower(line[|name|]) == n[|name|] == 58;
      forall i | 0 <= i < |name|
        ensures line[i] == name[i] || (97 <= name[i] <= 122 && line[i] == name[i] - 32)
      {
        assert Lower(line[i]) == n[i] == name[i];
      }
    }
    if |name| < |line| && line[|name|] == 58
       && forall i | 0 <= i < |name| :: line[i] == name[i] || (97 <= name[i] <= 122 && line[i] == name[i] - 32)
    {
      assert forall i | 0 <= i < |n| :: low[i] == n[i];
      assert low[..|n|] == n;
    }
  }

  // ---------------------------------------------------------------------------
  // Line by line
  // ---------------------------------------------------------------------------

  /**
   The value of a header is what follows the colon on the first line that spells its name, in any case; and a
   replacement changes just that.
   */
  lemma LookupByLine(line: Bytes, rest: Bytes, name: Bytes, v: Bytes, names: bool)
    requires FreeOf(line, 0) && LowerName(name)
    requires names <==>
               && |name| < |line| && line[|name|] == 58
               && forall i | 0 <= i < |name| ::
                    line[i] == name[i] || (97 <= name[i] <= 122 && line[i] == name[i] - 32)
    ensures Lookup(line + [0] + rest, Needle(name))
         == if names then Some(line[|name| + 1..]) else Lookup(rest, Needle(name))
    ensures Replace(line + [0] + rest, Needle(name), v)
         == if names then Some(line[..|name| + 1] + v + ([0] + rest))
            else match Replace(rest, Needle(name), v)
                 case None => None
                 case Some(rest') => Some(line + [0] + rest')
  {
    hide LineHas, Needle, Lookup, Replace, LowerName;
    var n, b := Needle(name), line + [0] + rest;
    LineNames(line, name);
    NeedleLength(name);
    LookupInFront(line, rest, n);
    LineInFront(line, rest, n);
    Unfolded(b, n, v);
    assert b[..|line| + 1] == line + [0];
    assert b[|line|..] == [0] + rest;
    if names {
      assert b[..|n|] == line[..|n|];
    }
  }

  lemma NeedleLength(name: Bytes)
    ensures |Needle(name)| == |name| + 1
  {
  }

  /** The last line, which no NUL ends. */
  lemma LookupOnLast(line: Bytes, name: Bytes, v: Bytes, names: bool)
    requires FreeOf(line, 0) && LowerName(name)
    requires names <==>
               && |name| < |line| && line[|name|] == 58
               && forall i | 0 <= i < |name| ::
                    line[i] == name[i] || (97 <= name[i] <= 122 && line[i] == name[i] - 32)
    ensures Lookup(line, Needle(name)) == if names then Some(line[|name| + 1..]) else None
    ensures Replace(line, Needle(name), v) == if names then Some(line[..|name| + 1] + v) else None
  {
    hide Needle, Lookup, Replace, LowerName;
    var n := Needle(name);
    LineNames(line, name);
    NeedleLength(name);
    assert line[..|line|] == line;
    LineEndIs(line, |line|);
    Unfolded(line, n, v);
    if names {
      assert line[..|n|] + v + line[|line|..] == line[..|n|] + v;
    }
  }

  /** The first line may spell the name in any way: its value is found, and replaced. */
  lemma AnySpelling(spelling: Bytes, name: Bytes, value: Bytes, rest: Bytes, v: Bytes)
    requires LowerName(name) && FreeOf(value, 0) && |spelling| == |name|
    requires forall i | 0 <= i < |name| ::
               spelling[i] == name[i] || (97 <= name[i] <= 122 && spelling[i] == name[i] - 32)
    ensures var b := spelling + [58] + value + [0] + rest;
            && Lookup(b, Needle(name)) == Some(value)
            && Replace(b, Needle(name), v) == Some(spelling + [58] + v + ([0] + rest))
  {
    hide Lookup, Replace, Needle;
    var line := spelling + [58] + value;
    assert line[..|name| + 1] == spelling + [58] && line[|name| + 1..] == value;
    assert forall i | 0 <= i < |name| :: line[i] == spelling[i];
    LookupByLine(line, rest, name, v, true);
  }

  // ---------------------------------------------------------------------------
  // The block of a stream
  // ---------------------------------------------------------------------------

  /**
   The block starts at the first "HTTP/1." and is as long as the number before it says; there is none when that is
   not positive or too large, and an exception when adding the offset leaves the range of `int`.
   */
  lemma BlockMeans(s: Bytes, hs: nat, length: nat)
    requires 8 <= |s| <= INT_MAX && 4 <= hs && hs + 7 <= |s| && length == FromLE(s[hs - 4..hs])
    requires s[hs..hs + 7] == [72, 84, 84, 80, 47, 49, 46]
    requires forall i | 0 <= i < hs :: s[i] == 72 ==> s[i..i + 7] != [72, 84, 84, 80, 47, 49, 46]
    ensures BlockOf(s) == if length == 0 || length > 0x7fff_ffff || |s| < hs + length <= 0x7fff_ffff then NoBlock
                          else if hs + length > 0x7fff_ffff then Throws
                          else Block(hs, s[hs..hs + length])
  {
    hide FromLE, IndexOf, Signed;
    forall i { StatusAt(s, i); }
    IndexOfIs(s, STATUS_START, hs);
    SignedIs(U32At(s, hs - 4));
    SignedIs(hs + length);
  }

  lemma SignedIs(x: nat)
    requires x < U32_LIMIT + 0x8000_0000
    ensures Signed(x) == if x <= 0x7fff_ffff then x else x - 0x1_0000_0000
  {
  }

  /** Without "HTTP/1.", or with the first one where no length fits before it, there is no block. */
  lemma NoBlockMeans(s: Bytes, hs: nat)
    requires if hs < 4 && hs + 7 <= |s| then s[hs..hs + 7] == [72, 84, 84, 80, 47, 49, 46]
             else forall i | 0 <= i <= |s| - 7 :: s[i] == 72 ==> s[i..i + 7] != [72, 84, 84, 80, 47, 49, 46]
    ensures BlockOf(s) == NoBlock
  {
    forall i { StatusAt(s, i); }
    var first := IndexOf(s, STATUS_START, 0);
    assert first >= 0 ==> OccursAt(s, STATUS_START, first);
    assert hs < 4 && hs + 7 <= |s| ==> OccursAt(s, STATUS_START, hs);
  }

  lemma StatusAt(s: Bytes, i: int)
    ensures OccursAt(s, STATUS_START, i) <==>
              0 <= i <= |s| - 7 && s[i] == 72 && s[i..i + 7] == [72, 84, 84, 80, 47, 49, 46]
  {
    if 0 <= i <= |s| - 7 {
      assert s[i..i + 7][0] == s[i];
    }
  }

  // ---------------------------------------------------------------------------
  // Values
  // ---------------------------------------------------------------------------

  /** Trimming cuts off just the characters up to the space at both ends. */
  lemma TrimMeans(b: Bytes)
    ensures exists n, m ::
              && 0 <= n <= m <= |b| && Trim(b) == b[n..m]
              && (forall i | 0 <= i < n || m <= i < |b| :: b[i] <= 32)
              && (n < m ==> b[n] > 32 && b[m - 1] > 32)
  {
    var n, m := TrimBounds(b);
  }

  lemma {:induction false} TrimBounds(b: Bytes) returns (n: nat, m: nat)
    ensures n <= m <= |b| && Trim(b) == b[n..m]
    ensures forall i | 0 <= i < n || m <= i < |b| :: b[i] <= 32
    ensures n < m ==> b[n] > 32 && b[m - 1] > 32
  {
    if b != [] && b[0] <= 32 {
      var n', m' := TrimBounds(b[1..]);
      n, m := n' + 1, m' + 1;
      assert b[1..][n'..m'] == b[n..m];
      assert forall i | 1 <= i < |b| :: b[i] == b[1..][i - 1];
    } else if b != [] && b[|b| - 1] <= 32 {
      n, m := TrimBounds(b[..|b| - 1]);
      assert b[..|b| - 1][n..m] == b[n..m];
      assert forall i | 0 <= i < |b| - 1 :: b[i] == b[..|b| - 1][i];
    } else {
      n, m := 0, |b|;
      assert b[0..|b|] == b;
    }
  }

  /**
   The declared length is the number right after the colon of the first content-length line that has one there,
   unless it is too large for an `int`; a line without one is passed over.
   */
  lemma DeclaredByLine(line: Bytes, rest: Bytes, names: bool, k: nat)
    requires FreeOf(line, 0)
    requires names <==>
               && 14 < |line| && line[14] == 58
               && forall i | 0 <= i < 14 ::
                    var c := "content-length"[i] as int; line[i] == c || (97 <= c <= 122 && line[i] == c - 32)
    requires names ==>
               && 15 + k <= |line| && (forall i | 15 <= i < 15 + k :: 48 <= line[i] <= 57)
               && (15 + k < |line| ==> !(48 <= line[15 + k] <= 57))
    ensures DeclaredLength(line + [0] + rest)
         == if names && k > 0 then
              var v := DigitsValue(line[15..15 + k]); if v > 0x7fff_ffff then -1 else v
            else DeclaredLength(rest)
  {
    hide StartsWith, Needle, DigitsValue, DeclaredLength;
    TextsAre();
    LowerNames();
    LineNames(line, CONTENT_LENGTH);
    DeclaredAfter(line, rest, k);
  }

  lemma DeclaredAfter(line: Bytes, rest: Bytes, k: nat)
    requires FreeOf(line, 0)
    requires var names := StartsWith(Lowered(line), Needle(CONTENT_LENGTH));
             names ==>
               && 15 + k <= |line| && (forall i | 15 <= i < 15 + k :: 48 <= line[i] <= 57)
               && (15 + k < |line| ==> !(48 <= line[15 + k] <= 57))
    ensures DeclaredLength(line + [0] + rest)
         == if StartsWith(Lowered(line), Needle(CONTENT_LENGTH)) && k > 0 then
              var v := DigitsValue(line[15..15 + k]); if v > 0x7fff_ffff then -1 else v
            else DeclaredLength(rest)
  {
    hide LineHas, LineEnd, Needle, DigitsValue, DigitRun, StartsWith;
    var b := line + [0] + rest;
    NeedleLength(CONTENT_LENGTH);
    LineInFront(line, rest, Needle(CONTENT_LENGTH));
    if StartsWith(Lowered(line), Needle(CONTENT_LENGTH)) {
      assert b[15..|line|] == line[15..];
      RunIs(line[15..], k);
      assert b[15..15 + k] == line[15..15 + k];
    }
  }

  lemma {:induction false} RunIs(b: Bytes, k: nat)
    requires k <= |b| && (forall i | 0 <= i < k :: 48 <= b[i] <= 57) && (k < |b| ==> !(48 <= b[k] <= 57))
    ensures DigitRun(b) == k
  {
    if k > 0 {
      RunIs(b[1..], k - 1);
    }
  }

  /** Numbers are written as usual. */
  lemma DecimalIs()
    ensures |Decimal(9076)| == |"9076"| && forall i | 0 <= i < 4 :: Decimal(9076)[i] == "9076"[i] as int
    ensures |Decimal(-152)| == |"-152"| && forall i | 0 <= i < 4 :: Decimal(-152)[i] == "-152"[i] as int
  {
    assert Digits(9) == [57] && Digits(90) == [57, 48] && Digits(907) == [57, 48, 55];
    assert Digits(1) == [49] && Digits(15) == [49, 53] && Digits(152) == [49, 53, 50];
  }

  /** A stream with this header line after its status line, in any spelling, has its trimmed value. */
  lemma HeaderInAnyCase(s: Bytes, hs: nat, status: Bytes, spelling: Bytes, name: Bytes, value: Bytes, rest: Bytes)
    requires LowerName(name) && |spelling| == |name| && FreeOf(status, 0) && FreeOf(value, 0)
    requires forall i | 0 <= i < |name| ::
               spelling[i] == name[i] || (97 <= name[i] <= 122 && spelling[i] == name[i] - 32)
    requires |status| <= |name| || status[|name|] != 58
    requires BlockOf(s) == Block(hs, status + [0] + (spelling + [58] + value + [0] + rest))
    ensures HeaderValueSpec(s, name) == Some(Some(Trim(value)))
  {
    hide BlockOf, Lookup, Replace, Trim, Needle, ValueIn;
    LowerNeedle(name);
    AnySpelling(spelling, name, value, rest, []);
    LookupByLine(status, spelling + [58] + value + [0] + rest, name, [], false);
    ValueIsLookup(BlockOf(s).text, name);
  }

  /** A content-length line after the status line, in any spelling, is the one that a patch rewrites. */
  lemma AnyCaseIsPatched(s: Bytes, hs: nat, status: Bytes, spelling: Bytes, value: Bytes, rest: Bytes, newLength: int)
    requires |s| <= INT_MAX && |spelling| == 14 && FreeOf(status, 0) && FreeOf(value, 0)
    requires forall i | 0 <= i < 14 ::
               var c := "content-length"[i] as int;
               spelling[i] == c || (97 <= c <= 122 && spelling[i] == c - 32)
    requires |status| <= 14 || status[14] != 58
    requires BlockOf(s) == Block(hs, status + [0] + (spelling + [58] + value + [0] + rest))
    requires PatchSpec(s, newLength).Some?
    ensures var out, b' := PatchSpec(s, newLength).value,
                           status + [0] + (spelling + [58] + Decimal(newLength) + ([0] + rest));
            hs + |b'| <= |out| && out[hs..hs + |b'|] == b'
  {
    hide BlockOf, Lookup, Replace, Needle, PatchSpec, Decimal;
    TextsAre();
    LowerNames();
    var b := status + [0] + (spelling + [58] + value + [0] + rest);
    var b' := status + [0] + (spelling + [58] + Decimal(newLength) + ([0] + rest));
    AnySpelling(spelling, CONTENT_LENGTH, value, rest, Decimal(newLength));
    LookupByLine(status, spelling + [58] + value + [0] + rest, CONTENT_LENGTH, Decimal(newLength), false);
    PatchLayout(s, newLength, hs, b, b', PatchSpec(s, newLength).value);
  }
}
