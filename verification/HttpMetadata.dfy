/**
 The persisted HTTP header block inside stream 0: NUL-separated lines, stored as a length-prefixed string in
 a pickle. Text is Latin-1, so characters are bytes.
 */
module HttpMetadata {
  import opened ByteSeqs

  /** "HTTP/1." */
  const STATUS_START: Bytes := [72, 84, 84, 80, 47, 49, 46]

  /** "content-length" */
  const CONTENT_LENGTH: Bytes := [99, 111, 110, 116, 101, 110, 116, 45, 108, 101, 110, 103, 116, 104]

  /** "content-encoding" */
  const CONTENT_ENCODING: Bytes := [99, 111, 110, 116, 101, 110, 116, 45, 101, 110, 99, 111, 100, 105, 110, 103]

  const COLON: byte := 58

  // ---------------------------------------------------------------------------
  // Text
  // ---------------------------------------------------------------------------

  /** Lower case of a Latin-1 character. */
  function Lower(c: byte): (l: byte)
    ensures (l == 0 <==> c == 0) && (l == COLON <==> c == COLON)
    ensures 65 <= c <= 90 ==> l == c + 32
    ensures c < 65 || 90 < c < 192 ==> l == c
    ensures c >= 192 ==> l >= 192
  {
    if 65 <= c <= 90 || (192 <= c <= 222 && c != 215) then c + 32 else c
  }

  function Lowered(b: Bytes): (l: Bytes)
    ensures |l| == |b| && forall i | 0 <= i < |b| :: l[i] == Lower(b[i])
  {
    seq(|b|, i requires 0 <= i < |b| => Lower(b[i]))
  }

  /** Without leading and trailing characters up to the space. */
  function Trim(b: Bytes): Bytes {
    if b != [] && b[0] <= 32 then Trim(b[1..])
    else if b != [] && b[|b| - 1] <= 32 then Trim(b[..|b| - 1])
    else b
  }

  predicate StartsWith(b: Bytes, n: Bytes) {
    |n| <= |b| && b[..|n|] == n
  }

  predicate OccursAt(b: Bytes, n: Bytes, i: int) {
    0 <= i <= |b| - |n| && b[i..i + |n|] == n
  }

  /** The first occurrence at or after `from`, or -1. */
  function IndexOf(b: Bytes, n: Bytes, from: nat): (r: int)
    ensures r == -1 || (r >= from && OccursAt(b, n, r))
    ensures forall k | from <= k && (r == -1 || k < r) :: !OccursAt(b, n, k)
    decreases |b| - from
  {
    if from > |b| - |n| then -1 else if OccursAt(b, n, from) then from else IndexOf(b, n, from + 1)
  }

  lemma IndexOfIs(b: Bytes, n: Bytes, r: nat)
    requires OccursAt(b, n, r) && forall k | 0 <= k < r :: !OccursAt(b, n, k)
    ensures IndexOf(b, n, 0) == r
  {
    hide OccursAt;
    var m := IndexOf(b, n, 0);
    assert m != -1;
  }

  /** Compare byte by byte at each position. */
  method FindBytes(b: Bytes, n: Bytes, from: nat) returns (r: int)
    ensures r == IndexOf(b, n, from)
  {
    var i: nat := from;
    while i + |n| <= |b|
      invariant IndexOf(b, n, i) == IndexOf(b, n, from)
      decreases |b| - i
    {
      var j := 0;
      while j < |n| && b[i + j] == n[j]
        invariant j <= |n| && b[i..i + j] == n[..j]
      {
        assert b[i..i + j + 1] == b[i..i + j] + [b[i + j]];
        j := j + 1;
      }
      if j == |n| {
        assert n[..j] == n;
        return i;
      }
      assert b[i..i + |n|][j] != n[j];
      i := i + 1;
    }
    return -1;
  }

  // ---------------------------------------------------------------------------
  // Lines
  // ---------------------------------------------------------------------------

  /** Length of the first line. */
  function LineEnd(b: Bytes): (e: nat)
    ensures e <= |b| && (e < |b| ==> b[e] == 0) && forall k | 0 <= k < e :: b[k] != 0
  {
    if b == [] || b[0] == 0 then 0 else 1 + LineEnd(b[1..])
  }

  predicate LineHas(b: Bytes, needle: Bytes) {
    StartsWith(Lowered(b[..LineEnd(b)]), needle)
  }

  /** What follows the needle on the first line that starts with it. */
  function Lookup(b: Bytes, needle: Bytes): Option<Bytes> {
    var e := LineEnd(b);
    if LineHas(b, needle) then Some(b[|needle|..e])
    else if e == |b| then None
    else Lookup(b[e + 1..], needle)
  }

  /** The block with a new value on the first line that starts with the needle. */
  function Replace(b: Bytes, needle: Bytes, v: Bytes): Option<Bytes> {
    var e := LineEnd(b);
    if LineHas(b, needle) then Some(b[..|needle|] + v + b[e..])
    else if e == |b| then None
    else
      match Replace(b[e + 1..], needle, v)
      case None => None
      case Some(rest) => Some(b[..e + 1] + rest)
  }

  predicate FreeOf(b: Bytes, c: byte) {
    forall i | 0 <= i < |b| :: b[i] != c
  }

  function Needle(name: Bytes): Bytes {
    Lowered(name) + [COLON]
  }

  /** A header name: neither a line nor a name ends inside it. */
  predicate IsName(name: Bytes) {
    FreeOf(name, 0) && FreeOf(name, COLON)
  }

  // ---------------------------------------------------------------------------
  // Replacing one header keeps the others
  // ---------------------------------------------------------------------------

  /** A line starts with at most one name. */
  lemma OneName(line: Bytes, a: Bytes, b: Bytes)
    requires IsName(a) && IsName(b) && StartsWith(line, Needle(a)) && StartsWith(line, Needle(b))
    ensures Lowered(a) == Lowered(b)
  {
    var x, y := Needle(a), Needle(b);
    assert x[|a|] == COLON && y[|b|] == COLON;
    assert forall i | 0 <= i < |a| :: x[i] == Lower(a[i]) != COLON;
    assert forall i | 0 <= i < |b| :: y[i] == Lower(b[i]) != COLON;
    assert forall i | 0 <= i < |x| :: line[i] == x[i];
    assert forall i | 0 <= i < |y| :: line[i] == y[i];
    assert |a| == |b|;
    assert Lowered(a) == x[..|a|] && Lowered(b) == y[..|b|];
  }

  lemma LineEndIs(b: Bytes, e: nat)
    requires e <= |b| && (e < |b| ==> b[e] == 0) && FreeOf(b[..e], 0)
    ensures LineEnd(b) == e
  {
    assert forall k | 0 <= k < e :: b[k] == b[..e][k];
  }

  /** The first line after a replacement, and what follows it. */
  lemma ReplacedLine(b: Bytes, needle: Bytes, v: Bytes)
    requires LineHas(b, needle) && FreeOf(v, 0)
    ensures var r, e := b[..|needle|] + v + b[LineEnd(b)..], |needle| + |v|;
            && LineEnd(r) == e && r[..e] == b[..|needle|] + v && r[e..] == b[LineEnd(b)..]
            && LineHas(r, needle) && |r| == e + |b| - LineEnd(b)
            && (LineEnd(b) < |b| ==> r[e + 1..] == b[LineEnd(b) + 1..])
  {
    hide LineHas, LineEnd, Lowered;
    HasFits(b, needle);
    var head, rest, e := b[..|needle|], b[LineEnd(b)..], |needle| + |v|;
    JoinedLine(head, v, rest);
    HeadHas(b, needle, v);
    if LineEnd(b) < |b| {
      AfterFirst(b, LineEnd(b));
      AfterFirst(head + v + rest, e);
    }
  }

  lemma AfterFirst(b: Bytes, e: nat)
    requires e < |b|
    ensures b[e..][1..] == b[e + 1..]
  {
  }

  /** A line of two parts. */
  lemma JoinedLine(a: Bytes, v: Bytes, rest: Bytes)
    requires FreeOf(a, 0) && FreeOf(v, 0) && (rest != [] ==> rest[0] == 0)
    ensures var r, e := a + v + rest, |a| + |v|; LineEnd(r) == e && r[..e] == a + v && r[e..] == rest
  {
    var r, e := a + v + rest, |a| + |v|;
    assert r[..e] == a + v;
    assert r[e..] == rest;
    LineEndIs(r, e);
  }

  lemma HeadHas(b: Bytes, needle: Bytes, v: Bytes)
    requires LineHas(b, needle) && |needle| <= |b|
    requires var r := b[..|needle|] + v + b[LineEnd(b)..];
             LineEnd(r) == |needle| + |v| && r[..|needle| + |v|] == b[..|needle|] + v
    ensures LineHas(b[..|needle|] + v + b[LineEnd(b)..], needle)
  {
    var n := |needle|;
    LoweredPrefix(b[..LineEnd(b)], n);
    LoweredPrefix(b[..n] + v, n);
    assert b[..LineEnd(b)][..n] == b[..n] == (b[..n] + v)[..n];
  }

  lemma LoweredPrefix(b: Bytes, n: nat)
    requires n <= |b|
    ensures Lowered(b)[..n] == Lowered(b[..n])
  {
  }

  /** A line in front does not disturb. */
  lemma LineInFront(line: Bytes, rest: Bytes, needle: Bytes)
    requires FreeOf(line, 0)
    ensures var b := line + [0] + rest;
            && LineEnd(b) == |line| && b[..|line|] == line && b[|line| + 1..] == rest
            && LineHas(b, needle) == StartsWith(Lowered(line), needle)
  {
    var b := line + [0] + rest;
    assert b[..|line|] == line;
    assert b[|line| + 1..] == rest;
    LineEndIs(b, |line|);
  }

  /** The replaced header has the new value. */
  lemma {:induction false} LookupReplaced(b: Bytes, needle: Bytes, v: Bytes)
    requires FreeOf(v, 0) && Replace(b, needle, v).Some?
    ensures Lookup(Replace(b, needle, v).value, needle) == Some(v)
    decreases |b|
  {
    hide LineHas, Lookup;
    var e := LineEnd(b);
    if LineHas(b, needle) {
      LookupHere(b, needle, v);
    } else {
      LookupReplaced(b[e + 1..], needle, v);
      LineSplit(b, e, needle);
      var rest := Replace(b[e + 1..], needle, v).value;
      SplitAt(b, e);
      LookupInFront(b[..e], rest, needle);
    }
  }

  lemma LookupHere(b: Bytes, needle: Bytes, v: Bytes)
    requires FreeOf(v, 0) && LineHas(b, needle)
    ensures Lookup(Replace(b, needle, v).value, needle) == Some(v)
  {
    hide LineHas;
    HasFits(b, needle);
    ReplacedLine(b, needle, v);
  }

  lemma HasFits(b: Bytes, needle: Bytes)
    requires LineHas(b, needle)
    ensures |needle| <= LineEnd(b)
  {
  }

  lemma SplitAt(b: Bytes, e: nat)
    requires e < |b| && b[e] == 0
    ensures b == b[..e] + [0] + b[e + 1..] && b[..e + 1] == b[..e] + [0]
  {
  }

  lemma LineSplit(b: Bytes, e: nat, needle: Bytes)
    requires e == LineEnd(b) < |b|
    ensures FreeOf(b[..e], 0) && LineHas(b, needle) == StartsWith(Lowered(b[..e]), needle)
  {
  }

  /** Every other header keeps its value. */
  lemma {:induction false} LookupOther(b: Bytes, name: Bytes, v: Bytes, other: Bytes)
    requires IsName(name) && IsName(other) && Lowered(name) != Lowered(other)
    requires FreeOf(v, 0) && Replace(b, Needle(name), v).Some?
    ensures Lookup(Replace(b, Needle(name), v).value, Needle(other)) == Lookup(b, Needle(other))
    decreases |b|
  {
    hide LineHas, IsName, Needle, Lookup;
    var n, o, e := Needle(name), Needle(other), LineEnd(b);
    if LineHas(b, n) {
      LookupOtherHere(b, name, v, other);
    } else {
      LookupOther(b[e + 1..], name, v, other);
      var rest := Replace(b[e + 1..], n, v).value;
      SplitAt(b, e);
      LookupInFront(b[..e], b[e + 1..], o);
      LookupInFront(b[..e], rest, o);
    }
  }

  lemma LookupInFront(line: Bytes, rest: Bytes, needle: Bytes)
    requires FreeOf(line, 0)
    ensures Lookup(line + [0] + rest, needle)
         == if StartsWith(Lowered(line), needle) then Some(line[|needle|..]) else Lookup(rest, needle)
  {
    hide LineHas;
    LineInFront(line, rest, needle);
    var b := line + [0] + rest;
    if StartsWith(Lowered(line), needle) {
      assert b[|needle|..|line|] == b[..|line|][|needle|..];
    }
  }

  /** The case of the replaced line itself. */
  lemma LookupOtherHere(b: Bytes, name: Bytes, v: Bytes, other: Bytes)
    requires IsName(name) && IsName(other) && Lowered(name) != Lowered(other)
    requires FreeOf(v, 0) && LineHas(b, Needle(name))
    ensures Lookup(Replace(b, Needle(name), v).value, Needle(other)) == Lookup(b, Needle(other))
  {
    hide LineHas, IsName, Needle;
    var n, e := Needle(name), LineEnd(b);
    HasFits(b, n);
    ReplacedLine(b, n, v);
    NotBoth(b, name, other);
    NotBoth(Replace(b, n, v).value, name, other);
  }

  lemma NotBoth(b: Bytes, name: Bytes, other: Bytes)
    requires IsName(name) && IsName(other) && Lowered(name) != Lowered(other) && LineHas(b, Needle(name))
    ensures !LineHas(b, Needle(other))
  {
    hide Needle;
    if LineHas(b, Needle(other)) {
      OneName(Lowered(b[..LineEnd(b)]), name, other);
    }
  }

  lemma ReplaceInFront(line: Bytes, rest: Bytes, needle: Bytes, v: Bytes)
    requires FreeOf(line, 0) && !StartsWith(Lowered(line), needle) && Replace(rest, needle, v).Some?
    ensures Replace(line + [0] + rest, needle, v) == Some(line + [0] + Replace(rest, needle, v).value)
  {
    hide LineHas;
    LineInFront(line, rest, needle);
    assert (line + [0] + rest)[..|line| + 1] == line + [0];
  }

  // ---------------------------------------------------------------------------
  // Finding a header by position
  // ---------------------------------------------------------------------------

  /** The needle, in any case, at the start of a line. */
  predicate MatchAt(b: Bytes, needle: Bytes, i: int) {
    OccursAt(Lowered(b), needle, i) && (i == 0 || b[i - 1] == 0)
  }

  function MatchFrom(b: Bytes, needle: Bytes, from: nat): (r: int)
    ensures r == -1 || (r >= from && MatchAt(b, needle, r))
    ensures forall k | from <= k && (r == -1 || k < r) :: !MatchAt(b, needle, k)
    decreases |b| - from
  {
    if from > |b| - |needle| then -1 else if MatchAt(b, needle, from) then from else MatchFrom(b, needle, from + 1)
  }

  lemma MatchFromIs(b: Bytes, needle: Bytes, r: int)
    requires r == -1 || (r >= 0 && MatchAt(b, needle, r))
    requires forall k | 0 <= k && (r == -1 || k < r) :: !MatchAt(b, needle, k)
    ensures MatchFrom(b, needle, 0) == r
  {
    hide MatchAt;
    var m := MatchFrom(b, needle, 0);
    assert m != -1 ==> MatchAt(b, needle, m);
    assert r != -1 ==> MatchAt(b, needle, r);
  }

  /** Search for the text, skipping occurrences inside a line. */
  method FindLine(b: Bytes, needle: Bytes) returns (idx: int)
    requires needle != []
    ensures idx == MatchFrom(b, needle, 0)
  {
    hide MatchFrom;
    var lower := Lowered(b);
    idx := IndexOf(lower, needle, 0);
    while idx > 0 && b[idx - 1] != 0
      invariant idx == -1 || (0 <= idx && OccursAt(lower, needle, idx))
      invariant forall k | 0 <= k && (idx == -1 || k < idx) :: !MatchAt(b, needle, k)
      decreases if idx == -1 then 0 else |b| - idx
    {
      idx := IndexOf(lower, needle, idx + 1);
    }
    MatchFromIs(b, needle, idx);
  }

  /** End of the line that goes on at `start`. */
  function EndFrom(b: Bytes, start: nat): (e: nat)
    requires start <= |b|
    ensures start <= e <= |b|
  {
    start + LineEnd(b[start..])
  }

  lemma EndFromIsIndexOf(b: Bytes, start: nat)
    requires start <= |b|
    ensures EndFrom(b, start) == if IndexOf(b, [0], start) < 0 then |b| else IndexOf(b, [0], start)
  {
    var e := EndFrom(b, start);
    assert forall k | start <= k < e :: b[k] == b[start..][k - start] != 0;
    assert e < |b| ==> b[start..][e - start] == 0;
    forall k | start <= k < |b|
      ensures OccursAt(b, [0], k) <==> b[k] == 0
    {
      assert b[k..k + 1] == [b[k]];
    }
  }

  /** The line found and the replacement are those at position `i`; -1 stands for none. */
  ghost predicate Located(b: Bytes, needle: Bytes, v: Bytes, i: int) {
    if i == -1 then Lookup(b, needle) == None && Replace(b, needle, v) == None
    else
      && 0 <= i && i + |needle| <= |b|
      && var start := i + |needle|;
      && var e := EndFrom(b, start);
      && Lookup(b, needle) == Some(b[start..e])
      && Replace(b, needle, v) == Some(b[..start] + v + b[e..])
  }

  lemma EndInTail(b: Bytes, d: nat, start: nat)
    requires d + start <= |b|
    ensures EndFrom(b, d + start) == d + EndFrom(b[d..], start)
  {
    assert b[d + start..] == b[d..][start..];
  }

  lemma LocatedInTail(b: Bytes, needle: Bytes, v: Bytes, i: int)
    requires LineEnd(b) < |b| && !LineHas(b, needle) && Located(b[LineEnd(b) + 1..], needle, v, i)
    ensures Located(b, needle, v, if i == -1 then -1 else LineEnd(b) + 1 + i)
  {
    hide LineHas, LineEnd, Lookup, Replace, EndFrom;
    LaterLine(b, needle, v);
    if i != -1 {
      var d, start := LineEnd(b) + 1, i + |needle|;
      ShiftedPieces(b, d, start, v, Lookup(b, needle), Replace(b, needle, v));
    }
  }

  /** Pieces of the tail, named by their places in the block. */
  lemma ShiftedPieces(b: Bytes, d: nat, start: nat, v: Bytes, found: Option<Bytes>, replaced: Option<Bytes>)
    requires d + start <= |b|
    requires found == Some(b[d..][start..EndFrom(b[d..], start)])
    requires replaced == Some(b[..d] + (b[d..][..start] + v + b[d..][EndFrom(b[d..], start)..]))
    ensures found == Some(b[d + start..EndFrom(b, d + start)])
    ensures replaced == Some(b[..d + start] + v + b[EndFrom(b, d + start)..])
  {
    hide EndFrom;
    var e := EndFrom(b[d..], start);
    EndInTail(b, d, start);
    SliceOfTail(b, d, start, e);
    SplicedTail(b, d, start, e, v);
  }

  lemma LaterLine(b: Bytes, needle: Bytes, v: Bytes)
    requires LineEnd(b) < |b| && !LineHas(b, needle)
    ensures var tail := b[LineEnd(b) + 1..];
            && Lookup(b, needle) == Lookup(tail, needle)
            && (Replace(tail, needle, v) == None ==> Replace(b, needle, v) == None)
            && (Replace(tail, needle, v).Some? ==>
                  Replace(b, needle, v) == Some(b[..LineEnd(b) + 1] + Replace(tail, needle, v).value))
  {
    hide LineHas, LineEnd;
  }

  lemma SliceOfTail(b: Bytes, d: nat, start: nat, e: nat)
    requires d <= |b| && start <= e <= |b| - d
    ensures b[d..][start..e] == b[d + start..d + e]
  {
  }

  lemma SplicedTail(b: Bytes, d: nat, start: nat, e: nat, v: Bytes)
    requires d <= |b| && start <= e <= |b| - d
    ensures b[..d] + (b[d..][..start] + v + b[d..][e..]) == b[..d + start] + v + b[d + e..]
  {
    assert b[..d + start] == b[..d] + b[d..][..start];
    assert b[d + e..] == b[d..][e..];
  }

  /** Without a NUL in the needle, the position found is the line found. */
  lemma {:induction false} MatchIsLookup(b: Bytes, needle: Bytes, v: Bytes)
    requires FreeOf(needle, 0)
    ensures Located(b, needle, v, MatchFrom(b, needle, 0))
    decreases |b|
  {
    hide MatchFrom, MatchAt, LineHas, LineEnd, Lookup, Replace;
    var e := LineEnd(b);
    FirstLineMatch(b, needle);
    if MatchAt(b, needle, 0) {
      Unfolded(b, needle, v);
      MatchFromIs(b, needle, 0);
      EndOnFirstLine(b, |needle|);
    } else if e == |b| {
      Unfolded(b, needle, v);
      NoLaterLine(b, needle);
      MatchFromIs(b, needle, -1);
    } else {
      MatchIsLookup(b[e + 1..], needle, v);
      MatchInTail(b, needle);
      LocatedInTail(b, needle, v, MatchFrom(b[e + 1..], needle, 0));
    }
  }

  /** One step of both definitions. */
  lemma Unfolded(b: Bytes, needle: Bytes, v: Bytes)
    ensures var e := LineEnd(b);
            if LineHas(b, needle) then
              && |needle| <= e
              && Lookup(b, needle) == Some(b[|needle|..e])
              && Replace(b, needle, v) == Some(b[..|needle|] + v + b[e..])
            else if e == |b| then Lookup(b, needle) == None && Replace(b, needle, v) == None
            else
              && Lookup(b, needle) == Lookup(b[e + 1..], needle)
              && Replace(b, needle, v)
                 == match Replace(b[e + 1..], needle, v) case None => None case Some(rest) => Some(b[..e + 1] + rest)
  {
  }

  lemma FirstLineMatch(b: Bytes, needle: Bytes)
    requires FreeOf(needle, 0)
    ensures MatchAt(b, needle, 0) <==> LineHas(b, needle)
    ensures LineHas(b, needle) ==> |needle| <= LineEnd(b)
  {
    var e := LineEnd(b);
    if MatchAt(b, needle, 0) {
      assert forall k | 0 <= k < |needle| :: needle[k] == Lowered(b)[0..|needle|][k] == Lower(b[k]);
      assert e >= |needle|;
      assert Lowered(b[..e])[..|needle|] == Lowered(b)[0..|needle|];
    }
    if LineHas(b, needle) {
      assert Lowered(b[..e])[..|needle|] == Lowered(b)[0..|needle|];
    }
  }

  lemma EndOnFirstLine(b: Bytes, n: nat)
    requires n <= LineEnd(b)
    ensures EndFrom(b, n) == LineEnd(b)
  {
    var e := LineEnd(b);
    assert b[n..][..e - n] == b[n..e];
    assert e < |b| ==> b[n..][e - n] == 0;
    LineEndIs(b[n..], e - n);
  }

  lemma NoLaterLine(b: Bytes, needle: Bytes)
    requires LineEnd(b) == |b|
    ensures forall k | k > 0 :: !MatchAt(b, needle, k)
  {
  }

  /** Past the first line, positions in the block are positions in its tail. */
  lemma MatchInTail(b: Bytes, needle: Bytes)
    requires LineEnd(b) < |b| && !MatchAt(b, needle, 0)
    ensures var e, i := LineEnd(b), MatchFrom(b[LineEnd(b) + 1..], needle, 0);
            MatchFrom(b, needle, 0) == if i == -1 then -1 else e + 1 + i
  {
    hide MatchAt, MatchFrom;
    var e := LineEnd(b);
    var tail := b[e + 1..];
    var i := MatchFrom(tail, needle, 0);
    forall k | k >= 0
      ensures MatchAt(tail, needle, k) <==> MatchAt(b, needle, e + 1 + k)
    {
      MatchShifted(b, needle, k);
    }
    forall k | 0 < k <= e
      ensures !MatchAt(b, needle, k)
    {
      InsideFirstLine(b, needle, k);
    }
    forall k | k > e
      ensures MatchAt(b, needle, k) <==> MatchAt(tail, needle, k - e - 1)
    {
      MatchShifted(b, needle, k - e - 1);
    }
    MatchFromIs(b, needle, if i == -1 then -1 else e + 1 + i);
  }

  lemma MatchShifted(b: Bytes, needle: Bytes, k: nat)
    requires LineEnd(b) < |b|
    ensures MatchAt(b[LineEnd(b) + 1..], needle, k) <==> MatchAt(b, needle, LineEnd(b) + 1 + k)
  {
    hide LineEnd, MatchAt;
    MatchShiftedBy(b, LineEnd(b) + 1, needle, k);
  }

  lemma MatchShiftedBy(b: Bytes, d: nat, needle: Bytes, k: nat)
    requires 0 < d <= |b| && b[d - 1] == 0
    ensures MatchAt(b[d..], needle, k) <==> MatchAt(b, needle, d + k)
  {
    hide OccursAt;
    var x, y := Lowered(b[d..]), Lowered(b);
    LoweredTail(b, d);
    OccursShifted(y, d, needle, k);
    OccursFits(b, needle, d + k);
    assert OccursAt(x, needle, k) <==> OccursAt(y, needle, d + k);
    assert 0 < k <= |b| - d ==> b[d..][k - 1] == b[d + k - 1];
  }

  lemma OccursFits(b: Bytes, needle: Bytes, i: int)
    ensures OccursAt(Lowered(b), needle, i) ==> 0 <= i <= |b|
  {
  }

  lemma OccursShifted(x: Bytes, d: nat, n: Bytes, k: nat)
    requires d <= |x|
    ensures OccursAt(x[d..], n, k) <==> OccursAt(x, n, d + k)
  {
    if k + |n| <= |x| - d {
      assert x[d..] == x[d..|x|];
      SliceOfSlice(x, d, |x|, d + k, d + k + |n|);
    }
  }

  lemma LoweredTail(b: Bytes, d: nat)
    requires d <= |b|
    ensures Lowered(b[d..]) == Lowered(b)[d..]
  {
  }

  lemma InsideFirstLine(b: Bytes, needle: Bytes, k: nat)
    requires 0 < k <= LineEnd(b)
    ensures !MatchAt(b, needle, k)
  {
  }

  // ---------------------------------------------------------------------------
  // Decimal numbers
  // ---------------------------------------------------------------------------

  function Digits(n: nat): (d: Bytes)
    ensures d != [] && forall i | 0 <= i < |d| :: 48 <= d[i] <= 57
  {
    if n < 10 then [48 + n] else Digits(n / 10) + [48 + n % 10]
  }

  /** `Integer.toString`. */
  function Decimal(n: int): (d: Bytes)
    ensures FreeOf(d, 0)
  {
    if n < 0 then [45] + Digits(-n) else Digits(n)
  }

  function DigitsValue(d: Bytes): nat
    requires forall i | 0 <= i < |d| :: 48 <= d[i] <= 57
  {
    if d == [] then 0 else DigitsValue(d[..|d| - 1]) * 10 + d[|d| - 1] - 48
  }

  lemma {:induction false} DigitsRoundTrip(n: nat)
    ensures DigitsValue(Digits(n)) == n
  {
    if n >= 10 {
      DigitsRoundTrip(n / 10);
      assert Digits(n)[..|Digits(n)| - 1] == Digits(n / 10);
    } else {
      assert Digits(n)[..0] == [];
    }
  }

  /** Length of the run of digits at the start. */
  function DigitRun(b: Bytes): (k: nat)
    ensures k <= |b| && (forall i | 0 <= i < k :: 48 <= b[i] <= 57) && (k < |b| ==> !(48 <= b[k] <= 57))
  {
    if b == [] || !(48 <= b[0] <= 57) then 0 else 1 + DigitRun(b[1..])
  }

  /** The number on the first content-length line that has one right after the colon; -1 if none or too large. */
  function DeclaredLength(b: Bytes): int {
    var e, n := LineEnd(b), Needle(CONTENT_LENGTH);
    if LineHas(b, n) && DigitRun(b[|n|..e]) > 0 then
      var v := DigitsValue(b[|n|..|n| + DigitRun(b[|n|..e])]);
      if v > INT_MAX then -1 else v
    else if e == |b| then -1
    else DeclaredLength(b[e + 1..])
  }

  /** After the replacement the declared length is the new one. */
  lemma {:induction false} DeclaredReplaced(b: Bytes, n: nat)
    requires n <= INT_MAX && Replace(b, Needle(CONTENT_LENGTH), Decimal(n)).Some?
    ensures DeclaredLength(Replace(b, Needle(CONTENT_LENGTH), Decimal(n)).value) == n
    decreases |b|
  {
    hide LineHas, Needle, Decimal, DeclaredLength;
    var c, e := Needle(CONTENT_LENGTH), LineEnd(b);
    if LineHas(b, c) {
      DeclaredHere(b, n);
    } else {
      DeclaredReplaced(b[e + 1..], n);
      LineSplit(b, e, c);
      var rest := Replace(b[e + 1..], c, Decimal(n)).value;
      SplitAt(b, e);
      DeclaredInFront(b[..e], rest);
    }
  }

  lemma DeclaredInFront(line: Bytes, rest: Bytes)
    requires FreeOf(line, 0) && !StartsWith(Lowered(line), Needle(CONTENT_LENGTH))
    ensures DeclaredLength(line + [0] + rest) == DeclaredLength(rest)
  {
    hide LineHas, Needle;
    LineInFront(line, rest, Needle(CONTENT_LENGTH));
  }

  lemma DeclaredHere(b: Bytes, n: nat)
    requires n <= INT_MAX && LineHas(b, Needle(CONTENT_LENGTH))
    ensures DeclaredLength(Replace(b, Needle(CONTENT_LENGTH), Decimal(n)).value) == n
  {
    hide LineHas, Needle, Digits, DigitsValue;
    var c, v := Needle(CONTENT_LENGTH), Digits(n);
    var r := Replace(b, c, v).value;
    HasFits(b, c);
    ReplacedLine(b, c, v);
    assert r[|c|..|c| + |v|] == v;
    DigitsRoundTrip(n);
  }
}
