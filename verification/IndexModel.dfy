/**
 Entry metadata of the cache index, the total size of a set of entries, eviction scores and
 the history that start-up merging is specified by.
 */
module IndexModel {
  import opened ByteSeqs
  import opened Sums

  const SIZE_LIMIT_CHUNKS: nat := 0x4000_0000
  const EVICTION_MARGIN_DIVISOR: nat := 20
  const ESTIMATED_ENTRY_OVERHEAD: nat := 512

  datatype CacheType = HttpCache | AppCache

  type Chunks = x: int | 0 <= x < 0x4000_0000

  /** `time` is the last-used time in seconds, or the trailer prefetch size in the app cache. */
  datatype Meta = Meta(time: u32, chunks: Chunks, hints: int)

  type EntrySet = map<u64, Meta>

  function EntrySize(m: Meta): nat {
    m.chunks * 256
  }

  /** Round up to 256-byte chunks, with 64-bit wrap-around of the addition. */
  function RoundedChunks(size: u64): nat {
    (size + 255) % U64_LIMIT / 256
  }

  /** The metadata with a new size, unless the rounded size needs more than 30 bits. */
  function SetEntrySize(m: Meta, size: u64): Option<Meta> {
    if RoundedChunks(size) >= SIZE_LIMIT_CHUNKS then None else Some(m.(chunks := RoundedChunks(size)))
  }

  /**
   A size is rejected exactly when it does not fit, except that the last 255 sizes below 2^64 wrap
   around and are accepted as empty.
   */
  lemma SizeAccepted(m: Meta, size: u64)
    ensures SetEntrySize(m, size).Some? <==> size <= (SIZE_LIMIT_CHUNKS - 1) * 256 || size > U64_LIMIT - 256
    ensures size <= (SIZE_LIMIT_CHUNKS - 1) * 256 ==>
              var s := EntrySize(SetEntrySize(m, size).value); size <= s < size + 256
    ensures size > U64_LIMIT - 256 ==> EntrySize(SetEntrySize(m, size).value) == 0
  {
    if size > U64_LIMIT - 256 {
      assert (size + 255) % U64_LIMIT == size + 255 - U64_LIMIT;
    } else {
      assert (size + 255) % U64_LIMIT == size + 255;
    }
  }

  // ---------------------------------------------------------------------------
  // Total size
  // ---------------------------------------------------------------------------

  function SizeIn(es: EntrySet, h: u64): nat {
    if h in es then EntrySize(es[h]) else 0
  }

  ghost function Total(es: EntrySet): nat {
    Sum(es.Keys, (h: u64) => SizeIn(es, h))
  }

  /** Setting one entry changes the total by the difference. */
  lemma TotalPut(es: EntrySet, h: u64, m: Meta)
    ensures Total(es[h := m]) + SizeIn(es, h) == Total(es) + EntrySize(m)
  {
    var es' := es[h := m];
    var f, g := (k: u64) => SizeIn(es, k), (k: u64) => SizeIn(es', k);
    var rest := es.Keys - {h};
    assert es'.Keys == rest + {h};
    SumAdd(rest, g, h);
    SumSame(rest, f, g);
    if h in es {
      SumSplit(es.Keys, f, h);
    } else {
      assert rest == es.Keys;
    }
  }

  lemma TotalRemove(es: EntrySet, h: u64)
    ensures Total(es - {h}) + SizeIn(es, h) == Total(es)
  {
    var es' := es - {h};
    var f, g := (k: u64) => SizeIn(es, k), (k: u64) => SizeIn(es', k);
    assert es'.Keys == es.Keys - {h};
    SumSame(es'.Keys, f, g);
    if h in es {
      SumSplit(es.Keys, f, h);
    } else {
      assert es' == es;
    }
  }

  lemma TotalEmpty()
    ensures Total(map[]) == 0
  {
  }

  // ---------------------------------------------------------------------------
  // Eviction scores
  // ---------------------------------------------------------------------------

  /** How scores are computed; which hint bits mean high priority is a parameter. */
  datatype Policy = Policy(sizeHeuristic: bool, prioritized: bool, period: u64, factor: nat,
                           highPriority: int -> bool)

  /** Seconds since last use, as a 32-bit difference. */
  function Age(now: u32, m: Meta): u32 {
    (now - m.time) % U32_LIMIT
  }

  /** The 64-bit score as computed: the product wraps around. */
  function Score(p: Policy, now: u32, m: Meta): (s: u64)
    requires p.factor > 0
  {
    var age := Age(now, m);
    if !p.sizeHeuristic then age
    else
      var v: u64 := age * (EntrySize(m) + ESTIMATED_ENTRY_OVERHEAD) % U64_LIMIT;
      if p.prioritized && age < p.period && p.highPriority(m.hints) then Quotient(v, p.factor) else v
  }

  function Quotient(v: u64, factor: nat): (q: u64)
    requires factor > 0
    ensures q <= v
  {
    ProductMonotone(1, factor, v / factor);
    v / factor
  }

  predicate FitsAtAge(age: u32, size: nat) {
    age * (size + ESTIMATED_ENTRY_OVERHEAD) < U64_LIMIT
  }

  /** The product fits in 64 bits at every age if and only if the padded size is at most 2^32 + 1. */
  lemma ProductFits(size: nat)
    ensures (forall age: u32 :: FitsAtAge(age, size)) <==> size + ESTIMATED_ENTRY_OVERHEAD <= U32_LIMIT + 1
  {
    var s := size + ESTIMATED_ENTRY_OVERHEAD;
    var oldest: u32 := U32_LIMIT - 1;
    if s <= U32_LIMIT + 1 {
      forall age: u32
        ensures FitsAtAge(age, size)
      {
        ProductMonotone(age, oldest, s);
        ProductMonotone(s, U32_LIMIT + 1, oldest);
      }
    } else {
      ProductMonotone(U32_LIMIT + 2, s, oldest);
      assert !FitsAtAge(oldest, size);
    }
  }

  lemma ProductMonotone(a: nat, b: nat, c: nat)
    requires a <= b
    ensures a * c <= b * c
  {
  }

  /** A concrete entry whose larger, equally old neighbour gets the lower score. */
  lemma WrappedScoreMisorders(p: Policy)
    requires p.factor > 0 && p.sizeHeuristic && !p.prioritized
    ensures var old_, small, large := 0x8000_0000, Meta(1, 1, 0), Meta(1, 0x0200_0000 - 2, 0);
            && EntrySize(small) < EntrySize(large)
            && Age(old_ + 1, small) == Age(old_ + 1, large)
            && Score(p, old_ + 1, large) == 0 < Score(p, old_ + 1, small)
  {
    var large := Meta(1, 0x0200_0000 - 2, 0);
    assert Age(0x8000_0001, large) == 0x8000_0000;
    assert EntrySize(large) + ESTIMATED_ENTRY_OVERHEAD == 0x2_0000_0000;
    assert 0x8000_0000 * 0x2_0000_0000 == U64_LIMIT;
  }

  // ---------------------------------------------------------------------------
  // Choosing what to evict
  // ---------------------------------------------------------------------------

  ghost predicate Distinct(hs: seq<u64>) {
    forall i, j | 0 <= i < j < |hs| :: hs[i] != hs[j]
  }

  function ListSize(es: EntrySet, hs: seq<u64>): nat {
    if hs == [] then 0 else ListSize(es, hs[..|hs| - 1]) + SizeIn(es, hs[|hs| - 1])
  }

  lemma ListSizeNext(es: EntrySet, hs: seq<u64>, n: nat)
    requires n < |hs| && hs[n] in es
    ensures ListSize(es, hs[..n + 1]) == ListSize(es, hs[..n]) + EntrySize(es[hs[n]])
  {
    assert hs[..n + 1][..n] == hs[..n];
  }

  function Without(es: EntrySet, hs: seq<u64>): EntrySet {
    es - set h | h in hs
  }

  lemma WithoutNone(es: EntrySet)
    ensures Without(es, []) == es
  {
  }

  lemma WithoutNext(es: EntrySet, hs: seq<u64>, h: u64)
    ensures Without(es, hs + [h]) == Without(es, hs) - {h}
  {
  }

  lemma WithoutBoth(es: EntrySet, hs: seq<u64>, ks: seq<u64>)
    ensures Without(Without(es, hs), ks) == Without(es, hs + ks)
  {
  }

  lemma WithoutSame(es: EntrySet, hs: seq<u64>, ks: seq<u64>)
    requires forall h :: h in hs <==> h in ks
    ensures Without(es, hs) == Without(es, ks)
  {
    assert (set h | h in hs) == (set h | h in ks);
  }

  /** Removing different entries takes exactly their sizes off the total. */
  lemma {:induction false} TotalWithout(es: EntrySet, hs: seq<u64>)
    requires Distinct(hs)
    ensures Total(Without(es, hs)) + ListSize(es, hs) == Total(es)
  {
    hide Total;
    if hs == [] {
      assert Without(es, hs) == es;
    } else {
      var init, last := hs[..|hs| - 1], hs[|hs| - 1];
      TotalWithout(es, init);
      TotalRemove(Without(es, init), last);
      assert Without(es, hs) == Without(es, init) - {last};
      assert last !in init;
    }
  }

  lemma AllListed(es: EntrySet, hs: seq<u64>)
    requires Distinct(hs) && forall h | h in es :: h in hs
    ensures ListSize(es, hs) == Total(es)
  {
    TotalWithout(es, hs);
    assert Without(es, hs) == map[];
    TotalEmpty();
  }

  /** Different entries in the order of their scores, highest first. */
  ghost predicate Ranked(p: Policy, now: u32, es: EntrySet, hs: seq<u64>)
    requires p.factor > 0
  {
    && Distinct(hs)
    && (forall i | 0 <= i < |hs| :: hs[i] in es)
    && (forall i, j | 0 <= i < j < |hs| :: Score(p, now, es[hs[i]]) >= Score(p, now, es[hs[j]]))
  }

  lemma RankedEmpty(p: Policy, now: u32, es: EntrySet)
    requires p.factor > 0
    ensures Ranked(p, now, es, [])
  {
  }

  lemma RankedListed(p: Policy, now: u32, es: EntrySet, hs: seq<u64>)
    requires p.factor > 0 && Ranked(p, now, es, hs)
    ensures forall i | 0 <= i < |hs| :: hs[i] in es
    ensures ListSize(es, []) == 0
  {
    hide Score;
  }

  function Inserted(hs: seq<u64>, n: nat, h: u64): seq<u64>
    requires n <= |hs|
  {
    hs[..n] + [h] + hs[n..]
  }

  lemma InsertedMembers(hs: seq<u64>, n: nat, h: u64)
    requires n <= |hs|
    ensures forall k: u64 :: k in Inserted(hs, n, h) <==> k in hs || k == h
  {
    assert hs == hs[..n] + hs[n..];
  }

  lemma RankedInsert(p: Policy, now: u32, es: EntrySet, hs: seq<u64>, h: u64, n: nat)
    requires p.factor > 0 && Ranked(p, now, es, hs) && h in es && h !in hs && n <= |hs|
    requires forall i | 0 <= i < n :: Score(p, now, es[hs[i]]) >= Score(p, now, es[h])
    requires n < |hs| ==> Score(p, now, es[hs[n]]) <= Score(p, now, es[h])
    ensures Ranked(p, now, es, Inserted(hs, n, h))
    ensures forall k: u64 :: k in Inserted(hs, n, h) <==> k in hs || k == h
  {
    hide Score;
    var r := Inserted(hs, n, h);
    assert r[n] == h;
    assert forall i | 0 <= i < n :: r[i] == hs[i];
    assert forall i | n < i < |r| :: r[i] == hs[i - 1];
    InsertedMembers(hs, n, h);
  }

  /** Enough is freed, with nothing to spare, and no kept entry scores higher than an evicted one. */
  ghost predicate EvictionChoice(p: Policy, now: u32, es: EntrySet, amount: nat, hs: seq<u64>)
    requires p.factor > 0
  {
    && Distinct(hs) && hs != []
    && (forall h | h in hs :: h in es)
    && amount <= ListSize(es, hs)
    && ListSize(es, hs[..|hs| - 1]) < amount
    && (forall h, k | h in hs && k in es && k !in hs :: h in es && Score(p, now, es[h]) >= Score(p, now, es[k]))
  }

  lemma AllRanked(p: Policy, now: u32, es: EntrySet, hs: seq<u64>)
    requires p.factor > 0 && Ranked(p, now, es, hs) && forall h: u64 :: h in hs <==> h in es
    ensures ListSize(es, hs) == Total(es)
  {
    AllListed(es, hs);
  }

  /** What starting an eviction picks: nothing while one is running or the size is not too large. */
  ghost predicate EvictionOutcome(p: Policy, now: u32, es: EntrySet, busy: bool, high: nat, low: nat, hs: seq<u64>)
    requires p.factor > 0 && low <= high
  {
    if busy || Total(es) <= high then hs == [] else EvictionChoice(p, now, es, Total(es) - low, hs)
  }

  /** What is left: all other entries, as they were. */
  lemma WithoutMeans(es: EntrySet, hs: seq<u64>)
    ensures forall h: u64 :: h in Without(es, hs) <==> h in es && h !in hs
    ensures forall h: u64 | h in Without(es, hs) :: Without(es, hs)[h] == es[h]
  {
  }

  /** Something is evicted just when there is need; it reaches the low mark, and without the last one it would not. */
  lemma EvictionMeans(p: Policy, now: u32, es: EntrySet, busy: bool, high: nat, low: nat, hs: seq<u64>)
    requires p.factor > 0 && low <= high && EvictionOutcome(p, now, es, busy, high, low, hs)
    ensures hs != [] <==> !busy && Total(es) > high
    ensures hs != [] ==> Total(Without(es, hs)) <= low < Total(Without(es, hs[..|hs| - 1]))
  {
    hide Total, Score;
    TotalWithout(es, hs);
    if hs != [] {
      TotalWithout(es, hs[..|hs| - 1]);
    }
  }

  /**
   What is evicted was used no later than what is kept; with the size heuristic, the seconds since last use count as
   often as the entry has bytes and 512 more, in 64 bits, divided by the factor for a recent high-priority entry.
   */
  lemma EvictedFirst(p: Policy, now: u32, es: EntrySet, busy: bool, high: nat, low: nat, hs: seq<u64>, h: u64, k: u64,
                     age: nat, age': nat, v: nat, v': nat)
    requires p.factor > 0 && low <= high && EvictionOutcome(p, now, es, busy, high, low, hs)
    requires h in hs && k in es && k !in hs && h in es
    requires age == (now - es[h].time) % 0x1_0000_0000 && age' == (now - es[k].time) % 0x1_0000_0000
    requires v == age * (es[h].chunks * 256 + 512) % 0x1_0000_0000_0000_0000
    requires v' == age' * (es[k].chunks * 256 + 512) % 0x1_0000_0000_0000_0000
    ensures !p.sizeHeuristic ==> age >= age'
    ensures p.sizeHeuristic && !p.prioritized ==> v >= v'
    ensures p.sizeHeuristic && p.prioritized ==>
              (if age < p.period && p.highPriority(es[h].hints) then v / p.factor else v)
              >= (if age' < p.period && p.highPriority(es[k].hints) then v' / p.factor else v')
  {
    hide Total, Score, ListSize;
    ScoreMeans(p, now, es[h], age, v);
    ScoreMeans(p, now, es[k], age', v');
  }

  /** The score: seconds since last use; with the size heuristic times the padded size, and divided for some. */
  lemma ScoreMeans(p: Policy, now: u32, m: Meta, age: nat, v: nat)
    requires p.factor > 0 && age == (now - m.time) % 0x1_0000_0000
    requires v == age * (m.chunks * 256 + 512) % 0x1_0000_0000_0000_0000
    ensures Score(p, now, m) == if !p.sizeHeuristic then age
                                else if p.prioritized && age < p.period && p.highPriority(m.hints) then v / p.factor
                                else v
  {
    hide Quotient;
    QuotientMeans(v, p.factor);
  }

  lemma EvictedInOrder(p: Policy, now: u32, es: EntrySet, busy: bool, high: nat, low: nat, hs: seq<u64>)
    requires p.factor > 0 && low <= high && EvictionOutcome(p, now, es, busy, high, low, hs)
    ensures forall h | h in hs :: h in es
    ensures !p.sizeHeuristic ==>
              forall h, k | h in hs && k in es && k !in hs ::
                (now - es[h].time) % 0x1_0000_0000 >= (now - es[k].time) % 0x1_0000_0000
    ensures p.sizeHeuristic && !p.prioritized ==>
              forall h, k | h in hs && k in es && k !in hs ::
                (now - es[h].time) % 0x1_0000_0000 * (es[h].chunks * 256 + 512) % 0x1_0000_0000_0000_0000
                >= (now - es[k].time) % 0x1_0000_0000 * (es[k].chunks * 256 + 512) % 0x1_0000_0000_0000_0000
  {
    hide Score, Total, ListSize;
    forall h, k | h in hs && k in es && k !in hs
      ensures !p.sizeHeuristic ==>
                (now - es[h].time) % 0x1_0000_0000 >= (now - es[k].time) % 0x1_0000_0000
      ensures p.sizeHeuristic && !p.prioritized ==>
                (now - es[h].time) % 0x1_0000_0000 * (es[h].chunks * 256 + 512) % 0x1_0000_0000_0000_0000
                >= (now - es[k].time) % 0x1_0000_0000 * (es[k].chunks * 256 + 512) % 0x1_0000_0000_0000_0000
    {
      var age, age' := (now - es[h].time) % 0x1_0000_0000, (now - es[k].time) % 0x1_0000_0000;
      EvictedFirst(p, now, es, busy, high, low, hs, h, k, age, age',
                   age * (es[h].chunks * 256 + 512) % 0x1_0000_0000_0000_0000,
                   age' * (es[k].chunks * 256 + 512) % 0x1_0000_0000_0000_0000);
    }
  }

  lemma QuotientMeans(v: nat, factor: nat)
    requires factor > 0 && v < U64_LIMIT
    ensures Quotient(v, factor) == v / factor
  {
  }

  // ---------------------------------------------------------------------------
  // Requests made before the index file is loaded
  // ---------------------------------------------------------------------------

  datatype IndexCall = InsertCall(hash: u64) | RemoveCall(hash: u64)

  /** The last request about `h`, if there was one. */
  function LastCall(calls: seq<IndexCall>, h: u64): Option<IndexCall> {
    if calls == [] then None
    else if calls[|calls| - 1].hash == h then Some(calls[|calls| - 1])
    else LastCall(calls[..|calls| - 1], h)
  }

  /** No request from position `n` on is about `h`. */
  ghost predicate NoneFrom(calls: seq<IndexCall>, h: u64, n: nat) {
    forall m | n <= m < |calls| :: calls[m].hash != h
  }

  /** The last request is the one after which no other is about `h`. */
  lemma {:induction false} LastCallMeans(calls: seq<IndexCall>, h: u64)
    ensures match LastCall(calls, h)
            case Some(c) => exists n :: 0 <= n < |calls| && calls[n] == c && c.hash == h && NoneFrom(calls, h, n + 1)
            case None => NoneFrom(calls, h, 0)
  {
    if calls != [] {
      var last, init := |calls| - 1, calls[..|calls| - 1];
      if calls[last].hash == h {
        assert calls[last] == LastCall(calls, h).value && NoneFrom(calls, h, last + 1);
      } else {
        LastCallMeans(init, h);
        forall n | 0 <= n <= last && NoneFrom(init, h, n) ensures NoneFrom(calls, h, n) {
          assert forall m | 0 <= m < last :: init[m] == calls[m];
        }
        if LastCall(init, h).Some? {
          var c := LastCall(init, h).value;
          var n :| 0 <= n < last && init[n] == c && c.hash == h && NoneFrom(init, h, n + 1);
          assert calls[n] == c;
        }
      }
    }
  }

  lemma LastCallAppend(calls: seq<IndexCall>, c: IndexCall, h: u64)
    ensures LastCall(calls + [c], h) == if c.hash == h then Some(c) else LastCall(calls, h)
  {
    assert (calls + [c])[..|calls|] == calls;
  }

  /** The history after these hashes were removed one after the other; once loading is done it is kept as it is. */
  function AfterRemovals(calls: seq<IndexCall>, initialized: bool, hs: seq<u64>): seq<IndexCall> {
    if initialized || hs == [] then calls
    else AfterRemovals(calls, initialized, hs[..|hs| - 1]) + [RemoveCall(hs[|hs| - 1])]
  }

  lemma RemovalsNext(calls: seq<IndexCall>, initialized: bool, hs: seq<u64>, h: u64)
    ensures AfterRemovals(calls, initialized, hs + [h])
         == AfterRemovals(calls, initialized, hs) + if initialized then [] else [RemoveCall(h)]
  {
    assert (hs + [h])[..|hs|] == hs;
  }

  lemma {:induction false} RemovalsBoth(calls: seq<IndexCall>, initialized: bool, hs: seq<u64>, ks: seq<u64>)
    ensures AfterRemovals(AfterRemovals(calls, initialized, hs), initialized, ks)
         == AfterRemovals(calls, initialized, hs + ks)
  {
    if ks == [] {
      assert hs + ks == hs;
    } else {
      var init, last := ks[..|ks| - 1], ks[|ks| - 1];
      RemovalsBoth(calls, initialized, hs, init);
      assert hs + ks == hs + init + [last] && ks == init + [last];
      RemovalsNext(calls, initialized, hs + init, last);
      RemovalsNext(AfterRemovals(calls, initialized, hs), initialized, init, last);
    }
  }

  /** A removal is the last request about each of these hashes; no other hash is affected. */
  ghost predicate NotesRemovals(before: seq<IndexCall>, after: seq<IndexCall>, initialized: bool, hs: seq<u64>) {
    if initialized then after == before
    else forall h: u64 :: LastCall(after, h) == if h in hs then Some(RemoveCall(h)) else LastCall(before, h)
  }

  lemma {:induction false} RemovalsNoted(calls: seq<IndexCall>, initialized: bool, hs: seq<u64>)
    ensures NotesRemovals(calls, AfterRemovals(calls, initialized, hs), initialized, hs)
  {
    hide LastCall;
    if !initialized && hs != [] {
      var init, last := hs[..|hs| - 1], hs[|hs| - 1];
      RemovalsNoted(calls, initialized, init);
      forall h: u64
        ensures LastCall(AfterRemovals(calls, initialized, hs), h)
             == if h in hs then Some(RemoveCall(h)) else LastCall(calls, h)
      {
        LastCallAppend(AfterRemovals(calls, initialized, init), RemoveCall(last), h);
        assert h in hs <==> h in init || h == last;
      }
    }
  }

  lemma NotedSame(before: seq<IndexCall>, after: seq<IndexCall>, initialized: bool, hs: seq<u64>, ks: seq<u64>)
    requires NotesRemovals(before, after, initialized, hs) && forall h :: h in hs <==> h in ks
    ensures NotesRemovals(before, after, initialized, ks)
  {
  }
}
