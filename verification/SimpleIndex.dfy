/**
 The cache index and the backend that dooms entries for it. The running size equals the sum over
 the entries in every state; eviction reaches its target; nothing requested before the index file
 is loaded is lost.
 */
module SimpleIndex {
  import opened ByteSeqs
  import opened IndexModel

  ghost predicate Listed(es: EntrySet, calls: seq<IndexCall>) {
    forall h: u64 :: h in es <==> (LastCall(calls, h).Some? && LastCall(calls, h).value.InsertCall?)
  }

  ghost predicate Noted(removed: set<u64>, calls: seq<IndexCall>) {
    forall h: u64 :: h in removed <==> (LastCall(calls, h).Some? && LastCall(calls, h).value.RemoveCall?)
  }

  class Index {
    const cacheType: CacheType
    const policy: Policy

    var entries: EntrySet
    var cacheSize: nat
    var maxSize: nat
    var highWatermark: nat
    var lowWatermark: nat
    var evictionInProgress: bool
    var removed: set<u64>
    var initialized: bool

    /** Inserts and removes requested before the index file was loaded. */
    ghost var calls: seq<IndexCall>

    ghost predicate Valid()
      reads this
    {
      && cacheSize == Total(entries)
      && lowWatermark <= highWatermark
      && policy.factor > 0
      && (!initialized ==> Listed(entries, calls) && Noted(removed, calls))
      && (initialized ==> removed == {})
    }

    constructor (cacheType: CacheType, policy: Policy)
      requires policy.factor > 0
      ensures Valid() && entries == map[] && !initialized && !evictionInProgress && calls == []
      ensures this.cacheType == cacheType && this.policy == policy
    {
      this.cacheType, this.policy := cacheType, policy;
      entries, cacheSize, maxSize, highWatermark, lowWatermark := map[], 0, 0, 0, 0;
      evictionInProgress, removed, initialized := false, {}, false;
      calls := [];
    }

    /** Before loading, an entry that is listed is not also noted as removed. */
    lemma Disjoint()
      requires Valid()
      ensures entries.Keys !! removed
    {
      forall h: u64
        ensures !(h in entries && h in removed)
      {
      }
    }

    /** List an entry; its size is not known yet. */
    method Insert(hash: u64, now: u32)
      requires Valid()
      modifies this`entries, this`removed, this`calls
      ensures Valid()
      ensures entries == if hash in old(entries) then old(entries)
                         else old(entries)[hash := Meta(if cacheType.AppCache? then U32_LIMIT - 1
                                                        else if now == 0 then 1 else now, 0, 0)]
      ensures cacheSize == old(cacheSize) && initialized == old(initialized)
      ensures evictionInProgress == old(evictionInProgress)
      ensures calls == if initialized then old(calls) else old(calls) + [InsertCall(hash)]
      ensures (maxSize, highWatermark, lowWatermark) == old((maxSize, highWatermark, lowWatermark))
    {
      hide Total, LastCall;
      if hash !in entries {
        var time: u32 := if cacheType.AppCache? then U32_LIMIT - 1 else if now == 0 then 1 else now;
        TotalPut(entries, hash, Meta(time, 0, 0));
        entries := entries[hash := Meta(time, 0, 0)];
      }
      if !initialized {
        removed := removed - {hash};
        forall h: u64 { LastCallAppend(calls, InsertCall(hash), h); }
        calls := calls + [InsertCall(hash)];
      }
    }

    /** Drop an entry, taking its size off the total. */
    method Remove(hash: u64)
      requires Valid()
      modifies this`entries, this`cacheSize, this`removed, this`calls
      ensures Valid()
      ensures entries == old(entries) - {hash}
      ensures calls == if initialized then old(calls) else old(calls) + [RemoveCall(hash)]
    {
      hide Total, LastCall;
      TotalRemove(entries, hash);
      if hash in entries {
        var changed := UpdateEntryIteratorSize(hash, 0);
        TotalRemove(entries, hash);
        entries := entries - {hash};
      } else {
        assert entries - {hash} == entries;
      }
      if !initialized {
        removed := removed + {hash};
        forall h: u64 { LastCallAppend(calls, RemoveCall(hash), h); }
        calls := calls + [RemoveCall(hash)];
      }
    }

    /** Set the size of a listed entry and adjust the total; a size that does not fit changes nothing. */
    method UpdateEntryIteratorSize(hash: u64, size: u64) returns (changed: bool)
      requires cacheSize == Total(entries) && hash in entries
      modifies this`entries, this`cacheSize
      ensures cacheSize == Total(entries)
      ensures var m := SetEntrySize(old(entries)[hash], size);
              && entries == (if m.None? then old(entries) else old(entries)[hash := m.value])
              && changed == (m.Some? && EntrySize(m.value) != EntrySize(old(entries)[hash]))
    {
      hide Total;
      var original := EntrySize(entries[hash]);
      var m := SetEntrySize(entries[hash], size);
      if m == None {
        return false;
      }
      TotalPut(entries, hash, m.value);
      TotalRemove(entries, hash);
      entries := entries[hash := m.value];
      cacheSize := cacheSize - original;
      cacheSize := cacheSize + EntrySize(entries[hash]);
      changed := original != EntrySize(entries[hash]);
    }

    /** Loading finished: drop what was removed meanwhile, keep what was inserted meanwhile. */
    method MergeInitializingSet(loaded: EntrySet)
      requires Valid() && !initialized
      modifies this`entries, this`cacheSize, this`removed, this`initialized
      ensures Valid() && initialized && evictionInProgress == old(evictionInProgress)
      ensures forall h: u64 :: h in entries <==>
                (LastCall(old(calls), h).Some? && LastCall(old(calls), h).value.InsertCall?)
                || (LastCall(old(calls), h).None? && h in loaded)
      ensures forall h: u64 | h in entries ::
                entries[h] == if h in old(entries) then old(entries)[h] else loaded[h]
      ensures (maxSize, highWatermark, lowWatermark) == old((maxSize, highWatermark, lowWatermark))
    {
      hide Total;
      var file: EntrySet := loaded;
      var todo := removed;
      while todo != {}
        invariant todo <= removed
        invariant forall h: u64 :: h in file <==> h in loaded && (h in removed ==> h in todo)
        invariant forall h: u64 | h in file :: file[h] == loaded[h]
      {
        var h :| h in todo;
        file := file - {h};
        todo := todo - {h};
      }
      removed := {};
      var kept: EntrySet := file;
      var left := entries.Keys;
      while left != {}
        invariant left <= entries.Keys
        invariant forall h: u64 :: h in file <==> h in kept || (h in entries && h !in left)
        invariant forall h: u64 | h in file ::
                    file[h] == if h in entries && h !in left then entries[h] else if h in kept then kept[h] else file[h]
      {
        var h :| h in left;
        file := file[h := entries[h]];
        left := left - {h};
      }
      var size := SumSizes(file);
      entries := file;
      cacheSize := size;
      initialized := true;
    }

    /** The hashes of all entries, highest score first; ties in any order. */
    method RankedHashes(now: u32) returns (hs: seq<u64>)
      requires policy.factor > 0
      ensures Ranked(policy, now, entries, hs) && forall h: u64 :: h in hs <==> h in entries
    {
      hide Ranked;
      hs := [];
      var left := entries.Keys;
      RankedEmpty(policy, now, entries);
      while left != {}
        invariant left <= entries.Keys
        invariant Ranked(policy, now, entries, hs) && forall h: u64 :: h in hs <==> h in entries && h !in left
      {
        var h :| h in left;
        hs := InsertRanked(hs, h, now);
        left := left - {h};
      }
    }

    /** Insert one hash into a ranked list. */
    method InsertRanked(hs: seq<u64>, h: u64, now: u32) returns (hs': seq<u64>)
      requires policy.factor > 0 && h in entries && h !in hs && Ranked(policy, now, entries, hs)
      ensures Ranked(policy, now, entries, hs') && forall k: u64 :: k in hs' <==> k in hs || k == h
    {
      hide Score;
      var n: nat := 0;
      while n < |hs| && Score(policy, now, entries[hs[n]]) >= Score(policy, now, entries[h])
        invariant n <= |hs|
        invariant forall i | 0 <= i < n :: Score(policy, now, entries[hs[i]]) >= Score(policy, now, entries[h])
      {
        n := n + 1;
      }
      RankedInsert(policy, now, entries, hs, h, n);
      hs' := Inserted(hs, n, h);
    }

    /** The shortest part of the ranking that frees the amount. */
    method TakeUntil(ranked: seq<u64>, amount: nat, now: u32) returns (hashes: seq<u64>)
      requires policy.factor > 0 && Ranked(policy, now, entries, ranked)
      requires forall h: u64 :: h in ranked <==> h in entries
      requires 0 < amount <= ListSize(entries, ranked)
      ensures EvictionChoice(policy, now, entries, amount, hashes)
    {
      hide Score, EvictionChoice, Ranked, ListSize;
      hashes := [];
      var evicted, n := 0, 0;
      RankedListed(policy, now, entries, ranked);
      assert ranked[..0] == [];
      while n < |ranked| && evicted < amount
        invariant n <= |ranked| && hashes == ranked[..n] && evicted == ListSize(entries, ranked[..n])
        invariant n > 0 ==> ListSize(entries, ranked[..n - 1]) < amount
        invariant n == 0 ==> evicted == 0
      {
        assert ranked[..n + 1] == ranked[..n] + [ranked[n]];
        ListSizeNext(entries, ranked, n);
        evicted := evicted + EntrySize(entries[ranked[n]]);
        hashes := hashes + [ranked[n]];
        n := n + 1;
      }
      assert n == |ranked| ==> ranked[..n] == ranked;
      ChoiceOfPrefix(policy, now, entries, amount, ranked, n);
    }

    /** The entries to evict when the size is too large: the highest scores, down to the low watermark. */
    method Victims(now: u32) returns (hashes: seq<u64>)
      requires Valid() && cacheSize > highWatermark
      ensures EvictionOutcome(policy, now, entries, false, highWatermark, lowWatermark, hashes)
      ensures hashes != [] && forall h | h in hashes :: h in entries
      ensures Total(Without(entries, hashes)) <= lowWatermark < Total(Without(entries, hashes[..|hashes| - 1]))
      ensures !policy.sizeHeuristic ==>
                forall h, k | h in hashes && k in entries && k !in hashes ::
                  (now - entries[h].time) % 0x1_0000_0000 >= (now - entries[k].time) % 0x1_0000_0000
    {
      hide Score, Total, Listed, Noted, EvictionChoice, Ranked, Without;
      var ranked := RankedHashes(now);
      AllRanked(policy, now, entries, ranked);
      hashes := TakeUntil(ranked, cacheSize - lowWatermark, now);
      EvictionMeans(policy, now, entries, false, highWatermark, lowWatermark, hashes);
      EvictedInOrder(policy, now, entries, false, highWatermark, lowWatermark, hashes);
    }

    /** When the size is above the high watermark, evict the highest scores until it is at the low one. */
    method StartEvictionIfNeeded(delegate: Backend, now: u32) returns (hashes: seq<u64>, barrier: BarrierContext?)
      requires Valid() && delegate.index == this
      modifies this, delegate`postDoom, delegate`pending
      ensures Valid()
      ensures EvictionOutcome(policy, now, old(entries), old(evictionInProgress), highWatermark, lowWatermark, hashes)
      ensures entries == Without(old(entries), hashes)
      ensures evictionInProgress == (old(evictionInProgress) || hashes != [])
      ensures hashes != [] <==> !old(evictionInProgress) && old(cacheSize) > highWatermark
      ensures hashes != [] ==> cacheSize <= lowWatermark < Total(Without(old(entries), hashes[..|hashes| - 1]))
      ensures forall h | h in hashes :: h in old(entries)
      ensures !policy.sizeHeuristic ==>
                forall h, k | h in hashes && k in old(entries) && k !in hashes ::
                  (now - old(entries)[h].time) % 0x1_0000_0000 >= (now - old(entries)[k].time) % 0x1_0000_0000
      ensures NotesRemovals(old(calls), calls, initialized, hashes)
      ensures hashes == [] <==> barrier == null
      ensures barrier == null ==> delegate.postDoom == old(delegate.postDoom)
      ensures if barrier == null then delegate.pending == old(delegate.pending)
              else !old(evictionInProgress) && delegate.Started(old(delegate.pending), barrier, EvictionEnds)
      ensures fresh(barrier) || barrier == null
      ensures (maxSize, highWatermark, lowWatermark) == old((maxSize, highWatermark, lowWatermark))
      ensures initialized == old(initialized)
    {
      hide Score, Total, Listed, Noted, EvictionChoice, Without, NotesRemovals;
      WithoutNone(entries);
      NoRemovals(calls, initialized);
      hashes, barrier := [], null;
      if evictionInProgress || cacheSize <= highWatermark {
        return;
      }
      hashes := Victims(now);
      evictionInProgress := true;
      var individually, massed;
      individually, massed, barrier := delegate.DoomEntries(hashes, EvictionEnds);
    }

    /** An eviction from its start to the last report: the callback ends it exactly once, and another one may start. */
    method Evict(delegate: Backend, now: u32, results: nat -> int) returns (hashes: seq<u64>, done: nat)
      requires Valid() && delegate.index == this && !evictionInProgress
      modifies this, delegate`postDoom, delegate`pending
      ensures Valid() && !evictionInProgress
      ensures EvictionOutcome(policy, now, old(entries), false, highWatermark, lowWatermark, hashes)
      ensures entries == Without(old(entries), hashes) && cacheSize <= highWatermark
      ensures done == if hashes == [] then 0 else 1
    {
      hide Total, Score, Listed, Noted, Without, NotesRemovals, Outcome, Count;
      done := 0;
      WithoutNone(entries);
      var barrier: BarrierContext?;
      hashes, barrier := StartEvictionIfNeeded(delegate, now);
      if barrier != null {
        done := delegate.RunDooms(barrier, results);
      }
    }

    /** Note that an entry is used; before loading every entry might exist. */
    method UseIfExists(hash: u64, now: u32) returns (exists_: bool)
      requires Valid()
      modifies this`entries
      ensures Valid() && exists_ == (hash in entries || !initialized)
      ensures entries == if hash in old(entries) && cacheType.HttpCache?
                         then old(entries)[hash := old(entries)[hash].(time := if now == 0 then 1 else now)]
                         else old(entries)
    {
      hide Total, LastCall;
      if hash !in entries {
        return !initialized;
      }
      if cacheType.AppCache? {
        return true;
      }
      var m := entries[hash].(time := if now == 0 then 1 else now);
      TotalPut(entries, hash, m);
      entries := entries[hash := m];
      return true;
    }

    /** Set the two hint bits of a listed entry. */
    method SetEntryInMemoryData(hash: u64, value: nat)
      requires Valid() && value <= 3
      modifies this`entries
      ensures Valid()
      ensures entries == if hash in old(entries) then old(entries)[hash := old(entries)[hash].(hints := value)]
                         else old(entries)
    {
      hide Total, LastCall;
      if hash in entries {
        var m := entries[hash].(hints := value);
        TotalPut(entries, hash, m);
        entries := entries[hash := m];
      }
    }

    /** Remember how much of a listed entry's trailer to prefetch; 0 changes nothing, a negative size wraps. */
    method SetTrailerPrefetchSize(hash: u64, size: int)
      requires Valid() && cacheType.AppCache? && -0x8000_0000 <= size <= 0x7fff_ffff
      modifies this`entries
      ensures Valid()
      ensures entries == if hash in old(entries) && size != 0
                         then old(entries)[hash := old(entries)[hash].(time := size % U32_LIMIT)] else old(entries)
    {
      hide Total, LastCall;
      if hash in entries && size != 0 {
        var m := entries[hash].(time := size % U32_LIMIT);
        TotalPut(entries, hash, m);
        entries := entries[hash := m];
      }
    }

    method EvictionDone()
      requires Valid()
      modifies this`evictionInProgress
      ensures Valid() && !evictionInProgress
    {
      evictionInProgress := false;
    }

    /** Record an entry's size; growing may start an eviction. */
    method UpdateEntrySize(hash: u64, size: u64, delegate: Backend, now: u32)
      returns (known: bool, evicted: seq<u64>, barrier: BarrierContext?)
      requires Valid() && delegate.index == this
      modifies this, delegate`postDoom, delegate`pending
      ensures evicted == [] <==> barrier == null
      ensures if barrier == null then delegate.pending == old(delegate.pending)
              else !old(evictionInProgress) && delegate.Started(old(delegate.pending), barrier, EvictionEnds)
      ensures fresh(barrier) || barrier == null
      ensures Valid() && known == (hash in old(entries))
      ensures var es := if known && SetEntrySize(old(entries)[hash], size).Some?
                        then old(entries)[hash := SetEntrySize(old(entries)[hash], size).value] else old(entries);
              && entries == Without(es, evicted)
              && (if known && EntrySize(es[hash]) != EntrySize(old(entries)[hash])
                  then EvictionOutcome(policy, now, es, old(evictionInProgress), highWatermark, lowWatermark, evicted)
                  else evicted == [])
      ensures evicted != [] ==> cacheSize <= lowWatermark
      ensures NotesRemovals(old(calls), calls, initialized, evicted)
      ensures evictionInProgress == (old(evictionInProgress) || evicted != [])
      ensures (maxSize, highWatermark, lowWatermark) == old((maxSize, highWatermark, lowWatermark))
      ensures initialized == old(initialized)
    {
      hide Total, Score, EvictionChoice, NotesRemovals;
      NoRemovals(calls, initialized);
      evicted, barrier := [], null;
      if hash !in entries {
        assert entries == Without(entries, evicted);
        return false, [], null;
      }
      known := true;
      ghost var es := if SetEntrySize(entries[hash], size).Some?
                      then entries[hash := SetEntrySize(entries[hash], size).value] else entries;
      var changed := UpdateEntryIteratorSize(hash, size);
      assert Valid();
      assert Without(es, []) == es;
      if changed {
        evicted, barrier := StartEvictionIfNeeded(delegate, now);
      }
    }

    /** Set the limit; the watermarks are one and two twentieths below it. */
    method SetMaxSize(bytes: u64, delegate: Backend, now: u32) returns (evicted: seq<u64>, barrier: BarrierContext?)
      requires Valid() && delegate.index == this
      modifies this, delegate`postDoom, delegate`pending
      ensures evicted == [] <==> barrier == null
      ensures if barrier == null then delegate.pending == old(delegate.pending)
              else !old(evictionInProgress) && delegate.Started(old(delegate.pending), barrier, EvictionEnds)
      ensures fresh(barrier) || barrier == null
      ensures Valid() && maxSize == bytes
      ensures highWatermark == bytes - bytes / 20 && lowWatermark == bytes - 2 * (bytes / 20)
      ensures entries == Without(old(entries), evicted)
      ensures if bytes < old(maxSize)
              then EvictionOutcome(policy, now, old(entries), old(evictionInProgress), highWatermark, lowWatermark,
                                   evicted)
              else evicted == []
      ensures bytes < old(maxSize) && !old(evictionInProgress) ==> cacheSize <= highWatermark
      ensures NotesRemovals(old(calls), calls, initialized, evicted)
      ensures evictionInProgress == (old(evictionInProgress) || evicted != []) && initialized == old(initialized)
    {
      hide Total, Score, Listed, Noted, NotesRemovals;
      NoRemovals(calls, initialized);
      evicted, barrier := [], null;
      assert Without(entries, []) == entries;
      var shrinking := bytes < maxSize;
      maxSize := bytes;
      highWatermark := maxSize - maxSize / EVICTION_MARGIN_DIVISOR;
      lowWatermark := maxSize - 2 * (maxSize / EVICTION_MARGIN_DIVISOR);
      if shrinking {
        evicted, barrier := StartEvictionIfNeeded(delegate, now);
      }
    }
  }

  /** A shortest sufficient prefix of the ranking is a proper choice. */
  lemma ChoiceOfPrefix(p: Policy, now: u32, es: EntrySet, amount: nat, ranked: seq<u64>, n: nat)
    requires p.factor > 0 && Ranked(p, now, es, ranked) && forall h: u64 :: h in ranked <==> h in es
    requires 0 < n <= |ranked| && amount <= ListSize(es, ranked[..n]) && ListSize(es, ranked[..n - 1]) < amount
    ensures EvictionChoice(p, now, es, amount, ranked[..n])
  {
    hide Score, Ranked, ListSize, Distinct;
    var hs := ranked[..n];
    assert hs[..|hs| - 1] == ranked[..n - 1];
    RankedPrefix(p, now, es, ranked, n);
    assert forall h | h in hs :: h in ranked;
    forall h, k | h in hs && k in es && k !in hs
      ensures h in es && Score(p, now, es[h]) >= Score(p, now, es[k])
    {
      var i :| 0 <= i < |hs| && hs[i] == h;
      assert k in ranked;
      var j :| 0 <= j < |ranked| && ranked[j] == k;
      assert j >= n by {
        assert forall l | 0 <= l < n :: hs[l] == ranked[l];
      }
      RankedPair(p, now, es, ranked, i, j);
    }
  }

  lemma RankedPrefix(p: Policy, now: u32, es: EntrySet, ranked: seq<u64>, n: nat)
    requires p.factor > 0 && Ranked(p, now, es, ranked) && n <= |ranked|
    ensures Distinct(ranked[..n])
  {
    hide Score;
  }

  lemma RankedPair(p: Policy, now: u32, es: EntrySet, ranked: seq<u64>, i: nat, j: nat)
    requires p.factor > 0 && Ranked(p, now, es, ranked) && i < j < |ranked|
    ensures ranked[i] in es && ranked[j] in es
    ensures Score(p, now, es[ranked[i]]) >= Score(p, now, es[ranked[j]])
  {
    hide Score;
  }

  /** Work under way that will report to a barrier once: one entry being doomed, or a set of files being deleted. */
  datatype Job = Single(hash: u64, barrier: BarrierContext) | Mass(hashes: seq<u64>, barrier: BarrierContext)

  /** How many reports a barrier still has to get. */
  function Count(jobs: seq<Job>, b: BarrierContext): nat {
    if jobs == [] then 0
    else Count(jobs[..|jobs| - 1], b) + if jobs[|jobs| - 1].barrier == b then 1 else 0
  }

  /** The jobs that report elsewhere. */
  function Others(jobs: seq<Job>, b: BarrierContext): seq<Job> {
    if jobs == [] then []
    else Others(jobs[..|jobs| - 1], b) + if jobs[|jobs| - 1].barrier == b then [] else [jobs[|jobs| - 1]]
  }

  /** They are just the jobs of other barriers. */
  lemma {:induction false} OthersMean(jobs: seq<Job>, b: BarrierContext)
    ensures forall j: Job :: j in Others(jobs, b) <==> j in jobs && j.barrier != b
  {
    if jobs != [] {
      var init, last := jobs[..|jobs| - 1], jobs[|jobs| - 1];
      OthersMean(init, b);
      assert jobs == init + [last];
    }
  }

  /** The jobs after are those before and new ones that all report to this barrier. */
  ghost predicate Joined(before: seq<Job>, after: seq<Job>, b: BarrierContext) {
    && |before| <= |after| && after[..|before|] == before
    && forall i | |before| <= i < |after| :: after[i].barrier == b
  }

  lemma JoinedJobs(before: seq<Job>, new_: seq<Job>, b: BarrierContext)
    requires forall i | 0 <= i < |new_| :: new_[i].barrier == b
    ensures Joined(before, before + new_, b)
  {
  }

  /** Jobs that report elsewhere change nothing for a barrier. */
  lemma {:induction false} JoinedCount(before: seq<Job>, after: seq<Job>, b: BarrierContext, c: BarrierContext)
    requires Joined(before, after, b) && c != b
    ensures Count(after, c) == Count(before, c)
    decreases |after|
  {
    if |after| == |before| {
      assert after == before;
    } else {
      var n := |after| - 1;
      assert after[..n][..|before|] == after[..|before|];
      JoinedCount(before, after[..n], b, c);
      JobsNext(after[..n], after[n], c);
      assert after == after[..n] + [after[n]];
    }
  }

  function Singles(hashes: seq<u64>, b: BarrierContext): (jobs: seq<Job>)
    ensures |jobs| == |hashes| && forall i | 0 <= i < |jobs| :: jobs[i] == Single(hashes[i], b)
  {
    seq(|hashes|, i requires 0 <= i < |hashes| => Single(hashes[i], b))
  }

  lemma JobsNext(jobs: seq<Job>, job: Job, b: BarrierContext)
    ensures Count(jobs + [job], b) == Count(jobs, b) + if job.barrier == b then 1 else 0
    ensures Others(jobs + [job], b) == Others(jobs, b) + if job.barrier == b then [] else [job]
  {
    assert (jobs + [job])[..|jobs|] == jobs;
  }

  /** Finishing one of a barrier's jobs leaves one report less, and all other jobs. */
  lemma {:induction false} JobDone(jobs: seq<Job>, i: nat, b: BarrierContext)
    requires i < |jobs|
    ensures var rest := jobs[..i] + jobs[i + 1..];
            && Count(rest, b) + (if jobs[i].barrier == b then 1 else 0) == Count(jobs, b)
            && (jobs[i].barrier == b ==> Others(rest, b) == Others(jobs, b))
    decreases |jobs|
  {
    hide Count, Others;
    var n := |jobs| - 1;
    var init := jobs[..n];
    assert jobs == init + [jobs[n]];
    JobsNext(init, jobs[n], b);
    WithoutOne(init, jobs[n], i);
    if i < n {
      JobDone(init, i, b);
      JobsNext(init[..i] + init[i + 1..], jobs[n], b);
    }
  }

  lemma WithoutOne(init: seq<Job>, last: Job, i: nat)
    requires i <= |init|
    ensures var jobs := init + [last];
            jobs[..i] + jobs[i + 1..] == if i == |init| then init else init[..i] + init[i + 1..] + [last]
  {
  }

  lemma {:induction false} SomeJob(jobs: seq<Job>, b: BarrierContext)
    ensures Count(jobs, b) > 0 <==> exists i :: 0 <= i < |jobs| && jobs[i].barrier == b
  {
    if jobs != [] {
      var n := |jobs| - 1;
      SomeJob(jobs[..n], b);
      if Count(jobs[..n], b) > 0 {
        var i :| 0 <= i < n && jobs[..n][i].barrier == b;
        assert jobs[i].barrier == b;
      }
      assert forall i | 0 <= i < n :: jobs[..n][i] == jobs[i];
    }
  }

  /** The backend's part of dooming: which files are deleted together and which entries one by one. */
  class Backend {
    const index: Index
    var active: set<u64>
    var postDoom: set<u64>
    var pending: seq<Job>

    constructor (index: Index)
      ensures this.index == index && active == {} && postDoom == {} && pending == []
    {
      this.index, active, postDoom, pending := index, {}, {}, [];
    }

    /** Every report the barrier still expects will come from a job under way. */
    ghost predicate Awaits(b: BarrierContext)
      reads this, b
    {
      b.Valid() && b.expected == |b.results| + Count(pending, b)
    }

    /** New jobs have joined those before, and all report to this new barrier. */
    ghost predicate Started(before: seq<Job>, b: BarrierContext, callback: Callback)
      reads this, b
    {
      && b.callback == callback && b.results == [] && b.runs == [] && Awaits(b)
      && Joined(before, pending, b)
    }

    /** Split the hashes, start dooming them, remove all of them from the index and set up the completion barrier. */
    method DoomEntries(hashes: seq<u64>, callback: Callback)
      returns (individually: seq<u64>, massed: seq<u64>, barrier: BarrierContext)
      requires index.Valid()
      modifies this`postDoom, this`pending, index`entries, index`cacheSize, index`removed, index`calls
      ensures index.Valid() && index.entries == Without(old(index.entries), hashes)
      ensures NotesRemovals(old(index.calls), index.calls, index.initialized, hashes)
      ensures multiset(individually) + multiset(massed) == multiset(hashes)
      ensures forall h | h in individually :: h in active || h in old(postDoom)
      ensures forall h | h in massed :: h !in active && h !in old(postDoom)
      ensures postDoom == old(postDoom) + Members(massed)
      ensures pending == old(pending) + Singles(individually, barrier) + [Mass(massed, barrier)]
      ensures fresh(barrier) && barrier.Fresh(|individually| + 1) && Started(old(pending), barrier, callback)
    {
      hide Without, Total, Listed, Noted, Outcome, Members, AfterRemovals, NotesRemovals, Count;
      ghost var es, calls, jobs := index.entries, index.calls, pending;
      individually, massed := SplitForDoom(hashes);
      barrier := new BarrierContext(|individually| + 1, callback);
      NoneYet(jobs, barrier);
      DoomSingly(individually, barrier);
      DoomTogether(massed);
      JobsNext(pending, Mass(massed, barrier), barrier);
      pending := pending + [Mass(massed, barrier)];
      JoinedJobs(jobs, Singles(individually, barrier) + [Mass(massed, barrier)], barrier);
      assert pending == jobs + (Singles(individually, barrier) + [Mass(massed, barrier)]);
      BothParts(es, calls, index.initialized, individually, massed, hashes);
    }

    /** Start dooming each of these entries, which will report to the barrier, and drop it from the index. */
    method DoomSingly(hashes: seq<u64>, barrier: BarrierContext)
      requires index.Valid()
      modifies this`pending, index`entries, index`cacheSize, index`removed, index`calls
      ensures index.Valid() && index.entries == Without(old(index.entries), hashes)
      ensures index.calls == AfterRemovals(old(index.calls), index.initialized, hashes)
      ensures pending == old(pending) + Singles(hashes, barrier)
      ensures Count(pending, barrier) == Count(old(pending), barrier) + |hashes|
    {
      hide Without, Total, Listed, Noted, AfterRemovals, Count, LastCall, Others;
      ghost var es, calls, jobs := index.entries, index.calls, pending;
      var i := 0;
      WithoutNone(es);
      NoRemovals(calls, index.initialized);
      assert hashes[..0] == [];
      while i < |hashes|
        invariant i <= |hashes| && index.Valid() && index.entries == Without(es, hashes[..i])
        invariant index.calls == AfterRemovals(calls, index.initialized, hashes[..i])
        invariant pending == jobs + Singles(hashes[..i], barrier)
        invariant Count(pending, barrier) == Count(jobs, barrier) + i
      {
        assert hashes[..i + 1] == hashes[..i] + [hashes[i]];
        WithoutNext(es, hashes[..i], hashes[i]);
        RemovalsNext(calls, index.initialized, hashes[..i], hashes[i]);
        JobsNext(pending, Single(hashes[i], barrier), barrier);
        pending := pending + [Single(hashes[i], barrier)];
        index.Remove(hashes[i]);
        i := i + 1;
      }
      assert hashes[..i] == hashes;
    }

    /** Drop these entries from the index and mark them as being doomed. */
    method DoomTogether(hashes: seq<u64>)
      requires index.Valid()
      modifies this`postDoom, index`entries, index`cacheSize, index`removed, index`calls
      ensures index.Valid() && index.entries == Without(old(index.entries), hashes)
      ensures index.calls == AfterRemovals(old(index.calls), index.initialized, hashes)
      ensures postDoom == old(postDoom) + Members(hashes)
    {
      hide Without, Total, Listed, Noted, AfterRemovals, Members;
      ghost var es, calls := index.entries, index.calls;
      var i := 0;
      WithoutNone(es);
      MembersNone();
      NoRemovals(calls, index.initialized);
      assert hashes[..0] == [];
      while i < |hashes|
        invariant i <= |hashes| && index.Valid() && index.entries == Without(es, hashes[..i])
        invariant index.calls == AfterRemovals(calls, index.initialized, hashes[..i])
        invariant postDoom == old(postDoom) + Members(hashes[..i])
      {
        assert hashes[..i + 1] == hashes[..i] + [hashes[i]];
        WithoutNext(es, hashes[..i], hashes[i]);
        RemovalsNext(calls, index.initialized, hashes[..i], hashes[i]);
        MembersNext(hashes[..i], hashes[i]);
        index.Remove(hashes[i]);
        postDoom := postDoom + {hashes[i]};
        i := i + 1;
      }
      assert hashes[..i] == hashes;
    }

    /** Walk backwards, moving each entry in use out by overwriting it with the last. */
    method SplitForDoom(hashes: seq<u64>) returns (individually: seq<u64>, massed: seq<u64>)
      ensures multiset(individually) + multiset(massed) == multiset(hashes)
      ensures forall h | h in individually :: h in active || h in postDoom
      ensures forall h | h in massed :: h !in active && h !in postDoom
    {
      individually, massed := [], hashes;
      var i := |massed| - 1;
      while i >= 0
        invariant -1 <= i < |massed|
        invariant multiset(individually) + multiset(massed) == multiset(hashes)
        invariant forall h | h in individually :: h in active || h in postDoom
        invariant forall k | i < k < |massed| :: massed[k] !in active && massed[k] !in postDoom
      {
        var h := massed[i];
        if h in active || h in postDoom {
          SwapRemove(massed, i);
          individually := individually + [h];
          massed := massed[i := massed[|massed| - 1]][..|massed| - 1];
        }
        i := i - 1;
      }
    }

    /** One job reports. */
    method Complete(i: nat, result: int) returns (ran: bool)
      requires i < |pending| && Awaits(pending[i].barrier)
      modifies this`pending, this`postDoom, pending[i].barrier
      ensures pending == old(pending)[..i] + old(pending)[i + 1..]
      ensures postDoom == match old(pending)[i] case Single(_, _) => old(postDoom)
                                                case Mass(hashes, _) => old(postDoom) - Members(hashes)
      ensures var b := old(pending[i].barrier);
              && Awaits(b) && b.results == old(b.results) + [result]
              && |b.runs| == |old(b.runs)| + (if ran then 1 else 0)
    {
      hide Count, Outcome;
      var job := pending[i];
      JobDone(pending, i, job.barrier);
      SomeJob(pending, job.barrier);
      var n := |job.barrier.runs|;
      pending := pending[..i] + pending[i + 1..];
      match job {
        case Single(_, b) => b.Notify(result);
        case Mass(hashes, b) => DoomEntriesComplete(hashes, b, result);
      }
      ran := |job.barrier.runs| > n;
    }

    /** All of an eviction's jobs report, in any order and with any results; the callback ends the eviction. */
    method RunDooms(b: BarrierContext, results: nat -> int) returns (done: nat)
      requires index.Valid() && Awaits(b) && b.results == [] && b.callback == EvictionEnds
      modifies this`pending, this`postDoom, b, index`evictionInProgress
      ensures index.Valid() && !index.evictionInProgress && done == 1
      ensures b.Valid() && |b.results| == b.expected && |b.runs| == 1
      ensures forall i | 0 <= i < b.expected :: b.results[i] == results(i)
      ensures pending == Others(old(pending), b)
    {
      hide Count, Others, Outcome, Total, Listed, Noted, FirstError;
      done := 0;
      var k: nat := 0;
      ghost var jobs := pending;
      while k < b.expected
        invariant index.Valid() && Awaits(b) && k == |b.results| <= b.expected
        invariant forall i | 0 <= i < k :: b.results[i] == results(i)
        invariant done == |b.runs| && (done > 0 ==> !index.evictionInProgress)
        invariant Others(pending, b) == Others(jobs, b)
      {
        var ran := CompleteOne(b, results(k));
        if ran {
          index.EvictionDone();
          done := done + 1;
        }
        k := k + 1;
      }
      b.RanOnce();
      NoJobLeft(pending, b);
    }

    /** Any one of the jobs that report to this barrier does so. */
    method CompleteOne(b: BarrierContext, result: int) returns (ran: bool)
      requires Awaits(b) && |b.results| < b.expected
      modifies this`pending, this`postDoom, b
      ensures Awaits(b) && b.results == old(b.results) + [result]
      ensures |b.runs| == |old(b.runs)| + (if ran then 1 else 0)
      ensures Others(pending, b) == Others(old(pending), b)
    {
      hide Count, Outcome;
      SomeJob(pending, b);
      var i :| 0 <= i < |pending| && pending[i].barrier == b;
      JobDone(pending, i, b);
      ran := Complete(i, result);
    }

    /** The files are gone: operations waiting on these hashes may go on, and the barrier is told. */
    method DoomEntriesComplete(massed: seq<u64>, barrier: BarrierContext, result: int)
      requires barrier.Valid() && |barrier.results| < barrier.expected
      modifies this`postDoom, barrier
      ensures postDoom == old(postDoom) - Members(massed)
      ensures barrier.runs == old(barrier.runs)
           || (|barrier.runs| == |old(barrier.runs)| + 1 && barrier.runs[..|old(barrier.runs)|] == old(barrier.runs))
      ensures barrier.Valid() && barrier.results == old(barrier.results) + [result]
    {
      postDoom := postDoom - Members(massed);
      barrier.Notify(result);
    }
  }

  /** Removing both parts of a list is removing the list. */
  lemma BothParts(es: EntrySet, calls: seq<IndexCall>, initialized: bool, a: seq<u64>, b: seq<u64>, hs: seq<u64>)
    requires multiset(a) + multiset(b) == multiset(hs)
    ensures Without(Without(es, a), b) == Without(es, hs)
    ensures NotesRemovals(calls, AfterRemovals(AfterRemovals(calls, initialized, a), initialized, b), initialized, hs)
  {
    hide Without, AfterRemovals, NotesRemovals;
    SameMembers(a, b, hs);
    WithoutBoth(es, a, b);
    WithoutSame(es, a + b, hs);
    RemovalsBoth(calls, initialized, a, b);
    RemovalsNoted(calls, initialized, a + b);
    NotedSame(calls, AfterRemovals(calls, initialized, a + b), initialized, a + b, hs);
  }

  function Members(hs: seq<u64>): set<u64> {
    set h | h in hs
  }

  lemma NoneYet(jobs: seq<Job>, b: BarrierContext)
    requires forall i | 0 <= i < |jobs| :: jobs[i].barrier != b
    ensures Count(jobs, b) == 0
  {
    SomeJob(jobs, b);
  }

  lemma {:induction false} NoJobLeft(jobs: seq<Job>, b: BarrierContext)
    requires Count(jobs, b) == 0
    ensures Others(jobs, b) == jobs
  {
    if jobs != [] {
      NoJobLeft(jobs[..|jobs| - 1], b);
    }
  }

  lemma NoRemovals(calls: seq<IndexCall>, initialized: bool)
    ensures AfterRemovals(calls, initialized, []) == calls
    ensures NotesRemovals(calls, calls, initialized, [])
  {
  }

  lemma MembersNone()
    ensures Members([]) == {}
  {
  }

  lemma MembersNext(hs: seq<u64>, h: u64)
    ensures Members(hs + [h]) == Members(hs) + {h}
  {
  }

  lemma SwapRemove(s: seq<u64>, i: nat)
    requires i < |s|
    ensures multiset(s[i := s[|s| - 1]][..|s| - 1]) + multiset{s[i]} == multiset(s)
  {
    var last := |s| - 1;
    var short := s[i := s[last]][..last];
    if i == last {
      assert s == short + [s[last]];
    } else {
      assert short == s[..i] + [s[last]] + s[i + 1..last];
      assert s == s[..i] + [s[i]] + s[i + 1..last] + [s[last]];
      ReplacedByLast(s[..i], s[i], s[i + 1..last], s[last]);
    }
  }

  lemma ReplacedByLast(a: seq<u64>, x: u64, b: seq<u64>, y: u64)
    ensures multiset(a + [y] + b) + multiset{x} == multiset(a + [x] + b + [y])
  {
  }

  lemma SameMembers(a: seq<u64>, b: seq<u64>, c: seq<u64>)
    requires multiset(a) + multiset(b) == multiset(c)
    ensures forall h :: h in a + b <==> h in c
  {
    forall h
      ensures h in a + b <==> h in c
    {
      assert h in multiset(a) + multiset(b) <==> h in multiset(c);
    }
  }

  // ---------------------------------------------------------------------------
  // The completion barrier
  // ---------------------------------------------------------------------------

  const NET_OK: int := 0

  /** What the final callback has been run with after these results: the first error, OK once all are in, or nothing. */
  function Outcome(results: seq<int>, expected: nat): seq<int> {
    if results == [] then []
    else
      var before := Outcome(results[..|results| - 1], expected);
      var r := results[|results| - 1];
      if before != [] then before
      else if r != NET_OK then [r]
      else if |results| == expected then [NET_OK]
      else []
  }

  /** The first result that is not OK. */
  function FirstError(results: seq<int>): Option<int> {
    if results == [] then None
    else
      var before, last := FirstError(results[..|results| - 1]), results[|results| - 1];
      if before.Some? || last == NET_OK then before else Some(last)
  }

  lemma {:induction false} FirstErrorIs(results: seq<int>)
    ensures FirstError(results) == None <==> forall i | 0 <= i < |results| :: results[i] == 0
    ensures forall i | 0 <= i < |results| && results[i] != 0 && (forall j | 0 <= j < i :: results[j] == 0) ::
              FirstError(results) == Some(results[i])
  {
    if results != [] {
      var init := results[..|results| - 1];
      FirstErrorIs(init);
      assert forall j | 0 <= j < |init| :: init[j] == results[j];
    }
  }

  /** The callback runs at most once, with the first error, or with OK when the last result is in and all were OK. */
  lemma {:induction false} RunsOnce(results: seq<int>, expected: nat)
    requires |results| <= expected && expected > 0
    ensures Outcome(results, expected) == match FirstError(results)
                                          case Some(e) => [e]
                                          case None => if |results| == expected then [NET_OK] else []
  {
    if results != [] {
      RunsOnce(results[..|results| - 1], expected);
    }
  }

  /** What a final callback does: end the eviction in progress, or something of another caller's. */
  datatype Callback = EvictionEnds | SomethingElse

  class BarrierContext {
    const expected: nat
    const callback: Callback
    var count: nat
    var hadError: bool

    /** Arguments the final callback has been run with. */
    var runs: seq<int>
    ghost var results: seq<int>

    ghost predicate Valid()
      reads this
    {
      && 0 < expected && |results| <= expected
      && runs == Outcome(results, expected)
      && (hadError <==> exists i :: 0 <= i < |results| && results[i] != NET_OK)
      && (!hadError ==> count == |results|)
      && (hadError ==> runs != [])
      && (!hadError && |results| < expected ==> runs == [])
    }

    ghost predicate Fresh(n: nat)
      reads this
    {
      Valid() && expected == n && results == []
    }

    constructor (expected: nat, callback: Callback)
      requires expected > 0
      ensures Fresh(expected) && this.callback == callback && runs == []
    {
      this.expected, this.callback := expected, callback;
      count, hadError, runs := 0, false, [];
      results := [];
    }

    lemma RanAtMostOnce()
      requires Valid()
      ensures |runs| <= 1
    {
      hide Outcome, FirstError;
      RunsOnce(results, expected);
    }

    /** Once all results are in, the callback has run exactly once, with the first error or OK. */
    lemma RanOnce()
      requires Valid() && |results| == expected
      ensures |runs| == 1 && runs[0] == match FirstError(results) case Some(e) => e case None => NET_OK
    {
      hide Outcome, FirstError;
      RunsOnce(results, expected);
    }

    /** One operation reports; after an error the rest is ignored. */
    method Notify(result: int)
      requires Valid() && |results| < expected
      modifies this
      ensures Valid() && results == old(results) + [result]
      ensures runs == old(runs) || (|runs| == |old(runs)| + 1 && runs[..|old(runs)|] == old(runs))
    {
      ghost var before := results;
      results := results + [result];
      assert results[..|results| - 1] == before;
      assert results[|before|] == result;
      assert forall i | 0 <= i < |before| :: results[i] == before[i];
      if hadError {
        return;
      }
      if result != NET_OK {
        hadError := true;
        runs := runs + [result];
        return;
      }
      count := count + 1;
      if count == expected {
        runs := runs + [NET_OK];
      }
    }
  }

  /** Add up the sizes of all entries. */
  method SumSizes(es: EntrySet) returns (size: nat)
    ensures size == Total(es)
  {
    hide Total;
    size := 0;
    var left: EntrySet := es;
    while left != map[]
      invariant size + Total(left) == Total(es)
      invariant forall h: u64 | h in left :: h in es && left[h] == es[h]
      decreases |left|
    {
      var h :| h in left;
      TotalRemove(left, h);
      size := size + EntrySize(left[h]);
      left := left - {h};
    }
    TotalEmpty();
  }
}
