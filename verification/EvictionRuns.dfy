/**
 The index and its backend together, while evictions and other dooms are under way: operations on the index and
 reports of single jobs come in any order, and an eviction may end on its first error while its other jobs go on.
 */
module EvictionRuns {
  import opened ByteSeqs
  import opened IndexModel
  import opened SimpleIndex

  /** What can happen to an index. */
  datatype IndexOp =
    | Listing(hash: u64, now: u32)
    | Delisting(hash: u64)
    | Used(hash: u64, now: u32)
    | HintsSet(hash: u64, value: nat)
    | TrailerSet(hash: u64, prefetch: int)
    | SizeSet(hash: u64, size: u64, now: u32)
    | LimitSet(bytes: u64, now: u32)
    | FileLoaded(entries: EntrySet)

  /** What callers keep to: two hint bits, and prefetch sizes of type `int32_t` in the app cache only. */
  predicate Allowed(ct: CacheType, op: IndexOp) {
    match op
    case HintsSet(_, value) => value <= 3
    case TrailerSet(_, size) => ct.AppCache? && -0x8000_0000 <= size <= 0x7fff_ffff
    case _ => true
  }

  /** An operation, a doom that another caller asks for, or the report of one job under way. */
  datatype Event = OnIndex(op: IndexOp) | Doomed(hashes: seq<u64>) | Reported(job: nat, result: int)

  class Cache {
    const index: Index
    const backend: Backend

    /** The barrier of the most recent eviction. */
    var latest: BarrierContext?

    /** Every job under way is awaited by its barrier, and the callbacks of all evictions but the latest have run. */
    ghost predicate JobsOk()
      reads this, backend, latest, set i | 0 <= i < |backend.pending| :: backend.pending[i].barrier
    {
      && (forall i | 0 <= i < |backend.pending| :: backend.Awaits(backend.pending[i].barrier))
      && (forall i | 0 <= i < |backend.pending| ::
            var b := backend.pending[i].barrier; b.callback == EvictionEnds && b != latest ==> b.runs != [])
      && (latest != null ==> latest.callback == EvictionEnds && backend.Awaits(latest))
    }

    /** Moreover, an eviction is in progress exactly while the callback of the latest one has not run. */
    ghost predicate Valid()
      reads this, index, backend, latest, set i | 0 <= i < |backend.pending| :: backend.pending[i].barrier
    {
      && backend.index == index && index.Valid() && JobsOk()
      && (index.evictionInProgress <==> latest != null && latest.runs == [])
    }

    constructor (cacheType: CacheType, policy: Policy)
      requires policy.factor > 0
      ensures Valid() && index.cacheType == cacheType && index.policy == policy && latest == null
      ensures fresh(index) && fresh(backend) && backend.pending == []
    {
      var i := new Index(cacheType, policy);
      index := i;
      backend := new Backend(i);
      latest := null;
    }

    /** An eviction in progress still has a job under way: it cannot be stuck. */
    lemma NotStuck()
      requires Valid() && index.evictionInProgress
      ensures latest != null && exists i :: 0 <= i < |backend.pending| && backend.pending[i].barrier == latest
    {
      hide Count, Outcome, Total, Listed, Noted;
      SomeJob(backend.pending, latest);
      if Count(backend.pending, latest) == 0 {
        latest.RanOnce();
      }
    }

    /** One job reports; the callback of an eviction ends it. */
    method Report(i: nat, result: int)
      requires Valid() && i < |backend.pending|
      modifies index`evictionInProgress, backend`pending, backend`postDoom, backend.pending[i].barrier
      ensures Valid() && backend.pending == old(backend.pending)[..i] + old(backend.pending)[i + 1..]
      ensures var b := old(backend.pending[i].barrier);
              && b.results == old(b.results) + [result]
              && index.evictionInProgress == (old(index.evictionInProgress) && !(b == latest && b.runs != []))
    {
      hide Count, Outcome, Total, Listed, Noted;
      var b := backend.pending[i].barrier;
      var ran := Finish(i, result);
      if ran && b.callback == EvictionEnds {
        index.EvictionDone();
      }
    }

    /** The report itself: the callback runs if it is due, for an eviction only if it is the latest. */
    method Finish(i: nat, result: int) returns (ran: bool)
      requires JobsOk() && i < |backend.pending|
      modifies backend`pending, backend`postDoom, backend.pending[i].barrier
      ensures JobsOk() && backend.pending == old(backend.pending)[..i] + old(backend.pending)[i + 1..]
      ensures var b := old(backend.pending[i].barrier);
              && b.results == old(b.results) + [result]
              && (if ran then b.runs != [] && old(b.runs) == [] else b.runs == [] <==> old(b.runs) == [])
              && (ran && b.callback == EvictionEnds ==> b == latest)
    {
      hide Count, Outcome;
      var b := backend.pending[i].barrier;
      ghost var jobs := backend.pending;
      b.RanAtMostOnce();
      CountsAfter(jobs, i);
      ran := backend.Complete(i, result);
      b.RanAtMostOnce();
      assert forall j | 0 <= j < |backend.pending| :: backend.pending[j] == jobs[if j < i then j else j + 1];
    }

    /** Set an entry's size, which may start an eviction. */
    method SetSize(hash: u64, size: u64, now: u32)
      requires Valid()
      modifies index, backend`pending, backend`postDoom, this`latest
      ensures Valid()
      ensures if latest == old(latest) then index.evictionInProgress == old(index.evictionInProgress)
              else fresh(latest) && !old(index.evictionInProgress) && index.evictionInProgress
      ensures forall i | 0 <= i < |backend.pending| ::
                backend.pending[i] in old(backend.pending) || fresh(backend.pending[i].barrier)
    {
      hide Count, Outcome, Total, Listed, Noted, EvictionOutcome, NotesRemovals, Without;
      ghost var jobs := backend.pending;
      var known, evicted, b := index.UpdateEntrySize(hash, size, backend, now);
      if b != null {
        forall c: BarrierContext | c != b { JoinedCount(jobs, backend.pending, b, c); }
        OldJobs(jobs, backend.pending, b);
        latest := b;
      }
    }

    /** Set the limit, which may start an eviction. */
    method SetLimit(bytes: u64, now: u32)
      requires Valid()
      modifies index, backend`pending, backend`postDoom, this`latest
      ensures Valid()
      ensures if latest == old(latest) then index.evictionInProgress == old(index.evictionInProgress)
              else fresh(latest) && !old(index.evictionInProgress) && index.evictionInProgress
      ensures forall i | 0 <= i < |backend.pending| ::
                backend.pending[i] in old(backend.pending) || fresh(backend.pending[i].barrier)
    {
      hide Count, Outcome, Total, Listed, Noted, EvictionOutcome, NotesRemovals, Without;
      ghost var jobs := backend.pending;
      var evicted, b := index.SetMaxSize(bytes, backend, now);
      if b != null {
        forall c: BarrierContext | c != b { JoinedCount(jobs, backend.pending, b, c); }
        OldJobs(jobs, backend.pending, b);
        latest := b;
      }
    }

    /** Doom entries for another caller. */
    method Doom(hashes: seq<u64>)
      requires Valid()
      modifies index`entries, index`cacheSize, index`removed, index`calls, backend`pending, backend`postDoom
      ensures Valid()
      ensures forall i | 0 <= i < |backend.pending| ::
                backend.pending[i] in old(backend.pending) || fresh(backend.pending[i].barrier)
    {
      hide Count, Outcome, Total, Listed, Noted, NotesRemovals, Without;
      ghost var jobs := backend.pending;
      var individually, massed, b := backend.DoomEntries(hashes, SomethingElse);
      forall c: BarrierContext | c != b { JoinedCount(jobs, backend.pending, b, c); }
      OldJobs(jobs, backend.pending, b);
    }

    /** Any operation on the index. */
    method Operate(op: IndexOp)
      requires Valid() && Allowed(index.cacheType, op)
      modifies index, backend`pending, backend`postDoom, this`latest
      ensures Valid()
      ensures if latest == old(latest) then index.evictionInProgress == old(index.evictionInProgress)
              else fresh(latest) && !old(index.evictionInProgress) && index.evictionInProgress
      ensures forall i | 0 <= i < |backend.pending| ::
                backend.pending[i] in old(backend.pending) || fresh(backend.pending[i].barrier)
    {
      hide Count, Outcome, Total, Listed, Noted;
      match op {
        case Listing(hash, now) => index.Insert(hash, now);
        case Delisting(hash) => index.Remove(hash);
        case Used(hash, now) => var found := index.UseIfExists(hash, now);
        case HintsSet(hash, value) => index.SetEntryInMemoryData(hash, value);
        case TrailerSet(hash, prefetch) => index.SetTrailerPrefetchSize(hash, prefetch);
        case SizeSet(hash, size, now) => SetSize(hash, size, now);
        case LimitSet(bytes, now) => SetLimit(bytes, now);
        case FileLoaded(loaded) => if !index.initialized { index.MergeInitializingSet(loaded); }
      }
    }

    /** One event; a report of a job that does not exist changes nothing. */
    method Happen(e: Event)
      requires Valid() && Possible(index.cacheType, e)
      modifies this`latest, index, backend, set i | 0 <= i < |backend.pending| :: backend.pending[i].barrier
      ensures Valid()
      ensures forall i | 0 <= i < |backend.pending| ::
                backend.pending[i] in old(backend.pending) || fresh(backend.pending[i].barrier)
    {
      hide Count, Outcome, Total, Listed, Noted;
      match e {
        case OnIndex(op) => Operate(op);
        case Doomed(hashes) => Doom(hashes);
        case Reported(job, result) => if job < |backend.pending| { Report(job, result); }
      }
    }

    /**
     Any interleaving of operations, other dooms and reports: the size stays the sum, and an eviction is in progress
     exactly while the latest eviction's callback has not run, also when old jobs report after a first error.
     */
    method RunAll(events: seq<Event>)
      requires Valid() && forall i | 0 <= i < |events| :: Possible(index.cacheType, events[i])
      modifies this, index, backend, set i | 0 <= i < |backend.pending| :: backend.pending[i].barrier
      ensures Valid() && index.cacheSize == Total(index.entries)
      ensures index.evictionInProgress <==> latest != null && latest.runs == []
    {
      hide Count, Outcome, Total, Listed, Noted;
      ghost var jobs := backend.pending;
      var i := 0;
      while i < |events|
        invariant i <= |events| && Valid()
        invariant forall k | 0 <= k < |backend.pending| ::
                    backend.pending[k] in jobs || fresh(backend.pending[k].barrier)
      {
        assert Possible(index.cacheType, events[i]);
        Happen(events[i]);
        i := i + 1;
      }
    }
  }

  /** A job done counts for its own barrier only. */
  lemma CountsAfter(jobs: seq<Job>, i: nat)
    requires i < |jobs|
    ensures forall c: BarrierContext ::
              Count(jobs[..i] + jobs[i + 1..], c) + (if jobs[i].barrier == c then 1 else 0) == Count(jobs, c)
  {
    hide Count;
    forall c: BarrierContext { JobDone(jobs, i, c); }
  }

  predicate Possible(ct: CacheType, e: Event) {
    e.OnIndex? ==> Allowed(ct, e.op)
  }

  /** The jobs before are still there, and any other job is new. */
  lemma OldJobs(before: seq<Job>, after: seq<Job>, b: BarrierContext)
    requires Joined(before, after, b)
    ensures forall i | 0 <= i < |after| :: if i < |before| then after[i] == before[i] else after[i].barrier == b
  {
    assert forall i | 0 <= i < |before| :: after[i] == after[..|before|][i];
  }
}
