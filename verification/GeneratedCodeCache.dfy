/**
 The code cache as an object: requests and completion callbacks change its queues, the disk and the
 list of callbacks run. Each method is proved to take exactly one step of the model.
 */
module GeneratedCodeCache {
  import opened ByteSeqs
  import opened CodeCacheModel
  import opened CodeCacheProof

  class CodeCache {
    const config: Config
    var activeEntries: map<Key, seq<Op>>
    var phases: map<Key, Phase>
    var disk: map<Key, Rec>
    var callbacks: seq<Callback>

    /** Requests accepted so far. */
    var history: seq<Call>

    ghost function Abs(): State
      reads this
    {
      State(activeEntries, phases, disk, callbacks, history)
    }

    ghost predicate Valid()
      reads this
    {
      Inv(config, Abs())
    }

    constructor (config: Config)
      ensures this.config == config && Abs() == Initial && Valid()
    {
      this.config := config;
      activeEntries, phases, disk, callbacks, history := map[], map[], map[], [], [];
      new;
      InitialInv(config);
    }

    /** The cache starts again on the disk of one that has come to rest. */
    constructor Restarted(before: CodeCache)
      requires before.Valid() && before.activeEntries == map[]
      ensures config == before.config && Abs() == Restart(before.Abs()) && Valid()
    {
      config := before.config;
      activeEntries, phases, disk, callbacks, history := map[], map[], before.disk, [], Kept(before.history);
      new;
      RestartStarts(config, before.Abs());
    }

    /** Take the front operation off its queue; the queue is deleted when it becomes empty. */
    method DequeueOperation(k: Key) returns (op: Op)
      requires k in activeEntries && activeEntries[k] != []
      modifies this`activeEntries
      ensures op == old(activeEntries[k])[0]
      ensures activeEntries == if |old(activeEntries[k])| == 1 then old(activeEntries) - {k}
                               else old(activeEntries)[k := old(activeEntries[k])[1..]]
    {
      op := activeEntries[k][0];
      var rest := activeEntries[k][1..];
      activeEntries := activeEntries[k := rest];
      if rest == [] {
        activeEntries := activeEntries - {k};
      }
    }

    /** Issue what is at the front; deletes take effect at once, one after the other. */
    method IssueNextOperation(k: Key)
      requires NoEmptyQueue(Abs())
      modifies this`activeEntries, this`phases, this`disk
      ensures Abs() == With(old(Abs()), k, Settle(At(old(Abs()), k).q, At(old(Abs()), k).rec))
    {
      ghost var s0 := Abs();
      while k in activeEntries && activeEntries[k][0].Delete?
        invariant NoEmptyQueue(Abs())
        invariant callbacks == s0.callbacks && history == s0.history && phases == s0.phases
        invariant Settle(At(s0, k).q, At(s0, k).rec) == Settle(At(Abs(), k).q, At(Abs(), k).rec)
        invariant forall j: Key | j != k ::
                    Get(activeEntries, j) == Get(s0.queues, j) && Get(disk, j) == Get(s0.disk, j)
        decreases |At(Abs(), k).q|
      {
        disk := disk - {k};
        var op := DequeueOperation(k);
      }
      if k in activeEntries {
        phases := phases[k := Opening];
      } else {
        phases := phases - {k};
      }
      SameState(Abs(), With(s0, k, Settle(At(s0, k).q, At(s0, k).rec)));
    }

    method CloseOperationAndIssueNext(k: Key)
      requires NoEmptyQueue(Abs()) && k in activeEntries
      modifies this`activeEntries, this`phases, this`disk
      ensures Abs() == With(old(Abs()), k, CloseFront(At(old(Abs()), k)))
    {
      ghost var s0 := Abs();
      var op := DequeueOperation(k);
      IssueNextOperation(k);
      SameState(Abs(), With(s0, k, CloseFront(At(s0, k))));
    }

    method EnqueueOperationAndIssueIfNext(k: Key, op: Op)
      requires NoEmptyQueue(Abs())
      modifies this`activeEntries, this`phases, this`disk
      ensures Abs() == With(old(Abs()), k, Enqueue(At(old(Abs()), k), op)) && NoEmptyQueue(Abs())
    {
      ghost var s0 := Abs();
      if k in activeEntries {
        activeEntries := activeEntries[k := activeEntries[k] + [op]];
      } else {
        activeEntries := activeEntries[k := [op]];
        IssueNextOperation(k);
      }
      SameState(Abs(), With(s0, k, Enqueue(At(s0, k), op)));
      WithNoEmptyQueue(s0, k, Enqueue(At(s0, k), op));
    }

    // -------------------------------------------------------------------------
    // Requests
    // -------------------------------------------------------------------------

    /** Store code under a resource key; oversized data is dropped. */
    method WriteEntry(k: Key, item: Item)
      requires Valid() && Enabled(config, Abs(), Client(WriteCall(k, item)))
      modifies this
      ensures Valid() && Step(config, old(Abs()), Client(WriteCall(k, item)), Abs())
      ensures |item.data| < 0x7fff_ffff ==> history == old(history) + [WriteCall(k, item)]
      ensures |item.data| >= 0x7fff_ffff ==> Abs() == old(Abs())
    {
      hide Inv, Enabled, Enqueue, With, Encode, ShaKey;
      ghost var s0, call := Abs(), WriteCall(k, item);
      StepKeepsInv(config, s0, Client(call));
      NoEmptyQueueOf(config, s0);
      if |item.data| >= INT_MAX {
        return;
      }
      history := history + [WriteCall(k, item)];
      if ShouldDeduplicate(config, |item.data|) {
        EnqueueOperationAndIssueIfNext(ShaKey(config, item.data), WriteSha(item.data));
      }
      EnqueueOperationAndIssueIfNext(k, Write(Encode(config, item)));
    }

    /** Ask for the code under a resource key; `id` names the request. */
    method FetchEntry(k: Key) returns (id: nat)
      requires Valid() && Enabled(config, Abs(), Client(FetchCall(k)))
      modifies this
      ensures Valid() && Step(config, old(Abs()), Client(FetchCall(k)), Abs())
      ensures id == |old(history)| && history == old(history) + [FetchCall(k)]
    {
      hide Inv, Enabled, Enqueue, With;
      ghost var s0 := Abs();
      StepKeepsInv(config, s0, Client(FetchCall(k)));
      NoEmptyQueueOf(config, s0);
      id := |history|;
      history := history + [FetchCall(k)];
      AtNoted(s0, FetchCall(k), k);
      EnqueueOperationAndIssueIfNext(k, Fetch(id));
      WithFrame(s0.(history := s0.history + [FetchCall(k)]), k, Enqueue(At(s0, k), Fetch(id)));
    }

    method DeleteEntry(k: Key)
      requires Valid() && Enabled(config, Abs(), Client(DeleteCall(k)))
      modifies this
      ensures Valid() && Step(config, old(Abs()), Client(DeleteCall(k)), Abs())
      ensures history == old(history) + [DeleteCall(k)]
    {
      hide Inv, Enabled, Enqueue, With;
      ghost var s0 := Abs();
      StepKeepsInv(config, s0, Client(DeleteCall(k)));
      NoEmptyQueueOf(config, s0);
      history := history + [DeleteCall(k)];
      AtNoted(s0, DeleteCall(k), k);
      EnqueueOperationAndIssueIfNext(k, Delete);
    }

    // -------------------------------------------------------------------------
    // Completions
    // -------------------------------------------------------------------------

    /** The entry of the front operation has been opened, created or found missing. */
    method OpenComplete(k: Key)
      requires Valid() && Enabled(config, Abs(), OpenDone(k))
      modifies this
      ensures Valid() && Step(config, old(Abs()), OpenDone(k), Abs())
    {
      hide Inv, GoodEffect, Settle;
      ghost var s0 := Abs();
      StepKeepsInv(config, s0, OpenDone(k));
      NoEmptyQueueOf(config, s0);
      var op := activeEntries[k][0];
      if IsRead(op) {
        if k !in disk {
          callbacks := callbacks + [Callback(FrontId(op), 0, [])];
          CloseOperationAndIssueNext(k);
        } else {
          phases := phases[k := Reading(false, true)];
        }
      } else {
        if k !in disk {
          disk := disk[k := Rec([], [])];
        }
        if op.WriteSha? && disk[k].small == [] && |disk[k].large| == |op.data| {
          CloseOperationAndIssueNext(k);
        } else {
          phases := phases[k := Writing(false, false)];
        }
      }
      SameState(Abs(), Apply(s0, k, OnOpened(At(s0, k))));
    }

    /** The small stream of the front operation has been read or written. */
    method SmallBufferComplete(k: Key)
      requires Valid() && Enabled(config, Abs(), SmallDone(k))
      modifies this
      ensures Valid() && Step(config, old(Abs()), SmallDone(k), Abs())
    {
      hide Inv, GoodEffect, Settle, FinishRead, IsValidHeader;
      ghost var s0 := Abs();
      StepKeepsInv(config, s0, SmallDone(k));
      CompletionGood(config, s0, SmallDone(k));
      NoEmptyQueueOf(config, s0);
      var op := activeEntries[k][0];
      if phases[k].Writing? {
        disk := disk[k := disk[k].(small := SmallOf(op))];
        if phases[k].largeDone {
          CloseOperationAndIssueNext(k);
        } else {
          phases := phases[k := Writing(true, false)];
        }
      } else {
        var ok := op.FetchSha? || IsValidHeader(config, disk[k].small);
        if disk[k].large == [] {
          SecondElsewhere(config, s0, k, OnSmall(config, At(s0, k)));
          ReadComplete(k, ok);
        } else {
          phases := phases[k := Reading(true, ok)];
        }
      }
      SameState(Abs(), Apply(s0, k, OnSmall(config, At(s0, k))));
    }

    /** The large stream of the front operation has been read or written. */
    method LargeBufferComplete(k: Key)
      requires Valid() && Enabled(config, Abs(), LargeDone(k))
      modifies this
      ensures Valid() && Step(config, old(Abs()), LargeDone(k), Abs())
    {
      hide Inv, GoodEffect, Settle, FinishRead, IsValidHeader;
      ghost var s0 := Abs();
      StepKeepsInv(config, s0, LargeDone(k));
      CompletionGood(config, s0, LargeDone(k));
      NoEmptyQueueOf(config, s0);
      var op := activeEntries[k][0];
      if phases[k].Writing? {
        disk := disk[k := disk[k].(large := LargeOf(op))];
        if phases[k].smallDone {
          CloseOperationAndIssueNext(k);
        } else {
          phases := phases[k := Writing(false, true)];
        }
      } else {
        SecondElsewhere(config, s0, k, OnLarge(config, At(s0, k)));
        ReadComplete(k, phases[k].succeeded);
      }
      SameState(Abs(), Apply(s0, k, OnLarge(config, At(s0, k))));
    }

    /** Both streams are there: run the callback, or go on to the data's checksum key. */
    method ReadComplete(k: Key, succeeded: bool)
      requires NoEmptyQueue(Abs()) && k in activeEntries && k in disk
      requires var e := FinishRead(config, At(Abs(), k), succeeded); e.second.Some? ==> e.second.value.0 != k
      modifies this
      ensures Abs() == Apply(old(Abs()), k, FinishRead(config, At(old(Abs()), k), succeeded))
    {
      hide Settle, IsValidHeader, Enqueue;
      ghost var s0 := Abs();
      var op, small, large := activeEntries[k][0], disk[k].small, disk[k].large;
      var time, size := HeaderTime(small), HeaderSize(small);
      if !succeeded {
        callbacks := callbacks + [Callback(FrontId(op), 0, [])];
        disk := disk - {k};
      } else if op.FetchSha? {
        callbacks := callbacks + [Callback(op.id, op.time, large)];
      } else if size <= INLINE_DATA_LIMIT {
        callbacks := callbacks + [Callback(FrontId(op), time, Payload(small))];
      } else if !ShouldDeduplicate(config, size) {
        callbacks := callbacks + [Callback(FrontId(op), time, large)];
      } else {
        EnqueueOperationAndIssueIfNext(Payload(small), FetchSha(FrontId(op), time, size));
      }
      CloseOperationAndIssueNext(k);
      SameState(Abs(), Apply(s0, k, FinishRead(config, At(s0, k), succeeded)));
    }

  }

  /** States that agree on every key, and whose maps hold no empty queue, are the same. */
  lemma SameState(s: State, t: State)
    requires s.callbacks == t.callbacks && s.history == t.history
    requires forall j: Key :: Get(s.queues, j) == Get(t.queues, j)
    requires forall j: Key :: Get(s.phases, j) == Get(t.phases, j) && Get(s.disk, j) == Get(t.disk, j)
    ensures s == t
  {
    SameMap(s.queues, t.queues);
    SameMap(s.phases, t.phases);
    SameMap(s.disk, t.disk);
  }

  lemma SameMap<V>(a: map<Key, V>, b: map<Key, V>)
    requires forall j: Key :: Get(a, j) == Get(b, j)
    ensures a == b
  {
    assert forall j: Key :: (j in a <==> j in b) && (j in a ==> a[j] == b[j]) by {
      forall j: Key ensures (j in a <==> j in b) && (j in a ==> a[j] == b[j]) { assert Get(a, j) == Get(b, j); }
    }
  }

  lemma NoEmptyQueueOf(c: Config, s: State)
    requires Inv(c, s)
    ensures NoEmptyQueue(s)
  {
  }

  lemma AtNoted(s: State, call: Call, k: Key)
    ensures At(s.(history := s.history + [call]), k) == At(s, k)
    ensures NoEmptyQueue(s.(history := s.history + [call])) <==> NoEmptyQueue(s)
  {
  }

  /** The second operation of an indirect fetch goes to another key. */
  lemma SecondElsewhere(c: Config, s: State, k: Key, e: Effect)
    requires GoodEffect(c, s.history, k, At(s, k), e)
    ensures e.second.Some? ==> e.second.value.0 != k
  {
    hide KeyOk, Available, AnswerOk;
    if e.second.Some? {
      SecondKey(c, s.history, e.second.value.0, e.second.value.1);
    }
  }
}
