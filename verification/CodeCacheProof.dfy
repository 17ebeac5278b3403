/**
 The code cache answers every fetch once, with the last write to its key that was requested
 before it: an invariant of every reachable state, proved key by key.
 */
module CodeCacheProof {
  import opened ByteSeqs
  import opened CodeCacheModel

  // ---------------------------------------------------------------------------
  // The invariant, one key at a time
  // ---------------------------------------------------------------------------

  function EncodeOpt(c: Config, v: Option<Item>): Option<Rec> {
    match v case None => None case Some(item) => Some(Encode(c, item))
  }

  /** The disk entry that operation `i` of a queue will find, once those before it are done. */
  function Seen(q: seq<Op>, rec: Option<Rec>, i: nat): Option<Rec>
    requires i <= |q|
  {
    if i == 0 then rec
    else match q[i - 1]
      case Write(r) => Some(r)
      case Delete => None
      case _ => Seen(q, rec, i - 1)
  }

  ghost predicate ResourceOpOk(c: Config, h: seq<Call>, k: Key, q: seq<Op>, rec: Option<Rec>, i: nat)
    requires i < |q|
  {
    match q[i]
    case Fetch(id) => id < |h| && h[id] == FetchCall(k) && Seen(q, rec, i) == EncodeOpt(c, Expected(h, id))
    case Write(_) => true
    case Delete => true
    case _ => false
  }

  /** Every queued fetch will find what it should, and so will a fetch queued now. */
  ghost predicate ResourceQueueOk(c: Config, h: seq<Call>, k: Key, q: seq<Op>, rec: Option<Rec>) {
    && (forall i | 0 <= i < |q| :: ResourceOpOk(c, h, k, q, rec, i))
    && Seen(q, rec, |q|) == EncodeOpt(c, LastWrite(h, k))
  }

  ghost predicate ResourcePhaseOk(op: Op, p: Phase, rec: Option<Rec>) {
    match op
    case Write(r) =>
      || p.Opening?
      || (p.Writing? && rec.Some? && !(p.smallDone && p.largeDone)
          && (p.smallDone ==> rec.value.small == r.small) && (p.largeDone ==> rec.value.large == r.large))
    case Fetch(_) =>
      || p.Opening?
      || (p.Reading? && rec.Some? && (p.smallDone ==> p.succeeded))
    case _ => false
  }

  /** Only the front operation of a queue is in flight, and an idle key has no queue. */
  ghost predicate ResourceOk(c: Config, h: seq<Call>, k: Key, l: Local) {
    && (l.q == [] <==> l.phase == None)
    && ResourceQueueOk(c, h, k, l.q, l.rec)
    && (l.q != [] ==> ResourcePhaseOk(l.q[0], l.phase.value, l.rec))
  }

  /** `d` is large data some client wrote, and `k` is its checksum key. */
  ghost predicate LargeData(c: Config, h: seq<Call>, k: Key, d: Bytes) {
    && ShouldDeduplicate(c, |d|) && ShaKey(c, d) == k
    && exists n :: 0 <= n < |h| && IsLargeWrite(c, h[n]) && h[n].item.data == d
  }

  /** Operation `i` of a checksum queue will find the data on disk. */
  ghost predicate Available(q: seq<Op>, rec: Option<Rec>, i: nat)
    requires i <= |q|
  {
    (rec.Some? && rec.value.large != []) || exists j :: 0 <= j < i && q[j].WriteSha?
  }

  ghost predicate ShaOpOk(c: Config, h: seq<Call>, k: Key, q: seq<Op>, rec: Option<Rec>, i: nat)
    requires i < |q|
  {
    match q[i]
    case WriteSha(d) => LargeData(c, h, k, d)
    case FetchSha(id, time, size) =>
      && id < |h| && h[id].FetchCall?
      && Expected(h, id).Some? && Expected(h, id).value.time == time && |Expected(h, id).value.data| == size
      && LargeData(c, h, k, Expected(h, id).value.data)
      && Available(q, rec, i)
    case _ => false
  }

  ghost predicate ShaRecOk(c: Config, h: seq<Call>, k: Key, rec: Option<Rec>) {
    rec.Some? ==> rec.value.small == [] && (rec.value.large == [] || LargeData(c, h, k, rec.value.large))
  }

  ghost predicate ShaPhaseOk(op: Op, p: Phase, rec: Option<Rec>) {
    match op
    case WriteSha(d) =>
      || p.Opening?
      || (p.Writing? && rec.Some? && !(p.smallDone && p.largeDone) && (p.largeDone ==> rec.value.large == d))
    case FetchSha(_, _, _) =>
      || p.Opening?
      || (p.Reading? && rec.Some? && (p.smallDone ==> p.succeeded))
    case _ => false
  }

  ghost predicate ShaOk(c: Config, h: seq<Call>, k: Key, l: Local) {
    && (l.q == [] <==> l.phase == None)
    && ShaRecOk(c, h, k, l.rec)
    && (forall i | 0 <= i < |l.q| :: ShaOpOk(c, h, k, l.q, l.rec, i))
    && (l.q != [] ==> ShaPhaseOk(l.q[0], l.phase.value, l.rec))
  }

  ghost predicate KeyOk(c: Config, h: seq<Call>, k: Key, l: Local) {
    if IsResourceKey(k) then ResourceOk(c, h, k, l) else ShaOk(c, h, k, l)
  }

  // ---------------------------------------------------------------------------
  // Queues
  // ---------------------------------------------------------------------------

  lemma {:induction false} SeenTail(q: seq<Op>, rec: Option<Rec>, i: nat)
    requires 0 < i <= |q|
    ensures Seen(q[1..], Seen(q, rec, 1), i - 1) == Seen(q, rec, i)
  {
    if i > 1 {
      SeenTail(q, rec, i - 1);
      assert q[1..][i - 2] == q[i - 1];
    }
  }

  lemma {:induction false} SeenPrefix(q: seq<Op>, op: Op, rec: Option<Rec>, i: nat)
    requires i <= |q|
    ensures Seen(q + [op], rec, i) == Seen(q, rec, i)
  {
    if i > 0 {
      SeenPrefix(q, op, rec, i - 1);
    }
  }

  /** Once the front operation is done, the rest of the queue sees what it saw before. */
  lemma ResourceTailOk(c: Config, h: seq<Call>, k: Key, q: seq<Op>, rec: Option<Rec>)
    requires ResourceQueueOk(c, h, k, q, rec) && q != []
    ensures ResourceQueueOk(c, h, k, q[1..], Seen(q, rec, 1))
  {
    hide Seen, EncodeOpt, LastWrite, Expected;
    var q', rec' := q[1..], Seen(q, rec, 1);
    forall i | 0 <= i < |q'|
      ensures ResourceOpOk(c, h, k, q', rec', i)
    {
      assert ResourceOpOk(c, h, k, q, rec, i + 1);
      SeenTail(q, rec, i + 1);
    }
    SeenTail(q, rec, |q|);
  }

  lemma {:induction false} SettleResource(c: Config, h: seq<Call>, k: Key, q: seq<Op>, rec: Option<Rec>)
    requires ResourceQueueOk(c, h, k, q, rec)
    ensures ResourceOk(c, h, k, Settle(q, rec))
    decreases |q|
  {
    hide EncodeOpt, LastWrite, Expected;
    if q != [] {
      assert ResourceOpOk(c, h, k, q, rec, 0);
      if q[0].Delete? {
        ResourceTailOk(c, h, k, q, rec);
        SettleResource(c, h, k, q[1..], None);
      }
    }
  }

  /** With a write at the front, the entry it is overwriting does not matter. */
  lemma {:induction false} SeenBehindWrite(q: seq<Op>, rec: Option<Rec>, rec': Option<Rec>, i: nat)
    requires 0 < i <= |q| && q[0].Write?
    ensures Seen(q, rec, i) == Seen(q, rec', i)
  {
    if i > 1 {
      SeenBehindWrite(q, rec, rec', i - 1);
    }
  }

  lemma RewriteFront(c: Config, h: seq<Call>, k: Key, q: seq<Op>, rec: Option<Rec>, rec': Option<Rec>)
    requires ResourceQueueOk(c, h, k, q, rec) && q != [] && q[0].Write?
    ensures ResourceQueueOk(c, h, k, q, rec')
  {
    hide Seen, EncodeOpt, LastWrite, Expected;
    forall i | 0 <= i < |q|
      ensures ResourceOpOk(c, h, k, q, rec', i)
    {
      assert ResourceOpOk(c, h, k, q, rec, i);
      if i > 0 { SeenBehindWrite(q, rec, rec', i); }
    }
    SeenBehindWrite(q, rec, rec', |q|);
  }

  /** `op` is the operation for the requests made between `h` and `h'`. */
  ghost predicate Fits(c: Config, h: seq<Call>, h': seq<Call>, k: Key, op: Op) {
    match op
    case Fetch(id) => id == |h| && id < |h'| && h'[id] == FetchCall(k) && LastWrite(h', k) == LastWrite(h, k)
    case Write(r) => Some(r) == EncodeOpt(c, LastWrite(h', k))
    case Delete => LastWrite(h', k) == None
    case _ => false
  }

  /** Adding an operation that leaves the right entry behind keeps the queue right. */
  lemma ResourceEnqueue(c: Config, h: seq<Call>, h': seq<Call>, k: Key, l: Local, op: Op)
    requires ResourceOk(c, h, k, l)
    requires |h| <= |h'| && h'[..|h|] == h
    requires Fits(c, h, h', k, op)
    ensures ResourceOk(c, h', k, Enqueue(l, op))
  {
    hide LastWrite, Encode;
    var q' := l.q + [op];
    forall i | 0 <= i < |q'|
      ensures ResourceOpOk(c, h', k, q', l.rec, i)
    {
      SeenPrefix(l.q, op, l.rec, i);
      if i < |l.q| {
        assert ResourceOpOk(c, h, k, l.q, l.rec, i);
        if l.q[i].Fetch? { ExpectedKept(h, h', l.q[i].id); }
      }
    }
    SeenPrefix(l.q, op, l.rec, |l.q|);
    assert ResourceQueueOk(c, h', k, q', l.rec);
    if l.q == [] {
      assert q' == [op];
      SettleResource(c, h', k, [op], l.rec);
    }
  }

  lemma ExpectedKept(h: seq<Call>, h': seq<Call>, id: nat)
    requires id < |h| <= |h'| && h'[..|h|] == h
    ensures h'[id] == h[id] && Expected(h', id) == Expected(h, id)
  {
    assert h'[..id] == h[..id];
  }

  /** Requests for other keys change nothing here. */
  lemma ResourceHistoryGrows(c: Config, h: seq<Call>, h': seq<Call>, k: Key, l: Local)
    requires ResourceOk(c, h, k, l) && |h| <= |h'| && h'[..|h|] == h && LastWrite(h', k) == LastWrite(h, k)
    ensures ResourceOk(c, h', k, l)
  {
    hide EncodeOpt, LastWrite, Seen, Expected;
    forall i | 0 <= i < |l.q|
      ensures ResourceOpOk(c, h', k, l.q, l.rec, i)
    {
      assert ResourceOpOk(c, h, k, l.q, l.rec, i);
      if l.q[i].Fetch? { ExpectedKept(h, h', l.q[i].id); }
    }
  }

  lemma LargeDataGrows(c: Config, h: seq<Call>, h': seq<Call>, k: Key, d: Bytes)
    requires LargeData(c, h, k, d) && |h| <= |h'| && h'[..|h|] == h
    ensures LargeData(c, h', k, d)
  {
    hide ShaKey;
    var n :| 0 <= n < |h| && IsLargeWrite(c, h[n]) && h[n].item.data == d;
    assert h'[..|h|][n] == h'[n];
  }

  lemma ShaHistoryGrows(c: Config, h: seq<Call>, h': seq<Call>, k: Key, l: Local)
    requires ShaOk(c, h, k, l) && |h| <= |h'| && h'[..|h|] == h
    ensures ShaOk(c, h', k, l)
  {
    hide LastWrite, Expected, LargeData;
    forall i | 0 <= i < |l.q|
      ensures ShaOpOk(c, h', k, l.q, l.rec, i)
    {
      assert ShaOpOk(c, h, k, l.q, l.rec, i);
      match l.q[i] {
        case WriteSha(d) => LargeDataGrows(c, h, h', k, d);
        case FetchSha(id, _, _) =>
          ExpectedKept(h, h', id);
          LargeDataGrows(c, h, h', k, Expected(h, id).value.data);
      }
    }
    if l.rec.Some? && l.rec.value.large != [] {
      LargeDataGrows(c, h, h', k, l.rec.value.large);
    }
  }

  lemma ShaEnqueue(c: Config, h: seq<Call>, k: Key, l: Local, op: Op)
    requires ShaOk(c, h, k, l) && !op.Delete?
    requires ShaOpOk(c, h, k, l.q + [op], l.rec, |l.q|)
    ensures ShaOk(c, h, k, Enqueue(l, op))
    ensures op.WriteSha? ==> Available(Enqueue(l, op).q, Enqueue(l, op).rec, |Enqueue(l, op).q|)
  {
    hide LastWrite, Expected, LargeData;
    var q' := l.q + [op];
    forall i | 0 <= i < |q'|
      ensures ShaOpOk(c, h, k, q', l.rec, i)
    {
      if i < |l.q| {
        assert ShaOpOk(c, h, k, l.q, l.rec, i);
        AvailablePrefix(l.q, op, l.rec, i);
      }
    }
    assert q'[|l.q|] == op;
    if l.q == [] { assert q' == [op]; }
  }

  lemma AvailablePrefix(q: seq<Op>, op: Op, rec: Option<Rec>, i: nat)
    requires i <= |q|
    ensures Available(q + [op], rec, i) <==> Available(q, rec, i)
  {
    assert forall j | 0 <= j < i :: (q + [op])[j] == q[j];
  }

  /** With the data on disk, closing the front operation keeps a checksum queue right. */
  lemma ShaCloseOk(c: Config, h: seq<Call>, k: Key, l: Local)
    requires l.q != [] && l.rec.Some? && l.rec.value.large != [] && ShaRecOk(c, h, k, l.rec)
    requires forall i | 0 <= i < |l.q| :: ShaOpOk(c, h, k, l.q, l.rec, i)
    ensures ShaOk(c, h, k, CloseFront(l)) && CloseFront(l).rec == l.rec
  {
    hide LastWrite, Expected, LargeData;
    var q' := l.q[1..];
    forall i | 0 <= i < |q'|
      ensures ShaOpOk(c, h, k, q', l.rec, i)
    {
      assert ShaOpOk(c, h, k, l.q, l.rec, i + 1);
    }
    if q' != [] { assert ShaOpOk(c, h, k, q', l.rec, 0); }
  }

  /** Data under one checksum key is unique. */
  lemma LargeDataUnique(c: Config, h: seq<Call>, k: Key, d: Bytes, d': Bytes)
    requires NoCollision(c, h) && LargeData(c, h, k, d) && LargeData(c, h, k, d')
    ensures d == d'
  {
    hide ShaKey;
    var m :| 0 <= m < |h| && IsLargeWrite(c, h[m]) && h[m].item.data == d;
    var n :| 0 <= n < |h| && IsLargeWrite(c, h[n]) && h[n].item.data == d';
    ShaKeyDecides(c, d, d');
  }

  // ---------------------------------------------------------------------------
  // Counting where a fetch is
  // ---------------------------------------------------------------------------

  function IsFor(op: Op, id: nat): nat {
    if IsRead(op) && op.id == id then 1 else 0
  }

  function Queued(q: seq<Op>, id: nat): nat {
    if q == [] then 0 else IsFor(q[0], id) + Queued(q[1..], id)
  }

  function Answered(cs: seq<Callback>, id: nat): nat {
    if cs == [] then 0 else (if cs[0].id == id then 1 else 0) + Answered(cs[1..], id)
  }

  lemma {:induction false} QueuedAppend(q: seq<Op>, op: Op, id: nat)
    ensures Queued(q + [op], id) == Queued(q, id) + IsFor(op, id)
  {
    if q == [] {
      assert q + [op] == [op];
    } else {
      assert (q + [op])[1..] == q[1..] + [op];
      QueuedAppend(q[1..], op, id);
    }
  }

  lemma {:induction false} AnsweredAppend(cs: seq<Callback>, ds: seq<Callback>, id: nat)
    ensures Answered(cs + ds, id) == Answered(cs, id) + Answered(ds, id)
  {
    if cs == [] {
      assert cs + ds == ds;
    } else {
      assert (cs + ds)[1..] == cs[1..] + ds;
      AnsweredAppend(cs[1..], ds, id);
    }
  }

  lemma {:induction false} QueuedSettle(q: seq<Op>, rec: Option<Rec>, id: nat)
    ensures Queued(Settle(q, rec).q, id) == Queued(q, id)
    decreases |q|
  {
    if q != [] && q[0].Delete? {
      QueuedSettle(q[1..], None, id);
    }
  }

  lemma QueuedEnqueue(l: Local, op: Op, id: nat)
    ensures Queued(Enqueue(l, op).q, id) == Queued(l.q, id) + IsFor(op, id)
  {
    QueuedAppend(l.q, op, id);
    if l.q == [] {
      assert l.q + [op] == [op];
      QueuedSettle([op], l.rec, id);
    }
  }

  lemma QueuedClose(l: Local, id: nat)
    requires l.q != []
    ensures Queued(l.q, id) == Queued(CloseFront(l).q, id) + IsFor(l.q[0], id)
  {
    QueuedSettle(l.q[1..], l.rec, id);
  }

  lemma {:induction false} QueuedNone(q: seq<Op>, id: nat)
    requires forall i | 0 <= i < |q| :: IsFor(q[i], id) == 0
    ensures Queued(q, id) == 0
  {
    if q != [] {
      QueuedNone(q[1..], id);
    }
  }

  lemma {:induction false} AnsweredNone(cs: seq<Callback>, id: nat)
    requires forall i | 0 <= i < |cs| :: cs[i].id != id
    ensures Answered(cs, id) == 0
  {
    if cs != [] {
      AnsweredNone(cs[1..], id);
    }
  }

  /** In how many places the fetch `id` is: its resource queue, the queue of its data's checksum, or answered. */
  function Places(c: Config, s: State, id: nat): nat
    requires id < |s.history|
  {
    var v := Expected(s.history, id);
    Answered(s.callbacks, id) + Queued(At(s, s.history[id].key).q, id)
    + if v.Some? && ShouldDeduplicate(c, |v.value.data|) then Queued(At(s, ShaKey(c, v.value.data)).q, id) else 0
  }

  // ---------------------------------------------------------------------------
  // The invariant
  // ---------------------------------------------------------------------------

  ghost predicate AnswerOk(h: seq<Call>, cb: Callback) {
    cb.id < |h| && h[cb.id].FetchCall? && cb == Answer(cb.id, Expected(h, cb.id))
  }

  /** Large data that was written is on disk or about to be, for any fetch queued from now on. */
  ghost predicate DataKept(c: Config, s: State, d: Bytes) {
    var l := At(s, ShaKey(c, d));
    Available(l.q, l.rec, |l.q|)
  }

  ghost predicate HistoryOk(c: Config, h: seq<Call>) {
    && NoCollision(c, h)
    && forall n | 0 <= n < |h| :: IsResourceKey(h[n].key) && (h[n].WriteCall? ==> Storable(h[n].item))
  }

  ghost predicate NoEmptyQueue(s: State) {
    forall k | k in s.queues :: s.queues[k] != []
  }

  ghost predicate Inv(c: Config, s: State) {
    && HistoryOk(c, s.history)
    && NoEmptyQueue(s)
    && (forall k: Key :: KeyOk(c, s.history, k, At(s, k)))
    && (forall n | 0 <= n < |s.history| :: IsLargeWrite(c, s.history[n]) ==> DataKept(c, s, s.history[n].item.data))
    && (forall i | 0 <= i < |s.callbacks| :: AnswerOk(s.history, s.callbacks[i]))
    && (forall id | 0 <= id < |s.history| :: s.history[id].FetchCall? ==> Places(c, s, id) == 1)
  }

  // ---------------------------------------------------------------------------
  // Completions on one key
  // ---------------------------------------------------------------------------

  /** The second stage of a fetch: queue it under the checksum of the data it should return. */
  ghost predicate SecondOk(c: Config, h: seq<Call>, k: Key, op: Op) {
    && op.FetchSha? && op.id < |h| && h[op.id].FetchCall?
    && var v := Expected(h, op.id);
       v.Some? && v.value.time == op.time && |v.value.data| == op.size && LargeData(c, h, k, v.value.data)
  }

  /** A completion keeps its key right, answers correctly, and neither loses nor repeats a fetch. */
  ghost predicate GoodEffect(c: Config, h: seq<Call>, k: Key, l: Local, e: Effect) {
    && KeyOk(c, h, k, e.local)
    && (forall i | 0 <= i < |e.callbacks| :: AnswerOk(h, e.callbacks[i]))
    && (forall id: nat ::
          Answered(e.callbacks, id) + Queued(e.local.q, id)
          + (if e.second.Some? then IsFor(e.second.value.1, id) else 0) == Queued(l.q, id))
    && (e.second.Some? ==> IsResourceKey(k) && SecondOk(c, h, e.second.value.0, e.second.value.1))
    && (!IsResourceKey(k) && Available(l.q, l.rec, |l.q|) ==>
          Available(e.local.q, e.local.rec, |e.local.q|))
  }

  lemma AnsweredOne(cb: Callback, id: nat)
    ensures Answered([cb], id) == if cb.id == id then 1 else 0
  {
  }

  /** Nothing that a later fetch under this checksum relies on is lost. */
  ghost predicate StaysAvailable(k: Key, l: Local) {
    IsResourceKey(k) || Available(l.q, l.rec, |l.q|)
  }

  /** Closing the front operation, with the answer to it if it is a fetch. */
  lemma CloseGood(c: Config, h: seq<Call>, k: Key, l: Local, l': Local, cbs: seq<Callback>)
    requires l.q != [] && l'.q == l.q && KeyOk(c, h, k, CloseFront(l')) && StaysAvailable(k, CloseFront(l'))
    requires if IsRead(l.q[0]) then |cbs| == 1 && AnswerOk(h, cbs[0]) && cbs[0].id == l.q[0].id else cbs == []
    ensures GoodEffect(c, h, k, l, Effect(CloseFront(l'), cbs, None))
  {
    hide KeyOk, AnswerOk, CloseFront;
    forall id: nat
      ensures Answered(cbs, id) + Queued(CloseFront(l').q, id) == Queued(l.q, id)
    {
      QueuedClose(l', id);
      if IsRead(l.q[0]) {
        assert cbs == [cbs[0]];
        AnsweredOne(cbs[0], id);
      }
    }
  }

  /** Progress without closing. */
  lemma ProgressGood(c: Config, h: seq<Call>, k: Key, l: Local, l': Local)
    requires l'.q == l.q && KeyOk(c, h, k, l')
    requires !IsResourceKey(k) && Available(l.q, l.rec, |l.q|) ==> Available(l'.q, l'.rec, |l'.q|)
    ensures GoodEffect(c, h, k, l, Quiet(l'))
  {
    hide KeyOk;
  }

  /** Data that a fetch should return was written by some client. */
  lemma {:induction false} LastWriteWasWritten(h: seq<Call>, k: Key)
    ensures LastWrite(h, k).Some? ==> exists n :: 0 <= n < |h| && h[n] == WriteCall(k, LastWrite(h, k).value)
  {
    if h != [] {
      var rest := h[..|h| - 1];
      LastWriteWasWritten(rest, k);
      if LastWrite(h, k).Some? && LastWrite(h, k) == LastWrite(rest, k) && LastWrite(rest, k).Some? {
        var n :| 0 <= n < |rest| && rest[n] == WriteCall(k, LastWrite(rest, k).value);
        assert h[n] == rest[n];
      }
      if LastWrite(h, k).Some? && h[|h| - 1].key == k && h[|h| - 1].WriteCall? {
        assert h[|h| - 1] == WriteCall(k, LastWrite(h, k).value);
      }
    }
  }

  lemma ExpectedWasWritten(c: Config, h: seq<Call>, id: nat)
    requires id < |h| && HistoryOk(c, h)
    ensures var v := Expected(h, id);
            && (v.Some? ==> Storable(v.value))
            && (v.Some? && ShouldDeduplicate(c, |v.value.data|) ==>
                  LargeData(c, h, ShaKey(c, v.value.data), v.value.data))
  {
    hide LastWrite, ShaKey, NoCollision;
    LastWriteWasWritten(h[..id], h[id].key);
    var v := LastWrite(h[..id], h[id].key);
    if v.Some? {
      var n :| 0 <= n < |h[..id]| && h[..id][n] == WriteCall(h[id].key, v.value);
      assert h[n] == WriteCall(h[id].key, v.value);
    }
  }

  /** What the front fetch reads, whichever of the three layouts it finds. */
  lemma FinishFetch(c: Config, h: seq<Call>, k: Key, l: Local)
    requires HistoryOk(c, h) && IsResourceKey(k) && l.q != [] && l.q[0].Fetch? && l.rec.Some?
    requires ResourceQueueOk(c, h, k, l.q, l.rec)
    ensures IsValidHeader(c, l.rec.value.small)
    ensures GoodEffect(c, h, k, l, FinishRead(c, l, true))
  {
    hide LastWrite, ShaKey, CloseFront, LargeData, GoodEffect;
    var id := l.q[0].id;
    assert ResourceOpOk(c, h, k, l.q, l.rec, 0);
    ExpectedWasWritten(c, h, id);
    var item := Expected(h, id).value;
    assert l.rec == Some(Encode(c, item));
    EncodeDecodes(c, item);
    ClosedFetchOk(c, h, k, l);
    if ShouldDeduplicate(c, |item.data|) {
      FinishIndirect(c, h, k, l, item);
    } else {
      CloseGood(c, h, k, l, l, [Callback(id, item.time, item.data)]);
    }
  }

  lemma ClosedFetchOk(c: Config, h: seq<Call>, k: Key, l: Local)
    requires IsResourceKey(k) && l.q != [] && l.q[0].Fetch? && ResourceQueueOk(c, h, k, l.q, l.rec)
    ensures KeyOk(c, h, k, CloseFront(l))
  {
    hide LastWrite, EncodeOpt, Expected;
    ResourceTailOk(c, h, k, l.q, l.rec);
    assert Seen(l.q, l.rec, 1) == l.rec;
    SettleResource(c, h, k, l.q[1..], l.rec);
  }

  lemma FinishIndirect(c: Config, h: seq<Call>, k: Key, l: Local, item: Item)
    requires IsResourceKey(k) && l.q != [] && l.q[0].Fetch? && KeyOk(c, h, k, CloseFront(l))
    requires l.q[0].id < |h| && h[l.q[0].id].FetchCall? && Expected(h, l.q[0].id) == Some(item)
    requires LargeData(c, h, ShaKey(c, item.data), item.data)
    ensures GoodEffect(c, h, k, l, Effect(CloseFront(l), [],
              Some((ShaKey(c, item.data), FetchSha(l.q[0].id, item.time, |item.data|)))))
  {
    hide KeyOk, LargeData, CloseFront, LastWrite;
    var op := FetchSha(l.q[0].id, item.time, |item.data|);
    forall id: nat
      ensures Queued(CloseFront(l).q, id) + IsFor(op, id) == Queued(l.q, id)
    {
      QueuedClose(l, id);
    }
  }

  lemma ResourceOpened(c: Config, h: seq<Call>, k: Key, l: Local)
    requires HistoryOk(c, h) && IsResourceKey(k) && ResourceOk(c, h, k, l) && l.phase == Some(Opening)
    ensures l.q != [] && GoodEffect(c, h, k, l, OnOpened(l))
  {
    hide LastWrite, CloseFront, GoodEffect, LargeData;
    if l.q[0].Fetch? {
      assert ResourceOpOk(c, h, k, l.q, l.rec, 0);
      if l.rec == None {
        ClosedFetchOk(c, h, k, l);
        CloseGood(c, h, k, l, l, [Callback(l.q[0].id, 0, [])]);
      } else {
        ProgressGood(c, h, k, l, l.(phase := Some(Reading(false, true))));
      }
    } else {
      var r := if l.rec == None then Rec([], []) else l.rec.value;
      RewriteFront(c, h, k, l.q, l.rec, Some(r));
      ProgressGood(c, h, k, l, Local(l.q, Some(Writing(false, false)), Some(r)));
    }
  }

  /** A write that has stored both streams. */
  lemma FinishWrite(c: Config, h: seq<Call>, k: Key, l: Local, l': Local)
    requires IsResourceKey(k) && l.q != [] && l.q[0].Write? && ResourceQueueOk(c, h, k, l.q, l.rec)
    requires l'.q == l.q && l'.rec == Some(l.q[0].rec)
    ensures GoodEffect(c, h, k, l, Quiet(CloseFront(l')))
  {
    hide LastWrite, EncodeOpt, Expected, GoodEffect;
    ResourceTailOk(c, h, k, l.q, l.rec);
    SettleResource(c, h, k, l.q[1..], Some(l.q[0].rec));
    CloseGood(c, h, k, l, l', []);
  }

  lemma ResourceSmall(c: Config, h: seq<Call>, k: Key, l: Local)
    requires HistoryOk(c, h) && IsResourceKey(k) && ResourceOk(c, h, k, l) && l.phase.Some? && !l.phase.value.Opening?
    requires !l.phase.value.smallDone
    ensures l.q != [] && l.rec.Some? && GoodEffect(c, h, k, l, OnSmall(c, l))
  {
    hide LastWrite, CloseFront, GoodEffect, LargeData, ResourceQueueOk, IsValidHeader, FinishRead;
    var op, r := l.q[0], l.rec.value;
    if op.Write? {
      var l' := l.(rec := Some(r.(small := SmallOf(op))), phase := Some(Writing(true, l.phase.value.largeDone)));
      if l.phase.value.largeDone {
        FinishWrite(c, h, k, l, l');
      } else {
        RewriteFront(c, h, k, l.q, l.rec, l'.rec);
        ProgressGood(c, h, k, l, l');
      }
    } else {
      FinishFetch(c, h, k, l);
      if r.large != [] {
        ProgressGood(c, h, k, l, l.(phase := Some(Reading(true, true))));
      }
    }
  }

  lemma ResourceLarge(c: Config, h: seq<Call>, k: Key, l: Local)
    requires HistoryOk(c, h) && IsResourceKey(k) && ResourceOk(c, h, k, l) && l.phase.Some? && !l.phase.value.Opening?
    requires if l.phase.value.Writing? then !l.phase.value.largeDone else l.phase.value.smallDone
    ensures l.q != [] && l.rec.Some? && GoodEffect(c, h, k, l, OnLarge(c, l))
  {
    hide LastWrite, CloseFront, GoodEffect, LargeData, ResourceQueueOk, IsValidHeader, FinishRead;
    var op, r := l.q[0], l.rec.value;
    if op.Write? {
      var l' := l.(rec := Some(r.(large := LargeOf(op))), phase := Some(Writing(l.phase.value.smallDone, true)));
      if l.phase.value.smallDone {
        FinishWrite(c, h, k, l, l');
      } else {
        RewriteFront(c, h, k, l.q, l.rec, l'.rec);
        ProgressGood(c, h, k, l, l');
      }
    } else {
      FinishFetch(c, h, k, l);
    }
  }

  // ---------------------------------------------------------------------------
  // Completions on a checksum key
  // ---------------------------------------------------------------------------

  /** The front fetch of a checksum queue finds its data, and answers with it. */
  lemma FinishFetchSha(c: Config, h: seq<Call>, k: Key, l: Local)
    requires HistoryOk(c, h) && !IsResourceKey(k) && l.q != [] && l.q[0].FetchSha? && ShaRecOk(c, h, k, l.rec)
    requires forall i | 0 <= i < |l.q| :: ShaOpOk(c, h, k, l.q, l.rec, i)
    ensures l.q[0].id < |h| && Expected(h, l.q[0].id).Some?
    ensures l.rec.Some? && l.rec.value.large == Expected(h, l.q[0].id).value.data
    ensures l.rec.value.large != [] && |l.rec.value.large| == l.q[0].size
    ensures GoodEffect(c, h, k, l, FinishRead(c, l, true))
  {
    hide LastWrite, Expected, LargeData, CloseFront, GoodEffect, IsValidHeader;
    assert ShaOpOk(c, h, k, l.q, l.rec, 0);
    var item := Expected(h, l.q[0].id).value;
    LargeDataUnique(c, h, k, l.rec.value.large, item.data);
    ShaCloseOk(c, h, k, l);
    CloseGood(c, h, k, l, l, [Callback(l.q[0].id, item.time, item.data)]);
  }

  /** A checksum write that has stored its data. */
  lemma FinishWriteSha(c: Config, h: seq<Call>, k: Key, l: Local, l': Local)
    requires !IsResourceKey(k) && l.q != [] && l.q[0].WriteSha?
    requires forall i | 0 <= i < |l.q| :: ShaOpOk(c, h, k, l.q, l.rec, i)
    requires l'.q == l.q && l'.rec == Some(Rec([], l.q[0].data))
    ensures GoodEffect(c, h, k, l, Quiet(CloseFront(l')))
  {
    hide LastWrite, Expected, CloseFront, GoodEffect;
    assert ShaOpOk(c, h, k, l.q, l.rec, 0);
    assert l.q[0].data != [];
    ShaRecChange(c, h, k, l, l');
    ShaCloseOk(c, h, k, l');
    CloseGood(c, h, k, l, l', []);
  }

  lemma ShaRecChange(c: Config, h: seq<Call>, k: Key, l: Local, l': Local)
    requires forall i | 0 <= i < |l.q| :: ShaOpOk(c, h, k, l.q, l.rec, i)
    requires l.q != [] && l.q[0].WriteSha? && l'.q == l.q
    ensures forall i | 0 <= i < |l'.q| :: ShaOpOk(c, h, k, l'.q, l'.rec, i)
    ensures Available(l'.q, l'.rec, |l'.q|)
  {
    hide LastWrite, Expected, LargeData;
    forall i | 0 <= i < |l'.q|
      ensures ShaOpOk(c, h, k, l'.q, l'.rec, i)
    {
      assert ShaOpOk(c, h, k, l.q, l.rec, i);
      assert i > 0 ==> l'.q[0].WriteSha?;
    }
    assert l'.q[0].WriteSha?;
  }

  lemma ShaOpened(c: Config, h: seq<Call>, k: Key, l: Local)
    requires HistoryOk(c, h) && !IsResourceKey(k) && ShaOk(c, h, k, l) && l.phase == Some(Opening)
    ensures l.q != [] && GoodEffect(c, h, k, l, OnOpened(l))
  {
    hide LastWrite, Expected, CloseFront, GoodEffect, LargeData, FinishRead;
    if l.q[0].FetchSha? {
      FinishFetchSha(c, h, k, l);
      ProgressGood(c, h, k, l, l.(phase := Some(Reading(false, true))));
    } else {
      assert ShaOpOk(c, h, k, l.q, l.rec, 0);
      var r := if l.rec == None then Rec([], []) else l.rec.value;
      if r.small == [] && |r.large| == |l.q[0].data| {
        SkippedIsSame(c, h, k, l);
        FinishWriteSha(c, h, k, l, l.(rec := Some(r)));
      } else {
        var l' := Local(l.q, Some(Writing(false, false)), Some(r));
        ShaRecChange(c, h, k, l, l');
        ProgressGood(c, h, k, l, l');
      }
    }
  }

  /** Data of the same length under the same checksum key is the same data, so the write can be skipped. */
  lemma SkippedIsSame(c: Config, h: seq<Call>, k: Key, l: Local)
    requires HistoryOk(c, h) && l.q != [] && l.q[0].WriteSha? && ShaRecOk(c, h, k, l.rec)
    requires ShaOpOk(c, h, k, l.q, l.rec, 0)
    requires var r := if l.rec == None then Rec([], []) else l.rec.value; |r.large| == |l.q[0].data|
    ensures l.rec.Some? && l.rec.value == Rec([], l.q[0].data)
  {
    hide ShaKey, LastWrite;
    assert |l.q[0].data| > 0;
    LargeDataUnique(c, h, k, l.rec.value.large, l.q[0].data);
  }

  lemma ShaSmall(c: Config, h: seq<Call>, k: Key, l: Local)
    requires HistoryOk(c, h) && !IsResourceKey(k) && ShaOk(c, h, k, l) && l.phase.Some? && !l.phase.value.Opening?
    requires !l.phase.value.smallDone
    ensures l.q != [] && l.rec.Some? && GoodEffect(c, h, k, l, OnSmall(c, l))
  {
    hide LastWrite, Expected, CloseFront, GoodEffect, LargeData, FinishRead, IsValidHeader;
    var op, r := l.q[0], l.rec.value;
    if op.WriteSha? {
      var l' := l.(rec := Some(r.(small := SmallOf(op))), phase := Some(Writing(true, l.phase.value.largeDone)));
      if l.phase.value.largeDone {
        FinishWriteSha(c, h, k, l, l');
      } else {
        ShaRecChange(c, h, k, l, l');
        ProgressGood(c, h, k, l, l');
      }
    } else {
      FinishFetchSha(c, h, k, l);
      ProgressGood(c, h, k, l, l.(phase := Some(Reading(true, true))));
    }
  }

  lemma ShaLarge(c: Config, h: seq<Call>, k: Key, l: Local)
    requires HistoryOk(c, h) && !IsResourceKey(k) && ShaOk(c, h, k, l) && l.phase.Some? && !l.phase.value.Opening?
    requires if l.phase.value.Writing? then !l.phase.value.largeDone else l.phase.value.smallDone
    ensures l.q != [] && l.rec.Some? && GoodEffect(c, h, k, l, OnLarge(c, l))
  {
    hide LastWrite, Expected, CloseFront, GoodEffect, LargeData, FinishRead, IsValidHeader;
    var op, r := l.q[0], l.rec.value;
    if op.WriteSha? {
      assert ShaOpOk(c, h, k, l.q, l.rec, 0);
      var l' := l.(rec := Some(r.(large := LargeOf(op))), phase := Some(Writing(l.phase.value.smallDone, true)));
      if l.phase.value.smallDone {
        FinishWriteSha(c, h, k, l, l');
      } else {
        ShaRecChange(c, h, k, l, l');
        ProgressGood(c, h, k, l, l');
      }
    } else {
      FinishFetchSha(c, h, k, l);
    }
  }

  // ---------------------------------------------------------------------------
  // Every step keeps the invariant
  // ---------------------------------------------------------------------------

  /** Queueing the second stage of a fetch under the checksum key. */
  lemma SecondKeeps(c: Config, s: State, k2: Key, op: Op)
    requires Inv(c, s) && SecondOk(c, s.history, k2, op)
    ensures !IsResourceKey(k2) && KeyOk(c, s.history, k2, Enqueue(At(s, k2), op))
    ensures var l := Enqueue(At(s, k2), op); Available(l.q, l.rec, |l.q|)
  {
    hide Expected, LastWrite, NoCollision;
    var l := At(s, k2);
    assert KeyOk(c, s.history, k2, l);
    var m :| 0 <= m < |s.history| && IsLargeWrite(c, s.history[m])
             && s.history[m].item.data == Expected(s.history, op.id).value.data;
    assert DataKept(c, s, s.history[m].item.data);
    AvailablePrefix(l.q, op, l.rec, |l.q|);
    ShaEnqueue(c, s.history, k2, l, op);
    EnqueueAvailable(l, op);
  }

  lemma EnqueueAvailable(l: Local, op: Op)
    requires Available(l.q, l.rec, |l.q|) && !op.Delete?
    ensures Available(Enqueue(l, op).q, Enqueue(l, op).rec, |Enqueue(l, op).q|)
  {
    if j :| 0 <= j < |l.q| && l.q[j].WriteSha? {
      assert Enqueue(l, op).q[j].WriteSha?;
    }
  }

  lemma AtApply(s: State, k: Key, e: Effect, k': Key)
    requires e.second.Some? ==> e.second.value.0 != k
    ensures At(Apply(s, k, e), k')
         == if k' == k then e.local
            else if e.second.Some? && k' == e.second.value.0 then Enqueue(At(s, k'), e.second.value.1)
            else At(s, k')
  {
    hide Enqueue, With;
    var s1 := match e.second case None => s case Some((k2, op)) => With(s, k2, Enqueue(At(s, k2), op));
    AtWith(s1, k, e.local, k');
    if e.second.Some? {
      AtWith(s, e.second.value.0, Enqueue(At(s, e.second.value.0), e.second.value.1), k');
    }
  }

  /** A good completion neither loses nor repeats any fetch. */
  lemma PlacesKept(c: Config, s: State, k: Key, e: Effect, id: nat)
    requires Inv(c, s) && GoodEffect(c, s.history, k, At(s, k), e) && id < |s.history| && s.history[id].FetchCall?
    ensures Places(c, Apply(s, k, e), id) == Places(c, s, id)
  {
    hide KeyOk, LargeData, Expected, LastWrite, Answered, Queued, HistoryOk, DataKept, AnswerOk, Available, Enqueue;
    var s' := Apply(s, k, e);
    var h := s.history;
    AnsweredAppend(s.callbacks, e.callbacks, id);
    var v := Expected(h, id);
    var rk := h[id].key;
    assert IsResourceKey(rk) by { assert HistoryOk(c, h); KeysAreResource(c, h, id); }
    if e.second.Some? {
      SecondKey(c, h, e.second.value.0, e.second.value.1);
      QueuedEnqueue(At(s, e.second.value.0), e.second.value.1, id);
    }
    AtApply(s, k, e, rk);
    assert Answered(e.callbacks, id) + Queued(e.local.q, id)
           + (if e.second.Some? then IsFor(e.second.value.1, id) else 0) == Queued(At(s, k).q, id);
    if v.Some? && ShouldDeduplicate(c, |v.value.data|) {
      AtApply(s, k, e, ShaKey(c, v.value.data));
    }
    if k != rk && !(v.Some? && ShouldDeduplicate(c, |v.value.data|) && k == ShaKey(c, v.value.data)) {
      ForeignFetch(c, s, k, id);
    }
  }

  lemma KeysAreResource(c: Config, h: seq<Call>, id: nat)
    requires HistoryOk(c, h) && id < |h|
    ensures IsResourceKey(h[id].key)
  {
  }

  lemma SecondKey(c: Config, h: seq<Call>, k: Key, op: Op)
    requires SecondOk(c, h, k, op)
    ensures !IsResourceKey(k) && op.FetchSha? && op.id < |h| && Expected(h, op.id).Some?
    ensures var d := Expected(h, op.id).value.data; ShouldDeduplicate(c, |d|) && ShaKey(c, d) == k
  {
    hide Expected, HexEncode;
  }

  /** A fetch is queued nowhere but under its own key or its data's checksum. */
  lemma ForeignFetch(c: Config, s: State, k: Key, id: nat)
    requires Inv(c, s) && id < |s.history|
    requires k != s.history[id].key
    requires var v := Expected(s.history, id);
             v.Some? && ShouldDeduplicate(c, |v.value.data|) ==> k != ShaKey(c, v.value.data)
    ensures Queued(At(s, k).q, id) == 0
  {
    hide Expected, LastWrite, Seen, EncodeOpt, Available;
    var q := At(s, k).q;
    assert KeyOk(c, s.history, k, At(s, k));
    forall i | 0 <= i < |q|
      ensures IsFor(q[i], id) == 0
    {
      if IsResourceKey(k) {
        assert ResourceOpOk(c, s.history, k, q, At(s, k).rec, i);
      } else {
        assert ShaOpOk(c, s.history, k, q, At(s, k).rec, i);
      }
    }
    QueuedNone(q, id);
  }

  lemma CompletionKeeps(c: Config, s: State, k: Key, e: Effect)
    requires Inv(c, s) && GoodEffect(c, s.history, k, At(s, k), e)
    ensures Inv(c, Apply(s, k, e))
  {
    hide KeyOk, LargeData, Expected, LastWrite, Answered, Queued, HistoryOk, AnswerOk, Available, Enqueue, Apply, At,
         Places;
    var s', h := Apply(s, k, e), s.history;
    ApplyFrame(s, k, e);
    if e.second.Some? {
      SecondKey(c, h, e.second.value.0, e.second.value.1);
      SecondKeeps(c, s, e.second.value.0, e.second.value.1);
    }
    forall k': Key
      ensures KeyOk(c, h, k', At(s', k'))
    {
      AtApply(s, k, e, k');
      assert KeyOk(c, h, k', At(s, k'));
    }
    forall n | 0 <= n < |h| && IsLargeWrite(c, h[n])
      ensures DataKept(c, s', h[n].item.data)
    {
      assert DataKept(c, s, h[n].item.data);
      AtApply(s, k, e, ShaKey(c, h[n].item.data));
    }
    forall id | 0 <= id < |h| && h[id].FetchCall?
      ensures Places(c, s', id) == 1
    {
      PlacesKept(c, s, k, e, id);
    }
  }

  lemma WithNoEmptyQueue(s: State, k: Key, l: Local)
    requires NoEmptyQueue(s)
    ensures NoEmptyQueue(With(s, k, l))
  {
  }

  lemma ApplyFrame(s: State, k: Key, e: Effect)
    requires NoEmptyQueue(s)
    ensures NoEmptyQueue(Apply(s, k, e))
    ensures var s' := Apply(s, k, e); s'.history == s.history && s'.callbacks == s.callbacks + e.callbacks
  {
    hide With, Enqueue;
    var s1 := match e.second case None => s case Some((k2, op)) => With(s, k2, Enqueue(At(s, k2), op));
    if e.second.Some? {
      WithNoEmptyQueue(s, e.second.value.0, Enqueue(At(s, e.second.value.0), e.second.value.1));
      WithFrame(s, e.second.value.0, Enqueue(At(s, e.second.value.0), e.second.value.1));
    }
    WithNoEmptyQueue(s1, k, e.local);
    WithFrame(s1, k, e.local);
  }

  lemma CompletionGood(c: Config, s: State, e: Event)
    requires Inv(c, s) && Enabled(c, s, e) && !e.Client?
    ensures var l := At(s, e.key);
            && l.q != [] && (!e.OpenDone? ==> l.rec.Some? && l.phase.Some?)
            && match e
               case OpenDone(_) => GoodEffect(c, s.history, e.key, l, OnOpened(l))
               case SmallDone(_) => GoodEffect(c, s.history, e.key, l, OnSmall(c, l))
               case LargeDone(_) => GoodEffect(c, s.history, e.key, l, OnLarge(c, l))
  {
    hide GoodEffect, ResourceQueueOk, ShaRecOk, HistoryOk, OnOpened, OnSmall, OnLarge, ShaOpOk;
    var k, h := e.key, s.history;
    var l := At(s, k);
    assert KeyOk(c, h, k, l);
    if IsResourceKey(k) {
      match e {
        case OpenDone(_) => ResourceOpened(c, h, k, l);
        case SmallDone(_) => ResourceSmall(c, h, k, l);
        case LargeDone(_) => ResourceLarge(c, h, k, l);
      }
    } else {
      match e {
        case OpenDone(_) => ShaOpened(c, h, k, l);
        case SmallDone(_) => ShaSmall(c, h, k, l);
        case LargeDone(_) => ShaLarge(c, h, k, l);
      }
    }
  }

  // ---------------------------------------------------------------------------
  // Requests
  // ---------------------------------------------------------------------------

  lemma LastWriteAppend(h: seq<Call>, call: Call, k: Key)
    ensures LastWrite(h + [call], k)
         == if call.key == k && call.WriteCall? then Some(call.item)
            else if call.key == k && call.DeleteCall? then None
            else LastWrite(h, k)
  {
    assert (h + [call])[..|h|] == h;
  }

  /** The state right after a request is noted, before anything is queued. */
  lemma HistoryGrows(c: Config, s: State, call: Call, k: Key)
    requires Inv(c, s) && IsResourceKey(call.key) && (k != call.key || call.FetchCall?)
    ensures KeyOk(c, s.history + [call], k, At(s, k))
  {
    hide ResourceOk, ShaOk, LastWrite;
    var h, h' := s.history, s.history + [call];
    assert h'[..|h|] == h;
    assert KeyOk(c, h, k, At(s, k));
    LastWriteAppend(h, call, k);
    if IsResourceKey(k) {
      ResourceHistoryGrows(c, h, h', k, At(s, k));
    } else {
      ShaHistoryGrows(c, h, h', k, At(s, k));
    }
  }

  /** What each key looks like after a request. */
  lemma AtRequest(c: Config, s: State, call: Call, k: Key)
    requires IsResourceKey(call.key) && (call.WriteCall? ==> Storable(call.item))
    ensures var s' := Request(c, s, call);
            && s'.history == s.history + [call] && s'.callbacks == s.callbacks
            && At(s', k) == if k == call.key then Enqueue(At(s, k), OpFor(c, s, call))
                            else if IsLargeWrite(c, call) && k == ShaKey(c, call.item.data)
                            then Enqueue(At(s, k), WriteSha(call.item.data))
                            else At(s, k)
  {
    hide Enqueue, With, Encode, ShaKey;
    var s1 := s.(history := s.history + [call]);
    assert forall k: Key :: At(s1, k) == At(s, k);
    if call.WriteCall? {
      var k2 := ShaKey(c, call.item.data);
      var s2 := if !IsLargeWrite(c, call) then s1 else With(s1, k2, Enqueue(At(s1, k2), WriteSha(call.item.data)));
      AtWith(s1, k2, Enqueue(At(s1, k2), WriteSha(call.item.data)), k);
      AtWith(s1, k2, Enqueue(At(s1, k2), WriteSha(call.item.data)), call.key);
      AtWith(s2, call.key, Enqueue(At(s2, call.key), OpFor(c, s, call)), k);
      WithFrame(s1, k2, Enqueue(At(s1, k2), WriteSha(call.item.data)));
      WithFrame(s2, call.key, Enqueue(At(s2, call.key), OpFor(c, s, call)));
    } else {
      AtWith(s1, call.key, Enqueue(At(s, call.key), OpFor(c, s, call)), k);
      WithFrame(s1, call.key, Enqueue(At(s, call.key), OpFor(c, s, call)));
    }
  }

  lemma WithFrame(s: State, k: Key, l: Local)
    ensures With(s, k, l).history == s.history && With(s, k, l).callbacks == s.callbacks
  {
  }

  function OpFor(c: Config, s: State, call: Call): Op {
    match call
    case WriteCall(_, item) => Write(Encode(c, item))
    case FetchCall(_) => Fetch(|s.history|)
    case DeleteCall(_) => Delete
  }

  lemma RequestKeyOk(c: Config, s: State, call: Call, k: Key)
    requires Inv(c, s) && Enabled(c, s, Client(call)) && (call.WriteCall? ==> Storable(call.item))
    ensures KeyOk(c, s.history + [call], k, At(Request(c, s, call), k))
  {
    hide At, Request, Enqueue, LastWrite, ShaKey, HistoryOk, Available, Seen, ResourceOk, ShaOk, NoCollision;
    var h, h' := s.history, s.history + [call];
    assert h'[..|h|] == h;
    AtRequest(c, s, call, k);
    if k == call.key {
      assert KeyOk(c, h, k, At(s, k));
      LastWriteAppend(h, call, k);
      ResourceEnqueue(c, h, h', k, At(s, k), OpFor(c, s, call));
    } else {
      HistoryGrows(c, s, call, k);
      if IsLargeWrite(c, call) && k == ShaKey(c, call.item.data) {
        assert h'[|h|] == call;
        assert LargeData(c, h', k, call.item.data);
        assert !IsResourceKey(k) by { ShaKeyIsNot(c, call.item.data); }
        ShaEnqueue(c, h', k, At(s, k), WriteSha(call.item.data));
      }
    }
  }

  lemma ShaKeyIsNot(c: Config, d: Bytes)
    ensures !IsResourceKey(ShaKey(c, d))
  {
  }

  lemma RequestDataKept(c: Config, s: State, call: Call, n: nat)
    requires Inv(c, s) && Enabled(c, s, Client(call)) && (call.WriteCall? ==> Storable(call.item))
    requires n <= |s.history| && IsLargeWrite(c, (s.history + [call])[n])
    ensures DataKept(c, Request(c, s, call), (s.history + [call])[n].item.data)
  {
    hide At, Request, LastWrite, HistoryOk, Available, KeyOk, NoCollision;
    var h' := s.history + [call];
    var d := h'[n].item.data;
    var k := ShaKey(c, d);
    AtRequest(c, s, call, k);
    if n < |s.history| {
      assert DataKept(c, s, s.history[n].item.data);
    }
    if IsLargeWrite(c, call) && k == ShaKey(c, call.item.data) {
      EnqueueWriteSha(At(s, k), call.item.data);
    }
  }

  lemma EnqueueWriteSha(l: Local, d: Bytes)
    ensures var l' := Enqueue(l, WriteSha(d)); Available(l'.q, l'.rec, |l'.q|)
  {
    var l' := Enqueue(l, WriteSha(d));
    assert l'.q[|l'.q| - 1].WriteSha?;
  }

  /** A new fetch is in exactly one place; older ones stay where they were. */
  lemma RequestPlaces(c: Config, s: State, call: Call, id: nat)
    requires Inv(c, s) && Enabled(c, s, Client(call)) && (call.WriteCall? ==> Storable(call.item))
    requires id <= |s.history| && (s.history + [call])[id].FetchCall?
    ensures Request(c, s, call).history == s.history + [call] && Places(c, Request(c, s, call), id) == 1
  {
    hide At, Request, Enqueue, LastWrite, ShaKey, HistoryOk, Available, KeyOk, NoCollision, Queued, Answered,
         DataKept, Expected, Encode;
    var s' := Request(c, s, call);
    var h, h' := s.history, s.history + [call];
    assert h'[..|h|] == h;
    var rk := h'[id].key;
    AtRequest(c, s, call, rk);
    QueuedEnqueue(At(s, rk), OpFor(c, s, call), id);
    var v := Expected(h', id);
    if v.Some? && ShouldDeduplicate(c, |v.value.data|) {
      var sk := ShaKey(c, v.value.data);
      ShaKeyIsNot(c, v.value.data);
      AtRequest(c, s, call, sk);
      if IsLargeWrite(c, call) { QueuedEnqueue(At(s, sk), WriteSha(call.item.data), id); }
    }
    if IsLargeWrite(c, call) { ShaKeyIsNot(c, call.item.data); }
    if id < |h| {
      KeysAreResource(c, h, id);
      ExpectedKept(h, h', id);
      assert Places(c, s, id) == 1;
    } else {
      NewFetchNowhere(c, s, rk);
      if v.Some? && ShouldDeduplicate(c, |v.value.data|) { NewFetchNowhere(c, s, ShaKey(c, v.value.data)); }
    }
  }

  lemma NewFetchNowhere(c: Config, s: State, k: Key)
    requires Inv(c, s)
    ensures Queued(At(s, k).q, |s.history|) == 0 && Answered(s.callbacks, |s.history|) == 0
  {
    hide Expected, LastWrite, Seen, EncodeOpt, Available, LargeData;
    var q := At(s, k).q;
    assert KeyOk(c, s.history, k, At(s, k));
    forall i | 0 <= i < |q|
      ensures IsFor(q[i], |s.history|) == 0
    {
      if IsResourceKey(k) {
        assert ResourceOpOk(c, s.history, k, q, At(s, k).rec, i);
      } else {
        assert ShaOpOk(c, s.history, k, q, At(s, k).rec, i);
      }
    }
    QueuedNone(q, |s.history|);
    forall i | 0 <= i < |s.callbacks|
      ensures s.callbacks[i].id != |s.history|
    {
      assert AnswerOk(s.history, s.callbacks[i]);
    }
    AnsweredNone(s.callbacks, |s.history|);
  }

  lemma RequestKeeps(c: Config, s: State, call: Call)
    requires Inv(c, s) && Enabled(c, s, Client(call))
    ensures Inv(c, Request(c, s, call))
  {
    hide At, Request, LastWrite, KeyOk, DataKept, Places, Expected, NoCollision;
    if call.WriteCall? && !Storable(call.item) {
      Dropped(c, s, call);
    } else {
      var s', h, h' := Request(c, s, call), s.history, s.history + [call];
      AtRequest(c, s, call, call.key);
      RequestNoEmptyQueue(c, s, call);
      RequestHistoryOk(c, h, call);
      forall k: Key ensures KeyOk(c, h', k, At(s', k)) { RequestKeyOk(c, s, call, k); }
      forall n | 0 <= n < |h'| && IsLargeWrite(c, h'[n])
        ensures DataKept(c, s', h'[n].item.data)
      {
        RequestDataKept(c, s, call, n);
      }
      forall id | 0 <= id < |h'| && h'[id].FetchCall? ensures Places(c, s', id) == 1 { RequestPlaces(c, s, call, id); }
      forall i | 0 <= i < |s'.callbacks|
        ensures AnswerOk(h', s'.callbacks[i])
      {
        assert AnswerOk(h, s.callbacks[i]);
        assert h'[..|h|] == h;
        ExpectedKept(h, h', s.callbacks[i].id);
      }
    }
  }

  lemma RequestNoEmptyQueue(c: Config, s: State, call: Call)
    requires NoEmptyQueue(s)
    ensures NoEmptyQueue(Request(c, s, call))
  {
    hide With, Enqueue, Encode, ShaKey;
    var s1 := s.(history := s.history + [call]);
    assert NoEmptyQueue(s1);
    if call.WriteCall? && Storable(call.item) {
      var k2 := ShaKey(c, call.item.data);
      var s2 := if !IsLargeWrite(c, call) then s1 else With(s1, k2, Enqueue(At(s1, k2), WriteSha(call.item.data)));
      WithNoEmptyQueue(s1, k2, Enqueue(At(s1, k2), WriteSha(call.item.data)));
      WithNoEmptyQueue(s2, call.key, Enqueue(At(s2, call.key), Write(Encode(c, call.item))));
    } else {
      WithNoEmptyQueue(s1, call.key, Enqueue(At(s, call.key), OpFor(c, s, call)));
    }
  }

  lemma Dropped(c: Config, s: State, call: Call)
    requires call.WriteCall? && !Storable(call.item)
    ensures Request(c, s, call) == s
  {
  }

  lemma RequestHistoryOk(c: Config, h: seq<Call>, call: Call)
    requires HistoryOk(c, h) && IsResourceKey(call.key) && (call.WriteCall? ==> Storable(call.item))
    requires call.WriteCall? ==> NoCollision(c, h + [call])
    ensures HistoryOk(c, h + [call])
  {
    hide ShaKey;
    var h' := h + [call];
    if !call.WriteCall? {
      assert forall n | 0 <= n < |h'| && IsLargeWrite(c, h'[n]) :: n < |h| && h'[n] == h[n];
    }
  }

  // ---------------------------------------------------------------------------
  // The theorem
  // ---------------------------------------------------------------------------

  lemma InitialInv(c: Config)
    ensures Inv(c, Initial)
  {
    forall k: Key
      ensures KeyOk(c, Initial.history, k, At(Initial, k))
    {
      assert At(Initial, k) == Local([], None, None);
    }
  }

  lemma StepKeepsInv(c: Config, s: State, e: Event)
    requires Inv(c, s) && Enabled(c, s, e)
    ensures e.Client? || (At(s, e.key).q != [] && (!e.OpenDone? ==> At(s, e.key).rec.Some? && At(s, e.key).phase.Some?))
    ensures Inv(c, Next(c, s, e))
  {
    hide Inv, Apply, Request, OnOpened, OnSmall, OnLarge, Enabled, GoodEffect, At;
    match e {
      case Client(call) => RequestKeeps(c, s, call);
      case OpenDone(k) =>
        CompletionGood(c, s, e);
        CompletionKeeps(c, s, k, OnOpened(At(s, k)));
      case SmallDone(k) =>
        CompletionGood(c, s, e);
        CompletionKeeps(c, s, k, OnSmall(c, At(s, k)));
      case LargeDone(k) =>
        CompletionGood(c, s, e);
        CompletionKeeps(c, s, k, OnLarge(c, At(s, k)));
    }
  }

  ghost predicate Step(c: Config, s: State, e: Event, s': State) {
    && Enabled(c, s, e)
    && (e.Client? || (At(s, e.key).q != [] && (!e.OpenDone? ==> At(s, e.key).rec.Some? && At(s, e.key).phase.Some?)))
    && s' == Next(c, s, e)
  }

  // ---------------------------------------------------------------------------
  // Runs, from an empty disk or from what an earlier run left
  // ---------------------------------------------------------------------------

  /** Nothing is queued or answered yet; the disk holds what the writes and deletes of earlier runs left. */
  ghost predicate AtStart(c: Config, s: State) {
    Inv(c, s) && s.queues == map[] && s.callbacks == []
  }

  /** The writes and deletes of a history. */
  function Kept(h: seq<Call>): seq<Call> {
    if h == [] then []
    else Kept(h[..|h| - 1]) + if h[|h| - 1].FetchCall? then [] else [h[|h| - 1]]
  }

  /** The cache as it starts again on the same disk after it has come to rest. */
  function Restart(s: State): State {
    State(map[], map[], s.disk, [], Kept(s.history))
  }

  lemma {:induction false} KeptMembers(h: seq<Call>, call: Call)
    ensures call in Kept(h) <==> call in h && !call.FetchCall?
  {
    if h != [] {
      var init, last := h[..|h| - 1], h[|h| - 1];
      KeptMembers(init, call);
      assert h == init + [last];
    }
  }

  /** Fetches leave no trace in what later fetches should return. */
  lemma {:induction false} KeptLastWrite(h: seq<Call>, k: Key)
    ensures LastWrite(Kept(h), k) == LastWrite(h, k)
  {
    if h != [] {
      var init, last := h[..|h| - 1], h[|h| - 1];
      KeptLastWrite(init, k);
      assert h == init + [last];
      LastWriteAppend(init, last, k);
      if !last.FetchCall? {
        LastWriteAppend(Kept(init), last, k);
      } else {
        assert Kept(h) == Kept(init);
      }
    }
  }

  lemma KeptHistoryOk(c: Config, h: seq<Call>)
    requires HistoryOk(c, h)
    ensures HistoryOk(c, Kept(h))
  {
    hide Kept, IsResourceKey, ShouldDeduplicate;
    forall call: Call { KeptMembers(h, call); }
    var g := Kept(h);
    assert forall n | 0 <= n < |g| :: g[n] in g && g[n] in h;
    assert forall m, n | 0 <= m < |g| && 0 <= n < |g| && IsLargeWrite(c, g[m]) && IsLargeWrite(c, g[n]) ::
        c.sha256(g[m].item.data) == c.sha256(g[n].item.data) ==> g[m].item.data == g[n].item.data;
  }

  lemma KeptLargeData(c: Config, h: seq<Call>, k: Key, d: Bytes)
    requires LargeData(c, h, k, d)
    ensures LargeData(c, Kept(h), k, d)
  {
    hide Kept, ShaKey;
    var n :| 0 <= n < |h| && IsLargeWrite(c, h[n]) && h[n].item.data == d;
    KeptMembers(h, h[n]);
    var m :| 0 <= m < |Kept(h)| && Kept(h)[m] == h[n];
  }

  lemma RestartKeyOk(c: Config, s: State, k: Key)
    requires Inv(c, s) && s.queues == map[]
    ensures KeyOk(c, Kept(s.history), k, At(Restart(s), k))
  {
    hide HistoryOk, DataKept, Places, AnswerOk, Kept, LastWrite, LargeData, EncodeOpt;
    var l := At(s, k);
    assert KeyOk(c, s.history, k, l);
    assert At(Restart(s), k) == Local([], None, l.rec);
    KeptLastWrite(s.history, k);
    if !IsResourceKey(k) && l.rec.Some? && l.rec.value.large != [] {
      KeptLargeData(c, s.history, k, l.rec.value.large);
    }
  }

  /** A cache that has come to rest can start again on its disk. */
  lemma RestartStarts(c: Config, s: State)
    requires Inv(c, s) && s.queues == map[]
    ensures AtStart(c, Restart(s))
  {
    hide KeyOk, HistoryOk, Places, AnswerOk, Kept, Available;
    var t := Restart(s);
    KeptHistoryOk(c, s.history);
    forall call: Call { KeptMembers(s.history, call); }
    forall k: Key ensures KeyOk(c, t.history, k, At(t, k)) { RestartKeyOk(c, s, k); }
    forall n | 0 <= n < |t.history|
      ensures !t.history[n].FetchCall?
      ensures IsLargeWrite(c, t.history[n]) ==> DataKept(c, t, t.history[n].item.data)
    {
      assert t.history[n] in t.history && t.history[n] in s.history;
      var m :| 0 <= m < |s.history| && s.history[m] == t.history[n];
    }
  }

  lemma InitialStarts(c: Config)
    ensures AtStart(c, Initial)
  {
    hide Inv;
    InitialInv(c);
  }

  /** The states a run goes through from any start, for any order of requests and completions. */
  ghost predicate IsRun(c: Config, ss: seq<State>, es: seq<Event>) {
    && |ss| == |es| + 1 && AtStart(c, ss[0])
    && forall i | 0 <= i < |es| :: Step(c, ss[i], es[i], ss[i + 1])
  }

  lemma {:induction false} RunKeepsInv(c: Config, ss: seq<State>, es: seq<Event>, i: nat)
    requires IsRun(c, ss, es) && i < |ss|
    ensures Inv(c, ss[i])
  {
    hide Inv, Next, Enabled, At;
    if i > 0 {
      RunKeepsInv(c, ss, es, i - 1);
      assert Step(c, ss[i - 1], es[i - 1], ss[i]);
      StepKeepsInv(c, ss[i - 1], es[i - 1]);
    }
  }

  /**
   In every state of every run: each callback run gives the time and bytes of the last write to the fetch's key
   requested before it, in this run or an earlier one, or nothing if there was none or a delete came after; no fetch
   is answered twice; and once no operation is queued every fetch has been answered exactly once.
   */
  lemma FetchesAreLinearizable(c: Config, ss: seq<State>, es: seq<Event>, n: nat)
    requires IsRun(c, ss, es) && n < |ss|
    ensures var s := ss[n];
            && (forall i | 0 <= i < |s.callbacks| ::
                  var cb := s.callbacks[i];
                  cb.id < |s.history| && s.history[cb.id].FetchCall? && cb == Answer(cb.id, Expected(s.history, cb.id)))
            && (forall id | 0 <= id < |s.history| && s.history[id].FetchCall? :: Answered(s.callbacks, id) <= 1)
            && (s.queues == map[] ==>
                  forall id | 0 <= id < |s.history| && s.history[id].FetchCall? :: Answered(s.callbacks, id) == 1)
  {
    hide KeyOk, HistoryOk, DataKept, Expected, LastWrite;
    var s := ss[n];
    RunKeepsInv(c, ss, es, n);
    forall i | 0 <= i < |s.callbacks| ensures AnswerOk(s.history, s.callbacks[i]) { }
    forall id | 0 <= id < |s.history| && s.history[id].FetchCall?
      ensures Answered(s.callbacks, id) <= 1
      ensures s.queues == map[] ==> Answered(s.callbacks, id) == 1
    {
      assert Places(c, s, id) == 1;
    }
  }

  /** Queues in the map are never empty, and exactly the front operation of each is in flight. */
  lemma OnlyFrontInFlight(c: Config, ss: seq<State>, es: seq<Event>, n: nat)
    requires IsRun(c, ss, es) && n < |ss|
    ensures ss[n].queues.Keys == ss[n].phases.Keys
    ensures forall k | k in ss[n].queues :: ss[n].queues[k] != []
  {
    hide HistoryOk, ResourceQueueOk, ShaRecOk, DataKept, Places, ShaOpOk;
    var s := ss[n];
    RunKeepsInv(c, ss, es, n);
    forall k: Key
      ensures k in s.queues <==> k in s.phases
    {
      assert KeyOk(c, s.history, k, At(s, k));
    }
  }

  /** A checksum write that is opening its entry finds it missing, empty, or holding just the same data. */
  lemma ChecksumEntryIsEmptyOrSame(c: Config, ss: seq<State>, es: seq<Event>, n: nat, k: Key)
    requires IsRun(c, ss, es) && n < |ss|
    requires k in ss[n].queues && ss[n].queues[k] != [] && ss[n].queues[k][0].WriteSha?
    ensures k in ss[n].disk ==>
              var r, data := ss[n].disk[k], ss[n].queues[k][0].data;
              r.small == [] && (r.large == [] || r.large == data)
  {
    hide DataKept, Places, AnswerOk, Seen, LargeData, ShaKey;
    var s := ss[n];
    RunKeepsInv(c, ss, es, n);
    var l := At(s, k);
    assert KeyOk(c, s.history, k, l);
    assert !IsResourceKey(k) && ShaOpOk(c, s.history, k, l.q, l.rec, 0);
    if k in s.disk && s.disk[k].large != [] {
      LargeDataUnique(c, s.history, k, s.disk[k].large, l.q[0].data);
    }
  }
}
