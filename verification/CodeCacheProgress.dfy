/**
 The code cache never gets stuck: whatever is queued has an enabled completion, and completions
 run out after a number of steps known in advance, so every fetch is answered in the end.
 */
module CodeCacheProgress {
  import opened ByteSeqs
  import opened CodeCacheModel
  import opened CodeCacheProof
  import opened Sums

  /** Completions an operation may still need; a fetch may lead to a second one. */
  function OpWork(op: Op): nat {
    match op case Fetch(_) => 7 case Delete => 0 case _ => 3
  }

  function QueueWork(q: seq<Op>): nat {
    if q == [] then 0 else OpWork(q[0]) + QueueWork(q[1..])
  }

  function PhaseDone(p: Option<Phase>): nat {
    match p
    case None => 0
    case Some(Opening) => 0
    case Some(Writing(a, b)) => 1 + (if a then 1 else 0) + (if b then 1 else 0)
    case Some(Reading(a, _)) => if a then 2 else 1
  }

  function KeyWork(l: Local): nat {
    if PhaseDone(l.phase) <= QueueWork(l.q) then QueueWork(l.q) - PhaseDone(l.phase) else 0
  }

  ghost function Work(s: State): nat {
    Sum(s.queues.Keys, (k: Key) => KeyWork(At(s, k)))
  }

  lemma {:induction false} SettleWork(q: seq<Op>, rec: Option<Rec>)
    ensures KeyWork(Settle(q, rec)) == QueueWork(q)
    decreases |q|
  {
    if q != [] && q[0].Delete? {
      SettleWork(q[1..], None);
    }
  }

  lemma {:induction false} QueueWorkAppend(q: seq<Op>, op: Op)
    ensures QueueWork(q + [op]) == QueueWork(q) + OpWork(op)
  {
    if q == [] {
      assert q + [op] == [op];
    } else {
      assert (q + [op])[1..] == q[1..] + [op];
      QueueWorkAppend(q[1..], op);
    }
  }

  lemma EnqueueWork(l: Local, op: Op)
    requires l.q == [] ==> l.phase == None
    ensures KeyWork(Enqueue(l, op)) <= KeyWork(l) + OpWork(op)
  {
    QueueWorkAppend(l.q, op);
    if l.q == [] {
      assert l.q + [op] == [op];
      SettleWork([op], l.rec);
    }
  }

  lemma FinishReadWork(c: Config, l: Local, succeeded: bool)
    requires l.q != [] && IsRead(l.q[0]) && l.rec.Some?
    ensures var e := FinishRead(c, l, succeeded);
            && KeyWork(e.local) == QueueWork(l.q[1..])
            && (e.second.Some? ==> l.q[0].Fetch? && OpWork(e.second.value.1) == 3)
  {
    SettleWork(l.q[1..], l.rec);
    SettleWork(l.q[1..], None);
  }

  ghost function SecondWork(e: Effect): nat {
    if e.second.Some? then OpWork(e.second.value.1) else 0
  }

  /** Each completion leaves less to do on its key, even counting a second operation it queues. */
  lemma CompletionWork(c: Config, h: seq<Call>, k: Key, l: Local, e: Event)
    requires KeyOk(c, h, k, l) && l.phase.Some? && !e.Client?
    requires match e
             case OpenDone(_) => l.phase.value.Opening?
             case SmallDone(_) => (l.phase.value.Writing? || l.phase.value.Reading?) && !l.phase.value.smallDone
             case LargeDone(_) => || (l.phase.value.Writing? && !l.phase.value.largeDone)
                                  || (l.phase.value.Reading? && l.phase.value.smallDone)
    ensures l.q != [] && (!e.OpenDone? ==> l.rec.Some?)
    ensures var eff := match e case OpenDone(_) => OnOpened(l) case SmallDone(_) => OnSmall(c, l)
                               case LargeDone(_) => OnLarge(c, l);
            KeyWork(eff.local) + SecondWork(eff) < KeyWork(l)
  {
    hide ResourceQueueOk, ShaRecOk, ShaOpOk, FinishRead, IsValidHeader;
    assert l.q != [];
    var tail := l.q[1..];
    assert QueueWork(l.q) == OpWork(l.q[0]) + QueueWork(tail);
    SettleWork(tail, l.rec);
    if l.rec.Some? {
      SettleWork(tail, Some(l.rec.value.(small := SmallOf(l.q[0]))));
      SettleWork(tail, Some(l.rec.value.(large := LargeOf(l.q[0]))));
      if IsRead(l.q[0]) {
        FinishReadWork(c, l, true);
        FinishReadWork(c, l, false);
      }
    }
    SettleWork(tail, Some(Rec([], [])));
  }

  // ---------------------------------------------------------------------------
  // Over all keys
  // ---------------------------------------------------------------------------

  /** Idle keys add nothing, so the sum may range over more keys. */
  lemma {:induction false} WorkOver(c: Config, s: State, ks: set<Key>)
    requires Inv(c, s) && s.queues.Keys <= ks
    ensures Work(s) == Sum(ks, (k: Key) => KeyWork(At(s, k)))
    decreases |ks|
  {
    var f := (k: Key) => KeyWork(At(s, k));
    if ks != s.queues.Keys {
      var k :| k in ks && k !in s.queues.Keys;
      SumSplit(ks, f, k);
      IdleWork(c, s, k);
      WorkOver(c, s, ks - {k});
    }
  }

  lemma IdleWork(c: Config, s: State, k: Key)
    requires Inv(c, s) && k !in s.queues
    ensures KeyWork(At(s, k)) == 0
  {
    hide ResourceQueueOk, ShaRecOk, ShaOpOk, HistoryOk, DataKept, Places, AnswerOk;
    assert KeyOk(c, s.history, k, At(s, k));
  }

  lemma PhaseWhenIdle(c: Config, s: State, k: Key)
    requires Inv(c, s)
    ensures At(s, k).q == [] ==> At(s, k).phase == None
  {
    hide ResourceQueueOk, ShaRecOk, ShaOpOk, HistoryOk, DataKept, Places, AnswerOk;
    assert KeyOk(c, s.history, k, At(s, k));
  }

  /** Changing two keys changes the sum by their difference. */
  lemma SumTwo(ks: set<Key>, f: Key -> nat, g: Key -> nat, a: Key, b: Key)
    requires a in ks && b in ks && a != b
    requires forall k | k in ks && k != a && k != b :: f(k) == g(k)
    ensures Sum(ks, g) + f(a) + f(b) == Sum(ks, f) + g(a) + g(b)
  {
    SumSplit(ks, f, a);
    SumSplit(ks, g, a);
    SumSplit(ks - {a}, f, b);
    SumSplit(ks - {a}, g, b);
    SumSame(ks - {a} - {b}, f, g);
  }

  lemma ApplyWork(c: Config, s: State, k: Key, e: Effect)
    requires Inv(c, s) && Inv(c, Apply(s, k, e)) && GoodEffect(c, s.history, k, At(s, k), e)
    requires KeyWork(e.local) + SecondWork(e) < KeyWork(At(s, k))
    ensures Work(Apply(s, k, e)) < Work(s)
  {
    hide Inv, KeyOk, AnswerOk, Available, Answered, Queued, At, Apply, Enqueue, KeyWork, Sum, LargeData, Expected;
    var s' := Apply(s, k, e);
    var f, g := (j: Key) => KeyWork(At(s, j)), (j: Key) => KeyWork(At(s', j));
    var other: Key := if e.second.Some? then e.second.value.0 else if k == [] then [0] else [];
    if e.second.Some? { SecondKey(c, s.history, e.second.value.0, e.second.value.1); }
    var ks := s.queues.Keys + s'.queues.Keys + {k, other};
    WorkOver(c, s, ks);
    WorkOver(c, s', ks);
    forall j | j in ks
      ensures j != k && j != other ==> f(j) == g(j)
    {
      AtApply(s, k, e, j);
    }
    AtApply(s, k, e, k);
    AtApply(s, k, e, other);
    PhaseWhenIdle(c, s, other);
    if e.second.Some? { EnqueueWork(At(s, other), e.second.value.1); }
    SumTwo(ks, f, g, k, other);
  }

  /** Every completion leaves strictly less work in the whole cache. */
  lemma CompletionShrinksWork(c: Config, s: State, e: Event, s': State)
    requires Inv(c, s) && Step(c, s, e, s') && !e.Client?
    ensures Work(s') < Work(s)
  {
    hide Inv, GoodEffect, KeyWork, Work, OnOpened, OnSmall, OnLarge, Apply, KeyOk;
    StepKeepsInv(c, s, e);
    CompletionGood(c, s, e);
    var k := e.key;
    var l := At(s, k);
    assert KeyOk(c, s.history, k, l) by { KeyIsOk(c, s, k); }
    CompletionWork(c, s.history, k, l, e);
    match e {
      case OpenDone(_) => ApplyWork(c, s, k, OnOpened(l));
      case SmallDone(_) => ApplyWork(c, s, k, OnSmall(c, l));
      case LargeDone(_) => ApplyWork(c, s, k, OnLarge(c, l));
    }
  }

  lemma KeyIsOk(c: Config, s: State, k: Key)
    requires Inv(c, s)
    ensures KeyOk(c, s.history, k, At(s, k))
  {
  }

  /** A key with something queued has a completion that can happen. */
  lemma NeverStuck(c: Config, s: State, k: Key) returns (e: Event)
    requires Inv(c, s) && k in s.queues
    ensures !e.Client? && e.key == k && Enabled(c, s, e)
  {
    hide ResourceQueueOk, ShaRecOk, ShaOpOk, HistoryOk, DataKept, Places, AnswerOk;
    var l := At(s, k);
    assert KeyOk(c, s.history, k, l);
    assert s.queues[k] != [];
    var p := l.phase.value;
    if p.Opening? {
      e := OpenDone(k);
    } else if !p.smallDone {
      e := SmallDone(k);
    } else {
      e := LargeDone(k);
    }
  }

  /** Without new requests, no run of completions is longer than the work there was. */
  lemma {:induction false} CompletionsRunOut(c: Config, ss: seq<State>, es: seq<Event>)
    requires |ss| == |es| + 1 && Inv(c, ss[0])
    requires forall i | 0 <= i < |es| :: !es[i].Client? && Step(c, ss[i], es[i], ss[i + 1])
    ensures |es| + Work(ss[|es|]) <= Work(ss[0])
  {
    hide Inv, Work, Step;
    if es != [] {
      assert Step(c, ss[0], es[0], ss[1]);
      CompletionShrinksWork(c, ss[0], es[0], ss[1]);
      StepInv(c, ss[0], es[0], ss[1]);
      CompletionsRunOut(c, ss[1..], es[1..]);
    }
  }

  lemma StepInv(c: Config, s: State, e: Event, s': State)
    requires Inv(c, s) && Step(c, s, e, s')
    ensures Inv(c, s')
  {
    StepKeepsInv(c, s, e);
  }

  /** In a run that has come to rest, every fetch has been answered exactly once. */
  lemma RestAnswersAll(c: Config, ss: seq<State>, es: seq<Event>, n: nat)
    requires IsRun(c, ss, es) && n < |ss|
    requires forall e: Event :: Enabled(c, ss[n], e) ==> e.Client?
    ensures forall id | 0 <= id < |ss[n].history| && ss[n].history[id].FetchCall? :: Answered(ss[n].callbacks, id) == 1
  {
    hide Inv, Enabled, IsRun;
    RunKeepsInv(c, ss, es, n);
    if ss[n].queues != map[] {
      var k :| k in ss[n].queues;
      var e := NeverStuck(c, ss[n], k);
      assert false;
    }
    FetchesAreLinearizable(c, ss, es, n);
  }
}
