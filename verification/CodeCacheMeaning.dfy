/**
 What the definitions of the code cache mean in plain sizes, bytes and positions: which requests are accepted, how
 they are laid out on disk, and what an answer is.
 */
module CodeCacheMeaning {
  import opened ByteSeqs
  import opened CodeCacheModel
  import opened CodeCacheProof

  // ---------------------------------------------------------------------------
  // On disk
  // ---------------------------------------------------------------------------

  /** The upper-case hexadecimal digit of a number below 16. */
  function Digit(n: int): byte
    requires 0 <= n < 16
  {
    "0123456789ABCDEF"[n] as int
  }

  lemma {:induction false} HexMeans(b: Bytes, i: nat)
    requires i < |b|
    ensures |HexEncode(b)| == 2 * |b|
    ensures HexEncode(b)[2 * i] == Digit(b[i] / 16) && HexEncode(b)[2 * i + 1] == Digit(b[i] % 16)
  {
    HexDigitMeans(b[0] / 16);
    HexDigitMeans(b[0] % 16);
    if i > 0 {
      HexMeans(b[1..], i - 1);
    }
  }

  lemma HexDigitMeans(n: int)
    requires 0 <= n < 16
    ensures HexDigit(n) == Digit(n)
  {
  }

  /**
   Up to 4096 bytes are stored behind the 12-byte header; up to 16384, or without deduplication, in the second stream;
   larger data is represented by the 64 digits of its SHA-256.
   */
  lemma LayoutMeans(c: Config, item: Item)
    requires |item.data| < 0x7fff_ffff
    ensures var r, n := Encode(c, item), |item.data|;
            && |r.small| >= 12 && FromLE(r.small[0..8]) == item.time && FromLE(r.small[8..12]) == n
            && (n <= 4096 ==> r.small[12..] == item.data && r.large == [])
            && (4096 < n && (n <= 16384 || !c.dedup) ==> |r.small| == 12 && r.large == item.data)
            && (n > 16384 && c.dedup ==> r.small[12..] == HexEncode(c.sha256(item.data)) && r.large == [])
  {
    hide LE, FromLE, HexEncode;
    RoundTrip64(item.time);
    RoundTrip32(|item.data|);
    var a, b := LE(8, item.time), LE(4, |item.data|);
    var small := Encode(c, item).small;
    assert small[0..8] == a && small[8..12] == b;
    assert small[12..] == if |item.data| <= 4096 then item.data
                          else if |item.data| <= 16384 || !c.dedup then [] else HexEncode(c.sha256(item.data));
  }

  // ---------------------------------------------------------------------------
  // Requests
  // ---------------------------------------------------------------------------

  /** Every fetch and delete of a key with a newline can happen, and every write that brings no SHA-256 collision. */
  lemma RequestsCanHappen(c: Config, s: State, call: Call)
    requires 10 in call.key && (call.WriteCall? ==> NoCollision(c, s.history + [call]))
    ensures Enabled(c, s, Client(call)) && Step(c, s, Client(call), Next(c, s, Client(call)))
  {
    hide NoCollision, Request;
  }

  /** A collision is between two different large pieces of data with one SHA-256. */
  lemma CollisionMeans(c: Config, h: seq<Call>)
    ensures NoCollision(c, h) <==>
              !c.dedup || forall m, n | 0 <= m < |h| && 0 <= n < |h| && h[m].WriteCall? && h[n].WriteCall? ::
                            |h[m].item.data| > 16384 && |h[n].item.data| > 16384 && h[m].item.data != h[n].item.data
                            ==> c.sha256(h[m].item.data) != c.sha256(h[n].item.data)
  {
  }

  /** The two streams of a write may complete in either order. */
  lemma WritesCompleteInAnyOrder(c: Config, s: State, k: Key)
    requires k in s.phases && s.phases[k].Writing?
    ensures !s.phases[k].smallDone ==> Enabled(c, s, SmallDone(k))
    ensures !s.phases[k].largeDone ==> Enabled(c, s, LargeDone(k))
  {
  }

  /** The client calls among these events that the cache takes up: all but writes of 2^31 - 1 bytes or more. */
  function Accepted(es: seq<Event>): seq<Call> {
    if es == [] then []
    else
      var e := es[|es| - 1];
      Accepted(es[..|es| - 1])
      + if e.Client? && (e.call.WriteCall? ==> |e.call.item.data| < 0x7fff_ffff) then [e.call] else []
  }

  /** The history of a run is what was there at its start and the accepted calls, in order. */
  lemma {:induction false} HistoryOfRun(c: Config, ss: seq<State>, es: seq<Event>, n: nat)
    requires IsRun(c, ss, es) && n < |ss|
    ensures ss[n].history == ss[0].history + Accepted(es[..n])
  {
    hide Inv, Enabled, AtStart;
    if n > 0 {
      HistoryOfRun(c, ss, es, n - 1);
      assert es[..n][..n - 1] == es[..n - 1];
      assert Step(c, ss[n - 1], es[n - 1], ss[n]);
      HistoryOfStep(c, ss[n - 1], es[n - 1], ss[n]);
    }
  }

  lemma HistoryOfStep(c: Config, s: State, e: Event, s': State)
    requires Step(c, s, e, s')
    ensures s'.history
         == s.history + if e.Client? && (e.call.WriteCall? ==> |e.call.item.data| < 0x7fff_ffff) then [e.call] else []
  {
    hide Enabled, OnOpened, OnSmall, OnLarge, Enqueue, At;
  }

  // ---------------------------------------------------------------------------
  // Answers
  // ---------------------------------------------------------------------------

  /** No write or delete of the key from position `n` on. */
  ghost predicate Untouched(h: seq<Call>, k: Key, n: nat) {
    forall m | n <= m < |h| :: h[m].key == k ==> h[m].FetchCall?
  }

  /** The last write is one after which nothing touches the key; without one, everything since a delete is a fetch. */
  lemma {:induction false} LastWriteMeans(h: seq<Call>, k: Key)
    ensures match LastWrite(h, k)
            case Some(item) => exists n :: 0 <= n < |h| && h[n] == WriteCall(k, item) && Untouched(h, k, n + 1)
            case None => Untouched(h, k, 0)
                         || exists n :: 0 <= n < |h| && h[n] == DeleteCall(k) && Untouched(h, k, n + 1)
  {
    if h != [] {
      var init, last := h[..|h| - 1], h[|h| - 1];
      if last.key == k && !last.FetchCall? {
        assert h[|h| - 1] == last && Untouched(h, k, |h|);
      } else {
        LastWriteMeans(init, k);
        assert forall m | 0 <= m < |init| :: init[m] == h[m];
        forall n | 0 <= n <= |init| && Untouched(init, k, n) ensures Untouched(h, k, n) { }
        match LastWrite(init, k) {
          case Some(item) =>
            var n :| 0 <= n < |init| && init[n] == WriteCall(k, item) && Untouched(init, k, n + 1);
            assert h[n] == WriteCall(k, item);
          case None =>
            if !Untouched(init, k, 0) {
              var n :| 0 <= n < |init| && init[n] == DeleteCall(k) && Untouched(init, k, n + 1);
              assert h[n] == DeleteCall(k);
            }
        }
      }
    }
  }

  /**
   Every callback of a run answers a fetch: with the time and bytes of a write to its key since which the key was
   neither written nor deleted before the fetch, or with time 0 and nothing if the key was never touched or was
   deleted last.
   */
  lemma AnswersMean(c: Config, ss: seq<State>, es: seq<Event>, n: nat, i: nat)
    requires IsRun(c, ss, es) && n < |ss| && i < |ss[n].callbacks|
    ensures var cb, h := ss[n].callbacks[i], ss[n].history;
            && cb.id < |h| && h[cb.id].FetchCall?
            && var k, before := h[cb.id].key, h[..cb.id];
            || (exists m :: 0 <= m < |before| && Untouched(before, k, m + 1)
                            && before[m] == WriteCall(k, Item(cb.time, cb.data)))
            || (cb.time == 0 && cb.data == []
                && (Untouched(before, k, 0)
                    || exists m :: 0 <= m < |before| && before[m] == DeleteCall(k) && Untouched(before, k, m + 1)))
  {
    hide IsRun, LastWrite, Untouched;
    FetchesAreLinearizable(c, ss, es, n);
    var cb, h := ss[n].callbacks[i], ss[n].history;
    LastWriteMeans(h[..cb.id], h[cb.id].key);
  }
}
