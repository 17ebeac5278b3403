/**
 The generated code cache as a state machine: per-key queues of operations on an asynchronous
 disk backend, with very large data stored once under a key derived from its checksum.
 The configuration supplies SHA-256 as a parameter.
 */
module CodeCacheModel {
  import opened ByteSeqs
  import opened EntryFormat

  type Key = Bytes

  const INLINE_DATA_LIMIT: nat := 4096
  const DEDICATED_DATA_LIMIT: nat := 16384
  const DATA_HEADER_SIZE: nat := 12
  const SHA_KEY_SIZE: nat := 64

  /** `dedup` is off only for the WebUI cache. */
  datatype Config = Config(sha256: Bytes -> Digest256, dedup: bool)

  /** Response time and code bytes. */
  datatype Item = Item(time: u64, data: Bytes)

  /** The two streams of a disk entry. */
  datatype Rec = Rec(small: Bytes, large: Bytes)

  /** A client request; fetches are named by their position in the history. */
  datatype Call = WriteCall(key: Key, item: Item) | FetchCall(key: Key) | DeleteCall(key: Key)

  datatype Op =
    | Fetch(id: nat)
    | FetchSha(id: nat, time: u64, size: nat)
    | Write(rec: Rec)
    | WriteSha(data: Bytes)
    | Delete

  /** Progress of the operation at the front of a queue. */
  datatype Phase = Opening | Writing(smallDone: bool, largeDone: bool) | Reading(smallDone: bool, succeeded: bool)

  datatype Callback = Callback(id: nat, time: u64, data: Bytes)

  /** All there is about one key: its queue, the progress of the front operation and its disk entry. */
  datatype Local = Local(q: seq<Op>, phase: Option<Phase>, rec: Option<Rec>)

  datatype State = State(queues: map<Key, seq<Op>>, phases: map<Key, Phase>, disk: map<Key, Rec>,
                         callbacks: seq<Callback>, history: seq<Call>)

  // ---------------------------------------------------------------------------
  // Keys and layouts
  // ---------------------------------------------------------------------------

  /** Keys made from a URL contain the separator's newline; checksum keys are hexadecimal. */
  predicate IsResourceKey(k: Key) {
    10 in k
  }

  function HexDigit(n: int): (d: byte)
    requires 0 <= n < 16
  {
    if n < 10 then 48 + n else 55 + n
  }

  function HexEncode(b: Bytes): (h: Bytes)
    ensures |h| == 2 * |b|
    ensures 10 !in h
  {
    if b == [] then [] else [HexDigit(b[0] / 16), HexDigit(b[0] % 16)] + HexEncode(b[1..])
  }

  lemma {:induction false} HexInjective(a: Bytes, b: Bytes)
    requires HexEncode(a) == HexEncode(b)
    ensures a == b
  {
    assert |a| == |b|;
    if a != [] {
      var x, y := HexEncode(a), HexEncode(b);
      assert x[0] == y[0] && x[1] == y[1] && x[2..] == y[2..];
      assert x[2..] == HexEncode(a[1..]) && y[2..] == HexEncode(b[1..]);
      HexInjective(a[1..], b[1..]);
      assert a[0] == b[0];
    }
  }

  predicate ShouldDeduplicate(c: Config, size: nat) {
    size > DEDICATED_DATA_LIMIT && c.dedup
  }

  function ShaKey(c: Config, data: Bytes): (k: Key)
    ensures |k| == SHA_KEY_SIZE && !IsResourceKey(k)
  {
    HexEncode(c.sha256(data))
  }

  /** Checksum keys agree exactly when the checksums do. */
  lemma ShaKeyDecides(c: Config, a: Bytes, b: Bytes)
    ensures ShaKey(c, a) == ShaKey(c, b) <==> c.sha256(a) == c.sha256(b)
  {
    if ShaKey(c, a) == ShaKey(c, b) {
      HexInjective(c.sha256(a), c.sha256(b));
    }
  }

  function DataHeader(time: u64, size: nat): (h: Bytes)
    ensures |h| == DATA_HEADER_SIZE
  {
    LE(8, time) + LE(4, size)
  }

  /** The streams a write of `item` stores under its resource key: inline, dedicated or indirect. */
  function Encode(c: Config, item: Item): Rec {
    var header := DataHeader(item.time, |item.data|);
    if |item.data| <= INLINE_DATA_LIMIT then Rec(header + item.data, [])
    else if !ShouldDeduplicate(c, |item.data|) then Rec(header, item.data)
    else Rec(header + ShaKey(c, item.data), [])
  }

  function HeaderTime(small: Bytes): u64 {
    if |small| < DATA_HEADER_SIZE then 0
    else FromLEBound(small[0..8]); Pow256Values(); FromLE(small[0..8])
  }

  function HeaderSize(small: Bytes): nat {
    if |small| < DATA_HEADER_SIZE then 0 else FromLE(small[8..12])
  }

  predicate IsValidHeader(c: Config, small: Bytes) {
    && |small| >= DATA_HEADER_SIZE
    && |small| == DATA_HEADER_SIZE + if HeaderSize(small) <= INLINE_DATA_LIMIT then HeaderSize(small)
                                     else if !ShouldDeduplicate(c, HeaderSize(small)) then 0
                                     else SHA_KEY_SIZE
  }

  function Payload(small: Bytes): Bytes {
    if |small| < DATA_HEADER_SIZE then [] else small[DATA_HEADER_SIZE..]
  }

  predicate Storable(item: Item) {
    |item.data| < INT_MAX
  }

  /** What a write stores passes the reader's header check and decodes to its time, size and payload. */
  lemma EncodeDecodes(c: Config, item: Item)
    requires Storable(item)
    ensures var small := Encode(c, item).small;
            && IsValidHeader(c, small) && HeaderTime(small) == item.time && HeaderSize(small) == |item.data|
            && Payload(small) == (if |item.data| <= INLINE_DATA_LIMIT then item.data
                                  else if !ShouldDeduplicate(c, |item.data|) then [] else ShaKey(c, item.data))
  {
    hide LE, FromLE, HexEncode;
    var a, b := LE(8, item.time), LE(4, |item.data|);
    var small := Encode(c, item).small;
    RoundTrip64(item.time);
    RoundTrip32(|item.data|);
    assert small[0..8] == a && small[8..12] == b;
  }

  // ---------------------------------------------------------------------------
  // What a fetch should return
  // ---------------------------------------------------------------------------

  /** The last write to `k` not followed by a delete. */
  function LastWrite(h: seq<Call>, k: Key): Option<Item> {
    if h == [] then None
    else
      var last := h[|h| - 1];
      if last.key == k && last.WriteCall? then Some(last.item)
      else if last.key == k && last.DeleteCall? then None
      else LastWrite(h[..|h| - 1], k)
  }

  /** What the fetch at position `id` of the history should return: the last write before it. */
  function Expected(h: seq<Call>, id: nat): Option<Item>
    requires id < |h|
  {
    LastWrite(h[..id], h[id].key)
  }

  function Answer(id: nat, v: Option<Item>): Callback {
    match v case None => Callback(id, 0, []) case Some(item) => Callback(id, item.time, item.data)
  }

  // ---------------------------------------------------------------------------
  // Steps on one key
  // ---------------------------------------------------------------------------

  /** Issue the front operation: a delete takes effect at once and the next one is issued. */
  function Settle(q: seq<Op>, rec: Option<Rec>): Local
    decreases |q|
  {
    if q == [] then Local([], None, rec)
    else if q[0].Delete? then Settle(q[1..], None)
    else Local(q, Some(Opening), rec)
  }

  function Enqueue(l: Local, op: Op): Local {
    if l.q == [] then Settle([op], l.rec) else l.(q := l.q + [op])
  }

  /** Remove the front operation and issue the next. */
  function CloseFront(l: Local): Local
    requires l.q != []
  {
    Settle(l.q[1..], l.rec)
  }

  /** The outcome of a completion: the key's new state, callbacks run, and a second operation to queue elsewhere. */
  datatype Effect = Effect(local: Local, callbacks: seq<Callback>, second: Option<(Key, Op)>)

  function Quiet(l: Local): Effect {
    Effect(l, [], None)
  }

  function FrontId(op: Op): nat {
    if op.Fetch? || op.FetchSha? then op.id else 0
  }

  function SmallOf(op: Op): Bytes {
    if op.Write? then op.rec.small else []
  }

  function LargeOf(op: Op): Bytes {
    if op.Write? then op.rec.large else if op.WriteSha? then op.data else []
  }

  predicate IsRead(op: Op) {
    op.Fetch? || op.FetchSha?
  }

  /** Completion of opening the entry. */
  function OnOpened(l: Local): Effect
    requires l.q != []
  {
    var op := l.q[0];
    if IsRead(op) then
      if l.rec == None then Effect(CloseFront(l), [Callback(FrontId(op), 0, [])], None)
      else Quiet(l.(phase := Some(Reading(false, true))))
    else
      var r := if l.rec == None then Rec([], []) else l.rec.value;
      if op.WriteSha? && r.small == [] && |r.large| == |op.data| then Quiet(CloseFront(l.(rec := Some(r))))
      else Quiet(Local(l.q, Some(Writing(false, false)), Some(r)))
  }

  /** Both buffers have been read. */
  function FinishRead(c: Config, l: Local, succeeded: bool): Effect
    requires l.q != [] && l.rec.Some?
  {
    var op, small, large := l.q[0], l.rec.value.small, l.rec.value.large;
    if !succeeded then Effect(CloseFront(l.(rec := None)), [Callback(FrontId(op), 0, [])], None)
    else if op.FetchSha? then Effect(CloseFront(l), [Callback(op.id, op.time, large)], None)
    else
      var time, size := HeaderTime(small), HeaderSize(small);
      if size <= INLINE_DATA_LIMIT then Effect(CloseFront(l), [Callback(FrontId(op), time, Payload(small))], None)
      else if !ShouldDeduplicate(c, size) then Effect(CloseFront(l), [Callback(FrontId(op), time, large)], None)
      else Effect(CloseFront(l), [], Some((Payload(small), FetchSha(FrontId(op), time, size))))
  }

  /** Completion of the small read or write. */
  function OnSmall(c: Config, l: Local): Effect
    requires l.q != [] && l.rec.Some? && l.phase.Some?
  {
    var op, r := l.q[0], l.rec.value;
    match l.phase.value
    case Opening => Quiet(l)
    case Writing(_, largeDone) =>
      var l' := l.(rec := Some(r.(small := SmallOf(op))), phase := Some(Writing(true, largeDone)));
      if largeDone then Quiet(CloseFront(l')) else Quiet(l')
    case Reading(_, _) =>
      var ok := op.FetchSha? || IsValidHeader(c, r.small);
      if r.large == [] then FinishRead(c, l, ok) else Quiet(l.(phase := Some(Reading(true, ok))))
  }

  /** Completion of the large read or write. */
  function OnLarge(c: Config, l: Local): Effect
    requires l.q != [] && l.rec.Some? && l.phase.Some?
  {
    var op, r := l.q[0], l.rec.value;
    match l.phase.value
    case Opening => Quiet(l)
    case Writing(smallDone, _) =>
      var l' := l.(rec := Some(r.(large := LargeOf(op))), phase := Some(Writing(smallDone, true)));
      if smallDone then Quiet(CloseFront(l')) else Quiet(l')
    case Reading(_, ok) => FinishRead(c, l, ok)
  }

  // ---------------------------------------------------------------------------
  // Steps of the whole cache
  // ---------------------------------------------------------------------------

  function Get<V>(m: map<Key, V>, k: Key): Option<V> {
    if k in m then Some(m[k]) else None
  }

  function Put<V>(m: map<Key, V>, k: Key, v: Option<V>): map<Key, V> {
    if v.Some? then m[k := v.value] else m - {k}
  }

  function At(s: State, k: Key): Local {
    Local(if k in s.queues then s.queues[k] else [], Get(s.phases, k), Get(s.disk, k))
  }

  /** Put one key's state back; an empty queue leaves the map. */
  function With(s: State, k: Key, l: Local): State {
    s.(queues := if l.q == [] then s.queues - {k} else s.queues[k := l.q],
       phases := Put(s.phases, k, l.phase), disk := Put(s.disk, k, l.rec))
  }

  lemma AtWith(s: State, k: Key, l: Local, k': Key)
    ensures At(With(s, k, l), k') == if k' == k then l else At(s, k')
  {
  }

  function Apply(s: State, k: Key, e: Effect): State {
    var s1 := match e.second case None => s case Some((k2, op)) => With(s, k2, Enqueue(At(s, k2), op));
    With(s1, k, e.local).(callbacks := s.callbacks + e.callbacks)
  }

  datatype Event = Client(call: Call) | OpenDone(key: Key) | SmallDone(key: Key) | LargeDone(key: Key)

  /** No two large pieces of data written so far share a SHA-256. */
  ghost predicate NoCollision(c: Config, h: seq<Call>) {
    forall m, n | 0 <= m < |h| && 0 <= n < |h| && IsLargeWrite(c, h[m]) && IsLargeWrite(c, h[n]) ::
      c.sha256(h[m].item.data) == c.sha256(h[n].item.data) ==> h[m].item.data == h[n].item.data
  }

  predicate IsLargeWrite(c: Config, call: Call) {
    call.WriteCall? && ShouldDeduplicate(c, |call.item.data|)
  }

  /** Which events can happen: a small read completes before the large one. */
  ghost predicate Enabled(c: Config, s: State, e: Event) {
    match e
    case Client(call) =>
      IsResourceKey(call.key) && (call.WriteCall? && Storable(call.item) ==> NoCollision(c, s.history + [call]))
    case OpenDone(k) => Get(s.phases, k) == Some(Opening)
    case SmallDone(k) =>
      var p := Get(s.phases, k);
      p.Some? && (p.value.Writing? || p.value.Reading?) && !p.value.smallDone
    case LargeDone(k) =>
      var p := Get(s.phases, k);
      p.Some? && ((p.value.Writing? && !p.value.largeDone) || (p.value.Reading? && p.value.smallDone))
  }

  /** A client request; data of 2^31 - 1 bytes or more is silently dropped. */
  function Request(c: Config, s: State, call: Call): State {
    match call
    case WriteCall(k, item) =>
      if !Storable(item) then s
      else
        var s1 := s.(history := s.history + [call]);
        var s2 := if !IsLargeWrite(c, call) then s1
                  else var k2 := ShaKey(c, item.data); With(s1, k2, Enqueue(At(s1, k2), WriteSha(item.data)));
        With(s2, k, Enqueue(At(s2, k), Write(Encode(c, item))))
    case FetchCall(k) =>
      With(s.(history := s.history + [call]), k, Enqueue(At(s, k), Fetch(|s.history|)))
    case DeleteCall(k) =>
      With(s.(history := s.history + [call]), k, Enqueue(At(s, k), Delete))
  }

  function Next(c: Config, s: State, e: Event): State
    requires
      || e.Client?
      || (At(s, e.key).q != [] && (!e.OpenDone? ==> At(s, e.key).rec.Some? && At(s, e.key).phase.Some?))
  {
    match e
    case Client(call) => Request(c, s, call)
    case OpenDone(k) => Apply(s, k, OnOpened(At(s, k)))
    case SmallDone(k) => Apply(s, k, OnSmall(c, At(s, k)))
    case LargeDone(k) => Apply(s, k, OnLarge(c, At(s, k)))
  }

  const Initial: State := State(map[], map[], map[], [], [])
}
