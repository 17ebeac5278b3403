/**
 Entries over any number of sessions: created once, then opened, written and closed again and again. Which
 records a close writes follows from what changed: both after stream 1 was written, stream 0's alone when only
 stream 0 is new, none when nothing is.
 */
module EntrySessions {
  import opened ByteSeqs
  import opened EntryFormat
  import opened DenseEntry
  import opened EntryOpen

  /** One session. `stream0` is the new stream 0, if it changed; the flags choose the order and form of the records. */
  datatype Session = Session(keyKnown: bool, settings: Settings, hint: u32, writes: seq<StreamWrite>,
                             stream0: Option<Bytes>, zeroFirst: bool, crc0: bool, crc1: bool)

  /** Both streams as plain byte sequences. */
  datatype Streams = Streams(stream1: Bytes, stream0: Bytes)

  function After(s: Streams, session: Session): Streams {
    Streams(DenseEntry.Replay(s.stream1, session.writes),
            if session.stream0.Some? then session.stream0.value else s.stream0)
  }

  function AfterAll(ss: seq<Session>): Streams {
    if ss == [] then Streams([], []) else After(AfterAll(ss[..|ss| - 1]), ss[|ss| - 1])
  }

  /** Stream 0 after all sessions is that of the last one that changed it. */
  lemma {:induction false} LastStream0(ss: seq<Session>, i: nat)
    requires i < |ss| && ss[i].stream0.Some? && forall j | i < j < |ss| :: ss[j].stream0.None?
    ensures AfterAll(ss).stream0 == ss[i].stream0.value
    decreases |ss|
  {
    hide DenseEntry.Replay;
    if i < |ss| - 1 {
      LastStream0(ss[..|ss| - 1], i);
    }
  }

  /** Without such a session it is empty. */
  lemma {:induction false} NoStream0(ss: seq<Session>)
    requires forall j | 0 <= j < |ss| :: ss[j].stream0.None?
    ensures AfterAll(ss).stream0 == []
  {
    hide DenseEntry.Replay;
    if ss != [] {
      NoStream0(ss[..|ss| - 1]);
    }
  }

  /** A byte of stream 1 written in session `n` stays until it is written over or cut off, in that session or later. */
  lemma {:induction false} Stream1Stays(ss: seq<Session>, n: nat, i: nat, p: nat)
    requires n < |ss| && i < |ss[n].writes|
    requires var w := ss[n].writes[i]; w.offset <= p < w.offset + |w.buf|
    requires forall j | i < j < |ss[n].writes| :: Spares(ss[n].writes[j], p)
    requires forall m, j | n < m < |ss| && 0 <= j < |ss[m].writes| :: Spares(ss[m].writes[j], p)
    ensures var s := AfterAll(ss).stream1;
            p < |s| && s[p] == ss[n].writes[i].buf[p - ss[n].writes[i].offset]
    decreases |ss|
  {
    hide DenseEntry.Replay;
    var last := |ss| - 1;
    if n == last {
      StaysInStream(AfterAll(ss[..last]).stream1, ss[last].writes, i, p);
    } else {
      Stream1Stays(ss[..last], n, i, p);
      SparedByAll(AfterAll(ss[..last]).stream1, ss[last].writes, p);
    }
  }

  /** The write neither covers nor cuts off position `p`. */
  predicate Spares(w: StreamWrite, p: nat) {
    p < w.offset || (w.offset + |w.buf| <= p && !w.truncate)
  }

  lemma {:induction false} SparedByAll(s: Bytes, ws: seq<StreamWrite>, p: nat)
    requires p < |s| && forall j | 0 <= j < |ws| :: Spares(ws[j], p)
    ensures p < |DenseEntry.Replay(s, ws)| && DenseEntry.Replay(s, ws)[p] == s[p]
  {
    hide WriteStream;
    if ws != [] {
      var w, before := ws[|ws| - 1], DenseEntry.Replay(s, ws[..|ws| - 1]);
      SparedByAll(s, ws[..|ws| - 1], p);
      StreamLength(before, w.offset, w.buf, w.truncate);
      StreamByte(before, w.offset, w.buf, w.truncate, p);
    }
  }

  /** Stream 0 stays within `int`, and offsets within 63 bits. */
  ghost predicate Fits(key: Bytes, s: Streams) {
    |s.stream0| <= INT_MAX && |key| < U32_LIMIT && |s.stream1| < OFFSET_LIMIT
  }

  /** A closed file with these streams. */
  ghost predicate ClosedAs(hashes: Hashes, key: Bytes, s: Streams, f: Bytes, p: Parts, e0: Eof, e1: Eof) {
    && WellSized(p) && Holds(f, p)
    && p.key == key && p.stream1 == s.stream1 && p.stream0 == s.stream0
    && p.header == FileHeader(ENTRY_VERSION, |key|, hashes.keyHash(key))
    && GoodEof0(hashes, p, e0) && HasKeySha256(e0) && GoodEof1(hashes, p, e1)
  }

  /** The file holds stream 1, and opens with both streams if and only if stream 0 is small enough. */
  ghost predicate OpensWith(hashes: Hashes, key: Bytes, s: Streams, f: Bytes) {
    var h := FILE_HEADER_SIZE + |key|;
    && h + |s.stream1| <= |f| && f[h..h + |s.stream1|] == s.stream1
    && OpenSpec(hashes, f, None)
       == if |s.stream0| + SHA256_SIZE <= INT_MAX then Opened(key, EntryStat(|s.stream0|, |s.stream1|), s.stream0)
          else OpenFailed
  }

  /** A session's open succeeds: stream 0 is small enough, and stream 1 where the prefetched part reaches back to it. */
  predicate Opens(key: Bytes, s: Streams, f: Bytes, session: Session) {
    && |s.stream0| + SHA256_SIZE <= INT_MAX
    && (PrefetchStart(f, session.settings, session.hint) <= FILE_HEADER_SIZE + |key| ==> |s.stream1| <= INT_MAX)
  }

  /** The limits in numbers: 2^31 - 33 bytes of stream 0, 2^31 - 1 of stream 1 where it is looked at. */
  lemma OpensMeans(key: Bytes, s: Streams, f: Bytes, session: Session)
    ensures Opens(key, s, f, session) <==>
              && |s.stream0| <= 2147483615
              && (24 + |key| >= PrefetchStart(f, session.settings, session.hint) ==> |s.stream1| <= 2147483647)
  {
    hide PrefetchStart;
  }

  function Records(hashes: Hashes, s: Streams, session: Session): (rs: seq<CrcRecord>)
    ensures forall i | 0 <= i < |rs| :: rs[i].index <= 1
  {
    var r0 := CrcRecord(0, session.crc0, if session.crc0 then hashes.crc32(s.stream0) else 0);
    var r1 := CrcRecord(1, session.crc1, if session.crc1 then hashes.crc32(s.stream1) else 0);
    if session.writes != [] then (if session.zeroFirst then [r0, r1] else [r1, r0])
    else if session.stream0.Some? then [r0]
    else []
  }

  /** A closed file opens as what it is. */
  lemma ClosedOpens(hashes: Hashes, key: Bytes, s: Streams, f: Bytes, p: Parts, e0: Eof, e1: Eof, known: Option<Bytes>)
    requires ClosedAs(hashes, key, s, f, p, e0, e1) && Fits(key, s) && (known == None || known == Some(key))
    ensures var st := EntryStat(|s.stream0|, |s.stream1|);
            && OpenSpec(hashes, f, known)
               == (if |s.stream0| + SHA256_SIZE <= INT_MAX then Opened(key, st, s.stream0) else OpenFailed)
            && EofAt(f, |f| - EOF_SIZE) == Some(e0)
            && (Stream1Ok(hashes, f, key, st) <==> |s.stream1| <= INT_MAX)
            && |f| < U64_LIMIT
  {
    hide OpenSpec, Stream1Ok, EofAt, FileHeader, EofBytes;
    OpenRecovers(hashes, f, p, e0, known);
    EofAtEnd(f, p, e0);
    if |s.stream1| <= INT_MAX {
      Stream1Recovers(hashes, f, p, e1);
    }
    Stream1Limit(hashes, f, key, EntryStat(|s.stream0|, |s.stream1|));
  }

  /** Closing leaves a closed file with the new streams, whichever records had to be written. */
  lemma ClosesAs(hashes: Hashes, key: Bytes, s: Streams, f0: Bytes, p: Parts, e0: Eof, e1: Eof, session: Session,
                 f: Bytes)
      returns (p': Parts, e0': Eof, e1': Eof)
    requires ClosedAs(hashes, key, s, f0, p, e0, e1) && Fits(key, After(s, session))
    requires var h := FILE_HEADER_SIZE + |key|;
             var s' := After(s, session);
             && h + |s'.stream1| <= |f|
             && f[..FILE_HEADER_SIZE] == FileHeader(ENTRY_VERSION, |key|, hashes.keyHash(key))
             && f[FILE_HEADER_SIZE..h] == key && f[h..h + |s'.stream1|] == s'.stream1
    requires session.writes == [] ==> f == f0
    ensures var s' := After(s, session);
            var st := EntryStat(|s'.stream0|, |s'.stream1|);
            ClosedAs(hashes, key, s', FileAfterRecords(hashes, f, key, st, s'.stream0, Records(hashes, s', session)),
                     p', e0', e1')
  {
    hide FileHeader, EofBytes, FileAfterRecord, EofFor, Assemble, Holds, ClosedParts, GoodEof0, GoodEof1;
    var s' := After(s, session);
    var rs := Records(hashes, s', session);
    var r0 := CrcRecord(0, session.crc0, if session.crc0 then hashes.crc32(s'.stream0) else 0);
    if session.writes != [] {
      var r1 := CrcRecord(1, session.crc1, if session.crc1 then hashes.crc32(s'.stream1) else 0);
      p' := ClosedParts(hashes, key, s'.stream1, s'.stream0, r0, r1);
      e0', e1' := EofFor(hashes, s'.stream0, r0), EofFor(hashes, s'.stream0, r1);
      ClosedGood(hashes, key, s'.stream1, s'.stream0, r0, r1);
      CloseAssembles(hashes, f, key, s'.stream1, s'.stream0, r0, r1, rs);
      HoldsIsAssemble(FileAfterRecords(hashes, f, key, EntryStat(|s'.stream0|, |s'.stream1|), s'.stream0, rs), p');
    } else if session.stream0.Some? {
      e0', e1' := EofFor(hashes, s'.stream0, r0), e1;
      p' := p.(stream0 := s'.stream0, eof0 := EofBytes(e0'));
      DigestThere(hashes, p, e0);
      CloseZeroOnly(hashes, f, p, s'.stream0, r0);
      ZeroGood(hashes, p, e1, s'.stream0, r0);
    } else {
      p', e0', e1' := p, e0, e1;
    }
  }

  lemma DigestThere(hashes: Hashes, p: Parts, e0: Eof)
    requires GoodEof0(hashes, p, e0) && HasKeySha256(e0)
    ensures p.digest == hashes.sha256(p.key)
  {
  }

  lemma ZeroGood(hashes: Hashes, p: Parts, e1: Eof, stream0: Bytes, r0: CrcRecord)
    requires WellSized(p) && GoodEof1(hashes, p, e1) && p.digest == hashes.sha256(p.key)
    requires r0.index == 0 && |stream0| <= INT_MAX && (r0.hasCrc ==> r0.crc == hashes.crc32(stream0))
    ensures var e0 := EofFor(hashes, stream0, r0);
            var p' := p.(stream0 := stream0, eof0 := EofBytes(e0));
            WellSized(p') && GoodEof0(hashes, p', e0) && HasKeySha256(e0) && GoodEof1(hashes, p', e1)
  {
    hide EofBytes;
  }

  /** Open, write and close once more; nothing happens when the open fails. */
  method Edit(hashes: Hashes, key: Bytes, f: Bytes, session: Session, ghost s: Streams, ghost p: Parts, ghost e0: Eof,
              ghost e1: Eof) returns (r: Option<Bytes>, ghost p': Parts, ghost e0': Eof, ghost e1': Eof)
    requires ClosedAs(hashes, key, s, f, p, e0, e1) && Fits(key, s) && Fits(key, After(s, session))
    ensures r.Some? <==> Opens(key, s, f, session)
    ensures r.None? ==> p' == p && e0' == e0 && e1' == e1
    ensures r.Some? ==> ClosedAs(hashes, key, After(s, session), r.value, p', e0', e1')
  {
    hide FileHeader, DenseEntry.Replay, FileAfterRecords, OpenSpec, Stream1Ok, EofAt, EofBytes, ClosedAs, Records,
      PrefetchStart, HasKeySha256, Extra;
    p', e0', e1' := p, e0, e1;
    ClosedStream1(hashes, key, s, f, p, e0, e1);
    var known := if session.keyKnown then Some(key) else None;
    ClosedOpens(hashes, key, s, f, p, e0, e1, known);
    var found, stream1, trailer, fileReads := OpenEntry(hashes, f, known, session.settings, session.hint);
    if found.OpenFailed? {
      return None, p', e0', e1';
    }
    var entry := new DenseSynchronousEntry.Reopened(hashes, key, f, found.stat);
    entry.WriteAll(session.writes);
    var stream0 := if session.stream0.Some? then session.stream0.value else found.stream0;
    ghost var g := entry.file;
    var h := FILE_HEADER_SIZE + |key|;
    var s' := Streams(entry.file[h..h + entry.size1], stream0);
    var estimate := entry.Close(Records(hashes, s', session), stream0);
    p', e0', e1' := ClosesAs(hashes, key, s, f, p, e0, e1, session, g);
    return Some(entry.file), p', e0', e1';
  }

  /** The first session: a new file, closed with a record for each stream. */
  method Create(hashes: Hashes, key: Bytes, session: Session)
    returns (f: Bytes, ghost p: Parts, ghost e0: Eof, ghost e1: Eof)
    requires Fits(key, After(Streams([], []), session))
    ensures ClosedAs(hashes, key, After(Streams([], []), session), f, p, e0, e1)
    ensures OpensWith(hashes, key, After(Streams([], []), session), f)
  {
    hide FileHeader, DenseEntry.Replay, FileAfterRecords, EofBytes, GoodEof0, GoodEof1, ClosedParts, EofFor, Assemble;
    var entry := new DenseSynchronousEntry(hashes, key);
    entry.WriteAll(session.writes);
    var stream0 := if session.stream0.Some? then session.stream0.value else [];
    var h := FILE_HEADER_SIZE + |key|;
    var stream1 := entry.file[h..h + entry.size1];
    var r0 := CrcRecord(0, session.crc0, if session.crc0 then hashes.crc32(stream0) else 0);
    var r1 := CrcRecord(1, session.crc1, if session.crc1 then hashes.crc32(stream1) else 0);
    var rs := if session.zeroFirst then [r0, r1] else [r1, r0];
    ghost var g := entry.file;
    var estimate := entry.Close(rs, stream0);
    f := entry.file;
    p := ClosedParts(hashes, key, stream1, stream0, r0, r1);
    e0, e1 := EofFor(hashes, stream0, r0), EofFor(hashes, stream0, r1);
    ClosedGood(hashes, key, stream1, stream0, r0, r1);
    CloseAssembles(hashes, g, key, stream1, stream0, r0, r1, rs);
    HoldsIsAssemble(f, p);
    ClosedOpensWith(hashes, key, After(Streams([], []), session), f, p, e0, e1);
  }

  /**
   Any number of sessions, as far as their opens succeed: the file left behind opens with both streams as a plain
   run of the same changes leaves them, stream 0 being kept by sessions that do not change it. A session fails to
   open only if a stream has outgrown the limits.
   */
  method RunSessions(hashes: Hashes, key: Bytes, ss: seq<Session>) returns (n: nat, f: Bytes)
    requires ss != [] && forall k | 0 <= k <= |ss| :: Fits(key, AfterAll(ss[..k]))
    ensures 0 < n <= |ss| && (n < |ss| ==> !Opens(key, AfterAll(ss[..n]), f, ss[n]))
    ensures OpensWith(hashes, key, AfterAll(ss[..n]), f)
  {
    hide After, ClosedAs, Opens, OpensWith;
    ghost var p: Parts, e0: Eof, e1: Eof;
    assert ss[..1][..0] == [] && ss[..1][0] == ss[0];
    assert AfterAll(ss[..1]) == After(AfterAll([]), ss[0]) && AfterAll([]) == Streams([], []);
    assert Fits(key, AfterAll(ss[..1]));
    f, p, e0, e1 := Create(hashes, key, ss[0]);
    n := 1;
    while n < |ss|
      invariant 0 < n <= |ss| && ClosedAs(hashes, key, AfterAll(ss[..n]), f, p, e0, e1)
    {
      assert ss[..n + 1][..n] == ss[..n] && ss[..n + 1][n] == ss[n];
      assert Fits(key, AfterAll(ss[..n])) && Fits(key, AfterAll(ss[..n + 1]));
      var r: Option<Bytes>;
      r, p, e0, e1 := Edit(hashes, key, f, ss[n], AfterAll(ss[..n]), p, e0, e1);
      if r == None {
        break;
      }
      f := r.value;
      n := n + 1;
    }
    ClosedOpensWith(hashes, key, AfterAll(ss[..n]), f, p, e0, e1);
  }

  lemma ClosedOpensWith(hashes: Hashes, key: Bytes, s: Streams, f: Bytes, p: Parts, e0: Eof, e1: Eof)
    requires ClosedAs(hashes, key, s, f, p, e0, e1) && Fits(key, s)
    ensures OpensWith(hashes, key, s, f)
  {
    hide ClosedAs, OpenSpec, FileHeader;
    ClosedOpens(hashes, key, s, f, p, e0, e1, None);
    ClosedStream1(hashes, key, s, f, p, e0, e1);
  }

  lemma ClosedStream1(hashes: Hashes, key: Bytes, s: Streams, f: Bytes, p: Parts, e0: Eof, e1: Eof)
    requires ClosedAs(hashes, key, s, f, p, e0, e1)
    ensures var h := FILE_HEADER_SIZE + |key|;
            && h + |s.stream1| <= |f| && f[h..h + |s.stream1|] == s.stream1
            && f[..FILE_HEADER_SIZE] == FileHeader(ENTRY_VERSION, |key|, hashes.keyHash(key))
            && f[FILE_HEADER_SIZE..h] == key
            && HasKeySha256(e0)
  {
    hide GoodEof0, GoodEof1, FileHeader;
  }
}
