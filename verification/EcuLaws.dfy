/** What the ECU makes of any byte stream, and what each frame and each query can do to it. */
module EcuLaws {
  import opened Kline
  import opened Segmenter
  import opened Builder
  import opened Ecu

  // ------------------------------------------------------------ any stream

  /** The receive buffer with `s` written over its start. */
  function Overlay(rx: Bytes, s: Bytes): Bytes
    requires |s| <= |rx|
  {
    s + rx[|s|..]
  }

  predicate Short(segs: seq<Segment>) {
    forall i :: 0 <= i < |segs| ==> |segs[i].bytes| <= 251
  }

  /** Mode, receive buffer and replies. */
  datatype Course = Course(mode: Mode, rx: Bytes, replies: seq<Reply>)

  /** The segments of a stream, one after the other: all are stored, only accepted ones are acted on, and a
      failed assertion is the end. */
  function Judged(mode: Mode, rx: Bytes, segs: seq<Segment>, ts: Tables): (c: Course)
    requires |rx| == BUFFER_SIZE && FullTables(ts) && Short(segs)
    ensures |c.rx| == BUFFER_SIZE
  {
    if segs == [] then Course(mode, rx, [])
    else
      var n := |segs| - 1;
      var c := Judged(mode, rx, segs[..n], ts);
      if c.mode == Halted then c
      else
        var rx' := Overlay(c.rx, segs[n].bytes);
        if !segs[n].Accepted? then c.(rx := rx')
        else
          var (m, r) := OnFrame(c.mode, rx', ts);
          Course(m, rx', c.replies + if r.Silent? then [] else [r])
  }

  lemma {:induction false} SegmentsShort(s: Bytes)
    ensures Short(Segments(s))
    decreases |s|
  {
    if HasSegment(s) {
      SegmentsShort(s[SegLen(s)..]);
    }
  }

  /** The receive buffer starts with the unfinished segment. */
  predicate Tidy(e: State) {
    WellFormed(e) && e.rx[..|e.pending|] == e.pending
  }

  /** After any stream the ECU stands where the judged segments of its pending bytes and the stream lead:
      same mode, same replies; unless halted, it has the rest of the stream pending. */
  ghost predicate Follows(e: State, s: Bytes)
    requires Tidy(e)
  {
    var t := e.pending + s;
    SegmentsShort(t);
    var c := Judged(e.mode, e.rx, Segments(t), e.tables);
    var (e', rs) := Feed(e, s);
    && e'.mode == c.mode && rs == c.replies && e'.tables == e.tables
    && (e'.mode != Halted ==> e'.pending == Rest(t) && |Rest(t)| <= BUFFER_SIZE && e'.rx == Overlay(c.rx, Rest(t)))
  }

  /** The ECU acts on exactly the accepted frames of the stream, in order. */
  lemma {:induction false} FeedJudges(e: State, s: Bytes)
    requires Tidy(e) && e.mode != Halted
    ensures Follows(e, s)
  {
    hide Feed, Judged, OnFrame, Sum;
    if s == [] {
      FeedNone(e);
      PendingIsRest(e);
    } else {
      var n := |s| - 1;
      FeedJudges(e, s[..n]);
      FeedAppend(e, s[..n], [s[n]]);
      FeedOne(Feed(e, s[..n]).0, s[n]);
      assert s == s[..n] + [s[n]];
      assert e.pending + s == (e.pending + s[..n]) + [s[n]];
      StepFollows(e, s[..n], s[n]);
    }
  }

  lemma FeedNone(e: State)
    requires WellFormed(e)
    ensures Feed(e, []) == (e, [])
    ensures Judged(e.mode, e.rx, [], e.tables) == Course(e.mode, e.rx, [])
  {
  }

  lemma PendingIsRest(e: State)
    requires Tidy(e)
    ensures Segments(e.pending + []) == [] && Rest(e.pending + []) == e.pending
    ensures Overlay(e.rx, e.pending) == e.rx
  {
    assert e.pending + [] == e.pending;
    assert e.rx == e.rx[..|e.pending|] + e.rx[|e.pending|..];
  }

  /** One more byte. */
  lemma StepFollows(e: State, s: Bytes, b: Byte)
    requires Tidy(e) && Follows(e, s) && WellFormed(Feed(e, s).0)
    requires Feed(e, s + [b]).0 == OnByte(Feed(e, s).0, b).0
    requires Feed(e, s + [b]).1
          == Feed(e, s).1 + if OnByte(Feed(e, s).0, b).1.Silent? then [] else [OnByte(Feed(e, s).0, b).1]
    ensures Follows(e, s + [b])
  {
    hide Feed, Judged, OnFrame, Segments, Rest, Sum;
    var t := e.pending + s;
    var e1 := Feed(e, s).0;
    assert e.pending + (s + [b]) == t + [b];
    SegmentsSnoc(t, b);
    SegmentsShort(t);
    SegmentsShort(t + [b]);
    var c := Judged(e.mode, e.rx, Segments(t), e.tables);
    var q := Rest(t) + [b];
    if HasSegment(q) {
      JudgedSnoc(e.mode, e.rx, Segments(t), Judge(q), e.tables);
    }
    if e1.mode != Halted {
      OverlaySnoc(c.rx, Rest(t), b);
      OverlayNone(Overlay(c.rx, q));
    }
  }

  lemma JudgedSnoc(mode: Mode, rx: Bytes, segs: seq<Segment>, g: Segment, ts: Tables)
    requires |rx| == BUFFER_SIZE && FullTables(ts) && Short(segs) && Short(segs + [g])
    ensures var c := Judged(mode, rx, segs, ts);
      && |g.bytes| <= 251
      && Judged(mode, rx, segs + [g], ts)
         == if c.mode == Halted then c
            else
              var rx' := Overlay(c.rx, g.bytes);
              if !g.Accepted? then c.(rx := rx')
              else
                var (m, r) := OnFrame(c.mode, rx', ts);
                Course(m, rx', c.replies + if r.Silent? then [] else [r])
  {
    hide OnFrame;
    assert (segs + [g])[..|segs|] == segs && (segs + [g])[|segs|] == g;
  }

  lemma OverlaySnoc(rx: Bytes, r: Bytes, b: Byte)
    requires |r| < |rx|
    ensures Overlay(rx, r)[|r| := b] == Overlay(rx, r + [b])
  {
  }

  lemma OverlayNone(rx: Bytes)
    ensures Overlay(rx, []) == rx
  {
  }

  /** Segments that are all rejected change no mode and draw no reply. */
  lemma {:induction false} RejectedDoNothing(mode: Mode, rx: Bytes, segs: seq<Segment>, ts: Tables)
    requires |rx| == BUFFER_SIZE && FullTables(ts) && Short(segs)
    requires forall i :: 0 <= i < |segs| ==> !segs[i].Accepted?
    ensures var c := Judged(mode, rx, segs, ts); c.mode == mode && c.replies == []
  {
    hide OnFrame;
    if segs != [] {
      RejectedDoNothing(mode, rx, segs[..|segs| - 1], ts);
    }
  }

  lemma {:induction false} NoFramesAccepted(segs: seq<Segment>)
    requires Frames(segs) == []
    ensures forall i :: 0 <= i < |segs| ==> !segs[i].Accepted?
  {
    if segs != [] {
      NoFramesAccepted(segs[1..]);
      assert segs == [segs[0]] + segs[1..];
    }
  }

  /** A stream without an accepted frame leaves the mode alone and gets no reply. */
  lemma NothingAcceptedNothingDone(e: State, s: Bytes)
    requires Tidy(e) && e.mode != Halted && AcceptedFrames(e.pending + s) == []
    ensures Feed(e, s).0.mode == e.mode && Feed(e, s).1 == []
  {
    hide Feed, Judged, Segments, Frames;
    FeedJudges(e, s);
    SegmentsShort(e.pending + s);
    NoFramesAccepted(Segments(e.pending + s));
    RejectedDoNothing(e.mode, e.rx, Segments(e.pending + s), e.tables);
  }

  /** A frame with one altered byte, other than the size byte, gets no reply and changes no mode. */
  lemma AlteredFrameIgnored(e: State, f: Bytes, k: nat, b: Byte)
    requires Tidy(e) && e.mode != Halted && e.pending == []
    requires IsFrame(f) && k < |f| && k != 1 && b != f[k]
    ensures Feed(e, f[k := b]).0.mode == e.mode && Feed(e, f[k := b]).1 == []
  {
    hide Feed, Sum, Segments;
    OneByteAltered([], f, k, b, []);
    NothingYet();
    var g := f[k := b];
    assert [] + (g + []) == e.pending + g && [] + ([BadChecksum(g)] + []) == [BadChecksum(g)];
    assert [BadChecksum(g)][1..] == [];
    NothingAcceptedNothingDone(e, g);
  }

  lemma NothingYet()
    ensures Segments([]) == [] && Rest([]) == [] && Frames([]) == []
  {
  }

  // ------------------------------------------------------------ single frames and queries

  /** The four tables by their numbers; no other is known. */
  lemma TablePages(ts: Tables, table: Byte)
    ensures GetTable(ts, 0x00) == Some(ts.t0) && GetTable(ts, 0x10) == Some(ts.t10)
    ensures GetTable(ts, 0x20) == Some(ts.t20) && GetTable(ts, 0xD1) == Some(ts.tD1)
    ensures GetTable(ts, table).Some? <==> table in {0x00, 0x10, 0x20, 0xD1}
  {
  }

  /** A table query that ends in a failed assertion or outside the transmit buffer. */
  predicate Fatal(rx: Bytes)
    requires |rx| >= 6
  {
    var end := rx[4] as int + rx[5] as int;
    && rx[0] == 0x72
    && (|| rx[2] == 0x71
        || (rx[2] == 0x72 && (|| end > 255
                              || (rx[5] != 0 && rx[3] !in {0x00, 0x10, 0x20, 0xD1})
                              || rx[5] == 250 || rx[5] == 255)))
  }

  /** When an accepted frame moves the ECU on, when it is answered and when it is the end. */
  lemma FrameActs(mode: Mode, rx: Bytes, ts: Tables)
    requires |rx| >= 6 && FullTables(ts)
    ensures mode == Wait4WakeUp ==>
      OnFrame(mode, rx, ts) == (if rx[0] == 0xFE && rx[2] == 0xFF then Wait4DiagInit else mode, Silent)
    ensures mode == Wait4DiagInit ==>
      OnFrame(mode, rx, ts) == if rx[0] == 0x72 && rx[2] == 0x00 && rx[3] == 0xF0
                               then (ActiveListen, Sent([0x02, 0x04, 0x00, 0xFA])) else (mode, Silent)
    ensures mode == ActiveListen ==>
      && (OnFrame(mode, rx, ts).0 == if Fatal(rx) then Halted else ActiveListen)
      && (OnFrame(mode, rx, ts).1.Sent? <==> rx[0] == 0x72 && (rx[2] == 0x00 || (rx[2] == 0x72 && !Fatal(rx))))
    ensures mode == Halted ==> OnFrame(mode, rx, ts) == (Halted, Silent)
  {
    hide Sealed, Sum;
    TablePages(ts, rx[3]);
    InitReply();
  }

  lemma InitReply()
    ensures INIT_REPLY == [0x02, 0x04, 0x00, 0xFA]
  {
    hide Sum;
    SumOfFew(0x02, 0x04, 0x00, 0, 0, 0, 0);
    assert [TYPE_RESPONSE, 0x04, SUBTYPE_INIT] + [] == [0x02, 0x04, 0x00];
  }

  /** After a failed assertion nothing is ever answered. */
  lemma {:induction false} HaltedForGood(e: State, s: Bytes)
    requires WellFormed(e) && e.mode == Halted
    ensures Feed(e, s) == (e, [])
    decreases |s|
  {
    if s != [] {
      HaltedForGood(e, s[1..]);
      assert OnByte(e, s[0]) == (e, Silent);
      var rs: seq<Reply> := Feed(e, s[1..]).1;
      assert Feed(e, s) == (e, [] + rs) && [] + rs == rs;
    }
  }
}
