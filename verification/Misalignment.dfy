/** A tester that waits for a table answer with part of a segment pending, say after noise: when it finds
    its way back by itself, and when it does not. */
module Misalignment {
  import opened Kline
  import opened Segmenter
  import opened Builder
  import opened Comm
  import opened Session
  import opened ObdThread
  import opened ClosedLoop
  import Ecu

  /** The line is read until, at last, the timeout shows with no byte. */
  predicate UntilTimeout(polls: seq<Poll>) {
    && polls != [] && polls[|polls| - 1] == Poll(None, true)
    && forall i :: 0 <= i < |polls| - 1 ==> !polls[i].timeout
  }

  /** The frames that polls complete are those of the pending bytes and the bytes received. */
  lemma CompletedFromRest(s0: Bytes, polls: seq<Poll>, n: nat)
    requires n <= |polls|
    ensures Completed(s0, polls, n) == AcceptedFrames(Rest(s0) + Received(polls[..n]))
  {
    hide Completed, Received, Segments, Rest, Frames;
    CompletedIsAccepted(s0, polls, n);
    SegmentsConcat(s0, Received(polls[..n]));
    FramesAppend(Segments(s0), Segments(Rest(s0) + Received(polls[..n])));
    var a, b := AcceptedFrames(s0), AcceptedFrames(Rest(s0) + Received(polls[..n]));
    assert a + Completed(s0, polls, n) == a + b;
    assert b == (a + b)[|a|..] == Completed(s0, polls, n);
  }

  /** Each completed frame has the poll that completed it. */
  lemma {:induction false} PollOf(s0: Bytes, polls: seq<Poll>, n: nat, i: nat) returns (j: nat)
    requires n <= |polls| && i < |Completed(s0, polls, n)|
    ensures j < n && FrameAt(s0, polls, j) == Some(Completed(s0, polls, n)[i])
  {
    hide FrameAt;
    if i < |Completed(s0, polls, n - 1)| {
      j := PollOf(s0, polls, n - 1, i);
    } else {
      j := n - 1;
    }
  }

  /** Whatever was pending and whatever comes: a wait that lasts until the timeout lapses if and only if
      no frame that the bytes complete is a response of the awaited subtype. */
  lemma WaitUntilTimeout(s0: Bytes, polls: seq<Poll>, subtype: Byte)
    requires UntilTimeout(polls)
    ensures WaitSpec(s0, subtype, true, polls, 0) == Lapsed
      <==> NoneAnswers(AcceptedFrames(Rest(s0) + Received(polls)), subtype)
    ensures !WaitSpec(s0, subtype, true, polls, 0).Blocked?
  {
    hide FrameAt, Completed, Received, Rest, WaitSpec, AcceptedFrames;
    assert polls[..|polls|] == polls;
    CompletedFromRest(s0, polls, |polls|);
    var last, fs := |polls| - 1, Completed(s0, polls, |polls|);
    EmptyPoll(s0, polls, last);
    assert Expired(s0, polls, last, true);
    var d := FindDecisive(s0, subtype, true, polls, 0);
    assert d <= last && FirstDecisive(s0, subtype, true, polls, d);
    if FrameAt(s0, polls, d).Some? {
      WaitDecided(s0, subtype, true, polls, FrameAt(s0, polls, d).value);
    } else {
      WaitDecided(s0, subtype, true, polls, []);
    }
    if NoneAnswers(fs, subtype) {
      NotAHit(s0, polls, subtype, d, |polls|);
    } else {
      var i :| 0 <= i < |fs| && IsResponse(fs[i], subtype);
      var j := PollOf(s0, polls, |polls|, i);
      assert Hit(s0, polls, j, subtype) && j < last;
      assert d <= j;
    }
  }

  /** An active tester in the middle of a session, with anything at all pending in its parser. */
  predicate Misread(w: World) {
    w.t.enabled && !w.t.listenOnly && Listening(w.e) && (w.t.state == SendReq0 || w.t.state == SendReq1)
  }

  /** The tester gives up and starts over, from which point its parser no longer matters, if and only if it
      sees no response of the awaited subtype in what it reads. */
  lemma MisreadRound(w: World, ch: Channel)
    requires Misread(w) && |ch.passes| == 1 && UntilTimeout(ch.polls)
    ensures var w' := Play(w, ch).0;
      && w'.t.state == (if NoneAnswers(AcceptedFrames(Rest(w.seen) + Received(ch.polls)), SUBTYPE_TABLE_SUBGROUP)
                        then SendEcuInit else if w.t.state == SendReq0 then SendReq1 else SendReq0)
      && w'.t.enabled && !w'.t.listenOnly && Listening(w'.e) && w'.e.tables == w.e.tables
      && (w'.t.state == SendEcuInit ==> Calm(w'))
  {
    hide Received, WaitSpec, Rest, Ecu.Feed, Passed, Expected, AcceptedFrames, WaitUses;
    EcuRound(w.e, w.t.state, ch.passes);
    WaitUntilTimeout(w.seen, ch.polls, SUBTYPE_TABLE_SUBGROUP);
  }

  /** So one round that fails in this way and one round without loss bring the session back, with the
      parser at a boundary. */
  lemma MisreadRecovers(w: World, ch: Channel, next: Channel)
    requires Misread(w) && |ch.passes| == 1 && UntilTimeout(ch.polls)
    requires NoneAnswers(AcceptedFrames(Rest(w.seen) + Received(ch.polls)), SUBTYPE_TABLE_SUBGROUP)
    requires Ecu.WellFormed(Play(w, ch).0.e) && Honest(Play(w, ch).0, next) && Lossless(next)
    ensures var w' := Play(Play(w, ch).0, next).0;
      InSession(w') && Calm(w') && w'.e.tables == w.e.tables
  {
    hide Received, Rest, Play, AnswersOrLapses, AcceptedFrames, Truthful;
    MisreadRound(w, ch);
    RoundKeepsCalm(Play(w, ch).0, next);
  }

  /** A response that a misread stream lets appear. */
  const BOGUS: Bytes := [0x02, 0x04, 0x72, 0x88]

  /** The segmentation passes over an impossible size and over 114 bytes, and then meets the frame. */
  lemma CutInside(s: Bytes)
    requires |s| >= 120 && s[1] == 0x02 && s[3] == 0x72 && s[116..120] == BOGUS
    ensures BOGUS in AcceptedFrames(s)
  {
    hide Sum, Segments, Frames;
    SumOfFew(0x02, 0x04, 0x72, 0x88, 0, 0, 0);
    var g1, g2, rest := s[..2], s[2..116], s[120..];
    assert g2[1] == 0x72;
    assert s == g1 + (g2 + (BOGUS + rest));
    SegmentsHead(g1, g2 + (BOGUS + rest));
    SegmentsHead(g2, BOGUS + rest);
    SegmentsHead(BOGUS, rest);
    FrameAmong([Judge(g1)], [Judge(g2)], BOGUS, Segments(rest));
  }

  lemma AnswerLayout(ts: Ecu.Tables, x: Byte)
    requires Ecu.FullTables(ts)
    ensures var s := [x] + Expected(SendReq0, ts);
      |s| == 135 && s[1] == 0x02 && s[3] == 0x72 && s[116..120] == ts.t10[110..114]
  {
    hide ChecksumOf;
  }

  /** The condition does not always hold: with one byte pending, the tester can find a response inside the
      data of a table-10 answer. */
  lemma MisledByData(ts: Ecu.Tables, x: Byte)
    requires Ecu.FullTables(ts) && ts.t10[110..114] == BOGUS
    ensures Rest([x]) == [x]
    ensures !NoneAnswers(AcceptedFrames(Rest([x]) + Expected(SendReq0, ts)), SUBTYPE_TABLE_SUBGROUP)
  {
    hide Expected, AcceptedFrames;
    AnswerLayout(ts, x);
    CutInside([x] + Expected(SendReq0, ts));
    assert IsResponse(BOGUS, SUBTYPE_TABLE_SUBGROUP);
  }

  lemma FrameAmong(a: seq<Segment>, b: seq<Segment>, f: Bytes, c: seq<Segment>)
    ensures f in Frames(a + (b + ([Accepted(f)] + c)))
  {
    FramesAppend(a, b + ([Accepted(f)] + c));
    FramesAppend(b, [Accepted(f)] + c);
    assert ([Accepted(f)] + c)[0] == Accepted(f);
    assert f in Frames([Accepted(f)] + c);
  }
}
