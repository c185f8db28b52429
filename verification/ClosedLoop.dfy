/** Tester and ECU on one k-line. In each round the tester does one update; the channel delivers or
    loses each frame whole, and a response reaches the tester within the round or not at all. Between
    times the tester may hear any other frames, such as echoes of its own. */
module ClosedLoop {
  import opened Kline
  import opened Segmenter
  import opened Builder
  import opened Comm
  import opened Session
  import opened ObdThread
  import opened ThreadRuns
  import Ecu

  // ------------------------------------------------------------ waits on a line that carries frames

  /** The frames that the first `n` polls complete. */
  function Completed(s0: Bytes, polls: seq<Poll>, n: nat): seq<Bytes>
    requires n <= |polls|
  {
    if n == 0 then []
    else Completed(s0, polls, n - 1) + match FrameAt(s0, polls, n - 1) case Some(f) => [f] case None => []
  }

  lemma {:induction false} CompletedIsAccepted(s0: Bytes, polls: seq<Poll>, n: nat)
    requires n <= |polls|
    ensures AcceptedFrames(s0 + Received(polls[..n])) == AcceptedFrames(s0) + Completed(s0, polls, n)
  {
    hide AcceptedFrames, FrameAt, Received;
    if n == 0 {
      ReceivedNothing(polls, s0);
    } else {
      CompletedIsAccepted(s0, polls, n - 1);
      PollReceives(s0, polls, n - 1);
    }
  }

  /** When the bytes received after a boundary are whole frames, those are the frames completed. */
  lemma CompletedIsReceived(s0: Bytes, polls: seq<Poll>, fs: seq<Bytes>)
    requires Rest(s0) == [] && AllFrames(fs) && Received(polls) == Flatten(fs)
    ensures Completed(s0, polls, |polls|) == fs
    ensures Rest(s0 + Received(polls)) == []
  {
    hide Received, Completed, Segments, Rest, Frames, AllAccepted;
    assert polls[..|polls|] == polls;
    CompletedIsAccepted(s0, polls, |polls|);
    SegmentsConcat(s0, Flatten(fs));
    assert [] + Flatten(fs) == Flatten(fs) + [];
    FramesParse(fs, []);
    NothingCut();
    FramesOfAllAccepted(fs);
    FramesAppend(Segments(s0), AllAccepted(fs));
    assert AllAccepted(fs) + [] == AllAccepted(fs);
    var a := AcceptedFrames(s0);
    assert a + Completed(s0, polls, |polls|) == a + fs;
    assert fs == (a + fs)[|a|..] == Completed(s0, polls, |polls|);
  }

  lemma NothingCut()
    ensures Segments([]) == [] && Rest([]) == []
  {
  }

  lemma {:induction false} CompletedPrefix(s0: Bytes, polls: seq<Poll>, m: nat, n: nat)
    requires m <= n <= |polls|
    ensures Completed(s0, polls, m) <= Completed(s0, polls, n)
    decreases n
  {
    hide FrameAt;
    if m < n {
      CompletedPrefix(s0, polls, m, n - 1);
    }
  }

  /** The poll that completes the last frame. */
  lemma {:induction false} LastCompletion(s0: Bytes, polls: seq<Poll>, n: nat) returns (k: nat)
    requires n <= |polls| && Completed(s0, polls, n) != []
    ensures k < n && FrameAt(s0, polls, k).Some?
    ensures Completed(s0, polls, n) == Completed(s0, polls, k) + [FrameAt(s0, polls, k).value]
  {
    hide FrameAt;
    if FrameAt(s0, polls, n - 1).Some? {
      k := n - 1;
    } else {
      k := LastCompletion(s0, polls, n - 1);
    }
  }

  predicate NoneAnswers(fs: seq<Bytes>, subtype: Byte) {
    forall i :: 0 <= i < |fs| ==> !IsResponse(fs[i], subtype)
  }

  /** A poll before `n` that completes a frame completes one of `Completed(n)`. */
  lemma NotAHit(s0: Bytes, polls: seq<Poll>, subtype: Byte, j: nat, n: nat)
    requires j < n <= |polls| && NoneAnswers(Completed(s0, polls, n), subtype)
    ensures !Hit(s0, polls, j, subtype)
  {
    hide FrameAt;
    CompletedPrefix(s0, polls, j + 1, n);
    if FrameAt(s0, polls, j).Some? {
      var c := Completed(s0, polls, j + 1);
      assert c[|c| - 1] == FrameAt(s0, polls, j).value == Completed(s0, polls, n)[|c| - 1];
    }
  }

  /** A response that comes before the timeout is found, whatever other frames come first. */
  lemma WaitAnswered(s0: Bytes, polls: seq<Poll>, subtype: Byte, before: seq<Bytes>, reply: Bytes)
    requires Rest(s0) == [] && AllFrames(before) && IsFrame(reply) && Received(polls) == Flatten(before + [reply])
    requires NoneAnswers(before, subtype) && IsResponse(reply, subtype)
    requires forall i :: 0 <= i < |polls| ==> !Expired(s0, polls, i, true)
    ensures WaitSpec(s0, subtype, true, polls, 0) == Found(reply)
  {
    hide FrameAt, Completed, Received, Rest;
    CompletedIsReceived(s0, polls, before + [reply]);
    var k := LastCompletion(s0, polls, |polls|);
    assert Completed(s0, polls, k) == before by {
      assert (before + [reply])[..|before|] == before;
      assert (Completed(s0, polls, k) + [FrameAt(s0, polls, k).value])[..|before|] == Completed(s0, polls, k);
    }
    assert (before + [reply])[|before|] == FrameAt(s0, polls, k).value;
    forall j | 0 <= j < k
      ensures !Hit(s0, polls, j, subtype)
    {
      NotAHit(s0, polls, subtype, j, k);
    }
    WaitSkips(s0, subtype, true, polls, 0, k);
  }

  /** A wait in which no response comes ends when the timeout shows. */
  lemma WaitLapses(s0: Bytes, polls: seq<Poll>, subtype: Byte, before: seq<Bytes>, k: nat)
    requires Rest(s0) == [] && AllFrames(before) && Received(polls) == Flatten(before)
    requires NoneAnswers(before, subtype)
    requires k < |polls| && Expired(s0, polls, k, true)
    ensures WaitSpec(s0, subtype, true, polls, 0) == Lapsed
  {
    hide FrameAt, Completed, Received, Rest, WaitSpec;
    CompletedIsReceived(s0, polls, before);
    forall j | 0 <= j < |polls|
      ensures !Hit(s0, polls, j, subtype)
    {
      NotAHit(s0, polls, subtype, j, |polls|);
    }
    var d := FindDecisive(s0, subtype, true, polls, 0);
    assert d < |polls| && FirstDecisive(s0, subtype, true, polls, d);
    WaitDecided(s0, subtype, true, polls, []);
  }

  // ------------------------------------------------------------ the ECU's side of a round

  /** What the ECU must answer to what the tester sends in `state`. */
  function Expected(state: CommState, ts: Ecu.Tables): Bytes
    requires Ecu.FullTables(ts)
  {
    if state == SendReq0 then Encode(Message(TYPE_RESPONSE, SUBTYPE_TABLE_SUBGROUP, [TABLE_10, 0] + ts.t10[..0x80]))
    else if state == SendReq1 then Encode(Message(TYPE_RESPONSE, SUBTYPE_TABLE_SUBGROUP, [TABLE_D1, 0] + ts.tD1[..6]))
    else Ecu.INIT_REPLY
  }

  lemma ExpectedAnswers(state: CommState, ts: Ecu.Tables)
    requires Ecu.FullTables(ts) && state != GpioInit
    ensures IsFrame(Expected(state, ts)) && IsResponse(Expected(state, ts), Wanted(state))
  {
    hide IsFrame, Sum;
    EncodeIsFrame(Message(TYPE_RESPONSE, SUBTYPE_TABLE_SUBGROUP, [TABLE_10, 0] + ts.t10[..0x80]));
    EncodeIsFrame(Message(TYPE_RESPONSE, SUBTYPE_TABLE_SUBGROUP, [TABLE_D1, 0] + ts.tD1[..6]));
    EncodeIsFrame(Message(TYPE_RESPONSE, SUBTYPE_INIT, []));
    FrameSize(Expected(state, ts));
  }

  /** The query that a state waits on: the last frame it sends. */
  function Query(state: CommState): Bytes {
    if state == GpioInit then [] else FramesOf(state)[|FramesOf(state)| - 1]
  }

  /** `f` is the ECU's answer to query `q`: to an init query the empty init response; to a table query
      the response that repeats the table and offset named in `q`, followed by that slice of the table. */
  ghost predicate AnswersQuery(q: Bytes, f: Bytes, ts: Ecu.Tables)
    requires Ecu.FullTables(ts)
  {
    && IsFrame(f) && |q| >= 4 && q[0] == TYPE_QUERY
    && if q[2] == SUBTYPE_INIT then Decode(f) == Message(TYPE_RESPONSE, SUBTYPE_INIT, [])
       else
         && q[2] == SUBTYPE_TABLE_SUBGROUP && |q| >= 6
         && q[4] + q[5] <= TABLE_SIZE_MAX && Ecu.GetTable(ts, q[3]).Some?
         && Ecu.Serves(Ecu.Sent(f), ts, q[3], q[4], q[5])
  }

  lemma ExpectedServes(state: CommState, ts: Ecu.Tables)
    requires Ecu.FullTables(ts) && state != GpioInit
    ensures AnswersQuery(Query(state), Expected(state, ts), ts)
  {
    hide IsFrame, Encode, Decode;
    EncodeIsFrame(Message(TYPE_RESPONSE, SUBTYPE_TABLE_SUBGROUP, [TABLE_10, 0] + ts.t10[..0x80]));
    EncodeIsFrame(Message(TYPE_RESPONSE, SUBTYPE_TABLE_SUBGROUP, [TABLE_D1, 0] + ts.tD1[..6]));
    EncodeIsFrame(Message(TYPE_RESPONSE, SUBTYPE_INIT, []));
    assert ts.t10[0..0x80] == ts.t10[..0x80] && ts.tD1[0..6] == ts.tD1[..6];
    FrameSize(Expected(state, ts));
  }

  lemma FrameSize(f: Bytes)
    ensures IsFrame(f) ==> |f| >= 4
  {
  }

  /** Between frames, with every assertion so far passed. */
  predicate Listening(e: Ecu.State) {
    Ecu.WellFormed(e) && e.pending == [] && e.mode != Ecu.Halted
  }

  lemma EcuTakesWakeUp(e: Ecu.State)
    requires Listening(e)
    ensures var (e', rs) := Ecu.Feed(e, WAKE_UP);
      && Listening(e') && e'.tables == e.tables && rs == []
      && e'.mode == if e.mode == Ecu.Wait4WakeUp then Ecu.Wait4DiagInit else e.mode
  {
    hide Ecu.Feed, IsFrame, Sum, Encode;
    ConstantFrames();
    Ecu.FeedFrame(e, WAKE_UP);
  }

  lemma EcuTakesInit(e: Ecu.State)
    requires Listening(e)
    ensures var (e', rs) := Ecu.Feed(e, INIT);
      && Listening(e') && e'.tables == e.tables
      && e'.mode == (if e.mode == Ecu.Wait4WakeUp then e.mode else Ecu.ActiveListen)
      && rs == if e.mode == Ecu.Wait4WakeUp then [] else [Ecu.Sent(Ecu.INIT_REPLY)]
  {
    hide Ecu.Feed, IsFrame, Sum, Encode;
    ConstantFrames();
    Ecu.FeedFrame(e, INIT);
  }

  lemma EcuTakesQuery(e: Ecu.State, state: CommState)
    requires Listening(e) && (state == SendReq0 || state == SendReq1)
    ensures var (e', rs) := Ecu.Feed(e, FramesOf(state)[0]);
      && Listening(e') && e'.tables == e.tables && e'.mode == e.mode
      && rs == if e.mode == Ecu.ActiveListen then [Ecu.Sent(Expected(state, e.tables))] else []
  {
    hide Ecu.Feed, IsFrame, Sum, Encode, Ecu.TableReply;
    ConstantFrames();
    Ecu.FeedFrame(e, FramesOf(state)[0]);
    if state == SendReq0 {
      Ecu.ShortReply(e.tables, TABLE_10, 0, 0x80);
      assert e.tables.t10[0..0x80] == e.tables.t10[..0x80];
    } else {
      Ecu.ShortReply(e.tables, TABLE_D1, 0, 0x06);
      assert e.tables.tD1[0..6] == e.tables.tD1[..6];
    }
  }

  /** The bytes of the frames that the channel lets pass. */
  function Passed(fs: seq<Bytes>, passes: seq<bool>): Bytes
    requires |fs| == |passes|
  {
    if fs == [] then [] else (if passes[0] then fs[0] else []) + Passed(fs[1..], passes[1..])
  }

  /** What the ECU makes of a round: whether it replies, and its mode after. */
  function Replies(mode: Ecu.Mode, state: CommState, passes: seq<bool>): bool
    requires |passes| == |FramesOf(state)|
  {
    match state
    case GpioInit => false
    case SendEcuInit => passes[1] && (mode != Ecu.Wait4WakeUp || passes[0])
    case _ => passes[0] && mode == Ecu.ActiveListen
  }

  function NextMode(mode: Ecu.Mode, state: CommState, passes: seq<bool>): Ecu.Mode
    requires |passes| == |FramesOf(state)|
  {
    if state != SendEcuInit then mode
    else if Replies(mode, state, passes) then Ecu.ActiveListen
    else if mode == Ecu.Wait4WakeUp && passes[0] then Ecu.Wait4DiagInit
    else mode
  }

  /** Whatever passes, no assertion of the ECU trips, and it answers what the tester expects or nothing. */
  lemma EcuRound(e: Ecu.State, state: CommState, passes: seq<bool>)
    requires Listening(e) && |passes| == |FramesOf(state)|
    ensures var (e', rs) := Ecu.Feed(e, Passed(FramesOf(state), passes));
      && Listening(e') && e'.tables == e.tables && e'.mode == NextMode(e.mode, state, passes)
      && rs == if Replies(e.mode, state, passes) then [Ecu.Sent(Expected(state, e.tables))] else []
  {
    hide Ecu.Feed, Listening, Encode, WAKE_UP, INIT, QUERY_10, QUERY_D1;
    FeedNothing(e);
    match state
    case GpioInit =>
    case SendEcuInit =>
      EcuTakesWakeUp(e);
      EcuTakesInit(e);
      EcuTakesInit(Ecu.Feed(e, WAKE_UP).0);
      FeedBoth(e);
      PassedPair(WAKE_UP, INIT, passes);
    case _ =>
      EcuTakesQuery(e, state);
      PassedOne(FramesOf(state)[0], passes);
  }

  lemma FeedNothing(e: Ecu.State)
    ensures Ecu.WellFormed(e) ==> Ecu.Feed(e, []) == (e, [])
    ensures Listening(e) ==> Ecu.WellFormed(e)
  {
  }

  lemma FeedBoth(e: Ecu.State)
    requires Listening(e)
    ensures Ecu.WellFormed(Ecu.Feed(e, WAKE_UP).0)
    ensures Ecu.Feed(e, WAKE_UP + INIT).0 == Ecu.Feed(Ecu.Feed(e, WAKE_UP).0, INIT).0
    ensures Ecu.Feed(e, WAKE_UP + INIT).1 == Ecu.Feed(e, WAKE_UP).1 + Ecu.Feed(Ecu.Feed(e, WAKE_UP).0, INIT).1
  {
    hide Ecu.Feed;
    Ecu.FeedAppend(e, WAKE_UP, INIT);
  }

  lemma PassedOne(f: Bytes, passes: seq<bool>)
    requires |passes| == 1
    ensures Passed([f], passes) == if passes[0] then f else []
  {
    assert [f][1..] == [];
  }

  lemma PassedPair(f: Bytes, g: Bytes, passes: seq<bool>)
    requires |passes| == 2
    ensures Passed([f, g], passes)
         == if passes[0] then (if passes[1] then f + g else f) else if passes[1] then g else []
  {
    assert [f, g][1..] == [g];
    PassedOne(g, passes[1..]);
  }

  // ------------------------------------------------------------ rounds and runs

  datatype World = World(t: Tester, seen: Bytes, e: Ecu.State)

  /** One round of the channel: which sent frames pass, whether the reply passes, which other frames the
      tester hears before it, and how bytes and the timeout flag show up in the tester's polls. */
  datatype Channel = Channel(passes: seq<bool>, replyPasses: bool, before: seq<Bytes>, polls: seq<Poll>)

  /** The tester's parser is at a boundary when it matters: an init query resets it anyway. */
  predicate Aligned(w: World) {
    w.t.state == SendReq0 || w.t.state == SendReq1 ==> Rest(w.seen) == []
  }

  /** An active tester and an ECU, both between frames. Their states are otherwise arbitrary. */
  predicate Calm(w: World) {
    w.t.enabled && !w.t.listenOnly && Aligned(w) && Listening(w.e)
  }

  /** What the tester's parser has seen when the wait of this round begins. */
  function Start(w: World): Bytes {
    SeenAtWait(w.t.state, w.seen)
  }

  /** The ECU after the frames of this round that pass, and all that it replies to them. */
  function EcuOf(w: World, ch: Channel): (Ecu.State, seq<Ecu.Reply>)
    requires Ecu.WellFormed(w.e) && |ch.passes| == |FramesOf(w.t.state)|
  {
    Ecu.Feed(w.e, Passed(FramesOf(w.t.state), ch.passes))
  }

  /** The bytes that replies put on the line. */
  function OnTheLine(rs: seq<Ecu.Reply>): seq<Bytes> {
    if rs == [] then [] else (if rs[0].Sent? then [rs[0].bytes] else []) + OnTheLine(rs[1..])
  }

  /** What of the ECU's replies reaches the tester. */
  function Arriving(w: World, ch: Channel): seq<Bytes>
    requires Ecu.WellFormed(w.e) && |ch.passes| == |FramesOf(w.t.state)|
  {
    if ch.replyPasses then OnTheLine(EcuOf(w, ch).1) else []
  }

  /** All that the tester hears in this round. */
  function Incoming(w: World, ch: Channel): seq<Bytes>
    requires Ecu.WellFormed(w.e) && |ch.passes| == |FramesOf(w.t.state)|
  {
    ch.before + Arriving(w, ch)
  }

  predicate Arrives(w: World, ch: Channel)
    requires |ch.passes| == |FramesOf(w.t.state)|
  {
    Replies(w.e.mode, w.t.state, ch.passes) && ch.replyPasses
  }

  /** The ECU's code replies as `Replies` and `Expected` say. */
  lemma RoundReplies(w: World, ch: Channel)
    requires Calm(w) && |ch.passes| == |FramesOf(w.t.state)|
    ensures Arriving(w, ch) == if Arrives(w, ch) then [Expected(w.t.state, w.e.tables)] else []
  {
    hide Expected, Replies, Ecu.Feed, Passed, Rest, NextMode;
    EcuRound(w.e, w.t.state, ch.passes);
    OneReply(Expected(w.t.state, w.e.tables));
  }

  lemma OneReply(f: Bytes)
    ensures OnTheLine([Ecu.Sent(f)]) == [f]
  {
    assert [Ecu.Sent(f)][1..] == [];
  }

  /** A reply comes before the timeout shows, or the timeout shows. Other frames are well formed and are
      not responses of the awaited subtype; echoes are such frames. The polls are those the wait reads. */
  ghost predicate AnswersOrLapses(w: World, ch: Channel)
    requires Ecu.WellFormed(w.e) && |ch.passes| == |FramesOf(w.t.state)|
  {
    && AllFrames(ch.before) && NoneAnswers(ch.before, Wanted(w.t.state))
    && Received(ch.polls) == Flatten(Incoming(w, ch))
    && WaitUses(Start(w), Wanted(w.t.state), true, ch.polls) == |ch.polls|
    && if Arriving(w, ch) != [] then forall i :: 0 <= i < |ch.polls| ==> !Expired(Start(w), ch.polls, i, true)
       else exists i :: 0 <= i < |ch.polls| && Expired(Start(w), ch.polls, i, true)
  }

  /** The channel takes part in a round: it loses frames whole, and the tester's wait comes to its end. */
  ghost predicate Honest(w: World, ch: Channel)
    requires Ecu.WellFormed(w.e)
  {
    && |ch.passes| == |FramesOf(w.t.state)|
    && if w.t.state == GpioInit then ch.polls == [] else AnswersOrLapses(w, ch)
  }

  /** A round: the frames that pass go to the ECU, the tester acts on its polls as its thread does. */
  ghost function Play(w: World, ch: Channel): (World, seq<Event>)
    requires Ecu.WellFormed(w.e) && |ch.passes| == |FramesOf(w.t.state)|
  {
    var e' := EcuOf(w, ch).0;
    var o := Acted(w.t, w.seen, ch.polls);
    var (t', es) := Act(w.t, o.turn);
    (World(t', o.seen, e'), es)
  }

  /** Only the four constant frames are sent, and every accepted answer answers the query of its state. */
  ghost predicate TruthfulEvent(e: Event, ts: Ecu.Tables)
    requires Ecu.FullTables(ts)
  {
    match e
    case Tx(f) => f == WAKE_UP || f == INIT || f == QUERY_10 || f == QUERY_D1
    case Answer(s, f) => s != GpioInit && AnswersQuery(Query(s), f, ts)
    case Heard(_) => false
    case _ => true
  }

  /** An answer comes directly after the query of its state. */
  predicate Prompted(es: seq<Event>, i: nat)
    requires i < |es|
  {
    es[i].Answer? ==> i > 0 && es[i - 1] == Tx(Query(es[i].state))
  }

  ghost predicate Truthful(es: seq<Event>, ts: Ecu.Tables)
    requires Ecu.FullTables(ts)
  {
    forall i :: 0 <= i < |es| ==> TruthfulEvent(es[i], ts) && Prompted(es, i)
  }

  lemma TruthfulConcat(a: seq<Event>, b: seq<Event>, ts: Ecu.Tables)
    requires Ecu.FullTables(ts) && Truthful(a, ts) && Truthful(b, ts)
    ensures Truthful(a + b, ts)
  {
    hide TruthfulEvent, Query;
    var es := a + b;
    forall i | 0 <= i < |es|
      ensures TruthfulEvent(es[i], ts) && Prompted(es, i)
    {
      if i < |a| {
        assert es[i] == a[i] && Prompted(a, i);
      } else {
        assert es[i] == b[i - |a|] && Prompted(b, i - |a|);
      }
    }
  }

  /** The outcome of a round's wait, and the boundary after it. */
  lemma RoundWait(w: World, ch: Channel)
    requires Calm(w) && Honest(w, ch) && w.t.state != GpioInit
    ensures WaitSpec(Start(w), Wanted(w.t.state), true, ch.polls, 0)
         == if Arrives(w, ch) then Found(Expected(w.t.state, w.e.tables)) else Lapsed
    ensures Rest(Start(w) + Received(ch.polls)) == []
  {
    hide Expected, Received, WaitSpec, Expired, Replies, EcuOf;
    NothingCut();
    ExpectedAnswers(w.t.state, w.e.tables);
    RoundReplies(w, ch);
    var s0, reply := Start(w), Expected(w.t.state, w.e.tables);
    CompletedIsReceived(s0, ch.polls, Incoming(w, ch));
    if Arrives(w, ch) {
      WaitAnswered(s0, ch.polls, Wanted(w.t.state), ch.before, reply);
    } else {
      assert Incoming(w, ch) == ch.before;
      var k :| 0 <= k < |ch.polls| && Expired(s0, ch.polls, k, true);
      WaitLapses(s0, ch.polls, Wanted(w.t.state), ch.before, k);
    }
  }

  /** The reply comes byte by byte, with no timeout. */
  lemma AnsweringChannel(w: World, passes: seq<bool>) returns (ch: Channel)
    requires Calm(w) && |passes| == |FramesOf(w.t.state)|
    requires w.t.state != GpioInit && Replies(w.e.mode, w.t.state, passes)
    ensures Honest(w, ch) && ch.passes == passes && ch.replyPasses
  {
    hide Expected, Rest, FrameAt, Replies, Received, EcuOf, WaitUses, IsResponse, IsFrame;
    var reply := Expected(w.t.state, w.e.tables);
    var bytes := seq(|reply|, i requires 0 <= i < |reply| => Poll(Some(reply[i]), false));
    ch := Channel(passes, true, [], bytes);
    RoundReplies(w, ch);
    assert Incoming(w, ch) == [reply];
    ReceivesStream(reply, bytes);
    OneFrame(reply);
    NothingCut();
    ExpectedAnswers(w.t.state, w.e.tables);
    AnswerReadToItsEnd(Start(w), bytes, Wanted(w.t.state), reply);
  }

  /** Nothing comes, and the timeout shows. */
  lemma LapsingChannel(w: World, passes: seq<bool>, replyPasses: bool) returns (ch: Channel)
    requires Calm(w) && |passes| == |FramesOf(w.t.state)|
    requires w.t.state != GpioInit && !(Replies(w.e.mode, w.t.state, passes) && replyPasses)
    ensures Honest(w, ch) && ch.passes == passes && ch.replyPasses == replyPasses
  {
    hide Expected, Rest, FrameAt, Replies, EcuOf;
    ch := Channel(passes, replyPasses, [], [Poll(None, true)]);
    RoundReplies(w, ch);
    assert Incoming(w, ch) == [];
    EmptyPoll(Start(w), ch.polls, 0);
    assert Expired(Start(w), ch.polls, 0, true);
  }

  /** For any frames that pass and any reply that passes or is lost there is an honest channel. */
  lemma HonestChannelExists(w: World, passes: seq<bool>, replyPasses: bool) returns (ch: Channel)
    requires Calm(w) && |passes| == |FramesOf(w.t.state)|
    ensures Honest(w, ch) && ch.passes == passes && ch.replyPasses == replyPasses
  {
    hide AnswersOrLapses, Replies;
    if w.t.state == GpioInit {
      ch := Channel(passes, replyPasses, [], []);
    } else if Replies(w.e.mode, w.t.state, passes) && replyPasses {
      ch := AnsweringChannel(w, passes);
    } else {
      ch := LapsingChannel(w, passes, replyPasses);
    }
  }

  lemma OneFrame(f: Bytes)
    ensures Flatten([f]) == f
  {
    assert [f][1..] == [];
  }

  predicate ByteByByte(f: Bytes, polls: seq<Poll>) {
    |polls| == |f| && forall i :: 0 <= i < |polls| ==> polls[i] == Poll(Some(f[i]), false)
  }

  lemma FrameWithItsLastByte(s0: Bytes, polls: seq<Poll>, f: Bytes, j: nat)
    requires Rest(s0) == [] && IsFrame(f) && ByteByByte(f, polls) && j < |f|
    ensures FrameAt(s0, polls, j) == if j == |f| - 1 then Some(f) else None
  {
    hide Rest, Received, Sum;
    ReceivesStream(f[..j], polls[..j]);
    StatusWithinFrame(s0, f, j);
    assert f[..j] + [f[j]] == f[..j + 1];
    assert f[..|f|] == f;
  }

  /** A reply that comes byte by byte is found with its last byte and not before. */
  lemma AnswerReadToItsEnd(s0: Bytes, polls: seq<Poll>, subtype: Byte, reply: Bytes)
    requires Rest(s0) == [] && IsFrame(reply) && IsResponse(reply, subtype) && ByteByByte(reply, polls)
    ensures WaitUses(s0, subtype, true, polls) == |polls|
  {
    hide Rest, FrameAt, IsFrame;
    forall j | 0 <= j < |polls|
      ensures FrameAt(s0, polls, j) == if j == |reply| - 1 then Some(reply) else None
    {
      FrameWithItsLastByte(s0, polls, reply, j);
    }
    assert Hit(s0, polls, |polls| - 1, subtype);
  }

  lemma EmptyPoll(s0: Bytes, polls: seq<Poll>, i: nat)
    requires i < |polls| && polls[i].data.None?
    ensures FrameAt(s0, polls, i).None?
  {
  }

  lemma {:induction false} ReceivesStream(stream: Bytes, polls: seq<Poll>)
    requires |polls| == |stream| && forall i :: 0 <= i < |polls| ==> polls[i] == Poll(Some(stream[i]), false)
    ensures Received(polls) == stream
  {
    if polls != [] {
      var n := |polls| - 1;
      ReceivesStream(stream[..n], polls[..n]);
      assert stream == stream[..n] + [stream[n]];
    }
  }

  /** The tester's next state depends only on whether the reply arrives. */
  function NextCommState(state: CommState, arrives: bool): CommState {
    NextState(state, if arrives then Found([]) else Lapsed)
  }

  lemma RoundReadsAll(w: World, ch: Channel)
    requires Calm(w) && Honest(w, ch) && w.t.state != GpioInit
    ensures WaitUses(Start(w), Wanted(w.t.state), true, ch.polls) == |ch.polls|
  {
  }

  /** What a state sends, and the answer or timeout that ends its wait. */
  lemma VisitIsTruthful(state: CommState, ts: Ecu.Tables, answered: bool)
    requires Ecu.FullTables(ts) && state != GpioInit
    ensures Truthful(Sends(state) + [if answered then Answer(state, Expected(state, ts)) else Timeout(state)], ts)
  {
    hide Expected, AnswersQuery, WAKE_UP, INIT, QUERY_10, QUERY_D1;
    ExpectedServes(state, ts);
    match state
    case SendEcuInit => assert Sends(state) == [Tx(WAKE_UP), Tx(INIT)];
    case SendReq0 => assert Sends(state) == [Tx(QUERY_10)];
    case SendReq1 => assert Sends(state) == [Tx(QUERY_D1)];
  }

  lemma RoundKeepsCalm(w: World, ch: Channel)
    requires Calm(w) && Honest(w, ch)
    ensures var (w', es) := Play(w, ch);
      && Calm(w') && w'.e.tables == w.e.tables && Truthful(es, w.e.tables)
      && w'.t.state == NextCommState(w.t.state, Arrives(w, ch))
      && w'.e.mode == NextMode(w.e.mode, w.t.state, ch.passes)
  {
    hide Expected, Received, WaitSpec, AnswersOrLapses, Replies, Ecu.Feed, Passed, Rest, NextMode, AnswersQuery;
    hide Sends, WaitUses;
    EcuRound(w.e, w.t.state, ch.passes);
    if w.t.state != GpioInit {
      RoundWait(w, ch);
      RoundReadsAll(w, ch);
      VisitIsTruthful(w.t.state, w.e.tables, Arrives(w, ch));
      assert ch.polls[..|ch.polls|] == ch.polls;
    }
  }

  /** The world after a list of rounds, and what they add to the trace. */
  ghost predicate HonestRun(w: World, chs: seq<Channel>)
    requires Calm(w)
    decreases |chs|
  {
    chs == [] || (Honest(w, chs[0]) && (RoundKeepsCalm(w, chs[0]); HonestRun(Play(w, chs[0]).0, chs[1..])))
  }

  ghost function PlayAll(w: World, chs: seq<Channel>): (World, seq<Event>)
    requires Calm(w) && HonestRun(w, chs)
    decreases |chs|
  {
    if chs == [] then (w, [])
    else
      RoundKeepsCalm(w, chs[0]);
      var (w1, es) := Play(w, chs[0]);
      var (w2, es') := PlayAll(w1, chs[1..]);
      (w2, es + es')
  }

  /** In every run over a lossy channel, from any states of the two parties: the ECU's assertions never
      trip, its tables stay as they are, and every accepted answer is the answer to the query sent
      directly before it, with exactly the slice of the ECU's table that this query names. */
  lemma {:induction false} RunIsTruthful(w: World, chs: seq<Channel>)
    requires Calm(w) && HonestRun(w, chs)
    ensures var (w', es) := PlayAll(w, chs);
      Calm(w') && w'.e.tables == w.e.tables && Truthful(es, w.e.tables)
    decreases |chs|
  {
    hide Expected, Received, Expired, Rest, Incoming, Play, AnswersOrLapses, TruthfulEvent, Prompted;
    if chs != [] {
      RoundKeepsCalm(w, chs[0]);
      RunIsTruthful(Play(w, chs[0]).0, chs[1..]);
      TruthfulConcat(Play(w, chs[0]).1, PlayAll(Play(w, chs[0]).0, chs[1..]).1, w.e.tables);
    }
  }

  predicate Lossless(ch: Channel) {
    ch.replyPasses && forall i :: 0 <= i < |ch.passes| ==> ch.passes[i]
  }

  /** Tester and ECU agree that a diagnostic session is on. */
  predicate InSession(w: World) {
    w.e.mode == Ecu.ActiveListen && (w.t.state == SendReq0 || w.t.state == SendReq1)
  }

  /** Without loss a session, once on, stays on and alternates between the two tables. */
  lemma SessionAlternates(w: World, ch: Channel)
    requires Calm(w) && Honest(w, ch) && Lossless(ch) && InSession(w)
    ensures var w' := Play(w, ch).0;
      InSession(w') && w'.t.state != w.t.state
  {
    hide Received, Expired, Rest, Incoming, Play, AnswersOrLapses, Truthful;
    RoundKeepsCalm(w, ch);
  }

  /** Without loss, from any states of the two parties, two rounds establish a session; after that every
      round keeps it and moves to the other table. */
  lemma {:induction false} SessionEstablished(w: World, chs: seq<Channel>)
    requires Calm(w) && HonestRun(w, chs) && |chs| >= 2
    requires forall i :: 0 <= i < |chs| ==> Lossless(chs[i])
    ensures InSession(PlayAll(w, chs).0)
  {
    hide Received, Expired, Rest, Incoming, Play, AnswersOrLapses, Truthful;
    RoundKeepsCalm(w, chs[0]);
    var w1 := Play(w, chs[0]).0;
    RoundKeepsCalm(w1, chs[1..][0]);
    var w2 := Play(w1, chs[1..][0]).0;
    assert InSession(w2);
    SessionLasts(w2, chs[1..][1..]);
  }

  lemma {:induction false} SessionLasts(w: World, chs: seq<Channel>)
    requires Calm(w) && HonestRun(w, chs) && InSession(w)
    requires forall i :: 0 <= i < |chs| ==> Lossless(chs[i])
    ensures InSession(PlayAll(w, chs).0)
    ensures PlayAll(w, chs).0.t.state == if |chs| % 2 == 0 then w.t.state
                                         else if w.t.state == SendReq0 then SendReq1 else SendReq0
    decreases |chs|
  {
    hide Received, Expired, Rest, Incoming, Play, AnswersOrLapses, Truthful;
    if chs != [] {
      RoundKeepsCalm(w, chs[0]);
      SessionAlternates(w, chs[0]);
      SessionLasts(Play(w, chs[0]).0, chs[1..]);
    }
  }

  // ------------------------------------------------------------ the thread plays the run

  /** The rounds as the thread meets them, without commands. */
  function Rounds(chs: seq<Channel>, clocks: seq<Clock>): seq<Input>
    requires |chs| == |clocks|
  {
    seq(|chs|, i requires 0 <= i < |chs| => Input(chs[i].polls, clocks[i], NoCommand))
  }

  /** What the thread logs in a round: each frame it sends and the answer it accepts, under the clock
      readings of that round. */
  ghost function RoundLog(w: World, ch: Channel, clock: Clock): seq<Logged> {
    LogOf(w.t, Acted(w.t, w.seen, ch.polls).turn, clock)
  }

  ghost function PlayLog(w: World, chs: seq<Channel>, clocks: seq<Clock>): seq<Logged>
    requires Calm(w) && HonestRun(w, chs) && |chs| == |clocks|
    decreases |chs|
  {
    if chs == [] then []
    else
      RoundKeepsCalm(w, chs[0]);
      RoundLog(w, chs[0], clocks[0]) + PlayLog(Play(w, chs[0]).0, chs[1..], clocks[1..])
  }

  /** A round of the world is a turn of the thread. */
  lemma RoundIsTurn(w: World, ch: Channel, clock: Clock)
    requires Calm(w) && Honest(w, ch)
    ensures var o := TurnOf(w.t, w.seen, Input(ch.polls, clock, NoCommand));
      && o.done && !Stuck(w.t, o.turn)
      && o.seen == Play(w, ch).0.seen && Step(w.t, o.turn) == (Play(w, ch).0.t, Play(w, ch).1)
      && LogOf(w.t, o.turn, clock) == RoundLog(w, ch, clock)
  {
    hide Received, WaitSpec, Expired, Rest, Incoming, Update, Arrives;
    if w.t.state != GpioInit {
      RoundWait(w, ch);
    }
    var es := Play(w, ch).1;
    assert es + [] == es;
  }

  /** A run that is not waiting and stands where `w` has its tester. */
  ghost predicate StandsAt(r: Run, w: World) {
    r.going && After(r.turns) == w.t && r.seen == w.seen
  }

  /** One round more: the thread goes where the world goes and adds the same events. */
  lemma RoundExtendsRun(pre: seq<Input>, w: World, ch: Channel, clock: Clock)
    requires Calm(w) && Honest(w, ch)
    requires StandsAt(RunOf(pre), w)
    ensures var r := RunOf(pre + [Input(ch.polls, clock, NoCommand)]);
      && StandsAt(r, Play(w, ch).0)
      && Trace(r.turns) == Trace(RunOf(pre).turns) + Play(w, ch).1
      && r.log == RunOf(pre).log + RoundLog(w, ch, clock)
  {
    hide AnswersOrLapses, Play, TurnOf, Step, LogOf, RoundLog, After, Trace, RunOf, Rest;
    var input := Input(ch.polls, clock, NoCommand);
    RoundIsTurn(w, ch, clock);
    RunSnoc(pre, input);
    TurnsSnoc(RunOf(pre).turns, TurnOf(w.t, w.seen, input).turn);
  }

  /** After any inputs that left the thread where `w` has its tester, the rounds continue its run as
      they continue the world's. */
  lemma {:induction false} ThreadPlays(pre: seq<Input>, w: World, chs: seq<Channel>, clocks: seq<Clock>)
    requires Calm(w) && HonestRun(w, chs) && |chs| == |clocks|
    requires StandsAt(RunOf(pre), w)
    ensures var r := RunOf(pre + Rounds(chs, clocks));
      && StandsAt(r, PlayAll(w, chs).0)
      && Trace(r.turns) == Trace(RunOf(pre).turns) + PlayAll(w, chs).1
      && r.log == RunOf(pre).log + PlayLog(w, chs, clocks)
    decreases |chs|
  {
    hide AnswersOrLapses, Play, RunOf, After, Trace, Rest, RoundLog, StandsAt;
    if chs == [] {
      assert pre + Rounds(chs, clocks) == pre;
    } else {
      var input := Input(chs[0].polls, clocks[0], NoCommand);
      RoundKeepsCalm(w, chs[0]);
      RoundExtendsRun(pre, w, chs[0], clocks[0]);
      ThreadPlays(pre + [input], Play(w, chs[0]).0, chs[1..], clocks[1..]);
      assert pre + [input] + Rounds(chs[1..], clocks[1..]) == pre + Rounds(chs, clocks);
    }
  }

  /** The console leaves listen-only mode, then enables communication. */
  function SwitchOn(clock: Clock): seq<Input> {
    [Input([], clock, SetListenOnly(false)), Input([], clock, SetComm(true))]
  }

  /** An enabled tester at the start of a session. */
  const READY := BOOT.(enabled := true, listenOnly := false)

  /** From power-up on: the two commands and the rounds make the thread send, accept and log, with their
      clock readings, exactly what the closed loop does; what is proved of the loop holds of the thread. */
  lemma SessionOfTheThread(e: Ecu.State, chs: seq<Channel>, clock: Clock, clocks: seq<Clock>)
    requires |chs| == |clocks|
    requires Calm(World(READY, [], e)) && HonestRun(World(READY, [], e), chs)
    ensures var w := World(READY, [], e);
      var r := RunOf(SwitchOn(clock) + Rounds(chs, clocks));
      && StandsAt(r, PlayAll(w, chs).0)
      && Trace(r.turns) == [Set(GpioInit, SetListenOnly(false)), Set(GpioInit, SetComm(true))] + PlayAll(w, chs).1
      && Wire(Trace(r.turns)) == Wire(PlayAll(w, chs).1)
      && r.log == PlayLog(w, chs, clocks) && Payloads(r.log) == LogFrames(PlayAll(w, chs).1)
  {
    hide HonestRun, PlayAll, PlayLog, LogFrames, Wire, Rest, Payloads;
    var w := World(READY, [], e);
    SwitchedOn(clock);
    ThreadPlays(SwitchOn(clock), w, chs, clocks);
    assert [] + PlayLog(w, chs, clocks) == PlayLog(w, chs, clocks);
    RunLogsItsTrace(SwitchOn(clock) + Rounds(chs, clocks));
    CommandsLeaveNoFrames(PlayAll(w, chs).1);
  }

  lemma CommandsLeaveNoFrames(es: seq<Event>)
    ensures var pre := [Set(GpioInit, SetListenOnly(false)), Set(GpioInit, SetComm(true))];
      LogFrames(pre + es) == LogFrames(es) && Wire(pre + es) == Wire(es)
  {
    var pre := [Set(GpioInit, SetListenOnly(false)), Set(GpioInit, SetComm(true))];
    assert pre == [] + [pre[0]] + [pre[1]];
    TraceSnoc([], pre[0]);
    TraceSnoc([] + [pre[0]], pre[1]);
    LogFramesConcat(pre, es);
  }

  lemma SwitchedOn(clock: Clock)
    ensures var r := RunOf(SwitchOn(clock));
      && r.going && r.seen == [] && r.log == [] && After(r.turns) == READY
      && Trace(r.turns) == [Set(GpioInit, SetListenOnly(false)), Set(GpioInit, SetComm(true))]
  {
    hide Trace, After, TurnOf, RunOf, LogOf;
    var first, second := SwitchOn(clock)[0], SwitchOn(clock)[1];
    AtBoot();
    IdleTurn(BOOT, [], first);
    RunSnoc([], first);
    var r := RunOf([] + [first]);
    TurnsSnoc([], r.turns[0]);
    IdleTurn(After(r.turns), [], second);
    RunSnoc([] + [first], second);
    TurnsSnoc(r.turns, TurnOf(After(r.turns), [], second).turn);
    assert SwitchOn(clock) == [] + [first] + [second];
  }
}
