/** Receiving and waiting on the tester's side (comm.c).
    Each turn of a receive loop is one poll: the byte the serial port yields, if any, and the
    timeout flag as it is read right after. A list of polls is what one thread observes. */
module Comm {
  import opened Kline
  import opened Segmenter
  import opened Parser

  datatype Poll = Poll(data: Option<Byte>, timeout: bool)

  /** The bytes that a list of polls yields. */
  function Received(polls: seq<Poll>): Bytes {
    if polls == [] then []
    else
      var n := |polls| - 1;
      Received(polls[..n]) + (if polls[n].data.Some? then [polls[n].data.value] else [])
  }

  lemma ReceivedStep(polls: seq<Poll>, i: nat)
    requires i < |polls|
    ensures Received(polls[..i + 1])
         == Received(polls[..i]) + (if polls[i].data.Some? then [polls[i].data.value] else [])
  {
    assert polls[..i + 1][..i] == polls[..i];
  }

  /** The frame, if any, whose last byte poll `i` yields; `s0` is what the parser saw before. */
  function FrameAt(s0: Bytes, polls: seq<Poll>, i: nat): Option<Bytes>
    requires i < |polls|
  {
    if polls[i].data.None? then None
    else
      var q := Rest(s0 + Received(polls[..i])) + [polls[i].data.value];
      if IsFrame(q) then Some(q) else None
  }

  lemma FrameAtIsFrame(s0: Bytes, polls: seq<Poll>, i: nat)
    requires i < |polls| && FrameAt(s0, polls, i).Some?
    ensures IsFrame(FrameAt(s0, polls, i).value)
  {
  }

  lemma ReceivedNothing(polls: seq<Poll>, s0: Bytes)
    ensures s0 + Received(polls[..0]) == s0
  {
  }

  predicate IsResponse(f: Bytes, subtype: Byte) {
    |f| >= 4 && f[0] == TYPE_RESPONSE && f[2] == subtype
  }

  /** Poll `i` completes a response of the wanted subtype. */
  predicate Hit(s0: Bytes, polls: seq<Poll>, i: nat, subtype: Byte)
    requires i < |polls|
  {
    FrameAt(s0, polls, i).Some? && IsResponse(FrameAt(s0, polls, i).value, subtype)
  }

  /** Poll `i` shows the timeout and completes no frame at all. */
  predicate Expired(s0: Bytes, polls: seq<Poll>, i: nat, useTimeout: bool)
    requires i < |polls|
  {
    FrameAt(s0, polls, i).None? && useTimeout && polls[i].timeout
  }

  datatype RecvResult = Msg | TimedOut | Waiting

  predicate Quiet(s0: Bytes, polls: seq<Poll>, i: nat, useTimeout: bool)
    requires i < |polls|
  {
    FrameAt(s0, polls, i).None? && !(useTimeout && polls[i].timeout)
  }

  /** The first poll from `from` on that ends a receive, or the end of the polls. */
  ghost function FirstStir(s0: Bytes, useTimeout: bool, polls: seq<Poll>, from: nat): (k: nat)
    requires from <= |polls|
    ensures from <= k <= |polls|
    ensures k < |polls| ==> !Quiet(s0, polls, k, useTimeout)
    ensures forall j :: from <= j < k ==> Quiet(s0, polls, j, useTimeout)
    decreases |polls| - from
  {
    if from == |polls| || !Quiet(s0, polls, from, useTimeout) then from
    else FirstStir(s0, useTimeout, polls, from + 1)
  }

  /** The buffer holds the frame that poll `i` completes. */
  ghost predicate Delivered(s0: Bytes, polls: seq<Poll>, i: nat, buffer: array<Byte>)
    requires i < |polls|
    reads buffer
  {
    && FrameAt(s0, polls, i).Some?
    && var f := FrameAt(s0, polls, i).value;
       |f| <= buffer.Length && buffer[..|f|] == f
  }

  /** One turn of the receive loop. */
  method TakePoll(parser: HobdParser, polls: seq<Poll>, i: nat, ghost s0: Bytes) returns (complete: bool)
    requires parser.Valid() && parser.rxBuffer.Length >= DATA_SIZE_MAX && i < |polls|
    requires parser.seen == s0 + Received(polls[..i])
    modifies parser, parser.rxBuffer
    ensures parser.Valid() && parser.seen == s0 + Received(polls[..i + 1])
    ensures if complete then Delivered(s0, polls, i, parser.rxBuffer) else FrameAt(s0, polls, i).None?
  {
    hide HobdParser.Valid, Rest, Segments, Received;
    ReceivedStep(polls, i);
    complete := false;
    match polls[i].data
    case Some(byte) =>
      ghost var before := parser.seen;
      parser.RoomAtAllTimes();
      var status := parser.ParseByte(byte);
      assert before + [byte] == s0 + Received(polls[..i + 1]);
      complete := status == NoError;
    case None =>
      assert Received(polls[..i + 1]) == Received(polls[..i]);
  }

  /** comm_recv_msg from poll `from` on; `to` is the next unread poll. `Waiting` means that the polls
      are used up and the loop would go on. The first poll that completes a frame or shows the timeout
      ends the call, and the frame wins when one poll does both. */
  method RecvMsg(useTimeout: bool, parser: HobdParser, polls: seq<Poll>, from: nat, ghost s0: Bytes)
    returns (r: RecvResult, to: nat)
    requires parser.Valid() && parser.rxBuffer.Length >= DATA_SIZE_MAX
    requires from <= |polls| && parser.seen == s0 + Received(polls[..from])
    modifies parser, parser.rxBuffer
    ensures parser.Valid() && from <= to <= |polls| && parser.seen == s0 + Received(polls[..to])
    ensures var stop := if r == Waiting then to else to - 1;
      from <= stop && forall j :: from <= j < stop ==> Quiet(s0, polls, j, useTimeout)
    ensures match r
      case Msg => Delivered(s0, polls, to - 1, parser.rxBuffer)
      case TimedOut => Expired(s0, polls, to - 1, useTimeout)
      case Waiting => to == |polls|
  {
    hide FrameAt, Received, HobdParser.Valid;
    to := from;
    var gotMsg, timeoutFired := false, false;
    while !gotMsg && !timeoutFired && to < |polls|
      invariant parser.Valid() && from <= to <= |polls| && parser.seen == s0 + Received(polls[..to])
      invariant var stop := if gotMsg || timeoutFired then to - 1 else to;
        from <= stop && forall j :: from <= j < stop ==> Quiet(s0, polls, j, useTimeout)
      invariant gotMsg ==> Delivered(s0, polls, to - 1, parser.rxBuffer)
      invariant !gotMsg && timeoutFired ==> Expired(s0, polls, to - 1, useTimeout)
      decreases |polls| - to
    {
      gotMsg := TakePoll(parser, polls, to, s0);
      timeoutFired := useTimeout && polls[to].timeout;
      to := to + 1;
    }
    r := if gotMsg then Msg else if timeoutFired then TimedOut else Waiting;
  }

  datatype WaitResult = Found(frame: Bytes) | Lapsed | Blocked

  /** The first decisive poll settles a wait; all other polls are passed over. */
  function WaitSpec(s0: Bytes, subtype: Byte, useTimeout: bool, polls: seq<Poll>, from: nat): WaitResult
    requires from <= |polls|
    decreases |polls| - from
  {
    if from == |polls| then Blocked
    else if Hit(s0, polls, from, subtype) then Found(FrameAt(s0, polls, from).value)
    else if Expired(s0, polls, from, useTimeout) then Lapsed
    else WaitSpec(s0, subtype, useTimeout, polls, from + 1)
  }

  /** The first decisive poll from `from` on, or the end of the polls. */
  ghost function FindDecisive(s0: Bytes, subtype: Byte, useTimeout: bool, polls: seq<Poll>, from: nat): (k: nat)
    requires from <= |polls|
    ensures from <= k <= |polls|
    ensures k < |polls| ==> Hit(s0, polls, k, subtype) || Expired(s0, polls, k, useTimeout)
    ensures forall j :: from <= j < k ==> !Hit(s0, polls, j, subtype) && !Expired(s0, polls, j, useTimeout)
    decreases |polls| - from
  {
    if from == |polls| || Hit(s0, polls, from, subtype) || Expired(s0, polls, from, useTimeout) then from
    else FindDecisive(s0, subtype, useTimeout, polls, from + 1)
  }

  /** How many polls a wait reads: those up to its first decisive one, or all of them. */
  ghost function WaitUses(s0: Bytes, subtype: Byte, useTimeout: bool, polls: seq<Poll>): (n: nat)
    ensures n <= |polls|
  {
    var k := FindDecisive(s0, subtype, useTimeout, polls, 0);
    if k < |polls| then k + 1 else k
  }

  lemma {:induction false} WaitSkips(s0: Bytes, subtype: Byte, useTimeout: bool, polls: seq<Poll>, from: nat, to: nat)
    requires from <= to <= |polls|
    requires forall j :: from <= j < to ==> !Hit(s0, polls, j, subtype) && !Expired(s0, polls, j, useTimeout)
    ensures WaitSpec(s0, subtype, useTimeout, polls, from) == WaitSpec(s0, subtype, useTimeout, polls, to)
    ensures FindDecisive(s0, subtype, useTimeout, polls, from) == FindDecisive(s0, subtype, useTimeout, polls, to)
    decreases |polls| - from
  {
    if from < to {
      WaitSkips(s0, subtype, useTimeout, polls, from + 1, to);
    }
  }

  /** A wait only ever ends with a well-formed response of the subtype it is for. */
  lemma {:induction false} WaitFindsResponse(s0: Bytes, subtype: Byte, useTimeout: bool, polls: seq<Poll>, from: nat)
    requires from <= |polls|
    ensures var r := WaitSpec(s0, subtype, useTimeout, polls, from);
      r.Found? ==>
        && IsFrame(r.frame) && IsResponse(r.frame, subtype)
        && |r.frame| >= 4 && r.frame[0] == 0x02 && r.frame[2] == subtype
    decreases |polls| - from
  {
    if from < |polls| {
      WaitFindsResponse(s0, subtype, useTimeout, polls, from + 1);
    }
  }

  ghost predicate FirstDecisive(s0: Bytes, subtype: Byte, useTimeout: bool, polls: seq<Poll>, i: nat) {
    && i < |polls|
    && (Hit(s0, polls, i, subtype) || Expired(s0, polls, i, useTimeout))
    && forall j :: 0 <= j < i ==> !Hit(s0, polls, j, subtype) && !Expired(s0, polls, j, useTimeout)
  }

  /** A wait succeeds with frame `f` exactly when its first decisive poll completes the response `f`,
      and fails exactly when that poll shows the timeout without completing any frame. */
  lemma WaitDecided(s0: Bytes, subtype: Byte, useTimeout: bool, polls: seq<Poll>, f: Bytes)
    ensures WaitSpec(s0, subtype, useTimeout, polls, 0) == Found(f)
      <==> exists i: nat :: FirstDecisive(s0, subtype, useTimeout, polls, i)
                         && Hit(s0, polls, i, subtype) && FrameAt(s0, polls, i) == Some(f)
    ensures WaitSpec(s0, subtype, useTimeout, polls, 0) == Lapsed
      <==> exists i: nat :: FirstDecisive(s0, subtype, useTimeout, polls, i) && Expired(s0, polls, i, useTimeout)
  {
    var k := FindDecisive(s0, subtype, useTimeout, polls, 0);
    WaitSkips(s0, subtype, useTimeout, polls, 0, k);
    assert k < |polls| ==> FirstDecisive(s0, subtype, useTimeout, polls, k);
    assert forall i: nat :: FirstDecisive(s0, subtype, useTimeout, polls, i) ==> i == k;
  }

  /** comm_wait_for_resp: repeated receives, each with a fresh timeout, amount to `WaitSpec`.
      On success the buffer starts with the response. */
  method WaitForResp(subtype: Byte, useTimeout: bool, parser: HobdParser, polls: seq<Poll>)
    returns (r: WaitResult, to: nat)
    requires parser.Valid() && parser.rxBuffer.Length >= DATA_SIZE_MAX
    modifies parser, parser.rxBuffer
    ensures parser.Valid() && to <= |polls| && parser.seen == old(parser.seen) + Received(polls[..to])
    ensures r == WaitSpec(old(parser.seen), subtype, useTimeout, polls, 0)
    ensures to == WaitUses(old(parser.seen), subtype, useTimeout, polls)
    ensures r.Found? ==> |r.frame| <= parser.rxBuffer.Length && parser.rxBuffer[..|r.frame|] == r.frame
  {
    hide FrameAt, Received, HobdParser.Valid;
    ghost var s0 := parser.seen;
    to := 0;
    var respFound, timeoutFired, waiting := false, false, false;
    ghost var last: nat := 0;
    ReceivedNothing(polls, s0);
    while !respFound && !timeoutFired && !waiting
      invariant parser.Valid() && last <= to <= |polls| && parser.seen == s0 + Received(polls[..to])
      invariant WaitSpec(s0, subtype, useTimeout, polls, 0) == WaitSpec(s0, subtype, useTimeout, polls, last)
      invariant FindDecisive(s0, subtype, useTimeout, polls, 0) == FindDecisive(s0, subtype, useTimeout, polls, last)
      invariant respFound ==> last + 1 == to && Hit(s0, polls, last, subtype)
      invariant respFound ==> Delivered(s0, polls, last, parser.rxBuffer)
      invariant timeoutFired ==> last + 1 == to && Expired(s0, polls, last, useTimeout)
      invariant waiting ==> last == |polls|
      invariant !respFound && !timeoutFired ==> last == to
      decreases |polls| - to, if waiting then 0 else 1
    {
      var got, next := RecvMsg(useTimeout, parser, polls, to, s0);
      ghost var stop := if got == Waiting then next else next - 1;
      forall j | last <= j < stop
        ensures !Hit(s0, polls, j, subtype) && !Expired(s0, polls, j, useTimeout)
      {
        assert Quiet(s0, polls, j, useTimeout);
      }
      WaitSkips(s0, subtype, useTimeout, polls, last, stop);
      last := stop;
      to := next;
      match got
      case Msg =>
        ghost var f := FrameAt(s0, polls, last).value;
        FrameAtIsFrame(s0, polls, last);
        assert parser.rxBuffer[..|f|][0] == f[0] && parser.rxBuffer[..|f|][2] == f[2];
        if parser.rxBuffer[0] == TYPE_RESPONSE && parser.rxBuffer[2] == subtype {
          respFound := true;
        } else {
          WaitSkips(s0, subtype, useTimeout, polls, last, to);
          last := to;
        }
      case TimedOut =>
        timeoutFired := true;
      case Waiting =>
        waiting := true;
    }
    if respFound {
      ghost var f := FrameAt(s0, polls, last).value;
      FrameAtIsFrame(s0, polls, last);
      assert parser.rxBuffer[..|f|][1] == f[1];
      r := Found(parser.rxBuffer[..parser.rxBuffer[1]]);
    } else if timeoutFired {
      r := Lapsed;
    } else {
      r := Blocked;
    }
  }
}
