/** What a wait looks for, said of the bytes: which frame it takes, which it passes over, when it gives up. */
module WaitLaws {
  import opened Kline
  import opened Segmenter
  import opened Comm
  import opened Session
  import opened ObdThread
  import opened ClosedLoop
  import opened Misalignment

  /** The frames heard with the first `n` polls. */
  function Heard(s0: Bytes, polls: seq<Poll>, n: nat): seq<Bytes>
    requires n <= |polls|
  {
    AcceptedFrames(Rest(s0) + Received(polls[..n]))
  }

  /** None of the frames is a response of the subtype: byte 0 is not 02, or byte 2 is another. */
  predicate NoneIsFor(fs: seq<Bytes>, subtype: Byte) {
    forall i :: 0 <= i < |fs| ==> |fs[i]| >= 3 && (fs[i][0] != 0x02 || fs[i][2] != subtype)
  }

  /** Each of the first `n` polls that shows the timeout completes a frame. */
  predicate NoneLapses(s0: Bytes, useTimeout: bool, polls: seq<Poll>, n: nat)
    requires n <= |polls|
  {
    forall j :: 0 <= j < n && useTimeout && polls[j].timeout ==> |Heard(s0, polls, j + 1)| > |Heard(s0, polls, j)|
  }

  /** Poll `n - 1` completes `f`, the first frame with 02 and the subtype in its bytes 0 and 2, and no timeout
      ended the wait before. */
  predicate TakenAt(s0: Bytes, subtype: Byte, useTimeout: bool, polls: seq<Poll>, n: nat, f: Bytes) {
    && 0 < n <= |polls|
    && Heard(s0, polls, n) == Heard(s0, polls, n - 1) + [f]
    && |f| >= 4 && f[0] == 0x02 && f[2] == subtype
    && NoneIsFor(Heard(s0, polls, n - 1), subtype)
    && NoneLapses(s0, useTimeout, polls, n - 1)
  }

  /** Poll `n - 1` shows the timeout and completes no frame, and nothing ended the wait before. */
  predicate GivenUpAt(s0: Bytes, subtype: Byte, useTimeout: bool, polls: seq<Poll>, n: nat) {
    && 0 < n <= |polls|
    && useTimeout && polls[n - 1].timeout && Heard(s0, polls, n) == Heard(s0, polls, n - 1)
    && NoneIsFor(Heard(s0, polls, n), subtype)
    && NoneLapses(s0, useTimeout, polls, n - 1)
  }

  /** The frames heard are those the polls complete. */
  lemma HeardIsCompleted(s0: Bytes, polls: seq<Poll>, n: nat)
    requires n <= |polls|
    ensures Heard(s0, polls, n) == Completed(s0, polls, n)
  {
    CompletedFromRest(s0, polls, n);
  }

  /** A poll adds the frame it completes, if any. */
  lemma HeardStep(s0: Bytes, polls: seq<Poll>, j: nat)
    requires j < |polls|
    ensures Heard(s0, polls, j + 1)
         == Heard(s0, polls, j) + match FrameAt(s0, polls, j) case Some(f) => [f] case None => []
  {
    hide Heard, FrameAt;
    HeardIsCompleted(s0, polls, j);
    HeardIsCompleted(s0, polls, j + 1);
  }

  lemma {:induction false} CompletedAreFrames(s0: Bytes, polls: seq<Poll>, n: nat)
    requires n <= |polls|
    ensures forall i :: 0 <= i < |Completed(s0, polls, n)| ==> |Completed(s0, polls, n)[i]| >= 4
  {
    hide FrameAt;
    if n > 0 {
      CompletedAreFrames(s0, polls, n - 1);
      if FrameAt(s0, polls, n - 1).Some? {
        FrameAtIsFrame(s0, polls, n - 1);
      }
    }
  }

  /** No poll before `n` is a hit exactly if none of the frames heard is for the wait. */
  lemma NoHitIff(s0: Bytes, polls: seq<Poll>, subtype: Byte, n: nat)
    requires n <= |polls|
    ensures NoneIsFor(Heard(s0, polls, n), subtype) <==> forall j :: 0 <= j < n ==> !Hit(s0, polls, j, subtype)
  {
    hide Heard, FrameAt, Completed;
    HeardIsCompleted(s0, polls, n);
    CompletedAreFrames(s0, polls, n);
    var fs := Completed(s0, polls, n);
    if NoneIsFor(fs, subtype) {
      assert NoneAnswers(fs, subtype);
      forall j | 0 <= j < n
        ensures !Hit(s0, polls, j, subtype)
      {
        NotAHit(s0, polls, subtype, j, n);
      }
    } else {
      var i :| 0 <= i < |fs| && fs[i][0] == 0x02 && fs[i][2] == subtype;
      var j := PollOf(s0, polls, n, i);
      assert Hit(s0, polls, j, subtype);
    }
  }

  lemma NoLapseIff(s0: Bytes, useTimeout: bool, polls: seq<Poll>, n: nat)
    requires n <= |polls|
    ensures NoneLapses(s0, useTimeout, polls, n) <==> forall j :: 0 <= j < n ==> !Expired(s0, polls, j, useTimeout)
  {
    hide Heard, FrameAt;
    forall j | 0 <= j < n
      ensures |Heard(s0, polls, j + 1)| > |Heard(s0, polls, j)| <==> FrameAt(s0, polls, j).Some?
    {
      HeardStep(s0, polls, j);
    }
    if NoneLapses(s0, useTimeout, polls, n) {
      forall j | 0 <= j < n
        ensures !Expired(s0, polls, j, useTimeout)
      {
        assert useTimeout && polls[j].timeout ==> |Heard(s0, polls, j + 1)| > |Heard(s0, polls, j)|;
      }
    }
    if forall j :: 0 <= j < n ==> !Expired(s0, polls, j, useTimeout) {
      forall j | 0 <= j < n && useTimeout && polls[j].timeout
        ensures |Heard(s0, polls, j + 1)| > |Heard(s0, polls, j)|
      {
        assert !Expired(s0, polls, j, useTimeout);
      }
    }
  }

  lemma TakenIff(s0: Bytes, subtype: Byte, useTimeout: bool, polls: seq<Poll>, i: nat, f: Bytes)
    requires i < |polls|
    ensures TakenAt(s0, subtype, useTimeout, polls, i + 1, f)
      <==> FirstDecisive(s0, subtype, useTimeout, polls, i) && Hit(s0, polls, i, subtype)
           && FrameAt(s0, polls, i) == Some(f)
  {
    hide Heard, FrameAt, NoneIsFor, NoneLapses;
    NoHitIff(s0, polls, subtype, i);
    NoLapseIff(s0, useTimeout, polls, i);
    HeardStep(s0, polls, i);
    var before, after := Heard(s0, polls, i), Heard(s0, polls, i + 1);
    if FrameAt(s0, polls, i).Some? {
      FrameAtIsFrame(s0, polls, i);
      assert after[|before|] == FrameAt(s0, polls, i).value;
      assert after == before + [f] ==> after[|before|] == f;
    }
  }

  lemma GivenUpIff(s0: Bytes, subtype: Byte, useTimeout: bool, polls: seq<Poll>, i: nat)
    requires i < |polls|
    ensures GivenUpAt(s0, subtype, useTimeout, polls, i + 1)
      <==> FirstDecisive(s0, subtype, useTimeout, polls, i) && Expired(s0, polls, i, useTimeout)
  {
    hide Heard, FrameAt, NoneIsFor, NoneLapses;
    NoHitIff(s0, polls, subtype, i + 1);
    NoLapseIff(s0, useTimeout, polls, i);
    HeardStep(s0, polls, i);
  }

  /** A wait takes frame `f` if and only if `f` is the first frame heard whose bytes 0 and 2 are 02 and the
      awaited subtype, and no timeout ended the wait before; it gives up if and only if the timeout shows
      with no such frame before it and with no frame completed by the same poll. */
  lemma WaitTakesTheFirst(s0: Bytes, subtype: Byte, useTimeout: bool, polls: seq<Poll>, f: Bytes)
    ensures WaitSpec(s0, subtype, useTimeout, polls, 0) == Found(f)
      <==> exists n: nat :: TakenAt(s0, subtype, useTimeout, polls, n, f)
    ensures WaitSpec(s0, subtype, useTimeout, polls, 0) == Lapsed
      <==> exists n: nat :: GivenUpAt(s0, subtype, useTimeout, polls, n)
  {
    hide FrameAt, WaitSpec, FirstDecisive, TakenAt, GivenUpAt;
    WaitDecided(s0, subtype, useTimeout, polls, f);
    InRange(s0, subtype, useTimeout, polls, f);
    if WaitSpec(s0, subtype, useTimeout, polls, 0) == Found(f) {
      var i: nat :| FirstDecisive(s0, subtype, useTimeout, polls, i) && i < |polls|
                    && Hit(s0, polls, i, subtype) && FrameAt(s0, polls, i) == Some(f);
      TakenIff(s0, subtype, useTimeout, polls, i, f);
    }
    if n: nat :| TakenAt(s0, subtype, useTimeout, polls, n, f) {
      TakenIff(s0, subtype, useTimeout, polls, n - 1, f);
    }
    if WaitSpec(s0, subtype, useTimeout, polls, 0) == Lapsed {
      var i: nat :| FirstDecisive(s0, subtype, useTimeout, polls, i) && i < |polls|
                    && Expired(s0, polls, i, useTimeout);
      GivenUpIff(s0, subtype, useTimeout, polls, i);
    }
    if n: nat :| GivenUpAt(s0, subtype, useTimeout, polls, n) {
      GivenUpIff(s0, subtype, useTimeout, polls, n - 1);
    }
  }

  lemma InRange(s0: Bytes, subtype: Byte, useTimeout: bool, polls: seq<Poll>, f: Bytes)
    ensures forall n: nat :: TakenAt(s0, subtype, useTimeout, polls, n, f) ==> 0 < n <= |polls|
    ensures forall n: nat :: GivenUpAt(s0, subtype, useTimeout, polls, n) ==> 0 < n <= |polls|
    ensures forall i: nat :: FirstDecisive(s0, subtype, useTimeout, polls, i) ==> i < |polls|
  {
  }

  // ------------------------------------------------------------ echoes

  /** Nothing that a state sends is an answer to its own wait. */
  lemma OwnFramesDoNotAnswer(state: CommState)
    ensures NoneAnswers(FramesOf(state), Wanted(state))
    ensures forall i :: 0 <= i < |FramesOf(state)| ==> FramesOf(state)[i][0] != 0x02
  {
  }

  /** A wait that hears only echoes of the frames its state sends, any number of them in any order, gives up
      when the timeout shows. */
  lemma EchoesArePassedOver(s0: Bytes, polls: seq<Poll>, state: CommState, echoes: seq<Bytes>, k: nat)
    requires Rest(s0) == [] && Received(polls) == Flatten(echoes)
    requires forall i :: 0 <= i < |echoes| ==> echoes[i] in FramesOf(state)
    requires k < |polls| && Expired(s0, polls, k, true)
    ensures WaitSpec(s0, Wanted(state), true, polls, 0) == Lapsed
  {
    hide FrameAt, Received, Rest, WaitSpec, Expired, IsFrame, WAKE_UP, INIT, QUERY_10, QUERY_D1;
    ConstantFrames();
    OwnFramesDoNotAnswer(state);
    assert AllFrames(echoes);
    assert NoneAnswers(echoes, Wanted(state));
    WaitLapses(s0, polls, Wanted(state), echoes, k);
  }
}
