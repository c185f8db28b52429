/** What the unlocked message buffer means for the tester's own log: the frames of a diagnostic session,
    sent to the log thread one after the other, never agree on the shared words. */
module SessionRace {
  import opened Kline
  import opened LogEntry
  import opened Session
  import opened ObdThread
  import opened Pipeline
  import Ecu
  import ClosedLoop
  import MailProtocol

  /** Of two neighbours with at least eight bytes, one of them with just eight, only one word is shared:
      they agree exactly if their bytes 4 to 7 are the same. */
  lemma ShortNeighbours(e: Entry, next: Entry)
    requires Loggable(e) && Loggable(next) && |e.data| >= 8 && |next.data| >= 8
    requires |e.data| == 8 || |next.data| == 8
    ensures MailProtocol.Agree(e, next) <==> e.data[4..8] == next.data[4..8]
  {
    hide DataWord, LE;
    DataWordBytes(e.data, 1);
    DataWordBytes(next.data, 1);
    var v, w := LE(EntryWord(e, 4), 4), LE(EntryWord(next, 4), 4);
    assert v == e.data[4..8] && w == next.data[4..8];
    assert MailProtocol.Good(e, 4, EntryWord(next, 4)) <==> v == w;
  }

  function Frame(time: U64, f: Bytes): Entry {
    AsEntry(Logged(time, f))
  }

  /** The first bytes of a table answer: table, offset zero and the start of the table. */
  lemma AnswerStart(ts: Ecu.Tables)
    requires Ecu.FullTables(ts)
    ensures var a := ClosedLoop.Expected(SendReq0, ts); 8 < |a| <= 251 && a[4..8] == [0] + ts.t10[..3]
    ensures var a := ClosedLoop.Expected(SendReq1, ts); 8 < |a| <= 251 && a[4..8] == [0] + ts.tD1[..3]
  {
    hide ChecksumOf;
  }

  /** The table-10 answer and the D1 query that follows it share a word safely for just one start of the
      table; the simulated ECU's 0xAA is not it. */
  lemma AnswerThenQueryIff(ts: Ecu.Tables, a: U64, b: U64)
    requires Ecu.FullTables(ts)
    ensures |ClosedLoop.Expected(SendReq0, ts)| <= 251
    ensures MailProtocol.Agree(Frame(a, ClosedLoop.Expected(SendReq0, ts)), Frame(b, QUERY_D1))
      <==> ts.t10[..3] == [0x06, 0x00, 0x3D]
  {
    hide ClosedLoop.Expected, MailProtocol.Agree;
    AnswerStart(ts);
    var e, next := Frame(a, ClosedLoop.Expected(SendReq0, ts)), Frame(b, QUERY_D1);
    ShortNeighbours(e, next);
    assert QUERY_D1[4..8] == [0x00] + [0x06, 0x00, 0x3D];
    assert ([0] + ts.t10[..3])[1..] == ts.t10[..3] && ([0] + [0x06, 0x00, 0x3D])[1..] == [0x06, 0x00, 0x3D];
  }

  /** The simulated ECU's answer to the table-10 query and the D1 query the tester sends next: two entries
      that some interleaving corrupts. */
  lemma SimulatedEcuRaces(m: MailProtocol.Mail, ts: Ecu.Tables, a: U64, b: U64)
    requires MailProtocol.Start(m) && Ecu.FullTables(ts) && ts.t10 == seq(TABLE_SIZE_MAX, _ => 0xAA)
    requires m.todo == [Frame(a, ClosedLoop.Expected(SendReq0, ts)), Frame(b, QUERY_D1)]
    ensures !MailProtocol.Safe(m, false)
  {
    hide ClosedLoop.Expected, MailProtocol.Agree, MailProtocol.Safe, QUERY_D1;
    AnswerThenQueryIff(ts, a, b);
    assert ts.t10[..3][0] == 0xAA;
    MailProtocol.FreeRunningIsSafeIff(m);
    assert MailProtocol.Chain(m.todo) <==> MailProtocol.Agree(m.todo[0], m.todo[1]);
  }

  /** The D1 query, its answer and the next table-10 query: no contents of table D1 suit both neighbours. */
  lemma NoTableSuits(ts: Ecu.Tables, a: U64, b: U64, c: U64)
    requires Ecu.FullTables(ts)
    ensures var answer := ClosedLoop.Expected(SendReq1, ts);
      && |answer| <= 251
      && !(&& MailProtocol.Agree(Frame(a, QUERY_D1), Frame(b, answer))
           && MailProtocol.Agree(Frame(b, answer), Frame(c, QUERY_10)))
  {
    hide ClosedLoop.Expected, MailProtocol.Agree;
    AnswerStart(ts);
    var answer := ClosedLoop.Expected(SendReq1, ts);
    ShortNeighbours(Frame(a, QUERY_D1), Frame(b, answer));
    ShortNeighbours(Frame(b, answer), Frame(c, QUERY_10));
    assert QUERY_D1[4..8][1] == 0x06 && QUERY_10[4..8][1] == 0x80;
  }

  /** Entries that contain these three frames in a row are not safe without the hand-off. */
  lemma TripleRaces(m: MailProtocol.Mail, i: nat, ts: Ecu.Tables, a: U64, b: U64, c: U64)
    requires MailProtocol.Start(m) && Ecu.FullTables(ts) && i + 3 <= |m.todo|
    requires m.todo[i] == Frame(a, QUERY_D1) && m.todo[i + 2] == Frame(c, QUERY_10)
    requires m.todo[i + 1] == Frame(b, ClosedLoop.Expected(SendReq1, ts))
    ensures !MailProtocol.Safe(m, false)
  {
    hide ClosedLoop.Expected, MailProtocol.Agree, MailProtocol.Safe;
    NoTableSuits(ts, a, b, c);
    MailProtocol.FreeRunningIsSafeIff(m);
  }

  /** What a round of a session logs when nothing is lost. */
  lemma LosslessRoundLog(w: ClosedLoop.World, ch: ClosedLoop.Channel, clock: Clock)
    requires ClosedLoop.Calm(w) && ClosedLoop.Honest(w, ch)
    requires ClosedLoop.Lossless(ch) && ClosedLoop.InSession(w)
    ensures ClosedLoop.RoundLog(w, ch, clock)
         == [Logged(clock.first, ClosedLoop.Query(w.t.state)),
             Logged(clock.answer, ClosedLoop.Expected(w.t.state, w.e.tables))]
  {
    hide ClosedLoop.Expected, ClosedLoop.AnswersOrLapses;
    ClosedLoop.RoundWait(w, ch);
  }

  /** One lossless round of a session: the query and its answer head the log, and the session goes on. */
  lemma FirstRound(w: ClosedLoop.World, chs: seq<ClosedLoop.Channel>, clocks: seq<Clock>)
    requires ClosedLoop.Calm(w) && ClosedLoop.HonestRun(w, chs) && ClosedLoop.InSession(w)
    requires |chs| == |clocks| > 0 && ClosedLoop.Lossless(chs[0])
    ensures ClosedLoop.Honest(w, chs[0])
    ensures var w' := ClosedLoop.Play(w, chs[0]).0;
      && ClosedLoop.Calm(w') && ClosedLoop.HonestRun(w', chs[1..]) && ClosedLoop.InSession(w')
      && w'.t.state != w.t.state && w'.e.tables == w.e.tables
      && ClosedLoop.PlayLog(w, chs, clocks)
         == [Logged(clocks[0].first, ClosedLoop.Query(w.t.state)),
             Logged(clocks[0].answer, ClosedLoop.Expected(w.t.state, w.e.tables))]
            + ClosedLoop.PlayLog(w', chs[1..], clocks[1..])
  {
    hide ClosedLoop.Expected, ClosedLoop.AnswersOrLapses, ClosedLoop.Play, ClosedLoop.RoundLog;
    ClosedLoop.RoundKeepsCalm(w, chs[0]);
    ClosedLoop.SessionAlternates(w, chs[0]);
    LosslessRoundLog(w, chs[0], clocks[0]);
  }

  /** Two rounds from the D1 query on: its answer and the next table-10 query follow. */
  lemma TripleLogged(w: ClosedLoop.World, chs: seq<ClosedLoop.Channel>, clocks: seq<Clock>)
    requires ClosedLoop.Calm(w) && ClosedLoop.HonestRun(w, chs) && ClosedLoop.InSession(w)
    requires w.t.state == SendReq1
    requires |chs| == |clocks| >= 2 && ClosedLoop.Lossless(chs[0]) && ClosedLoop.Lossless(chs[1])
    ensures var log := ClosedLoop.PlayLog(w, chs, clocks);
      && |log| >= 3
      && log[0] == Logged(clocks[0].first, QUERY_D1)
      && log[1] == Logged(clocks[0].answer, ClosedLoop.Expected(SendReq1, w.e.tables))
      && log[2] == Logged(clocks[1].first, QUERY_10)
  {
    hide ClosedLoop.Expected, ClosedLoop.AnswersOrLapses, ClosedLoop.Play, ClosedLoop.PlayLog;
    hide ClosedLoop.HonestRun, QUERY_D1, QUERY_10;
    FirstRound(w, chs, clocks);
    FirstRound(ClosedLoop.Play(w, chs[0]).0, chs[1..], clocks[1..]);
  }

  lemma SomeTripleLogged(w: ClosedLoop.World, chs: seq<ClosedLoop.Channel>, clocks: seq<Clock>)
    returns (i: nat, a: U64, b: U64, c: U64)
    requires ClosedLoop.Calm(w) && ClosedLoop.HonestRun(w, chs) && ClosedLoop.InSession(w)
    requires |chs| == |clocks| >= 3 && forall i :: 0 <= i < |chs| ==> ClosedLoop.Lossless(chs[i])
    ensures var log := ClosedLoop.PlayLog(w, chs, clocks);
      && i + 3 <= |log|
      && log[i] == Logged(a, QUERY_D1)
      && log[i + 1] == Logged(b, ClosedLoop.Expected(SendReq1, w.e.tables))
      && log[i + 2] == Logged(c, QUERY_10)
  {
    hide ClosedLoop.Expected, ClosedLoop.AnswersOrLapses, ClosedLoop.Play, ClosedLoop.PlayLog;
    hide ClosedLoop.HonestRun, QUERY_D1, QUERY_10;
    if w.t.state == SendReq1 {
      TripleLogged(w, chs, clocks);
      i, a, b, c := 0, clocks[0].first, clocks[0].answer, clocks[1].first;
    } else {
      FirstRound(w, chs, clocks);
      TripleLogged(ClosedLoop.Play(w, chs[0]).0, chs[1..], clocks[1..]);
      i, a, b, c := 2, clocks[1].first, clocks[1].answer, clocks[2].first;
    }
  }

  /** Three rounds of a session without loss: whatever the ECU's tables and the clock readings, some
      interleaving of the sender's and the log thread's steps corrupts an entry of the tester's log. */
  lemma EverySessionRaces(w: ClosedLoop.World, chs: seq<ClosedLoop.Channel>, clocks: seq<Clock>,
                          m: MailProtocol.Mail)
    requires ClosedLoop.Calm(w) && ClosedLoop.HonestRun(w, chs) && ClosedLoop.InSession(w)
    requires |chs| == |clocks| >= 3 && forall i :: 0 <= i < |chs| ==> ClosedLoop.Lossless(chs[i])
    requires MailProtocol.Start(m) && m.todo == AsEntries(ClosedLoop.PlayLog(w, chs, clocks))
    ensures !MailProtocol.Safe(m, false)
  {
    hide ClosedLoop.Expected, ClosedLoop.PlayLog, ClosedLoop.Calm, ClosedLoop.HonestRun;
    hide QUERY_D1, QUERY_10, MailProtocol.Safe, MailProtocol.Start;
    CalmTables(w);
    var i, a, b, c := SomeTripleLogged(w, chs, clocks);
    TripleRaces(m, i, w.e.tables, a, b, c);
  }

  lemma CalmTables(w: ClosedLoop.World)
    requires ClosedLoop.Calm(w)
    ensures Ecu.FullTables(w.e.tables)
  {
  }
}
