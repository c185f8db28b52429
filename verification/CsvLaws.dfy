/** Which entries of a log lead to CSV rows, whatever the reader's buffer still holds, and the rows of a whole
    file in which other senders' markers stand between the tester's frames. */
module CsvLaws {
  import opened Kline
  import opened Segmenter
  import opened Builder
  import opened LogEntry
  import opened Session
  import opened ObdThread
  import opened ThreadRuns
  import opened Dump
  import opened Pipeline
  import opened LogPath
  import Ecu
  import ClosedLoop
  import MailProtocol
  import MmcThread

  /** The entry's own data decodes to a subgroup response that names table 10 or D1. */
  predicate IsTableAnswer(e: Entry) {
    && e.kind == 0x0100 && |e.data| >= 5
    && var m := Decode(e.data);
       m.kind == 0x02 && m.subtype == 0x72 && (m.payload[0] == 0x10 || m.payload[0] == 0xD1)
  }

  /** Number of table bytes in a row. */
  function RowLength(table: Byte): nat {
    if table == 0x10 then 16 else 5
  }

  /** An answer with enough data for its row. */
  predicate IsFull(e: Entry)
    requires IsTableAnswer(e)
  {
    |Decode(e.data).payload| >= 2 + RowLength(Decode(e.data).payload[0])
  }

  /** Of an entry of the frame type the data are a frame. */
  predicate WellLogged(e: Entry) {
    e.kind == 0x0100 ==> IsFrame(e.data)
  }

  /** A response without payload: the byte after its header is its checksum, which is no table's number. */
  lemma BareResponse(f: Bytes)
    requires IsFrame(f) && |f| == 4 && f[0] == 0x02 && f[2] == 0x72
    ensures f[3] == 0x88
  {
    hide Sum;
    SumOfFew(f[0], f[1], f[2], f[3], 0, 0, 0);
    assert f == [f[0], f[1], f[2], f[3]];
    var b := f[3] as int;
    Mod256(120 + b, if b < 136 then 120 + b else b - 136, if b < 136 then 0 else 1);
  }

  /** An entry leads to a row if and only if it is of the frame type and its own data is such an answer;
      what is stale in the buffer never makes or hides a row. The row has the answer's table and the entry's
      timestamp and, if the answer is full, only data of the answer. */
  lemma RowIff(e: Entry, stale: Bytes)
    requires WellLogged(e) && |stale| >= 21
    ensures CsvRow(e, stale).Some? <==> IsTableAnswer(e)
    ensures IsTableAnswer(e) ==>
      var row, payload := CsvRow(e, stale).value, Decode(e.data).payload;
      && row.table == payload[0] && row.timestamp == e.timestamp && |row.fields| == RowLength(payload[0])
      && (IsFull(e) ==> row.fields == payload[2..2 + RowLength(payload[0])])
  {
    hide Sum;
    if e.kind == 0x0100 {
      var f, d := e.data, e.data + stale;
      FrameBounds(f);
      if |f| == 4 && f[0] == 0x02 && f[2] == 0x72 {
        BareResponse(f);
      }
      if IsTableAnswer(e) && IsFull(e) {
        var payload := Decode(f).payload;
        var n := RowLength(payload[0]);
        assert d[5..5 + n] == f[5..5 + n] == f[3..|f| - 1][2..2 + n];
      }
    }
  }

  lemma FrameBounds(f: Bytes)
    requires IsFrame(f)
    ensures 4 <= |f| <= 251
  {
  }

  // ------------------------------------------------------------ the rows of a file

  /** The rows that entries add, each read with some stale bytes behind it. */
  function CsvRows(es: seq<Entry>, stales: seq<Bytes>): seq<Row>
    requires |es| == |stales| && forall i :: 0 <= i < |stales| ==> |stales[i]| >= 21
  {
    if es == [] then []
    else
      var n := |es| - 1;
      CsvRows(es[..n], stales[..n]) + match CsvRow(es[n], stales[n]) case Some(r) => [r] case None => []
  }

  /** The row of a full answer, from its own data. */
  function AnswerRow(e: Entry): Row
    requires IsTableAnswer(e) && IsFull(e)
  {
    var payload := Decode(e.data).payload;
    Row(payload[0], e.timestamp, payload[2..2 + RowLength(payload[0])])
  }

  predicate AllFull(es: seq<Entry>) {
    forall i :: 0 <= i < |es| ==> WellLogged(es[i]) && (IsTableAnswer(es[i]) ==> IsFull(es[i]))
  }

  /** The rows of the table answers among entries, in order. */
  function AnswerRows(es: seq<Entry>): seq<Row>
    requires AllFull(es)
  {
    if es == [] then []
    else
      var n := |es| - 1;
      AnswerRows(es[..n]) + if IsTableAnswer(es[n]) then [AnswerRow(es[n])] else []
  }

  lemma {:induction false} HobdFull(es: seq<Entry>)
    requires AllFull(es)
    ensures AllFull(Hobd(es))
  {
    hide WellLogged, IsTableAnswer, IsFull;
    if es != [] {
      HobdFull(es[..|es| - 1]);
    }
  }

  lemma AnswerRowsSnoc(es: seq<Entry>, e: Entry)
    requires AllFull(es + [e])
    ensures AllFull(es) && (IsTableAnswer(e) ==> IsFull(e))
    ensures AnswerRows(es + [e]) == AnswerRows(es) + if IsTableAnswer(e) then [AnswerRow(e)] else []
  {
    hide WellLogged, IsTableAnswer, IsFull;
    assert (es + [e])[..|es|] == es && (es + [e])[|es|] == e;
    assert forall i :: 0 <= i < |es| ==> (es + [e])[i] == es[i];
  }

  /** The rows of a whole file, markers of other senders included, are the rows of its table answers. */
  lemma {:induction false} RowsOfAFile(es: seq<Entry>, stales: seq<Bytes>)
    requires |es| == |stales| && (forall i :: 0 <= i < |stales| ==> |stales[i]| >= 21) && AllFull(es)
    ensures AllFull(Hobd(es)) && CsvRows(es, stales) == AnswerRows(Hobd(es))
  {
    hide CsvRow, AnswerRows, IsFull, WellLogged, Hobd;
    HobdFull(es);
    if es == [] {
      NoRows();
    } else {
      var n := |es| - 1;
      var e := es[n];
      assert forall i :: 0 <= i < n ==> es[..n][i] == es[i];
      RowsOfAFile(es[..n], stales[..n]);
      OneRow(e, stales[n]);
      HobdSnoc(es[..n], e);
      assert es == es[..n] + [e];
      if e.kind == ENTRY_HOBD_MSG {
        AnswerRowsSnoc(Hobd(es[..n]), e);
      } else {
        assert Hobd(es[..n]) + [] == Hobd(es[..n]);
      }
    }
  }

  lemma NoRows()
    ensures Hobd([]) == [] && AnswerRows([]) == []
  {
  }

  lemma OneRow(e: Entry, stale: Bytes)
    requires WellLogged(e) && (IsTableAnswer(e) ==> IsFull(e)) && |stale| >= 21
    ensures CsvRow(e, stale) == if IsTableAnswer(e) then Some(AnswerRow(e)) else None
  {
    hide Decode;
    RowIff(e, stale);
  }

  // ------------------------------------------------------------ a session's file

  /** A truthful event, logged, is a full answer or none. */
  lemma EventIsFull(e: Event, ts: Ecu.Tables, time: U64)
    requires Ecu.FullTables(ts) && ClosedLoop.TruthfulEvent(e, ts) && Logs(e)
    ensures var x := AsEntry(Logged(time, e.frame)); WellLogged(x) && (IsTableAnswer(x) ==> IsFull(x))
  {
    hide Sum, IsFrame;
    ConstantFrames();
    if e.Answer? {
      AnswerIsFrame(e, ts);
      FrameBounds(e.frame);
      if e.state == SendReq0 {
        assert Decode(e.frame).payload == [TABLE_10, 0] + ts.t10[0..0x80];
      } else if e.state == SendReq1 {
        assert Decode(e.frame).payload == [TABLE_D1, 0] + ts.tD1[0..6];
      }
    }
  }

  /** The rows that logged events should lead to. */
  function EventRows(events: seq<Event>, ts: Ecu.Tables, log: seq<Logged>): seq<Row>
    requires Ecu.FullTables(ts) && |events| == |log|
  {
    if events == [] then []
    else
      var n := |events| - 1;
      EventRows(events[..n], ts, log[..n])
      + match RowOf(events[n], ts, log[n].timestamp) case Some(r) => [r] case None => []
  }

  lemma {:induction false} EventRowsAreAnswers(events: seq<Event>, ts: Ecu.Tables, log: seq<Logged>)
    requires Ecu.FullTables(ts) && |events| == |log|
    requires forall i :: 0 <= i < |log| ==>
      Logs(events[i]) && ClosedLoop.TruthfulEvent(events[i], ts) && log[i].data == events[i].frame
    ensures AllFull(AsEntries(log)) && AnswerRows(AsEntries(log)) == EventRows(events, ts, log)
  {
    hide CsvRow, RowOf, AnswerRows, IsFull, WellLogged, IsTableAnswer, ClosedLoop.TruthfulEvent, AnswerRow;
    if events == [] {
      NoRows();
      assert AsEntries(log) == [];
    } else {
      var n := |events| - 1;
      EventRowsAreAnswers(events[..n], ts, log[..n]);
      var e := AsEntry(log[n]);
      assert log[n] == Logged(log[n].timestamp, events[n].frame);
      EventIsFull(events[n], ts, log[n].timestamp);
      assert AsEntries(log) == AsEntries(log[..n]) + [e];
      AnswerRowsSnoc(AsEntries(log[..n]), e);
      var stale: Bytes := seq(21, _ => 0);
      EventRow(events[n], ts, log[n].timestamp, stale);
      OneRow(e, stale);
    }
  }

  /** A session from power-up, its log handed over in any interleaving with other senders' markers and flushes:
      once all is written, the CSV rows of what was written are exactly one per accepted table answer, in
      order, under the clock reading of that answer and with the leading bytes of that ECU table. */
  lemma SessionRows(e: Ecu.State, chs: seq<ClosedLoop.Channel>, clock: Clock, clocks: seq<Clock>,
                    m: MailProtocol.Mail, steps: seq<MailProtocol.Step>, rs: seq<MmcThread.Request>,
                    stales: seq<Bytes>)
    requires |chs| == |clocks|
    requires ClosedLoop.Calm(ClosedLoop.World(ClosedLoop.READY, [], e))
    requires ClosedLoop.HonestRun(ClosedLoop.World(ClosedLoop.READY, [], e), chs)
    requires MailProtocol.Start(m)
    requires m.todo == AsEntries(RunOf(ClosedLoop.SwitchOn(clock) + ClosedLoop.Rounds(chs, clocks)).log)
    requires MailProtocol.RunOk(m, steps, true) && forall i :: 0 <= i < |steps| ==> Marker(steps[i])
    requires var m' := MailProtocol.After(m, steps, true);
      m'.todo == [] && m'.rx.Idle? && WritesWhatIsGot(rs, m'.got)
    requires |stales| == |EntriesOf(rs)| && forall i :: 0 <= i < |stales| ==> |stales[i]| >= 21
    ensures var w := ClosedLoop.World(ClosedLoop.READY, [], e);
      var log, events := ClosedLoop.PlayLog(w, chs, clocks), LogEvents(ClosedLoop.PlayAll(w, chs).1);
      && Ecu.FullTables(e.tables) && |events| == |log|
      && CsvRows(EntriesOf(rs), stales) == EventRows(events, e.tables, log)
  {
    hide RunOf, ClosedLoop.PlayAll, ClosedLoop.HonestRun, ClosedLoop.PlayLog, LogFrames, LogEvents, Payloads;
    hide MailProtocol.RunOk, MailProtocol.After, EntriesOf, Hobd, CsvRows, EventRows, ClosedLoop.TruthfulEvent;
    hide MailProtocol.Start, WritesWhatIsGot, IsFrame;
    var w := ClosedLoop.World(ClosedLoop.READY, [], e);
    var log, trace := ClosedLoop.PlayLog(w, chs, clocks), ClosedLoop.PlayAll(w, chs).1;
    ClosedLoop.SessionOfTheThread(e, chs, clock, clocks);
    ClosedLoop.RunIsTruthful(w, chs);
    LogEventsFrames(trace, e.tables);
    PayloadAt(log, 0);
    forall i | 0 <= i < |log|
      ensures log[i].data == LogEvents(trace)[i].frame
    {
      PayloadAt(log, i);
    }
    EventRowsAreAnswers(LogEvents(trace), e.tables, log);
    WrittenIsSent(m, steps, rs);
    FullWithMarkers(EntriesOf(rs));
    RowsOfAFile(EntriesOf(rs), stales);
  }

  /** What was written is what was sent, and its frames are those of the start. */
  lemma WrittenIsSent(m: MailProtocol.Mail, steps: seq<MailProtocol.Step>, rs: seq<MmcThread.Request>)
    requires MailProtocol.Start(m) && AllHobd(m.todo)
    requires MailProtocol.RunOk(m, steps, true) && forall i :: 0 <= i < |steps| ==> Marker(steps[i])
    requires var m' := MailProtocol.After(m, steps, true);
      m'.todo == [] && m'.rx.Idle? && WritesWhatIsGot(rs, m'.got)
    ensures Hobd(EntriesOf(rs)) == m.todo
  {
    hide LogEntry.Bytes, EntriesOf, Hobd, MailProtocol.RunOk, MailProtocol.After;
    hide MailProtocol.Apply, MailProtocol.Enabled;
    var m' := MailProtocol.After(m, steps, true);
    RunSends(m, steps);
    NothingSent();
    MailProtocol.RunKeeps(m, steps, true);
    GotIsSent(m', rs);
    assert m'.sent[..|m'.got|] == m'.sent;
    assert Hobd(m'.sent) + [] == Hobd(m'.sent);
  }

  /** Markers are full in the sense above: nothing is asked of them. */
  lemma {:induction false} FullWithMarkers(es: seq<Entry>)
    requires AllFull(Hobd(es))
    ensures AllFull(es)
  {
    hide IsFull;
    if es != [] {
      var n := |es| - 1;
      if es[n].kind == ENTRY_HOBD_MSG {
        var h := Hobd(es);
        assert h[|h| - 1] == es[n];
        assert Hobd(es[..n]) == h[..|h| - 1];
        assert forall i :: 0 <= i < |h| - 1 ==> h[..|h| - 1][i] == h[i];
      } else {
        assert Hobd(es) == Hobd(es[..n]);
      }
      FullWithMarkers(es[..n]);
      assert es == es[..n] + [es[n]];
    }
  }
}
