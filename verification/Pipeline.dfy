/** From the wire to the dump: the parts put together. */
module Pipeline {
  import opened Kline
  import opened Segmenter
  import opened Builder
  import opened Session
  import opened ObdThread
  import opened ThreadRuns
  import opened Comm
  import opened LogEntry
  import opened Dump
  import Ecu
  import ClosedLoop
  import MmcThread

  /** A call of the logger as an entry. */
  function AsEntry(l: Logged): Entry {
    Entry(ENTRY_HOBD_MSG, l.timestamp, l.data)
  }

  function AsEntries(log: seq<Logged>): seq<Entry> {
    seq(|log|, i requires 0 <= i < |log| => AsEntry(log[i]))
  }

  /** Every frame fits the log with room to spare: aligned with its header it takes at most 264 bytes. */
  lemma FramesFit(log: seq<Logged>)
    requires LogsFrames(log)
    ensures AllLoggable(AsEntries(log))
    ensures forall i :: 0 <= i < |log| ==> AlignUp4(|log[i].data| + ENTRY_HEADER_SIZE) <= 264
  {
    forall i | 0 <= i < |log|
      ensures |log[i].data| <= 251
    {
      assert IsFrame(log[i].data);
    }
  }

  /** A log file that takes entries. */
  predicate Working(l: MmcThread.Log) {
    l.enabled && l.open && !l.ended
  }

  /** The log after the thread's calls, each of them written whole. */
  function LogAfter(l: MmcThread.Log, log: seq<Logged>): MmcThread.Log
    requires AllLoggable(AsEntries(log))
  {
    MmcThread.Serve(l, MmcThread.LogAll(AsEntries(log)))
  }

  /** Any run of the tester's thread, whatever it receives, is told and lets time out, when nothing else is
      logged meanwhile and entries are handed over one at a time: all it logs fits the log, and the dump
      gives it back after what was there before, with the same bytes, the same timestamps and in the same
      order; these are the frames that the run sent, accepted and heard. */
  lemma RunAloneReachesTheDump(l: MmcThread.Log, inputs: seq<ObdThread.Input>)
    requires MmcThread.Sound(l) && Working(l)
    ensures var r := RunOf(inputs);
      && AllLoggable(AsEntries(r.log)) && AllLoggable(LogAfter(l, r.log).entries)
      && DumpSpec(MmcThread.FileBytes(LogAfter(l, r.log))) == (l.entries + AsEntries(r.log), Clean)
      && Payloads(r.log) == LogFrames(Trace(r.turns))
  {
    hide IsFrame, DumpSpec, MmcThread.Serve, LogEntry.Bytes, RunOf, Trace, LogFrames, Payloads;
    var log := RunOf(inputs).log;
    RunLogsFrames(inputs);
    RunLogsItsTrace(inputs);
    FramesFit(log);
    MmcThread.LoggedInOrder(l, AsEntries(log));
    MmcThread.EveryRunIsReadable(l, MmcThread.LogAll(AsEntries(log)));
  }

  /** The data of entries, in order. */
  function DataOf(es: seq<Entry>): seq<Bytes> {
    seq(|es|, i requires 0 <= i < |es| => es[i].data)
  }

  lemma EntriesCarryPayloads(log: seq<Logged>)
    ensures DataOf(AsEntries(log)) == Payloads(log)
  {
    hide Payloads;
    PayloadAt(log, 0);
    forall i | 0 <= i < |log|
      ensures DataOf(AsEntries(log))[i] == Payloads(log)[i]
    {
      PayloadAt(log, i);
    }
  }

  /** Listen-only mode end to end: for whatever bytes are on the line and wherever timeouts fall among
      them, the thread's log, dumped, gives exactly the accepted frames of the bytes, in order, each with
      the clock reading of the turn that completed it. */
  lemma ListenedStreamReachesTheDump(l: MmcThread.Log, polls: seq<Poll>, start: Clock, clock: nat -> Clock)
    requires MmcThread.Sound(l) && Working(l)
    ensures var log := RunOf(ListenOn(start) + Cut([], polls, clock, 0)).log;
      && AllLoggable(AsEntries(log)) && AllLoggable(LogAfter(l, log).entries)
      && DumpSpec(MmcThread.FileBytes(LogAfter(l, log))) == (l.entries + AsEntries(log), Clean)
      && DataOf(AsEntries(log)) == AcceptedFrames(Received(polls))
      && forall j :: 0 <= j < |log| ==> StampedBy(start, polls, clock, j, AsEntries(log)[j].timestamp)
  {
    hide DumpSpec, MmcThread.Serve, LogEntry.Bytes, RunOf, Cut, AcceptedFrames, Payloads, DataOf, LogAfter;
    hide StampedBy;
    var inputs := ListenOn(start) + Cut([], polls, clock, 0);
    RunAloneReachesTheDump(l, inputs);
    ListenedStream(polls, start, clock);
    EntriesCarryPayloads(RunOf(inputs).log);
  }

  // ------------------------------------------------------------ CSV rows

  datatype Row = Row(table: Byte, timestamp: U64, fields: Bytes)

  const TABLE_10_ROW: nat := 16  // sizeof(hobd_table_10_s)
  const TABLE_D1_ROW: nat := 5   // sizeof(hobd_table_d1_s)

  /** log_csv_entry: the row, if any, that an entry adds. Past the entry's data the reader's buffer holds
      stale bytes. */
  function CsvRow(e: Entry, stale: Bytes): Option<Row>
    requires |e.data + stale| >= 21
  {
    var d := e.data + stale;
    if e.kind == ENTRY_HOBD_MSG && d[0] == TYPE_RESPONSE && d[2] == SUBTYPE_TABLE_SUBGROUP then
      if d[3] == TABLE_10 then Some(Row(TABLE_10, e.timestamp, d[5..5 + TABLE_10_ROW]))
      else if d[3] == TABLE_D1 then Some(Row(TABLE_D1, e.timestamp, d[5..5 + TABLE_D1_ROW]))
      else None
    else None
  }

  /** The row that an event of a session should lead to. */
  function RowOf(e: Event, ts: Ecu.Tables, time: U64): Option<Row>
    requires Ecu.FullTables(ts)
  {
    match e
    case Answer(SendReq0, _) => Some(Row(TABLE_10, time, ts.t10[..TABLE_10_ROW]))
    case Answer(SendReq1, _) => Some(Row(TABLE_D1, time, ts.tD1[..TABLE_D1_ROW]))
    case _ => None
  }

  /** A table answer starts with its header and the table. */
  lemma AnswerStarts(e: Event, ts: Ecu.Tables)
    requires Ecu.FullTables(ts) && ClosedLoop.TruthfulEvent(e, ts)
    requires e.Answer? && e.state != SendEcuInit
    ensures var f := e.frame;
      && |f| >= 12 && f[0] == TYPE_RESPONSE && f[2] == SUBTYPE_TABLE_SUBGROUP
      && f[3] == (if e.state == SendReq0 then TABLE_10 else TABLE_D1)
      && (e.state == SendReq0 ==> |f| >= 21 && f[5..21] == ts.t10[..16])
      && (e.state == SendReq1 ==> f[5..10] == ts.tD1[..5])
  {
    hide Sum;
    var f, payload := e.frame, Decode(e.frame).payload;
    if e.state == SendReq0 {
      assert payload == [TABLE_10, 0] + ts.t10[0..0x80];
      assert forall k :: 0 <= k < 16 ==> f[5 + k] == payload[2 + k] == ts.t10[k];
    } else {
      assert payload == [TABLE_D1, 0] + ts.tD1[0..6];
      assert forall k :: 0 <= k < 5 ==> f[5 + k] == payload[2 + k] == ts.tD1[k];
    }
  }

  /** An entry made of an event's frame gives the event's row, whatever is stale in the buffer. */
  lemma EventRow(e: Event, ts: Ecu.Tables, time: U64, stale: Bytes)
    requires Ecu.FullTables(ts) && ClosedLoop.TruthfulEvent(e, ts) && Logs(e) && |stale| >= 21
    ensures CsvRow(Entry(ENTRY_HOBD_MSG, time, e.frame), stale) == RowOf(e, ts, time)
  {
    hide Ecu.Serves;
    if e.Answer? && e.state != SendEcuInit {
      AnswerStarts(e, ts);
      var f, d := e.frame, e.frame + stale;
      assert e.state == SendReq0 ==> d[5..21] == f[5..21];
      assert e.state == SendReq1 ==> d[5..10] == f[5..10];
    }
  }

  /** The events of a trace that are logged. */
  function LogEvents(trace: seq<Event>): seq<Event> {
    if trace == [] then []
    else
      var n := |trace| - 1;
      LogEvents(trace[..n]) + if Logs(trace[n]) then [trace[n]] else []
  }

  lemma AnswerIsFrame(e: Event, ts: Ecu.Tables)
    requires Ecu.FullTables(ts) && ClosedLoop.TruthfulEvent(e, ts) && e.Answer?
    ensures IsFrame(e.frame)
  {
  }

  lemma {:induction false} LogEventsFrames(trace: seq<Event>, ts: Ecu.Tables)
    requires Ecu.FullTables(ts) && forall i :: 0 <= i < |trace| ==> ClosedLoop.TruthfulEvent(trace[i], ts)
    ensures var es, fs := LogEvents(trace), LogFrames(trace);
      && |es| == |fs| && AllFrames(fs)
      && forall i :: 0 <= i < |es| ==> Logs(es[i]) && ClosedLoop.TruthfulEvent(es[i], ts) && fs[i] == es[i].frame
  {
    hide IsFrame, ClosedLoop.AnswersQuery;
    if trace != [] {
      var n := |trace| - 1;
      LogEventsFrames(trace[..n], ts);
      ConstantFrames();
      if trace[n].Answer? {
        AnswerIsFrame(trace[n], ts);
      }
    }
  }

  /** A session end to end. From any point of the thread's run, over any lossy but honest channel: the dump
      of the log gives back all that the thread logged, under its own clock readings, and each accepted
      table answer, and nothing else, leads to a CSV row with the leading bytes of that ECU table. */
  lemma SessionReachesTheCsv(pre: seq<ObdThread.Input>, w: ClosedLoop.World, chs: seq<ClosedLoop.Channel>,
                             clocks: seq<Clock>, l: MmcThread.Log)
    requires ClosedLoop.Calm(w) && ClosedLoop.HonestRun(w, chs) && |chs| == |clocks|
    requires ClosedLoop.StandsAt(RunOf(pre), w)
    requires MmcThread.Sound(l) && Working(l)
    ensures var log := RunOf(pre + ClosedLoop.Rounds(chs, clocks)).log;
      var news, events := ClosedLoop.PlayLog(w, chs, clocks), LogEvents(ClosedLoop.PlayAll(w, chs).1);
      && AllLoggable(AsEntries(log)) && AllLoggable(LogAfter(l, log).entries)
      && DumpSpec(MmcThread.FileBytes(LogAfter(l, log))) == (l.entries + AsEntries(log), Clean)
      && log == RunOf(pre).log + news && |news| == |events|
      && forall i, stale: Bytes :: 0 <= i < |news| && |stale| >= 21 ==>
           CsvRow(AsEntry(news[i]), stale) == RowOf(events[i], w.e.tables, news[i].timestamp)
  {
    hide DumpSpec, MmcThread.Serve, LogEntry.Bytes, RunOf, ClosedLoop.PlayAll, ClosedLoop.HonestRun, LogAfter;
    hide LogFrames, LogEvents, CsvRow, RowOf, ClosedLoop.TruthfulEvent, ClosedLoop.PlayLog, Payloads, IsFrame;
    var inputs := pre + ClosedLoop.Rounds(chs, clocks);
    var news, trace := ClosedLoop.PlayLog(w, chs, clocks), ClosedLoop.PlayAll(w, chs).1;
    RunAloneReachesTheDump(l, inputs);
    ClosedLoop.ThreadPlays(pre, w, chs, clocks);
    NewsAreLogged(pre, w, chs, clocks);
    ClosedLoop.RunIsTruthful(w, chs);
    LogEventsFrames(trace, w.e.tables);
    var events := LogEvents(trace);
    PayloadAt(news, 0);
    forall i, stale: Bytes | 0 <= i < |news| && |stale| >= 21
      ensures CsvRow(AsEntry(news[i]), stale) == RowOf(events[i], w.e.tables, news[i].timestamp)
    {
      PayloadAt(news, i);
      EventRow(events[i], w.e.tables, news[i].timestamp, stale);
    }
  }

  lemma Cancel(a: seq<Bytes>, x: seq<Bytes>, y: seq<Bytes>)
    requires a + x == a + y
    ensures x == y
  {
    assert x == (a + x)[|a|..] && y == (a + y)[|a|..];
  }

  /** What the rounds add to the log is what their events send and accept. */
  lemma NewsAreLogged(pre: seq<ObdThread.Input>, w: ClosedLoop.World, chs: seq<ClosedLoop.Channel>,
                      clocks: seq<Clock>)
    requires ClosedLoop.Calm(w) && ClosedLoop.HonestRun(w, chs) && |chs| == |clocks|
    requires ClosedLoop.StandsAt(RunOf(pre), w)
    ensures Payloads(ClosedLoop.PlayLog(w, chs, clocks)) == LogFrames(ClosedLoop.PlayAll(w, chs).1)
  {
    hide RunOf, ClosedLoop.PlayAll, ClosedLoop.HonestRun, LogFrames, ClosedLoop.PlayLog, Payloads, Trace;
    hide ClosedLoop.Calm, ClosedLoop.StandsAt, Wire;
    var news, es := ClosedLoop.PlayLog(w, chs, clocks), ClosedLoop.PlayAll(w, chs).1;
    ClosedLoop.ThreadPlays(pre, w, chs, clocks);
    RunLogsItsTrace(pre);
    RunLogsItsTrace(pre + ClosedLoop.Rounds(chs, clocks));
    PayloadsConcat(RunOf(pre).log, news);
    LogFramesConcat(Trace(RunOf(pre).turns), es);
    Cancel(Payloads(RunOf(pre).log), Payloads(news), LogFrames(es));
  }
}
