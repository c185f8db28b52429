/** From the tester's thread through the shared message buffer and the log thread to the dump, with other
    senders and flushes in between. */
module LogPath {
  import opened Kline
  import opened LogEntry
  import opened ObdThread
  import opened Dump
  import opened Pipeline
  import opened MmcThread
  import MailProtocol

  /** The logged frames among entries. */
  function Hobd(es: seq<Entry>): seq<Entry> {
    if es == [] then []
    else
      var n := |es| - 1;
      Hobd(es[..n]) + if es[n].kind == ENTRY_HOBD_MSG then [es[n]] else []
  }

  lemma HobdSnoc(es: seq<Entry>, e: Entry)
    ensures Hobd(es + [e]) == Hobd(es) + if e.kind == ENTRY_HOBD_MSG then [e] else []
  {
    assert (es + [e])[..|es|] == es;
  }

  lemma {:induction false} HobdPrefix(es: seq<Entry>, n: nat)
    requires n <= |es|
    ensures Hobd(es[..n]) <= Hobd(es)
  {
    if n < |es| {
      HobdPrefix(es[..|es| - 1], n);
      assert es[..|es| - 1][..n] == es[..n];
    } else {
      assert es[..n] == es;
    }
  }

  /** Entries without payload are markers of other kinds, such as heartbeats. */
  predicate Marker(s: MailProtocol.Step) {
    s.DeliverEmpty? ==> s.kind != ENTRY_HOBD_MSG && s.kind != ENTRY_INVALID
  }

  predicate AllHobd(es: seq<Entry>) {
    forall i :: 0 <= i < |es| ==> es[i].kind == ENTRY_HOBD_MSG
  }

  predicate Sendable(es: seq<Entry>) {
    forall i :: 0 <= i < |es| ==> Loggable(es[i]) && es[i].kind != ENTRY_INVALID
  }

  lemma StepSends(m: MailProtocol.Mail, s: MailProtocol.Step)
    requires MailProtocol.Shaped(m) && MailProtocol.Enabled(m, s, true) && Marker(s)
    requires AllHobd(m.todo) && Sendable(m.sent)
    ensures var m' := MailProtocol.Apply(m, s, true);
      && AllHobd(m'.todo) && Sendable(m'.sent)
      && Hobd(m'.sent) + m'.todo == Hobd(m.sent) + m.todo
  {
    hide Hobd, MailProtocol.Written, EntryWord;
    match s
    case Deliver =>
      HobdSnoc(m.sent, m.todo[0]);
      assert m.todo == [m.todo[0]] + m.todo[1..];
    case DeliverEmpty(kind, timestamp, _) =>
      HobdSnoc(m.sent, Entry(kind, timestamp, []));
    case _ =>
  }

  /** Over a whole run: the frames sent so far and those still to send are the frames of the start. */
  lemma {:induction false} RunSends(m: MailProtocol.Mail, steps: seq<MailProtocol.Step>)
    requires MailProtocol.Shaped(m) && MailProtocol.RunOk(m, steps, true)
    requires forall i :: 0 <= i < |steps| ==> Marker(steps[i])
    requires AllHobd(m.todo) && Sendable(m.sent)
    ensures var m' := MailProtocol.After(m, steps, true);
      Sendable(m'.sent) && Hobd(m'.sent) + m'.todo == Hobd(m.sent) + m.todo
    decreases |steps|
  {
    hide Hobd, MailProtocol.Apply, MailProtocol.Enabled, AllHobd, Sendable, Marker;
    if steps != [] {
      StepSends(m, steps[0]);
      MailProtocol.ApplyShaped(m, steps[0], true);
      RunSends(MailProtocol.Apply(m, steps[0], true), steps[1..]);
    }
  }

  // ------------------------------------------------------------ the log thread's side

  /** Requests of an undisturbed log thread: whole writes, flushes that succeed, and questions. */
  predicate Undisturbed(r: Request) {
    match r
    case EntryLog(e, wrote) => Loggable(e) && e.kind != ENTRY_INVALID && wrote == |LogEntry.Bytes(e)|
    case HardFlush(openOk) => openOk
    case RmFile(_, _) => false
    case SetState(_, _) => false
    case _ => true
  }

  function EntriesOf(rs: seq<Request>): seq<Entry> {
    if rs == [] then []
    else
      var n := |rs| - 1;
      EntriesOf(rs[..n]) + if rs[n].EntryLog? then [rs[n].entry] else []
  }

  /** The file grows by exactly the entries, whatever flushes and questions come in between. */
  lemma {:induction false} ServedBetweenFlushes(l: Log, rs: seq<Request>)
    requires Sound(l) && Working(l) && forall i :: 0 <= i < |rs| ==> Undisturbed(rs[i])
    ensures (forall i :: 0 <= i < |rs| ==> Sane(rs[i]))
    ensures var l' := Serve(l, rs);
      Sound(l') && Working(l') && l'.entries == l.entries + EntriesOf(rs)
  {
    hide LogEntry.Bytes, Sound;
    if rs == [] {
      assert l.entries + [] == l.entries;
    } else {
      var n := |rs| - 1;
      ServedBetweenFlushes(l, rs[..n]);
      EffectKeepsSound(Serve(l, rs[..n]), rs[n]);
    }
  }

  /** The bytes of an entry tell the entry. */
  lemma SameEntry(e: Entry, e': Entry)
    requires Loggable(e) && |e'.data| < 0x1_0000 && LogEntry.Bytes(e) == LogEntry.Bytes(e')
    ensures e == e'
  {
    hide ReadSpec, Header;
    ReadInverts(e, []);
    ReadInverts(e', []);
  }

  /** The log thread writes what it received, in order. */
  ghost predicate WritesWhatIsGot(rs: seq<Request>, got: seq<Bytes>) {
    var es := EntriesOf(rs);
    |es| == |got| && forall i :: 0 <= i < |es| ==> |es[i].data| < 0x1_0000 && LogEntry.Bytes(es[i]) == got[i]
  }

  lemma GotIsSent(m: MailProtocol.Mail, rs: seq<Request>)
    requires MailProtocol.Exact(m) && Sendable(m.sent) && WritesWhatIsGot(rs, m.got)
    ensures EntriesOf(rs) == m.sent[..|m.got|]
  {
    hide LogEntry.Bytes, EntriesOf;
    var es := EntriesOf(rs);
    forall i | 0 <= i < |es|
      ensures es[i] == m.sent[i]
    {
      SameEntry(m.sent[i], es[i]);
    }
  }

  /** Any run of the tester's thread, its log handed over entry by entry through the shared buffer, in any
      interleaving with the log thread and with any markers of other senders and flushes in between: the
      dump gives back what the log thread wrote; the frames in it are the thread's log, in order and as
      far as it was handed over, with the thread's own clock readings. */
  lemma EveryRunReachesTheDump(l: Log, inputs: seq<ObdThread.Input>, m: MailProtocol.Mail,
                               steps: seq<MailProtocol.Step>, rs: seq<Request>)
    requires Sound(l) && Working(l)
    requires MailProtocol.Start(m) && m.todo == AsEntries(RunOf(inputs).log)
    requires MailProtocol.RunOk(m, steps, true) && forall i :: 0 <= i < |steps| ==> Marker(steps[i])
    requires forall i :: 0 <= i < |rs| ==> Undisturbed(rs[i])
    requires WritesWhatIsGot(rs, MailProtocol.After(m, steps, true).got)
    ensures (forall i :: 0 <= i < |rs| ==> Sane(rs[i])) && AllLoggable(Serve(l, rs).entries)
    ensures DumpSpec(FileBytes(Serve(l, rs))) == (l.entries + EntriesOf(rs), Clean)
    ensures Hobd(EntriesOf(rs)) <= m.todo
    ensures var m' := MailProtocol.After(m, steps, true);
      m'.todo == [] && m'.rx.Idle? ==> Hobd(EntriesOf(rs)) == m.todo
  {
    hide LogEntry.Bytes, DumpSpec, RunOf, EntriesOf, Hobd, Serve;
    hide MailProtocol.RunOk, MailProtocol.After, MailProtocol.Apply, MailProtocol.Enabled;
    var m' := MailProtocol.After(m, steps, true);
    RunSends(m, steps);
    NothingSent();
    MailProtocol.RunKeeps(m, steps, true);
    GotIsSent(m', rs);
    ServedBetweenFlushes(l, rs);
    SoundIsReadable(Serve(l, rs));
    HobdPrefix(m'.sent, |m'.got|);
    assert Hobd(m'.sent) <= Hobd(m'.sent) + m'.todo == m.todo;
    if m'.todo == [] && m'.rx.Idle? {
      assert m'.sent[..|m'.got|] == m'.sent;
    }
  }

  lemma NothingSent()
    ensures Hobd([]) == [] && forall es: seq<Entry> :: [] + es == es
  {
  }
}
