/** The log thread: it takes entries and file commands one at a time. The periodic hard flush, which
    the timer thread runs, is taken as one more atomic request. */
module MmcThread {
  import opened Kline
  import opened LogEntry
  import opened Mailbox
  import MailProtocol
  import opened MmcFile
  import opened Dump

  /** Requests, with the outcomes of the FAT calls they lead to. `wrote` is what the write reports. */
  datatype Request =
    | EntryLog(entry: Entry, wrote: int)
    | StatsReq
    | FileSizeReq
    | StateReq
    | RmFile(rmOk: bool, openOk: bool)
    | SetState(on: bool, openOk: bool)
    | HardFlush(openOk: bool)

  predicate Sane(r: Request) {
    r.EntryLog? ==> |r.entry.data| < 0x1_0000 && r.wrote <= ENTRY_HEADER_SIZE + |r.entry.data|
  }

  /** The log as a value: the whole entries in the file, the bytes of a torn last one, and the number of
      entries logged since the last removal. `saved` tells of each entry whether it is sure to be on the
      card; from `base` on the entries were written through the handle now open. `lost` file handles are
      open that nobody knows. `ended`: a fatal check stopped the run. */
  datatype Log = Log(enabled: bool, open: bool, entries: seq<Entry>, torn: Bytes, logged: nat,
                     saved: seq<bool>, base: nat, lost: nat, ended: bool)

  /** Closing the enabled file saves what was written through its handle, and nothing else. */
  function Closed(l: Log): Log {
    l.(saved := seq(|l.saved|, i requires 0 <= i < |l.saved| => l.saved[i] || i >= l.base), base := |l.entries|)
  }

  function Effect(l: Log, r: Request): Log
    requires Sane(r)
  {
    if l.ended then l
    else
      match r
      case EntryLog(e, wrote) =>
        if !Loggable(e) || e.kind == ENTRY_INVALID then l.(ended := true)
        else if !l.enabled then l
        else if !l.open then l.(ended := true)
        else if wrote == |LogEntry.Bytes(e)| then
          l.(entries := l.entries + [e], saved := l.saved + [false], logged := l.logged + 1)
        else l.(torn := if wrote < 0 then [] else LogEntry.Bytes(e)[..wrote], ended := true)
      case RmFile(rmOk, openOk) =>
        if !l.enabled then l.(logged := 0)
        else if rmOk then l.(entries := [], saved := [], base := 0, open := openOk, logged := 0)
        else (if l.open then Closed(l) else l).(open := openOk, logged := 0)
      case SetState(on, openOk) =>
        l.(enabled := on && openOk, open := on && openOk, base := |l.entries|,
           lost := l.lost + if on && l.open then 1 else 0)
      case HardFlush(openOk) =>
        if l.enabled && l.open then Closed(l).(open := openOk) else l
      case _ => l
  }

  ghost predicate TornFrom(t: Bytes, e: Entry, n: nat) {
    Loggable(e) && n < |LogEntry.Bytes(e)| && t == LogEntry.Bytes(e)[..n]
  }

  /** What every request keeps. */
  ghost predicate Sound(l: Log) {
    && AllLoggable(l.entries)
    && (!l.enabled ==> !l.open)
    && l.logged <= |l.entries|
    && |l.saved| == |l.entries| && l.base <= |l.entries|
    && (!l.open ==> l.base == |l.entries|)
    && (forall i :: l.base <= i < |l.saved| ==> !l.saved[i])
    && (!l.ended ==> l.torn == [])
    && (l.torn != [] ==> exists e, n: nat :: TornFrom(l.torn, e, n))
  }

  function Serve(l: Log, rs: seq<Request>): Log
    requires forall i :: 0 <= i < |rs| ==> Sane(rs[i])
  {
    if rs == [] then l else Effect(Serve(l, rs[..|rs| - 1]), rs[|rs| - 1])
  }

  lemma EffectKeepsSound(l: Log, r: Request)
    requires Sound(l) && Sane(r)
    ensures Sound(Effect(l, r))
  {
    hide LogEntry.Bytes;
    var l' := Effect(l, r);
    if !l.ended && l'.torn != [] {
      assert TornFrom(l'.torn, r.entry, r.wrote);
    }
  }

  function FileBytes(l: Log): Bytes
    requires AllLoggable(l.entries)
  {
    FileOf(l.entries) + l.torn
  }

  /** After any requests, with any failures of the file system: a disabled file has no handle, the count
      of logged entries never exceeds the entries in the file, and the dump of the file prints exactly
      the entries written whole, even when the run ended in the middle of a write. */
  lemma {:induction false} EveryRunIsReadable(l: Log, rs: seq<Request>)
    requires Sound(l) && forall i :: 0 <= i < |rs| ==> Sane(rs[i])
    ensures Sound(Serve(l, rs))
    ensures var l' := Serve(l, rs);
      DumpSpec(FileBytes(l')).0 == l'.entries && (l'.torn == [] ==> DumpSpec(FileBytes(l')).1 == Clean)
  {
    hide LogEntry.Bytes, DumpSpec, Effect;
    if rs != [] {
      EveryRunIsReadable(l, rs[..|rs| - 1]);
      EffectKeepsSound(Serve(l, rs[..|rs| - 1]), rs[|rs| - 1]);
    }
    SoundIsReadable(Serve(l, rs));
  }

  lemma SoundIsReadable(l: Log)
    requires Sound(l)
    ensures DumpSpec(FileBytes(l)).0 == l.entries && (l.torn == [] ==> DumpSpec(FileBytes(l)).1 == Clean)
  {
    hide LogEntry.Bytes, ReadSpec;
    if l.torn == [] {
      DumpInverts(l.entries, []);
      EmptyFile();
    } else {
      var e, n: nat :| TornFrom(l.torn, e, n);
      TornTail(l.entries, e, n);
    }
  }

  lemma EmptyFile()
    ensures DumpSpec([]) == ([], Clean)
  {
  }

  /** Requests that log `es`, each written whole. */
  function LogAll(es: seq<Entry>): seq<Request>
    requires AllLoggable(es)
  {
    seq(|es|, i requires 0 <= i < |es| => EntryLog(es[i], |LogEntry.Bytes(es[i])|))
  }

  function Falses(n: nat): seq<bool> {
    seq(n, _ => false)
  }

  /** While the file is enabled and open and writes succeed, the file grows by exactly what is logged. */
  lemma {:induction false} LoggedInOrder(l: Log, es: seq<Entry>)
    requires Sound(l) && l.enabled && l.open && !l.ended && AllLoggable(es)
    requires forall i :: 0 <= i < |es| ==> es[i].kind != ENTRY_INVALID
    ensures Serve(l, LogAll(es))
         == l.(entries := l.entries + es, saved := l.saved + Falses(|es|), logged := l.logged + |es|)
  {
    hide LogEntry.Bytes;
    if es == [] {
      assert l.entries + es == l.entries && l.saved + Falses(0) == l.saved;
    } else {
      var n := |es| - 1;
      assert l.saved + Falses(n + 1) == (l.saved + Falses(n)) + [false];
      LoggedInOrder(l, es[..n]);
      assert LogAll(es)[..n] == LogAll(es[..n]);
      assert l.entries + es == (l.entries + es[..n]) + [es[n]];
    }
  }

  // ------------------------------------------------------------ enabled, disabled, ended

  /** After a request to set the state the file is enabled and open, or neither, as asked and as opening
      succeeded; enabling that fails disables. */
  lemma StateIsSet(l: Log, on: bool, openOk: bool)
    requires !l.ended
    ensures var l' := Effect(l, SetState(on, openOk));
      !l'.ended && (l'.enabled <==> on && openOk) && (l'.open <==> on && openOk)
  {
  }

  /** A request that does not enable, and whose entry, if it has one, is valid. */
  predicate LeavesDisabled(r: Request) {
    && (r.SetState? ==> !r.on)
    && (r.EntryLog? ==> |r.entry.data| <= 456 && r.entry.kind != 0x0000)
  }

  /** From a request that disables, or fails to enable, until the next one that enables: nothing is written,
      saved or lost, and no valid entry ends the run. */
  lemma {:induction false} DisabledIgnores(l: Log, on: bool, openOk: bool, rs: seq<Request>)
    requires Sound(l) && !l.ended && !(on && openOk)
    requires forall i :: 0 <= i < |rs| ==> Sane(rs[i]) && LeavesDisabled(rs[i])
    ensures var off := Effect(l, SetState(on, openOk));
      Serve(off, rs) == off.(logged := Serve(off, rs).logged) && off.entries == l.entries && off.saved == l.saved
  {
    hide LogEntry.Bytes;
    if rs != [] {
      DisabledIgnores(l, on, openOk, rs[..|rs| - 1]);
    }
  }

  /** A run is ended by an entry without a valid type or with more than 456 bytes, by an entry that finds the
      file enabled but not open, as after a flush that could not open it again, and by an entry that is
      not written whole; and by nothing else. */
  lemma EndsIff(l: Log, r: Request)
    requires !l.ended && Sane(r)
    ensures Effect(l, r).ended <==>
      r.EntryLog? && (|| |r.entry.data| > 456 || r.entry.kind == 0x0000
                      || (l.enabled && (!l.open || r.wrote != 12 + |r.entry.data|)))
  {
  }

  /** A write that comes up short ends the run and leaves exactly the bytes written behind the whole entries;
      the dump still prints those, and then ends cleanly or in a failed assertion. */
  lemma ShortWriteLeaves(l: Log, e: Entry, wrote: nat)
    requires Sound(l) && l.enabled && l.open && !l.ended && Loggable(e) && e.kind != ENTRY_INVALID
    requires wrote < |LogEntry.Bytes(e)|
    ensures var l' := Effect(l, EntryLog(e, wrote));
      && l'.ended && AllLoggable(l'.entries) && FileBytes(l') == FileBytes(l) + LogEntry.Bytes(e)[..wrote]
      && DumpSpec(FileBytes(l')) == (l.entries, if wrote < 12 then Clean else Failed)
  {
    hide LogEntry.Bytes, DumpSpec;
    var t := LogEntry.Bytes(e)[..wrote];
    assert FileOf(l.entries) + [] + t == FileOf(l.entries) + t;
    TornTail(l.entries, e, wrote);
  }

  /** A file that is not open becomes open only by a removal while enabled, or by enabling, whose opening
      succeeds; a flush does not open it. */
  lemma OpensIff(l: Log, r: Request)
    requires Sound(l) && !l.ended && !l.open && Sane(r)
    ensures Effect(l, r).open <==>
      (r.RmFile? && l.enabled && r.openOk) || (r.SetState? && r.on && r.openOk)
  {
  }

  /** Entries leave the file only by a removal that succeeds while the file is enabled; then all go. */
  lemma EntriesGoIff(l: Log, r: Request)
    requires !l.ended && Sane(r) && l.entries != []
    ensures l.entries <= Effect(l, r).entries <==> !(r.RmFile? && l.enabled && r.rmOk)
    ensures r.RmFile? && l.enabled && r.rmOk ==> Effect(l, r).entries == []
    ensures r.RmFile? ==> Effect(l, r).logged == 0
  {
    hide LogEntry.Bytes;
  }

  // ------------------------------------------------------------ what is lost on the way

  /** An enabling request that meets an open handle. */
  predicate Reenables(l: Log, r: Request) {
    !l.ended && r.SetState? && r.on && l.open
  }

  /** How many requests of a run do so. */
  function CountReenables(l: Log, rs: seq<Request>): nat
    requires forall i :: 0 <= i < |rs| ==> Sane(rs[i])
  {
    if rs == [] then 0
    else
      var n := |rs| - 1;
      CountReenables(l, rs[..n]) + if Reenables(Serve(l, rs[..n]), rs[n]) then 1 else 0
  }

  /** In every run, handles are lost by enabling an open file, one each time, and in no other way. */
  lemma {:induction false} HandlesLost(l: Log, rs: seq<Request>)
    requires forall i :: 0 <= i < |rs| ==> Sane(rs[i])
    ensures Serve(l, rs).lost == l.lost + CountReenables(l, rs)
  {
    hide LogEntry.Bytes;
    if rs != [] {
      HandlesLost(l, rs[..|rs| - 1]);
    }
  }

  /** All entries are sure to be on the card. */
  predicate AllSaved(l: Log) {
    forall i :: 0 <= i < |l.saved| ==> l.saved[i]
  }

  /** A request that closes the file while it is enabled. */
  predicate Saves(l: Log, r: Request) {
    !l.ended && l.enabled && l.open && (r.HardFlush? || r.RmFile?)
  }

  predicate Removes(l: Log, r: Request) {
    !l.ended && l.enabled && r.RmFile? && r.rmOk
  }

  /** How many entries have been written since the file was last closed, opened or removed. */
  function Written(l: Log, rs: seq<Request>): nat
    requires forall i :: 0 <= i < |rs| ==> Sane(rs[i])
  {
    if rs == [] then 0
    else
      var n := |rs| - 1;
      var before := Serve(l, rs[..n]);
      if Settles(before, rs[n]) then 0
      else
        Written(l, rs[..n]) + if |Effect(before, rs[n]).entries| > |before.entries| then 1 else 0
  }

  /** Since the last removal, some request to set the state met an open file with entries written to it:
      disabling closed it after clearing the flag, or enabling lost its handle. */
  predicate Dropped(l: Log, rs: seq<Request>)
    requires forall i :: 0 <= i < |rs| ==> Sane(rs[i])
  {
    rs != [] &&
    var n := |rs| - 1;
    var before := Serve(l, rs[..n]);
    && !Removes(before, rs[n])
    && (|| Dropped(l, rs[..n])
        || (!before.ended && rs[n].SetState? && before.open && Written(l, rs[..n]) > 0))
  }

  /** Some entry that the present handle did not write is not saved. */
  ghost predicate Missing(l: Log) {
    exists i :: 0 <= i < |l.saved| && i < l.base && !l.saved[i]
  }

  /** A request that ends the life of the open handle, if there is one. */
  predicate Settles(l: Log, r: Request) {
    Saves(l, r) || Removes(l, r) || (r.SetState? && !l.ended)
  }

  /** What one request does to the entries of the present handle. */
  lemma PendingStep(l: Log, r: Request)
    requires Sound(l) && Sane(r)
    ensures var l' := Effect(l, r);
      |l'.entries| - l'.base
      == if Settles(l, r) then 0 else |l.entries| - l.base + if |l'.entries| > |l.entries| then 1 else 0
  {
    hide LogEntry.Bytes, AllLoggable, TornFrom;
  }

  /** A request that drops the entries of the present handle. */
  predicate Drops(l: Log, r: Request) {
    !l.ended && r.SetState? && l.base < |l.entries|
  }

  /** An entry of an earlier handle stays as it is, unless the file is removed. */
  lemma MissingStays(l: Log, r: Request)
    requires Sound(l) && Sane(r) && !Removes(l, r) && (Missing(l) || Drops(l, r))
    ensures Missing(Effect(l, r))
  {
    hide LogEntry.Bytes, AllLoggable, TornFrom;
    var l' := Effect(l, r);
    if Missing(l) {
      var i :| 0 <= i < |l.saved| && i < l.base && !l.saved[i];
      KeptByStep(l, r, i);
      assert !l'.saved[i];
    } else {
      assert l'.saved == l.saved && !l'.saved[l.base] && l.base < l'.base;
    }
  }

  lemma MissingIsNew(l: Log, r: Request)
    requires Sound(l) && Sane(r) && Missing(Effect(l, r))
    ensures !Removes(l, r) && (Missing(l) || Drops(l, r))
  {
    hide LogEntry.Bytes, AllLoggable, TornFrom;
    var l' := Effect(l, r);
    var i :| 0 <= i < |l'.saved| && i < l'.base && !l'.saved[i];
    if i < l.base && !Removes(l, r) {
      KeptByStep(l, r, i);
      assert !l.saved[i];
    }
  }

  /** What one request does to the entries of earlier handles and to those of the present one. */
  lemma SavingStep(l: Log, r: Request)
    requires Sound(l) && Sane(r)
    ensures var l' := Effect(l, r);
      && (Missing(l') <==> !Removes(l, r) && (Missing(l) || Drops(l, r)))
      && |l'.entries| - l'.base
         == if Settles(l, r) then 0 else |l.entries| - l.base + if |l'.entries| > |l.entries| then 1 else 0
  {
    hide Effect, Missing, Sound, Removes, Drops;
    PendingStep(l, r);
    if Missing(Effect(l, r)) {
      MissingIsNew(l, r);
    }
    if !Removes(l, r) && (Missing(l) || Drops(l, r)) {
      MissingStays(l, r);
    }
  }

  /** In every run, from a saved log: all entries are sure to be on the card if and only if, since the last
      removal, no request to set the state met an open file with entries written to it, and nothing was
      written since the file was last closed. */
  lemma {:induction false} SavedEntries(l: Log, rs: seq<Request>)
    requires Sound(l) && AllSaved(l) && l.base == |l.entries| && forall i :: 0 <= i < |rs| ==> Sane(rs[i])
    ensures AllSaved(Serve(l, rs)) <==> !Dropped(l, rs) && Written(l, rs) == 0
  {
    hide LogEntry.Bytes, Sound, Effect;
    SavingHistory(l, rs);
    EveryRunIsReadable(l, rs);
    SavedOrNot(Serve(l, rs));
  }

  /** Under that condition the card holds the whole file, and its dump prints every entry written and has at
      least as many as the count says. */
  lemma CardIsReadable(l: Log, rs: seq<Request>)
    requires Sound(l) && AllSaved(l) && l.base == |l.entries| && forall i :: 0 <= i < |rs| ==> Sane(rs[i])
    requires !Serve(l, rs).ended && !Dropped(l, rs) && Written(l, rs) == 0
    ensures var l' := Serve(l, rs);
      && Sound(l') && AllSaved(l')
      && DumpSpec(FileBytes(l')) == (l'.entries, Clean) && l'.logged <= |DumpSpec(FileBytes(l')).0|
  {
    hide LogEntry.Bytes, DumpSpec, Effect, Dropped, Written, Serve, FileOf;
    SavedEntries(l, rs);
    EveryRunIsReadable(l, rs);
  }

  lemma SavedOrNot(l: Log)
    requires Sound(l)
    ensures AllSaved(l) <==> !Missing(l) && l.base == |l.entries|
  {
    if l.base < |l.entries| {
      assert !l.saved[l.base];
    }
  }

  lemma {:induction false} SavingHistory(l: Log, rs: seq<Request>)
    requires Sound(l) && AllSaved(l) && l.base == |l.entries| && forall i :: 0 <= i < |rs| ==> Sane(rs[i])
    ensures var l' := Serve(l, rs);
      && Sound(l') && Written(l, rs) == |l'.entries| - l'.base && (Dropped(l, rs) <==> Missing(l'))
  {
    hide LogEntry.Bytes, Effect, Missing;
    if rs == [] {
      SavedOrNot(l);
    } else {
      var n := |rs| - 1;
      SavingHistory(l, rs[..n]);
      var before := Serve(l, rs[..n]);
      SavingStep(before, rs[n]);
      EffectKeepsSound(before, rs[n]);
    }
  }

  lemma KeptByStep(l: Log, r: Request, i: nat)
    requires Sound(l) && i < l.base && Sane(r) && !Removes(l, r)
    ensures var l' := Effect(l, r);
      && i < l'.base <= |l'.entries| && i < |l.entries|
      && |l'.saved| == |l'.entries| && l'.entries[i] == l.entries[i] && l'.saved[i] == l.saved[i]
  {
    hide LogEntry.Bytes, AllLoggable, TornFrom;
  }

  /** What was dropped is never made up for: an entry that its handle did not save stays unsaved, whatever
      requests follow, until the file is removed. */
  lemma {:induction false} NeverMadeUp(l: Log, rs: seq<Request>, i: nat)
    requires Sound(l) && i < l.base && forall j :: 0 <= j < |rs| ==> Sane(rs[j])
    requires forall j :: 0 <= j < |rs| ==> !Removes(Serve(l, rs[..j]), rs[j])
    ensures var l' := Serve(l, rs);
      Sound(l') && i < l'.base && l'.entries[i] == l.entries[i] && l'.saved[i] == l.saved[i]
  {
    hide LogEntry.Bytes, AllLoggable, TornFrom, Effect, Removes;
    if rs != [] {
      var n := |rs| - 1;
      forall j | 0 <= j < n
        ensures !Removes(Serve(l, rs[..n][..j]), rs[..n][j])
      {
        assert rs[..n][..j] == rs[..j];
      }
      NeverMadeUp(l, rs[..n], i);
      KeptByStep(Serve(l, rs[..n]), rs[n], i);
      EffectKeepsSound(Serve(l, rs[..n]), rs[n]);
    }
  }

  /** An entry logged, and the file then disabled, enabled again and flushed, or just enabled once more and
      flushed: the entry counts as logged, and is not sure to be on the card. */
  lemma FlushComesTooLate(l: Log, e: Entry)
    requires Sound(l) && l.enabled && l.open && !l.ended && Loggable(e) && e.kind != ENTRY_INVALID
    ensures var log := EntryLog(e, |LogEntry.Bytes(e)|);
      var off := [log, SetState(false, true), SetState(true, true), HardFlush(true)];
      var again := [log, SetState(true, true), HardFlush(true)];
      && !AllSaved(Serve(l, off)) && Serve(l, off).logged == l.logged + 1
      && !AllSaved(Serve(l, again)) && Serve(l, again).logged == l.logged + 1
  {
    hide LogEntry.Bytes;
    var log := EntryLog(e, |LogEntry.Bytes(e)|);
    var l1 := Effect(l, log);
    ServeThree(l, log, SetState(true, true), HardFlush(true));
    var off := [log, SetState(false, true), SetState(true, true), HardFlush(true)];
    ServeThree(l, log, SetState(false, true), SetState(true, true));
    assert off[..3] == [log, SetState(false, true), SetState(true, true)];
    var again, last := Serve(l, [log, SetState(true, true), HardFlush(true)]), Serve(l, off);
    assert !l1.saved[|l.entries|];
    assert !again.saved[|l.entries|] && !last.saved[|l.entries|];
  }

  lemma ServeThree(l: Log, a: Request, b: Request, c: Request)
    requires Sane(a) && Sane(b) && Sane(c)
    ensures Serve(l, [a, b, c]) == Effect(Effect(Effect(l, a), b), c)
  {
    hide Effect;
    assert [a, b, c][..2] == [a, b] && [a, b][..1] == [a] && [a][..0] == [];
    assert Serve(l, [a]) == Effect(l, a) && Serve(l, [a, b]) == Effect(Serve(l, [a]), b);
  }

  lemma CountStep(l: Log, r: Request)
    requires Sound(l) && Sane(r) && l.logged == |l.entries| && (r.RmFile? ==> Removes(l, r))
    ensures Effect(l, r).logged == |Effect(l, r).entries|
  {
    hide LogEntry.Bytes, AllLoggable, TornFrom;
  }

  /** If every removal succeeds, the count of a log that starts with it in step stays the number of entries,
      so it exceeds the entries sure to be on the card exactly when not all of them are. */
  lemma {:induction false} CountInStep(l: Log, rs: seq<Request>)
    requires Sound(l) && l.logged == |l.entries| && forall i :: 0 <= i < |rs| ==> Sane(rs[i])
    requires forall i :: 0 <= i < |rs| && rs[i].RmFile? ==> Removes(Serve(l, rs[..i]), rs[i])
    ensures var l' := Serve(l, rs);
      && Sound(l') && l'.logged == |l'.entries| && (l'.logged > CountSaved(l'.saved) <==> !AllSaved(l'))
  {
    hide LogEntry.Bytes, AllLoggable, TornFrom, Effect, Removes;
    if rs != [] {
      var n := |rs| - 1;
      forall i | 0 <= i < n && rs[..n][i].RmFile?
        ensures Removes(Serve(l, rs[..n][..i]), rs[..n][i])
      {
        assert rs[..n][..i] == rs[..i];
      }
      CountInStep(l, rs[..n]);
      CountStep(Serve(l, rs[..n]), rs[n]);
      EffectKeepsSound(Serve(l, rs[..n]), rs[n]);
    }
    SavedCount(Serve(l, rs).saved);
  }

  function CountSaved(saved: seq<bool>): nat {
    if saved == [] then 0 else CountSaved(saved[..|saved| - 1]) + if saved[|saved| - 1] then 1 else 0
  }

  lemma {:induction false} SavedCount(saved: seq<bool>)
    ensures CountSaved(saved) <= |saved|
    ensures CountSaved(saved) == |saved| <==> forall i :: 0 <= i < |saved| ==> saved[i]
  {
    if saved != [] {
      var n := |saved| - 1;
      SavedCount(saved[..n]);
      assert saved == saved[..n] + [saved[n]];
    }
  }

  // ------------------------------------------------------------ the thread itself

  class Thread {
    const file: File
    var entriesLogged: U32
    var ended: bool
    const regs: array<U32>      // registers of the message in flight
    const shared: array<U32>    // the thread's own message buffer
    const rxBuffer: array<U32>

    ghost var entries: seq<Entry>
    ghost var torn: Bytes
    ghost var logged: nat
    ghost var saved: seq<bool>
    ghost var base: nat

    ghost function Abs(): Log
      reads this, file, file.fat
    {
      Log(file.enabled, file.ref.Some?, entries, torn, logged, saved, base, |file.Lost()|, ended)
    }

    ghost predicate Valid()
      reads this, file, file.fat
    {
      && file.Valid() && file.isInit
      && regs.Length == 4 && shared.Length == MSG_MAX && rxBuffer.Length == MSG_MAX
      && regs != shared && rxBuffer != regs && rxBuffer != shared
      && AllLoggable(entries)
      && file.fat.contents == FileOf(entries) + torn
      && (!ended ==> torn == [])
      && entriesLogged == logged % 0x1_0000_0000
      && (!ended ==> |file.fat.pieces| == |entries|)
      && Tracks(file.fat.pieces, file.ref, entries, saved, base)
    }

    constructor (file: File, ghost before: seq<Entry>)
      requires file.Valid() && !file.isInit && AllLoggable(before) && file.fat.contents == FileOf(before)
      requires Tracks(file.fat.pieces, None, before, Trues(|before|), |before|) && |file.fat.pieces| == |before|
      requires file.Lost() == {}
      modifies file
      ensures Valid() && this.file == file && fresh(regs) && fresh(shared) && fresh(rxBuffer)
      ensures Abs() == Log(true, false, before, [], 0, Trues(|before|), |before|, 0, false)
    {
      this.file := file;
      entriesLogged, ended := 0, false;
      regs := new U32[4](_ => 0);
      shared := new U32[MSG_MAX](_ => 0);
      rxBuffer := new U32[MSG_MAX](_ => 0);
      entries, torn, logged, saved, base := before, [], 0, Trues(|before|), |before|;
      new;
      assert FileOf(before) + [] == FileOf(before);
      file.Init();
    }

    /** Start-up: open the file, write the begin marker, flush it. A failed check ends the run. */
    method StartUp(openOk: bool, timestamp: U64, wrote: int, flushOk: bool)
      requires Valid() && !ended && file.enabled && file.ref.None? && wrote <= ENTRY_HEADER_SIZE
      modifies this, file, file.fat
      ensures Valid()
      ensures Abs() == if !openOk then old(Abs()).(ended := true)
        else
          var l := Effect(old(Abs()).(open := true), EntryLog(Entry(ENTRY_BEGIN_FLAG, timestamp, []), wrote));
          Effect(l, HardFlush(flushOk))
    {
      hide LogEntry.Bytes, FileOf;
      var err := file.Open(openOk);
      if err != OK {
        ended := true;
      } else {
        WriteEntry(Entry(ENTRY_BEGIN_FLAG, timestamp, []), wrote);
        if !ended {
          OnHardFlush(flushOk);
        }
      }
    }

    /** The hard flush closes and opens the file again; its outcome is not looked at. */
    method OnHardFlush(openOk: bool)
      requires Valid() && !ended
      modifies `saved, `base, file, file.fat
      ensures Valid() && Abs() == Effect(old(Abs()), HardFlush(openOk))
    {
      hide FileOf, File.Lost, Tracks, NotWrittenBy;
      ghost var l, ps, ref := Abs(), file.fat.pieces, file.ref;
      TracksBounds(ps, ref, entries, saved, base);
      if file.ref.Some? {
        saved, base := Closed(l).saved, |entries|;
      }
      var _ := file.Flush(true, openOk);
      TracksReopened(ps, ref, l, file.ref);
    }

    method OnRmFile(rmOk: bool, openOk: bool) returns (r: Err)
      requires Valid() && !ended
      modifies `entriesLogged, `logged, `entries, `saved, `base, file, file.fat
      ensures Valid() && Abs() == Effect(old(Abs()), RmFile(rmOk, openOk))
      ensures r == if file.enabled && !(rmOk && openOk) then ERR_FS else OK
    {
      hide FileOf, File.Lost, LogEntry.Bytes, Effect, Tracks, NotWrittenBy;
      ghost var l, ps, ref := Abs(), file.fat.pieces, file.ref;
      RmEffect(l, rmOk, openOk);
      TracksBounds(ps, ref, entries, saved, base);
      entriesLogged, logged := 0, 0;
      if file.enabled && rmOk {
        NoEntries();
        entries, saved, base := [], [], 0;
      } else if file.ref.Some? {
        saved, base := Closed(l).saved, |entries|;
      }
      r := file.Rm(rmOk, openOk);
      TracksNothing(file.ref);
      TracksReopened(ps, ref, l, file.ref);
    }

    /** A failure to enable disables. */
    method OnSetState(on: bool, openOk: bool)
      requires Valid() && !ended
      modifies `base, file, file.fat
      ensures Valid() && Abs() == Effect(old(Abs()), SetState(on, openOk))
    {
      hide FileOf, File.Lost, File.Own;
      file.OneMoreLost();
      base := |entries|;
      var err := file.SetEnabled(on, openOk);
      if err != OK {
        var _ := file.SetEnabled(false, openOk);
      }
    }

    /** The message loop over any requests: the file ends up as the model says, whatever fails. */
    method Loop(rs: seq<Request>)
      requires Valid() && Sound(Abs()) && forall i :: 0 <= i < |rs| ==> Sane(rs[i])
      modifies this, file, file.fat, regs, shared, rxBuffer
      ensures Valid() && Abs() == Serve(old(Abs()), rs) && Sound(Abs())
      ensures file.fat.contents == FileBytes(Abs())
      ensures |file.Lost()| == old(|file.Lost()|) + CountReenables(old(Abs()), rs)
    {
      hide LogEntry.Bytes, FileOf, Effect, Sound, Tracks;
      for i := 0 to |rs|
        invariant Valid() && Sound(Abs()) && Abs() == Serve(old(Abs()), rs[..i])
      {
        ghost var l := Abs();
        assert rs[..i + 1][..i] == rs[..i];
        EffectKeepsSound(l, rs[i]);
        if ended {
          EndedStays(l, rs[i]);
        } else {
          match rs[i]
          case EntryLog(e, wrote) => OnEntryLog(e, wrote);
          case RmFile(rmOk, openOk) => var _ := OnRmFile(rmOk, openOk);
          case SetState(on, openOk) => OnSetState(on, openOk);
          case HardFlush(openOk) => OnHardFlush(openOk);
          case _ => QueryChangesNothing(l, rs[i]);
        }
      }
      assert rs[..|rs|] == rs;
      HandlesLost(old(Abs()), rs);
    }

    /** write_mmc_entry and the count, for an entry whose bytes are at hand. */
    method WriteBytes(bytes: Bytes, ghost e: Entry, wrote: int)
      requires Valid() && !ended && Loggable(e) && e.kind != ENTRY_INVALID
      requires bytes == LogEntry.Bytes(e) && wrote <= |bytes|
      modifies this, file.fat
      ensures Valid() && Abs() == Effect(old(Abs()), EntryLog(e, wrote))
    {
      hide LogEntry.Bytes, FileOf, File.Lost, Tracks;
      FileSnoc(entries, e);
      TracksMore(file.fat.pieces, file.ref, Abs(), e);
      var err := file.Write(bytes, wrote);
      if err != OK {
        ended := true;
        torn := if file.InitCheck(true) == OK && file.enabled && wrote >= 0 then bytes[..wrote] else [];
        assert FileOf(entries) + [] + torn == FileOf(entries) + torn;
      } else if file.enabled {
        assert bytes[..|bytes|] == bytes;
        assert FileOf(entries) + [] + bytes == FileOf(entries + [e]) + [];
        CountWraps(logged);
        entriesLogged := (entriesLogged + 1) % 0x1_0000_0000;
        entries, saved, logged := entries + [e], saved + [false], logged + 1;
      } else {
        assert FileOf(entries) + [] + [] == FileOf(entries) + [];
      }
    }

    method WriteEntry(e: Entry, wrote: int)
      requires Valid() && !ended && Loggable(e) && e.kind != ENTRY_INVALID && wrote <= |LogEntry.Bytes(e)|
      modifies this, file.fat
      ensures Valid() && Abs() == Effect(old(Abs()), EntryLog(e, wrote))
    {
      WriteBytes(LogEntry.Bytes(e), e, wrote);
    }

    /** An entry, from the sender's packing to the file. */
    method OnEntryLog(e: Entry, wrote: int)
      requires Valid() && !ended && Sane(EntryLog(e, wrote))
      modifies this, file.fat, regs, shared, rxBuffer
      ensures Valid() && Abs() == Effect(old(Abs()), EntryLog(e, wrote))
    {
      hide LogEntry.Bytes, FileOf, EntryWord, MailProtocol.Good, MailProtocol.Written;
      var words := PackEntry(e.kind, e.timestamp, e.data, regs, shared);
      if words.None? {
        ended := true;
        return;
      }
      MrRecv(regs, shared, words.value, rxBuffer);
      ghost var buffer := rxBuffer[..];
      forall j | 0 <= j < MailProtocol.Words(e)
        ensures MailProtocol.Good(e, j, buffer[j])
      {
        MailProtocol.GoodItself(e, j);
      }
      MailProtocol.GoodIffWritten(e, buffer);
      MailProtocol.SizeWord(e);
      KindWord(e);
      if rxBuffer[0] % 0x1_0000 == ENTRY_INVALID {
        ended := true;
        return;
      }
      // the receiver's own size check never fails, since the sender's is stricter
      assert rxBuffer[0] / 0x1_0000 <= ENTRY_DATA_SIZE_MAX;
      WriteBytes(MailProtocol.Written(rxBuffer[..]), e, wrote);
    }
  }

  function Trues(n: nat): seq<bool> {
    seq(n, _ => true)
  }

  /** The pieces of the file are the entries: their sizes, which of them are on the card, and which were
      written through the handle now open. */
  ghost predicate Tracks(ps: seq<Piece>, ref: Option<nat>, es: seq<Entry>, saved: seq<bool>, base: nat)
    requires AllLoggable(es)
  {
    && |es| == |saved| && |es| <= |ps| && base <= |es|
    && (forall k :: 0 <= k < |es| ==> ps[k].size == |LogEntry.Bytes(es[k])| && ps[k].onCard == saved[k])
    && (ref.Some? ==> forall k :: 0 <= k < |es| ==> (ps[k].writer == ref.value <==> k >= base))
    && (ref.None? ==> base == |es|)
  }

  lemma TracksBounds(ps: seq<Piece>, ref: Option<nat>, es: seq<Entry>, saved: seq<bool>, base: nat)
    requires AllLoggable(es) && Tracks(ps, ref, es, saved, base)
    ensures |saved| == |es| && (ref.None? ==> base == |es|)
  {
  }

  /** One more piece: a whole entry written through the open handle, or anything at the end of a run. */
  lemma TracksMore(ps: seq<Piece>, ref: Option<nat>, l: Log, e: Entry)
    requires AllLoggable(l.entries) && Loggable(e) && Tracks(ps, ref, l.entries, l.saved, l.base)
    ensures forall p :: Tracks(ps + [p], ref, l.entries, l.saved, l.base)
    ensures ref.Some? && |ps| == |l.entries| ==>
      Tracks(ps + [Piece(|LogEntry.Bytes(e)|, ref.value, false)], ref, l.entries + [e], l.saved + [false], l.base)
    ensures ps + [] == ps
  {
    hide LogEntry.Bytes;
  }

  lemma TracksNothing(ref: Option<nat>)
    ensures Tracks([], ref, [], [], 0)
  {
  }

  /** The file is closed while enabled, if it was open, and then opened again or not. */
  lemma TracksReopened(ps: seq<Piece>, ref: Option<nat>, l: Log, ref': Option<nat>)
    requires AllLoggable(l.entries) && Tracks(ps, ref, l.entries, l.saved, l.base)
    ensures var ps' := if ref.Some? then PassedOn(ps, ref.value) else ps;
      NotWrittenBy(ps', ref') && |ps| == |l.entries| ==>
        Tracks(ps', ref', l.entries, if ref.Some? then Closed(l).saved else l.saved, |l.entries|)
  {
    hide LogEntry.Bytes;
  }

  lemma RmEffect(l: Log, rmOk: bool, openOk: bool)
    requires !l.ended
    ensures Effect(l, RmFile(rmOk, openOk))
         == if !l.enabled then l.(logged := 0)
            else if rmOk then l.(entries := [], saved := [], base := 0, open := openOk, logged := 0)
            else (if l.open then Closed(l) else l).(open := openOk, logged := 0)
  {
  }

  lemma NoEntries()
    ensures AllLoggable([]) && FileOf([]) == []
  {
  }

  lemma EndedStays(l: Log, r: Request)
    requires l.ended && Sane(r)
    ensures Effect(l, r) == l
  {
  }

  lemma QueryChangesNothing(l: Log, r: Request)
    requires r.StatsReq? || r.FileSizeReq? || r.StateReq?
    ensures Effect(l, r) == l
  {
  }

  lemma KindWord(e: Entry)
    requires |e.data| < 0x1_0000
    ensures EntryWord(e, 0) % 0x1_0000 == e.kind
  {
  }

  lemma CountWraps(n: nat)
    ensures (n % 0x1_0000_0000 + 1) % 0x1_0000_0000 == (n + 1) % 0x1_0000_0000
  {
  }
}
