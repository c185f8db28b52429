/** One sender of entries with payload, any number of senders of entries without, and the log thread,
    interleaved word by word. The send is a rendezvous: it completes when the receiver takes it. */
module MailProtocol {
  import opened Kline
  import opened LogEntry
  import opened Mailbox

  /** What the receiver is doing: waiting, or copying word `at` of a message that carries `entry`.
      `own` says that the message is the payload sender's. */
  datatype Receiver = Idle | Copying(entry: Entry, own: bool, regs: seq<U32>, at: nat)

  /** `todo[0]` is the entry being packed, `at` the number of its words already packed. */
  datatype Mail = Mail(todo: seq<Entry>, at: nat, regs: seq<U32>, shared: seq<U32>,
                       rx: Receiver, buffer: seq<U32>, sent: seq<Entry>, got: seq<Bytes>)

  datatype Step = Pack | Deliver | DeliverEmpty(kind: U16, timestamp: U64, junk: U32) | Copy | Finish

  function Words(e: Entry): nat {
    WordCount(|e.data|)
  }

  predicate Shaped(m: Mail) {
    && AllLoggable(m.todo) && |m.regs| == 4 && |m.shared| == MSG_MAX && |m.buffer| == MSG_MAX
    && (m.rx.Copying? ==> Loggable(m.rx.entry) && |m.rx.regs| == 4 && (!m.rx.own ==> m.rx.entry.data == []))
  }

  /** With the hand-off the sender does not touch the next entry while its last one is being copied. */
  predicate Enabled(m: Mail, s: Step, handOff: bool) {
    match s
    case Pack => m.todo != [] && m.at < Words(m.todo[0]) && !(handOff && m.rx.Copying? && m.rx.own)
    case Deliver => m.todo != [] && m.at == Words(m.todo[0]) && m.rx.Idle?
    case DeliverEmpty(_, _, _) => m.rx.Idle?
    case Copy => m.rx.Copying? && m.rx.at < Words(m.rx.entry)
    case Finish => m.rx.Copying? && m.rx.at == Words(m.rx.entry)
  }

  /** The entry's bytes as write_mmc_entry takes them from the receiver's buffer. */
  function Written(buffer: seq<U32>): Bytes
    requires |buffer| == MSG_MAX
  {
    var image := Image(buffer);
    var n := ENTRY_HEADER_SIZE + buffer[0] / 0x1_0000;
    if n <= |image| then image[..n] else image
  }

  function Apply(m: Mail, s: Step, handOff: bool): Mail
    requires Shaped(m) && Enabled(m, s, handOff)
  {
    match s
    case Pack =>
      var w := EntryWord(m.todo[0], m.at);
      if m.at <= 3 then m.(regs := m.regs[m.at := w], at := m.at + 1)
      else m.(shared := m.shared[m.at := w], at := m.at + 1)
    case Deliver =>
      m.(todo := m.todo[1..], at := 0, rx := Copying(m.todo[0], true, m.regs, 0), sent := m.sent + [m.todo[0]])
    case DeliverEmpty(kind, timestamp, junk) =>
      var e := Entry(kind, timestamp, []);
      m.(rx := Copying(e, false, [EntryWord(e, 0), EntryWord(e, 1), EntryWord(e, 2), junk], 0), sent := m.sent + [e])
    case Copy =>
      var i := m.rx.at;
      m.(buffer := m.buffer[i := if i <= 3 then m.rx.regs[i] else m.shared[i]], rx := m.rx.(at := i + 1))
    case Finish =>
      m.(rx := Idle, got := m.got + [Written(m.buffer)])
  }

  predicate Start(m: Mail) {
    Shaped(m) && m.at == 0 && m.rx.Idle? && m.sent == [] && m.got == []
  }

  /** Everything received so far is what was sent, byte for byte and in order. */
  predicate Exact(m: Mail) {
    && |m.got| <= |m.sent|
    && forall i :: 0 <= i < |m.got| ==> |m.sent[i].data| < 0x1_0000 && m.got[i] == LogEntry.Bytes(m.sent[i])
  }

  // ------------------------------------------------------------ which words may stand in for an entry's own

  /** Word `w` serves as word `j` of the entry: it agrees on every byte that will be written. */
  predicate Good(e: Entry, j: nat, w: U32)
    requires |e.data| < 0x1_0000
  {
    forall b :: 0 <= b < 4 && 4 * j + b < ENTRY_HEADER_SIZE + |e.data| ==> LE(w, 4)[b] == LE(EntryWord(e, j), 4)[b]
  }

  /** Overwriting the shared words of `e` by those of the next entry does no harm. */
  predicate Agree(e: Entry, next: Entry)
    requires Loggable(e) && Loggable(next)
  {
    forall j :: 4 <= j < Words(e) && j < Words(next) ==> Good(e, j, EntryWord(next, j))
  }

  lemma {:induction false} ImageAt(ws: seq<U32>, k: nat)
    requires k < 4 * |ws|
    ensures |Image(ws)| == 4 * |ws| && Image(ws)[k] == LE(ws[k / 4], 4)[k % 4]
  {
    var n := |ws| - 1;
    if k < 4 * n {
      ImageAt(ws[..n], k);
    } else if n > 0 {
      ImageAt(ws[..n], 0);
    }
  }

  lemma SizeWord(e: Entry)
    requires |e.data| < 0x1_0000
    ensures EntryWord(e, 0) / 0x1_0000 == |e.data|
  {
  }

  /** Byte `k` of what is written, and of what should be, in terms of words. */
  lemma WrittenAt(e: Entry, buffer: seq<U32>, k: nat)
    requires Loggable(e) && |buffer| == MSG_MAX && buffer[0] == EntryWord(e, 0) && k < ENTRY_HEADER_SIZE + |e.data|
    ensures |Written(buffer)| == |LogEntry.Bytes(e)| == ENTRY_HEADER_SIZE + |e.data|
    ensures Written(buffer)[k] == LE(buffer[k / 4], 4)[k % 4]
    ensures LogEntry.Bytes(e)[k] == LE(EntryWord(e, k / 4), 4)[k % 4]
  {
    hide Image, LE, EntryWord, LogEntry.Bytes;
    SizeWord(e);
    ImageHoldsEntry(e);
    ImageAt(buffer, k);
    ImageAt(EntryWords(e, Words(e)), k);
  }

  /** A buffer yields the entry exactly when all its words are good, given that the size is right. */
  lemma GoodIffWritten(e: Entry, buffer: seq<U32>)
    requires Loggable(e) && |buffer| == MSG_MAX && buffer[0] == EntryWord(e, 0)
    ensures (forall j :: 0 <= j < Words(e) ==> Good(e, j, buffer[j])) <==> Written(buffer) == LogEntry.Bytes(e)
  {
    hide Image, LE, EntryWord, LogEntry.Bytes, Written;
    var n := ENTRY_HEADER_SIZE + |e.data|;
    WrittenAt(e, buffer, 0);
    if forall j :: 0 <= j < Words(e) ==> Good(e, j, buffer[j]) {
      forall k | 0 <= k < n
        ensures Written(buffer)[k] == LogEntry.Bytes(e)[k]
      {
        WrittenAt(e, buffer, k);
        assert Good(e, k / 4, buffer[k / 4]);
      }
    }
    if Written(buffer) == LogEntry.Bytes(e) {
      forall j, b | 0 <= j < Words(e) && 0 <= b < 4 && 4 * j + b < n
        ensures LE(buffer[j], 4)[b] == LE(EntryWord(e, j), 4)[b]
      {
        WrittenAt(e, buffer, 4 * j + b);
      }
    }
  }

  // ------------------------------------------------------------ safety over all interleavings

  predicate Chain(es: seq<Entry>)
    requires AllLoggable(es)
  {
    forall i :: 0 <= i < |es| - 1 ==> Agree(es[i], es[i + 1])
  }

  /** The words of the entry being packed that are already in place. */
  predicate Packed(m: Mail)
    requires Shaped(m)
  {
    m.todo != [] ==>
      && m.at <= Words(m.todo[0])
      && forall j :: 0 <= j < m.at ==> (if j <= 3 then m.regs[j] else m.shared[j]) == EntryWord(m.todo[0], j)
  }

  /** The copy in progress will come out right: words copied and words to come are good. */
  predicate Faithful(m: Mail)
    requires Shaped(m)
  {
    match m.rx
    case Idle => |m.sent| == |m.got|
    case Copying(e, own, regs, at) =>
      && |m.sent| == |m.got| + 1 && m.sent[|m.got|] == e && at <= Words(e)
      && (at > 0 ==> m.buffer[0] == EntryWord(e, 0))
      && (at == 0 ==> regs[0] == EntryWord(e, 0))
      && (forall j :: 0 <= j < at ==> Good(e, j, m.buffer[j]))
      && (forall j :: at <= j < Words(e) ==> Good(e, j, if j <= 3 then regs[j] else m.shared[j]))
  }

  /** No later entry can spoil an earlier one: the sender holds back, or neighbours agree. */
  predicate Unspoilt(m: Mail, handOff: bool)
    requires Shaped(m)
  {
    handOff || (Chain(m.todo) && (m.rx.Copying? && m.rx.own && m.todo != [] ==> Agree(m.rx.entry, m.todo[0])))
  }

  predicate Inv(m: Mail, handOff: bool) {
    Shaped(m) && Packed(m) && Faithful(m) && Exact(m) && Unspoilt(m, handOff)
  }

  lemma PackKeeps(m: Mail, handOff: bool)
    requires Inv(m, handOff) && Enabled(m, Pack, handOff)
    ensures Inv(Apply(m, Pack, handOff), handOff)
  {
    hide Good, EntryWord, LogEntry.Bytes;
  }

  lemma GoodItself(e: Entry, j: nat)
    requires |e.data| < 0x1_0000
    ensures Good(e, j, EntryWord(e, j))
  {
  }

  lemma DeliverKeeps(m: Mail, handOff: bool)
    requires Inv(m, handOff) && Enabled(m, Deliver, handOff)
    ensures Inv(Apply(m, Deliver, handOff), handOff)
  {
    hide Good, EntryWord, LogEntry.Bytes, Agree;
    var e := m.todo[0];
    forall j | 0 <= j < Words(e)
      ensures Good(e, j, if j <= 3 then m.regs[j] else m.shared[j])
    {
      GoodItself(e, j);
    }
    assert !handOff && |m.todo| > 1 ==> Agree(m.todo[0], m.todo[1]);
  }

  lemma DeliverEmptyKeeps(m: Mail, s: Step, handOff: bool)
    requires Inv(m, handOff) && s.DeliverEmpty? && Enabled(m, s, handOff)
    ensures Inv(Apply(m, s, handOff), handOff)
  {
    hide Good, EntryWord, LogEntry.Bytes, Agree;
    var e := Entry(s.kind, s.timestamp, []);
    GoodItself(e, 0);
    GoodItself(e, 1);
    GoodItself(e, 2);
  }

  lemma CopyKeeps(m: Mail, handOff: bool)
    requires Inv(m, handOff) && Enabled(m, Copy, handOff)
    ensures Inv(Apply(m, Copy, handOff), handOff)
  {
    hide Good, EntryWord, LogEntry.Bytes, Agree;
  }

  lemma FinishKeeps(m: Mail, handOff: bool)
    requires Inv(m, handOff) && Enabled(m, Finish, handOff)
    ensures Inv(Apply(m, Finish, handOff), handOff)
  {
    hide Good, EntryWord, LogEntry.Bytes, Agree, Written;
    GoodIffWritten(m.rx.entry, m.buffer);
  }

  lemma StepKeeps(m: Mail, s: Step, handOff: bool)
    requires Inv(m, handOff) && Enabled(m, s, handOff)
    ensures Inv(Apply(m, s, handOff), handOff)
  {
    hide Inv, Apply, Enabled;
    match s
    case Pack => PackKeeps(m, handOff);
    case Deliver => DeliverKeeps(m, handOff);
    case DeliverEmpty(_, _, _) => DeliverEmptyKeeps(m, s, handOff);
    case Copy => CopyKeeps(m, handOff);
    case Finish => FinishKeeps(m, handOff);
  }

  lemma ApplyShaped(m: Mail, s: Step, handOff: bool)
    requires Shaped(m) && Enabled(m, s, handOff)
    ensures Shaped(Apply(m, s, handOff))
  {
    hide EntryWord, Written;
  }

  /** A run is a list of steps, each enabled when it is taken. */
  predicate RunOk(m: Mail, steps: seq<Step>, handOff: bool)
    requires Shaped(m)
    decreases |steps|
  {
    steps == [] ||
    (Enabled(m, steps[0], handOff) &&
     (ApplyShaped(m, steps[0], handOff); RunOk(Apply(m, steps[0], handOff), steps[1..], handOff)))
  }

  function After(m: Mail, steps: seq<Step>, handOff: bool): (m': Mail)
    requires Shaped(m) && RunOk(m, steps, handOff)
    ensures Shaped(m')
    decreases |steps|
  {
    if steps == [] then m
    else
      ApplyShaped(m, steps[0], handOff);
      After(Apply(m, steps[0], handOff), steps[1..], handOff)
  }

  lemma {:induction false} RunKeeps(m: Mail, steps: seq<Step>, handOff: bool)
    requires Inv(m, handOff) && RunOk(m, steps, handOff)
    ensures Inv(After(m, steps, handOff), handOff)
    decreases |steps|
  {
    hide Apply, Enabled, Packed, Faithful, Exact, Unspoilt;
    if steps != [] {
      StepKeeps(m, steps[0], handOff);
      RunKeeps(Apply(m, steps[0], handOff), steps[1..], handOff);
    }
  }

  ghost predicate Safe(m: Mail, handOff: bool)
    requires Shaped(m)
  {
    forall steps :: RunOk(m, steps, handOff) ==> Exact(After(m, steps, handOff))
  }

  /** With the hand-off, every interleaving delivers every entry exactly, whatever the entries and
      however many empty entries come in between. */
  lemma HandOffIsSafe(m: Mail)
    requires Start(m)
    ensures Safe(m, true)
  {
    hide LogEntry.Bytes, Apply, Enabled;
    forall steps | RunOk(m, steps, true)
      ensures Exact(After(m, steps, true))
    {
      RunKeeps(m, steps, true);
    }
  }

  // ------------------------------------------------------------ runs that exist

  lemma {:induction false} RunConcat(m: Mail, a: seq<Step>, b: seq<Step>, h: bool)
    requires Shaped(m) && RunOk(m, a, h) && RunOk(After(m, a, h), b, h)
    ensures RunOk(m, a + b, h) && After(m, a + b, h) == After(After(m, a, h), b, h)
    decreases |a|
  {
    hide Apply, Enabled, Shaped;
    if a == [] {
      assert a + b == b;
    } else {
      assert (a + b)[0] == a[0] && (a + b)[1..] == a[1..] + b;
      ApplyShaped(m, a[0], h);
      RunConcat(Apply(m, a[0], h), a[1..], b, h);
    }
  }

  lemma RunOne(m: Mail, s: Step, h: bool)
    requires Shaped(m) && Enabled(m, s, h)
    ensures RunOk(m, [s], h) && After(m, [s], h) == Apply(m, s, h)
  {
    hide Apply, Enabled, Shaped;
    ApplyShaped(m, s, h);
    var m1 := Apply(m, s, h);
    assert [s][1..] == [];
    assert RunOk(m1, [], h) && After(m1, [], h) == m1;
  }

  /** The sender packs on while nobody else moves. */
  lemma {:induction false} PackTo(m: Mail, n: nat, h: bool) returns (steps: seq<Step>)
    requires Shaped(m) && m.todo != [] && Packed(m) && m.at <= n <= Words(m.todo[0])
    requires !(h && m.rx.Copying? && m.rx.own)
    ensures RunOk(m, steps, h)
    ensures var m' := After(m, steps, h);
      m' == m.(at := n, regs := m'.regs, shared := m'.shared) && Packed(m')
    decreases n - m.at
  {
    hide EntryWord, Written, RunOk, After;
    if m.at == n {
      RunNone(m, h);
      steps := [];
    } else {
      RunOne(m, Pack, h);
      var m1 := Apply(m, Pack, h);
      ApplyShaped(m, Pack, h);
      var rest := PackTo(m1, n, h);
      RunConcat(m, [Pack], rest, h);
      steps := [Pack] + rest;
    }
  }

  lemma RunNone(m: Mail, h: bool)
    requires Shaped(m)
    ensures RunOk(m, [], h) && After(m, [], h) == m
  {
  }

  /** The receiver copies its message to the end while nobody else moves. */
  lemma {:induction false} CopyRest(m: Mail, h: bool) returns (steps: seq<Step>)
    requires Shaped(m) && m.rx.Copying? && m.rx.at <= Words(m.rx.entry)
    ensures RunOk(m, steps, h)
    ensures var m' := After(m, steps, h);
      && m' == m.(rx := m.rx.(at := Words(m.rx.entry)), buffer := m'.buffer)
      && (forall j :: 0 <= j < m.rx.at ==> m'.buffer[j] == m.buffer[j])
      && forall j :: m.rx.at <= j < Words(m.rx.entry) ==> m'.buffer[j] == if j <= 3 then m.rx.regs[j] else m.shared[j]
    decreases Words(m.rx.entry) - m.rx.at
  {
    hide EntryWord, Written, RunOk, After;
    if m.rx.at == Words(m.rx.entry) {
      RunNone(m, h);
      steps := [];
    } else {
      RunOne(m, Copy, h);
      var m1 := Apply(m, Copy, h);
      ApplyShaped(m, Copy, h);
      var rest := CopyRest(m1, h);
      RunConcat(m, [Copy], rest, h);
      steps := [Copy] + rest;
    }
  }

  /** At rest between two entries. */
  predicate Resting(m: Mail) {
    Shaped(m) && m.at == 0 && m.rx.Idle? && |m.got| == |m.sent|
  }

  /** Pack the first entry and hand it over. */
  lemma HandOver(m: Mail, h: bool) returns (steps: seq<Step>)
    requires Resting(m) && m.todo != []
    ensures RunOk(m, steps, h)
    ensures var m' := After(m, steps, h);
      && m'.todo == m.todo[1..] && m'.at == 0 && m'.sent == m.sent + [m.todo[0]] && m'.got == m.got
      && m'.rx.Copying? && m'.rx.entry == m.todo[0] && m'.rx.at == 0 && m'.rx.regs[0] == EntryWord(m.todo[0], 0)
  {
    hide EntryWord, Written, RunOk, After;
    var a := PackTo(m, Words(m.todo[0]), h);
    var m1 := After(m, a, h);
    RunOne(m1, Deliver, h);
    RunConcat(m, a, [Deliver], h);
    steps := a + [Deliver];
  }

  /** Copy to the end and finish. */
  lemma TakeOver(m: Mail, h: bool) returns (steps: seq<Step>, buffer: seq<U32>)
    requires Shaped(m) && m.rx.Copying? && m.rx.at == 0
    ensures RunOk(m, steps, h) && |buffer| == MSG_MAX
    ensures After(m, steps, h) == m.(rx := Idle, buffer := buffer, got := m.got + [Written(buffer)])
    ensures forall j :: 0 <= j < Words(m.rx.entry) ==> buffer[j] == if j <= 3 then m.rx.regs[j] else m.shared[j]
  {
    hide EntryWord, Written, RunOk, After;
    var a := CopyRest(m, h);
    var m1 := After(m, a, h);
    RunOne(m1, Finish, h);
    RunConcat(m, a, [Finish], h);
    steps := a + [Finish];
    buffer := m1.buffer;
  }

  /** The first `k` entries can be handed over one after the other. */
  lemma {:induction false} Serial(m: Mail, k: nat, h: bool) returns (steps: seq<Step>)
    requires Resting(m) && k <= |m.todo|
    ensures RunOk(m, steps, h)
    ensures var m' := After(m, steps, h); Resting(m') && m'.todo == m.todo[k..]
    decreases k
  {
    hide EntryWord, Written, RunOk, After;
    if k == 0 {
      RunNone(m, h);
      steps := [];
    } else {
      var a := HandOver(m, h);
      var m1 := After(m, a, h);
      var b, buffer := TakeOver(m1, h);
      var m2 := After(m1, b, h);
      RunConcat(m, a, b, h);
      var c := Serial(m2, k - 1, h);
      RunConcat(m, a + b, c, h);
      assert m.todo[1..][k - 1..] == m.todo[k..];
      steps := a + b + c;
    }
  }

  /** An empty entry, delivered while nobody else moves. */
  lemma DeliverMark(m: Mail, s: Step, h: bool) returns (steps: seq<Step>)
    requires Resting(m) && s.DeliverEmpty?
    ensures RunOk(m, steps, h)
    ensures var m' := After(m, steps, h);
      Resting(m') && m'.todo == m.todo && m'.sent == m.sent + [Entry(s.kind, s.timestamp, [])]
  {
    hide EntryWord, Written, RunOk, After;
    RunOne(m, s, h);
    var m1 := Apply(m, s, h);
    ApplyShaped(m, s, h);
    var b, buffer := TakeOver(m1, h);
    RunConcat(m, [s], b, h);
    steps := [s] + b;
  }

  function MarkEntries(marks: seq<Step>): seq<Entry>
    requires forall i :: 0 <= i < |marks| ==> marks[i].DeliverEmpty?
  {
    seq(|marks|, i requires 0 <= i < |marks| => Entry(marks[i].kind, marks[i].timestamp, []))
  }

  lemma {:induction false} DeliverMarks(m: Mail, marks: seq<Step>, h: bool) returns (steps: seq<Step>)
    requires Resting(m) && forall i :: 0 <= i < |marks| ==> marks[i].DeliverEmpty?
    ensures RunOk(m, steps, h)
    ensures var m' := After(m, steps, h);
      Resting(m') && m'.todo == m.todo && m'.sent == m.sent + MarkEntries(marks)
    decreases |marks|
  {
    hide EntryWord, Written, RunOk, After, Apply, Enabled, Shaped;
    if marks == [] {
      RunNone(m, h);
      assert m.sent + [] == m.sent;
      steps := [];
    } else {
      var a := DeliverMark(m, marks[0], h);
      var m1 := After(m, a, h);
      var b := DeliverMarks(m1, marks[1..], h);
      RunConcat(m, a, b, h);
      steps := a + b;
      assert MarkEntries(marks) == [Entry(marks[0].kind, marks[0].timestamp, [])] + MarkEntries(marks[1..]);
      var first := [Entry(marks[0].kind, marks[0].timestamp, [])];
      assert m.sent + first + MarkEntries(marks[1..]) == m.sent + (first + MarkEntries(marks[1..]));
    }
  }

  predicate AllMarks(marks: seq<seq<Step>>) {
    forall i, j :: 0 <= i < |marks| && 0 <= j < |marks[i]| ==> marks[i][j].DeliverEmpty?
  }

  /** Entries with the markers `marks[0]` before the first, `marks[1]` before the second, and so on. */
  function Woven(es: seq<Entry>, marks: seq<seq<Step>>): seq<Entry>
    requires |marks| == |es| + 1 && AllMarks(marks)
    decreases |es|
  {
    MarkEntries(marks[0]) + if es == [] then [] else [es[0]] + Woven(es[1..], marks[1..])
  }

  /** The hand-off does not stop anybody: from rest there is a run that delivers every entry, with any empty
      entries in between, with and without the hand-off. */
  lemma {:induction false} AllCanBeDelivered(m: Mail, marks: seq<seq<Step>>, h: bool) returns (steps: seq<Step>)
    requires Resting(m) && |marks| == |m.todo| + 1 && AllMarks(marks)
    ensures RunOk(m, steps, h)
    ensures var m' := After(m, steps, h);
      Resting(m') && m'.todo == [] && m'.sent == m.sent + Woven(m.todo, marks)
    decreases |m.todo|
  {
    hide EntryWord, Written, RunOk, After, Apply, Enabled, Shaped;
    var a := DeliverMarks(m, marks[0], h);
    var m1 := After(m, a, h);
    if m.todo == [] {
      steps := a;
      assert MarkEntries(marks[0]) + [] == MarkEntries(marks[0]);
    } else {
      var b := OneDelivered(m1, h);
      var m2 := After(m1, b, h);
      RunConcat(m, a, b, h);
      var c := AllCanBeDelivered(m2, marks[1..], h);
      RunConcat(m, a + b, c, h);
      steps := a + b + c;
      var ms, rest := MarkEntries(marks[0]), Woven(m.todo[1..], marks[1..]);
      assert m.sent + ms + [m.todo[0]] + rest == m.sent + (ms + ([m.todo[0]] + rest));
    }
  }

  lemma OneDelivered(m: Mail, h: bool) returns (steps: seq<Step>)
    requires Resting(m) && m.todo != []
    ensures RunOk(m, steps, h)
    ensures var m' := After(m, steps, h);
      Resting(m') && m'.todo == m.todo[1..] && m'.sent == m.sent + [m.todo[0]]
  {
    hide EntryWord, Written, RunOk, After;
    var a := HandOver(m, h);
    var m1 := After(m, a, h);
    var b, buffer := TakeOver(m1, h);
    RunConcat(m, a, b, h);
    steps := a + b;
  }

  // ------------------------------------------------------------ without the hand-off

  /** If two neighbours disagree, some interleaving corrupts the first: the sender packs the second
      while the receiver is still copying. */
  lemma RaceCorrupts(m: Mail) returns (steps: seq<Step>)
    requires Resting(m) && |m.todo| >= 2 && !Agree(m.todo[0], m.todo[1])
    ensures RunOk(m, steps, false) && !Exact(After(m, steps, false))
  {
    hide EntryWord, Written, RunOk, After, Good, LogEntry.Bytes;
    var e, next := m.todo[0], m.todo[1];
    var j :| 4 <= j < Words(e) && j < Words(next) && !Good(e, j, EntryWord(next, j));
    var a := HandOver(m, false);
    var m1 := After(m, a, false);
    assert m1.todo[0] == next;
    var b := PackTo(m1, j + 1, false);
    var m2 := After(m1, b, false);
    assert m2.shared[j] == EntryWord(next, j);
    RunConcat(m, a, b, false);
    var c, buffer := TakeOver(m2, false);
    var m3 := After(m2, c, false);
    RunConcat(m, a + b, c, false);
    steps := a + b + c;
    assert buffer[j] == EntryWord(next, j) && buffer[0] == EntryWord(e, 0);
    GoodIffWritten(e, buffer);
    assert m3.sent[|m.got|] == e && m3.got[|m.got|] == Written(buffer);
  }

  /** Without the hand-off, all interleavings are exact if and only if each entry agrees with the next
      on the shared bytes that both of them use. */
  lemma FreeRunningIsSafeIff(m: Mail)
    requires Start(m)
    ensures Safe(m, false) <==> Chain(m.todo)
  {
    hide LogEntry.Bytes, Apply, Enabled, Agree, RunOk, After, EntryWord, Exact;
    if Chain(m.todo) {
      AgreeingIsSafe(m);
    } else {
      var steps := DisagreeingIsUnsafe(m);
      assert RunOk(m, steps, false) && !Exact(After(m, steps, false));
    }
  }

  lemma DisagreeingIsUnsafe(m: Mail) returns (steps: seq<Step>)
    requires Start(m) && !Chain(m.todo)
    ensures RunOk(m, steps, false) && !Exact(After(m, steps, false))
  {
    hide LogEntry.Bytes, Apply, Enabled, Agree, RunOk, After, EntryWord, Exact;
    var i :| 0 <= i < |m.todo| - 1 && !Agree(m.todo[i], m.todo[i + 1]);
    RestingAtStart(m);
    var a := Serial(m, i, false);
    var m1 := After(m, a, false);
    var b := RaceCorrupts(m1);
    RunConcat(m, a, b, false);
    steps := a + b;
  }

  lemma RestingAtStart(m: Mail)
    requires Start(m)
    ensures Resting(m)
  {
  }

  lemma AgreeingIsSafe(m: Mail)
    requires Start(m) && Chain(m.todo)
    ensures Safe(m, false)
  {
    hide LogEntry.Bytes, Apply, Enabled, Agree, EntryWord;
    forall steps | RunOk(m, steps, false)
      ensures Exact(After(m, steps, false))
    {
      RunKeeps(m, steps, false);
    }
  }
}
