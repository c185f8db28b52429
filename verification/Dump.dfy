/** The offline reader of log files: read_next_entry and the loop around it. */
module Dump {
  import opened Kline
  import opened LogEntry

  /** A log file: the bytes of its entries, one after the other. */
  function FileOf(es: seq<Entry>): Bytes
    requires AllLoggable(es)
  {
    if es == [] then [] else LogEntry.Bytes(es[0]) + FileOf(es[1..])
  }

  lemma {:induction false} FileSnoc(es: seq<Entry>, e: Entry)
    requires AllLoggable(es) && Loggable(e)
    ensures AllLoggable(es + [e])
    ensures FileOf(es + [e]) == FileOf(es) + LogEntry.Bytes(e)
  {
    hide LogEntry.Bytes;
    if es == [] {
      assert es + [e] == [e];
      assert [e][1..] == [];
    } else {
      FileSnoc(es[1..], e);
      assert (es + [e])[1..] == es[1..] + [e];
      assert FileOf(es + [e]) == LogEntry.Bytes(es[0]) + (FileOf(es[1..]) + LogEntry.Bytes(e));
    }
  }

  /** Outcome of reading one entry. `Overrun`: what the file holds of it does not fit the buffer. */
  datatype Read = EndOfFile | Got(entry: Entry) | AssertFailed | Overrun

  const ENTRY_BUFFER_SIZE: nat := 960

  function KindOf(s: Bytes): U16
    requires |s| >= 2
  {
    LEInvertsFromLE(s[..2]);
    Widths();
    FromLE(s[..2])
  }

  function SizeOf(s: Bytes): U16
    requires |s| >= 4
  {
    LEInvertsFromLE(s[2..4]);
    Widths();
    FromLE(s[2..4])
  }

  function TimeOf(s: Bytes): U64
    requires |s| >= 12
  {
    LEInvertsFromLE(s[4..12]);
    Widths();
    FromLE(s[4..12])
  }

  /** What reading one entry from the rest `s` of a file gives, and how many bytes it takes. Fewer than
      twelve bytes are silently dropped; a short payload fails an assertion. */
  function ReadSpec(s: Bytes): (Read, nat) {
    if |s| < ENTRY_HEADER_SIZE then (EndOfFile, |s|)
    else
      var n := ENTRY_HEADER_SIZE + SizeOf(s);
      if (if |s| < n then |s| else n) > ENTRY_BUFFER_SIZE then (Overrun, ENTRY_HEADER_SIZE)
      else if |s| < n then (AssertFailed, |s|)
      else (Got(Entry(KindOf(s), TimeOf(s), s[ENTRY_HEADER_SIZE..n])), n)
  }

  /** How a dump ends: at the end of the file, in a failed assertion, or past the end of the buffer. */
  datatype End = Clean | Failed | Overran

  /** The whole dump: the entries printed and how it ends. */
  function DumpSpec(s: Bytes): (seq<Entry>, End)
    decreases |s|
  {
    var (r, n) := ReadSpec(s);
    match r
    case EndOfFile => ([], Clean)
    case Got(e) =>
      var (es, end) := DumpSpec(s[n..]);
      ([e] + es, end)
    case AssertFailed => ([], Failed)
    case Overrun => ([], Overran)
  }

  /** Reading an entry back gives the entry, with its type, its 64-bit timestamp and its data. */
  lemma ReadInverts(e: Entry, t: Bytes)
    requires Loggable(e)
    ensures ReadSpec(LogEntry.Bytes(e) + t) == (Got(e), |LogEntry.Bytes(e)|)
  {
    hide LE, FromLE, Pow256;
    var s := LogEntry.Bytes(e) + t;
    Widths();
    FromLEInvertsLE(e.kind, 2);
    FromLEInvertsLE(|e.data|, 2);
    FromLEInvertsLE(e.timestamp, 8);
    assert s[..2] == LE(e.kind, 2);
    assert s[2..4] == LE(|e.data|, 2);
    assert s[4..12] == LE(e.timestamp, 8);
    assert s[12..12 + |e.data|] == e.data;
  }

  /** The dump of a log gives back exactly its entries, in order, then whatever follows them. */
  lemma {:induction false} DumpInverts(es: seq<Entry>, t: Bytes)
    requires AllLoggable(es)
    ensures DumpSpec(FileOf(es) + t) == (es + DumpSpec(t).0, DumpSpec(t).1)
  {
    hide LogEntry.Bytes, ReadSpec;
    if es == [] {
      assert FileOf(es) + t == t;
      assert es + DumpSpec(t).0 == DumpSpec(t).0;
    } else {
      var b, u := LogEntry.Bytes(es[0]), FileOf(es[1..]) + t;
      assert FileOf(es) + t == b + u;
      ReadInverts(es[0], u);
      assert (b + u)[|b|..] == u;
      DumpInverts(es[1..], t);
      assert [es[0]] + (es[1..] + DumpSpec(t).0) == es + DumpSpec(t).0;
    }
  }

  /** A log that ends in part of an entry still gives all entries before it; it ends cleanly if the
      header of the torn entry is itself incomplete, and in a failed assertion otherwise. */
  lemma TornTail(es: seq<Entry>, e: Entry, n: nat)
    requires AllLoggable(es) && Loggable(e) && n < |LogEntry.Bytes(e)|
    ensures DumpSpec(FileOf(es) + LogEntry.Bytes(e)[..n]) == (es, if n < ENTRY_HEADER_SIZE then Clean else Failed)
  {
    var t := LogEntry.Bytes(e)[..n];
    DumpInverts(es, t);
    if n >= ENTRY_HEADER_SIZE {
      Widths();
      FromLEInvertsLE(|e.data|, 2);
      assert t[2..4] == LE(|e.data|, 2);
    }
    assert es + [] == es;
  }

  /** The reader's buffer is overrun if and only if the header names, and the file has, more than 960 bytes
      of entry; a log of this system has no such entry. */
  lemma OverrunIff(s: Bytes)
    ensures ReadSpec(s).0 == Overrun <==>
      |s| > 960 && 12 + s[2] as int + 0x100 * s[3] as int > 960
  {
    if |s| >= 12 {
      assert s[2..4] == [s[2], s[3]] && [s[2], s[3]][1..] == [s[3]] && [s[3]][1..] == [];
      assert FromLE([s[3]]) == s[3] && FromLE([s[2], s[3]]) == s[2] + 0x100 * FromLE([s[3]]);
    }
  }

  // ------------------------------------------------------------ the reader itself

  /** A file being read; the end-of-file mark is set when a read comes up short. */
  class Input {
    const contents: Bytes
    var pos: nat
    var eof: bool

    ghost predicate Valid()
      reads this
    {
      pos <= |contents|
    }

    ghost function Left(): Bytes
      requires Valid()
      reads this
    {
      contents[pos..]
    }

    constructor (contents: Bytes)
      ensures Valid() && this.contents == contents && pos == 0 && !eof
    {
      this.contents, pos, eof := contents, 0, false;
    }

    /** fread of `n` bytes to `dst[at..]`. */
    method Read(dst: array<Byte>, at: nat, n: nat) returns (got: nat)
      requires Valid() && at + (if n < |Left()| then n else |Left()|) <= dst.Length
      modifies this, dst
      ensures Valid() && got == (if n < |old(Left())| then n else |old(Left())|)
      ensures Left() == old(Left())[got..] && eof == (old(eof) || got < n)
      ensures dst[..at] == old(dst[..at]) && dst[at..at + got] == old(Left())[..got]
    {
      var avail := |contents| - pos;
      got := if n < avail then n else avail;
      for i := 0 to got
        invariant pos == old(pos) && eof == old(eof) && dst[..at] == old(dst[..at])
        invariant dst[at..at + i] == contents[pos..pos + i]
      {
        dst[at + i] := contents[pos + i];
        assert dst[at..at + i + 1] == dst[at..at + i] + [contents[pos + i]];
        assert contents[pos..pos + i + 1] == contents[pos..pos + i] + [contents[pos + i]];
      }
      ghost var left := Left();
      assert contents[pos..pos + got] == left[..got] && contents[pos + got..] == left[got..];
      pos := pos + got;
      eof := eof || got < n;
    }
  }

  /** read_next_entry, into the shared entry buffer. */
  method ReadNextEntry(file: Input, buffer: array<Byte>) returns (r: Read)
    requires file.Valid() && !file.eof && buffer.Length == ENTRY_BUFFER_SIZE
    modifies file, buffer
    ensures file.Valid()
    ensures (r, |old(file.Left())| - |file.Left()|) == ReadSpec(old(file.Left()))
    ensures r.Got? ==> !file.eof && file.Left() == old(file.Left())[ReadSpec(old(file.Left())).1..]
  {
    hide FromLE, Pow256;
    ghost var s := file.Left();
    var headerRead := file.Read(buffer, 0, ENTRY_HEADER_SIZE);
    if file.eof {
      return EndOfFile;
    }
    assert buffer[0..12] == buffer[..12] == s[..12];
    assert s[..12][..2] == s[..2] && s[..12][2..4] == s[2..4] && s[..12][4..12] == s[4..12];
    var kind, size, time := KindOf(buffer[..12]), SizeOf(buffer[..12]), TimeOf(buffer[..12]);
    if size == 0 {
      assert s[12..12] == [];
      return Got(Entry(kind, time, []));
    }
    var avail := |file.contents| - file.pos;
    if ENTRY_HEADER_SIZE + (if size < avail then size else avail) > ENTRY_BUFFER_SIZE {
      return Overrun;
    }
    var dataRead := file.Read(buffer, ENTRY_HEADER_SIZE, size);
    if dataRead != size {
      return AssertFailed;
    }
    assert buffer[12..12 + size] == s[12..][..size] == s[12..12 + size];
    r := Got(Entry(kind, time, buffer[12..12 + size]));
  }

  /** The loop of main: entries are read and printed until the end or a failed assertion. */
  method DumpFile(contents: Bytes) returns (printed: seq<Entry>, end: End)
    ensures (printed, end) == DumpSpec(contents)
  {
    hide ReadSpec, DumpSpec;
    var file := new Input(contents);
    var buffer := new Byte[ENTRY_BUFFER_SIZE](_ => 0);
    printed, end := [], Clean;
    var exit := false;
    assert contents[0..] == contents && [] + DumpSpec(contents).0 == DumpSpec(contents).0;
    while !exit
      invariant file.Valid() && fresh(file) && fresh(buffer) && file.contents == contents
      invariant !exit ==> !file.eof
      invariant !exit ==> DumpSpec(contents) == (printed + DumpSpec(file.Left()).0, DumpSpec(file.Left()).1)
      invariant exit ==> DumpSpec(contents) == (printed, end)
      decreases !exit, |contents| - file.pos
    {
      ghost var left := file.Left();
      DumpStep(left);
      var r := ReadNextEntry(file, buffer);
      match r
      case Got(e) =>
        assert printed + ([e] + DumpSpec(file.Left()).0) == (printed + [e]) + DumpSpec(file.Left()).0;
        printed := printed + [e];
      case EndOfFile =>
        assert printed + [] == printed;
        end, exit := Clean, true;
      case AssertFailed =>
        assert printed + [] == printed;
        end, exit := Failed, true;
      case Overrun =>
        assert printed + [] == printed;
        end, exit := Overran, true;
    }
  }

  lemma DumpStep(s: Bytes)
    ensures ReadSpec(s).0.Got? ==> 0 < ReadSpec(s).1 <= |s|
    ensures DumpSpec(s) == match ReadSpec(s).0
      case EndOfFile => ([], Clean)
      case Got(e) => ([e] + DumpSpec(s[ReadSpec(s).1..]).0, DumpSpec(s[ReadSpec(s).1..]).1)
      case AssertFailed => ([], Failed)
      case Overrun => ([], Overran)
  {
  }
}
