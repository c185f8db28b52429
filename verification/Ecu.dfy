/** The simulated ECU (ecu.c): a three-state listener that answers init and table queries. */
module Ecu {
  import opened Kline
  import opened Segmenter
  import opened Parser
  import opened Builder

  /** `Halted`: an assertion failed, or memory outside the transmit buffer would be touched. */
  datatype Mode = Wait4WakeUp | Wait4DiagInit | ActiveListen | Halted

  datatype Tables = Tables(t0: Bytes, t10: Bytes, t20: Bytes, tD1: Bytes)

  predicate FullTables(ts: Tables) {
    |ts.t0| == |ts.t10| == |ts.t20| == |ts.tD1| == TABLE_SIZE_MAX
  }

  function GetTable(ts: Tables, table: Byte): Option<Bytes> {
    if table == TABLE_0 then Some(ts.t0)
    else if table == TABLE_10 then Some(ts.t10)
    else if table == TABLE_20 then Some(ts.t20)
    else if table == TABLE_D1 then Some(ts.tD1)
    else None
  }

  datatype Reply = Silent | Sent(bytes: Bytes) | AssertFailed | OutOfBounds

  const BUFFER_SIZE: nat := 259

  const INIT_REPLY: Bytes := Encode(Message(TYPE_RESPONSE, SUBTYPE_INIT, []))

  /** The part of a table a query names. */
  function Slice(ts: Tables, table: Byte, offset: Byte, count: Byte): Bytes
    requires FullTables(ts) && offset + count <= TABLE_SIZE_MAX
    requires count != 0 ==> GetTable(ts, table).Some?
  {
    if count == 0 then [] else GetTable(ts, table).value[offset..offset + count]
  }

  /** The answer to a table query. The size field has eight bits: from a count of 250 on it wraps, the
      checksum lands inside the header (even on the size field itself), and the size field found in the
      end is the number of bytes sent. */
  function TableReply(ts: Tables, table: Byte, offset: Byte, count: Byte): Reply
    requires FullTables(ts)
  {
    if offset + count > TABLE_SIZE_MAX then AssertFailed
    else if count != 0 && GetTable(ts, table).None? then AssertFailed
    else
      var size: Byte := (HEADERCS_SIZE + 2 + count) % 0x100;
      if size == 0 || count == 0xFF then OutOfBounds
      else
        var h := [TYPE_RESPONSE, size, SUBTYPE_TABLE_SUBGROUP, table, offset] + Slice(ts, table, offset, count);
        Sent(Sealed(h, size))
  }

  lemma ChecksumOfType(h: Bytes)
    requires |h| >= 1 && h[0] == TYPE_RESPONSE
    ensures ChecksumOf(h[..1]) == 0xFE
  {
    assert h[..1] == [TYPE_RESPONSE] && Sum([TYPE_RESPONSE]) == 2;
  }

  /** The bytes sent once the checksum is in place. */
  function Sealed(h: Bytes, size: Byte): Bytes
    requires |h| >= 5 && h[0] == TYPE_RESPONSE && h[1] == size
    requires 1 <= size <= |h| + 1 && (size == 2 ==> |h| >= 254)
  {
    var cs := ChecksumOf(h[..size - 1]);
    if size - 1 == |h| then h + [cs]
    else
      var t := h[size - 1 := cs];
      assert size == 2 ==> cs == 0xFE by { ChecksumOfType(h); }
      t[..t[1]]
  }

  /** Once the size has wrapped, what is sent is a stub of at most four bytes or claims an impossible size. */
  lemma WrappedReply(h: Bytes, size: Byte)
    requires |h| >= 254 && h[0] == TYPE_RESPONSE && h[1] == size && 1 <= size <= 4
    ensures |Sealed(h, size)| == size || (|Sealed(h, size)| >= 2 && BadSize(Sealed(h, size)[1]))
  {
    ChecksumOfType(h);
  }

  /** handle_rx_message on the receive buffer as it stands, stale bytes included. */
  function HandleRx(rx: Bytes, ts: Tables): Reply
    requires |rx| >= 6 && FullTables(ts)
  {
    if rx[0] == TYPE_QUERY && rx[2] == SUBTYPE_INIT then Sent(INIT_REPLY)
    else if rx[0] == TYPE_QUERY && (rx[2] == SUBTYPE_TABLE_SUBGROUP || rx[2] == SUBTYPE_TABLE) then
      if rx[2] != SUBTYPE_TABLE_SUBGROUP then AssertFailed
      else TableReply(ts, rx[3], rx[4], rx[5])
    else Silent
  }

  /** What an accepted frame, found in the buffer, does. */
  function OnFrame(mode: Mode, rx: Bytes, ts: Tables): (Mode, Reply)
    requires |rx| >= 6 && FullTables(ts)
  {
    match mode
    case Wait4WakeUp =>
      if rx[0] == TYPE_WAKE_UP && rx[2] == SUBTYPE_WAKE_UP then (Wait4DiagInit, Silent) else (mode, Silent)
    case Wait4DiagInit =>
      if rx[0] == TYPE_QUERY && rx[2] == SUBTYPE_INIT && rx[3] == INIT_DATA
      then (ActiveListen, HandleRx(rx, ts)) else (mode, Silent)
    case ActiveListen =>
      if rx[0] == TYPE_QUERY then
        var r := HandleRx(rx, ts);
        (if r.AssertFailed? || r.OutOfBounds? then Halted else mode, r)
      else (mode, Silent)
    case Halted => (mode, Silent)
  }

  /** The ECU between bytes: its mode, the unfinished segment, the receive buffer and the tables. */
  datatype State = State(mode: Mode, pending: Bytes, rx: Bytes, tables: Tables)

  predicate WellFormed(e: State) {
    && |e.rx| == BUFFER_SIZE && FullTables(e.tables)
    && |e.pending| <= 250 && !HasSegment(e.pending)
  }

  /** One received byte. */
  function OnByte(e: State, b: Byte): (State, Reply)
    requires WellFormed(e)
  {
    var q := e.pending + [b];
    var rx := e.rx[|e.pending| := b];
    if e.mode == Halted then (e, Silent)
    else if !HasSegment(q) then (e.(pending := q, rx := rx), Silent)
    else if IsFrame(q) then
      var o := OnFrame(e.mode, rx, e.tables);
      (e.(mode := o.0, pending := [], rx := rx), o.1)
    else (e.(pending := [], rx := rx), Silent)
  }

  lemma OnByteWellFormed(e: State, b: Byte)
    requires WellFormed(e)
    ensures WellFormed(OnByte(e, b).0)
  {
    hide OnFrame, IsFrame, Sum;
    Grow(e.pending, b);
  }

  /** A stream of bytes and all that is answered to it. */
  function Feed(e: State, s: Bytes): (State, seq<Reply>)
    requires WellFormed(e)
    decreases |s|
  {
    if s == [] then (e, [])
    else
      OnByteWellFormed(e, s[0]);
      var (e1, r) := OnByte(e, s[0]);
      var (e2, rs) := Feed(e1, s[1..]);
      (e2, (if r.Silent? then [] else [r]) + rs)
  }

  lemma {:induction false} FeedAppend(e: State, s: Bytes, t: Bytes)
    requires WellFormed(e)
    ensures WellFormed(Feed(e, s).0)
    ensures Feed(e, s + t).0 == Feed(Feed(e, s).0, t).0
    ensures Feed(e, s + t).1 == Feed(e, s).1 + Feed(Feed(e, s).0, t).1
    decreases |s|
  {
    if s == [] {
      assert s + t == t;
    } else {
      OnByteWellFormed(e, s[0]);
      assert (s + t)[0] == s[0] && (s + t)[1..] == s[1..] + t;
      FeedAppend(OnByte(e, s[0]).0, s[1..], t);
    }
  }

  /** Part of a frame, received at a boundary, is only stored. */
  lemma {:induction false} FeedPrefix(e: State, f: Bytes, k: nat)
    requires WellFormed(e) && e.pending == [] && e.mode != Halted && IsFrame(f) && k < |f|
    ensures var (e1, rs) := Feed(e, f[..k]);
      rs == [] && e1 == e.(pending := f[..k], rx := f[..k] + e.rx[k..])
  {
    if k == 0 {
      assert f[..0] + e.rx[0..] == e.rx;
    } else {
      FeedPrefix(e, f, k - 1);
      assert f[..k] == f[..k - 1] + [f[k - 1]];
      FeedAppend(e, f[..k - 1], [f[k - 1]]);
      var e1 := Feed(e, f[..k - 1]).0;
      assert (f[..k - 1] + e.rx[k - 1..])[k - 1 := f[k - 1]] == f[..k] + e.rx[k..];
      FeedOne(e1, f[k - 1]);
    }
  }

  lemma FeedOne(e: State, b: Byte)
    requires WellFormed(e)
    ensures Feed(e, [b]).0 == OnByte(e, b).0
    ensures Feed(e, [b]).1 == if OnByte(e, b).1.Silent? then [] else [OnByte(e, b).1]
  {
    OnByteWellFormed(e, b);
    var e1 := OnByte(e, b).0;
    assert [b][1..] == [];
    assert Feed(e1, []) == (e1, []);
  }

  /** A whole frame, received at a boundary, is acted on once, on the frame itself. */
  lemma FeedFrame(e: State, f: Bytes)
    requires WellFormed(e) && e.pending == [] && e.mode != Halted && IsFrame(f)
    ensures var rx := f + e.rx[|f|..];
      var (mode, r) := OnFrame(e.mode, rx, e.tables);
      && Feed(e, f).0 == e.(mode := mode, pending := [], rx := rx)
      && Feed(e, f).1 == if r.Silent? then [] else [r]
  {
    hide Feed, Sum, OnFrame;
    var k := |f| - 1;
    FeedPrefix(e, f, k);
    assert f == f[..k] + [f[k]];
    FeedAppend(e, f[..k], [f[k]]);
    var e1 := Feed(e, f[..k]).0;
    FeedOne(e1, f[k]);
    assert (f[..k] + e.rx[k..])[k := f[k]] == f + e.rx[|f|..];
  }

  /** What an answer must be to serve a query. */
  ghost predicate Serves(r: Reply, ts: Tables, table: Byte, offset: Byte, count: Byte)
    requires FullTables(ts) && offset + count <= TABLE_SIZE_MAX
    requires count != 0 ==> GetTable(ts, table).Some?
  {
    && r.Sent? && IsFrame(r.bytes)
    && Decode(r.bytes)
       == Message(TYPE_RESPONSE, SUBTYPE_TABLE_SUBGROUP, [table, offset] + Slice(ts, table, offset, count))
  }

  lemma ShortReply(ts: Tables, table: Byte, offset: Byte, count: Byte)
    requires FullTables(ts) && offset + count <= TABLE_SIZE_MAX && count <= 249
    requires count != 0 ==> GetTable(ts, table).Some?
    ensures var m := Message(TYPE_RESPONSE, SUBTYPE_TABLE_SUBGROUP, [table, offset] + Slice(ts, table, offset, count));
      TableReply(ts, table, offset, count) == Sent(Encode(m))
  {
    hide Sum;
    var s := Slice(ts, table, offset, count);
    var size := HEADERCS_SIZE + 2 + count;
    var h := [TYPE_RESPONSE, size, SUBTYPE_TABLE_SUBGROUP, table, offset] + s;
    assert h[..size - 1] == h;
    assert h == [TYPE_RESPONSE, |[table, offset] + s| + HEADERCS_SIZE, SUBTYPE_TABLE_SUBGROUP] + ([table, offset] + s);
  }

  /** A query within a known table is answered by a frame that the tester accepts and that carries the
      same table, offset and exact slice if and only if it asks for at most 245 bytes. */
  lemma QueryServed(ts: Tables, table: Byte, offset: Byte, count: Byte)
    requires FullTables(ts) && offset + count <= TABLE_SIZE_MAX
    requires count != 0 ==> GetTable(ts, table).Some?
    ensures Serves(TableReply(ts, table, offset, count), ts, table, offset, count) <==> count <= 245
  {
    if count <= 249 {
      hide TableReply, Encode, IsFrame;
      var m := Message(TYPE_RESPONSE, SUBTYPE_TABLE_SUBGROUP, [table, offset] + Slice(ts, table, offset, count));
      ShortReply(ts, table, offset, count);
      EncodeIsFrame(m);
    } else {
      hide Sealed, Sum;
      var r := TableReply(ts, table, offset, count);
      var size := count - 250;
      if r.Sent? {
        var head := [TYPE_RESPONSE, size, SUBTYPE_TABLE_SUBGROUP, table, offset];
        WrappedReply(head + Slice(ts, table, offset, count), size);
      }
      assert r.Sent? && IsFrame(r.bytes) ==> |Decode(r.bytes).payload| == 0;
      assert |[table, offset] + Slice(ts, table, offset, count)| == 2 + count;
    }
  }

  /** The size wraps to that of a frame without payload, which the tester accepts as an answer. */
  lemma EmptyAnswerAccepted(ts: Tables, table: Byte)
    requires FullTables(ts) && GetTable(ts, table).Some?
    ensures TableReply(ts, table, 0, 254) == Sent(Encode(Message(TYPE_RESPONSE, SUBTYPE_TABLE_SUBGROUP, [])))
    ensures IsFrame(Encode(Message(TYPE_RESPONSE, SUBTYPE_TABLE_SUBGROUP, [])))
  {
    var h := [TYPE_RESPONSE, 4, SUBTYPE_TABLE_SUBGROUP, table, 0] + Slice(ts, table, 0, 254);
    assert h[..3] == [TYPE_RESPONSE, 4, SUBTYPE_TABLE_SUBGROUP] + [];
    assert Sealed(h, 4) == h[..3] + [ChecksumOf(h[..3])];
    EncodeIsFrame(Message(TYPE_RESPONSE, SUBTYPE_TABLE_SUBGROUP, []));
  }

  /** The ECU as the program holds it, updated in place. */
  class Device {
    var mode: Mode
    const parser: HobdParser
    const table0: array<Byte>
    const table10: array<Byte>
    const table20: array<Byte>
    const tableD1: array<Byte>
    const txBuffer: array<Byte>

    ghost predicate Valid()
      reads this, parser, parser.rxBuffer, txBuffer
    {
      && parser.Valid() && parser.rxBuffer.Length == BUFFER_SIZE
      && txBuffer.Length == BUFFER_SIZE && txBuffer != parser.rxBuffer
      && table0.Length == table10.Length == table20.Length == tableD1.Length == TABLE_SIZE_MAX
      && {table0, table10, table20, tableD1} !! {txBuffer, parser.rxBuffer}
    }

    ghost function TablesOf(): Tables
      reads this, table0, table10, table20, tableD1
    {
      Tables(table0[..], table10[..], table20[..], tableD1[..])
    }

    ghost function Abs(): State
      reads this, parser, parser.rxBuffer, table0, table10, table20, tableD1
    {
      State(mode, Rest(parser.seen), parser.rxBuffer[..], TablesOf())
    }

    /** ecu_new: tables 10 and D1 hold known patterns. */
    constructor ()
      ensures Valid() && mode == Wait4WakeUp && parser.seen == []
      ensures TablesOf().t0 == TablesOf().t20 == seq(TABLE_SIZE_MAX, _ => 0)
      ensures TablesOf().t10 == seq(TABLE_SIZE_MAX, _ => 0xAA) && TablesOf().tD1 == seq(TABLE_SIZE_MAX, _ => 0xBB)
    {
      mode := Wait4WakeUp;
      var rx := new Byte[BUFFER_SIZE](_ => 0);
      parser := new HobdParser(rx, BUFFER_SIZE);
      txBuffer := new Byte[BUFFER_SIZE](_ => 0);
      table0 := new Byte[TABLE_SIZE_MAX](_ => 0);
      table10 := new Byte[TABLE_SIZE_MAX](_ => 0xAA);
      table20 := new Byte[TABLE_SIZE_MAX](_ => 0);
      tableD1 := new Byte[TABLE_SIZE_MAX](_ => 0xBB);
    }

    method FindTable(table: Byte) returns (src: array?<Byte>)
      requires Valid()
      ensures src == null <==> GetTable(TablesOf(), table).None?
      ensures src != null ==> src in {table0, table10, table20, tableD1} && GetTable(TablesOf(), table) == Some(src[..])
    {
      if table == TABLE_0 {
        src := table0;
      } else if table == TABLE_10 {
        src := table10;
      } else if table == TABLE_20 {
        src := table20;
      } else if table == TABLE_D1 {
        src := tableD1;
      } else {
        src := null;
      }
    }
  
    /** The header and the first two payload bytes; the size field wraps at 256. */
    method FillHeader(table: Byte, offset: Byte, count: Byte)
      requires txBuffer.Length == BUFFER_SIZE
      modifies txBuffer
      ensures txBuffer[..5] == [TYPE_RESPONSE, (6 + count) % 0x100, SUBTYPE_TABLE_SUBGROUP, table, offset]
    {
      txBuffer[0] := TYPE_RESPONSE;
      txBuffer[1] := HEADERCS_SIZE;
      txBuffer[2] := SUBTYPE_TABLE_SUBGROUP;
      txBuffer[1] := (txBuffer[1] + 2) % 0x100;
      txBuffer[1] := (txBuffer[1] + count) % 0x100;
      txBuffer[3] := table;
      txBuffer[4] := offset;
    }

    method CopySlice(src: array<Byte>, offset: Byte, count: Byte)
      requires src != txBuffer && offset + count <= src.Length && 5 + count <= txBuffer.Length
      modifies txBuffer
      ensures txBuffer[..5 + count] == old(txBuffer[..5]) + src[offset..offset + count]
    {
      for i := 0 to count
        invariant txBuffer[..5 + i] == old(txBuffer[..5]) + src[offset..offset + i]
      {
        txBuffer[5 + i] := src[offset + i];
        assert txBuffer[..5 + i + 1] == txBuffer[..5 + i] + [src[offset + i]];
        assert src[offset..offset + i + 1] == src[offset..offset + i] + [src[offset + i]];
      }
    }

    /** Puts the checksum in place and takes the bytes to send. */
    method Seal(ghost h: Bytes) returns (bytes: Bytes)
      requires txBuffer.Length == BUFFER_SIZE && 5 <= |h| <= 259 && txBuffer[..|h|] == h
      requires h[0] == TYPE_RESPONSE && 1 <= h[1] <= |h| + 1 && (h[1] == 2 ==> |h| >= 254)
      modifies txBuffer
      ensures bytes == Sealed(h, h[1])
    {
      hide Sum;
      ghost var size := h[1];
      assert txBuffer[..|h|][1] == txBuffer[1];
      assert txBuffer[..size - 1] == h[..size - 1];
      UpdateChecksum(txBuffer);
      if size - 1 == |h| {
        assert txBuffer[..size] == h + [ChecksumOf(h)] && h[..size - 1] == h;
        assert txBuffer[..size][1] == size;
      } else {
        ChecksumOfType(h);
        assert txBuffer[..|h|] == h[size - 1 := ChecksumOf(h[..size - 1])];
        assert txBuffer[..|h|][1] == txBuffer[1];
      }
      bytes := txBuffer[..txBuffer[1]];
    }

    /** The table part of handle_rx_message, built in the transmit buffer. */
    method AnswerTable(table: Byte, offset: Byte, count: Byte) returns (reply: Reply)
      requires Valid()
      modifies txBuffer
      ensures reply == TableReply(TablesOf(), table, offset, count)
    {
      hide HobdParser.Valid, Sum, Sealed;
      if offset + count > TABLE_SIZE_MAX {
        return AssertFailed;
      }
      FillHeader(table, offset, count);
      ghost var head := txBuffer[..5];
      if count != 0 {
        var src := FindTable(table);
        if src == null {
          return AssertFailed;
        }
        if count == 0xFF {
          return OutOfBounds;
        }
        CopySlice(src, offset, count);
      }
      ghost var h := head + Slice(TablesOf(), table, offset, count);
      assert txBuffer[..5 + count] == h;
      assert txBuffer[1] == txBuffer[..5 + count][1] == head[1];
      if txBuffer[1] == 0 {
        return OutOfBounds;
      }
      var bytes := Seal(h);
      reply := Sent(bytes);
    }

    /** handle_rx_message. */
    method HandleRxMessage() returns (reply: Reply)
      requires Valid()
      modifies txBuffer
      ensures reply == HandleRx(parser.rxBuffer[..], TablesOf())
    {
      hide HobdParser.Valid, TableReply, Sum;
      var rx := parser.rxBuffer;
      if rx[0] == TYPE_QUERY && rx[2] == SUBTYPE_INIT {
        var n := BuildMsgNoData(TYPE_RESPONSE, SUBTYPE_INIT, txBuffer);
        reply := Sent(txBuffer[..n]);
      } else if rx[0] == TYPE_QUERY && (rx[2] == SUBTYPE_TABLE_SUBGROUP || rx[2] == SUBTYPE_TABLE) {
        if rx[2] != SUBTYPE_TABLE_SUBGROUP {
          return AssertFailed;
        }
        reply := AnswerTable(rx[3], rx[4], rx[5]);
      } else {
        reply := Silent;
      }
    }

    /** What the three state handlers do once a frame is in the buffer. */
    method ActOnFrame() returns (reply: Reply)
      requires Valid() && parser.Pending() == []
      modifies `mode, txBuffer, parser
      ensures Valid() && Rest(parser.seen) == []
      ensures (mode, reply) == OnFrame(old(mode), old(parser.rxBuffer[..]), TablesOf())
    {
      hide HandleRx, Sum, Segments;
      reply := Silent;
      var rx := parser.rxBuffer;
      match mode
      case Wait4WakeUp =>
        if rx[0] == TYPE_WAKE_UP && rx[2] == SUBTYPE_WAKE_UP {
          mode := Wait4DiagInit;
          parser.Reset();
        }
      case Wait4DiagInit =>
        if rx[0] == TYPE_QUERY && rx[2] == SUBTYPE_INIT && rx[3] == INIT_DATA {
          mode := ActiveListen;
          parser.Reset();
          reply := HandleRxMessage();
        }
      case ActiveListen =>
        if rx[0] == TYPE_QUERY {
          reply := HandleRxMessage();
          if reply.AssertFailed? || reply.OutOfBounds? {
            mode := Halted;
          }
        }
      case Halted =>
    }

    /** ecu_update with the byte the socket yields, if any. */
    method Update(data: Option<Byte>) returns (reply: Reply)
      requires Valid()
      modifies `mode, txBuffer, parser, parser.rxBuffer
      ensures Valid()
      ensures data.None? ==> Abs() == old(Abs()) && reply == Silent
      ensures data.Some? ==> WellFormed(old(Abs())) && (Abs(), reply) == OnByte(old(Abs()), data.value)
    {
      hide OnFrame, Sum, Segments, Rest;
      reply := Silent;
      LengthBound(parser.seen);
      Partition(parser.seen);
      if mode != Halted && data.Some? {
        SegmentsSnoc(parser.seen, data.value);
        var status := parser.ParseByte(data.value);
        if status == NoError {
          reply := ActOnFrame();
        }
      }
    }
  }
}
