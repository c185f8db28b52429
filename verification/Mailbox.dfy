/** Handing entries to the log thread. Words 0 to 3 of a message travel in registers; later words are
    written by the sender straight into the receiver's message buffer, which all senders share. */
module Mailbox {
  import opened Kline
  import opened LogEntry

  const MSG_MAX: nat := 120

  // ------------------------------------------------------------ packing and copying, in place

  /** The word of a message in flight. */
  ghost function MsgWord(regs: array<U32>, shared: array<U32>, i: nat): U32
    requires regs.Length == 4 && shared.Length == MSG_MAX && i < MSG_MAX
    reads regs, shared
  {
    if i <= 3 then regs[i] else shared[i]
  }

  /** One word of the payload, built byte by byte. */
  method PackWord(data: Bytes, idx: nat) returns (w: U32)
    ensures w == DataWord(data, idx)
  {
    var word: int := 0;
    var scale: int := 1;
    for shift := 0 to 4
      invariant scale == if shift == 0 then 1 else if shift == 1 then 0x100 else if shift == 2 then 0x1_0000
                         else if shift == 3 then 0x100_0000 else 0x1_0000_0000
      invariant word == (if shift > 0 then ByteAt(data, 4 * idx) else 0)
        + (if shift > 1 then 0x100 * ByteAt(data, 4 * idx + 1) else 0)
        + (if shift > 2 then 0x1_0000 * ByteAt(data, 4 * idx + 2) else 0)
        + (if shift > 3 then 0x100_0000 * ByteAt(data, 4 * idx + 3) else 0)
    {
      var dataIndex := idx * 4 + shift;
      if dataIndex < |data| {
        word := word + data[dataIndex] * scale;
      }
      scale := scale * 0x100;
    }
    w := word;
  }

  /** mmc_log_entry_data up to the send. No result means that the size check ends the run, which happens
      exactly for payloads of more than 456 bytes. Only the words of the message are written, and
      payloads of up to four bytes leave the shared buffer alone. */
  method PackEntry(kind: U16, timestamp: U64, data: Bytes, regs: array<U32>, shared: array<U32>)
    returns (words: Option<nat>)
    requires |data| < 0x1_0000 && regs.Length == 4 && shared.Length == MSG_MAX && regs != shared
    modifies regs, shared
    ensures words.None? <==> |data| > 456
    ensures words.Some? ==>
      && words.value == WordCount(|data|)
      && forall i :: 0 <= i < words.value ==> MsgWord(regs, shared, i) == EntryWord(Entry(kind, timestamp, data), i)
    ensures forall i :: 0 <= i < MSG_MAX && (i <= 3 || i >= WordCount(|data|)) ==> shared[i] == old(shared[i])
    ensures data == [] ==> regs[3] == old(regs[3])
  {
    var totalBytes := AlignUp4(|data| + ENTRY_HEADER_SIZE);
    SenderLimit(|data|);
    if totalBytes > ENTRY_DATA_SIZE_MAX {
      return None;
    }
    var totalWords := totalBytes / 4;
    ghost var e := Entry(kind, timestamp, data);
    regs[0] := kind + 0x1_0000 * |data|;
    regs[1] := timestamp % 0x1_0000_0000;
    regs[2] := (timestamp / 0x1_0000_0000) % 0x1_0000_0000;
    for idx := 0 to totalWords - 3
      invariant forall i :: 0 <= i < 3 + idx ==> MsgWord(regs, shared, i) == EntryWord(e, i)
      invariant forall i :: 0 <= i < MSG_MAX && (i <= 3 || i >= 3 + idx) ==> shared[i] == old(shared[i])
      invariant idx == 0 ==> regs[3] == old(regs[3])
    {
      var w := PackWord(data, idx);
      if idx == 0 {
        regs[3 + idx] := w;
      } else {
        shared[3 + idx] := w;
      }
    }
    words := Some(totalWords);
  }

  /** sel4_mr_recv: registers first, then the message buffer. */
  method MrRecv(regs: array<U32>, shared: array<U32>, sizeWords: nat, buffer: array<U32>)
    requires regs.Length == 4 && shared.Length == MSG_MAX && sizeWords <= MSG_MAX <= buffer.Length
    requires buffer != regs && buffer != shared
    modifies buffer
    ensures forall i :: 0 <= i < sizeWords ==> buffer[i] == MsgWord(regs, shared, i)
    ensures forall i :: sizeWords <= i < buffer.Length ==> buffer[i] == old(buffer[i])
  {
    for idx := 0 to sizeWords
      invariant forall i :: 0 <= i < idx ==> buffer[i] == MsgWord(regs, shared, i)
      invariant forall i :: idx <= i < buffer.Length ==> buffer[i] == old(buffer[i])
    {
      if idx <= 3 {
        buffer[idx] := regs[idx];
      } else {
        buffer[idx] := shared[idx];
      }
    }
  }
}
