/** The byte-at-a-time parser, updated in place as the source does, and proved to follow the
    recursive segmentation of everything it has been fed since its last reset. */
module Parser {
  import opened Kline
  import opened Segmenter

  datatype State = GetType | GetSize | GetSubtype | GetData | GetChecksum

  datatype Status = NoError | NoMsg | ChecksumError

  const ERROR_MSG_TYPE: Byte := 2
  const ERROR_MSG_SUBTYPE: Byte := 3
  const TYPE_INVALID: Byte := 0x00
  const SUBTYPE_INVALID: Byte := 0xAA

  /** The fallback value differs from the one the caller compares with, so no type is ever refused. */
  function ValidType(t: Byte): (r: Byte)
    ensures r != TYPE_INVALID
  {
    if t == TYPE_QUERY || t == TYPE_RESPONSE || t == TYPE_WAKE_UP then t else ERROR_MSG_TYPE
  }

  /** Likewise no subtype is ever refused. */
  function ValidSubtype(t: Byte): (r: Byte)
    ensures r != SUBTYPE_INVALID
  {
    if t == SUBTYPE_WAKE_UP || t == SUBTYPE_INIT || t == SUBTYPE_TABLE_SUBGROUP || t == SUBTYPE_TABLE
    then t else ERROR_MSG_SUBTYPE
  }

  function CountValid(segs: seq<Segment>): nat {
    |Frames(segs)|
  }

  lemma {:induction false} CountValidBound(segs: seq<Segment>)
    ensures CountValid(segs) <= |segs|
  {
    if segs != [] {
      CountValidBound(segs[1..]);
    }
  }

  /** The state the parser must be in when `q` is the unfinished segment so far. */
  function StateFor(q: Bytes): State {
    if |q| == 0 then GetType
    else if |q| == 1 then GetSize
    else if |q| == 2 then GetSubtype
    else if |q| + 1 < q[1] then GetData
    else GetChecksum
  }

  /** What one more byte means when `q` is the segment including it. */
  function StatusFor(q: Bytes): Status {
    if !HasSegment(q) || BadSize(q[1]) then NoMsg
    else if IsFrame(q) then NoError
    else ChecksumError
  }

  /** How one byte moves an unfinished segment on, in terms of its length and size byte only. */
  lemma Grow(r: Bytes, b: Byte)
    requires |r| <= 250 && !HasSegment(r)
    ensures var q := r + [b];
      match StateFor(r)
      case GetType => r == [] && StateFor(q) == GetSize && !HasSegment(q)
      case GetSize =>
        && |r| == 1 && q[1] == b
        && (if BadSize(b) then HasSegment(q) else !HasSegment(q) && StateFor(q) == GetSubtype)
      case GetSubtype =>
        && |r| == 2 && q[1] == r[1] && !BadSize(r[1]) && !HasSegment(q)
        && StateFor(q) == (if r[1] == SIZE_MIN then GetChecksum else GetData)
      case GetData =>
        && |q| <= 250 && q[1] == r[1] && !BadSize(r[1]) && !HasSegment(q)
        && StateFor(q) == (if |q| + 1 == r[1] then GetChecksum else GetData)
      case GetChecksum => |r| >= 3 && q[1] == r[1] == |q| && !BadSize(r[1]) && HasSegment(q)
    ensures Sum(r + [b]) == Sum(r) + b
    ensures Sum(r) + b < 0x10000
    ensures 0 <= FoldSum(Sum(r)) <= 0x100
    ensures StateFor(r) == GetChecksum ==> (IsFrame(r + [b]) <==> b == FoldSum(Sum(r)) % 0x100)
  {
    SumSnoc(r, b);
    SumBound(r);
    ChecksumUnique(r, b);
    FoldSumWraps(r);
  }

  /** The two counters of a stream move as its last byte is judged. */
  lemma CountSegment(s: Bytes, b: Byte, validBase: nat, invalidBase: nat)
    ensures var q := Rest(s) + [b];
      && ValidMod(s + [b], validBase)
         == (if StatusFor(q) == NoError then (ValidMod(s, validBase) + 1) % 0x10000 else ValidMod(s, validBase))
      && InvalidMod(s + [b], invalidBase)
         == (if HasSegment(q) && StatusFor(q) != NoError
             then (InvalidMod(s, invalidBase) + 1) % 0x10000 else InvalidMod(s, invalidBase))
  {
    hide Segments, Rest, Sum;
    var q := Rest(s) + [b];
    SegmentsSnoc(s, b);
    if HasSegment(q) {
      FramesAppend(Segments(s), [Judge(q)]);
      CountValidBound(Segments(s));
      CounterWraps(validBase + CountValid(Segments(s)));
      CounterWraps(invalidBase + |Segments(s)| - CountValid(Segments(s)));
    }
  }

  function ValidMod(s: Bytes, base: nat): int {
    (base + CountValid(Segments(s))) % 0x10000
  }

  function InvalidMod(s: Bytes, base: nat): int {
    (base + |Segments(s)| - CountValid(Segments(s))) % 0x10000
  }

  /** A wrapping 16-bit counter stays the true count modulo 65536. */
  lemma CounterWraps(n: nat)
    ensures (n % 0x10000 + 1) % 0x10000 == (n + 1) % 0x10000
  {
  }

  /** No stream overruns a buffer of `n` bytes if and only if `n` is at least 251. */
  lemma BufferSufficesIff(n: nat)
    ensures (forall s: Bytes :: |Rest(s)| < n) <==> n >= DATA_SIZE_MAX
  {
    forall s: Bytes
      ensures |Rest(s)| <= 250
    {
      LengthBound(s);
    }
    var long: Bytes := [0, 251] + seq(248, _ => 0);
    assert !HasSegment(long) && |Rest(long)| == 250;
    if forall s: Bytes :: |Rest(s)| < n {
      assert |Rest(long)| < n;
    }
  }

  class HobdParser {
    var state: State
    var bytesRead: Byte
    var totalSize: Byte
    var checksum: int      // uint16_t
    var validCount: int    // uint16_t
    var invalidCount: int  // uint16_t
    const rxBuffer: array<Byte>
    const rxBufferSize: nat  // stored, never consulted

    ghost var seen: Bytes       // every byte since the last init or reset
    ghost var validBase: nat    // frames accepted before that
    ghost var invalidBase: nat  // segments rejected before that

    /** The bytes of the unfinished segment, as the fields record them. */
    ghost function Pending(): Bytes
      requires bytesRead <= rxBuffer.Length
      reads this, rxBuffer
    {
      if state == GetType then [] else rxBuffer[..bytesRead]
    }

    /** The next byte fits the buffer. The parser itself never looks at the size of its buffer. */
    ghost predicate HasRoom()
      requires bytesRead <= rxBuffer.Length
      reads this, rxBuffer
    {
      |Pending()| < rxBuffer.Length
    }

    /** The fields agree with one another. */
    ghost predicate Coherent()
      reads this, rxBuffer
    {
      && bytesRead <= rxBuffer.Length && bytesRead <= DATA_SIZE_MAX
      && 0 <= checksum < 0x10000
      && var q := Pending();
      && |q| <= 250 && !HasSegment(q)
      && state == StateFor(q)
      && (q != [] ==> checksum == Sum(q))
      && (|q| >= 2 ==> totalSize == q[1])
    }

    /** ... and with the segmentation of the stream. */
    ghost predicate Valid()
      reads this, rxBuffer
    {
      && Coherent()
      && Pending() == Rest(seen)
      && validCount == ValidMod(seen, validBase)
      && invalidCount == InvalidMod(seen, invalidBase)
    }

    constructor (buffer: array<Byte>, size: nat)
      requires buffer.Length > SIZE_MIN
      ensures Valid() && rxBuffer == buffer && seen == []
      ensures validCount == invalidCount == validBase == invalidBase == 0
    {
      state := GetType;
      bytesRead, totalSize, checksum := 0, 0, 0;
      validCount, invalidCount := 0, 0;
      rxBuffer, rxBufferSize := buffer, size;
      seen, validBase, invalidBase := [], 0, 0;
    }

    /** hobd_parser_reset: drops the unfinished segment, keeps both counters. */
    method Reset()
      requires Valid()
      modifies this
      ensures Valid() && seen == []
      ensures validCount == old(validCount) && invalidCount == old(invalidCount)
    {
      ReadyParser();
      state := GetType;
      seen, validBase, invalidBase := [], validCount, invalidCount;
    }

    method ReadyParser()
      modifies this`bytesRead, this`totalSize, this`checksum
      ensures bytesRead == totalSize == 0 && checksum == 0
    {
      bytesRead, totalSize, checksum := 0, 0, 0;
    }

    method InvalidReset()
      modifies this`invalidCount, this`state
      ensures invalidCount == (old(invalidCount) + 1) % 0x10000 && state == GetType
    {
      invalidCount := (invalidCount + 1) % 0x10000;
      state := GetType;
    }

    method UpdateByte(byte: Byte)
      requires bytesRead < rxBuffer.Length && 0 <= checksum
      modifies this`bytesRead, this`checksum, rxBuffer
      ensures bytesRead == (old(bytesRead) + 1) % 0x100
      ensures checksum == (old(checksum) + byte) % 0x10000
      ensures rxBuffer[..] == old(rxBuffer[..])[old(bytesRead) := byte]
    {
      rxBuffer[bytesRead] := byte;
      bytesRead := (bytesRead + 1) % 0x100;
      checksum := (checksum + byte) % 0x10000;
    }

    /** With `q` the unfinished segment and the new byte: the answer is `StatusFor(q)`, only the byte
        after the unfinished segment is written, `q` stays pending unless it is a whole segment, and
        a whole segment moves exactly one counter. */
    twostate predicate Stepped(byte: Byte, ret: Status)
      requires old(Coherent()) && old(HasRoom()) && Coherent()
      reads this, rxBuffer
    {
      var q := old(Pending()) + [byte];
      && ret == StatusFor(q)
      && rxBuffer[..] == old(rxBuffer[..])[|q| - 1 := byte]
      && rxBuffer[..|q|] == q
      && Pending() == (if HasSegment(q) then [] else q)
      && validCount == (if ret == NoError then (old(validCount) + 1) % 0x10000 else old(validCount))
      && invalidCount == (if HasSegment(q) && ret != NoError
                          then (old(invalidCount) + 1) % 0x10000 else old(invalidCount))
    }

    method OnType(byte: Byte) returns (ret: Status)
      requires Coherent() && state == GetType && HasRoom()
      modifies `state, `bytesRead, `totalSize, `checksum, rxBuffer
      ensures Coherent() && Stepped(byte, ret)
    {
      Grow(Pending(), byte);
      ret := NoMsg;
      ReadyParser();
      UpdateByte(byte);
      assert [] + [byte] == [byte];
      assert bytesRead == 1 && checksum == Sum([byte]);
      assert rxBuffer[..bytesRead] == [byte];
      if ValidType(byte) != TYPE_INVALID {
        state := GetSize;
      }
      assert Pending() == [byte];
    }

    method OnSize(byte: Byte) returns (ret: Status)
      requires Coherent() && state == GetSize && HasRoom()
      modifies `state, `bytesRead, `totalSize, `checksum, `invalidCount, rxBuffer
      ensures Coherent() && Stepped(byte, ret)
    {
      ghost var r := Pending();
      Grow(r, byte);
      ret := NoMsg;
      UpdateByte(byte);
      ghost var q := r + [byte];
      assert bytesRead == |q| && checksum == Sum(q);
      assert rxBuffer[..bytesRead] == q;
      if byte > DATA_SIZE_MAX {
        InvalidReset();
      } else if byte < SIZE_MIN {
        InvalidReset();
      } else {
        totalSize := byte;
        state := GetSubtype;
      }
    }

    method OnSubtype(byte: Byte) returns (ret: Status)
      requires Coherent() && state == GetSubtype && HasRoom()
      modifies `state, `bytesRead, `checksum, rxBuffer
      ensures Coherent() && Stepped(byte, ret)
    {
      ghost var r := Pending();
      Grow(r, byte);
      ret := NoMsg;
      UpdateByte(byte);
      ghost var q := r + [byte];
      assert bytesRead == |q| && checksum == Sum(q);
      assert rxBuffer[..bytesRead] == q;
      if ValidSubtype(byte) != SUBTYPE_INVALID {
        if totalSize == SIZE_MIN {
          state := GetChecksum;
        } else {
          state := GetData;
        }
      }
      // no else: ValidSubtype never yields SUBTYPE_INVALID
    }

    method OnData(byte: Byte) returns (ret: Status)
      requires Coherent() && state == GetData && HasRoom()
      modifies `state, `bytesRead, `checksum, rxBuffer
      ensures Coherent() && Stepped(byte, ret)
    {
      ghost var r := Pending();
      Grow(r, byte);
      ret := NoMsg;
      UpdateByte(byte);
      ghost var q := r + [byte];
      assert bytesRead == |q| && checksum == Sum(q);
      assert rxBuffer[..bytesRead] == q;
      if bytesRead + 1 == totalSize {
        state := GetChecksum;
      }
      assert Pending() == q;
    }

    method OnChecksum(byte: Byte) returns (ret: Status)
      requires Coherent() && state == GetChecksum && HasRoom()
      modifies `state, `bytesRead, `checksum, `validCount, `invalidCount, rxBuffer
      ensures Coherent() && Stepped(byte, ret)
    {
      ghost var r := Pending();
      Grow(r, byte);
      rxBuffer[bytesRead] := byte;
      bytesRead := (bytesRead + 1) % 0x100;
      assert rxBuffer[..bytesRead] == r + [byte];
      checksum := FoldSum(checksum);
      if byte == checksum % 0x100 {
        validCount := (validCount + 1) % 0x10000;
        ret := NoError;
      } else {
        invalidCount := (invalidCount + 1) % 0x10000;
        ret := ChecksumError;
      }
      state := GetType;
    }

    /** 251 bytes are room enough at all times. */
    lemma RoomAtAllTimes()
      requires Valid() && rxBuffer.Length >= DATA_SIZE_MAX
      ensures bytesRead <= rxBuffer.Length && HasRoom()
    {
    }

    method Dispatch(byte: Byte) returns (ret: Status)
      requires Coherent() && HasRoom()
      modifies `state, `bytesRead, `totalSize, `checksum, `validCount, `invalidCount, rxBuffer
      ensures Coherent() && Stepped(byte, ret)
    {
      match state
      case GetType => ret := OnType(byte);
      case GetSize => ret := OnSize(byte);
      case GetSubtype => ret := OnSubtype(byte);
      case GetData => ret := OnData(byte);
      case GetChecksum => ret := OnChecksum(byte);
    }

    /** hobd_parser_parse_byte. The parser keeps in step with the segmentation of the whole stream:
        it answers NoError exactly on the last byte of each accepted frame, and the buffer then
        starts with that frame. */
    method ParseByte(byte: Byte) returns (ret: Status)
      requires Valid() && HasRoom()
      modifies this, rxBuffer
      ensures Valid()
      ensures seen == old(seen) + [byte]
      ensures validBase == old(validBase) && invalidBase == old(invalidBase)
      ensures rxBuffer[..] == old(rxBuffer[..])[|old(Pending())| := byte]
      ensures ret == StatusFor(Rest(old(seen)) + [byte])
      ensures ret == NoError ==>
        var f := Rest(old(seen)) + [byte];
        && IsFrame(f) && |f| <= rxBuffer.Length && rxBuffer[..|f|] == f
        && Segments(seen) == Segments(old(seen)) + [Accepted(f)]
    {
      hide Segments, Rest, Sum;
      SegmentsSnoc(seen, byte);
      ret := Dispatch(byte);
      CountSegment(seen, byte, validBase, invalidBase);
      seen := seen + [byte];
    }
  }
}
