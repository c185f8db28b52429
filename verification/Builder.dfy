/** Building messages in the caller's buffer, and the laws that tie builders to the parser. */
module Builder {
  import opened Kline
  import opened Segmenter
  import opened Parser

  datatype Message = Message(kind: Byte, subtype: Byte, payload: Bytes)

  /** The wire form of a message. The 8-bit size field holds payloads of up to 251 bytes. */
  function Encode(m: Message): (f: Bytes)
    requires |m.payload| <= DATA_SIZE_MAX
  {
    var h := [m.kind, |m.payload| + HEADERCS_SIZE, m.subtype] + m.payload;
    h + [ChecksumOf(h)]
  }

  function Decode(f: Bytes): Message
    requires |f| >= 4
  {
    Message(f[0], f[2], f[3..|f| - 1])
  }

  /** hobd_msg_update_checksum: the last byte of the frame is recomputed from the others. */
  method UpdateChecksum(buffer: array<Byte>)
    requires buffer.Length >= 2 && 1 <= buffer[1] <= buffer.Length
    modifies buffer
    ensures buffer[..] == old(buffer[..])[old(buffer[1]) - 1 := ChecksumOf(old(buffer[..buffer[1] - 1]))]
  {
    var cs := Checksum(buffer, buffer[1] - 1);
    buffer[buffer[1] - 1] := cs;
  }

  /** hobd_msg: the payload is already in place after the header. From 252 payload bytes on the 8-bit
      size wraps, and the checksum replaces a byte of the header; with 252 it would land before the
      buffer, and the model stops there with no size. */
  method BuildMsg(kind: Byte, subtype: Byte, dataSize: Byte, buffer: array<Byte>) returns (size: Option<Byte>)
    requires buffer.Length >= 3 && (dataSize < 252 ==> dataSize + HEADERCS_SIZE <= buffer.Length)
    modifies buffer
    ensures if dataSize == 252 then size.None? else size == Some(buffer[1])
    ensures dataSize < 252 ==>
      && size == Some(dataSize + HEADERCS_SIZE)
      && buffer[..size.value] == Encode(Message(kind, subtype, old(buffer[3..3 + dataSize])))
      && buffer[size.value..] == old(buffer[dataSize + HEADERCS_SIZE..])
    ensures dataSize == 252 ==> buffer[..] == [kind, 0, subtype] + old(buffer[3..])
    ensures dataSize > 252 ==>
      var h, last := [kind, dataSize - 252, subtype], dataSize - 253;
      buffer[..] == h[last := ChecksumOf(h[..last])] + old(buffer[3..])
  {
    buffer[0] := kind;
    buffer[1] := (dataSize + HEADERCS_SIZE) % 0x100;
    buffer[2] := subtype;
    if buffer[1] == 0 {
      return None;
    }
    ghost var h := buffer[..buffer[1] - 1];
    if dataSize < 252 {
      assert h == [kind, dataSize + HEADERCS_SIZE, subtype] + old(buffer[3..3 + dataSize]);
    } else {
      assert h == [kind, dataSize - 252, subtype][..dataSize - 253];
    }
    UpdateChecksum(buffer);
    size := Some(buffer[1]);
    assert dataSize < 252 ==> buffer[..size.value] == h + [ChecksumOf(h)];
  }

  /** hobd_msg_no_data. */
  method BuildMsgNoData(kind: Byte, subtype: Byte, buffer: array<Byte>) returns (size: Byte)
    requires HEADERCS_SIZE <= buffer.Length
    modifies buffer
    ensures size == HEADERCS_SIZE
    ensures buffer[..size] == Encode(Message(kind, subtype, []))
    ensures buffer[size..] == old(buffer[HEADERCS_SIZE..])
  {
    buffer[0] := kind;
    buffer[1] := HEADERCS_SIZE;
    buffer[2] := subtype;
    ghost var h := buffer[..buffer[1] - 1];
    assert h == [kind, HEADERCS_SIZE, subtype] + [];
    UpdateChecksum(buffer);
    size := buffer[1];
    assert buffer[..size] == h + [ChecksumOf(h)];
  }

  /** A built message is a frame exactly when its payload is at most 247 bytes: the builder's 8-bit
      size field reaches 255, the parser stops at 251. Decoding inverts building. */
  lemma EncodeIsFrame(m: Message)
    requires |m.payload| <= DATA_SIZE_MAX
    ensures IsFrame(Encode(m)) <==> |m.payload| <= 247
    ensures Decode(Encode(m)) == m
  {
    var f := Encode(m);
    var h := f[..|f| - 1];
    assert h == [m.kind, |m.payload| + HEADERCS_SIZE, m.subtype] + m.payload;
    assert f == h + [ChecksumOf(h)];
    ChecksumUnique(h, ChecksumOf(h));
    assert f[3..|f| - 1] == m.payload;
  }

  /** Every accepted frame is one the builder makes: acceptance loses no information. */
  lemma FrameIsEncoded(f: Bytes)
    requires IsFrame(f)
    ensures |Decode(f).payload| <= 247 && Encode(Decode(f)) == f
  {
    var n := |f| - 1;
    var h := [f[0], |f[3..n]| + HEADERCS_SIZE, f[2]] + f[3..n];
    assert f[..n] == h;
    assert f == f[..n] + [f[n]];
    ChecksumUnique(f[..n], f[n]);
  }

  function AllAccepted(fs: seq<Bytes>): seq<Segment> {
    if fs == [] then [] else [Accepted(fs[0])] + AllAccepted(fs[1..])
  }

  lemma FlattenHead(fs: seq<Bytes>, t: Bytes)
    requires fs != [] && IsFrame(fs[0])
    ensures var u := Flatten(fs[1..]) + t;
      Segments(Flatten(fs) + t) == [Accepted(fs[0])] + Segments(u) && Rest(Flatten(fs) + t) == Rest(u)
  {
    var u := Flatten(fs[1..]) + t;
    assert Flatten(fs) + t == fs[0] + u;
    SegmentsHead(fs[0], u);
  }

  /** Well-formed frames sent back to back from a boundary are cut apart exactly, and what follows
      them is read as if it came first. */
  lemma {:induction false} FramesParse(fs: seq<Bytes>, t: Bytes)
    requires AllFrames(fs)
    ensures Segments(Flatten(fs) + t) == AllAccepted(fs) + Segments(t)
    ensures Rest(Flatten(fs) + t) == Rest(t)
  {
    if fs == [] {
      assert Flatten(fs) + t == t;
      assert AllAccepted(fs) + Segments(t) == Segments(t);
    } else {
      var f, u := fs[0], Flatten(fs[1..]) + t;
      FramesParse(fs[1..], t);
      FlattenHead(fs, t);
      assert [Accepted(f)] + Segments(u) == AllAccepted(fs) + Segments(t);
    }
  }

  lemma {:induction false} FramesOfAllAccepted(fs: seq<Bytes>)
    ensures Frames(AllAccepted(fs)) == fs
  {
    if fs != [] {
      FramesOfAllAccepted(fs[1..]);
    }
  }

  function EncodeAll(ms: seq<Message>): seq<Bytes>
    requires forall m :: m in ms ==> |m.payload| <= 247
  {
    seq(|ms|, i requires 0 <= i < |ms| => Encode(ms[i]))
  }

  function DecodeAll(fs: seq<Bytes>): seq<Message>
    requires forall f :: f in fs ==> |f| >= 4
  {
    seq(|fs|, i requires 0 <= i < |fs| => Decode(fs[i]))
  }

  /** Whatever is sent is received: building, concatenating, parsing and decoding is the identity on
      lists of messages, with nothing rejected and nothing pending. */
  lemma RoundTrip(ms: seq<Message>)
    requires forall m :: m in ms ==> |m.payload| <= 247
    ensures var s := Flatten(EncodeAll(ms));
      && Segments(s) == AllAccepted(EncodeAll(ms))
      && Rest(s) == []
      && DecodeAll(EncodeAll(ms)) == ms
  {
    var fs := EncodeAll(ms);
    forall i | 0 <= i < |ms|
      ensures IsFrame(fs[i]) && Decode(fs[i]) == ms[i]
    {
      EncodeIsFrame(ms[i]);
    }
    FramesParse(fs, []);
    assert Flatten(fs) + [] == Flatten(fs);
  }

  /** On a frame that starts at a boundary the parser answers NoMsg on every byte but the last. */
  lemma StatusWithinFrame(pre: Bytes, f: Bytes, k: nat)
    requires Rest(pre) == [] && IsFrame(f) && k < |f|
    ensures Rest(pre + f[..k]) == f[..k]
    ensures StatusFor(Rest(pre + f[..k]) + [f[k]]) == if k == |f| - 1 then NoError else NoMsg
  {
    SegmentsConcat(pre, f[..k]);
    assert [] + f[..k] == f[..k];
    var q := f[..k] + [f[k]];
    assert q == f[..k + 1];
    assert f[..|f|] == f;
  }

  /** One altered byte, other than the size byte, costs exactly the frame it hits: that frame ends in
      a checksum error, and everything before and after is read as it was. */
  lemma OneByteAltered(pre: Bytes, f: Bytes, k: nat, b: Byte, post: Bytes)
    requires Rest(pre) == [] && IsFrame(f) && k < |f| && k != 1 && b != f[k]
    ensures Segments(pre + (f + post)) == Segments(pre) + ([Accepted(f)] + Segments(post))
    ensures Segments(pre + (f[k := b] + post)) == Segments(pre) + ([BadChecksum(f[k := b])] + Segments(post))
  {
    var g := f[k := b];
    SumUpdate(f, k, b);
    SumStep(Sum(f), f[k], b);
    CutFirst(pre, f, post);
    CutFirst(pre, g, post);
  }

  lemma SumStep(n: nat, a: Byte, b: Byte)
    requires n % 0x100 == 0 && a != b && n >= a
    ensures (n - a + b) % 0x100 != 0
  {
    Complement(n - a, a);
    Complement(n - a, b);
  }

  lemma CutFirst(pre: Bytes, g: Bytes, post: Bytes)
    requires Rest(pre) == [] && |g| >= 2 && !BadSize(g[1]) && |g| == g[1]
    ensures Segments(pre + (g + post)) == Segments(pre) + ([Judge(g)] + Segments(post))
  {
    SegmentsConcat(pre, g + post);
    assert [] + (g + post) == g + post;
    SegmentsHead(g, post);
  }

  /** A frame is read as one piece, leaving nothing pending, if and only if it starts at a boundary. */
  lemma ReadWholeIffAligned(s: Bytes, f: Bytes)
    requires IsFrame(f)
    ensures (Segments(s + f) == Segments(s) + [Accepted(f)] && Rest(s + f) == []) <==> Rest(s) == []
  {
    SegmentsConcat(s, f);
    if Rest(s) == [] {
      SegmentsHead(f, []);
      assert f + [] == f && [] + f == f;
    } else if Segments(s + f) == Segments(s) + [Accepted(f)] && Rest(s + f) == [] {
      Partition(s);
      Partition(s + f);
      ConcatSnoc(Segments(s), Accepted(f));
    }
  }

  lemma {:induction false} ConcatSnoc(segs: seq<Segment>, g: Segment)
    ensures Concat(segs + [g]) == Concat(segs) + g.bytes
  {
    if segs == [] {
      assert segs + [g] == [g] && [g][1..] == [];
    } else {
      assert (segs + [g])[1..] == segs[1..] + [g];
      ConcatSnoc(segs[1..], g);
    }
  }

  function Repeat(f: Bytes, n: nat): Bytes {
    if n == 0 then [] else f + Repeat(f, n - 1)
  }

  /** Being aligned again is not a matter of time: once the first byte of a stream of init replies is
      lost, no number of further replies is ever accepted. Only a reset helps. */
  lemma {:induction false} LostByteLosesAll(n: nat)
    ensures IsFrame([0x02, 0x04, 0x00, 0xFA])
    ensures AcceptedFrames([0x04, 0x00, 0xFA] + Repeat([0x02, 0x04, 0x00, 0xFA], n)) == []
  {
    var f: Bytes := [0x02, 0x04, 0x00, 0xFA];
    var lost: Bytes := [0x04, 0x00, 0xFA];
    SumOfFew(0x02, 0x04, 0x00, 0xFA, 0, 0, 0);
    var s := lost + Repeat(f, n);
    if n == 0 {
      assert s == [0x04, 0x00] + [0xFA];
      SegmentsHead([0x04, 0x00], [0xFA]);
      assert Segments([0xFA]) == [];
      FramesAppend([BadLength([0x04, 0x00])], []);
    } else {
      var u := lost + Repeat(f, n - 1);
      LostByteLosesAll(n - 1);
      assert s == [0x04, 0x00] + ([0xFA, 0x02] + u);
      SegmentsHead([0x04, 0x00], [0xFA, 0x02] + u);
      SegmentsHead([0xFA, 0x02], u);
      FramesAppend([BadLength([0x04, 0x00])], [BadLength([0xFA, 0x02])] + Segments(u));
      FramesAppend([BadLength([0xFA, 0x02])], Segments(u));
    }
  }
}
