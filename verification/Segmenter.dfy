/** What a byte stream means: a simple recursive cut of the whole stream into segments.
    It knows nothing of parser states, running sums or buffers. */
module Segmenter {
  import opened Kline

  datatype Segment =
    | Accepted(bytes: Bytes)   // a frame whose bytes sum to zero modulo 256
    | BadChecksum(bytes: Bytes)
    | BadLength(bytes: Bytes)  // a type byte and an impossible size byte

  predicate BadSize(b: Byte) {
    b > DATA_SIZE_MAX || b < SIZE_MIN
  }

  /** A whole well-formed frame: its size field names its length and its bytes sum to zero. */
  predicate IsFrame(q: Bytes) {
    && |q| >= 2
    && !BadSize(q[1])
    && |q| == q[1]
    && Sum(q) % 0x100 == 0
  }

  predicate AllFrames(fs: seq<Bytes>) {
    forall i :: 0 <= i < |fs| ==> IsFrame(fs[i])
  }

  /** Length of the segment that starts with `s`, known once two bytes are there. */
  function SegLen(s: Bytes): nat
    requires |s| >= 2
  {
    if BadSize(s[1]) then 2 else s[1]
  }

  predicate HasSegment(s: Bytes) {
    |s| >= 2 && SegLen(s) <= |s|
  }

  function Judge(q: Bytes): Segment
    requires |q| >= 2
  {
    if BadSize(q[1]) then BadLength(q)
    else if Sum(q) % 0x100 == 0 then Accepted(q)
    else BadChecksum(q)
  }

  function Segments(s: Bytes): seq<Segment>
    decreases |s|
  {
    if HasSegment(s) then [Judge(s[..SegLen(s)])] + Segments(s[SegLen(s)..]) else []
  }

  /** The bytes after the last whole segment. */
  function Rest(s: Bytes): Bytes
    decreases |s|
  {
    if HasSegment(s) then Rest(s[SegLen(s)..]) else s
  }

  function Concat(segs: seq<Segment>): Bytes {
    if segs == [] then [] else segs[0].bytes + Concat(segs[1..])
  }

  function Frames(segs: seq<Segment>): seq<Bytes> {
    if segs == [] then []
    else (if segs[0].Accepted? then [segs[0].bytes] else []) + Frames(segs[1..])
  }

  /** The accepted frames of a stream, in order. */
  function AcceptedFrames(s: Bytes): seq<Bytes> {
    Frames(Segments(s))
  }

  function Flatten(ss: seq<Bytes>): Bytes {
    if ss == [] then [] else ss[0] + Flatten(ss[1..])
  }

  /** Nothing is lost and nothing is read twice: the segments and the rest are the stream. */
  lemma {:induction false} Partition(s: Bytes)
    ensures s == Concat(Segments(s)) + Rest(s)
    ensures !HasSegment(Rest(s))
    decreases |s|
  {
    if HasSegment(s) {
      var n := SegLen(s);
      Partition(s[n..]);
      assert Segments(s)[1..] == Segments(s[n..]);
      assert Concat(Segments(s)) == s[..n] + Concat(Segments(s[n..]));
      assert s == s[..n] + s[n..];
    }
  }

  /** Each segment is what it claims to be. */
  lemma {:induction false} SegmentsSound(s: Bytes)
    ensures forall g :: g in Segments(s) ==>
      match g
      case Accepted(f) => IsFrame(f)
      case BadChecksum(f) => |f| >= 2 && !BadSize(f[1]) && |f| == f[1] && Sum(f) % 0x100 != 0
      case BadLength(f) => |f| == 2 && BadSize(f[1])
    decreases |s|
  {
    if HasSegment(s) {
      SegmentsSound(s[SegLen(s)..]);
    }
  }

  /** A whole segment at the front is cut off as one piece. */
  lemma SegmentsHead(g: Bytes, t: Bytes)
    requires |g| >= 2 && |g| == SegLen(g)
    ensures Segments(g + t) == [Judge(g)] + Segments(t)
    ensures Rest(g + t) == Rest(t)
  {
    var u := g + t;
    assert u[1] == g[1] && u[..|g|] == g && u[|g|..] == t;
  }

  /** Cutting after a boundary changes nothing: segmentation distributes over concatenation there. */
  lemma {:induction false} SegmentsConcat(s: Bytes, t: Bytes)
    ensures Segments(s + t) == Segments(s) + Segments(Rest(s) + t)
    ensures Rest(s + t) == Rest(Rest(s) + t)
    decreases |s|
  {
    if HasSegment(s) {
      var n := SegLen(s);
      assert (s + t)[..n] == s[..n] && (s + t)[n..] == s[n..] + t;
      SegmentsConcat(s[n..], t);
    }
  }

  /** One byte closes at most one segment, and then it closes exactly the pending bytes. */
  lemma SegmentsSnoc(s: Bytes, b: Byte)
    ensures var q := Rest(s) + [b];
      if HasSegment(q)
      then |q| == SegLen(q) && Segments(s + [b]) == Segments(s) + [Judge(q)] && Rest(s + [b]) == []
      else Segments(s + [b]) == Segments(s) && Rest(s + [b]) == q
  {
    SegmentsConcat(s, [b]);
    Partition(s);
    var q := Rest(s) + [b];
    if HasSegment(q) {
      assert |Rest(s)| >= 2 ==> Rest(s)[1] == q[1];
      assert |q| == SegLen(q);
      assert q[..|q|] == q && q[|q|..] == [];
    } else {
      assert Segments(q) == [];
    }
  }

  lemma {:induction false} FramesAppend(a: seq<Segment>, b: seq<Segment>)
    ensures Frames(a + b) == Frames(a) + Frames(b)
  {
    if a == [] {
      assert a + b == b;
    } else {
      assert (a + b)[1..] == a[1..] + b && (a + b)[0] == a[0];
      FramesAppend(a[1..], b);
    }
  }

  /** Fewer than 251 bytes are ever pending, and every segment takes at most 251 bytes. */
  lemma {:induction false} LengthBound(s: Bytes)
    ensures |Rest(s)| <= 250
    ensures |s| <= 251 * |Segments(s)| + |Rest(s)|
    decreases |s|
  {
    if HasSegment(s) {
      LengthBound(s[SegLen(s)..]);
    }
  }

  /** From any point of any stream, some boundary is met within the next 250 bytes:
      no garbage can hold the segmentation out of step with later input for longer. */
  lemma Resynchronises(s: Bytes, t: Bytes)
    requires |t| >= 250
    ensures exists k: nat :: k <= 250 && Rest(s + t[..k]) == []
  {
    var r := Rest(s);
    Partition(s);
    LengthBound(s);
    if r == [] {
      assert s + t[..0] == s;
    } else {
      var q := r + t;
      var k := SegLen(q) - |r|;
      assert q[1] == if |r| >= 2 then r[1] else t[0];
      assert r + t[..k] == q[..SegLen(q)];
      SegmentsConcat(s, t[..k]);
      var w := q[..SegLen(q)];
      assert HasSegment(w) && w[SegLen(w)..] == [];
      assert Rest(w) == Rest([]);
      assert Rest(s + t[..k]) == [];
    }
  }
}
