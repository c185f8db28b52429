/** Log entries (mmc_entry.h) and their two layouts: little-endian bytes in the file, and 32-bit words
    in a message. Shifting and or-ing disjoint bytes is written as multiplication and addition. */
module LogEntry {
  import opened Kline

  type U16 = x: int | 0 <= x < 0x1_0000
  type U32 = x: int | 0 <= x < 0x1_0000_0000
  type U64 = x: int | 0 <= x < 0x1_0000_0000_0000_0000

  const ENTRY_HEADER_SIZE: int := 12
  const ENTRY_SIZE_MAX: int := 480
  const ENTRY_DATA_SIZE_MAX: int := ENTRY_SIZE_MAX - ENTRY_HEADER_SIZE

  const ENTRY_INVALID: U16 := 0x0000
  const ENTRY_BEGIN_FLAG: U16 := 0xABFE
  const ENTRY_HOBD_MSG: U16 := 0x0100

  datatype Entry = Entry(kind: U16, timestamp: U64, data: Bytes)

  /** The `k` lowest bytes of `n`, lowest first. */
  function LE(n: nat, k: nat): (s: Bytes)
    ensures |s| == k
  {
    if k == 0 then [] else [n % 0x100] + LE(n / 0x100, k - 1)
  }

  function FromLE(s: Bytes): nat {
    if s == [] then 0 else s[0] + 0x100 * FromLE(s[1..])
  }

  function Pow256(k: nat): nat {
    if k == 0 then 1 else 0x100 * Pow256(k - 1)
  }

  lemma {:induction false} FromLEInvertsLE(n: nat, k: nat)
    requires n < Pow256(k)
    ensures FromLE(LE(n, k)) == n
  {
    if k > 0 {
      FromLEInvertsLE(n / 0x100, k - 1);
      assert LE(n, k)[1..] == LE(n / 0x100, k - 1);
    }
  }

  lemma {:induction false} LEInvertsFromLE(s: Bytes)
    ensures LE(FromLE(s), |s|) == s && FromLE(s) < Pow256(|s|)
  {
    if s != [] {
      LEInvertsFromLE(s[1..]);
      DivMod256(s[0], FromLE(s[1..]));
      assert s == [s[0]] + s[1..];
    }
  }

  lemma DivMod256(b: Byte, n: nat)
    ensures (b + 0x100 * n) % 0x100 == b && (b + 0x100 * n) / 0x100 == n
  {
  }

  lemma Distribute(x: nat, p: nat, y: nat)
    ensures 0x100 * (x + p * y) == 0x100 * x + (0x100 * p) * y
  {
  }

  lemma {:induction false} FromLEConcat(a: Bytes, b: Bytes)
    ensures FromLE(a + b) == FromLE(a) + Pow256(|a|) * FromLE(b)
  {
    if a == [] {
      assert a + b == b;
    } else {
      assert (a + b)[1..] == a[1..] + b;
      FromLEConcat(a[1..], b);
      Distribute(FromLE(a[1..]), Pow256(|a| - 1), FromLE(b));
    }
  }

  /** Two numbers side by side are one number of the joint width. */
  lemma JoinLE(lo: nat, j: nat, hi: nat, k: nat)
    requires lo < Pow256(j) && hi < Pow256(k)
    ensures LE(lo + Pow256(j) * hi, j + k) == LE(lo, j) + LE(hi, k)
  {
    FromLEInvertsLE(lo, j);
    FromLEInvertsLE(hi, k);
    FromLEConcat(LE(lo, j), LE(hi, k));
    LEInvertsFromLE(LE(lo, j) + LE(hi, k));
  }

  lemma Widths()
    ensures Pow256(2) == 0x1_0000 && Pow256(4) == 0x1_0000_0000 && Pow256(8) == 0x1_0000_0000_0000_0000
  {
    assert Pow256(3) == 0x100_0000 && Pow256(5) == 0x100 * Pow256(4);
    assert Pow256(6) == 0x100 * Pow256(5) && Pow256(7) == 0x100 * Pow256(6);
  }

  // ------------------------------------------------------------ words

  /** align_up, always called with four; masking off the two low bits is subtracting the remainder. */
  function AlignUp4(n: nat): (r: nat)
    ensures n <= r < n + 4 && r % 4 == 0
  {
    (n + 3) - (n + 3) % 4
  }

  /** A payload passes the sender's size check, made on the aligned size with the header included, if
      and only if it has at most 456 bytes; the receiver's limit on the payload alone is 468. */
  lemma SenderLimit(n: nat)
    ensures AlignUp4(n + ENTRY_HEADER_SIZE) <= ENTRY_DATA_SIZE_MAX <==> n <= 456
  {
  }

  /** An entry that passes the sender's size check. */
  predicate Loggable(e: Entry) {
    |e.data| <= 456
  }

  predicate AllLoggable(es: seq<Entry>) {
    forall i :: 0 <= i < |es| ==> Loggable(es[i])
  }

  /** Byte `k` of a payload, with zeros after its end. */
  function ByteAt(data: Bytes, k: nat): Byte {
    if k < |data| then data[k] else 0
  }

  /** Word `i` of a payload. */
  function DataWord(data: Bytes, i: nat): U32 {
    ByteAt(data, 4 * i) + 0x100 * ByteAt(data, 4 * i + 1)
    + 0x1_0000 * ByteAt(data, 4 * i + 2) + 0x100_0000 * ByteAt(data, 4 * i + 3)
  }

  /** Number of words of a message that carries `n` bytes of payload. */
  function WordCount(n: nat): nat {
    AlignUp4(n + ENTRY_HEADER_SIZE) / 4
  }

  /** Word `i` of the message for an entry. */
  function EntryWord(e: Entry, i: nat): U32
    requires |e.data| < 0x1_0000
  {
    if i == 0 then e.kind + 0x1_0000 * |e.data|
    else if i == 1 then e.timestamp % 0x1_0000_0000
    else if i == 2 then e.timestamp / 0x1_0000_0000
    else DataWord(e.data, i - 3)
  }

  /** Words as they lie in memory. */
  function Image(ws: seq<U32>): Bytes {
    if ws == [] then [] else Image(ws[..|ws| - 1]) + LE(ws[|ws| - 1], 4)
  }

  function EntryWords(e: Entry, n: nat): seq<U32>
    requires |e.data| < 0x1_0000
  {
    seq(n, i requires 0 <= i < n => EntryWord(e, i))
  }

  lemma DataWordBytes(data: Bytes, i: nat)
    ensures LE(DataWord(data, i), 4)
         == [ByteAt(data, 4 * i), ByteAt(data, 4 * i + 1), ByteAt(data, 4 * i + 2), ByteAt(data, 4 * i + 3)]
  {
    hide ByteAt, LE;
    var a, b, c, d := ByteAt(data, 4 * i), ByteAt(data, 4 * i + 1), ByteAt(data, 4 * i + 2), ByteAt(data, 4 * i + 3);
    var s := [a, b, c, d];
    assert s[1..] == [b, c, d] && [b, c, d][1..] == [c, d] && [c, d][1..] == [d] && [d][1..] == [];
    assert FromLE([d]) == d && FromLE([c, d]) == c + 0x100 * FromLE([d]);
    assert FromLE([b, c, d]) == b + 0x100 * FromLE([c, d]);
    assert FromLE(s) == a + 0x100 * FromLE([b, c, d]) == DataWord(data, i);
    LEInvertsFromLE(s);
  }

  /** The payload followed by as many zeros as it takes to `n` bytes. */
  function Padded(data: Bytes, n: nat): Bytes {
    seq(n, k requires 0 <= k < n => ByteAt(data, k))
  }

  lemma {:induction false} DataImage(e: Entry, n: nat)
    requires |e.data| < 0x1_0000
    ensures Image(EntryWords(e, n + 3)) == Header(e) + Padded(e.data, 4 * n)
  {
    hide LE, DataWord, Header;
    if n == 0 {
      HeaderImage(e);
      assert Padded(e.data, 0) == [];
    } else {
      DataImage(e, n - 1);
      var ws := EntryWords(e, n + 3);
      assert ws[..n + 2] == EntryWords(e, n + 2);
      assert ws[n + 2] == DataWord(e.data, n - 1);
      DataWordBytes(e.data, n - 1);
      assert Padded(e.data, 4 * n) == Padded(e.data, 4 * (n - 1)) + LE(DataWord(e.data, n - 1), 4);
    }
  }

  function Header(e: Entry): (h: Bytes)
    requires |e.data| < 0x1_0000
    ensures |h| == ENTRY_HEADER_SIZE
  {
    LE(e.kind, 2) + LE(|e.data|, 2) + LE(e.timestamp, 8)
  }

  lemma HeaderImage(e: Entry)
    requires |e.data| < 0x1_0000
    ensures Image(EntryWords(e, 3)) == Header(e)
  {
    hide LE, Pow256;
    var ws := EntryWords(e, 3);
    assert ws[..2][..1] == ws[..1] && ws[..1][..0] == [] && ws[..3] == ws;
    assert Image(ws[..1]) == [] + LE(ws[0], 4);
    assert Image(ws[..2]) == Image(ws[..1]) + LE(ws[1], 4);
    Widths();
    JoinLE(e.kind, 2, |e.data|, 2);
    JoinLE(ws[1], 4, ws[2], 4);
    assert e.timestamp == ws[1] + Pow256(4) * ws[2];
  }

  /** The bytes of an entry in the log file. */
  function Bytes(e: Entry): (s: Kline.Bytes)
    requires |e.data| < 0x1_0000
    ensures |s| == ENTRY_HEADER_SIZE + |e.data|
  {
    Header(e) + e.data
  }

  /** The message of an entry, laid out in memory, starts with the bytes the file is to hold. */
  lemma ImageHoldsEntry(e: Entry)
    requires |e.data| < 0x1_0000
    ensures var m := Image(EntryWords(e, WordCount(|e.data|)));
      |m| == 4 * WordCount(|e.data|) >= |Bytes(e)| && m[..|Bytes(e)|] == Bytes(e)
  {
    hide Header, Image;
    var n := WordCount(|e.data|) - 3;
    DataImage(e, n);
    assert Padded(e.data, 4 * n)[..|e.data|] == e.data;
  }
}
