/** The Honda K-line wire format: bytes, message constants and the additive checksum. */
module Kline {

  type Byte = b: int | 0 <= b < 0x100
  type Bytes = seq<Byte>

  datatype Option<+T> = None | Some(value: T)

  const HEADERCS_SIZE: int := 4
  const DATA_SIZE_MAX: int := 251
  const SIZE_MIN: int := 4
  const SIZE_MAX: int := 255

  const TYPE_QUERY: Byte := 0x72
  const TYPE_RESPONSE: Byte := 0x02
  const TYPE_WAKE_UP: Byte := 0xFE

  const SUBTYPE_WAKE_UP: Byte := 0xFF
  const SUBTYPE_INIT: Byte := 0x00
  const SUBTYPE_TABLE: Byte := 0x71
  const SUBTYPE_TABLE_SUBGROUP: Byte := 0x72

  const INIT_DATA: Byte := 0xF0

  const TABLE_SIZE_MAX: int := 255
  const TABLE_0: Byte := 0x00
  const TABLE_10: Byte := 0x10
  const TABLE_20: Byte := 0x20
  const TABLE_D1: Byte := 0xD1

  /** Unbounded sum of the bytes. */
  function Sum(s: Bytes): nat {
    if s == [] then 0 else Sum(s[..|s| - 1]) + s[|s| - 1]
  }

  /** The byte that brings the sum of `s` up to a multiple of 256. */
  function ChecksumOf(s: Bytes): Byte {
    (0x100 - Sum(s) % 0x100) % 0x100
  }

  lemma SumSnoc(s: Bytes, b: Byte)
    ensures Sum(s + [b]) == Sum(s) + b
  {
    assert (s + [b])[..|s|] == s;
  }

  /** Sums of the short sequences that the constant frames are made of. */
  lemma SumOfFew(a: Byte, b: Byte, c: Byte, d: Byte, e: Byte, f: Byte, g: Byte)
    ensures Sum([a, b, c]) == a + b + c
    ensures Sum([a, b, c, d]) == a + b + c + d
    ensures Sum([a, b, c, d, e, f, g]) == a + b + c + d + e + f + g
  {
    assert [a, b, c] == [] + [a] + [b] + [c];
    SumSnoc([], a);
    SumSnoc([] + [a], b);
    SumSnoc([] + [a] + [b], c);
    assert [a, b, c, d] == [a, b, c] + [d];
    SumSnoc([a, b, c], d);
    assert [a, b, c, d, e] == [a, b, c, d] + [e];
    SumSnoc([a, b, c, d], e);
    assert [a, b, c, d, e, f] == [a, b, c, d, e] + [f];
    SumSnoc([a, b, c, d, e], f);
    assert [a, b, c, d, e, f, g] == [a, b, c, d, e, f] + [g];
    SumSnoc([a, b, c, d, e, f], g);
  }

  lemma {:induction false} SumConcat(s: Bytes, t: Bytes)
    ensures Sum(s + t) == Sum(s) + Sum(t)
  {
    if t == [] {
      assert s + t == s;
    } else {
      var n := |t| - 1;
      assert s + t == (s + t[..n]) + [t[n]] && t == t[..n] + [t[n]];
      SumSnoc(s + t[..n], t[n]);
      SumConcat(s, t[..n]);
    }
  }

  lemma {:induction false} SumBound(s: Bytes)
    ensures Sum(s) <= 0xFF * |s|
  {
    if s != [] {
      SumBound(s[..|s| - 1]);
    }
  }

  /** Replacing one byte moves the sum by the difference of the two bytes. */
  lemma SumUpdate(s: Bytes, k: nat, b: Byte)
    requires k < |s|
    ensures Sum(s) >= s[k] && Sum(s[k := b]) == Sum(s) - s[k] + b
  {
    var pre, post := s[..k], s[k + 1..];
    assert s == pre + [s[k]] + post && s[k := b] == pre + [b] + post;
    SumConcat(pre + [s[k]], post);
    SumConcat(pre + [b], post);
    SumSnoc(pre, s[k]);
    SumSnoc(pre, b);
  }

  lemma Mod256(n: nat, r: int, k: int)
    requires n == 0x100 * k + r && 0 <= r < 0x100
    ensures n % 0x100 == r
  {
  }

  /** Completing `n` to a multiple of 256 takes exactly one byte. */
  lemma Complement(n: nat, b: Byte)
    ensures (n + b) % 0x100 == 0 <==> b == (0x100 - n % 0x100) % 0x100
  {
    var m, k := n % 0x100, n / 0x100;
    if m + b < 0x100 {
      Mod256(n + b, m + b, k);
    } else {
      Mod256(n + b, m + b - 0x100, k + 1);
    }
  }

  /** The checksum is the only byte that completes `s` to a sum of zero modulo 256. */
  lemma ChecksumUnique(s: Bytes, b: Byte)
    ensures Sum(s + [b]) % 0x100 == 0 <==> b == ChecksumOf(s)
  {
    SumSnoc(s, b);
    Complement(Sum(s), b);
  }

  /** Folding of a 16-bit running sum, as both the builder and the parser do it; the low byte of the
      result is the checksum. */
  function FoldSum(cs: int): int
    requires 0 <= cs < 0x10000
  {
    if cs > 0x0100 then 0x0100 - cs % 0x100 else 0x0100 - cs
  }

  lemma FoldComplements(cs: nat)
    requires cs < 0x10000
    ensures 0 <= FoldSum(cs) <= 0x100 && FoldSum(cs) % 0x100 == (0x100 - cs % 0x100) % 0x100
  {
    if cs == 0x100 {
    } else if cs < 0x100 {
      Mod256(cs, cs, 0);
    }
  }

  /** A wrapped 16-bit sum folds to the same byte as the true sum. */
  lemma FoldSumWraps(s: Bytes)
    ensures 0 <= FoldSum(Sum(s) % 0x10000) <= 0x100
    ensures FoldSum(Sum(s) % 0x10000) % 0x100 == ChecksumOf(s)
  {
    var n := Sum(s);
    var cs := n % 0x10000;
    FoldComplements(cs);
    Mod256(n, cs % 0x100, 0x100 * (n / 0x10000) + cs / 0x100);
  }

  /** hobd_parser_checksum: a 16-bit accumulator that may wrap on long inputs. */
  method Checksum(data: array<Byte>, size: nat) returns (r: Byte)
    requires size <= data.Length && size < 0x10000
    ensures r == ChecksumOf(data[..size])
  {
    var cs: int := 0;
    for idx := 0 to size
      invariant 0 <= cs < 0x10000
      invariant cs == Sum(data[..idx]) % 0x10000
    {
      assert data[..idx + 1] == data[..idx] + [data[idx]];
      SumSnoc(data[..idx], data[idx]);
      cs := (cs + data[idx]) % 0x10000;
    }
    FoldSumWraps(data[..size]);
    r := FoldSum(cs) % 0x100;
  }
}
