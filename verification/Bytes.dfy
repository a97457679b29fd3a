/** Byte strings and the two integer layouts the codecs share: fixed-width
    big-endian words and base-128 varints (least significant group first). */
module Bytes {

  datatype Option<+T> = None | Some(value: T)

  type byte = b: int | 0 <= b < 256
  type bytes = seq<byte>

  const TWO_63 := 0x8000_0000_0000_0000
  const TWO_64 := 0x1_0000_0000_0000_0000

  function Pow256(k: nat): (p: nat)
    ensures p > 0
  {
    if k == 0 then 1 else 256 * Pow256(k - 1)
  }

  /** The low k bytes of n, most significant first. */
  function BigEndian(n: nat, k: nat): (s: bytes)
    ensures |s| == k
  {
    if k == 0 then [] else BigEndian(n / 256, k - 1) + [n % 256]
  }

  /** The value of a big-endian byte string. */
  function FromBigEndian(s: bytes): (n: nat)
    ensures n < Pow256(|s|)
  {
    if s == [] then 0 else 256 * FromBigEndian(s[..|s| - 1]) + s[|s| - 1]
  }

  lemma {:induction false} BigEndianRoundTrip(n: nat, k: nat)
    requires n < Pow256(k)
    ensures FromBigEndian(BigEndian(n, k)) == n
  {
    if k > 0 {
      BigEndianRoundTrip(n / 256, k - 1);
      var s := BigEndian(n / 256, k - 1);
      assert BigEndian(n, k)[..k - 1] == s;
    }
  }

  lemma {:induction false} FromBigEndianRoundTrip(s: bytes)
    ensures BigEndian(FromBigEndian(s), |s|) == s
  {
    if s != [] {
      FromBigEndianRoundTrip(s[..|s| - 1]);
    }
  }

  lemma BigEndianInjective(m: nat, n: nat, k: nat)
    requires m < Pow256(k) && n < Pow256(k)
    requires BigEndian(m, k) == BigEndian(n, k)
    ensures m == n
  {
    BigEndianRoundTrip(m, k);
    BigEndianRoundTrip(n, k);
  }

  /** Leading zero bytes do not change the value. */
  lemma {:induction false} LeadingZero(s: bytes)
    ensures FromBigEndian([0] + s) == FromBigEndian(s)
  {
    if s != [] {
      LeadingZero(s[..|s| - 1]);
      assert ([0] + s)[..|s|] == [0] + s[..|s| - 1];
    }
  }

  lemma Pow256Values()
    ensures Pow256(1) == 0x100 && Pow256(2) == 0x1_0000 && Pow256(4) == 0x1_0000_0000
    ensures Pow256(8) == TWO_64
  {
    assert Pow256(4) == 256 * Pow256(3) == 256 * 256 * Pow256(2);
    assert Pow256(8) == 256 * Pow256(7) == 256 * 256 * Pow256(6) == 256 * 256 * 256 * Pow256(5);
  }

  lemma {:induction false} Pow256Monotone(j: nat, k: nat)
    requires j <= k
    ensures Pow256(j) <= Pow256(k)
  {
    if j < k {
      Pow256Monotone(j, k - 1);
    }
  }

  function Zeros(k: nat): (s: bytes)
    ensures |s| == k
    ensures forall i :: 0 <= i < k ==> s[i] == 0
  {
    seq(k, _ => 0)
  }

  function Concat(parts: seq<bytes>): bytes {
    if parts == [] then [] else parts[0] + Concat(parts[1..])
  }

  lemma {:induction false} ConcatSnoc(parts: seq<bytes>, last: bytes)
    ensures Concat(parts + [last]) == Concat(parts) + last
  {
    if parts == [] {
      assert parts + [last] == [last];
      assert Concat([last]) == last + Concat([]);
    } else {
      ConcatSnoc(parts[1..], last);
      assert (parts + [last])[1..] == parts[1..] + [last];
    }
  }

  /** Concat on short displays. */
  lemma ConcatDisplays(a: bytes, b: bytes, c: bytes, d: bytes, e: bytes)
    ensures Concat([a]) == a
    ensures Concat([a, b]) == a + b
    ensures Concat([a, b, c]) == a + b + c
    ensures Concat([a, b, c, d]) == a + b + c + d
    ensures Concat([a, b, c, d, e]) == a + b + c + d + e
  {
    ConcatSnoc([], a);
    assert [] + [a] == [a];
    ConcatSnoc([a], b);
    assert [a] + [b] == [a, b];
    ConcatSnoc([a, b], c);
    assert [a, b] + [c] == [a, b, c];
    ConcatSnoc([a, b, c], d);
    assert [a, b, c] + [d] == [a, b, c, d];
    ConcatSnoc([a, b, c, d], e);
    assert [a, b, c, d] + [e] == [a, b, c, d, e];
  }

  /** Cutting the same number of bytes off two equal strings. */
  lemma SplitEqual(a: bytes, b: bytes, c: bytes, d: bytes)
    requires |a| == |c| && a + b == c + d
    ensures a == c && b == d
  {
    assert a == (a + b)[..|a|] && b == (a + b)[|a|..];
    assert c == (c + d)[..|c|] && d == (c + d)[|c|..];
  }

  // ------------------------------------------------------------------ varints

  /** Unsigned LEB128: seven bits a byte, least significant first, the high
      bit set on every byte but the last. */
  function Uvarint(n: nat): (s: bytes)
    ensures |s| >= 1
  {
    if n < 0x80 then [n] else [n % 0x80 + 0x80] + Uvarint(n / 0x80)
  }

  /** Reads one varint from the front: its value and how many bytes it took. */
  function ReadUvarint(s: bytes): (r: Option<(nat, nat)>)
    ensures r.Some? ==> 0 < r.value.1 <= |s|
  {
    if s == [] then None
    else if s[0] < 0x80 then Some((s[0], 1))
    else
      match ReadUvarint(s[1..])
      case None => None
      case Some((n, k)) => Some((0x80 * n + (s[0] - 0x80), k + 1))
  }

  lemma {:induction false} UvarintRoundTrip(n: nat, rest: bytes)
    ensures ReadUvarint(Uvarint(n) + rest) == Some((n, |Uvarint(n)|))
  {
    if n >= 0x80 {
      UvarintRoundTrip(n / 0x80, rest);
      assert (Uvarint(n) + rest)[1..] == Uvarint(n / 0x80) + rest;
    }
  }

  function Pow128(k: nat): (p: nat)
    ensures p > 0
  {
    if k == 0 then 1 else 128 * Pow128(k - 1)
  }

  lemma {:induction false} UvarintLength(n: nat, k: nat)
    requires k >= 1 && n < Pow128(k)
    ensures |Uvarint(n)| <= k
  {
    if n >= 0x80 {
      assert k >= 2;
      UvarintLength(n / 0x80, k - 1);
    }
  }
}
