/** The PieceCIDv2 digest of commp.go: padding as a varint, one byte of tree
    height, then the 32-byte root (FRC-0069). */
module PieceCid {
  import opened Bytes

  function Pow2(k: nat): (p: nat)
    ensures p > 0
  {
    if k == 0 then 1 else 2 * Pow2(k - 1)
  }

  function TrailingZeros(n: nat): nat
    requires n > 0
  {
    if n % 2 == 1 then 0 else 1 + TrailingZeros(n / 2)
  }

  lemma {:induction false} TrailingZerosOfPow2(k: nat)
    ensures TrailingZeros(Pow2(k)) == k
  {
    if k > 0 {
      TrailingZerosOfPow2(k - 1);
    }
  }

  lemma {:induction false} Pow2Sum(j: nat, k: nat)
    ensures Pow2(j + k) == Pow2(j) * Pow2(k)
  {
    if j > 0 {
      Pow2Sum(j - 1, k);
    }
  }

  lemma {:induction false} Pow2Monotone(j: nat, k: nat)
    requires j <= k
    ensures Pow2(j) <= Pow2(k)
  {
    if j < k {
      Pow2Monotone(j, k - 1);
    }
  }

  lemma Pow2Small()
    ensures Pow2(5) == 32 && Pow2(7) == 128
  {
    assert Pow2(4) == 16;
    assert Pow2(6) == 64;
  }

  /** Bytes of payload a padded piece has room for. */
  function Capacity(pieceSize: nat): nat {
    pieceSize / 128 * 127
  }

  /** What a digest says: the padded size, the payload length, the root. */
  datatype Piece = Piece(size: nat, payload: int, root: bytes)

  function ReadDigest(digest: bytes): Option<Piece> {
    match ReadUvarint(digest)
    case None => None
    case Some((padding, n)) =>
      if |digest| != n + 1 + 32 then None
      else
        var size := 32 * Pow2(digest[n]);
        Some(Piece(size, Capacity(size) - padding, digest[n + 1..]))
  }

  /** Go's binary.PutUvarint. */
  method PutUvarint(buf: array<byte>, x: nat) returns (n: nat)
    requires buf.Length == 10 && x < TWO_64
    modifies buf
    ensures n == |Uvarint(x)| && n <= 10 && buf[..n] == Uvarint(x)
  {
    VarintFits(x);
    n := 0;
    var rest := x;
    while rest >= 0x80
      invariant n + |Uvarint(rest)| <= 10
      invariant buf[..n] + Uvarint(rest) == Uvarint(x)
      decreases rest
    {
      buf[n] := rest % 0x80 + 0x80;
      assert buf[..n + 1] == buf[..n] + [buf[n]];
      rest := rest / 0x80;
      n := n + 1;
    }
    buf[n] := rest;
    assert buf[..n + 1] == buf[..n] + [buf[n]];
    n := n + 1;
  }

  lemma VarintFits(x: nat)
    requires x < TWO_64
    ensures |Uvarint(x)| <= 10
  {
    assert Pow128(3) == 128 * Pow128(2) == 128 * 128 * Pow128(1);
    assert Pow128(5) == 128 * Pow128(4) == 128 * 128 * Pow128(3);
    assert Pow128(7) == 128 * Pow128(6) == 128 * 128 * Pow128(5);
    assert Pow128(9) == 128 * Pow128(8) == 128 * 128 * Pow128(7);
    UvarintLength(x, 10);
  }

  /** For a padded size 2^k and a payload that fits, reading the digest gives
      back size, payload length and root. For a payload that does not fit, the
      unsigned subtraction wraps and the length that is read is not the payload's. */
  method PieceDigest(k: nat, payload: nat, root: bytes) returns (out: bytes)
    requires 7 <= k < 64 && payload < TWO_63 && |root| == 32
    ensures ReadDigest(out).Some?
    ensures ReadDigest(out).value.size == Pow2(k) && ReadDigest(out).value.root == root
    ensures ReadDigest(out).value.payload == payload <==> payload <= Capacity(Pow2(k))
  {
    hide Pow2, TrailingZeros, ReadDigest, Uvarint;
    var size := Pow2(k);
    TrailingZerosOfPow2(k);
    var height := TrailingZeros(size) - 5;
    var padding := (Capacity(size) - payload) % TWO_64;
    SizeInRange(k);
    var buf := new byte[10](_ => 0);
    var n := PutUvarint(buf, padding);
    var digest := new byte[n + 1 + 32](_ => 0);
    forall i | 0 <= i < n {
      digest[i] := buf[i];
    }
    digest[n] := height;
    forall i | 0 <= i < 32 {
      digest[n + 1 + i] := root[i];
    }
    out := digest[..];
    assert out[..n] == buf[..n];
    assert out == Uvarint(padding) + [height] + root;
    DigestReads(k, payload, root, out);
  }

  lemma DigestReads(k: nat, payload: nat, root: bytes, out: bytes)
    requires 7 <= k < 64 && payload < TWO_63 && |root| == 32
    requires out == Uvarint((Capacity(Pow2(k)) - payload) % TWO_64) + [k - 5] + root
    ensures ReadDigest(out).Some?
    ensures ReadDigest(out).value.size == Pow2(k) && ReadDigest(out).value.root == root
    ensures ReadDigest(out).value.payload == payload <==> payload <= Capacity(Pow2(k))
  {
    hide Pow2, Uvarint, Capacity;
    SizeInRange(k);
    var padding := (Capacity(Pow2(k)) - payload) % TWO_64;
    var n := |Uvarint(padding)|;
    UvarintRoundTrip(padding, [k - 5] + root);
    assert out == Uvarint(padding) + ([k - 5] + root);
    assert out[n] == k - 5 && out[n + 1..] == root;
  }

  lemma LargestSize()
    ensures Pow2(63) == TWO_63
  {
    Pow2Small();
    Pow2Sum(7, 7);
    Pow2Sum(14, 7);
    Pow2Sum(21, 21);
    Pow2Sum(42, 21);
  }

  lemma SizeInRange(k: nat)
    requires 7 <= k < 64
    ensures 32 * Pow2(k - 5) == Pow2(k) && Capacity(Pow2(k)) < TWO_64
  {
    Pow2Small();
    Pow2Sum(5, k - 5);
    LargestSize();
    Pow2Monotone(k, 63);
    assert Capacity(Pow2(k)) <= Pow2(k);
  }
}
