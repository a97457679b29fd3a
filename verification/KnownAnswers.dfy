/** Published examples of the encodings the codecs follow: RFC 8949, Appendix A;
    the varint examples of the unsigned-varint specification; the string array
    of the Solidity Contract ABI Specification; and FRC-0069 digests. */
module KnownAnswers {
  import opened Abi
  import opened Bytes
  import opened Cbor
  import opened CborMessages
  import opened PieceCid

  lemma TwoBytes(a: byte, b: byte)
    ensures BigEndian(256 * a + b, 2) == [a, b] && FromBigEndian([a, b]) == 256 * a + b
  {
    assert BigEndian(a, 1) == BigEndian(0, 0) + [a];
    assert [a, b][..1] == [a] && [a][..0] == [];
  }

  lemma FourBytes(a: byte, b: byte, c: byte, d: byte)
    ensures BigEndian(256 * (256 * (256 * a + b) + c) + d, 4) == [a, b, c, d]
  {
    hide BigEndian;
    var n := 256 * (256 * a + b) + c;
    TwoBytes(a, b);
    OneMoreByte(256 * a + b, 2, c);
    OneMoreByte(n, 3, d);
  }

  lemma OneMoreByte(n: nat, k: nat, b: byte)
    ensures BigEndian(256 * n + b, k + 1) == BigEndian(n, k) + [b]
  {
  }

  /** 1, 127, 128, 255, 300 and 16384 in the unsigned-varint specification. */
  lemma VarintExamples()
    ensures Uvarint(1) == [0x01] && Uvarint(127) == [0x7f] && Uvarint(128) == [0x80, 0x01]
    ensures Uvarint(255) == [0xff, 0x01] && Uvarint(300) == [0xac, 0x02] && Uvarint(16384) == [0x80, 0x80, 0x01]
  {
    assert Uvarint(128) == [0x80] + Uvarint(1) && Uvarint(255) == [0xff] + Uvarint(1);
    assert Uvarint(300) == [0xac] + Uvarint(2) && Uvarint(16384) == [0x80] + Uvarint(128);
  }

  // -------------------------------------------------------- RFC 8949, Appendix A

  lemma UnsignedExamples()
    ensures Uint64(0) == [0x00] && Uint64(23) == [0x17] && Uint64(24) == [0x18, 0x18] && Uint64(100) == [0x18, 0x64]
    ensures Uint64(1000) == [0x19, 0x03, 0xe8] && Uint64(1000000) == [0x1a, 0x00, 0x0f, 0x42, 0x40]
  {
    assert BigEndian(24, 1) == [24] && BigEndian(100, 1) == [100];
    TwoBytes(0x03, 0xe8);
    FourBytes(0x00, 0x0f, 0x42, 0x40);
  }

  lemma LargeExample()
    ensures Uint64(18446744073709551615) == [0x1b] + BigEndian(18446744073709551615, 8)
  {
  }

  lemma NegativeExamples()
    ensures CborInt64(-1) == [0x20] && CborInt64(-10) == [0x29] && CborInt64(-100) == [0x38, 0x63]
    ensures CborInt64(-1000) == [0x39, 0x03, 0xe7]
  {
    hide CborInt64;
    NegativeHeader(-1);
    NegativeHeader(-10);
    NegativeHeader(-100);
    NegativeHeader(-1000);
    assert BigEndian(99, 1) == [99];
    TwoBytes(0x03, 0xe7);
  }

  lemma NegativeHeader(v: int)
    requires -TWO_63 <= v < 0
    ensures CborInt64(v) == Header(NEGATIVE_INT, -1 - v)
  {
    hide Header;
    assert Wrap64(Wrap64(-v) - 1) % TWO_64 == -1 - v;
  }

  /** h'01020304', "IETF", [], [1, 2, 3], {}, {1: 2, 3: 4}, false, true, null, and a
      link with tag 42. */
  lemma ItemExamples()
    ensures ByteStringOf([1, 2, 3, 4]) == [0x44, 0x01, 0x02, 0x03, 0x04]
    ensures TextStringOf([0x49, 0x45, 0x54, 0x46]) == [0x64, 0x49, 0x45, 0x54, 0x46]
    ensures ArrayOf([]) == [0x80] && ArrayOf([[0x01], [0x02], [0x03]]) == [0x83, 0x01, 0x02, 0x03]
    ensures MapOf([]) == [0xa0] && MapOf([[0x01], [0x02], [0x03], [0x04]]) == [0xa2, 0x01, 0x02, 0x03, 0x04]
    ensures Bool(false) == [0xf4] && Bool(true) == [0xf5] && NIL == [0xf6]
    ensures Cid([0x01, 0x55]) == [0xd8, 0x2a, 0x43, 0x00, 0x01, 0x55]
  {
    ConcatDisplays([0x01], [0x02], [0x03], [0x04], []);
    assert Header(TAG, 42) == [0xd8] + BigEndian(42, 1);
  }

  /** Filecoin big integers: nothing for 0, else a sign byte and the magnitude. */
  lemma BigIntExamples()
    ensures BigInt(0) == [] && BigInt(100) == [0x00, 0x64] && BigInt(0x1234) == [0x00, 0x12, 0x34]
  {
    assert Minimal(0x1234) == Minimal(0x12) + [0x34];
  }

  // --------------------------------------------- Solidity Contract ABI Specification

  /** 69 and 0x1234 as uint256. */
  lemma WordExamples()
    ensures Word(69) == Zeros(31) + [0x45] && Word(0x1234) == Zeros(30) + [0x12, 0x34]
  {
    SmallestWord(69);
    BytePair(0x12, 0x34);
  }

  lemma {:induction false} ZeroBytes(k: nat)
    ensures BigEndian(0, k) == Zeros(k)
  {
    if k > 0 {
      ZeroBytes(k - 1);
      assert Zeros(k) == Zeros(k - 1) + [0];
    }
  }

  lemma SmallestWord(b: byte)
    ensures Word(b) == Zeros(31) + [b]
  {
    ZeroBytes(31);
  }

  lemma BytePair(a: byte, b: byte)
    ensures Word(256 * a + b) == Zeros(30) + [a, b]
  {
    ZeroBytes(30);
    assert BigEndian(a, 31) == Zeros(30) + [a];
  }

  const ONE: bytes := [0x6f, 0x6e, 0x65]
  const TWO: bytes := [0x74, 0x77, 0x6f]
  const THREE: bytes := [0x74, 0x68, 0x72, 0x65, 0x65]

  /** ["one", "two", "three"]: the count, the offsets 0x60, 0xa0 and 0xe0 counted
      from after the count, and each string behind its length. */
  lemma StringArrayExample()
    ensures StringArray([ONE, TWO, THREE]) ==
            Word(3) + Word(0x60) + Word(0xa0) + Word(0xe0) + Word(3) + ONE + Zeros(29) + Word(3) + TWO + Zeros(29)
            + Word(5) + THREE + Zeros(27)
  {
    hide Word, Zeros, Offset, Concat, OffsetWords, Blobs, Blob;
    var strs := [ONE, TWO, THREE];
    ExampleOffsets();
    ExampleBlobs();
    ConcatDisplays(Word(0x60), Word(0xa0), Word(0xe0), [], []);
    ConcatDisplays(Blob(ONE), Blob(TWO), Blob(THREE), [], []);
    ThreeParts(Word(3) + (Word(0x60) + Word(0xa0) + Word(0xe0)), Word(3), ONE, Zeros(29), Word(3), TWO, Zeros(29),
               Word(5), THREE, Zeros(27));
    assert Word(3) + (Word(0x60) + Word(0xa0) + Word(0xe0)) == Word(3) + Word(0x60) + Word(0xa0) + Word(0xe0);
  }

  lemma ExampleOffsets()
    ensures var strs := [ONE, TWO, THREE];
            && OffsetWords(strs) == [Word(0x60), Word(0xa0), Word(0xe0)]
            && Blobs(strs) == [Blob(ONE), Blob(TWO), Blob(THREE)]
  {
    hide Word, Blob, Concat;
    var strs := [ONE, TWO, THREE];
    OffsetBase(strs);
    OffsetStep(strs, 0);
    OffsetStep(strs, 1);
    assert Offset(strs, 0) == 0x60 && Offset(strs, 1) == 0xa0 && Offset(strs, 2) == 0xe0;
  }

  lemma ExampleBlobs()
    ensures Blob(ONE) == Word(3) + ONE + Zeros(29) && Blob(TWO) == Word(3) + TWO + Zeros(29)
    ensures Blob(THREE) == Word(5) + THREE + Zeros(27)
  {
    hide Word, Zeros;
  }

  lemma ThreeParts(h: bytes, a: bytes, b: bytes, c: bytes, d: bytes, e: bytes, f: bytes, g: bytes, i: bytes, j: bytes)
    ensures h + ((a + b + c) + (d + e + f) + (g + i + j)) == h + a + b + c + d + e + f + g + i + j
  {
    assert (a + b + c) + (d + e + f) == a + b + c + d + e + f;
    assert (a + b + c) + (d + e + f) + (g + i + j) == a + b + c + d + e + f + g + i + j;
  }

  /** Two empty lists: their count, the offsets 0x40 and 0x60, and two lengths 0. */
  lemma EmptyArraysExample()
    ensures EmptyArrays(2) == Word(2) + Word(0x40) + Word(0x60) + Word(0) + Word(0)
  {
    hide Word;
    ZeroWord();
    assert EmptyOffsets(2) == [Word(0x40), Word(0x60)];
    ConcatDisplays(Word(0x40), Word(0x60), [], [], []);
    assert Zeros(64) == Zeros(32) + Zeros(32);
  }

  /** An address stands in the low 20 bytes of its word. */
  lemma AddressExample(addr: bytes)
    requires |addr| == 20
    ensures EncodeAddress(addr) == Zeros(12) + addr
  {
    assert addr[..20] == addr;
  }

  // ------------------------------------------------------------------- FRC-0069

  /** The smallest piece, 128 bytes, holds 127 bytes and has tree height 2. */
  lemma DigestExamples(root: bytes)
    requires |root| == 32
    ensures ReadDigest([0x00, 0x02] + root) == Some(Piece(128, 127, root))
    ensures ReadDigest([0x7e, 0x02] + root) == Some(Piece(128, 1, root))
    ensures Capacity(1024) == 1016
  {
    assert Pow2(2) == 4;
    assert ([0x00, 0x02] + root)[2..] == root && ([0x7e, 0x02] + root)[2..] == root;
    assert ([0x00, 0x02] + root)[1] == 2 && ([0x7e, 0x02] + root)[1] == 2;
  }
}
