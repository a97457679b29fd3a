/** The hand-written contract ABI encoders of eth.go and foc_vectors.go, and a
    reference decoder that follows head offsets (Solidity Contract ABI
    Specification, "Formal Specification of the Encoding"). */
module Abi {
  import opened Bytes

  const WORD := 32

  /** 2^256 */
  function WordRange(): (r: nat)
    ensures r >= TWO_64
  {
    Pow256Values();
    Pow256Monotone(8, WORD);
    Pow256(WORD)
  }

  function Word(n: nat): (w: bytes)
    ensures |w| == WORD
  {
    BigEndian(n, WORD)
  }

  lemma WordRoundTrip(n: nat)
    requires n < WordRange()
    ensures FromBigEndian(Word(n)) == n
  {
    BigEndianRoundTrip(n, WORD);
  }

  // ------------------------------------------------------------ word encoders

  function Abs(n: int): nat {
    if n < 0 then -n else n
  }

  /** A missing number and one wider than 256 bits become zero; the sign is lost. */
  function EncodeBigInt(n: Option<int>): (w: bytes)
    ensures |w| == WORD
  {
    if n.Some? && Abs(n.value) < WordRange() then Word(Abs(n.value)) else Zeros(WORD)
  }

  /** What the word of EncodeBigInt stands for. */
  function WordValue(n: int): (v: nat)
    ensures v < WordRange()
  {
    if Abs(n) < WordRange() then Abs(n) else 0
  }

  lemma {:induction false} ZerosValue(k: nat)
    ensures FromBigEndian(Zeros(k)) == 0
  {
    if k > 0 {
      ZerosValue(k - 1);
      assert Zeros(k)[..k - 1] == Zeros(k - 1);
    }
  }

  lemma EncodedValue(n: int)
    ensures FromBigEndian(EncodeBigInt(Some(n))) == WordValue(n)
  {
    ZerosValue(WORD);
    if Abs(n) < WordRange() {
      BigEndianRoundTrip(Abs(n), WORD);
    }
  }

  /** The word carries the number exactly when it is a uint256. */
  lemma EncodeBigIntExact(n: int)
    ensures FromBigEndian(EncodeBigInt(Some(n))) == n <==> 0 <= n < WordRange()
  {
    EncodedValue(n);
  }

  /** n shifted right by k bytes. */
  function Shift(n: nat, k: nat): nat {
    if k == 0 then n else Shift(n, k - 1) / 256
  }

  method EncodeUint256(n: nat) returns (w: bytes)
    requires n < TWO_64
    ensures w == EncodeBigInt(Some(n))
  {
    var buf := new byte[32](_ => 0);
    buf[24] := Shift(n, 7) % 256;
    buf[25] := Shift(n, 6) % 256;
    buf[26] := Shift(n, 5) % 256;
    buf[27] := Shift(n, 4) % 256;
    buf[28] := Shift(n, 3) % 256;
    buf[29] := Shift(n, 2) % 256;
    buf[30] := Shift(n, 1) % 256;
    buf[31] := Shift(n, 0) % 256;
    w := buf[..];
    forall i | 0 <= i < 8 ensures w[24 + i] == BigEndian(n, 8)[i] {
      BigEndianByte(n, 8, i);
    }
    assert w == Zeros(24) + BigEndian(n, 8);
    NarrowWord(n);
  }

  lemma {:induction false} ShiftFirst(n: nat, k: nat)
    ensures Shift(n / 256, k) == Shift(n, k + 1)
  {
    if k > 0 {
      ShiftFirst(n, k - 1);
    }
  }

  lemma {:induction false} BigEndianByte(n: nat, k: nat, i: nat)
    requires i < k
    ensures BigEndian(n, k)[i] == Shift(n, k - 1 - i) % 256
  {
    if i < k - 1 {
      BigEndianByte(n / 256, k - 1, i);
      ShiftFirst(n, k - 2 - i);
    }
  }

  lemma {:induction false} LeadingZeros(k: nat, s: bytes)
    ensures FromBigEndian(Zeros(k) + s) == FromBigEndian(s)
  {
    if k == 0 {
      assert Zeros(0) + s == s;
    } else {
      LeadingZeros(k - 1, s);
      LeadingZero(Zeros(k - 1) + s);
      assert Zeros(k) + s == [0] + (Zeros(k - 1) + s);
    }
  }

  lemma NarrowWord(n: nat)
    requires n < TWO_64
    ensures Zeros(24) + BigEndian(n, 8) == EncodeBigInt(Some(n))
  {
    hide BigEndian;
    var w := Zeros(24) + BigEndian(n, 8);
    Pow256Values();
    BigEndianRoundTrip(n, 8);
    LeadingZeros(24, BigEndian(n, 8));
    FromBigEndianRoundTrip(w);
  }

  /** An address shorter than 20 bytes becomes zero, a longer one is cut. */
  function EncodeAddress(addr: bytes): (w: bytes)
    ensures |w| == WORD
  {
    if |addr| >= 20 then Zeros(12) + addr[..20] else Zeros(WORD)
  }

  function AddressValue(addr: bytes): (a: bytes)
    ensures |a| == 20
  {
    if |addr| >= 20 then addr[..20] else Zeros(20)
  }

  lemma EncodedAddress(addr: bytes)
    ensures EncodeAddress(addr) == Zeros(12) + AddressValue(addr)
  {
  }

  lemma AddressInjective(a: bytes, b: bytes)
    requires |a| == |b| == 20 && EncodeAddress(a) == EncodeAddress(b)
    ensures a == b
  {
    assert a[..20] == a && b[..20] == b;
    SplitEqual(Zeros(12), a, Zeros(12), b);
  }

  method BuildCalldata(selector: bytes, args: seq<bytes>) returns (buf: bytes)
    ensures buf == selector + Concat(args)
  {
    buf := selector;
    for i := 0 to |args|
      invariant buf == selector + Concat(args[..i])
    {
      ConcatSnoc(args[..i], args[i]);
      assert args[..i + 1] == args[..i] + [args[i]];
      buf := buf + args[i];
    }
    assert args[..|args|] == args;
  }

  // ----------------------------------------------------------- dynamic encoders

  function PadTo32(n: nat): (p: nat)
    ensures n <= p < n + 32 && p % 32 == 0
  {
    if n == 0 then 0 else (n + 31) / 32 * 32
  }

  /** Length, contents, zeros up to a whole number of words. */
  function Blob(data: bytes): (b: bytes)
    ensures |b| == WORD + PadTo32(|data|)
  {
    Word(|data|) + data + Zeros(PadTo32(|data|) - |data|)
  }

  function Blobs(strs: seq<bytes>): (parts: seq<bytes>)
    ensures |parts| == |strs|
  {
    seq(|strs|, i requires 0 <= i < |strs| => Blob(strs[i]))
  }

  /** Where string i starts, counted from the end of the length word. */
  function Offset(strs: seq<bytes>, i: nat): nat
    requires i <= |strs|
  {
    WORD * |strs| + |Concat(Blobs(strs)[..i])|
  }

  function OffsetWords(strs: seq<bytes>): (words: seq<bytes>)
    ensures |words| == |strs|
  {
    seq(|strs|, i requires 0 <= i < |strs| => Word(Offset(strs, i)))
  }

  function StringArray(strs: seq<bytes>): bytes {
    Word(|strs|) + Concat(OffsetWords(strs)) + Concat(Blobs(strs))
  }

  /** n empty string arrays: their count, their offsets, their lengths. */
  function EmptyArrays(n: nat): bytes {
    Word(n) + Concat(EmptyOffsets(n)) + Zeros(WORD * n)
  }

  function EmptyOffsets(n: nat): (words: seq<bytes>)
    ensures |words| == n
  {
    seq(n, i requires 0 <= i < n => Word(WORD * n + WORD * i))
  }

  lemma NumberWord(n: nat)
    requires n < WordRange()
    ensures EncodeBigInt(Some(n)) == Word(n)
  {
  }

  lemma SmallWord(n: nat)
    requires n < TWO_63
    ensures EncodeBigInt(Some(n)) == Word(n)
  {
  }

  method EncodeBytes(data: bytes) returns (buf: bytes)
    requires |data| + 63 < TWO_63
    ensures buf == Blob(data)
  {
    SmallWord(|data|);
    buf := EncodeBigInt(Some(|data|));
    buf := buf + data;
    var pad := PadTo32(|data|) - |data|;
    if pad > 0 {
      buf := buf + Zeros(pad);
    }
  }

  method EncodeStringArray(strs: seq<bytes>) returns (buf: bytes)
    requires |StringArray(strs)| < TWO_63
    ensures buf == StringArray(strs)
  {
    hide EncodeBigInt, Word, Offset, OffsetWords, Blobs, Concat;
    var n := |strs|;
    StringArrayLength(strs);
    SmallWord(n);
    buf := EncodeBigInt(Some(n));

    OffsetBase(strs);
    var offsets: seq<nat> := [];
    var currentOffset := n * 32;
    for i := 0 to n
      invariant |offsets| == i
      invariant forall j :: 0 <= j < i ==> offsets[j] == Offset(strs, j)
      invariant currentOffset == Offset(strs, i)
    {
      offsets := offsets + [currentOffset];
      currentOffset := currentOffset + 32 + PadTo32(|strs[i]|);
      OffsetStep(strs, i);
    }

    for i := 0 to n
      invariant buf == Word(n) + Concat(OffsetWords(strs)[..i])
    {
      OffsetWordStep(strs, i);
      buf := buf + EncodeBigInt(Some(offsets[i]));
    }
    assert OffsetWords(strs)[..n] == OffsetWords(strs);

    for i := 0 to n
      invariant buf == Word(n) + Concat(OffsetWords(strs)) + Concat(Blobs(strs)[..i])
    {
      BlobStep(strs, i);
      ghost var before := buf;
      buf := buf + EncodeBigInt(Some(|strs[i]|));
      var data := strs[i];
      buf := buf + data;
      var pad := PadTo32(|data|) - |data|;
      if pad > 0 {
        buf := buf + Zeros(pad);
      }
      assert buf == before + Blob(data);
    }
    assert Blobs(strs)[..n] == Blobs(strs);
  }

  lemma OffsetBase(strs: seq<bytes>)
    ensures Offset(strs, 0) == WORD * |strs|
    ensures Concat(OffsetWords(strs)[..0]) == [] && Concat(Blobs(strs)[..0]) == []
  {
  }

  lemma OffsetStep(strs: seq<bytes>, i: nat)
    requires i < |strs|
    ensures Offset(strs, i + 1) == Offset(strs, i) + 32 + PadTo32(|strs[i]|)
  {
    ConcatTake(Blobs(strs), i);
  }

  lemma OffsetWordStep(strs: seq<bytes>, i: nat)
    requires i < |strs| && Offset(strs, |strs|) < TWO_63
    ensures Concat(OffsetWords(strs)[..i + 1])
         == Concat(OffsetWords(strs)[..i]) + EncodeBigInt(Some(Offset(strs, i)))
  {
    OffsetMonotone(strs, i);
    SmallWord(Offset(strs, i));
    ConcatTake(OffsetWords(strs), i);
  }

  lemma BlobStep(strs: seq<bytes>, i: nat)
    requires i < |strs| && Offset(strs, |strs|) < TWO_63
    ensures Concat(Blobs(strs)[..i + 1]) == Concat(Blobs(strs)[..i]) + Blob(strs[i])
    ensures EncodeBigInt(Some(|strs[i]|)) == Word(|strs[i]|)
  {
    BlobLength(strs, i);
    SmallWord(|strs[i]|);
    ConcatTake(Blobs(strs), i);
  }

  method AbiEncodeEmptyStringArrayArray(n: nat) returns (buf: bytes)
    requires |EmptyArrays(n)| < TWO_63
    ensures buf == EmptyArrays(n)
  {
    hide EncodeBigInt, Word;
    SmallWord(n);
    buf := EncodeBigInt(Some(n));
    var base := n * 32;
    EmptyArraysLength(n);
    for i := 0 to n
      invariant buf == Word(n) + Concat(EmptyOffsets(n)[..i])
    {
      SmallWord(base + i * 32);
      ConcatTake(EmptyOffsets(n), i);
      buf := buf + EncodeBigInt(Some(base + i * 32));
    }
    assert EmptyOffsets(n)[..n] == EmptyOffsets(n);
    buf := AppendZeroWords(buf, n);
  }

  method AppendZeroWords(before: bytes, n: nat) returns (buf: bytes)
    ensures buf == before + Zeros(WORD * n)
  {
    hide EncodeBigInt;
    ZeroLength();
    buf := before;
    for i := 0 to n
      invariant buf == before + Zeros(WORD * i)
    {
      ZerosGrow(i);
      assert (before + Zeros(WORD * i)) + Zeros(WORD) == before + (Zeros(WORD * i) + Zeros(WORD));
      buf := buf + EncodeBigInt(Some(0));
    }
  }

  lemma ZeroLength()
    ensures EncodeBigInt(Some(0)) == Zeros(WORD)
  {
    SmallWord(0);
    ZeroWord();
  }

  lemma ZerosGrow(i: nat)
    ensures Zeros(WORD * i) + Zeros(WORD) == Zeros(WORD * (i + 1))
  {
  }

  lemma ZeroWord()
    ensures Word(0) == Zeros(WORD)
  {
    ZerosValue(WORD);
    FromBigEndianRoundTrip(Zeros(WORD));
  }

  lemma ConcatTake(parts: seq<bytes>, i: nat)
    requires i < |parts|
    ensures Concat(parts[..i + 1]) == Concat(parts[..i]) + parts[i]
  {
    assert parts[..i + 1] == parts[..i] + [parts[i]];
    ConcatSnoc(parts[..i], parts[i]);
  }

  lemma {:induction false} ConcatSplit(parts: seq<bytes>, i: nat)
    requires i <= |parts|
    ensures Concat(parts) == Concat(parts[..i]) + Concat(parts[i..])
  {
    if i == 0 {
      assert parts[0..] == parts;
    } else {
      ConcatSplit(parts, i - 1);
      ConcatTake(parts, i - 1);
      assert parts[i - 1..][1..] == parts[i..];
    }
  }

  lemma {:induction false} ConcatWords(words: seq<bytes>)
    requires forall i :: 0 <= i < |words| ==> |words[i]| == WORD
    ensures |Concat(words)| == WORD * |words|
  {
    if words != [] {
      ConcatWords(words[1..]);
    }
  }

  lemma HeadLengths(strs: seq<bytes>, n: nat)
    ensures |Concat(OffsetWords(strs))| == WORD * |strs|
    ensures |Concat(EmptyOffsets(n))| == WORD * n
  {
    ConcatWords(OffsetWords(strs));
    ConcatWords(EmptyOffsets(n));
  }

  lemma StringArrayLength(strs: seq<bytes>)
    ensures |StringArray(strs)| == WORD + Offset(strs, |strs|)
    ensures |strs| <= |StringArray(strs)|
  {
    ConcatWords(OffsetWords(strs));
    assert Blobs(strs)[..|strs|] == Blobs(strs);
  }

  lemma OffsetMonotone(strs: seq<bytes>, i: nat)
    requires i <= |strs|
    ensures Offset(strs, i) <= Offset(strs, |strs|)
  {
    ConcatSplit(Blobs(strs), i);
    assert Blobs(strs)[..|strs|] == Blobs(strs);
  }

  lemma BlobLength(strs: seq<bytes>, i: nat)
    requires i < |strs|
    ensures |strs[i]| <= Offset(strs, |strs|)
  {
    ConcatTake(Blobs(strs), i);
    OffsetMonotone(strs, i + 1);
  }

  lemma EmptyArraysLength(n: nat)
    ensures |EmptyArrays(n)| == WORD + 2 * WORD * n
  {
    hide Word, Concat;
    ConcatWords(EmptyOffsets(n));
  }

  // --------------------------------------------------------- reference decoder

  function WordAt(buf: bytes, pos: nat): Option<nat> {
    if pos + WORD <= |buf| then Some(FromBigEndian(buf[pos..pos + WORD])) else None
  }

  function AddressAt(buf: bytes, pos: nat): Option<bytes> {
    if pos + WORD <= |buf| && buf[pos..pos + 12] == Zeros(12) then Some(buf[pos + 12..pos + WORD]) else None
  }

  /** The length word and as many bytes, padded with zeros to whole words. */
  function BytesAt(buf: bytes, pos: nat): Option<bytes> {
    match WordAt(buf, pos)
    case None => None
    case Some(n) =>
      var start := pos + WORD;
      if start + PadTo32(n) <= |buf| && buf[start + n..start + PadTo32(n)] == Zeros(PadTo32(n) - n)
      then Some(buf[start..start + n])
      else None
  }

  /** Elements i, i + 1, ..., n - 1 of an array whose heads start at base. */
  function StringsFrom(buf: bytes, base: nat, i: nat, n: nat): Option<seq<bytes>>
    requires i <= n
    decreases n - i
  {
    if i == n then Some([])
    else
      match WordAt(buf, base + WORD * i)
      case None => None
      case Some(offset) =>
        match (BytesAt(buf, base + offset), StringsFrom(buf, base, i + 1, n))
        case (Some(s), Some(others)) => Some([s] + others)
        case _ => None
  }

  function StringArrayAt(buf: bytes, pos: nat): Option<seq<bytes>> {
    match WordAt(buf, pos)
    case None => None
    case Some(n) => StringsFrom(buf, pos + WORD, 0, n)
  }

  function ArraysFrom(buf: bytes, base: nat, i: nat, n: nat): Option<seq<seq<bytes>>>
    requires i <= n
    decreases n - i
  {
    if i == n then Some([])
    else
      match WordAt(buf, base + WORD * i)
      case None => None
      case Some(offset) =>
        match (StringArrayAt(buf, base + offset), ArraysFrom(buf, base, i + 1, n))
        case (Some(s), Some(others)) => Some([s] + others)
        case _ => None
  }

  function ArraysAt(buf: bytes, pos: nat): Option<seq<seq<bytes>>> {
    match WordAt(buf, pos)
    case None => None
    case Some(n) => ArraysFrom(buf, pos + WORD, 0, n)
  }

  function UintsFrom(buf: bytes, base: nat, n: nat): Option<seq<nat>>
    decreases n
  {
    if n == 0 then Some([])
    else
      match (WordAt(buf, base), UintsFrom(buf, base + WORD, n - 1))
      case (Some(v), Some(others)) => Some([v] + others)
      case _ => None
  }

  function UintArrayAt(buf: bytes, pos: nat): Option<seq<nat>> {
    match WordAt(buf, pos)
    case None => None
    case Some(n) => UintsFrom(buf, pos + WORD, n)
  }

  /** Follows the offset in the head slot at pos, which counts from the start
      of the tuple. */
  function Follow<T>(buf: bytes, pos: nat, read: (bytes, nat) -> Option<T>): Option<T> {
    match WordAt(buf, pos)
    case None => None
    case Some(offset) => read(buf, offset)
  }

  // -------------------------------------------------- reading what was written

  predicate At(buf: bytes, pos: nat, s: bytes) {
    pos + |s| <= |buf| && buf[pos..pos + |s|] == s
  }

  lemma AtSplit(buf: bytes, pos: nat, a: bytes, b: bytes)
    requires At(buf, pos, a + b)
    ensures At(buf, pos, a) && At(buf, pos + |a|, b)
  {
    var s := a + b;
    assert buf[pos..pos + |a|] == buf[pos..pos + |s|][..|a|];
    assert buf[pos + |a|..pos + |s|] == buf[pos..pos + |s|][|a|..];
  }

  lemma AtConcat(buf: bytes, pos: nat, parts: seq<bytes>, i: nat)
    requires i < |parts| && At(buf, pos, Concat(parts))
    ensures At(buf, pos + |Concat(parts[..i])|, parts[i])
  {
    ConcatSplit(parts, i);
    AtSplit(buf, pos, Concat(parts[..i]), Concat(parts[i..]));
    AtSplit(buf, pos + |Concat(parts[..i])|, parts[i], Concat(parts[i..][1..]));
  }

  lemma AtWords(buf: bytes, pos: nat, words: seq<bytes>, i: nat)
    requires forall j :: 0 <= j < |words| ==> |words[j]| == WORD
    requires i < |words| && At(buf, pos, Concat(words))
    ensures At(buf, pos + WORD * i, words[i])
  {
    ConcatWords(words[..i]);
    AtConcat(buf, pos, words, i);
  }

  lemma WordHere(buf: bytes, pos: nat, n: nat)
    requires n < WordRange() && At(buf, pos, Word(n))
    ensures WordAt(buf, pos) == Some(n)
  {
    BigEndianRoundTrip(n, WORD);
  }

  lemma BlobHere(buf: bytes, pos: nat, data: bytes)
    requires |data| < TWO_63 && At(buf, pos, Blob(data))
    ensures BytesAt(buf, pos) == Some(data)
  {
    var pad := Zeros(PadTo32(|data|) - |data|);
    assert Blob(data) == Word(|data|) + (data + pad);
    AtSplit(buf, pos, Word(|data|), data + pad);
    WordHere(buf, pos, |data|);
    AtSplit(buf, pos + WORD, data, pad);
  }

  lemma {:induction false} StringsHere(buf: bytes, base: nat, strs: seq<bytes>, i: nat)
    requires i <= |strs| && Offset(strs, |strs|) < TWO_63
    requires At(buf, base, Concat(OffsetWords(strs)))
    requires At(buf, base + WORD * |strs|, Concat(Blobs(strs)))
    ensures StringsFrom(buf, base, i, |strs|) == Some(strs[i..])
    decreases |strs| - i
  {
    hide Blob, Word, BytesAt, WordAt, At;
    if i < |strs| {
      AtWords(buf, base, OffsetWords(strs), i);
      OffsetMonotone(strs, i);
      WordHere(buf, base + WORD * i, Offset(strs, i));
      AtConcat(buf, base + WORD * |strs|, Blobs(strs), i);
      BlobLength(strs, i);
      assert base + Offset(strs, i) == base + WORD * |strs| + |Concat(Blobs(strs)[..i])|;
      BlobHere(buf, base + Offset(strs, i), strs[i]);
      StringsHere(buf, base, strs, i + 1);
      assert strs[i..] == [strs[i]] + strs[i + 1..];
    } else {
      assert strs[i..] == [];
    }
  }

  /** Wherever an encoded string array stands in a buffer, following its
      offsets gives the strings back. */
  lemma StringArrayHere(buf: bytes, pos: nat, strs: seq<bytes>)
    requires |StringArray(strs)| < TWO_63 && At(buf, pos, StringArray(strs))
    ensures StringArrayAt(buf, pos) == Some(strs)
  {
    hide Word, Concat, At, OffsetWords, Blobs;
    StringArrayLength(strs);
    var heads, tails := Concat(OffsetWords(strs)), Concat(Blobs(strs));
    assert StringArray(strs) == Word(|strs|) + (heads + tails);
    AtSplit(buf, pos, Word(|strs|), heads + tails);
    WordHere(buf, pos, |strs|);
    AtSplit(buf, pos + WORD, heads, tails);
    HeadLengths(strs, 0);
    StringsHere(buf, pos + WORD, strs, 0);
    assert strs[0..] == strs;
  }

  function EmptyLists(n: nat): seq<seq<bytes>> {
    seq(n, _ => [])
  }

  lemma EmptyArrayHere(buf: bytes, pos: nat)
    requires At(buf, pos, Zeros(WORD))
    ensures StringArrayAt(buf, pos) == Some([])
  {
    ZeroWord();
    WordHere(buf, pos, 0);
  }

  lemma ZeroSlot(buf: bytes, pos: nat, i: nat, n: nat)
    requires i < n && At(buf, pos, Zeros(WORD * n))
    ensures At(buf, pos + WORD * i, Zeros(WORD))
  {
    hide At;
    var before, after := Zeros(WORD * i), Zeros(WORD * (n - i - 1));
    assert Zeros(WORD * n) == before + (Zeros(WORD) + after);
    AtSplit(buf, pos, before, Zeros(WORD) + after);
    AtSplit(buf, pos + WORD * i, Zeros(WORD), after);
  }

  lemma EmptyArrayAt(buf: bytes, base: nat, i: nat, n: nat)
    requires i < n && 2 * WORD * n < TWO_63
    requires At(buf, base, Concat(EmptyOffsets(n))) && At(buf, base + WORD * n, Zeros(WORD * n))
    ensures var offset := WORD * n + WORD * i;
            WordAt(buf, base + WORD * i) == Some(offset) && StringArrayAt(buf, base + offset) == Some([])
  {
    hide Word, At, WordAt, StringArrayAt, Concat, Zeros, WordRange;
    var offset := WORD * n + WORD * i;
    assert EmptyOffsets(n)[i] == Word(offset);
    AtWords(buf, base, EmptyOffsets(n), i);
    WordHere(buf, base + WORD * i, offset);
    assert (base + WORD * n) + WORD * i == base + offset;
    ZeroSlot(buf, base + WORD * n, i, n);
    EmptyArrayHere(buf, base + offset);
  }

  lemma {:induction false} EmptyArraysFrom(buf: bytes, base: nat, i: nat, n: nat)
    requires i <= n && 2 * WORD * n < TWO_63
    requires At(buf, base, Concat(EmptyOffsets(n))) && At(buf, base + WORD * n, Zeros(WORD * n))
    ensures ArraysFrom(buf, base, i, n) == Some(EmptyLists(n - i))
    decreases n - i
  {
    hide Word, At, WordAt, StringArrayAt, Concat, Zeros, EmptyOffsets;
    if i < n {
      EmptyArrayAt(buf, base, i, n);
      EmptyArraysFrom(buf, base, i + 1, n);
      assert EmptyLists(n - i) == [[]] + EmptyLists(n - i - 1);
    } else {
      assert EmptyLists(0) == [];
    }
  }

  lemma EmptyArraysHere(buf: bytes, pos: nat, n: nat)
    requires |EmptyArrays(n)| < TWO_63 && At(buf, pos, EmptyArrays(n))
    ensures ArraysAt(buf, pos) == Some(EmptyLists(n))
  {
    hide Word, Concat, At, EmptyOffsets;
    EmptyArraysLength(n);
    var heads, tails := Concat(EmptyOffsets(n)), Zeros(WORD * n);
    assert EmptyArrays(n) == Word(n) + (heads + tails);
    AtSplit(buf, pos, Word(n), heads + tails);
    WordHere(buf, pos, n);
    HeadLengths([], n);
    AtSplit(buf, pos + WORD, heads, tails);
    EmptyArraysFrom(buf, pos + WORD, 0, n);
  }

  lemma AddressHere(buf: bytes, pos: nat, addr: bytes)
    requires At(buf, pos, EncodeAddress(addr))
    ensures AddressAt(buf, pos) == Some(AddressValue(addr))
  {
    EncodedAddress(addr);
    AtSplit(buf, pos, Zeros(12), AddressValue(addr));
  }

  lemma NumberHere(buf: bytes, pos: nat, n: int)
    requires At(buf, pos, EncodeBigInt(Some(n)))
    ensures WordAt(buf, pos) == Some(WordValue(n))
  {
    EncodedValue(n);
  }

}
