/** CBOR data items (RFC 8949): a header writer and reader from section 3, a
    decoder for definite-length items, and the item builders of
    cbor_helpers.go with what their output decodes to. */
module Cbor {
  import opened Bytes

  const UNSIGNED_INT := 0
  const NEGATIVE_INT := 1
  const BYTE_STRING := 2
  const TEXT_STRING := 3
  const ARRAY := 4
  const MAP := 5
  const TAG := 6

  const FALSE_CODE := 20
  const TRUE_CODE := 21
  const NULL_CODE := 22

  // ------------------------------------------------------------------ headers

  /** The shortest header for major type m and argument v (section 4.2.1). */
  function Header(m: nat, v: nat): (s: bytes)
    requires m < 8 && v < TWO_64
    ensures 1 <= |s| <= 9
  {
    if v < 24 then [32 * m + v]
    else if v < 0x100 then [32 * m + 24] + BigEndian(v, 1)
    else if v < 0x1_0000 then [32 * m + 25] + BigEndian(v, 2)
    else if v < 0x1_0000_0000 then [32 * m + 26] + BigEndian(v, 4)
    else [32 * m + 27] + BigEndian(v, 8)
  }

  /** A header as read: major type, argument, and the bytes it took. */
  datatype Head = Head(major: nat, value: nat, size: nat)

  /** How many argument bytes follow an initial byte with additional info `low`. */
  function ArgumentBytes(low: nat): Option<nat> {
    if low < 24 then Some(0)
    else if low == 24 then Some(1)
    else if low == 25 then Some(2)
    else if low == 26 then Some(4)
    else if low == 27 then Some(8)
    else None
  }

  /** The least argument for which k bytes are the shortest form. */
  function ShortestFrom(k: nat): nat {
    if k == 1 then 24 else if k == 2 then 0x100 else if k == 4 then 0x1_0000 else 0x1_0000_0000
  }

  /** Reads one header. A strict reader refuses an argument that has a shorter
      form; a lenient one, as section 3 allows, does not. */
  function ReadHeader(s: bytes, strict: bool): (r: Option<Head>)
    ensures r.Some? ==> r.value.major < 8 && r.value.value < TWO_64 && 1 <= r.value.size <= |s|
  {
    if s == [] then None
    else
      var low := s[0] % 32;
      match ArgumentBytes(low)
      case None => None
      case Some(k) =>
        if |s| < 1 + k then None
        else if k == 0 then Some(Head(s[0] / 32, low, 1))
        else
          Pow256Values();
          var v := FromBigEndian(s[1..1 + k]);
          if strict && v < ShortestFrom(k) then None
          else
            assert v < Pow256(k) <= Pow256(8) by { Pow256Monotone(k, 8); }
            Some(Head(s[0] / 32, v, 1 + k))
  }

  lemma InitialByte(m: nat, low: nat)
    requires low < 32
    ensures (32 * m + low) / 32 == m && (32 * m + low) % 32 == low
  {
  }

  function LowBits(k: nat): (low: nat)
    requires k in {1, 2, 4, 8}
    ensures 24 <= low < 28 && ArgumentBytes(low) == Some(k)
  {
    if k == 1 then 24 else if k == 2 then 25 else if k == 4 then 26 else 27
  }

  lemma ReadLongHeader(m: nat, v: nat, k: nat, argument: bytes, rest: bytes, strict: bool)
    requires m < 8 && k in {1, 2, 4, 8} && v < Pow256(k)
    requires argument == BigEndian(v, k)
    requires strict ==> v >= ShortestFrom(k)
    ensures ReadHeader([32 * m + LowBits(k)] + argument + rest, strict) == Some(Head(m, v, 1 + k))
  {
    hide BigEndian, FromBigEndian;
    var s := [32 * m + LowBits(k)] + argument + rest;
    assert s[0] == 32 * m + LowBits(k);
    InitialByte(m, LowBits(k));
    assert s[1..1 + k] == argument;
    BigEndianRoundTrip(v, k);
  }

  lemma ReadShortHeader(m: nat, v: nat, rest: bytes, strict: bool)
    requires m < 8 && v < 24
    ensures ReadHeader([32 * m + v] + rest, strict) == Some(Head(m, v, 1))
  {
    var s := [32 * m + v] + rest;
    assert s[0] == 32 * m + v;
    InitialByte(m, v);
  }

  /** A written header is read back, by either reader, whatever follows it. */
  lemma HeaderRoundTrip(m: nat, v: nat, rest: bytes, strict: bool)
    requires m < 8 && v < TWO_64
    ensures ReadHeader(Header(m, v) + rest, strict) == Some(Head(m, v, |Header(m, v)|))
  {
    hide BigEndian, ReadHeader;
    Pow256Values();
    if v < 24 {
      ReadShortHeader(m, v, rest, strict);
    } else {
      var k := if v < 0x100 then 1 else if v < 0x1_0000 then 2 else if v < 0x1_0000_0000 then 4 else 8;
      assert Header(m, v) == [32 * m + LowBits(k)] + BigEndian(v, k);
      ReadLongHeader(m, v, k, BigEndian(v, k), rest, strict);
    }
  }

  /** A strict reader takes nothing but the shortest form. */
  lemma StrictIsShortest(s: bytes)
    requires ReadHeader(s, true).Some?
    ensures var h := ReadHeader(s, true).value;
            s[..h.size] == Header(h.major, h.value)
  {
    hide BigEndian, FromBigEndian;
    var h := ReadHeader(s, true).value;
    var k := h.size - 1;
    InitialParts(s[0]);
    if k > 0 {
      Pow256Values();
      FromBigEndianRoundTrip(s[1..h.size]);
      assert s[..h.size] == [s[0]] + s[1..h.size];
    } else {
      assert s[..1] == [s[0]];
    }
  }

  lemma InitialParts(b: byte)
    ensures b == 32 * (b / 32) + b % 32 && b / 32 < 8
  {
  }

  /** Reading depends only on the bytes taken: a header read from a prefix is
      the header of the whole. */
  lemma HeaderOfPrefix(s: bytes, n: nat, strict: bool)
    requires n <= |s| && ReadHeader(s[..n], strict).Some?
    ensures ReadHeader(s, strict) == ReadHeader(s[..n], strict)
  {
    var k := ArgumentBytes(s[..n][0] % 32).value;
    assert s[..n][1..1 + k] == s[1..1 + k];
  }

  // -------------------------------------------------------------------- items

  datatype Item =
    | UInt(n: nat)
    | NInt(n: nat)  // the integer -1 - n
    | ByteString(data: bytes)
    | TextString(text: bytes)
    | Array(items: seq<Item>)
    | Map(entries: seq<Item>)  // key, value, key, value, ...
    | Tagged(tag: nat, item: Item)
    | Simple(code: nat)

  const NULL := Simple(NULL_CODE)

  /** Decodes one item from the front and returns what is left. Indefinite
      lengths and the two-byte and floating forms of major type 7 are refused. */
  function Decode(s: bytes): (r: Option<(Item, bytes)>)
    ensures r.Some? ==> |r.value.1| < |s|
    decreases |s|, 0
  {
    match ReadHeader(s, false)
    case None => None
    case Some(Head(m, v, size)) =>
      var rest := s[size..];
      if m == UNSIGNED_INT then Some((UInt(v), rest))
      else if m == NEGATIVE_INT then Some((NInt(v), rest))
      else if m == BYTE_STRING then
        if v <= |rest| then Some((ByteString(rest[..v]), rest[v..])) else None
      else if m == TEXT_STRING then
        if v <= |rest| then Some((TextString(rest[..v]), rest[v..])) else None
      else if m == ARRAY then
        match DecodeMany(rest, v)
        case None => None
        case Some((items, left)) => Some((Array(items), left))
      else if m == MAP then
        match DecodeMany(rest, 2 * v)
        case None => None
        case Some((items, left)) => Some((Map(items), left))
      else if m == TAG then
        match Decode(rest)
        case None => None
        case Some((item, left)) => Some((Tagged(v, item), left))
      else if size == 1 then Some((Simple(v), rest))
      else None
  }

  function DecodeMany(s: bytes, n: nat): (r: Option<(seq<Item>, bytes)>)
    ensures r.Some? ==> |r.value.0| == n && |r.value.1| <= |s|
    decreases |s|, 1
  {
    if n == 0 then Some(([], s))
    else
      match Decode(s)
      case None => None
      case Some((first, rest)) =>
        match DecodeMany(rest, n - 1)
        case None => None
        case Some((others, left)) => Some(([first] + others, left))
  }

  /** b is a self-delimiting encoding of v: the decoder takes exactly b,
      whatever bytes come after it. */
  ghost predicate Encodes(b: bytes, v: Item) {
    forall rest: bytes {:trigger Decode(b + rest)} :: Decode(b + rest) == Some((v, rest))
  }

  lemma EncodedIsRead(b: bytes, v: Item, rest: bytes)
    requires Encodes(b, v)
    ensures Decode(b + rest) == Some((v, rest))
  {
  }

  /** One byte string encodes at most one item. */
  lemma EncodesOne(b: bytes, v: Item, w: Item)
    requires Encodes(b, v) && Encodes(b, w)
    ensures v == w
  {
    assert Decode(b + []) == Some((v, []));
  }

  ghost predicate AllEncode(parts: seq<bytes>, items: seq<Item>) {
    |parts| == |items| && forall i :: 0 <= i < |parts| ==> Encodes(parts[i], items[i])
  }

  lemma {:induction false} DecodeManyConcat(parts: seq<bytes>, items: seq<Item>, rest: bytes)
    requires AllEncode(parts, items)
    ensures DecodeMany(Concat(parts) + rest, |parts|) == Some((items, rest))
    decreases |parts|
  {
    hide Decode;
    if parts == [] {
      assert Concat(parts) + rest == rest;
    } else {
      var tail := Concat(parts[1..]) + rest;
      assert Concat(parts) + rest == parts[0] + tail;
      assert Encodes(parts[0], items[0]);
      assert Decode(parts[0] + tail) == Some((items[0], tail));
      DecodeManyConcat(parts[1..], items[1..], rest);
      assert items == [items[0]] + items[1..];
    }
  }

  // ----------------------------------------------------------------- builders

  function ArrayOf(elements: seq<bytes>): bytes
    requires |elements| < TWO_64
  {
    Header(ARRAY, |elements|) + Concat(elements)
  }

  function MapOf(entries: seq<bytes>): bytes
    requires |entries| / 2 < TWO_64
  {
    Header(MAP, |entries| / 2) + Concat(entries)
  }

  function Uint64(v: nat): bytes
    requires v < TWO_64
  {
    Header(UNSIGNED_INT, v)
  }

  function ByteStringOf(b: bytes): bytes
    requires |b| < TWO_64
  {
    Header(BYTE_STRING, |b|) + b
  }

  function TextStringOf(b: bytes): bytes
    requires |b| < TWO_64
  {
    Header(TEXT_STRING, |b|) + b
  }

  const NIL: bytes := [0xf6]

  function Bool(v: bool): bytes {
    if v then [0xf5] else [0xf4]
  }

  const CID_TAG := 42

  /** A link: tag 42 around the identity multibase prefix and the CID bytes. */
  function Cid(cid: bytes): bytes
    requires |cid| + 1 < TWO_64
  {
    Header(TAG, CID_TAG) + Header(BYTE_STRING, |cid| + 1) + [0] + cid
  }

  function CidItem(cid: bytes): Item {
    Tagged(CID_TAG, ByteString([0] + cid))
  }

  predicate CidLengths(cids: seq<bytes>) {
    |cids| < TWO_63 && forall i :: 0 <= i < |cids| ==> |cids[i]| + 1 < TWO_63
  }

  function Cids(cids: seq<bytes>): (parts: seq<bytes>)
    requires CidLengths(cids)
    ensures |parts| == |cids|
  {
    seq(|cids|, i requires 0 <= i < |cids| => Cid(cids[i]))
  }

  function CidArray(cids: seq<bytes>): bytes
    requires CidLengths(cids)
  {
    ArrayOf(Cids(cids))
  }

  function CidArrayItem(cids: seq<bytes>): Item {
    Array(seq(|cids|, i requires 0 <= i < |cids| => CidItem(cids[i])))
  }

  method CborArray(elements: seq<bytes>) returns (buf: bytes)
    requires |elements| < TWO_64
    ensures buf == ArrayOf(elements)
  {
    buf := Header(ARRAY, |elements|);
    for i := 0 to |elements|
      invariant buf == Header(ARRAY, |elements|) + Concat(elements[..i])
    {
      ConcatSnoc(elements[..i], elements[i]);
      assert elements[..i + 1] == elements[..i] + [elements[i]];
      buf := buf + elements[i];
    }
    assert elements[..|elements|] == elements;
  }

  method CborMap(entries: seq<bytes>) returns (buf: bytes)
    requires |entries| / 2 < TWO_64
    ensures buf == MapOf(entries)
  {
    buf := Header(MAP, |entries| / 2);
    for i := 0 to |entries|
      invariant buf == Header(MAP, |entries| / 2) + Concat(entries[..i])
    {
      ConcatSnoc(entries[..i], entries[i]);
      assert entries[..i + 1] == entries[..i] + [entries[i]];
      buf := buf + entries[i];
    }
    assert entries[..|entries|] == entries;
  }

  method CborCidArray(cids: seq<bytes>) returns (buf: bytes)
    requires CidLengths(cids)
    ensures buf == CidArray(cids)
  {
    var elements: seq<bytes> := [];
    for i := 0 to |cids|
      invariant elements == Cids(cids)[..i]
    {
      elements := elements + [Cid(cids[i])];
    }
    assert Cids(cids)[..|cids|] == Cids(cids);
    buf := CborArray(elements);
  }

  // ------------------------------------------- what the builders' output means

  lemma HeaderAndRest(m: nat, v: nat, rest: bytes)
    requires m < 8 && v < TWO_64
    ensures ReadHeader(Header(m, v) + rest, false) == Some(Head(m, v, |Header(m, v)|))
    ensures (Header(m, v) + rest)[|Header(m, v)|..] == rest
  {
    HeaderRoundTrip(m, v, rest, false);
  }

  /** An array of encoded items decodes to the list of their values. */
  lemma ArrayEncodes(elements: seq<bytes>, items: seq<Item>)
    requires AllEncode(elements, items) && |elements| < TWO_64
    ensures Encodes(ArrayOf(elements), Array(items))
  {
    hide Header, ReadHeader, DecodeMany, Concat;
    forall rest: bytes ensures Decode(ArrayOf(elements) + rest) == Some((Array(items), rest)) {
      HeaderAndRest(ARRAY, |elements|, Concat(elements) + rest);
      assert ArrayOf(elements) + rest == Header(ARRAY, |elements|) + (Concat(elements) + rest);
      DecodeManyConcat(elements, items, rest);
    }
  }

  /** With an even number of entries, a map decodes to its keys and values. */
  lemma MapEncodes(entries: seq<bytes>, items: seq<Item>)
    requires AllEncode(entries, items) && |entries| % 2 == 0 && |entries| / 2 < TWO_64
    ensures Encodes(MapOf(entries), Map(items))
  {
    hide Header, ReadHeader, DecodeMany, Concat;
    var n := |entries| / 2;
    forall rest: bytes ensures Decode(MapOf(entries) + rest) == Some((Map(items), rest)) {
      HeaderAndRest(MAP, n, Concat(entries) + rest);
      assert MapOf(entries) + rest == Header(MAP, n) + (Concat(entries) + rest);
      DecodeManyConcat(entries, items, rest);
    }
  }

  /** With an odd number of entries, the last one is left outside the map. */
  lemma OddMapLeavesLast(entries: seq<bytes>, items: seq<Item>, rest: bytes)
    requires AllEncode(entries, items) && |entries| % 2 == 1 && |entries| / 2 < TWO_64
    ensures var last := |entries| - 1;
            Decode(MapOf(entries) + rest) == Some((Map(items[..last]), entries[last] + rest))
  {
    hide Decode, Header, Concat, Encodes;
    var last := |entries| - 1;
    var body := entries[..last];
    assert entries == body + [entries[last]];
    ConcatSnoc(body, entries[last]);
    MapEncodes(body, items[..last]);
    EncodedIsRead(MapOf(body), Map(items[..last]), entries[last] + rest);
    assert MapOf(entries) + rest == MapOf(body) + (entries[last] + rest);
  }

  lemma UintEncodes(v: nat)
    requires v < TWO_64
    ensures Encodes(Uint64(v), UInt(v))
  {
    hide Header, ReadHeader;
    forall rest: bytes ensures Decode(Uint64(v) + rest) == Some((UInt(v), rest)) {
      HeaderAndRest(UNSIGNED_INT, v, rest);
    }
  }

  lemma BytesEncode(b: bytes)
    requires |b| < TWO_64
    ensures Encodes(ByteStringOf(b), ByteString(b))
  {
    hide Header, ReadHeader;
    forall rest: bytes ensures Decode(ByteStringOf(b) + rest) == Some((ByteString(b), rest)) {
      HeaderAndRest(BYTE_STRING, |b|, b + rest);
      assert ByteStringOf(b) + rest == Header(BYTE_STRING, |b|) + (b + rest);
    }
  }

  lemma TextEncodes(b: bytes)
    requires |b| < TWO_64
    ensures Encodes(TextStringOf(b), TextString(b))
  {
    hide Header, ReadHeader;
    forall rest: bytes ensures Decode(TextStringOf(b) + rest) == Some((TextString(b), rest)) {
      HeaderAndRest(TEXT_STRING, |b|, b + rest);
      assert TextStringOf(b) + rest == Header(TEXT_STRING, |b|) + (b + rest);
    }
  }

  lemma NilEncodes()
    ensures Encodes(NIL, NULL)
    ensures Encodes(Bool(true), Simple(TRUE_CODE)) && Encodes(Bool(false), Simple(FALSE_CODE))
  {
    forall c, rest: bytes | c in {FALSE_CODE, TRUE_CODE, NULL_CODE}
      ensures Decode([224 + c] + rest) == Some((Simple(c), rest))
    {
      assert ([224 + c] + rest)[1..] == rest;
    }
    assert NIL == [224 + NULL_CODE] && Bool(true) == [224 + TRUE_CODE] && Bool(false) == [224 + FALSE_CODE];
  }

  lemma TagEncodes(tag: nat, content: bytes, item: Item)
    requires tag < TWO_64 && Encodes(content, item)
    ensures Encodes(Header(TAG, tag) + content, Tagged(tag, item))
  {
    hide Header, Decode;
    forall rest: bytes
      ensures Decode(Header(TAG, tag) + content + rest) == Some((Tagged(tag, item), rest))
    {
      assert Decode(content + rest) == Some((item, rest));
      TagDecodes(tag, content, item, rest);
    }
  }

  lemma TagDecodes(tag: nat, content: bytes, item: Item, rest: bytes)
    requires tag < TWO_64 && Decode(content + rest) == Some((item, rest))
    ensures Decode(Header(TAG, tag) + content + rest) == Some((Tagged(tag, item), rest))
  {
    hide Header, ReadHeader;
    HeaderAndRest(TAG, tag, content + rest);
    assert Header(TAG, tag) + content + rest == Header(TAG, tag) + (content + rest);
  }

  lemma CidEncodes(cid: bytes)
    requires |cid| + 1 < TWO_64
    ensures Encodes(Cid(cid), CidItem(cid))
  {
    var link := [0] + cid;
    BytesEncode(link);
    assert Cid(cid) == Header(TAG, CID_TAG) + ByteStringOf(link);
    TagEncodes(CID_TAG, ByteStringOf(link), ByteString(link));
  }

  lemma CidArrayEncodes(cids: seq<bytes>)
    requires CidLengths(cids)
    ensures Encodes(CidArray(cids), CidArrayItem(cids))
  {
    forall i | 0 <= i < |cids| ensures Encodes(Cids(cids)[i], CidArrayItem(cids).items[i]) {
      CidEncodes(cids[i]);
    }
    ArrayEncodes(Cids(cids), CidArrayItem(cids).items);
  }
}
