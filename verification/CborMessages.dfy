/** Integer codecs, the block header builder and the nested payloads built on
    top of the CBOR items (cbor_helpers.go, cbor_bombs.go). */
module CborMessages {
  import opened Bytes
  import opened Cbor

  // ----------------------------------------------------------- integer codecs

  /** Two's complement wrap-around of Go's int64. */
  function Wrap64(x: int): (r: int)
    ensures -TWO_63 <= r < TWO_63
  {
    (x + TWO_63) % TWO_64 - TWO_63
  }

  function CborInt64(v: int): bytes
    requires -TWO_63 <= v < TWO_63
  {
    if v >= 0 then Uint64(v)
    else Header(NEGATIVE_INT, Wrap64(Wrap64(-v) - 1) % TWO_64)
  }

  /** The value is right over the whole int64 range, although -v wraps at the
      least one. */
  lemma Int64Encodes(v: int)
    requires -TWO_63 <= v < TWO_63
    ensures Encodes(CborInt64(v), if v >= 0 then UInt(v) else NInt(-1 - v))
  {
    if v >= 0 {
      UintEncodes(v);
    } else {
      var n := -1 - v;
      assert Wrap64(Wrap64(-v) - 1) % TWO_64 == n;
      forall rest: bytes ensures Decode(CborInt64(v) + rest) == Some((NInt(n), rest)) {
        HeaderAndRest(NEGATIVE_INT, n, rest);
      }
    }
  }

  method CborNonCanonicalUint64(v: nat) returns (out: bytes)
    requires v < TWO_64
    ensures out == [0x1B] + BigEndian(v, 8)
  {
    var buf := new byte[9](_ => 0);
    buf[0] := 0x1B;
    var rest, i := v, 8;
    while i >= 1
      invariant 0 <= i <= 8
      invariant buf[0] == 0x1B
      invariant BigEndian(v, 8) == BigEndian(rest, i) + buf[i + 1..]
    {
      buf[i] := rest % 256;
      assert buf[i..] == [buf[i]] + buf[i + 1..];
      rest := rest / 256;
      i := i - 1;
    }
    assert buf[..] == [buf[0]] + buf[1..];
    out := buf[..];
  }

  /** The nine-byte form decodes to v, but it is the canonical form exactly
      from 2^32 on, and a strict reader refuses it exactly below. */
  lemma NonCanonicalUint64(v: nat)
    requires v < TWO_64
    ensures Encodes([0x1B] + BigEndian(v, 8), UInt(v))
    ensures [0x1B] + BigEndian(v, 8) == Uint64(v) <==> v >= 0x1_0000_0000
    ensures ReadHeader([0x1B] + BigEndian(v, 8), true).None? <==> v < 0x1_0000_0000
  {
    Pow256Values();
    WideFormDecodes(v);
    WideFormStrict(v);
    assert |Uint64(v)| == 9 <==> v >= 0x1_0000_0000;
  }

  lemma WideFormDecodes(v: nat)
    requires v < TWO_64
    ensures Encodes([0x1B] + BigEndian(v, 8), UInt(v))
  {
    hide BigEndian, ReadHeader;
    Pow256Values();
    var s := [0x1B] + BigEndian(v, 8);
    forall rest: bytes ensures Decode(s + rest) == Some((UInt(v), rest)) {
      ReadLongHeader(UNSIGNED_INT, v, 8, BigEndian(v, 8), rest, false);
      assert (s + rest)[9..] == rest;
    }
  }

  lemma WideFormStrict(v: nat)
    requires v < TWO_64
    ensures ReadHeader([0x1B] + BigEndian(v, 8), true).None? <==> v < 0x1_0000_0000
  {
    hide BigEndian;
    Pow256Values();
    BigEndianRoundTrip(v, 8);
    var s := [0x1B] + BigEndian(v, 8);
    assert s[1..9] == BigEndian(v, 8);
  }

  /** The shortest big-endian form, one byte for zero. */
  function Minimal(v: nat): (s: bytes)
    ensures |s| >= 1
  {
    if v < 256 then [v] else Minimal(v / 256) + [v % 256]
  }

  /** Any string without a superfluous leading zero is the minimal form of its value. */
  lemma {:induction false} MinimalUnique(s: bytes)
    requires |s| >= 1 && (s[0] != 0 || |s| == 1)
    ensures Minimal(FromBigEndian(s)) == s
  {
    var init, last := s[..|s| - 1], s[|s| - 1];
    if |s| == 1 {
      assert FromBigEndian(init) == 0;
    } else {
      MinimalUnique(init);
      Positive(init);
      assert FromBigEndian(s) / 256 == FromBigEndian(init) && FromBigEndian(s) % 256 == last;
    }
  }

  lemma {:induction false} Positive(s: bytes)
    requires |s| >= 1 && s[0] != 0
    ensures FromBigEndian(s) > 0
  {
    if |s| > 1 {
      Positive(s[..|s| - 1]);
    }
  }

  /** Filecoin's big integer bytes: empty for zero, else a sign byte and the
      magnitude. */
  function BigInt(v: nat): bytes {
    if v == 0 then [] else [0] + Minimal(v)
  }

  /** The value comes back, and no shorter magnitude has that value. */
  lemma {:induction false} BigIntInverts(v: nat)
    requires v > 0
    ensures FromBigEndian(BigInt(v)[1..]) == v
    ensures BigInt(v)[1] != 0
    ensures forall s: bytes :: FromBigEndian(s) == v ==> |BigInt(v)| <= |s| + 1
  {
    assert BigInt(v)[1..] == Minimal(v);
    MinimalValue(v);
    forall s: bytes | FromBigEndian(s) == v ensures |Minimal(v)| <= |s| {
      MinimalShortest(s);
    }
  }

  lemma {:induction false} MinimalValue(v: nat)
    ensures FromBigEndian(Minimal(v)) == v
    ensures v > 0 ==> Minimal(v)[0] != 0
  {
    if v < 256 {
      assert Minimal(v)[..0] == [];
    } else {
      MinimalValue(v / 256);
      assert Minimal(v)[..|Minimal(v)| - 1] == Minimal(v / 256);
    }
  }

  lemma {:induction false} MinimalShortest(s: bytes)
    requires FromBigEndian(s) > 0
    ensures |Minimal(FromBigEndian(s))| <= |s|
  {
    var init := s[..|s| - 1];
    if FromBigEndian(init) > 0 {
      MinimalShortest(init);
      assert FromBigEndian(s) / 256 == FromBigEndian(init);
    }
  }

  method PutUint64(raw: array<byte>, v: nat)
    requires raw.Length == 8 && v < TWO_64
    modifies raw
    ensures raw[..] == BigEndian(v, 8)
  {
    var rest, i := v, 7;
    while i >= 0
      invariant -1 <= i <= 7
      invariant BigEndian(v, 8) == BigEndian(rest, i + 1) + raw[i + 1..]
    {
      raw[i] := rest % 256;
      assert raw[i..] == [raw[i]] + raw[i + 1..];
      rest := rest / 256;
      i := i - 1;
    }
    assert raw[..] == raw[0..];
  }

  method BigIntBytes(v: nat) returns (out: bytes)
    requires v < TWO_64
    ensures out == BigInt(v)
    ensures v == 0 ==> out == []
    ensures v > 0 ==> 2 <= |out| <= 9 && out[0] == 0 && out[1] != 0 && FromBigEndian(out[1..]) == v
  {
    hide FromBigEndian, Minimal, BigEndian;
    if v == 0 {
      return [];
    }
    var raw := new byte[8](_ => 0);
    PutUint64(raw, v);
    assert raw[..] == raw[0..];
    Pow256Values();
    BigEndianRoundTrip(v, 8);
    var start := 0;
    while start < raw.Length - 1 && raw[start] == 0
      invariant start <= 7
      invariant FromBigEndian(raw[start..]) == v
    {
      assert raw[start..] == [0] + raw[start + 1..];
      LeadingZero(raw[start + 1..]);
      start := start + 1;
    }
    MinimalUnique(raw[start..]);
    out := [0] + raw[start..];
    BigIntInverts(v);
  }

  /** A delegated address: the namespace comes back as a varint and the
      sub-address is what follows it. */
  method GenerateF4Address(namespace: nat, subAddr: bytes) returns (b: bytes)
    requires namespace < TWO_64
    ensures |b| >= 2 && b[0] == 4
    ensures ReadUvarint(b[1..]) == Some((namespace, |b| - 1 - |subAddr|))
    ensures b[|b| - |subAddr|..] == subAddr
    ensures |b| <= 11 + |subAddr|
  {
    b := [4];
    var ns := namespace;
    while ns >= 0x80
      invariant b + Uvarint(ns) == [4] + Uvarint(namespace)
      decreases ns
    {
      b := b + [ns % 0x80 + 0x80];
      ns := ns / 0x80;
    }
    b := b + [ns];
    assert b == [4] + Uvarint(namespace);
    b := b + subAddr;
    assert b[1..] == Uvarint(namespace) + subAddr;
    UvarintRoundTrip(namespace, subAddr);
    Pow128Ten();
    UvarintLength(namespace, 10);
  }

  lemma Pow128Ten()
    ensures TWO_64 <= Pow128(10)
  {
    assert Pow128(10) == 128 * Pow128(9) == 128 * 128 * Pow128(8) == 128 * 128 * 128 * Pow128(7);
    assert Pow128(7) == 128 * Pow128(6) == 128 * 128 * Pow128(5) == 128 * 128 * 128 * Pow128(4);
    assert Pow128(4) == 128 * Pow128(3) == 128 * 128 * Pow128(2) == 128 * 128 * 128 * Pow128(1);
  }

  // ------------------------------------------------------------- block header

  datatype SharedCids = SharedCids(parent: bytes, stateRoot: bytes, msgReceipts: bytes, messages: bytes)

  datatype HeaderOptions = HeaderOptions(
    nilTicket: bool,
    nilElectionProof: bool,
    nilBlsAggregate: bool,
    nilBlockSig: bool,
    nilBeaconEntries: bool,
    nilParents: bool,
    emptyParents: bool,
    allNil: bool,
    overrideCids: Option<SharedCids>,
    overrideMiner: Option<bytes>,
    overrideParentCids: seq<bytes>,
    overrideHeight: nat,
    overrideWeight: nat)

  /** What buildBlockHeaderCBOR draws at random, and two constant CIDs. */
  datatype Draw = Draw(cid: bytes, ticket: bytes, election: bytes, sig: bytes, emptyAmt: bytes, emptyMsgMeta: bytes)

  predicate Short(b: bytes) {
    |b| + 1 < TWO_63
  }

  /** Go slices and strings are shorter than 2^63 and the overrides are uint64. */
  predicate InRange(o: HeaderOptions, d: Draw) {
    && Short(d.cid) && Short(d.ticket) && Short(d.election) && Short(d.sig)
    && Short(d.emptyAmt) && Short(d.emptyMsgMeta)
    && (o.overrideCids.Some? ==>
          var c := o.overrideCids.value;
          Short(c.parent) && Short(c.stateRoot) && Short(c.msgReceipts) && Short(c.messages))
    && (o.overrideMiner.Some? ==> Short(o.overrideMiner.value))
    && CidLengths(o.overrideParentCids)
    && o.overrideHeight < TWO_64 && o.overrideWeight < TWO_64
  }

  const DEFAULT_MINER: bytes := [0x00, 0xe8, 0x07]

  function ParentCids(o: HeaderOptions, d: Draw): seq<bytes> {
    if |o.overrideParentCids| > 0 then o.overrideParentCids
    else [if o.overrideCids.Some? then o.overrideCids.value.parent else d.cid]
  }

  lemma {:induction false} MinimalLength(v: nat, k: nat)
    requires k >= 1 && v < Pow256(k)
    ensures |Minimal(v)| <= k
  {
    if v >= 256 {
      MinimalLength(v / 256, k - 1);
    }
  }

  lemma BigIntShort(v: nat)
    requires v < TWO_64
    ensures |BigInt(v)| <= 9
  {
    Pow256Values();
    MinimalLength(v, 8);
  }

  function BigIntField(v: nat): bytes
    requires v < TWO_64
  {
    BigIntShort(v);
    ByteStringOf(BigInt(v))
  }

  function FieldBytes(o: HeaderOptions, d: Draw, field: nat): bytes
    requires InRange(o, d) && field < 16
  {
    var dummy := if o.overrideCids.Some? then o.overrideCids.value.parent else d.cid;
    match field
    case 0 => ByteStringOf(if o.overrideMiner.Some? then o.overrideMiner.value else DEFAULT_MINER)
    case 1 => if o.nilTicket || o.allNil then NIL else ArrayOf([ByteStringOf(d.ticket)])
    case 2 =>
      if o.nilElectionProof || o.allNil then NIL
      else ArrayOf([CborInt64(1), ByteStringOf(d.election)])
    case 3 => if o.nilBeaconEntries || o.allNil then NIL else ArrayOf([])
    case 4 => ArrayOf([])
    case 5 =>
      if o.nilParents || o.allNil then NIL
      else if o.emptyParents then ArrayOf([])
      else if |o.overrideParentCids| > 0 then CidArray(o.overrideParentCids)
      else CidArray([dummy])
    case 6 => BigIntField(if o.overrideWeight > 0 then o.overrideWeight else 1)
    case 7 => Uint64(if o.overrideHeight > 0 then o.overrideHeight else 1)
    case 8 => Cid(if o.overrideCids.Some? then o.overrideCids.value.stateRoot else dummy)
    case 9 => Cid(if o.overrideCids.Some? then o.overrideCids.value.msgReceipts else d.emptyAmt)
    case 10 => Cid(if o.overrideCids.Some? then o.overrideCids.value.messages else d.emptyMsgMeta)
    case 11 => if o.nilBlsAggregate || o.allNil then NIL else ByteStringOf([0x02])
    case 12 => Uint64(1700000000)
    case 13 => if o.nilBlockSig || o.allNil then NIL else ByteStringOf([0x02] + d.sig)
    case 14 => Uint64(0)
    case 15 => BigIntField(100)
  }

  function HeaderFields(o: HeaderOptions, d: Draw): (fields: seq<bytes>)
    requires InRange(o, d)
    ensures |fields| == 16
  {
    seq(16, i requires 0 <= i < 16 => FieldBytes(o, d, i))
  }

  function BlockHeader(o: HeaderOptions, d: Draw): bytes
    requires InRange(o, d)
  {
    ArrayOf(HeaderFields(o, d))
  }

  /** The fields an option turns into null. */
  predicate NullAsked(o: HeaderOptions, field: nat) {
    || (field == 1 && (o.nilTicket || o.allNil))
    || (field == 2 && (o.nilElectionProof || o.allNil))
    || (field == 3 && (o.nilBeaconEntries || o.allNil))
    || (field == 5 && (o.nilParents || o.allNil))
    || (field == 11 && (o.nilBlsAggregate || o.allNil))
    || (field == 13 && (o.nilBlockSig || o.allNil))
  }

  /** What the fields that are not null decode to. */
  function FieldValue(o: HeaderOptions, d: Draw, field: nat): Item
    requires field < 16
  {
    var shared := o.overrideCids;
    match field
    case 0 => ByteString(if o.overrideMiner.Some? then o.overrideMiner.value else DEFAULT_MINER)
    case 1 => Array([ByteString(d.ticket)])
    case 2 => Array([UInt(1), ByteString(d.election)])
    case 5 => if o.emptyParents then Array([]) else CidArrayItem(ParentCids(o, d))
    case 6 => ByteString(BigInt(if o.overrideWeight > 0 then o.overrideWeight else 1))
    case 7 => UInt(if o.overrideHeight > 0 then o.overrideHeight else 1)
    case 8 => CidItem(if shared.Some? then shared.value.stateRoot else d.cid)
    case 9 => CidItem(if shared.Some? then shared.value.msgReceipts else d.emptyAmt)
    case 10 => CidItem(if shared.Some? then shared.value.messages else d.emptyMsgMeta)
    case 11 => ByteString([0x02])
    case 12 => UInt(1700000000)
    case 13 => ByteString([0x02] + d.sig)
    case 14 => UInt(0)
    case 15 => ByteString(BigInt(100))
    case _ => Array([])
  }

  function FieldItem(o: HeaderOptions, d: Draw, field: nat): Item
    requires field < 16
  {
    if NullAsked(o, field) then NULL else FieldValue(o, d, field)
  }

  function HeaderItems(o: HeaderOptions, d: Draw): (items: seq<Item>)
    ensures |items| == 16
  {
    seq(16, i requires 0 <= i < 16 => FieldItem(o, d, i))
  }

  lemma EmptyArrayEncodes()
    ensures Encodes(ArrayOf([]), Array([]))
  {
    ArrayEncodes([], []);
  }

  lemma SingletonEncodes(b: bytes, v: Item)
    requires Encodes(b, v)
    ensures Encodes(ArrayOf([b]), Array([v]))
  {
    ArrayEncodes([b], [v]);
  }

  lemma PairEncodes(b: bytes, v: Item, c: bytes, w: Item)
    requires Encodes(b, v) && Encodes(c, w)
    ensures Encodes(ArrayOf([b, c]), Array([v, w]))
    ensures Encodes(MapOf([b, c]), Map([v, w]))
  {
    ArrayEncodes([b, c], [v, w]);
    MapEncodes([b, c], [v, w]);
  }

  lemma BigIntFieldEncodes(v: nat)
    requires v < TWO_64
    ensures Encodes(BigIntField(v), ByteString(BigInt(v)))
  {
    BigIntShort(v);
    BytesEncode(BigInt(v));
  }

  /** Fields 1 to 3, 5, 11 and 13: the ones that can be null. */
  lemma NullableFieldEncodes(o: HeaderOptions, d: Draw, field: nat)
    requires InRange(o, d) && field in {1, 2, 3, 5, 11, 13}
    ensures Encodes(FieldBytes(o, d, field), FieldItem(o, d, field))
  {
    NilEncodes();
    EmptyArrayEncodes();
    if field == 1 {
      BytesEncode(d.ticket);
      SingletonEncodes(ByteStringOf(d.ticket), ByteString(d.ticket));
    } else if field == 2 {
      Int64Encodes(1);
      BytesEncode(d.election);
      PairEncodes(CborInt64(1), UInt(1), ByteStringOf(d.election), ByteString(d.election));
    } else if field == 5 {
      CidArrayEncodes(ParentCids(o, d));
    } else if field == 11 {
      BytesEncode([0x02]);
    } else if field == 13 {
      BytesEncode([0x02] + d.sig);
    }
  }

  /** The other fields are never null. */
  lemma PlainFieldEncodes(o: HeaderOptions, d: Draw, field: nat)
    requires InRange(o, d) && field < 16 && field !in {1, 2, 3, 5, 11, 13}
    ensures Encodes(FieldBytes(o, d, field), FieldItem(o, d, field))
  {
    var v := FieldItem(o, d, field);
    if field == 0 {
      BytesEncode(v.data);
    } else if field == 4 {
      EmptyArrayEncodes();
    } else if field == 6 {
      BigIntFieldEncodes(if o.overrideWeight > 0 then o.overrideWeight else 1);
    } else if field == 15 {
      BigIntFieldEncodes(100);
    } else if field in {7, 12, 14} {
      UintEncodes(v.n);
    } else {
      CidFieldEncodes(o, d, field);
    }
  }

  lemma CidFieldEncodes(o: HeaderOptions, d: Draw, field: nat)
    requires InRange(o, d) && field in {8, 9, 10}
    ensures Encodes(FieldBytes(o, d, field), FieldItem(o, d, field))
  {
    if o.overrideCids.Some? {
      var c := o.overrideCids.value;
      CidEncodes(if field == 8 then c.stateRoot else if field == 9 then c.msgReceipts else c.messages);
    } else {
      CidEncodes(if field == 8 then d.cid else if field == 9 then d.emptyAmt else d.emptyMsgMeta);
    }
  }

  /** Whatever the options and draws, the header is one 16-element array, with
      null exactly in the fields the options ask for. */
  lemma BlockHeaderEncodes(o: HeaderOptions, d: Draw)
    requires InRange(o, d)
    ensures Encodes(BlockHeader(o, d), Array(HeaderItems(o, d)))
    ensures forall i :: 0 <= i < 16 ==> (HeaderItems(o, d)[i] == NULL <==> NullAsked(o, i))
  {
    forall i | 0 <= i < 16 ensures Encodes(HeaderFields(o, d)[i], HeaderItems(o, d)[i]) {
      if i in {1, 2, 3, 5, 11, 13} {
        NullableFieldEncodes(o, d, i);
      } else {
        PlainFieldEncodes(o, d, i);
      }
    }
    ArrayEncodes(HeaderFields(o, d), HeaderItems(o, d));
  }

  /** The sixteen items in order, option by option. */
  lemma HeaderItemsExactly(o: HeaderOptions, d: Draw)
    requires InRange(o, d)
    ensures var shared := o.overrideCids;
            var parent := if shared.Some? then shared.value.parent else d.cid;
            HeaderItems(o, d) ==
            [ByteString(if o.overrideMiner.Some? then o.overrideMiner.value else [0x00, 0xe8, 0x07]),
             if o.nilTicket || o.allNil then NULL else Array([ByteString(d.ticket)]),
             if o.nilElectionProof || o.allNil then NULL else Array([UInt(1), ByteString(d.election)]),
             if o.nilBeaconEntries || o.allNil then NULL else Array([]),
             Array([]),
             if o.nilParents || o.allNil then NULL
             else if o.emptyParents then Array([])
             else CidArrayItem(if o.overrideParentCids != [] then o.overrideParentCids else [parent]),
             ByteString(BigInt(if o.overrideWeight > 0 then o.overrideWeight else 1)),
             UInt(if o.overrideHeight > 0 then o.overrideHeight else 1),
             CidItem(if shared.Some? then shared.value.stateRoot else d.cid),
             CidItem(if shared.Some? then shared.value.msgReceipts else d.emptyAmt),
             CidItem(if shared.Some? then shared.value.messages else d.emptyMsgMeta),
             if o.nilBlsAggregate || o.allNil then NULL else ByteString([0x02]),
             UInt(1700000000),
             if o.nilBlockSig || o.allNil then NULL else ByteString([0x02] + d.sig),
             UInt(0),
             ByteString(BigInt(100))]
  {
    hide BigInt, CidArrayItem, CidItem;
  }

  // ------------------------------------------------------------------ messages

  /** The unsigned message sent over gossip, from and to the same address. */
  function UnsignedMessage(addr: Option<bytes>): bytes
    requires addr.Some? ==> Short(addr.value)
  {
    var a := ByteStringOf(if addr.Some? then addr.value else DEFAULT_MINER);
    ArrayOf([Uint64(0), a, a, Uint64(0), BigIntField(0), CborInt64(1000000), BigIntField(100), BigIntField(100),
             Uint64(0), ByteStringOf([])])
  }

  lemma MessageEncodes(addr: Option<bytes>)
    requires addr.Some? ==> Short(addr.value)
    ensures var a := ByteString(if addr.Some? then addr.value else DEFAULT_MINER);
            var price := ByteString(BigInt(100));
            Encodes(UnsignedMessage(addr),
                    Array([UInt(0), a, a, UInt(0), ByteString([]), UInt(1000000), price, price, UInt(0),
                           ByteString([])]))
  {
    hide Encodes, BigIntField, ByteStringOf, Uint64, CborInt64;
    var address := if addr.Some? then addr.value else DEFAULT_MINER;
    var a, price := ByteStringOf(address), BigIntField(100);
    UintEncodes(0);
    Int64Encodes(1000000);
    BytesEncode(address);
    BytesEncode([]);
    BigIntFieldEncodes(0);
    BigIntFieldEncodes(100);
    ArrayEncodes(
      [Uint64(0), a, a, Uint64(0), BigIntField(0), CborInt64(1000000), price, price, Uint64(0), ByteStringOf([])],
      [UInt(0), ByteString(address), ByteString(address), UInt(0), ByteString([]), UInt(1000000),
       ByteString(BigInt(100)), ByteString(BigInt(100)), UInt(0), ByteString([])]);
  }

  // ---------------------------------------------------------- nested payloads

  /** 42 inside `depth` arrays. */
  function Nested(depth: nat): Item {
    if depth == 0 then UInt(42) else Array([Nested(depth - 1)])
  }

  /** 42 inside `depth` levels that are, from the inside out, array, map, array, ... */
  function Alternating(depth: nat): Item {
    if depth == 0 then UInt(42)
    else if depth % 2 == 1 then Array([Alternating(depth - 1)])
    else Map([UInt(0), Alternating(depth - 1)])
  }

  function Max(a: nat, b: nat): nat {
    if a < b then b else a
  }

  /** How deeply containers are nested in an item. */
  function Depth(v: Item): nat
    decreases v, 0
  {
    match v
    case Array(items) => 1 + DepthMany(items)
    case Map(entries) => 1 + DepthMany(entries)
    case Tagged(_, item) => 1 + Depth(item)
    case _ => 0
  }

  function DepthMany(items: seq<Item>): nat
    decreases items, 1
  {
    if items == [] then 0 else Max(Depth(items[0]), DepthMany(items[1..]))
  }

  lemma {:induction false} NestedDepth(depth: nat)
    ensures Depth(Nested(depth)) == depth
    ensures Depth(Alternating(depth)) == depth
    ensures depth > 0 ==> Nested(depth) == Array([Nested(depth - 1)])
    ensures depth % 2 == 1 ==> Alternating(depth) == Array([Alternating(depth - 1)])
    ensures depth > 0 && depth % 2 == 0 ==> Alternating(depth) == Map([UInt(0), Alternating(depth - 1)])
    ensures Nested(0) == Alternating(0) == UInt(42)
  {
    if depth > 0 {
      NestedDepth(depth - 1);
      var a := Alternating(depth - 1);
      assert [UInt(0), a][1..] == [a];
      assert DepthMany([a]) == Depth(a) && DepthMany([UInt(0), a]) == Depth(a);
      assert DepthMany([Nested(depth - 1)]) == Depth(Nested(depth - 1));
    }
  }

  /** A block message: the header with field 3 replaced, and no messages. */
  function BlockMessage(items: seq<Item>, beacon: Item): Item
    requires |items| == 16
  {
    Array([Array(items[3 := beacon]), Array([]), Array([])])
  }

  method WrapBlock(fields: seq<bytes>, ghost items: seq<Item>, inner: bytes, ghost beacon: Item) returns (data: bytes)
    requires |fields| == 16 && AllEncode(fields, items) && Encodes(inner, beacon)
    ensures Encodes(data, BlockMessage(items, beacon))
  {
    var replaced := fields[3 := inner];
    var header := CborArray(replaced);
    ArrayEncodes(replaced, items[3 := beacon]);
    var empty := CborArray([]);
    EmptyArrayEncodes();
    data := CborArray([header, empty, empty]);
    ArrayEncodes([header, empty, empty], [Array(items[3 := beacon]), Array([]), Array([])]);
  }

  method StackDeeplyNested(depth: nat, fields: seq<bytes>, ghost items: seq<Item>) returns (data: bytes)
    requires |fields| == 16 && AllEncode(fields, items)
    ensures Encodes(data, BlockMessage(items, Nested(depth)))
  {
    var inner := Uint64(42);
    UintEncodes(42);
    for i := 0 to depth
      invariant Encodes(inner, Nested(i))
    {
      SingletonEncodes(inner, Nested(i));
      inner := CborArray([inner]);
    }
    data := WrapBlock(fields, items, inner, Nested(depth));
  }

  method StackForestDeepAlternating(depth: nat, fields: seq<bytes>, ghost items: seq<Item>) returns (data: bytes)
    requires |fields| == 16 && AllEncode(fields, items)
    ensures Encodes(data, BlockMessage(items, Alternating(depth)))
  {
    var inner := Uint64(42);
    UintEncodes(42);
    for i := 0 to depth
      invariant Encodes(inner, Alternating(i))
    {
      if i % 2 == 0 {
        SingletonEncodes(inner, Alternating(i));
        inner := CborArray([inner]);
      } else {
        UintEncodes(0);
        PairEncodes(Uint64(0), UInt(0), inner, Alternating(i));
        inner := CborMap([Uint64(0), inner]);
      }
    }
    data := WrapBlock(fields, items, inner, Alternating(depth));
  }
}
