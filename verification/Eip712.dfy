/** EIP-712 ("Definition of hashStruct", "Definition of encodeData") over an
    abstract 32-byte hash, the struct hashes of eip712.go computed step by step,
    and what equal digests say about the signed messages. */
module Eip712 {
  import opened Bytes
  import opened Abi

  /** Keccak-256 is a parameter; only its output length is assumed. */
  type HashFunction = bytes -> bytes

  ghost predicate IsHash(H: HashFunction) {
    forall x: bytes :: |H(x)| == WORD
  }

  // ---------------------------------------------------------- typed structured data

  datatype Value =
    | Uint(n: nat)
    | Address(addr: bytes)
    | Dynamic(data: bytes)  // string or bytes
    | List(elements: seq<Value>)
    | Struct(typeString: bytes, fields: seq<Value>)

  /** encodeData of one value: always one word. */
  function Encode(H: HashFunction, v: Value): bytes
    decreases v, 0
  {
    match v
    case Uint(n) => Word(n)
    case Address(a) => EncodeAddress(a)
    case Dynamic(d) => H(d)
    case List(es) => H(EncodeAll(H, es))
    case Struct(t, fs) => H(H(t) + EncodeAll(H, fs))
  }

  function EncodeAll(H: HashFunction, vs: seq<Value>): bytes
    decreases vs, 1
  {
    if vs == [] then [] else Encode(H, vs[0]) + EncodeAll(H, vs[1..])
  }

  /** Every string that is hashed on the way to Encode(H, v). */
  ghost function Hashed(H: HashFunction, v: Value): set<bytes>
    decreases v, 0
  {
    match v
    case Uint(_) => {}
    case Address(_) => {}
    case Dynamic(d) => {d}
    case List(es) => {EncodeAll(H, es)} + HashedAll(H, es)
    case Struct(t, fs) => {t, H(t) + EncodeAll(H, fs)} + HashedAll(H, fs)
  }

  ghost function HashedAll(H: HashFunction, vs: seq<Value>): set<bytes>
    decreases vs, 1
  {
    if vs == [] then {} else Hashed(H, vs[0]) + HashedAll(H, vs[1..])
  }

  /** Two different strings, one from each set, with the same hash. */
  ghost predicate Collision(H: HashFunction, a: set<bytes>, b: set<bytes>) {
    exists x, y :: x in a && y in b && x != y && H(x) == H(y)
  }

  datatype Type =
    | UintType
    | AddressType
    | DynamicType
    | ListType(element: Type)
    | StructType(typeString: bytes, fields: seq<Type>)

  /** v is a value of type t, its numbers and addresses in range. */
  predicate Fits(v: Value, t: Type)
    decreases v, 0
  {
    match (v, t)
    case (Uint(n), UintType) => n < WordRange()
    case (Address(a), AddressType) => |a| == 20
    case (Dynamic(_), DynamicType) => true
    case (List(es), ListType(e)) => AllFit(es, seq(|es|, _ => e))
    case (Struct(s, fs), StructType(s', ts)) => s == s' && AllFit(fs, ts)
    case _ => false
  }

  predicate AllFit(vs: seq<Value>, ts: seq<Type>)
    decreases vs, 1
  {
    |vs| == |ts| && (vs != [] ==> Fits(vs[0], ts[0]) && AllFit(vs[1..], ts[1..]))
  }

  lemma EncodeLength(H: HashFunction, v: Value)
    requires IsHash(H)
    ensures |Encode(H, v)| == WORD
  {
  }

  lemma {:induction false} EncodeAllLength(H: HashFunction, vs: seq<Value>)
    requires IsHash(H)
    ensures |EncodeAll(H, vs)| == WORD * |vs|
  {
    if vs != [] {
      EncodeLength(H, vs[0]);
      EncodeAllLength(H, vs[1..]);
    }
  }

  lemma {:induction false} EncodeAllSnoc(H: HashFunction, vs: seq<Value>, v: Value)
    ensures EncodeAll(H, vs + [v]) == EncodeAll(H, vs) + Encode(H, v)
  {
    if vs == [] {
      assert vs + [v] == [v];
      assert EncodeAll(H, [v]) == Encode(H, v) + EncodeAll(H, []);
    } else {
      EncodeAllSnoc(H, vs[1..], v);
      assert (vs + [v])[1..] == vs[1..] + [v];
    }
  }

  /** Same type and same encoding: the values are equal, or two of the strings
      hashed for them collide. */
  lemma {:induction false} EncodingBinds(H: HashFunction, v: Value, w: Value, t: Type)
    requires IsHash(H) && Fits(v, t) && Fits(w, t) && Encode(H, v) == Encode(H, w)
    ensures v == w || Collision(H, Hashed(H, v), Hashed(H, w))
    decreases v, 0
  {
    match t {
      case UintType =>
        BigEndianInjective(v.n, w.n, WORD);
      case AddressType =>
        AddressInjective(v.addr, w.addr);
      case DynamicType =>
      case ListType(e) =>
        EncodeAllLength(H, v.elements);
        EncodeAllLength(H, w.elements);
        if EncodeAll(H, v.elements) == EncodeAll(H, w.elements) {
          AllEncodingsBind(H, v.elements, w.elements, seq(|v.elements|, _ => e));
        }
      case StructType(s, ts) =>
        if EncodeAll(H, v.fields) == EncodeAll(H, w.fields) {
          AllEncodingsBind(H, v.fields, w.fields, ts);
        } else {
          assert (H(s) + EncodeAll(H, v.fields))[WORD..] == EncodeAll(H, v.fields);
        }
    }
  }

  lemma {:induction false} AllEncodingsBind(H: HashFunction, vs: seq<Value>, ws: seq<Value>, ts: seq<Type>)
    requires IsHash(H) && AllFit(vs, ts) && AllFit(ws, ts) && EncodeAll(H, vs) == EncodeAll(H, ws)
    ensures vs == ws || Collision(H, HashedAll(H, vs), HashedAll(H, ws))
    decreases vs, 1
  {
    if vs != [] {
      EncodeLength(H, vs[0]);
      EncodeLength(H, ws[0]);
      SplitEqual(Encode(H, vs[0]), EncodeAll(H, vs[1..]), Encode(H, ws[0]), EncodeAll(H, ws[1..]));
      EncodingBinds(H, vs[0], ws[0], ts[0]);
      AllEncodingsBind(H, vs[1..], ws[1..], ts[1..]);
      assert vs == [vs[0]] + vs[1..] && ws == [ws[0]] + ws[1..];
    }
  }

  /** Structs of differently named types never share an encoding without a collision. */
  lemma TypesBind(H: HashFunction, v: Value, w: Value)
    requires IsHash(H) && v.Struct? && w.Struct? && v.typeString != w.typeString
    requires Encode(H, v) == Encode(H, w)
    ensures Collision(H, Hashed(H, v), Hashed(H, w))
  {
    var p, q := H(v.typeString) + EncodeAll(H, v.fields), H(w.typeString) + EncodeAll(H, w.fields);
    assert p in Hashed(H, v) && q in Hashed(H, w);
    assert v.typeString in Hashed(H, v) && w.typeString in Hashed(H, w);
    if p == q {
      SplitEqual(H(v.typeString), EncodeAll(H, v.fields), H(w.typeString), EncodeAll(H, w.fields));
    }
  }

  // -------------------------------------------------------------- the four messages

  function Ascii(s: string): (b: bytes)
    ensures |b| == |s|
  {
    seq(|s|, i requires 0 <= i < |s| => s[i] as int % 256)
  }

  const ENTRY_TEXT := "MetadataEntry" + "(" + "string key" + "," + "string value" + ")"
  const CID_TEXT := "Cid" + "(" + "bytes data" + ")"
  const PIECE_METADATA_TEXT := "PieceMetadata" + "(" + "uint256 pieceIndex" + "," + "MetadataEntry[] metadata" + ")"
  const CREATE_TEXT :=
    "CreateDataSet" + "(" + "uint256 clientDataSetId" + "," + "address payee" + "," + "MetadataEntry[] metadata" + ")"
  const ADD_TEXT :=
    "AddPieces" + "(" + "uint256 clientDataSetId" + "," + "uint256 nonce" + "," + "Cid[] pieceData" + ","
    + "PieceMetadata[] pieceMetadata" + ")"
  const SCHEDULE_TEXT := "SchedulePieceRemovals" + "(" + "uint256 clientDataSetId" + "," + "uint256[] pieceIds" + ")"
  const DELETE_TEXT := "DeleteDataSet" + "(" + "uint256 clientDataSetId" + ")"
  const DOMAIN_TEXT :=
    "EIP712Domain" + "(" + "string name" + "," + "string version" + "," + "uint256 chainId" + ","
    + "address verifyingContract" + ")"

  const METADATA_ENTRY := Ascii(ENTRY_TEXT)
  const CREATE_DATA_SET := Ascii(CREATE_TEXT + ENTRY_TEXT)
  const CID := Ascii(CID_TEXT)
  const PIECE_METADATA := Ascii(PIECE_METADATA_TEXT + ENTRY_TEXT)
  const ADD_PIECES := Ascii(ADD_TEXT + CID_TEXT + ENTRY_TEXT + PIECE_METADATA_TEXT)
  const SCHEDULE_PIECE_REMOVALS := Ascii(SCHEDULE_TEXT)
  const DELETE_DATA_SET := Ascii(DELETE_TEXT)
  const DOMAIN := Ascii(DOMAIN_TEXT)

  datatype Message =
    | CreateDataSet(id: nat, payee: bytes, keys: seq<bytes>, values: seq<bytes>)
    | AddPieces(id: nat, nonce: nat, cids: seq<bytes>, keysPerPiece: seq<seq<bytes>>, valuesPerPiece: seq<seq<bytes>>)
    | SchedulePieceRemovals(id: nat, pieceIds: seq<nat>)
    | DeleteDataSet(id: nat)

  /** Metadata of piece i; nothing when the caller supplied no more. */
  function PieceKeys(m: Message, i: nat): seq<bytes>
    requires m.AddPieces?
  {
    if i < |m.keysPerPiece| then m.keysPerPiece[i] else []
  }

  function PieceValues(m: Message, i: nat): seq<bytes>
    requires m.AddPieces? && (i < |m.keysPerPiece| ==> i < |m.valuesPerPiece|)
  {
    if i < |m.keysPerPiece| then m.valuesPerPiece[i] else []
  }

  /** uint256 numbers, 20-byte addresses, a value for every key that is used, and
      fewer than 2^63 pieces. */
  predicate InRange(m: Message) {
    && m.id < WordRange()
    && match m
       case CreateDataSet(_, payee, keys, values) => |payee| == 20 && |keys| <= |values|
       case AddPieces(_, nonce, cids, keys, values) =>
         && nonce < WordRange() && |cids| < TWO_63
         && forall i :: 0 <= i < |cids| && i < |keys| ==> i < |values| && |keys[i]| <= |values[i]|
       case SchedulePieceRemovals(_, ids) => forall i :: 0 <= i < |ids| ==> ids[i] < WordRange()
       case DeleteDataSet(_) => true
  }

  /** Two lists of key-value pairs, values without a key left out. */
  predicate SamePairs(keys: seq<bytes>, values: seq<bytes>, keys': seq<bytes>, values': seq<bytes>)
    requires |keys| <= |values| && |keys'| <= |values'|
  {
    keys == keys' && values[..|keys|] == values'[..|keys'|]
  }

  /** Same message type and same arguments, missing trailing piece metadata
      counting as empty and values without a key not counting. */
  predicate SameArguments(a: Message, b: Message)
    requires InRange(a) && InRange(b)
  {
    match (a, b)
    case (CreateDataSet(id, payee, keys, values), CreateDataSet(id', payee', keys', values')) =>
      id == id' && payee == payee' && SamePairs(keys, values, keys', values')
    case (AddPieces(id, nonce, cids, _, _), AddPieces(id', nonce', cids', _, _)) =>
      && id == id' && nonce == nonce' && cids == cids'
      && forall i :: 0 <= i < |cids| ==>
           SamePairs(PieceKeys(a, i), PieceValues(a, i), PieceKeys(b, i), PieceValues(b, i))
    case _ => a == b
  }

  function EntryValue(key: bytes, value: bytes): Value {
    Struct(METADATA_ENTRY, [Dynamic(key), Dynamic(value)])
  }

  function MetadataValue(keys: seq<bytes>, values: seq<bytes>): Value
    requires |keys| <= |values|
  {
    List(seq(|keys|, i requires 0 <= i < |keys| => EntryValue(keys[i], values[i])))
  }

  function CidValue(cid: bytes): Value {
    Struct(CID, [Dynamic(cid)])
  }

  function PieceMetadataValue(i: nat, keys: seq<bytes>, values: seq<bytes>): Value
    requires |keys| <= |values|
  {
    Struct(PIECE_METADATA, [Uint(i), MetadataValue(keys, values)])
  }

  function CidValues(cids: seq<bytes>): seq<Value> {
    seq(|cids|, i requires 0 <= i < |cids| => CidValue(cids[i]))
  }

  function PieceMetadataValues(m: Message): seq<Value>
    requires m.AddPieces? && InRange(m)
  {
    seq(|m.cids|, i requires 0 <= i < |m.cids| => PieceMetadataValue(i, PieceKeys(m, i), PieceValues(m, i)))
  }

  function UintValues(ns: seq<nat>): seq<Value> {
    seq(|ns|, i requires 0 <= i < |ns| => Uint(ns[i]))
  }

  /** The message as typed structured data. */
  function MessageValue(m: Message): (v: Value)
    requires InRange(m)
    ensures v.Struct?
  {
    match m
    case CreateDataSet(id, payee, keys, values) =>
      Struct(CREATE_DATA_SET, [Uint(id), Address(payee), MetadataValue(keys, values)])
    case AddPieces(id, nonce, cids, _, _) =>
      Struct(ADD_PIECES, [Uint(id), Uint(nonce), List(CidValues(cids)), List(PieceMetadataValues(m))])
    case SchedulePieceRemovals(id, ids) => Struct(SCHEDULE_PIECE_REMOVALS, [Uint(id), List(UintValues(ids))])
    case DeleteDataSet(id) => Struct(DELETE_DATA_SET, [Uint(id)])
  }

  const DOMAIN_NAME := Ascii("FilecoinWarmStorageService")
  const DOMAIN_VERSION := Ascii("1")
  const CHAIN_ID := 31415926

  function DomainValue(contract: bytes): Value {
    Struct(DOMAIN, [Dynamic(DOMAIN_NAME), Dynamic(DOMAIN_VERSION), Uint(CHAIN_ID), Address(contract)])
  }

  function Preimage(H: HashFunction, contract: bytes, m: Message): bytes
    requires InRange(m)
  {
    [0x19, 0x01] + Encode(H, DomainValue(contract)) + Encode(H, MessageValue(m))
  }

  function Digest(H: HashFunction, contract: bytes, m: Message): bytes
    requires InRange(m)
  {
    H(Preimage(H, contract, m))
  }

  /** Every string hashed on the way to the digest. */
  ghost function DigestHashed(H: HashFunction, contract: bytes, m: Message): set<bytes>
    requires InRange(m)
  {
    {Preimage(H, contract, m)} + Hashed(H, DomainValue(contract)) + Hashed(H, MessageValue(m))
  }

  // ----------------------------------------------------------- the code's struct hashes

  method BuildDomainSeparator(H: HashFunction, contract: bytes) returns (h: bytes)
    ensures h == Encode(H, DomainValue(contract))
    ensures h == H(H(DOMAIN) + H(Ascii("FilecoinWarmStorageService")) + H(Ascii("1")) + Word(31415926)
                   + EncodeAddress(contract))
  {
    hide Ascii, Word, EncodeAddress, EncodeBigInt;
    SmallWord(CHAIN_ID);
    var encoded := H(DOMAIN);
    encoded := encoded + H(DOMAIN_NAME);
    encoded := encoded + H(DOMAIN_VERSION);
    encoded := encoded + EncodeBigInt(Some(CHAIN_ID));
    encoded := encoded + EncodeAddress(contract);
    FourFields(H, Dynamic(DOMAIN_NAME), Dynamic(DOMAIN_VERSION), Uint(CHAIN_ID), Address(contract));
    h := H(encoded);
    assert encoded == H(DOMAIN) + (H(DOMAIN_NAME) + H(DOMAIN_VERSION) + Word(CHAIN_ID) + EncodeAddress(contract));
  }

  lemma FourFields(H: HashFunction, a: Value, b: Value, c: Value, d: Value)
    ensures EncodeAll(H, [a]) == Encode(H, a)
    ensures EncodeAll(H, [a, b]) == Encode(H, a) + Encode(H, b)
    ensures EncodeAll(H, [a, b, c]) == Encode(H, a) + Encode(H, b) + Encode(H, c)
    ensures EncodeAll(H, [a, b, c, d]) == Encode(H, a) + Encode(H, b) + Encode(H, c) + Encode(H, d)
  {
    hide Encode;
    EncodeAllSnoc(H, [], a);
    assert [] + [a] == [a];
    EncodeAllSnoc(H, [a], b);
    assert [a] + [b] == [a, b];
    EncodeAllSnoc(H, [a, b], c);
    assert [a, b] + [c] == [a, b, c];
    EncodeAllSnoc(H, [a, b, c], d);
    assert [a, b, c] + [d] == [a, b, c, d];
  }

  method HashMetadataEntry(H: HashFunction, key: bytes, value: bytes) returns (h: bytes)
    ensures h == Encode(H, EntryValue(key, value))
    ensures h == H(H(METADATA_ENTRY) + H(key) + H(value))
  {
    var keyHash := H(key);
    var valueHash := H(value);
    var encoded := H(METADATA_ENTRY);
    encoded := encoded + keyHash;
    encoded := encoded + valueHash;
    FourFields(H, Dynamic(key), Dynamic(value), Uint(0), Uint(0));
    assert encoded == H(METADATA_ENTRY) + (keyHash + valueHash);
    h := H(encoded);
  }

  method HashMetadataEntries(H: HashFunction, keys: seq<bytes>, values: seq<bytes>) returns (h: bytes)
    requires |keys| <= |values|
    ensures h == Encode(H, MetadataValue(keys, values))
  {
    ghost var all := MetadataValue(keys, values).elements;
    if |keys| == 0 {
      assert EncodeAll(H, all) == [];
      return H([]);
    }
    var packed: bytes := [];
    for i := 0 to |keys|
      invariant packed == EncodeAll(H, all[..i])
    {
      var entry := HashMetadataEntry(H, keys[i], values[i]);
      EncodeAllSnoc(H, all[..i], all[i]);
      assert all[..i + 1] == all[..i] + [all[i]];
      packed := packed + entry;
    }
    assert all[..|keys|] == all;
    h := H(packed);
  }

  method CreateDataSetStructHash(H: HashFunction, id: nat, payee: bytes, keys: seq<bytes>, values: seq<bytes>)
    returns (h: bytes)
    requires InRange(CreateDataSet(id, payee, keys, values))
    ensures h == Encode(H, MessageValue(CreateDataSet(id, payee, keys, values)))
    ensures h == H(H(CREATE_DATA_SET) + Word(id) + EncodeAddress(payee) + Encode(H, MetadataValue(keys, values)))
  {
    hide Word, EncodeAddress;
    var metadataHash := HashMetadataEntries(H, keys, values);
    var encoded := H(CREATE_DATA_SET);
    encoded := encoded + EncodeBigInt(Some(id));
    encoded := encoded + EncodeAddress(payee);
    encoded := encoded + metadataHash;
    FourFields(H, Uint(id), Address(payee), MetadataValue(keys, values), Uint(0));
    assert encoded == H(CREATE_DATA_SET) + (Word(id) + EncodeAddress(payee) + metadataHash);
    h := H(encoded);
  }

  method HashCid(H: HashFunction, cid: bytes) returns (h: bytes)
    ensures h == Encode(H, CidValue(cid)) == H(H(CID) + H(cid))
  {
    var encoded := H(CID);
    encoded := encoded + H(cid);
    FourFields(H, Dynamic(cid), Uint(0), Uint(0), Uint(0));
    h := H(encoded);
  }

  method HashPieceMetadata(H: HashFunction, index: nat, keys: seq<bytes>, values: seq<bytes>) returns (h: bytes)
    requires index < WordRange() && |keys| <= |values|
    ensures h == Encode(H, PieceMetadataValue(index, keys, values))
    ensures h == H(H(PIECE_METADATA) + Word(index) + Encode(H, MetadataValue(keys, values)))
  {
    var metadataHash := HashMetadataEntries(H, keys, values);
    var encoded := H(PIECE_METADATA);
    encoded := encoded + EncodeBigInt(Some(index));
    encoded := encoded + metadataHash;
    FourFields(H, Uint(index), MetadataValue(keys, values), Uint(0), Uint(0));
    assert encoded == H(PIECE_METADATA) + (Word(index) + metadataHash);
    h := H(encoded);
  }

  method AddPiecesStructHash(H: HashFunction, id: nat, nonce: nat, cids: seq<bytes>,
                             keysPerPiece: seq<seq<bytes>>, valuesPerPiece: seq<seq<bytes>>)
    returns (h: bytes)
    requires InRange(AddPieces(id, nonce, cids, keysPerPiece, valuesPerPiece))
    ensures h == Encode(H, MessageValue(AddPieces(id, nonce, cids, keysPerPiece, valuesPerPiece)))
    ensures h == H(H(ADD_PIECES) + Word(id) + Word(nonce) + Encode(H, List(CidValues(cids)))
                   + Encode(H, List(PieceMetadataValues(AddPieces(id, nonce, cids, keysPerPiece, valuesPerPiece)))))
  {
    hide Encode, EncodeAll, Word, EncodeBigInt, MessageValue;
    EmptyEncoding(H);
    NumberWord(id);
    NumberWord(nonce);
    ghost var m := AddPieces(id, nonce, cids, keysPerPiece, valuesPerPiece);
    var cidHashes: bytes := [];
    for i := 0 to |cids|
      invariant cidHashes == EncodeAll(H, CidValues(cids)[..i])
    {
      var c := HashCid(H, cids[i]);
      EncodeAllTake(H, CidValues(cids), i);
      cidHashes := cidHashes + c;
    }
    assert CidValues(cids)[..|cids|] == CidValues(cids);
    var pieceDataHash := H(cidHashes);

    var metaHashes: bytes := [];
    for i := 0 to |cids|
      invariant metaHashes == EncodeAll(H, PieceMetadataValues(m)[..i])
    {
      var keys: seq<bytes>, vals: seq<bytes> := [], [];
      if i < |keysPerPiece| {
        keys := keysPerPiece[i];
        vals := valuesPerPiece[i];
      }
      var p := HashPieceMetadata(H, i, keys, vals);
      EncodeAllTake(H, PieceMetadataValues(m), i);
      metaHashes := metaHashes + p;
    }
    assert PieceMetadataValues(m)[..|cids|] == PieceMetadataValues(m);
    var pieceMetadataHash := H(metaHashes);

    var encoded := H(ADD_PIECES);
    encoded := encoded + EncodeBigInt(Some(id));
    encoded := encoded + EncodeBigInt(Some(nonce));
    encoded := encoded + pieceDataHash;
    encoded := encoded + pieceMetadataHash;
    AddPiecesFields(H, m);
    assert encoded == H(ADD_PIECES) + Word(id) + Word(nonce) + pieceDataHash + pieceMetadataHash;
    assert encoded == H(ADD_PIECES) + (Word(id) + Word(nonce) + pieceDataHash + pieceMetadataHash);
    h := H(encoded);
  }

  lemma EmptyEncoding(H: HashFunction)
    ensures EncodeAll(H, []) == []
  {
  }

  lemma EncodeAllTake(H: HashFunction, vs: seq<Value>, i: nat)
    requires i < |vs|
    ensures EncodeAll(H, vs[..i + 1]) == EncodeAll(H, vs[..i]) + Encode(H, vs[i])
  {
    assert vs[..i + 1] == vs[..i] + [vs[i]];
    EncodeAllSnoc(H, vs[..i], vs[i]);
  }

  lemma AddPiecesFields(H: HashFunction, m: Message)
    requires m.AddPieces? && InRange(m)
    ensures Encode(H, MessageValue(m))
         == H(H(ADD_PIECES) + (Word(m.id) + Word(m.nonce) + H(EncodeAll(H, CidValues(m.cids)))
                               + H(EncodeAll(H, PieceMetadataValues(m)))))
    ensures Encode(H, List(CidValues(m.cids))) == H(EncodeAll(H, CidValues(m.cids)))
    ensures Encode(H, List(PieceMetadataValues(m))) == H(EncodeAll(H, PieceMetadataValues(m)))
  {
    FourFields(H, Uint(m.id), Uint(m.nonce), List(CidValues(m.cids)), List(PieceMetadataValues(m)));
  }

  method SchedulePieceRemovalsStructHash(H: HashFunction, id: nat, pieceIds: seq<nat>) returns (h: bytes)
    requires InRange(SchedulePieceRemovals(id, pieceIds))
    ensures h == Encode(H, MessageValue(SchedulePieceRemovals(id, pieceIds)))
    ensures h == H(H(SCHEDULE_PIECE_REMOVALS) + Word(id) + Encode(H, List(UintValues(pieceIds))))
  {
    hide Ascii, Word, EncodeBigInt, EncodeAll;
    EmptyEncoding(H);
    NumberWord(id);
    var packed: bytes := [];
    for i := 0 to |pieceIds|
      invariant packed == EncodeAll(H, UintValues(pieceIds)[..i])
    {
      NumberWord(pieceIds[i]);
      EncodeAllTake(H, UintValues(pieceIds), i);
      packed := packed + EncodeBigInt(Some(pieceIds[i]));
    }
    assert UintValues(pieceIds)[..|pieceIds|] == UintValues(pieceIds);
    var pieceIdsHash := H(packed);
    var encoded := H(SCHEDULE_PIECE_REMOVALS);
    encoded := encoded + EncodeBigInt(Some(id));
    encoded := encoded + pieceIdsHash;
    FourFields(H, Uint(id), List(UintValues(pieceIds)), Uint(0), Uint(0));
    assert encoded == H(SCHEDULE_PIECE_REMOVALS) + (Word(id) + pieceIdsHash);
    h := H(encoded);
  }

  method DeleteDataSetStructHash(H: HashFunction, id: nat) returns (h: bytes)
    requires InRange(DeleteDataSet(id))
    ensures h == Encode(H, MessageValue(DeleteDataSet(id))) == H(H(DELETE_DATA_SET) + Word(id))
  {
    var encoded := H(DELETE_DATA_SET);
    encoded := encoded + EncodeBigInt(Some(id));
    FourFields(H, Uint(id), Uint(0), Uint(0), Uint(0));
    h := H(encoded);
  }

  method BuildEip712Digest(H: HashFunction, domainSeparator: bytes, structHash: bytes,
                           ghost contract: bytes, ghost m: Message) returns (h: bytes)
    requires InRange(m)
    requires domainSeparator == Encode(H, DomainValue(contract)) && structHash == Encode(H, MessageValue(m))
    ensures h == Digest(H, contract, m) == H([0x19, 0x01] + domainSeparator + structHash)
  {
    var msg: bytes := [0x19, 0x01];
    msg := msg + domainSeparator;
    msg := msg + structHash;
    h := H(msg);
  }

  // ------------------------------------------------------------- what a digest binds

  function EntryType(): Type {
    StructType(METADATA_ENTRY, [DynamicType, DynamicType])
  }

  function MessageType(m: Message): Type {
    match m
    case CreateDataSet(_, _, _, _) => StructType(CREATE_DATA_SET, [UintType, AddressType, ListType(EntryType())])
    case AddPieces(_, _, _, _, _) =>
      StructType(ADD_PIECES,
        [UintType, UintType, ListType(CidType()), ListType(PieceMetadataType())])
    case SchedulePieceRemovals(_, _) => StructType(SCHEDULE_PIECE_REMOVALS, [UintType, ListType(UintType)])
    case DeleteDataSet(_) => StructType(DELETE_DATA_SET, [UintType])
  }

  lemma {:induction false} AllFitFromEach(vs: seq<Value>, t: Type)
    requires forall i :: 0 <= i < |vs| ==> Fits(vs[i], t)
    ensures AllFit(vs, seq(|vs|, _ => t))
  {
    if vs != [] {
      AllFitFromEach(vs[1..], t);
      assert seq(|vs|, _ => t)[1..] == seq(|vs[1..]|, _ => t);
    }
  }

  lemma FieldsFit(a: Value, b: Value, c: Value, d: Value, s: Type, t: Type, u: Type, v: Type)
    ensures Fits(a, s) ==> AllFit([a], [s])
    ensures Fits(a, s) && Fits(b, t) ==> AllFit([a, b], [s, t])
    ensures Fits(a, s) && Fits(b, t) && Fits(c, u) ==> AllFit([a, b, c], [s, t, u])
    ensures Fits(a, s) && Fits(b, t) && Fits(c, u) && Fits(d, v) ==> AllFit([a, b, c, d], [s, t, u, v])
  {
    hide Fits;
    assert [a, b, c, d][1..] == [b, c, d] && [b, c, d][1..] == [c, d] && [c, d][1..] == [d];
    assert [s, t, u, v][1..] == [t, u, v] && [t, u, v][1..] == [u, v] && [u, v][1..] == [v];
    assert [a, b, c][1..] == [b, c] && [b, c][1..] == [c] && [a, b][1..] == [b];
    assert [s, t, u][1..] == [t, u] && [t, u][1..] == [u] && [s, t][1..] == [t];
    assert [a][1..] == [] && [b][1..] == [] && [c][1..] == [] && [d][1..] == [];
    assert [s][1..] == [] && [t][1..] == [] && [u][1..] == [] && [v][1..] == [];
    if Fits(d, v) { assert AllFit([d], [v]); }
    if Fits(c, u) { assert AllFit([c], [u]); }
    if Fits(b, t) { assert AllFit([b], [t]); }
    if Fits(c, u) && Fits(d, v) { assert AllFit([c, d], [u, v]); }
    if Fits(b, t) && Fits(c, u) { assert AllFit([b, c], [t, u]); }
    if Fits(b, t) && Fits(c, u) && Fits(d, v) { assert AllFit([b, c, d], [t, u, v]); }
  }

  lemma MetadataFits(keys: seq<bytes>, values: seq<bytes>)
    requires |keys| <= |values|
    ensures Fits(MetadataValue(keys, values), ListType(EntryType()))
  {
    var es := MetadataValue(keys, values).elements;
    forall i | 0 <= i < |es| ensures Fits(es[i], EntryType()) {
      FieldsFit(Dynamic(keys[i]), Dynamic(values[i]), Uint(0), Uint(0),
                DynamicType, DynamicType, UintType, UintType);
    }
    AllFitFromEach(es, EntryType());
  }

  lemma MessageFits(m: Message)
    requires InRange(m)
    ensures Fits(MessageValue(m), MessageType(m))
  {
    match m {
      case CreateDataSet(_, _, _, _) => CreateFits(m);
      case AddPieces(_, _, _, _, _) => AddPiecesFits(m);
      case SchedulePieceRemovals(_, _) => RemovalsFit(m);
      case DeleteDataSet(id) =>
        FieldsFit(Uint(id), Uint(0), Uint(0), Uint(0), UintType, UintType, UintType, UintType);
    }
  }

  function CidType(): Type {
    StructType(CID, [DynamicType])
  }

  function PieceMetadataType(): Type {
    StructType(PIECE_METADATA, [UintType, ListType(EntryType())])
  }

  lemma CidsFit(cids: seq<bytes>)
    ensures Fits(List(CidValues(cids)), ListType(CidType()))
  {
    var cs := CidValues(cids);
    forall i | 0 <= i < |cs| ensures Fits(cs[i], CidType()) {
      FieldsFit(Dynamic(cids[i]), Uint(0), Uint(0), Uint(0), DynamicType, UintType, UintType, UintType);
    }
    AllFitFromEach(cs, CidType());
  }

  lemma PieceMetadataFits(m: Message)
    requires m.AddPieces? && InRange(m)
    ensures Fits(List(PieceMetadataValues(m)), ListType(PieceMetadataType()))
  {
    hide Ascii, MetadataValue;
    var ps := PieceMetadataValues(m);
    forall i | 0 <= i < |ps| ensures Fits(ps[i], PieceMetadataType()) {
      var metadata := MetadataValue(PieceKeys(m, i), PieceValues(m, i));
      MetadataFits(PieceKeys(m, i), PieceValues(m, i));
      FieldsFit(Uint(i), metadata, Uint(0), Uint(0), UintType, ListType(EntryType()), UintType, UintType);
    }
    AllFitFromEach(ps, PieceMetadataType());
  }

  lemma AddPiecesFits(m: Message)
    requires m.AddPieces? && InRange(m)
    ensures Fits(MessageValue(m), MessageType(m))
  {
    hide Ascii;
    CidsFit(m.cids);
    PieceMetadataFits(m);
    FieldsFit(Uint(m.id), Uint(m.nonce), List(CidValues(m.cids)), List(PieceMetadataValues(m)),
              UintType, UintType, ListType(CidType()), ListType(PieceMetadataType()));
  }

  lemma CreateFits(m: Message)
    requires m.CreateDataSet? && InRange(m)
    ensures Fits(MessageValue(m), MessageType(m))
  {
    hide Ascii, MetadataValue;
    MetadataFits(m.keys, m.values);
    FieldsFit(Uint(m.id), Address(m.payee), MetadataValue(m.keys, m.values), Uint(0),
              UintType, AddressType, ListType(EntryType()), UintType);
  }

  lemma UintsFit(ns: seq<nat>)
    requires forall i :: 0 <= i < |ns| ==> ns[i] < WordRange()
    ensures Fits(List(UintValues(ns)), ListType(UintType))
  {
    hide WordRange;
    AllFitFromEach(UintValues(ns), UintType);
  }

  lemma RemovalsFit(m: Message)
    requires m.SchedulePieceRemovals? && InRange(m)
    ensures Fits(MessageValue(m), MessageType(m))
  {
    hide Ascii, UintValues;
    UintsFit(m.pieceIds);
    FieldsFit(Uint(m.id), List(UintValues(m.pieceIds)), Uint(0), Uint(0),
              UintType, ListType(UintType), UintType, UintType);
  }

  lemma DomainFits(contract: bytes)
    requires |contract| == 20
    ensures Fits(DomainValue(contract), StructType(DOMAIN, [DynamicType, DynamicType, UintType, AddressType]))
  {
    FieldsFit(Dynamic(DOMAIN_NAME), Dynamic(DOMAIN_VERSION), Uint(CHAIN_ID), Address(contract),
              DynamicType, DynamicType, UintType, AddressType);
  }

  lemma MetadataInjective(keys: seq<bytes>, values: seq<bytes>, keys': seq<bytes>, values': seq<bytes>)
    requires |keys| <= |values| && |keys'| <= |values'|
    ensures MetadataValue(keys, values) == MetadataValue(keys', values') <==> SamePairs(keys, values, keys', values')
  {
    var es, es' := MetadataValue(keys, values).elements, MetadataValue(keys', values').elements;
    if es == es' {
      assert |keys| == |es| == |es'| == |keys'|;
      forall i | 0 <= i < |keys| ensures keys[i] == keys'[i] && values[i] == values'[i] {
        assert es[i].fields[0] == es'[i].fields[0] && es[i].fields[1] == es'[i].fields[1];
      }
    }
    if SamePairs(keys, values, keys', values') {
      forall i | 0 <= i < |keys| ensures es[i] == es'[i] {
        assert values[..|keys|][i] == values'[..|keys'|][i];
      }
    }
  }

  lemma TypeStringsDiffer()
    ensures CREATE_DATA_SET[0] == 'C' as int && ADD_PIECES[0] == 'A' as int
    ensures SCHEDULE_PIECE_REMOVALS[0] == 'S' as int && DELETE_DATA_SET[0] == 'D' as int
  {
  }

  /** Typed data and arguments determine each other. */
  lemma ValueMeansArguments(a: Message, b: Message)
    requires InRange(a) && InRange(b)
    ensures MessageValue(a) == MessageValue(b) <==> SameArguments(a, b)
  {
    TypeStringsDiffer();
    var v, w := MessageValue(a), MessageValue(b);
    match (a, b) {
      case (CreateDataSet(_, _, k, x), CreateDataSet(_, _, k', x')) =>
        MetadataInjective(k, x, k', x');
        assert v == w ==> v.fields[0] == w.fields[0] && v.fields[1] == w.fields[1] && v.fields[2] == w.fields[2];
      case (AddPieces(_, _, _, _, _), AddPieces(_, _, _, _, _)) =>
        AddPiecesMeansArguments(a, b);
      case (SchedulePieceRemovals(_, ids), SchedulePieceRemovals(_, ids')) =>
        UintsInjective(ids, ids');
        assert v == w ==> v.fields[0] == w.fields[0] && v.fields[1] == w.fields[1];
      case (DeleteDataSet(_), DeleteDataSet(_)) =>
        assert v == w ==> v.fields[0] == w.fields[0];
      case _ =>
        assert v.typeString[0] != w.typeString[0];
    }
  }

  lemma UintsInjective(ns: seq<nat>, ns': seq<nat>)
    ensures UintValues(ns) == UintValues(ns') <==> ns == ns'
  {
    if UintValues(ns) == UintValues(ns') {
      assert |ns| == |UintValues(ns)| == |ns'|;
      forall i | 0 <= i < |ns| ensures ns[i] == ns'[i] {
        assert UintValues(ns)[i] == UintValues(ns')[i];
      }
    }
  }

  lemma CidsInjective(cs: seq<bytes>, cs': seq<bytes>)
    ensures CidValues(cs) == CidValues(cs') <==> cs == cs'
  {
    if CidValues(cs) == CidValues(cs') {
      assert |cs| == |CidValues(cs)| == |cs'|;
      forall i | 0 <= i < |cs| ensures cs[i] == cs'[i] {
        assert CidValues(cs)[i].fields[0] == CidValues(cs')[i].fields[0];
      }
    }
  }

  lemma AddPiecesMeansArguments(a: Message, b: Message)
    requires a.AddPieces? && b.AddPieces? && InRange(a) && InRange(b)
    ensures MessageValue(a) == MessageValue(b) <==> SameArguments(a, b)
  {
    var v, w := MessageValue(a), MessageValue(b);
    CidsInjective(a.cids, b.cids);
    assert v == w ==> v.fields[0] == w.fields[0] && v.fields[1] == w.fields[1]
                      && v.fields[2] == w.fields[2] && v.fields[3] == w.fields[3];
    forall i | 0 <= i < |a.cids| && |a.cids| == |b.cids|
      ensures PieceMetadataValues(a)[i] == PieceMetadataValues(b)[i]
              <==> SamePairs(PieceKeys(a, i), PieceValues(a, i), PieceKeys(b, i), PieceValues(b, i))
    {
      MetadataInjective(PieceKeys(a, i), PieceValues(a, i), PieceKeys(b, i), PieceValues(b, i));
      var p, q := PieceMetadataValues(a)[i], PieceMetadataValues(b)[i];
      assert p == q ==> p.fields[1] == q.fields[1];
    }
    if SameArguments(a, b) {
      assert PieceMetadataValues(a) == PieceMetadataValues(b);
    }
  }

  lemma MessagesBind(H: HashFunction, a: Message, b: Message)
    requires IsHash(H) && InRange(a) && InRange(b)
    requires Encode(H, MessageValue(a)) == Encode(H, MessageValue(b))
    ensures SameArguments(a, b) || Collision(H, Hashed(H, MessageValue(a)), Hashed(H, MessageValue(b)))
  {
    hide Encode, Hashed, Fits, SameArguments, MessageValue;
    ValueMeansArguments(a, b);
    TypeStringsDiffer();
    MessageFits(a);
    MessageFits(b);
    if MessageType(a) == MessageType(b) {
      EncodingBinds(H, MessageValue(a), MessageValue(b), MessageType(a));
    } else {
      DifferentTypes(a, b);
      TypesBind(H, MessageValue(a), MessageValue(b));
    }
  }

  lemma DifferentTypes(a: Message, b: Message)
    requires InRange(a) && InRange(b) && MessageType(a) != MessageType(b)
    ensures MessageValue(a).typeString != MessageValue(b).typeString
  {
    TypeStringsDiffer();
    assert MessageValue(a).typeString[0] != MessageValue(b).typeString[0];
  }

  /** Equal digests mean the same contract, message type and arguments, or two
      of the strings hashed for the two digests collide; and the same contract
      and arguments always give the same digest. */
  lemma DigestBinds(H: HashFunction, contract: bytes, a: Message, contract': bytes, b: Message)
    requires IsHash(H) && InRange(a) && InRange(b) && |contract| == |contract'| == 20
    ensures Digest(H, contract, a) == Digest(H, contract', b) ==>
              || (contract == contract' && SameArguments(a, b))
              || Collision(H, DigestHashed(H, contract, a), DigestHashed(H, contract', b))
    ensures contract == contract' && SameArguments(a, b) ==> Digest(H, contract, a) == Digest(H, contract', b)
  {
    hide Encode, Hashed, Fits, SameArguments, MessageValue, DomainValue;
    ValueMeansArguments(a, b);
    var p, q := Preimage(H, contract, a), Preimage(H, contract', b);
    if H(p) == H(q) && p == q {
      var d, d' := DomainValue(contract), DomainValue(contract');
      EncodeLength(H, d);
      EncodeLength(H, d');
      SplitEqual([0x19, 0x01] + Encode(H, d), Encode(H, MessageValue(a)),
                 [0x19, 0x01] + Encode(H, d'), Encode(H, MessageValue(b)));
      SplitEqual([0x19, 0x01], Encode(H, d), [0x19, 0x01], Encode(H, d'));
      DomainsBind(H, contract, contract');
      MessagesBind(H, a, b);
    }
  }

  lemma DomainsBind(H: HashFunction, c: bytes, c': bytes)
    requires IsHash(H) && |c| == |c'| == 20 && Encode(H, DomainValue(c)) == Encode(H, DomainValue(c'))
    ensures c == c' || Collision(H, Hashed(H, DomainValue(c)), Hashed(H, DomainValue(c')))
  {
    hide Encode, Hashed, Fits;
    DomainFits(c);
    DomainFits(c');
    EncodingBinds(H, DomainValue(c), DomainValue(c'),
                  StructType(DOMAIN, [DynamicType, DynamicType, UintType, AddressType]));
    assert DomainValue(c).fields[3] == Address(c) && DomainValue(c').fields[3] == Address(c');
  }
}
