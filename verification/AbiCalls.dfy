/** The argument tuples foc_vectors.go hand-encodes, each with the reference
    decoding of its standard ABI type, and the event logs events.go parses. */
module AbiCalls {
  import opened Bytes
  import opened Abi

  // ------------------------------------------------------------- extra data

  /** (address payer, uint256 id, string[] keys, string[] values, bytes sig) */
  datatype CreateExtra = CreateExtra(payer: bytes, id: nat, keys: seq<bytes>, values: seq<bytes>, sig: bytes)

  function DecodeCreateExtra(buf: bytes): Option<CreateExtra> {
    match (AddressAt(buf, 0), WordAt(buf, 32), Follow(buf, 64, StringArrayAt),
           Follow(buf, 96, StringArrayAt), Follow(buf, 128, BytesAt))
    case (Some(payer), Some(id), Some(keys), Some(values), Some(sig)) =>
      Some(CreateExtra(payer, id, keys, values, sig))
    case _ => None
  }

  method EncodeCreateDataSetExtra(payer: bytes, id: int, keys: seq<bytes>, values: seq<bytes>, sig: bytes)
    returns (buf: bytes)
    requires 160 + |StringArray(keys)| + |StringArray(values)| + |Blob(sig)| < TWO_63
    ensures DecodeCreateExtra(buf) == Some(CreateExtra(AddressValue(payer), WordValue(id), keys, values, sig))
    ensures var valuesAt := 160 + |StringArray(keys)|;
            var sigAt := valuesAt + |StringArray(values)|;
            buf == EncodeAddress(payer) + EncodeBigInt(Some(id)) + EncodeBigInt(Some(160))
                   + EncodeBigInt(Some(valuesAt)) + EncodeBigInt(Some(sigAt))
                   + StringArray(keys) + StringArray(values) + Blob(sig)
  {
    hide StringArray, EncodeBigInt, EncodeAddress, DecodeCreateExtra;
    var headSize := 5 * 32;
    var keysEncoded := EncodeStringArray(keys);
    var valuesEncoded := EncodeStringArray(values);
    var sigEncoded := EncodeBytes(sig);

    var keysOffset := headSize;
    var valuesOffset := headSize + |keysEncoded|;
    var sigOffset := headSize + |keysEncoded| + |valuesEncoded|;

    buf := [];
    buf := buf + EncodeAddress(payer);
    buf := buf + EncodeBigInt(Some(id));
    buf := buf + EncodeBigInt(Some(keysOffset));
    buf := buf + EncodeBigInt(Some(valuesOffset));
    buf := buf + EncodeBigInt(Some(sigOffset));
    buf := buf + keysEncoded;
    buf := buf + valuesEncoded;
    buf := buf + sigEncoded;
    CreateExtraDecodes(buf, payer, id, keys, values, sig);
  }

  lemma CreateExtraDecodes(buf: bytes, payer: bytes, id: int, keys: seq<bytes>, values: seq<bytes>, sig: bytes)
    requires 160 + |StringArray(keys)| + |StringArray(values)| + |Blob(sig)| < TWO_63
    requires buf == EncodeAddress(payer) + EncodeBigInt(Some(id)) + EncodeBigInt(Some(160))
                  + EncodeBigInt(Some(160 + |StringArray(keys)|))
                  + EncodeBigInt(Some(160 + |StringArray(keys)| + |StringArray(values)|))
                  + StringArray(keys) + StringArray(values) + Blob(sig)
    ensures DecodeCreateExtra(buf) == Some(CreateExtra(AddressValue(payer), WordValue(id), keys, values, sig))
  {
    hide EncodeBigInt, EncodeAddress, StringArray, Blob, StringArrayAt, BytesAt, AddressAt, WordAt;
    var k, v := 160 + |StringArray(keys)|, 160 + |StringArray(keys)| + |StringArray(values)|;
    var w1, w2, w3 := EncodeBigInt(Some(160)), EncodeBigInt(Some(k)), EncodeBigInt(Some(v));
    var heads := [EncodeAddress(payer), EncodeBigInt(Some(id)), w1, w2, w3];
    ConcatDisplays(heads[0], heads[1], w1, w2, w3);
    TuplePositions(buf, heads, StringArray(keys), StringArray(values), Blob(sig));
    assert At(buf, 0, heads[0]) && At(buf, 32, heads[1]) && At(buf, 64, heads[2]);
    assert At(buf, 96, heads[3]) && At(buf, 128, heads[4]);
    AddressHere(buf, 0, payer);
    NumberHere(buf, 32, id);
    NumberHere(buf, 64, 160);
    NumberHere(buf, 96, k);
    NumberHere(buf, 128, v);
    StringArrayHere(buf, 160, keys);
    StringArrayHere(buf, k, values);
    BlobHere(buf, v, sig);
  }

  lemma WholeHere(buf: bytes, h: bytes, a: bytes, b: bytes, c: bytes)
    requires buf == h + a + b + c
    ensures At(buf, 0, h + (a + (b + c)))
  {
    assert buf == h + (a + (b + c));
  }

  /** Where the head words of a tuple and its (up to three) tails stand. */
  lemma TuplePositions(buf: bytes, heads: seq<bytes>, a: bytes, b: bytes, c: bytes)
    requires forall i :: 0 <= i < |heads| ==> |heads[i]| == WORD
    requires buf == Concat(heads) + a + b + c
    ensures forall i :: 0 <= i < |heads| ==> At(buf, WORD * i, heads[i])
    ensures At(buf, WORD * |heads|, a)
    ensures At(buf, WORD * |heads| + |a|, b)
    ensures At(buf, WORD * |heads| + |a| + |b|, c)
  {
    hide At, Concat;
    var h := Concat(heads);
    ConcatWords(heads);
    WholeHere(buf, h, a, b, c);
    AtSplit(buf, 0, h, a + (b + c));
    AtSplit(buf, |h|, a, b + c);
    AtSplit(buf, |h| + |a|, b, c);
    forall i | 0 <= i < |heads| ensures At(buf, WORD * i, heads[i]) {
      AtWords(buf, 0, heads, i);
    }
  }

  /** (uint256 nonce, string[][] keys, string[][] values, bytes sig) */
  datatype AddExtra = AddExtra(nonce: nat, keys: seq<seq<bytes>>, values: seq<seq<bytes>>, sig: bytes)

  function DecodeAddExtra(buf: bytes): Option<AddExtra> {
    match (WordAt(buf, 0), Follow(buf, 32, ArraysAt), Follow(buf, 64, ArraysAt), Follow(buf, 96, BytesAt))
    case (Some(nonce), Some(keys), Some(values), Some(sig)) => Some(AddExtra(nonce, keys, values, sig))
    case _ => None
  }

  method EncodeAddPiecesExtraData(nonce: int, numPieces: nat, sig: bytes) returns (buf: bytes)
    requires 128 + 2 * |EmptyArrays(numPieces)| + |Blob(sig)| < TWO_63
    ensures DecodeAddExtra(buf)
         == Some(AddExtra(WordValue(nonce), EmptyLists(numPieces), EmptyLists(numPieces), sig))
    ensures var lists := EmptyArrays(numPieces);
            buf == EncodeBigInt(Some(nonce)) + EncodeBigInt(Some(128)) + EncodeBigInt(Some(128 + |lists|))
                   + EncodeBigInt(Some(128 + |lists| + |lists|)) + lists + lists + Blob(sig)
  {
    hide EmptyArrays, EncodeBigInt, DecodeAddExtra;
    var keysEncoded := AbiEncodeEmptyStringArrayArray(numPieces);
    var valsEncoded := AbiEncodeEmptyStringArrayArray(numPieces);
    var sigEncoded := EncodeBytes(sig);

    var headSize := 4 * 32;
    var keysOffset := headSize;
    var valsOffset := keysOffset + |keysEncoded|;
    var sigOffset := valsOffset + |valsEncoded|;

    buf := [];
    buf := buf + EncodeBigInt(Some(nonce));
    buf := buf + EncodeBigInt(Some(keysOffset));
    buf := buf + EncodeBigInt(Some(valsOffset));
    buf := buf + EncodeBigInt(Some(sigOffset));
    buf := buf + keysEncoded;
    buf := buf + valsEncoded;
    buf := buf + sigEncoded;
    AddExtraDecodes(buf, nonce, numPieces, sig);
  }

  lemma AddExtraDecodes(buf: bytes, nonce: int, n: nat, sig: bytes)
    requires 128 + 2 * |EmptyArrays(n)| + |Blob(sig)| < TWO_63
    requires buf == EncodeBigInt(Some(nonce)) + EncodeBigInt(Some(128))
                  + EncodeBigInt(Some(128 + |EmptyArrays(n)|))
                  + EncodeBigInt(Some(128 + |EmptyArrays(n)| + |EmptyArrays(n)|))
                  + EmptyArrays(n) + EmptyArrays(n) + Blob(sig)
    ensures DecodeAddExtra(buf) == Some(AddExtra(WordValue(nonce), EmptyLists(n), EmptyLists(n), sig))
  {
    hide EncodeBigInt, EmptyArrays, Blob, ArraysAt, BytesAt, WordAt;
    var v, g := 128 + |EmptyArrays(n)|, 128 + |EmptyArrays(n)| + |EmptyArrays(n)|;
    var heads := [EncodeBigInt(Some(nonce)), EncodeBigInt(Some(128)), EncodeBigInt(Some(v)), EncodeBigInt(Some(g))];
    ConcatDisplays(heads[0], heads[1], heads[2], heads[3], []);
    TuplePositions(buf, heads, EmptyArrays(n), EmptyArrays(n), Blob(sig));
    assert At(buf, 0, heads[0]) && At(buf, 32, heads[1]) && At(buf, 64, heads[2]) && At(buf, 96, heads[3]);
    NumberHere(buf, 0, nonce);
    NumberHere(buf, 32, 128);
    NumberHere(buf, 64, v);
    NumberHere(buf, 96, g);
    EmptyArraysHere(buf, 128, n);
    EmptyArraysHere(buf, v, n);
    BlobHere(buf, g, sig);
  }

  // ------------------------------------------------- calldata with fixed offsets

  /** schedulePieceDeletions(uint256 setId, uint256[] pieceIds, bytes extra) */
  datatype Deletion = Deletion(setId: nat, pieceIds: seq<nat>, extra: bytes)

  function DecodeDeletion(args: bytes): Option<Deletion> {
    match (WordAt(args, 0), Follow(args, 32, UintArrayAt), Follow(args, 64, BytesAt))
    case (Some(id), Some(pieces), Some(extra)) => Some(Deletion(id, pieces, extra))
    case _ => None
  }

  method DeletionCalldata(selector: bytes, setId: int, pieceId: int, sig: bytes) returns (calldata: bytes)
    requires |selector| == 4 && |sig| + 63 < TWO_63
    ensures |calldata| >= 4 && calldata[..4] == selector
    ensures DecodeDeletion(calldata[4..]) == Some(Deletion(WordValue(setId), [WordValue(pieceId)], sig))
    ensures calldata == selector + Concat([EncodeBigInt(Some(setId)), EncodeBigInt(Some(96)), EncodeBigInt(Some(160)),
                                           EncodeBigInt(Some(1)), EncodeBigInt(Some(pieceId)), Blob(sig)])
  {
    hide EncodeBigInt, DecodeDeletion;
    var extra := EncodeBytes(sig);
    var args := [EncodeBigInt(Some(setId)), EncodeBigInt(Some(96)), EncodeBigInt(Some(160)),
                 EncodeBigInt(Some(1)), EncodeBigInt(Some(pieceId)), extra];
    calldata := BuildCalldata(selector, args);
    ConcatSnoc(args[..5], extra);
    assert args == args[..5] + [extra];
    assert args[..5] == [args[0], args[1], args[2], args[3], args[4]];
    assert calldata[4..] == Concat(args[..5]) + extra;
    DeletionDecodes(calldata[4..], args[..5], setId, pieceId, sig);
  }

  lemma DeletionDecodes(args: bytes, heads: seq<bytes>, setId: int, pieceId: int, sig: bytes)
    requires |sig| < TWO_63
    requires heads == [EncodeBigInt(Some(setId)), EncodeBigInt(Some(96)), EncodeBigInt(Some(160)),
                       EncodeBigInt(Some(1)), EncodeBigInt(Some(pieceId))]
    requires args == Concat(heads) + Blob(sig)
    ensures DecodeDeletion(args) == Some(Deletion(WordValue(setId), [WordValue(pieceId)], sig))
  {
    hide EncodeBigInt, Blob, BytesAt, WordAt;
    assert args == Concat(heads) + Blob(sig) + [] + [];
    TuplePositions(args, heads, Blob(sig), [], []);
    assert At(args, 0, heads[0]) && At(args, 32, heads[1]) && At(args, 64, heads[2]);
    assert At(args, 96, heads[3]) && At(args, 128, heads[4]);
    NumberHere(args, 0, setId);
    NumberHere(args, 32, 96);
    NumberHere(args, 64, 160);
    NumberHere(args, 96, 1);
    NumberHere(args, 128, pieceId);
    BlobHere(args, 160, sig);
    assert [WordValue(pieceId)] + [] == [WordValue(pieceId)];
    assert UintsFrom(args, 160, 0) == Some([]);
    assert UintArrayAt(args, 96) == Some([WordValue(pieceId)]);
  }

  /** deleteDataSet(uint256 setId, bytes extra) */
  function DecodeDeleteSet(args: bytes): Option<(nat, bytes)> {
    match (WordAt(args, 0), Follow(args, 32, BytesAt))
    case (Some(id), Some(extra)) => Some((id, extra))
    case _ => None
  }

  method DeleteDataSetCalldata(selector: bytes, setId: int, sig: bytes) returns (calldata: bytes)
    requires |selector| == 4 && |sig| + 63 < TWO_63
    ensures |calldata| >= 4 && calldata[..4] == selector
    ensures DecodeDeleteSet(calldata[4..]) == Some((WordValue(setId), sig))
    ensures calldata == selector + Concat([EncodeBigInt(Some(setId)), EncodeBigInt(Some(64)), Blob(sig)])
  {
    var extra := EncodeBytes(sig);
    hide EncodeBigInt, Blob, BytesAt, WordAt;
    var head, offset := EncodeBigInt(Some(setId)), EncodeBigInt(Some(64));
    calldata := BuildCalldata(selector, [head, offset, extra]);
    var args := calldata[4..];
    ConcatDisplays(head, offset, extra, [], []);
    assert args == Concat([head, offset]) + extra + [] + [];
    TuplePositions(args, [head, offset], extra, [], []);
    assert At(args, 0, [head, offset][0]) && At(args, 32, [head, offset][1]);
    NumberHere(args, 0, setId);
    NumberHere(args, 32, 64);
    BlobHere(args, 64, sig);
  }

  /** createDataSet(address service, bytes extra) */
  function DecodeCreateCall(args: bytes): Option<(bytes, bytes)> {
    match (AddressAt(args, 0), Follow(args, 32, BytesAt))
    case (Some(service), Some(extra)) => Some((service, extra))
    case _ => None
  }

  method BuildCreateDataSetCalldata(selector: bytes, service: bytes, extraData: bytes) returns (calldata: bytes)
    requires |selector| == 4 && |extraData| + 63 < TWO_63
    ensures |calldata| >= 4 && calldata[..4] == selector
    ensures DecodeCreateCall(calldata[4..]) == Some((AddressValue(service), extraData))
    ensures calldata == selector + Concat([EncodeAddress(service), EncodeBigInt(Some(64)), Blob(extraData)])
  {
    var extra := EncodeBytes(extraData);
    hide EncodeBigInt, EncodeAddress, Blob, BytesAt, WordAt, AddressAt;
    var head, offset := EncodeAddress(service), EncodeBigInt(Some(64));
    calldata := BuildCalldata(selector, [head, offset, extra]);
    var args := calldata[4..];
    ConcatDisplays(head, offset, extra, [], []);
    assert args == Concat([head, offset]) + extra + [] + [];
    TuplePositions(args, [head, offset], extra, [], []);
    assert At(args, 0, [head, offset][0]) && At(args, 32, [head, offset][1]);
    AddressHere(args, 0, service);
    NumberHere(args, 32, 64);
    BlobHere(args, 64, extraData);
  }

  // ------------------------------------------------------------------ event logs

  /** A log: 32-byte topics and the unindexed data. */
  datatype Log = Log(topics: seq<bytes>, data: bytes)

  datatype DataSetCreated = DataSetCreated(
    dataSetId: nat, providerId: nat, pdpRailId: nat, cacheMissRailId: nat, cdnRailId: nat,
    payer: bytes, serviceProvider: bytes, payee: bytes)

  datatype RailCreated = RailCreated(railId: nat, token: bytes, from: bytes, to: bytes)

  datatype DataSetDeleted = DataSetDeleted(dataSetId: nat, deletedLeafCount: nat)

  function ParseCreated(l: Log): (r: Option<DataSetCreated>)
    ensures r.None? <==> |l.topics| < 3 || |l.data| < 192
  {
    if |l.topics| < 3 || |l.data| < 192 then None
    else
      var d := l.data;
      Some(DataSetCreated(
        FromBigEndian(l.topics[1]), FromBigEndian(l.topics[2]),
        FromBigEndian(d[0..32]), FromBigEndian(d[32..64]), FromBigEndian(d[64..96]),
        d[108..128], d[140..160], d[172..192]))
  }

  function ParseRail(l: Log): (r: Option<RailCreated>)
    ensures r.None? <==> |l.data| < 128
  {
    if |l.data| < 128 then None
    else Some(RailCreated(FromBigEndian(l.data[0..32]), l.data[44..64], l.data[76..96], l.data[108..128]))
  }

  function ParseDeleted(l: Log): (r: Option<DataSetDeleted>)
    ensures r.None? <==> |l.data| < 64
  {
    if |l.data| < 64 then None
    else Some(DataSetDeleted(FromBigEndian(l.data[0..32]), FromBigEndian(l.data[32..64])))
  }

  /** The readable logs, parsed, in order. */
  function ParseAll<E>(logs: seq<Log>, parse: Log -> Option<E>): seq<E> {
    if logs == [] then []
    else
      match parse(logs[0])
      case None => ParseAll(logs[1..], parse)
      case Some(e) => [e] + ParseAll(logs[1..], parse)
  }

  lemma {:induction false} ParseAllSnoc<E>(logs: seq<Log>, l: Log, parse: Log -> Option<E>)
    ensures ParseAll(logs + [l], parse)
         == ParseAll(logs, parse) + (if parse(l).Some? then [parse(l).value] else [])
  {
    if logs == [] {
      assert logs + [l] == [l];
    } else {
      ParseAllSnoc(logs[1..], l, parse);
      assert (logs + [l])[0] == logs[0] && (logs + [l])[1..] == logs[1..] + [l];
      var more := if parse(l).Some? then [parse(l).value] else [];
      if parse(logs[0]).Some? {
        var first, others := [parse(logs[0]).value], ParseAll(logs[1..], parse);
        assert first + (others + more) == (first + others) + more;
      }
    }
  }

  /** Logs that read as these events, in order, with unreadable ones anywhere
      between them: exactly these events are parsed. */
  lemma {:induction false} ParsesExactly<E>(logs: seq<Log>, events: seq<E>, places: seq<nat>, parse: Log -> Option<E>)
    requires |places| == |events|
    requires forall k :: 0 <= k < |places| ==> places[k] < |logs| && parse(logs[places[k]]) == Some(events[k])
    requires forall j, k :: 0 <= j < k < |places| ==> places[j] < places[k]
    requires forall i :: 0 <= i < |logs| && i !in places ==> parse(logs[i]) == None
    ensures ParseAll(logs, parse) == events
  {
    hide ParseAll;
    NothingParsed(parse);
    var first := if places == [] then 0 else places[0];
    if logs == [] {
      assert events == [];
    } else {
      var front, last, n := logs[..|logs| - 1], logs[|logs| - 1], |events|;
      assert logs == front + [last];
      ParseAllSnoc(front, last, parse);
      if |logs| - 1 in places {
        assert places[n - 1] == |logs| - 1;
        assert forall i :: 0 <= i < |front| && i !in places[..n - 1] ==> i !in places;
        ParsesExactly(front, events[..n - 1], places[..n - 1], parse);
        assert events == events[..n - 1] + [events[n - 1]];
      } else {
        ParsesExactly(front, events, places, parse);
        assert events + [] == events;
      }
    }
  }

  lemma NothingParsed<E>(parse: Log -> Option<E>)
    ensures ParseAll([], parse) == []
  {
  }

  method ParseDataSetCreatedLogs(logs: seq<Log>) returns (events: seq<DataSetCreated>)
    ensures events == ParseAll(logs, ParseCreated)
  {
    events := [];
    for i := 0 to |logs|
      invariant events == ParseAll(logs[..i], ParseCreated)
    {
      var l := logs[i];
      assert logs[..i + 1] == logs[..i] + [l];
      ParseAllSnoc(logs[..i], l, ParseCreated);
      if |l.topics| < 3 {
        continue;
      }
      var data := l.data;
      if |data| < 192 {
        continue;
      }
      var ev := DataSetCreated(
        FromBigEndian(l.topics[1]), FromBigEndian(l.topics[2]),
        FromBigEndian(data[0..32]), FromBigEndian(data[32..64]), FromBigEndian(data[64..96]),
        data[108..128], data[140..160], data[172..192]);
      events := events + [ev];
    }
    assert logs[..|logs|] == logs;
  }

  method ParseRailCreatedLogs(logs: seq<Log>) returns (events: seq<RailCreated>)
    ensures events == ParseAll(logs, ParseRail)
  {
    events := [];
    for i := 0 to |logs|
      invariant events == ParseAll(logs[..i], ParseRail)
    {
      var data := logs[i].data;
      assert logs[..i + 1] == logs[..i] + [logs[i]];
      ParseAllSnoc(logs[..i], logs[i], ParseRail);
      if |data| < 128 {
        continue;
      }
      events := events + [RailCreated(FromBigEndian(data[0..32]), data[44..64], data[76..96], data[108..128])];
    }
    assert logs[..|logs|] == logs;
  }

  method ParseDataSetDeletedLogs(logs: seq<Log>) returns (events: seq<DataSetDeleted>)
    ensures events == ParseAll(logs, ParseDeleted)
  {
    events := [];
    for i := 0 to |logs|
      invariant events == ParseAll(logs[..i], ParseDeleted)
    {
      var data := logs[i].data;
      assert logs[..i + 1] == logs[..i] + [logs[i]];
      ParseAllSnoc(logs[..i], logs[i], ParseDeleted);
      if |data| < 64 {
        continue;
      }
      events := events + [DataSetDeleted(FromBigEndian(data[0..32]), FromBigEndian(data[32..64]))];
    }
    assert logs[..|logs|] == logs;
  }

  predicate Uint256(n: nat) {
    n < WordRange()
  }

  predicate CreatedInRange(e: DataSetCreated) {
    && Uint256(e.dataSetId) && Uint256(e.providerId)
    && Uint256(e.pdpRailId) && Uint256(e.cacheMissRailId) && Uint256(e.cdnRailId)
    && |e.payer| == |e.serviceProvider| == |e.payee| == 20
  }

  /** The log the contract ABI prescribes for an event; `tail` holds the heads
      and contents of the trailing string arrays. */
  function CreatedLog(e: DataSetCreated, topic: bytes, tail: bytes): Log {
    Log([topic, Word(e.dataSetId), Word(e.providerId)],
        Word(e.pdpRailId) + Word(e.cacheMissRailId) + Word(e.cdnRailId)
        + EncodeAddress(e.payer) + EncodeAddress(e.serviceProvider) + EncodeAddress(e.payee) + tail)
  }

  function RailLog(e: RailCreated, topics: seq<bytes>, tail: bytes): Log {
    Log(topics, Word(e.railId) + EncodeAddress(e.token) + EncodeAddress(e.from) + EncodeAddress(e.to) + tail)
  }

  function DeletedLog(e: DataSetDeleted, topics: seq<bytes>): Log {
    Log(topics, Word(e.dataSetId) + Word(e.deletedLeafCount))
  }

  lemma AddressSlice(d: bytes, pos: nat, a: bytes)
    requires |a| == 20 && At(d, pos, EncodeAddress(a))
    ensures d[pos + 12..pos + 32] == a
  {
    AtSplit(d, pos, Zeros(12), a);
  }

  lemma NumberSlice(d: bytes, pos: nat, n: nat)
    requires Uint256(n) && At(d, pos, Word(n))
    ensures FromBigEndian(d[pos..pos + 32]) == n
  {
    WordRoundTrip(n);
  }

  lemma CreatedPositions(e: DataSetCreated, topic: bytes, tail: bytes, d: bytes)
    requires d == CreatedLog(e, topic, tail).data
    ensures At(d, 0, Word(e.pdpRailId)) && At(d, 32, Word(e.cacheMissRailId)) && At(d, 64, Word(e.cdnRailId))
    ensures At(d, 96, EncodeAddress(e.payer)) && At(d, 128, EncodeAddress(e.serviceProvider))
    ensures At(d, 160, EncodeAddress(e.payee))
  {
    hide Word, EncodeAddress, At, Concat;
    var heads := [Word(e.pdpRailId), Word(e.cacheMissRailId), Word(e.cdnRailId),
                  EncodeAddress(e.payer), EncodeAddress(e.serviceProvider)];
    ConcatDisplays(heads[0], heads[1], heads[2], heads[3], heads[4]);
    assert d == Concat(heads) + EncodeAddress(e.payee) + tail + [];
    TuplePositions(d, heads, EncodeAddress(e.payee), tail, []);
    assert At(d, 0, heads[0]) && At(d, 32, heads[1]) && At(d, 64, heads[2]);
    assert At(d, 96, heads[3]) && At(d, 128, heads[4]);
  }

  /** Parsing inverts the event encoding. */
  lemma CreatedRoundTrip(e: DataSetCreated, topic: bytes, tail: bytes)
    requires CreatedInRange(e)
    ensures ParseCreated(CreatedLog(e, topic, tail)) == Some(e)
  {
    WordRoundTrip(e.dataSetId);
    WordRoundTrip(e.providerId);
    hide Word, EncodeAddress, At, Concat, FromBigEndian;
    CreatedSlices(e, topic, tail, CreatedLog(e, topic, tail).data);
  }

  lemma CreatedSlices(e: DataSetCreated, topic: bytes, tail: bytes, d: bytes)
    requires CreatedInRange(e) && d == CreatedLog(e, topic, tail).data
    ensures |d| >= 192
    ensures FromBigEndian(d[0..32]) == e.pdpRailId && FromBigEndian(d[32..64]) == e.cacheMissRailId
    ensures FromBigEndian(d[64..96]) == e.cdnRailId
    ensures d[108..128] == e.payer && d[140..160] == e.serviceProvider && d[172..192] == e.payee
  {
    hide Word, EncodeAddress, At, Concat, FromBigEndian;
    CreatedPositions(e, topic, tail, d);
    NumberSlice(d, 0, e.pdpRailId);
    NumberSlice(d, 32, e.cacheMissRailId);
    NumberSlice(d, 64, e.cdnRailId);
    AddressSlice(d, 96, e.payer);
    AddressSlice(d, 128, e.serviceProvider);
    AddressSlice(d, 160, e.payee);
  }

  function NumberSlot(d: bytes, k: nat): nat
    requires |d| >= 32 * (k + 1)
  {
    FromBigEndian(d[32 * k..32 * k + 32])
  }

  function AddressSlot(d: bytes, k: nat): bytes
    requires |d| >= 32 * (k + 1)
  {
    d[32 * k + 12..32 * k + 32]
  }

  /** Which topics and words of the data the events are read from. */
  lemma SlotsAreRead(l: Log)
    ensures ParseCreated(l).Some? ==>
              var e, d := ParseCreated(l).value, l.data;
              && e.dataSetId == FromBigEndian(l.topics[1]) && e.providerId == FromBigEndian(l.topics[2])
              && e.pdpRailId == NumberSlot(d, 0) && e.cacheMissRailId == NumberSlot(d, 1)
              && e.cdnRailId == NumberSlot(d, 2) && e.payer == AddressSlot(d, 3)
              && e.serviceProvider == AddressSlot(d, 4) && e.payee == AddressSlot(d, 5)
    ensures ParseRail(l).Some? ==>
              var e, d := ParseRail(l).value, l.data;
              && e.railId == NumberSlot(d, 0) && e.token == AddressSlot(d, 1)
              && e.from == AddressSlot(d, 2) && e.to == AddressSlot(d, 3)
    ensures ParseDeleted(l).Some? ==>
              var e, d := ParseDeleted(l).value, l.data;
              e.dataSetId == NumberSlot(d, 0) && e.deletedLeafCount == NumberSlot(d, 1)
  {
  }

  lemma RailRoundTrip(e: RailCreated, topics: seq<bytes>, tail: bytes)
    requires Uint256(e.railId) && |e.token| == |e.from| == |e.to| == 20
    ensures ParseRail(RailLog(e, topics, tail)) == Some(e)
  {
    hide Word, EncodeAddress, At, Concat;
    var d := RailLog(e, topics, tail).data;
    var heads := [Word(e.railId), EncodeAddress(e.token), EncodeAddress(e.from)];
    ConcatDisplays(heads[0], heads[1], heads[2], [], []);
    assert d == Concat(heads) + EncodeAddress(e.to) + tail + [];
    TuplePositions(d, heads, EncodeAddress(e.to), tail, []);
    assert At(d, 0, heads[0]) && At(d, 32, heads[1]) && At(d, 64, heads[2]);
    NumberSlice(d, 0, e.railId);
    AddressSlice(d, 32, e.token);
    AddressSlice(d, 64, e.from);
    AddressSlice(d, 96, e.to);
  }

  lemma DeletedRoundTrip(e: DataSetDeleted, topics: seq<bytes>)
    requires Uint256(e.dataSetId) && Uint256(e.deletedLeafCount)
    ensures ParseDeleted(DeletedLog(e, topics)) == Some(e)
  {
    WordRoundTrip(e.dataSetId);
    WordRoundTrip(e.deletedLeafCount);
    var d := DeletedLog(e, topics).data;
    assert d[0..32] == Word(e.dataSetId) && d[32..64] == Word(e.deletedLeafCount);
  }
}
