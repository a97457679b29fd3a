/** The struct declarations behind the typed data of eip712.go: each type string is
    the encodeType of a declaration, and each value lists the arguments in the
    order of its members (EIP-712, "Definition of encodeType"). */
module Eip712Schema {
  import opened Bytes
  import opened Eip712

  datatype Kind = Atomic(text: string) | StructKind(name: string) | ArrayKind(element: Kind)

  datatype Member = Member(kind: Kind, name: string)

  datatype Declaration = Declaration(name: string, members: seq<Member>)

  function KindText(k: Kind): string {
    match k
    case Atomic(text) => text
    case StructKind(name) => name
    case ArrayKind(element) => KindText(element) + "[]"
  }

  function MemberText(m: Member): string {
    KindText(m.kind) + " " + m.name
  }

  function Join(ms: seq<Member>): string {
    if ms == [] then ""
    else if |ms| == 1 then MemberText(ms[0])
    else MemberText(ms[0]) + "," + Join(ms[1..])
  }

  function Text(d: Declaration): string {
    d.name + "(" + Join(d.members) + ")"
  }

  function Texts(ds: seq<Declaration>): string {
    if ds == [] then "" else Text(ds[0]) + Texts(ds[1..])
  }

  /** The declaration's own text, then those of the structs it uses. */
  function EncodeType(d: Declaration, used: seq<Declaration>): string {
    Text(d) + Texts(used)
  }

  function StructName(k: Kind): Option<string> {
    match k
    case Atomic(_) => None
    case StructKind(name) => Some(name)
    case ArrayKind(element) => StructName(element)
  }

  /** The members of d speak of the struct. */
  ghost predicate Uses(d: Declaration, name: string) {
    exists i :: 0 <= i < |d.members| && StructName(d.members[i].kind) == Some(name)
  }

  function FirstDiffers(s: string, t: string): bool {
    s != [] && t != [] && s[0] < t[0]
  }

  /** The used structs are those that d or one of them mentions, sorted by name. */
  ghost predicate IsUsed(d: Declaration, used: seq<Declaration>) {
    && (forall i, j :: 0 <= i < j < |used| ==> FirstDiffers(used[i].name, used[j].name))
    && (forall name :: Mentioned(name, d, used) <==> exists i :: 0 <= i < |used| && used[i].name == name)
  }

  ghost predicate Mentioned(name: string, d: Declaration, used: seq<Declaration>) {
    Uses(d, name) || exists j :: 0 <= j < |used| && Uses(used[j], name)
  }

  // -------------------------------------------------------------- declarations

  const UINT256 := Atomic("uint256")
  const STRING := Atomic("string")
  const ENTRIES := ArrayKind(StructKind("MetadataEntry"))

  const ENTRY_DECLARATION := Declaration("MetadataEntry", [Member(STRING, "key"), Member(STRING, "value")])

  const CID_DECLARATION := Declaration("Cid", [Member(Atomic("bytes"), "data")])

  const PIECE_METADATA_DECLARATION := Declaration("PieceMetadata",
    [Member(UINT256, "pieceIndex"), Member(ENTRIES, "metadata")])

  const CREATE_DECLARATION := Declaration("CreateDataSet",
    [Member(UINT256, "clientDataSetId"), Member(Atomic("address"), "payee"), Member(ENTRIES, "metadata")])

  const ADD_DECLARATION := Declaration("AddPieces",
    [Member(UINT256, "clientDataSetId"), Member(UINT256, "nonce"), Member(ArrayKind(StructKind("Cid")), "pieceData"),
     Member(ArrayKind(StructKind("PieceMetadata")), "pieceMetadata")])

  const SCHEDULE_DECLARATION := Declaration("SchedulePieceRemovals",
    [Member(UINT256, "clientDataSetId"), Member(ArrayKind(UINT256), "pieceIds")])

  const DELETE_DECLARATION := Declaration("DeleteDataSet", [Member(UINT256, "clientDataSetId")])

  const DOMAIN_DECLARATION := Declaration("EIP712Domain",
    [Member(STRING, "name"), Member(STRING, "version"), Member(UINT256, "chainId"),
     Member(Atomic("address"), "verifyingContract")])

  lemma JoinCons(a: Member, rest: seq<Member>)
    requires rest != []
    ensures Join([a] + rest) == MemberText(a) + "," + Join(rest)
  {
    assert ([a] + rest)[1..] == rest;
  }

  lemma JoinDisplays(a: Member, b: Member, c: Member, d: Member)
    ensures Join([a]) == MemberText(a)
    ensures Join([a, b]) == MemberText(a) + "," + MemberText(b)
    ensures Join([a, b, c]) == MemberText(a) + "," + (MemberText(b) + "," + MemberText(c))
    ensures Join([a, b, c, d]) == MemberText(a) + "," + (MemberText(b) + "," + (MemberText(c) + "," + MemberText(d)))
  {
    JoinOne(a);
    JoinOne(b);
    JoinOne(c);
    JoinOne(d);
    hide MemberText, Join;
    JoinCons(a, [b]);
    JoinCons(b, [c]);
    JoinCons(c, [d]);
    JoinCons(a, [b, c]);
    JoinCons(b, [c, d]);
    JoinCons(a, [b, c, d]);
    assert [a] + [b] == [a, b] && [b] + [c] == [b, c] && [c] + [d] == [c, d];
    assert [a] + [b, c] == [a, b, c] && [b] + [c, d] == [b, c, d] && [a] + [b, c, d] == [a, b, c, d];
  }

  lemma JoinOne(a: Member)
    ensures Join([a]) == MemberText(a)
  {
  }

  /** Texts with up to four members, piece by piece. */
  lemma TextDisplays(name: string, a: Member, b: Member, c: Member, d: Member)
    ensures Text(Declaration(name, [a])) == name + "(" + MemberText(a) + ")"
    ensures Text(Declaration(name, [a, b])) == name + "(" + MemberText(a) + "," + MemberText(b) + ")"
    ensures Text(Declaration(name, [a, b, c]))
         == name + "(" + MemberText(a) + "," + MemberText(b) + "," + MemberText(c) + ")"
    ensures Text(Declaration(name, [a, b, c, d]))
         == name + "(" + MemberText(a) + "," + MemberText(b) + "," + MemberText(c) + "," + MemberText(d) + ")"
  {
    JoinDisplays(a, b, c, d);
    hide Join, MemberText;
    Reassociate(name + "(", MemberText(a), MemberText(b), MemberText(c), MemberText(d));
  }

  lemma Reassociate(n: string, a: string, b: string, c: string, d: string)
    ensures n + (a + "," + b) + ")" == n + a + "," + b + ")"
    ensures n + (a + "," + (b + "," + c)) + ")" == n + a + "," + b + "," + c + ")"
    ensures n + (a + "," + (b + "," + (c + "," + d))) + ")" == n + a + "," + b + "," + c + "," + d + ")"
  {
    var s := ",";
    assert n + (a + s + b) == n + a + s + b;
    assert n + (a + s + (b + s + c)) == n + a + s + b + s + c;
    assert n + (a + s + (b + s + (c + s + d))) == n + a + s + b + s + c + s + d;
  }

  /** The texts of members, as they stand in the type strings. */
  lemma EntryMemberTexts()
    ensures MemberText(Member(STRING, "key")) == "string key"
    ensures MemberText(Member(STRING, "value")) == "string value"
    ensures MemberText(Member(Atomic("bytes"), "data")) == "bytes data"
  {
  }

  lemma PieceMemberTexts()
    ensures MemberText(Member(UINT256, "pieceIndex")) == "uint256 pieceIndex"
    ensures MemberText(Member(ENTRIES, "metadata")) == "MetadataEntry[] metadata"
  {
    EntriesText();
  }

  lemma CreateMemberTexts()
    ensures MemberText(Member(UINT256, "clientDataSetId")) == "uint256 clientDataSetId"
    ensures MemberText(Member(Atomic("address"), "payee")) == "address payee"
    ensures MemberText(Member(UINT256, "nonce")) == "uint256 nonce"
  {
  }

  lemma ListMemberTexts()
    ensures MemberText(Member(ArrayKind(StructKind("Cid")), "pieceData")) == "Cid[] pieceData"
    ensures MemberText(Member(ArrayKind(UINT256), "pieceIds")) == "uint256[] pieceIds"
  {
    assert KindText(StructKind("Cid")) == "Cid" && KindText(UINT256) == "uint256";
  }

  lemma PieceMetadataText()
    ensures MemberText(Member(ArrayKind(StructKind("PieceMetadata")), "pieceMetadata"))
         == "PieceMetadata[] pieceMetadata"
  {
    assert KindText(StructKind("PieceMetadata")) == "PieceMetadata";
  }

  lemma DomainNameTexts()
    ensures MemberText(Member(STRING, "name")) == "string name"
    ensures MemberText(Member(STRING, "version")) == "string version"
  {
  }

  lemma DomainContractTexts()
    ensures MemberText(Member(UINT256, "chainId")) == "uint256 chainId"
    ensures MemberText(Member(Atomic("address"), "verifyingContract")) == "address verifyingContract"
  {
  }

  lemma EntriesText()
    ensures KindText(ENTRIES) == "MetadataEntry[]"
  {
    assert KindText(StructKind("MetadataEntry")) == "MetadataEntry";
  }

  /** The literal type strings are the texts of the declarations. */
  lemma DeclarationTexts()
    ensures Text(ENTRY_DECLARATION) == ENTRY_TEXT
    ensures Text(CID_DECLARATION) == CID_TEXT
    ensures Text(PIECE_METADATA_DECLARATION) == PIECE_METADATA_TEXT
    ensures Text(CREATE_DECLARATION) == CREATE_TEXT
    ensures Text(ADD_DECLARATION) == ADD_TEXT
    ensures Text(SCHEDULE_DECLARATION) == SCHEDULE_TEXT
    ensures Text(DELETE_DECLARATION) == DELETE_TEXT
    ensures Text(DOMAIN_DECLARATION) == DOMAIN_TEXT
  {
    EntryMemberTexts();
    PieceMemberTexts();
    CreateMemberTexts();
    ListMemberTexts();
    PieceMetadataText();
    DomainNameTexts();
    DomainContractTexts();
    hide Text, MemberText;
    var id, entries := Member(UINT256, "clientDataSetId"), Member(ENTRIES, "metadata");
    TextDisplays("MetadataEntry", Member(STRING, "key"), Member(STRING, "value"), id, id);
    TextDisplays("Cid", Member(Atomic("bytes"), "data"), id, id, id);
    TextDisplays("PieceMetadata", Member(UINT256, "pieceIndex"), entries, id, id);
    TextDisplays("CreateDataSet", id, Member(Atomic("address"), "payee"), entries, id);
    TextDisplays("AddPieces", id, Member(UINT256, "nonce"), Member(ArrayKind(StructKind("Cid")), "pieceData"),
                 Member(ArrayKind(StructKind("PieceMetadata")), "pieceMetadata"));
    TextDisplays("SchedulePieceRemovals", id, Member(ArrayKind(UINT256), "pieceIds"), id, id);
    TextDisplays("DeleteDataSet", id, id, id, id);
    TextDisplays("EIP712Domain", Member(STRING, "name"), Member(STRING, "version"), Member(UINT256, "chainId"),
                 Member(Atomic("address"), "verifyingContract"));
  }

  // ------------------------------------------------------------------ messages

  function DeclarationOf(m: Message): Declaration {
    match m
    case CreateDataSet(_, _, _, _) => CREATE_DECLARATION
    case AddPieces(_, _, _, _, _) => ADD_DECLARATION
    case SchedulePieceRemovals(_, _) => SCHEDULE_DECLARATION
    case DeleteDataSet(_) => DELETE_DECLARATION
  }

  function UsedBy(m: Message): seq<Declaration> {
    match m
    case CreateDataSet(_, _, _, _) => [ENTRY_DECLARATION]
    case AddPieces(_, _, _, _, _) => [CID_DECLARATION, ENTRY_DECLARATION, PIECE_METADATA_DECLARATION]
    case SchedulePieceRemovals(_, _) => []
    case DeleteDataSet(_) => []
  }

  /** The arguments by name. */
  function Arguments(m: Message): map<string, Value>
    requires InRange(m)
  {
    match m
    case CreateDataSet(id, payee, keys, values) =>
      map["clientDataSetId" := Uint(id), "payee" := Address(payee), "metadata" := MetadataValue(keys, values)]
    case AddPieces(id, nonce, cids, _, _) =>
      map["clientDataSetId" := Uint(id), "nonce" := Uint(nonce), "pieceData" := List(CidValues(cids)),
          "pieceMetadata" := List(PieceMetadataValues(m))]
    case SchedulePieceRemovals(id, ids) => map["clientDataSetId" := Uint(id), "pieceIds" := List(UintValues(ids))]
    case DeleteDataSet(id) => map["clientDataSetId" := Uint(id)]
  }

  /** v is a value of the declared struct: the type string is its encodeType, and
      the fields are the arguments in the order of the members. */
  ghost predicate IsInstance(v: Value, d: Declaration, used: seq<Declaration>, arguments: map<string, Value>) {
    && v.Struct? && v.typeString == Ascii(EncodeType(d, used)) && IsUsed(d, used)
    && |v.fields| == |d.members|
    && forall i :: 0 <= i < |d.members| ==>
         d.members[i].name in arguments && v.fields[i] == arguments[d.members[i].name]
  }

  lemma TextsDisplays(a: Declaration, b: Declaration, c: Declaration)
    ensures Texts([]) == ""
    ensures Texts([a]) == Text(a)
    ensures Texts([a, b, c]) == Text(a) + Text(b) + Text(c)
  {
    hide Text;
    assert [a, b, c][1..] == [b, c] && [b, c][1..] == [c] && [c][1..] == [];
    assert Texts([c]) == Text(c) && Texts([b, c]) == Text(b) + Text(c);
    assert Text(a) + (Text(b) + Text(c)) == Text(a) + Text(b) + Text(c);
  }

  lemma TypeFollows(d: Declaration, a: Declaration, b: Declaration, c: Declaration)
    ensures EncodeType(d, []) == Text(d)
    ensures EncodeType(d, [a]) == Text(d) + Text(a)
    ensures EncodeType(d, [a, b, c]) == Text(d) + Text(a) + Text(b) + Text(c)
  {
    hide Text, Texts;
    TextsDisplays(a, b, c);
    assert Text(d) + (Text(a) + Text(b) + Text(c)) == Text(d) + Text(a) + Text(b) + Text(c);
  }

  lemma PartTypesFollow()
    ensures METADATA_ENTRY == Ascii(EncodeType(ENTRY_DECLARATION, []))
    ensures CID == Ascii(EncodeType(CID_DECLARATION, []))
    ensures PIECE_METADATA == Ascii(EncodeType(PIECE_METADATA_DECLARATION, [ENTRY_DECLARATION]))
    ensures DOMAIN == Ascii(EncodeType(DOMAIN_DECLARATION, []))
  {
    hide Text, Texts, Ascii, EncodeType;
    DeclarationTexts();
    var e := ENTRY_DECLARATION;
    TypeFollows(e, e, e, e);
    TypeFollows(CID_DECLARATION, e, e, e);
    TypeFollows(PIECE_METADATA_DECLARATION, e, e, e);
    TypeFollows(DOMAIN_DECLARATION, e, e, e);
  }

  lemma MessageTypesFollow()
    ensures CREATE_DATA_SET == Ascii(EncodeType(CREATE_DECLARATION, [ENTRY_DECLARATION]))
    ensures ADD_PIECES ==
            Ascii(EncodeType(ADD_DECLARATION, [CID_DECLARATION, ENTRY_DECLARATION, PIECE_METADATA_DECLARATION]))
    ensures SCHEDULE_PIECE_REMOVALS == Ascii(EncodeType(SCHEDULE_DECLARATION, []))
    ensures DELETE_DATA_SET == Ascii(EncodeType(DELETE_DECLARATION, []))
  {
    hide Text, Texts, Ascii, EncodeType;
    DeclarationTexts();
    var c, e, m := CID_DECLARATION, ENTRY_DECLARATION, PIECE_METADATA_DECLARATION;
    TypeFollows(CREATE_DECLARATION, e, e, e);
    TypeFollows(ADD_DECLARATION, c, e, m);
    TypeFollows(SCHEDULE_DECLARATION, e, e, e);
    TypeFollows(DELETE_DECLARATION, e, e, e);
  }

  /** Every type string is the encodeType of its declaration. */
  lemma TypeStringsFollow()
    ensures METADATA_ENTRY == Ascii(EncodeType(ENTRY_DECLARATION, []))
    ensures CID == Ascii(EncodeType(CID_DECLARATION, []))
    ensures PIECE_METADATA == Ascii(EncodeType(PIECE_METADATA_DECLARATION, [ENTRY_DECLARATION]))
    ensures DOMAIN == Ascii(EncodeType(DOMAIN_DECLARATION, []))
    ensures CREATE_DATA_SET == Ascii(EncodeType(CREATE_DECLARATION, [ENTRY_DECLARATION]))
    ensures ADD_PIECES ==
            Ascii(EncodeType(ADD_DECLARATION, [CID_DECLARATION, ENTRY_DECLARATION, PIECE_METADATA_DECLARATION]))
    ensures SCHEDULE_PIECE_REMOVALS == Ascii(EncodeType(SCHEDULE_DECLARATION, []))
    ensures DELETE_DATA_SET == Ascii(EncodeType(DELETE_DECLARATION, []))
  {
    hide *;
    PartTypesFollow();
    MessageTypesFollow();
  }

  lemma NoneUsed(d: Declaration)
    requires forall i :: 0 <= i < |d.members| ==> StructName(d.members[i].kind).None?
    ensures IsUsed(d, [])
  {
  }

  lemma EntryUsed(d: Declaration, k: nat)
    requires k < |d.members| && StructName(d.members[k].kind) == Some("MetadataEntry")
    requires forall i :: 0 <= i < |d.members| && i != k ==> StructName(d.members[i].kind).None?
    ensures IsUsed(d, [ENTRY_DECLARATION])
  {
    var used := [ENTRY_DECLARATION];
    assert Uses(d, "MetadataEntry") && used[0].name == "MetadataEntry";
    EntryUsesNothing();
    forall name
      ensures Mentioned(name, d, used) <==> exists i :: 0 <= i < |used| && used[i].name == name
    {
      assert Mentioned(name, d, used) <==> name == used[0].name;
    }
  }

  lemma EntryUsesNothing()
    ensures forall name :: !Uses(ENTRY_DECLARATION, name) && !Uses(CID_DECLARATION, name)
  {
  }

  lemma AddMentions(name: string)
    ensures Uses(ADD_DECLARATION, name) <==> name == "Cid" || name == "PieceMetadata"
    ensures Uses(PIECE_METADATA_DECLARATION, name) <==> name == "MetadataEntry"
  {
    var ms, ps := ADD_DECLARATION.members, PIECE_METADATA_DECLARATION.members;
    assert StructName(ms[2].kind) == Some("Cid") && StructName(ms[3].kind) == Some("PieceMetadata");
    assert StructName(ms[0].kind) == None && StructName(ms[1].kind) == None;
    assert StructName(ps[0].kind) == None && StructName(ps[1].kind) == Some("MetadataEntry");
  }

  lemma AddUses()
    ensures IsUsed(ADD_DECLARATION, [CID_DECLARATION, ENTRY_DECLARATION, PIECE_METADATA_DECLARATION])
  {
    hide Uses;
    EntryUsesNothing();
    var used := [CID_DECLARATION, ENTRY_DECLARATION, PIECE_METADATA_DECLARATION];
    assert used[0].name == "Cid" && used[1].name == "MetadataEntry" && used[2].name == "PieceMetadata";
    AddMentions("Cid");
    AddMentions("PieceMetadata");
    AddMentions("MetadataEntry");
    assert FirstDiffers("Cid", "MetadataEntry") && FirstDiffers("MetadataEntry", "PieceMetadata");
    forall name
      ensures Mentioned(name, ADD_DECLARATION, used) <==> exists i :: 0 <= i < |used| && used[i].name == name
    {
      AddMentions(name);
      assert Uses(used[2], name) <==> name == used[1].name;
      assert Mentioned(name, ADD_DECLARATION, used)
             <==> name == used[0].name || name == used[1].name || name == used[2].name;
    }
  }

  /** The parts of messages, and the domain, name by name. */
  lemma PartsFollow(key: bytes, value: bytes, cid: bytes, contract: bytes)
    ensures IsInstance(EntryValue(key, value), ENTRY_DECLARATION, [],
                       map["key" := Dynamic(key), "value" := Dynamic(value)])
    ensures IsInstance(CidValue(cid), CID_DECLARATION, [], map["data" := Dynamic(cid)])
    ensures IsInstance(DomainValue(contract), DOMAIN_DECLARATION, [],
                       map["name" := Dynamic(Ascii("FilecoinWarmStorageService")), "version" := Dynamic(Ascii("1")),
                           "chainId" := Uint(31415926), "verifyingContract" := Address(contract)])
  {
    hide Ascii, EncodeType;
    TypeStringsFollow();
    NoneUsed(ENTRY_DECLARATION);
    NoneUsed(CID_DECLARATION);
    NoneUsed(DOMAIN_DECLARATION);
  }

  lemma PieceMetadataFollows(i: nat, keys: seq<bytes>, values: seq<bytes>)
    requires |keys| <= |values|
    ensures IsInstance(PieceMetadataValue(i, keys, values), PIECE_METADATA_DECLARATION, [ENTRY_DECLARATION],
                       map["pieceIndex" := Uint(i), "metadata" := MetadataValue(keys, values)])
  {
    hide Ascii, EncodeType, MetadataValue;
    TypeStringsFollow();
    EntryUsed(PIECE_METADATA_DECLARATION, 1);
  }

  /** Lists hold one part per element, in order. */
  lemma ListsFollow(keys: seq<bytes>, values: seq<bytes>, cids: seq<bytes>, ids: seq<nat>, i: nat)
    requires |keys| <= |values|
    ensures |MetadataValue(keys, values).elements| == |keys|
    ensures |CidValues(cids)| == |cids| && |UintValues(ids)| == |ids|
    ensures i < |keys| ==> MetadataValue(keys, values).elements[i] == EntryValue(keys[i], values[i])
    ensures i < |cids| ==> CidValues(cids)[i] == CidValue(cids[i])
    ensures i < |ids| ==> UintValues(ids)[i] == Uint(ids[i])
  {
  }

  /** Piece i comes with its own metadata, and with none when the caller gave no more. */
  lemma PiecesFollow(m: Message, i: nat)
    requires InRange(m) && m.AddPieces? && i < |m.cids|
    ensures |PieceMetadataValues(m)| == |m.cids|
    ensures i < |m.keysPerPiece| ==>
              PieceMetadataValues(m)[i] == PieceMetadataValue(i, m.keysPerPiece[i], m.valuesPerPiece[i])
    ensures i >= |m.keysPerPiece| ==> PieceMetadataValues(m)[i] == PieceMetadataValue(i, [], [])
  {
    hide MetadataValue;
  }

  lemma CreateFollows(m: Message)
    requires InRange(m) && m.CreateDataSet?
    ensures IsInstance(MessageValue(m), DeclarationOf(m), UsedBy(m), Arguments(m))
  {
    hide Ascii, EncodeType, IsUsed, MetadataValue;
    TypeStringsFollow();
    EntryUsed(CREATE_DECLARATION, 2);
  }

  lemma AddFollows(m: Message)
    requires InRange(m) && m.AddPieces?
    ensures IsInstance(MessageValue(m), DeclarationOf(m), UsedBy(m), Arguments(m))
  {
    hide Ascii, EncodeType, IsUsed, CidValues, PieceMetadataValues, InRange;
    TypeStringsFollow();
    AddUses();
  }

  lemma RemovalFollows(m: Message)
    requires InRange(m) && (m.SchedulePieceRemovals? || m.DeleteDataSet?)
    ensures IsInstance(MessageValue(m), DeclarationOf(m), UsedBy(m), Arguments(m))
  {
    hide Ascii, EncodeType, IsUsed, UintValues;
    TypeStringsFollow();
    if m.SchedulePieceRemovals? {
      NoneUsed(SCHEDULE_DECLARATION);
    } else {
      NoneUsed(DELETE_DECLARATION);
    }
  }

  /** Every message is typed data of its declaration: each argument stands where
      the type string names it. */
  lemma MessageFollows(m: Message)
    requires InRange(m)
    ensures IsInstance(MessageValue(m), DeclarationOf(m), UsedBy(m), Arguments(m))
  {
    hide *;
    match m {
      case CreateDataSet(_, _, _, _) => CreateFollows(m);
      case AddPieces(_, _, _, _, _) => AddFollows(m);
      case SchedulePieceRemovals(_, _) => RemovalFollows(m);
      case DeleteDataSet(_) => RemovalFollows(m);
    }
  }
}
