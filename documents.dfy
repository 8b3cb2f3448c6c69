/** The document records of the store and their binary layout in the meta index and the
    page files: an optional position, a document's info, and a whole document. */
module Documents {
  import opened Wrappers
  import opened Errors
  import opened Codec
  import opened Files
  import opened Streams

  /** Where a payload slot lives: a page and a byte offset inside it. */
  datatype DocumentPosition = DocumentPosition(pageIndex: nat, pageOffset: nat)

  /** The indexed metadata of a document. Timestamps are nanoseconds since the epoch; text
      fields are byte strings. */
  datatype DocumentInfo = DocumentInfo(
    id: nat,
    created: int,
    updated: int,
    name: Bytes,
    owner: Bytes,
    namespaceName: Bytes,
    position: Option<DocumentPosition>)

  datatype Document = Document(info: DocumentInfo, payload: Option<Bytes>)

  datatype DocumentInput = DocumentInput(name: Bytes, owner: Bytes, namespaceName: Bytes, payload: Bytes)

  datatype DocumentUpdateInput = DocumentUpdateInput(
    name: Option<Bytes>, namespaceName: Option<Bytes>, payload: Option<Bytes>)

  /** Values the 64-bit fields can hold. */
  predicate ValidPosition(p: DocumentPosition) {
    IsU64(p.pageIndex) && IsU64(p.pageOffset)
  }

  predicate ValidInfo(info: DocumentInfo) {
    IsU64(info.id) && IsI64(info.created) && IsI64(info.updated)
    && IsU64(|info.name|) && IsU64(|info.owner|) && IsU64(|info.namespaceName|)
    && (info.position.Some? ==> ValidPosition(info.position.value))
  }

  predicate ValidDocument(doc: Document) {
    ValidInfo(doc.info) && (doc.payload.Some? ==> IsU64(|doc.payload.value|))
  }

  // ---------------------------------------------------------------- layouts

  /** A flag, then `page_index` and `page_offset` when a position is present. */
  function EncodePosition(p: Option<DocumentPosition>): Bytes {
    EncodeBool(p.Some?)
    + (if p.Some? then EncodeU64(p.value.pageIndex) + EncodeU64(p.value.pageOffset) else [])
  }

  /** A false flag yields no position, whatever the destination held before. */
  function DecodePosition(data: Bytes, pos: nat): Option<(Option<DocumentPosition>, nat)> {
    var (present, next) :- ReadBool(data, pos);
    if !present then Some((None, next))
    else
      var (index, afterIndex) :- ReadU64(data, next);
      var (offset, afterOffset) :- ReadU64(data, afterIndex);
      Some((Some(DocumentPosition(index, offset)), afterOffset))
  }

  /** Fields in the order id, created, updated, name, namespace, owner, position. */
  function EncodeInfo(info: DocumentInfo): Bytes {
    EncodeU64(info.id) + EncodeTime(info.created) + EncodeTime(info.updated)
    + EncodeString(info.name) + EncodeString(info.namespaceName) + EncodeString(info.owner)
    + EncodePosition(info.position)
  }

  function DecodeInfo(data: Bytes, pos: nat): Option<(DocumentInfo, nat)> {
    var (id, p1) :- ReadU64(data, pos);
    var (created, p2) :- ReadTime(data, p1);
    var (updated, p3) :- ReadTime(data, p2);
    var (name, p4) :- ReadString(data, p3);
    var (namespaceName, p5) :- ReadString(data, p4);
    var (owner, p6) :- ReadString(data, p5);
    var (position, p7) :- DecodePosition(data, p6);
    Some((DocumentInfo(id, created, updated, name, owner, namespaceName, position), p7))
  }

  /** The info, then the payload as an optional string. */
  function EncodeDocument(doc: Document): Bytes {
    EncodeInfo(doc.info) + EncodeOptional(doc.payload, EncodeString)
  }

  /** The payload is read into a freshly built document, whose payload starts empty. */
  function DecodeDocument(data: Bytes, pos: nat): Option<(Document, nat)> {
    var (info, p1) :- DecodeInfo(data, pos);
    var (payload, p2) :- ReadOptionalInto(data, p1, None, ReadString);
    Some((Document(info, payload), p2))
  }

  // ---------------------------------------------------------------- properties

  lemma EncodePositionLength(p: Option<DocumentPosition>)
    ensures |EncodePosition(p)| == 1 + (if p.Some? then 2 * WORD else 0)
  {
  }

  /** The encoded length of an info: three 8-byte fields, three length-prefixed strings and
      the position (a flag plus two 8-byte fields when present). */
  lemma EncodeInfoLength(info: DocumentInfo)
    ensures |EncodeInfo(info)|
         == 24 + (8 + |info.name|) + (8 + |info.namespaceName|) + (8 + |info.owner|) + 1
            + (if info.position.Some? then 16 else 0)
  {
    EncodePositionLength(info.position);
  }

  lemma {:induction false} DecodePositionRoundTrip(p: Option<DocumentPosition>, data: Bytes, pos: nat)
    requires p.Some? ==> ValidPosition(p.value)
    requires IsPrefixAt(data, pos, EncodePosition(p))
    ensures DecodePosition(data, pos) == Some((p, pos + |EncodePosition(p)|))
  {
    var tail := if p.Some? then EncodeU64(p.value.pageIndex) + EncodeU64(p.value.pageOffset) else [];
    PrefixAtConcat(data, pos, EncodeBool(p.Some?), tail);
    ReadBoolRoundTrip(p.Some?, data, pos);
    if p.Some? {
      PrefixAtConcat(data, pos + 1, EncodeU64(p.value.pageIndex), EncodeU64(p.value.pageOffset));
      ReadU64RoundTrip(p.value.pageIndex, data, pos + 1);
      ReadU64RoundTrip(p.value.pageOffset, data, pos + 1 + WORD);
    }
  }

  /** A false flag decodes to no position, explicitly replacing any previous one. */
  lemma DecodePositionAbsent(data: Bytes, pos: nat)
    requires pos < |data| && data[pos] == 0
    ensures DecodePosition(data, pos) == Some((None, pos + 1))
  {
  }

  /** Where each field of an encoded info starts, and where the info ends. */
  function InfoOffsets(info: DocumentInfo, pos: nat): (o: seq<nat>)
    ensures |o| == 8
  {
    var p3 := pos + 3 * WORD;
    var p4 := p3 + WORD + |info.name|;
    var p5 := p4 + WORD + |info.namespaceName|;
    var p6 := p5 + WORD + |info.owner|;
    [pos, pos + WORD, pos + 2 * WORD, p3, p4, p5, p6, p6 + |EncodePosition(info.position)|]
  }

  /** An encoded info holds each field's encoding at that field's offset. */
  lemma InfoFieldsAt(info: DocumentInfo, data: Bytes, pos: nat)
    requires IsPrefixAt(data, pos, EncodeInfo(info))
    ensures var o := InfoOffsets(info, pos);
      && IsPrefixAt(data, o[0], EncodeU64(info.id))
      && IsPrefixAt(data, o[1], EncodeTime(info.created))
      && IsPrefixAt(data, o[2], EncodeTime(info.updated))
      && IsPrefixAt(data, o[3], EncodeString(info.name))
      && IsPrefixAt(data, o[4], EncodeString(info.namespaceName))
      && IsPrefixAt(data, o[5], EncodeString(info.owner))
      && IsPrefixAt(data, o[6], EncodePosition(info.position))
      && o[7] == pos + |EncodeInfo(info)|
  {
    var a1 := EncodeU64(info.id);
    var a2 := EncodeTime(info.created);
    var a3 := EncodeTime(info.updated);
    var a4 := EncodeString(info.name);
    var a5 := EncodeString(info.namespaceName);
    var a6 := EncodeString(info.owner);
    var a7 := EncodePosition(info.position);
    var l2 := a1 + a2;
    var l3 := l2 + a3;
    var l4 := l3 + a4;
    var l5 := l4 + a5;
    var l6 := l5 + a6;
    PrefixAtConcat(data, pos, l6, a7);
    PrefixAtConcat(data, pos, l5, a6);
    PrefixAtConcat(data, pos, l4, a5);
    PrefixAtConcat(data, pos, l3, a4);
    PrefixAtConcat(data, pos, l2, a3);
    PrefixAtConcat(data, pos, a1, a2);
  }

  /** Reading the seven fields in turn from their offsets builds the info. */
  lemma DecodeInfoChain(info: DocumentInfo, data: Bytes, o: seq<nat>)
    requires |o| == 8
    requires ReadU64(data, o[0]) == Some((info.id, o[1]))
    requires ReadTime(data, o[1]) == Some((info.created, o[2]))
    requires ReadTime(data, o[2]) == Some((info.updated, o[3]))
    requires ReadString(data, o[3]) == Some((info.name, o[4]))
    requires ReadString(data, o[4]) == Some((info.namespaceName, o[5]))
    requires ReadString(data, o[5]) == Some((info.owner, o[6]))
    requires DecodePosition(data, o[6]) == Some((info.position, o[7]))
    ensures DecodeInfo(data, o[0]) == Some((info, o[7]))
  {
  }

  /** Each field encoded at its offset reads back as that field. */
  lemma InfoFieldsRead(info: DocumentInfo, data: Bytes, pos: nat)
    requires ValidInfo(info)
    requires var o := InfoOffsets(info, pos);
      && IsPrefixAt(data, o[0], EncodeU64(info.id))
      && IsPrefixAt(data, o[1], EncodeTime(info.created))
      && IsPrefixAt(data, o[2], EncodeTime(info.updated))
      && IsPrefixAt(data, o[3], EncodeString(info.name))
      && IsPrefixAt(data, o[4], EncodeString(info.namespaceName))
      && IsPrefixAt(data, o[5], EncodeString(info.owner))
      && IsPrefixAt(data, o[6], EncodePosition(info.position))
    ensures var o := InfoOffsets(info, pos);
      && ReadU64(data, o[0]) == Some((info.id, o[1]))
      && ReadTime(data, o[1]) == Some((info.created, o[2]))
      && ReadTime(data, o[2]) == Some((info.updated, o[3]))
      && ReadString(data, o[3]) == Some((info.name, o[4]))
      && ReadString(data, o[4]) == Some((info.namespaceName, o[5]))
      && ReadString(data, o[5]) == Some((info.owner, o[6]))
      && DecodePosition(data, o[6]) == Some((info.position, o[7]))
  {
    var o := InfoOffsets(info, pos);
    ReadU64RoundTrip(info.id, data, o[0]);
    ReadTimeRoundTrip(info.created, data, o[1]);
    ReadTimeRoundTrip(info.updated, data, o[2]);
    ReadStringRoundTrip(info.name, data, o[3]);
    ReadStringRoundTrip(info.namespaceName, data, o[4]);
    ReadStringRoundTrip(info.owner, data, o[5]);
    DecodePositionRoundTrip(info.position, data, o[6]);
  }

  lemma DecodeInfoRoundTrip(info: DocumentInfo, data: Bytes, pos: nat)
    requires ValidInfo(info)
    requires IsPrefixAt(data, pos, EncodeInfo(info))
    ensures DecodeInfo(data, pos) == Some((info, pos + |EncodeInfo(info)|))
  {
    InfoFieldsAt(info, data, pos);
    InfoFieldsRead(info, data, pos);
    DecodeInfoChain(info, data, InfoOffsets(info, pos));
  }

  /** A present payload reads back as itself, an absent one as the empty payload a fresh
      document starts with. */
  lemma PayloadRoundTrip(payload: Option<Bytes>, data: Bytes, pos: nat)
    requires payload.Some? ==> IsU64(|payload.value|)
    requires IsPrefixAt(data, pos, EncodeOptional(payload, EncodeString))
    ensures ReadOptionalInto(data, pos, None, ReadString)
         == Some((payload, pos + |EncodeOptional(payload, EncodeString)|))
  {
    var tail := if payload.Some? then EncodeString(payload.value) else [];
    PrefixAtConcat(data, pos, EncodeBool(payload.Some?), tail);
    ReadBoolRoundTrip(payload.Some?, data, pos);
    if payload.Some? {
      ReadStringRoundTrip(payload.value, data, pos + 1);
    }
  }

  lemma DecodeDocumentChain(doc: Document, data: Bytes, pos: nat, p1: nat, p2: nat)
    requires DecodeInfo(data, pos) == Some((doc.info, p1))
    requires ReadOptionalInto(data, p1, None, ReadString) == Some((doc.payload, p2))
    ensures DecodeDocument(data, pos) == Some((doc, p2))
  {
  }

  lemma DecodeDocumentRoundTrip(doc: Document, data: Bytes, pos: nat)
    requires ValidDocument(doc)
    requires IsPrefixAt(data, pos, EncodeDocument(doc))
    ensures DecodeDocument(data, pos) == Some((doc, pos + |EncodeDocument(doc)|))
  {
    hide DecodeInfo;
    hide EncodeInfo;
    var a := EncodeInfo(doc.info);
    var b := EncodeOptional(doc.payload, EncodeString);
    PrefixAtConcat(data, pos, a, b);
    DecodeInfoRoundTrip(doc.info, data, pos);
    PayloadRoundTrip(doc.payload, data, pos + |a|);
    DecodeDocumentChain(doc, data, pos, pos + |a|, pos + |a| + |b|);
  }

  // ---------------------------------------------------------------- stream operators

  method WritePosition(out: OutStream, p: Option<DocumentPosition>)
    modifies out, out.fs
    ensures out.WroteAtCursor(EncodePosition(p))
  {
    hide AfterWrite;
    ghost var before, at := out.fs.files, out.pos;
    out.WriteBool(p.Some?);
    if p.Some? {
      ghost var flag := EncodeBool(true);
      out.WriteFixed(p.value.pageIndex, WORD);
      AfterWriteCompose(before, out.path, at, flag, EncodeU64(p.value.pageIndex));
      out.WriteFixed(p.value.pageOffset, WORD);
      AfterWriteCompose(before, out.path, at, flag + EncodeU64(p.value.pageIndex),
                        EncodeU64(p.value.pageOffset));
      assert EncodePosition(p) == flag + EncodeU64(p.value.pageIndex) + EncodeU64(p.value.pageOffset);
    } else {
      assert EncodePosition(p) == EncodeBool(false);
    }
  }

  method WriteInfo(out: OutStream, info: DocumentInfo)
    modifies out, out.fs
    ensures out.WroteAtCursor(EncodeInfo(info))
  {
    hide AfterWrite, EncodeFixed, EncodeTime, EncodeString, EncodePosition;
    ghost var before, at := out.fs.files, out.pos;
    out.WriteFixed(info.id, WORD);
    ghost var acc := EncodeU64(info.id);
    out.WriteTime(info.created);
    AfterWriteCompose(before, out.path, at, acc, EncodeTime(info.created));
    acc := acc + EncodeTime(info.created);
    out.WriteTime(info.updated);
    AfterWriteCompose(before, out.path, at, acc, EncodeTime(info.updated));
    acc := acc + EncodeTime(info.updated);
    out.WriteString(info.name);
    AfterWriteCompose(before, out.path, at, acc, EncodeString(info.name));
    acc := acc + EncodeString(info.name);
    out.WriteString(info.namespaceName);
    AfterWriteCompose(before, out.path, at, acc, EncodeString(info.namespaceName));
    acc := acc + EncodeString(info.namespaceName);
    out.WriteString(info.owner);
    AfterWriteCompose(before, out.path, at, acc, EncodeString(info.owner));
    acc := acc + EncodeString(info.owner);
    WritePosition(out, info.position);
    AfterWriteCompose(before, out.path, at, acc, EncodePosition(info.position));
  }

  method WriteDocument(out: OutStream, doc: Document)
    modifies out, out.fs
    ensures out.WroteAtCursor(EncodeDocument(doc))
  {
    hide AfterWrite;
    ghost var before, at := out.fs.files, out.pos;
    WriteInfo(out, doc.info);
    out.WriteOptional(doc.payload, EncodeString);
    AfterWriteCompose(before, out.path, at, EncodeInfo(doc.info),
                      EncodeOptional(doc.payload, EncodeString));
  }

  method ReadPosition(input: InStream) returns (r: Result<Option<DocumentPosition>, Error>)
    modifies input
    ensures input.Took(DecodePosition(input.data, old(input.pos)), r)
  {
    var present :- input.ReadBool();
    if !present {
      return Success(None);
    }
    var index :- input.ReadU64();
    var offset :- input.ReadU64();
    r := Success(Some(DocumentPosition(index, offset)));
  }

  /** Reads every field into a temporary and returns it whole. */
  method ReadInfo(input: InStream) returns (r: Result<DocumentInfo, Error>)
    modifies input
    ensures input.Took(DecodeInfo(input.data, old(input.pos)), r)
  {
    var id :- input.ReadU64();
    var created :- input.ReadTime();
    var updated :- input.ReadTime();
    var name :- input.ReadString();
    var namespaceName :- input.ReadString();
    var owner :- input.ReadString();
    var position :- ReadPosition(input);
    r := Success(DocumentInfo(id, created, updated, name, owner, namespaceName, position));
  }

  method ReadDocument(input: InStream) returns (r: Result<Document, Error>)
    modifies input
    ensures input.Took(DecodeDocument(input.data, old(input.pos)), r)
  {
    var info :- ReadInfo(input);
    var payload :- input.ReadOptionalInto(None, ReadString);
    r := Success(Document(info, payload));
  }
}
