/** `documents::components::Storage`: the document store. The index maps each id to its
    `DocumentInfo`; every change is written through to the storage sink (the payload to a page
    slot, then the whole index to the meta file). Ids come from a counter that is restored,
    on load, to one past the highest stored id. */
module DocumentStore {
  import opened Wrappers
  import opened Errors
  import opened Codec
  import opened Files
  import opened Documents
  import opened Pages
  import opened StorageSink

  /** Whether an update names anything to change. */
  predicate Touches(input: DocumentUpdateInput) {
    input.name.Some? || input.namespaceName.Some? || input.payload.Some?
  }

  /** The info after `Update`'s field changes, before a new payload is placed: the id, the
      owner, the creation time and the position are kept; the name and the namespace are
      replaced when supplied; `updated` becomes `now` when anything was supplied, and an
      update that supplies nothing changes nothing. */
  function UpdatedInfo(info: DocumentInfo, input: DocumentUpdateInput, now: int): (r: DocumentInfo)
    ensures r.id == info.id && r.owner == info.owner && r.created == info.created
    ensures r.position == info.position
    ensures r.name == (if input.name.Some? then input.name.value else info.name)
    ensures r.namespaceName == (if input.namespaceName.Some? then input.namespaceName.value
                                else info.namespaceName)
    ensures Touches(input) ==> r.updated == now
    ensures !Touches(input) ==> r == info
  {
    if !Touches(input) then info
    else info.(
      name := if input.name.Some? then input.name.value else info.name,
      namespaceName := if input.namespaceName.Some? then input.namespaceName.value else info.namespaceName,
      updated := now)
  }

  /** Applying the same update twice is applying it once. */
  lemma UpdateIdempotent(info: DocumentInfo, input: DocumentUpdateInput, now: int)
    ensures UpdatedInfo(UpdatedInfo(info, input, now), input, now) == UpdatedInfo(info, input, now)
  {
  }

  /** The index can be written by the binary codec: every field fits its width. */
  predicate Storable(infos: map<nat, DocumentInfo>) {
    IsU64(|infos|) && forall k :: k in infos ==> ValidInfo(infos[k])
  }

  // ------------------------------------------------------------ restored counter

  /** The largest id of a non-empty set of ids. */
  ghost function MaxId(ids: set<nat>): (m: nat)
    requires ids != {}
    ensures m in ids && forall k :: k in ids ==> k <= m
    decreases ids
  {
    var k :| k in ids;
    if ids == {k} then k
    else
      var rest := MaxId(ids - {k});
      assert forall j :: j in ids ==> j == k || j in ids - {k};
      if k > rest then k else rest
  }

  /** The counter `RestoreIdCounter` leaves: 0 for an empty index, otherwise one past the
      largest id. Every id is below it, so the next id handed out is fresh. */
  ghost function RestoredCounter(ids: set<nat>): (c: nat)
    ensures forall k :: k in ids ==> k < c
    ensures ids == {} ==> c == 0
    ensures ids != {} ==> c - 1 in ids
  {
    if ids == {} then 0 else MaxId(ids) + 1
  }

  /** The counter as the source computes it: `max_id + 1` in a 64-bit `size_t`, which wraps
      to 0 past the id 2^64 - 1. */
  ghost function RestoredCounterAsWritten(ids: set<nat>): (c: nat)
    ensures c < U64_LIMIT
    ensures ids != {} && MaxId(ids) + 1 < U64_LIMIT ==> c == MaxId(ids) + 1
    ensures ids != {} && MaxId(ids) + 1 == U64_LIMIT ==> c == 0
  {
    if ids == {} then 0 else (MaxId(ids) + 1) % U64_LIMIT
  }

  /** Below the id 2^64 - 1 the code as written restores the intended counter. */
  lemma RestoredCounterAsWrittenAgrees(ids: set<nat>)
    requires forall k :: k in ids ==> k + 1 < U64_LIMIT
    ensures RestoredCounterAsWritten(ids) == RestoredCounter(ids)
  {
    if ids != {} {
      assert MaxId(ids) in ids;
    }
  }

  /** An index of 64-bit ids holding 2^64 - 1 restores the counter as written to 0, an id
      the index already holds when it holds 0: the next `Add` then replaces that document. */
  lemma RestoredCounterAsWrittenReusesId(ids: set<nat>)
    requires forall k :: k in ids ==> IsU64(k)
    requires U64_LIMIT - 1 in ids
    ensures RestoredCounterAsWritten(ids) == 0
    ensures 0 in ids ==> RestoredCounterAsWritten(ids) in ids
    ensures RestoredCounter(ids) == U64_LIMIT && RestoredCounter(ids) !in ids
  {
    var m := MaxId(ids);
    assert U64_LIMIT - 1 <= m && IsU64(m);
  }

  // ------------------------------------------------------------ payload slots

  /** Where a document's payload was stored, and what it was. */
  datatype Slot = Slot(position: DocumentPosition, payload: Bytes)

  /** The index and the slots agree: exactly the documents with a position have a slot,
      at that position. */
  ghost predicate Indexed(infos: map<nat, DocumentInfo>, slots: map<nat, Slot>) {
    && (forall id :: id in slots ==> id in infos && infos[id].position == Some(slots[id].position))
    && (forall id :: id in infos && infos[id].position.Some? ==> id in slots)
  }

  /** Every slot lies past its page's header and holds its payload. */
  ghost predicate SlotsHeld(files: FileMap, slots: map<nat, Slot>) {
    forall id :: id in slots ==>
      DefaultPageSize() <= slots[id].position.pageOffset
      && PayloadAt(files, slots[id].position, slots[id].payload)
  }

  /** Two slots on different pages, or one ending where or before the other starts. */
  predicate Apart(a: Slot, b: Slot) {
    || a.position.pageIndex != b.position.pageIndex
    || a.position.pageOffset + SlotSize(a.payload) <= b.position.pageOffset
    || b.position.pageOffset + SlotSize(b.payload) <= a.position.pageOffset
  }

  /** No two documents' slots overlap. */
  ghost predicate SlotsApart(slots: map<nat, Slot>) {
    forall a, b :: a in slots && b in slots && a != b ==> Apart(slots[a], slots[b])
  }

  /** The position the document's old slot is at, if it has one. */
  function OldPosition(slots: map<nat, Slot>, id: nat): (r: Option<DocumentPosition>)
    ensures r.Some? <==> id in slots
    ensures r.Some? ==> r.value == slots[id].position
  {
    if id in slots then Some(slots[id].position) else None
  }

  /** A held slot ends within its page's recorded size. */
  lemma HeldSlotInPage(files: FileMap, pages: map<nat, nat>, slot: Slot)
    requires PagesMirrored(files, pages) && PayloadAt(files, slot.position, slot.payload)
    ensures slot.position.pageIndex in pages
    ensures slot.position.pageOffset + SlotSize(slot.payload) <= pages[slot.position.pageIndex]
  {
  }

  /** Appending a document's new slot at a page's end keeps every slot held and apart: the
      other slots survive, since none holds the old slot's flag, and the new one starts
      where every slot on its page ends. */
  lemma AppendKeepsSlots(files: FileMap, pages: map<nat, nat>, slots: map<nat, Slot>, id: nat,
                         position: DocumentPosition, payload: Bytes)
    requires PagesMirrored(files, pages) && AtPageEnd(pages, position)
    requires SlotsHeld(files, slots) && SlotsApart(slots) && IsU64(|payload|)
    ensures OldSlotKnown(pages, OldPosition(slots, id))
    ensures var files' := AppendedFiles(files, position, payload, OldPosition(slots, id));
      var slots' := slots[id := Slot(position, payload)];
      SlotsHeld(files', slots') && SlotsApart(slots')
  {
    var oldPosition := OldPosition(slots, id);
    var files' := AppendedFiles(files, position, payload, oldPosition);
    var slots' := slots[id := Slot(position, payload)];
    if id in slots {
      HeldSlotInPage(files, pages, slots[id]);
    }
    AppendedHolds(files, pages, position, payload, oldPosition);
    assert DefaultPageSize() <= position.pageOffset by {
      if position.pageIndex in pages {
        assert HoldsHeader(files[PagePath(position.pageIndex)]);
      }
    }
    hide AppendedFiles, PayloadAt, Apart;
    forall other | other in slots' && other != id
      ensures PayloadAt(files', slots'[other].position, slots'[other].payload)
      ensures Apart(slots'[id], slots'[other]) && Apart(slots'[other], slots'[id])
    {
      AppendKeepsOther(files, pages, slots, id, position, payload, other);
    }
  }

  /** Another document's slot survives the append and lies apart from the new slot. */
  lemma AppendKeepsOther(files: FileMap, pages: map<nat, nat>, slots: map<nat, Slot>, id: nat,
                         position: DocumentPosition, payload: Bytes, other: nat)
    requires PagesMirrored(files, pages) && AtPageEnd(pages, position)
    requires SlotsHeld(files, slots) && SlotsApart(slots)
    requires OldSlotKnown(pages, OldPosition(slots, id))
    requires other in slots && other != id
    ensures PayloadAt(AppendedFiles(files, position, payload, OldPosition(slots, id)),
                      slots[other].position, slots[other].payload)
    ensures Apart(Slot(position, payload), slots[other]) && Apart(slots[other], Slot(position, payload))
  {
    var kept := slots[other];
    HeldSlotInPage(files, pages, kept);
    if id in slots {
      assert Apart(slots[id], kept);
    }
    AppendedKeeps(files, pages, position, payload, OldPosition(slots, id), kept.position, kept.payload);
  }

  /** The slots stay held when the page files do not change. */
  lemma SamePagesKeepSlots(a: FileMap, b: FileMap, pages: map<nat, nat>, slots: map<nat, Slot>)
    requires SamePages(a, b)
    ensures PagesMirrored(a, pages) ==> PagesMirrored(b, pages)
    ensures SlotsHeld(a, slots) ==> SlotsHeld(b, slots)
  {
    SamePagesKeep(a, b, pages);
  }

  /** The store's invariant over the directory, the sink's pages, the index and the slots:
      the pages are the page files, named as the sink names them; every document with a
      position holds its payload in a slot there; and no two slots overlap. */
  ghost predicate Consistent(files: FileMap, pages: map<nat, nat>, infos: map<nat, DocumentInfo>,
                             slots: map<nat, Slot>)
  {
    && PagesMirrored(files, pages) && CanonicalPages(files)
    && Indexed(infos, slots) && SlotsHeld(files, slots) && SlotsApart(slots)
  }

  /** A document's old slot, when it has one, is on a known page past the header. */
  lemma ConsistentOldKnown(files: FileMap, pages: map<nat, nat>, infos: map<nat, DocumentInfo>,
                           slots: map<nat, Slot>, id: nat)
    requires Consistent(files, pages, infos, slots) && id in infos
    ensures PagesMirrored(files, pages)
    ensures infos[id].position == OldPosition(slots, id)
    ensures OldSlotKnown(pages, infos[id].position)
  {
    if id in slots {
      HeldSlotInPage(files, pages, slots[id]);
    }
  }

  /** Storing a document's payload at the end of a page keeps the invariant, with the slot
      recorded at its new position. */
  lemma ConsistentStored(files: FileMap, pages: map<nat, nat>, infos: map<nat, DocumentInfo>,
                         slots: map<nat, Slot>, id: nat, position: DocumentPosition, payload: Bytes)
    requires Consistent(files, pages, infos, slots) && id in infos && IsU64(|payload|)
    requires AtPageEnd(pages, position)
    ensures Consistent(AppendedFiles(files, position, payload, infos[id].position),
                       pages[position.pageIndex := position.pageOffset + SlotSize(payload)],
                       infos[id := infos[id].(position := Some(position))],
                       slots[id := Slot(position, payload)])
  {
    ConsistentOldKnown(files, pages, infos, slots, id);
    AppendKeepsSlots(files, pages, slots, id, position, payload);
    AppendedMirrored(files, pages, position, payload, infos[id].position);
    AppendedCanonical(files, position, payload, infos[id].position);
  }

  /** The invariant does not depend on any file but the pages. */
  lemma ConsistentSamePages(a: FileMap, b: FileMap, pages: map<nat, nat>,
                            infos: map<nat, DocumentInfo>, slots: map<nat, Slot>)
    requires Consistent(a, pages, infos, slots) && SamePages(a, b) && CanonicalPages(b)
    ensures Consistent(b, pages, infos, slots)
  {
    SamePagesKeepSlots(a, b, pages, slots);
  }

  /** Replacing an info by one with the position the slots record keeps the invariant. */
  lemma ConsistentRelabel(files: FileMap, pages: map<nat, nat>, infos: map<nat, DocumentInfo>,
                          slots: map<nat, Slot>, id: nat, info: DocumentInfo)
    requires Consistent(files, pages, infos, slots) && info.position == OldPosition(slots, id)
    ensures Consistent(files, pages, infos[id := info], slots)
  {
    hide PagesMirrored, CanonicalPages, SlotsHeld, SlotsApart, PayloadAt;
  }

  /** A new document without a position joins the index without disturbing the invariant. */
  lemma ConsistentAdmit(files: FileMap, pages: map<nat, nat>, infos: map<nat, DocumentInfo>,
                        slots: map<nat, Slot>, id: nat, info: DocumentInfo)
    requires Consistent(files, pages, infos, slots) && id !in infos && info.position.None?
    ensures Consistent(files, pages, infos[id := info], slots)
  {
    hide PagesMirrored, CanonicalPages, SlotsHeld, SlotsApart, PayloadAt;
  }

  /** Dropping a document and its slot keeps the invariant. */
  lemma ConsistentRemove(files: FileMap, pages: map<nat, nat>, infos: map<nat, DocumentInfo>,
                         slots: map<nat, Slot>, id: nat)
    requires Consistent(files, pages, infos, slots)
    ensures Consistent(files, pages, infos - {id}, slots - {id})
  {
    hide PagesMirrored, CanonicalPages, PayloadAt;
  }

  class Storage {
    /** The next id to hand out. */
    var idCounter: nat
    var documentsInfo: map<nat, DocumentInfo>
    const sink: FileStorageSink
    /** The payload each positioned document was last stored with, and where. */
    ghost var slots: map<nat, Slot>

    /** Constructed over the storage directory; nothing is loaded until `Init`. */
    constructor (fs: FileSystem)
      ensures idCounter == 0 && documentsInfo == map[] && slots == map[]
      ensures fresh(sink) && sink.fs == fs && sink.pagesMap == map[] && sink.pageIndexCounter == 0
      ensures CanonicalPages(fs.files) && (forall i: nat :: PagePath(i) !in fs.files) ==> Intact()
    {
      idCounter := 0;
      documentsInfo := map[];
      slots := map[];
      sink := new FileStorageSink(fs);
    }

    /** Every entry is keyed by its id, every id is below the counter (so the next id is
        fresh), and the sink's counter is above its pages. */
    ghost predicate Valid()
      reads this, sink
    {
      sink.Valid() && WellKeyed(documentsInfo) && forall k :: k in documentsInfo ==> k < idCounter
    }

    /** The sink's pages are the page files, named as the sink names them; every document
        with a position holds its payload in a slot there; and no two slots overlap. */
    ghost predicate Intact()
      reads this, sink, sink.fs
    {
      Consistent(sink.fs.files, sink.pagesMap, documentsInfo, slots)
    }

    /** The meta file holds this index: loading it gives the index back. */
    ghost predicate Persisted()
      reads this, sink, sink.fs
    {
      META_FILE_NAME in sink.fs.files
      && (Storable(documentsInfo) ==> DecodeMeta(sink.fs.files[META_FILE_NAME]) == Success(documentsInfo))
    }

    /** `NextId`: the counter's value, after which the counter moves on. */
    method NextId() returns (id: nat)
      modifies this
      ensures id == old(idCounter) && idCounter == old(idCounter) + 1
      ensures documentsInfo == old(documentsInfo) && slots == old(slots)
    {
      id := idCounter;
      idCounter := idCounter + 1;
    }

    /** `OnDocumentUpdated()`: the whole index is written to the meta file. Page files are
        not touched. */
    method StoreIndex()
      requires WellKeyed(documentsInfo)
      modifies sink.fs
      ensures Persisted()
      ensures SamePages(old(sink.fs.files), sink.fs.files)
      ensures CanonicalPages(old(sink.fs.files)) ==> CanonicalPages(sink.fs.files)
      ensures old(Intact()) ==> Intact()
    {
      ghost var before := sink.fs.files;
      ghost var order := sink.StoreMeta(documentsInfo);
      MetaStoredSamePages(before, Entries(order, documentsInfo));
      if CanonicalPages(before) {
        MetaStoredCanonical(before, Entries(order, documentsInfo));
      }
      if Consistent(before, sink.pagesMap, documentsInfo, slots) {
        ConsistentSamePages(before, sink.fs.files, sink.pagesMap, documentsInfo, slots);
      }
      if Storable(documentsInfo) {
        MetaStoreLoad(before, order, documentsInfo);
      }
    }

    /** `OnDocumentUpdated(info, payload)`: the payload is stored (disabling the document's
        old slot), the new position recorded in the info, and the index written. */
    method StorePayload(id: nat, payload: Bytes) returns (r: Outcome<Error>)
      requires Valid() && id in documentsInfo
      modifies this, sink, sink.fs
      ensures Valid() && idCounter == old(idCounter)
      ensures r.Fail? ==> r.error == FilesystemException && documentsInfo == old(documentsInfo)
      ensures r.Pass? ==>
                && id in documentsInfo && documentsInfo[id].position.Some?
                && documentsInfo == old(documentsInfo)[id := old(documentsInfo)[id].(position := documentsInfo[id].position)]
                && Persisted()
                && (IsU64(|payload|)
                    && !OldSlotOverlaps(old(documentsInfo)[id].position, documentsInfo[id].position.value, payload) ==>
                      PayloadAt(sink.fs.files, documentsInfo[id].position.value, payload))
      ensures r.Fail? ==> slots == old(slots)
      ensures old(Intact()) && IsU64(|payload|) ==>
                && r.Pass? && Intact()
                && slots == old(slots)[id := Slot(documentsInfo[id].position.value, payload)]
    {
      hide Consistent, StoredFiles, AppendedFiles, PlacedFiles, Untouched, OldSlotGone, Chosen;
      hide PagesMirrored, PageOpened, AtPageEnd, OldSlotKnown;
      hide DecodeMeta, Storable, CanonicalPages, OldSlotOverlaps;
      ghost var before := sink.fs.files;
      ghost var pages := sink.pagesMap;
      ghost var intact := Intact();
      if intact {
        ConsistentOldKnown(before, pages, documentsInfo, slots, id);
      }
      var placed := sink.StorePayload(documentsInfo[id].position, payload);
      if placed.Failure? {
        return Fail(placed.error);
      }
      if intact && IsU64(|payload|) {
        ConsistentStored(before, pages, documentsInfo, slots, id, placed.value, payload);
        assert Consistent(sink.fs.files, sink.pagesMap, documentsInfo[id := documentsInfo[id].(position := Some(placed.value))],
                          slots[id := Slot(placed.value, payload)]);
      }
      slots := slots[id := Slot(placed.value, payload)];
      documentsInfo := documentsInfo[id := documentsInfo[id].(position := Some(placed.value))];
      assert intact && IsU64(|payload|) ==> Intact();
      StoreIndex();
      return Pass;
    }

    /** `Get`: the indexed info, with the payload read from its slot when asked for. */
    method Get(id: nat, fetchPayload: bool) returns (r: Result<Document, Error>)
      modifies sink.fs
      ensures id !in documentsInfo ==> r == Failure(NotFound(id)) && sink.fs.files == old(sink.fs.files)
      ensures id in documentsInfo && !fetchPayload ==>
                r == Success(Document(documentsInfo[id], None)) && sink.fs.files == old(sink.fs.files)
      ensures id in documentsInfo && fetchPayload && documentsInfo[id].position.None? ==>
                r == Failure(RuntimeError("Missing document position"))
                && sink.fs.files == old(sink.fs.files)
      ensures r.Success? ==> r.value.info == documentsInfo[id]
      ensures id in documentsInfo && fetchPayload && documentsInfo[id].position.Some? ==>
                var p := documentsInfo[id].position.value;
                forall x :: PayloadAt(old(sink.fs.files), p, x) && PageReadable(old(sink.fs.files), p.pageIndex) ==>
                  r == Success(Document(documentsInfo[id], Some(x)))
      ensures old(Intact()) ==> sink.fs.files == old(sink.fs.files) && Intact()
      ensures old(Intact()) && id in documentsInfo && fetchPayload && documentsInfo[id].position.Some? ==>
                r == Success(Document(documentsInfo[id], Some(slots[id].payload)))
    {
      if id !in documentsInfo {
        return Failure(NotFound(id));
      }
      var info := documentsInfo[id];
      if !fetchPayload {
        return Success(Document(info, None));
      }
      if info.position.None? {
        return Failure(RuntimeError("Missing document position"));
      }
      ghost var before := sink.fs.files;
      if Intact() {
        var p := info.position.value;
        CheckPageIsHeader(before[PagePath(p.pageIndex)]);
      }
      forall x | PayloadAt(before, info.position.value, x)
        ensures LoadSlot(before[PagePath(info.position.value.pageIndex)], info.position.value.pageOffset) == Success(x)
      {
        LoadHeldSlot(before[PagePath(info.position.value.pageIndex)], info.position.value.pageOffset, x);
      }
      var payload := sink.LoadPayload(info.position.value);
      if payload.Failure? {
        return Failure(payload.error);
      }
      return Success(Document(info, Some(payload.value)));
    }

    /** `List`: every indexed info, without payloads, in the order the index is iterated. */
    method List() returns (docs: seq<Document>, ghost order: seq<nat>)
      ensures Enumerates(order, documentsInfo)
      ensures |docs| == |order|
      ensures forall i :: 0 <= i < |docs| ==> docs[i] == Document(documentsInfo[order[i]], None)
    {
      VisitStart(documentsInfo);
      docs, order := [], [];
      var remaining := documentsInfo.Keys;
      while remaining != {}
        invariant Visiting(order, remaining, documentsInfo)
        invariant |docs| == |order|
        invariant forall i :: 0 <= i < |docs| ==> docs[i] == Document(documentsInfo[order[i]], None)
        decreases |remaining|
      {
        var k :| k in remaining;
        VisitStep(order, remaining, documentsInfo, k);
        docs, order := docs + [Document(documentsInfo[k], None)], order + [k];
        remaining := remaining - {k};
      }
      VisitDone(order, documentsInfo);
    }

    /** `Add`: a new info under the next id, created and updated at `now`, then the payload
        and the index are stored. The returned info is the one built before storing, so it
        carries no position. */
    method Add(input: DocumentInput, now: int) returns (r: Result<Document, Error>)
      requires Valid()
      modifies this, sink, sink.fs
      ensures Valid() && idCounter == old(idCounter) + 1
      ensures var id := old(idCounter);
        var info := DocumentInfo(id, now, now, input.name, input.owner, input.namespaceName, None);
        && id !in old(documentsInfo)
        && (r.Failure? ==> r.error == FilesystemException
                           && documentsInfo == old(documentsInfo)[id := info])
        && (r.Success? ==>
              && r.value == Document(info, None)
              && id in documentsInfo && documentsInfo[id].position.Some?
              && documentsInfo == old(documentsInfo)[id := info.(position := documentsInfo[id].position)]
              && Persisted()
              && (IsU64(|input.payload|) ==>
                    PayloadAt(sink.fs.files, documentsInfo[id].position.value, input.payload)))
      ensures old(Intact()) && IsU64(|input.payload|) ==>
                && r.Success? && Intact()
                && slots == old(slots)[old(idCounter) :=
                     Slot(documentsInfo[old(idCounter)].position.value, input.payload)]
    {
      hide Consistent, PayloadAt, DecodeMeta, Storable;
      var id := NextId();
      var info := DocumentInfo(id, now, now, input.name, input.owner, input.namespaceName, None);
      var stored := RecordAndStore(id, info, input.payload);
      if stored.Fail? {
        return Failure(stored.error);
      }
      return Success(Document(info, None));
    }

    /** `Update`: the supplied fields are changed in place; a supplied payload is stored and
        the index written, otherwise only the index is written. */
    method Update(id: nat, input: DocumentUpdateInput, now: int) returns (r: Result<Document, Error>)
      requires Valid()
      modifies this, sink, sink.fs
      ensures Valid() && idCounter == old(idCounter)
      ensures id !in old(documentsInfo) ==>
                r == Failure(NotFound(id)) && documentsInfo == old(documentsInfo)
                && sink.fs.files == old(sink.fs.files)
      ensures id in old(documentsInfo) && input.payload.None? ==>
                var info := UpdatedInfo(old(documentsInfo)[id], input, now);
                r == Success(Document(info, None)) && documentsInfo == old(documentsInfo)[id := info]
                && Persisted()
      ensures id in old(documentsInfo) && input.payload.Some? ==>
                var info := UpdatedInfo(old(documentsInfo)[id], input, now);
                && (r.Failure? ==> r.error == FilesystemException
                                   && documentsInfo == old(documentsInfo)[id := info])
                && (r.Success? ==>
                      && id in documentsInfo && documentsInfo[id].position.Some?
                      && documentsInfo == old(documentsInfo)[id := info.(position := documentsInfo[id].position)]
                      && r.value == Document(documentsInfo[id], None)
                      && Persisted()
                      && (IsU64(|input.payload.value|)
                          && !OldSlotOverlaps(info.position, documentsInfo[id].position.value, input.payload.value) ==>
                            PayloadAt(sink.fs.files, documentsInfo[id].position.value, input.payload.value)))
      ensures old(Intact()) && id in old(documentsInfo) && input.payload.None? ==>
                Intact() && slots == old(slots)
      ensures old(Intact()) && id in old(documentsInfo) && input.payload.Some?
              && IsU64(|input.payload.value|) ==>
                && r.Success? && Intact()
                && slots == old(slots)[id := Slot(documentsInfo[id].position.value, input.payload.value)]
    {
      if id !in documentsInfo {
        return Failure(NotFound(id));
      }
      hide Consistent, PayloadAt, OldSlotOverlaps, DecodeMeta, Storable;
      var info := UpdatedInfo(documentsInfo[id], input, now);
      if input.payload.Some? {
        var stored := RecordAndStore(id, info, input.payload.value);
        if stored.Fail? {
          return Failure(stored.error);
        }
      } else {
        Record(id, info);
        StoreIndex();
      }
      return Success(Document(documentsInfo[id], None));
    }

    /** `Delete`: the info leaves the index and the index is written; the payload slot is
        left active. */
    method Delete(id: nat) returns (r: Result<Document, Error>)
      requires Valid()
      modifies this, sink.fs
      ensures Valid() && idCounter == old(idCounter)
      ensures id !in old(documentsInfo) ==>
                r == Failure(NotFound(id)) && documentsInfo == old(documentsInfo)
                && sink.fs.files == old(sink.fs.files)
      ensures id in old(documentsInfo) ==>
                r == Success(Document(old(documentsInfo)[id], None))
                && documentsInfo == old(documentsInfo) - {id} && Persisted()
      ensures id in old(documentsInfo) ==> slots == old(slots) - {id}
      ensures id !in old(documentsInfo) ==> slots == old(slots)
      ensures old(Intact()) ==> Intact()
    {
      if id !in documentsInfo {
        return Failure(NotFound(id));
      }
      var result := Document(documentsInfo[id], None);
      Drop(id);
      StoreIndex();
      return Success(result);
    }

    /** The info is entered in the index under its id, keeping the position the index
        already has for it; nothing is written. */
    method Record(id: nat, info: DocumentInfo)
      requires Valid() && info.id == id && id < idCounter
      requires id in documentsInfo ==> info.position == documentsInfo[id].position
      requires id !in documentsInfo ==> info.position.None?
      modifies this
      ensures Valid() && id in documentsInfo
      ensures documentsInfo == old(documentsInfo)[id := info] && slots == old(slots)
      ensures idCounter == old(idCounter)
      ensures old(Intact()) ==> Intact()
    {
      hide Consistent;
      if Intact() {
        if id in documentsInfo {
          ConsistentOldKnown(sink.fs.files, sink.pagesMap, documentsInfo, slots, id);
          ConsistentRelabel(sink.fs.files, sink.pagesMap, documentsInfo, slots, id, info);
        } else {
          ConsistentAdmit(sink.fs.files, sink.pagesMap, documentsInfo, slots, id, info);
        }
      }
      documentsInfo := documentsInfo[id := info];
    }

    /** The info is entered in the index, then its payload and the index are stored. */
    method RecordAndStore(id: nat, info: DocumentInfo, payload: Bytes) returns (r: Outcome<Error>)
      requires Valid() && info.id == id && id < idCounter
      requires id in documentsInfo ==> info.position == documentsInfo[id].position
      requires id !in documentsInfo ==> info.position.None?
      modifies this, sink, sink.fs
      ensures Valid() && idCounter == old(idCounter)
      ensures r.Fail? ==> r.error == FilesystemException && documentsInfo == old(documentsInfo)[id := info]
      ensures r.Pass? ==>
                && id in documentsInfo && documentsInfo[id].position.Some?
                && documentsInfo == old(documentsInfo)[id := info.(position := documentsInfo[id].position)]
                && Persisted()
                && (IsU64(|payload|) && !OldSlotOverlaps(info.position, documentsInfo[id].position.value, payload) ==>
                      PayloadAt(sink.fs.files, documentsInfo[id].position.value, payload))
      ensures old(Intact()) && IsU64(|payload|) ==>
                && r.Pass? && Intact()
                && slots == old(slots)[id := Slot(documentsInfo[id].position.value, payload)]
    {
      hide Consistent, PayloadAt, OldSlotOverlaps, DecodeMeta, Storable;
      Record(id, info);
      r := StorePayload(id, payload);
    }

    /** The document and its slot leave the index; nothing is written. */
    method Drop(id: nat)
      modifies this
      ensures documentsInfo == old(documentsInfo) - {id} && slots == old(slots) - {id}
      ensures idCounter == old(idCounter)
      ensures old(Intact()) ==> Intact()
    {
      hide Consistent;
      if Intact() {
        ConsistentRemove(sink.fs.files, sink.pagesMap, documentsInfo, slots, id);
      }
      documentsInfo := documentsInfo - {id};
      slots := slots - {id};
    }

    /** `Clear`: the index is emptied, the sink re-initialised and the empty index written;
        the id counter is kept. Returns how many entries there were. */
    method Clear() returns (r: Result<nat, Error>)
      requires Valid()
      modifies this, sink, sink.fs
      ensures Valid() && idCounter == old(idCounter) && documentsInfo == map[]
      ensures r.Success? ==> r.value == |old(documentsInfo)| && Persisted()
      ensures r.Failure? ==> r.error == FilesystemException
      ensures slots == map[]
      ensures r.Success? && CanonicalPages(old(sink.fs.files)) ==> Intact()
    {
      var count := |documentsInfo|;
      var unloaded := Unload();
      if unloaded.Fail? {
        return Failure(unloaded.error);
      }
      StoreIndex();
      return Success(count);
    }

    /** `RestoreIdCounter`: one past the highest id in the index, or 0 for an empty index. */
    method RestoreIdCounter()
      modifies this
      ensures documentsInfo == old(documentsInfo)
      ensures documentsInfo == map[] ==> idCounter == 0
      ensures documentsInfo != map[] ==> idCounter - 1 in documentsInfo
      ensures forall k :: k in documentsInfo ==> k < idCounter
      ensures idCounter == RestoredCounter(documentsInfo.Keys)
    {
      if documentsInfo == map[] {
        idCounter := 0;
        return;
      }
      var maxId: nat := 0;
      var seen := false;
      var keys := documentsInfo.Keys;
      while keys != {}
        invariant keys <= documentsInfo.Keys
        invariant forall k :: k in documentsInfo && k !in keys ==> k <= maxId
        invariant seen ==> maxId in documentsInfo
        invariant !seen ==> maxId == 0 && keys == documentsInfo.Keys
        decreases |keys|
      {
        var k :| k in keys;
        if !seen || k > maxId {
          maxId := k;
        }
        seen := true;
        keys := keys - {k};
      }
      assert maxId == MaxId(documentsInfo.Keys);
      idCounter := maxId + 1;
    }

    /** `Load`: the sink is initialised, the index read from the meta file, and the counter
        restored. */
    method Load() returns (r: Outcome<Error>)
      requires Valid()
      modifies this, sink, sink.fs
      ensures Valid()
      ensures r.Pass? ==>
                META_FILE_NAME in sink.fs.files
                && DecodeMeta(sink.fs.files[META_FILE_NAME]) == Success(documentsInfo)
                && (documentsInfo == map[] ==> idCounter == 0)
                && (documentsInfo != map[] ==> idCounter - 1 in documentsInfo)
      ensures r.Fail? ==> documentsInfo == old(documentsInfo) && idCounter == old(idCounter)
    {
      hide DecodeMeta, BadPage, PagesFound, CanonicalPages, PagesMirrored;
      var initialised := sink.Init();
      if initialised.Fail? {
        return initialised;
      }
      var loaded := sink.LoadMeta();
      if loaded.Failure? {
        return Fail(loaded.error);
      }
      DecodeMetaWellKeyed(sink.fs.files[META_FILE_NAME]);
      documentsInfo := loaded.value;
      RestoreIdCounter();
      return Pass;
    }

    /** `Unload`: the index is dropped and the sink reset. */
    method Unload() returns (r: Outcome<Error>)
      requires Valid()
      modifies this, sink, sink.fs
      ensures Valid() && documentsInfo == map[] && idCounter == old(idCounter)
      ensures r.Fail? ==> r.error == FilesystemException
      ensures slots == map[]
      ensures CanonicalPages(old(sink.fs.files)) ==> CanonicalPages(sink.fs.files)
      ensures r.Pass? && CanonicalPages(old(sink.fs.files)) ==> Intact()
    {
      documentsInfo := map[];
      slots := map[];
      r := sink.Reset();
    }

    /** `Init`: loads the index from the sink. */
    method Init() returns (r: Outcome<Error>)
      requires Valid()
      modifies this, sink, sink.fs
      ensures Valid()
      ensures r.Pass? ==>
                META_FILE_NAME in sink.fs.files
                && DecodeMeta(sink.fs.files[META_FILE_NAME]) == Success(documentsInfo)
                && (documentsInfo == map[] ==> idCounter == 0)
                && (documentsInfo != map[] ==> idCounter - 1 in documentsInfo)
      ensures r.Fail? ==> documentsInfo == old(documentsInfo) && idCounter == old(idCounter)
    {
      r := Load();
    }

    /** `Reset`: unload, then load again. */
    method Reset() returns (r: Outcome<Error>)
      requires Valid()
      modifies this, sink, sink.fs
      ensures Valid()
      ensures r.Pass? ==>
                META_FILE_NAME in sink.fs.files
                && DecodeMeta(sink.fs.files[META_FILE_NAME]) == Success(documentsInfo)
    {
      r := Unload();
      if r.Fail? {
        return;
      }
      r := Load();
    }

    /** A document added to an intact store reads back with the payload it was added with. */
    method AddThenGet(input: DocumentInput, now: int) returns (added: Result<Document, Error>, got: Result<Document, Error>)
      requires Valid() && Intact() && IsU64(|input.payload|)
      modifies this, sink, sink.fs
      ensures added.Success? && added.value.info.id in documentsInfo
      ensures added.value.info.id !in old(documentsInfo)
      ensures documentsInfo == old(documentsInfo)[added.value.info.id := documentsInfo[added.value.info.id]]
      ensures documentsInfo[added.value.info.id].position.Some?
      ensures slots == old(slots)[added.value.info.id := Slot(documentsInfo[added.value.info.id].position.value, input.payload)]
      ensures var info := documentsInfo[added.value.info.id];
        && info.name == input.name && info.owner == input.owner && info.namespaceName == input.namespaceName
        && got == Success(Document(info, Some(input.payload)))
      ensures Valid() && Intact()
    {
      hide Consistent, PayloadAt, OldSlotOverlaps;
      added := Add(input, now);
      got := Get(added.value.info.id, true);
    }

    /** After an update with a payload, the document reads back with the new payload and
        the updated fields. */
    method UpdateThenGet(id: nat, input: DocumentUpdateInput, now: int) returns (updated: Result<Document, Error>, got: Result<Document, Error>)
      requires Valid() && Intact() && id in documentsInfo
      requires input.payload.Some? && IsU64(|input.payload.value|)
      modifies this, sink, sink.fs
      ensures updated.Success? && id in documentsInfo
      ensures documentsInfo == old(documentsInfo)[id := documentsInfo[id]]
      ensures documentsInfo[id].position.Some?
      ensures slots == old(slots)[id := Slot(documentsInfo[id].position.value, input.payload.value)]
      ensures var info := UpdatedInfo(old(documentsInfo)[id], input, now);
        && documentsInfo[id] == info.(position := documentsInfo[id].position)
        && got == Success(Document(documentsInfo[id], Some(input.payload.value)))
      ensures Valid() && Intact()
    {
      hide Consistent, PayloadAt, OldSlotOverlaps;
      updated := Update(id, input, now);
      got := Get(id, true);
    }

    /** A deleted document is no longer found. */
    method DeleteThenGet(id: nat) returns (deleted: Result<Document, Error>, got: Result<Document, Error>)
      requires Valid() && id in documentsInfo
      modifies this, sink.fs
      ensures deleted == Success(Document(old(documentsInfo)[id], None))
      ensures got == Failure(NotFound(id))
      ensures documentsInfo == old(documentsInfo) - {id} && slots == old(slots) - {id}
      ensures old(Intact()) ==> Intact()
    {
      deleted := Delete(id);
      got := Get(id, true);
    }
  }
}
