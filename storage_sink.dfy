/** `documents::fs_sink::FileStorageSink`: the document index is kept whole in `meta.ddb`
    ("META", the entry count, then each `DocumentInfo`), and payloads in page files, each
    payload in a slot of the first page with room for it. Every change to a file runs inside
    a file transaction. */
module StorageSink {
  import opened Wrappers
  import opened Errors
  import opened Codec
  import opened Files
  import opened Streams
  import opened Documents
  import opened Transactions
  import opened Pages

  const META_FILE_NAME: Path := "meta.ddb"
  /** "META" */
  const META_PREFIX: Bytes := [0x4D, 0x45, 0x54, 0x41]
  /** 4 MiB: a page never grows past this by taking a payload. */
  const MAX_PAGE_SIZE: nat := 1024 * 1024 * 4

  // ------------------------------------------------------------ the meta index

  /** The documents of an index, keyed by their own ids. */
  predicate WellKeyed(infos: map<nat, DocumentInfo>) {
    forall k :: k in infos ==> infos[k].id == k
  }

  /** `order` visits every key of `infos` exactly once: the order in which the index map
      happens to be iterated. */
  ghost predicate Enumerates(order: seq<nat>, infos: map<nat, DocumentInfo>) {
    && |order| == |infos|
    && (forall i :: 0 <= i < |order| ==> order[i] in infos)
    && (forall k :: k in infos ==> k in order)
    && (forall i, j :: 0 <= i < j < |order| ==> order[i] != order[j])
  }

  /** The entries of `infos` in the order `order` visits them. */
  function Entries(order: seq<nat>, infos: map<nat, DocumentInfo>): (r: seq<DocumentInfo>)
    requires forall i :: 0 <= i < |order| ==> order[i] in infos
    ensures |r| == |order| && forall i :: 0 <= i < |order| ==> r[i] == infos[order[i]]
  {
    seq(|order|, i requires 0 <= i < |order| => infos[order[i]])
  }

  /** The bytes meta `Store` writes for entries listed in `infos`. */
  function EncodeMeta(infos: seq<DocumentInfo>): Bytes {
    EncodeString(META_PREFIX) + EncodeSeq(infos, EncodeInfo)
  }

  /** The index `LoadMeta` builds: each entry stored under its id, a later entry replacing an
      earlier one with the same id. */
  function IndexOf(infos: seq<DocumentInfo>): map<nat, DocumentInfo> {
    if infos == [] then map[]
    else IndexOf(infos[..|infos| - 1])[infos[|infos| - 1].id := infos[|infos| - 1]]
  }

  lemma IndexOfEmpty()
    ensures IndexOf([]) == map[]
  {
  }

  /** One more entry read: it is filed under its id, over any earlier entry with that id. */
  lemma IndexOfSnoc(infos: seq<DocumentInfo>, info: DocumentInfo)
    ensures IndexOf(infos + [info]) == IndexOf(infos)[info.id := info]
  {
    assert (infos + [info])[..|infos|] == infos;
  }

  /** `LoadMeta` on the bytes of `meta.ddb`: a missing or wrong prefix and any read past the
      end are reported as `FilesystemException`. */
  function DecodeMeta(data: Bytes): Result<map<nat, DocumentInfo>, Error> {
    match Codec.ReadString(data, 0)
    case None => Failure(FilesystemException)
    case Some((prefix, next)) =>
      if prefix != META_PREFIX then Failure(FilesystemException)
      else match ReadSeq(data, next, DecodeInfo)
        case None => Failure(FilesystemException)
        case Some((infos, _)) => Success(IndexOf(infos))
  }

  lemma InfoCodecInverts()
    ensures Inverts(ValidInfo, EncodeInfo, DecodeInfo)
  {
    hide EncodeInfo, DecodeInfo;
    forall info: DocumentInfo, data: Bytes, pos: nat
      | ValidInfo(info) && IsPrefixAt(data, pos, EncodeInfo(info))
      ensures DecodeInfo(data, pos) == Some((info, pos + |EncodeInfo(info)|))
    {
      DecodeInfoRoundTrip(info, data, pos);
    }
  }

  /** Meta bytes written for a list of valid entries load back as the index of that list,
      whatever follows them in the file. */
  lemma DecodeMetaRoundTrip(infos: seq<DocumentInfo>, data: Bytes)
    requires IsU64(|infos|) && forall i :: 0 <= i < |infos| ==> ValidInfo(infos[i])
    requires IsPrefixAt(data, 0, EncodeMeta(infos))
    ensures DecodeMeta(data) == Success(IndexOf(infos))
  {
    hide EncodeInfo, DecodeInfo, EncodeSeq, ReadSeq, IndexOf, EncodeMeta;
    MetaHeader(infos, data);
    InfoCodecInverts();
    ReadSeqRoundTrip(infos, ValidInfo, EncodeInfo, DecodeInfo, data, WORD + |META_PREFIX|);
  }

  /** Meta bytes start with the prefix string, followed by the entries. */
  lemma MetaHeader(infos: seq<DocumentInfo>, data: Bytes)
    requires IsPrefixAt(data, 0, EncodeMeta(infos))
    ensures Codec.ReadString(data, 0) == Some((META_PREFIX, WORD + |META_PREFIX|))
    ensures IsPrefixAt(data, WORD + |META_PREFIX|, EncodeSeq(infos, EncodeInfo))
  {
    hide EncodeInfo, EncodeSeq;
    PrefixAtConcat(data, 0, EncodeString(META_PREFIX), EncodeSeq(infos, EncodeInfo));
    ReadStringRoundTrip(META_PREFIX, data, 0);
  }

  /** Indexing entries that all agree with `infos` gives exactly the keys listed, each with
      its entry in `infos`. */
  lemma {:induction false} IndexOfAgrees(xs: seq<DocumentInfo>, infos: map<nat, DocumentInfo>)
    requires forall i :: 0 <= i < |xs| ==> xs[i].id in infos && infos[xs[i].id] == xs[i]
    ensures forall k :: k in IndexOf(xs) <==> exists i :: 0 <= i < |xs| && xs[i].id == k
    ensures forall k :: k in IndexOf(xs) ==> k in infos && IndexOf(xs)[k] == infos[k]
  {
    if xs != [] {
      var init := xs[..|xs| - 1];
      IndexOfAgrees(init, infos);
      forall k | k in IndexOf(xs)
        ensures exists i :: 0 <= i < |xs| && xs[i].id == k
      {
        if k != xs[|xs| - 1].id {
          var i :| 0 <= i < |init| && init[i].id == k;
          assert xs[i].id == k;
        }
      }
      forall k | exists i :: 0 <= i < |xs| && xs[i].id == k
        ensures k in IndexOf(xs)
      {
        var i :| 0 <= i < |xs| && xs[i].id == k;
        if i < |init| {
          assert init[i].id == k;
        }
      }
    }
  }

  /** Meta `Store` followed by `LoadMeta` gives back the index, in whatever order the
      entries were written. */
  lemma IndexOfEntries(order: seq<nat>, infos: map<nat, DocumentInfo>)
    requires WellKeyed(infos) && Enumerates(order, infos)
    ensures IndexOf(Entries(order, infos)) == infos
  {
    var xs := Entries(order, infos);
    IndexOfAgrees(xs, infos);
    forall k | k in infos
      ensures k in IndexOf(xs)
    {
      var i :| 0 <= i < |order| && order[i] == k;
      assert xs[i].id == k;
    }
  }

  /** The directory after meta `Store` wrote `infos`: the meta file was emptied, then
      restored from a leftover backup if there was one, then overwritten from offset 0; the
      backup is gone. */
  function MetaStored(files: FileMap, infos: seq<DocumentInfo>): FileMap {
    var backup := BackupPath(META_FILE_NAME);
    var base := if backup in files then files[backup] else [];
    (files - {backup})[META_FILE_NAME := Overwrite(base, 0, EncodeMeta(infos))]
  }

  /** What meta `Store` leaves behind loads as the index it was given. */
  lemma MetaStoreLoad(files: FileMap, order: seq<nat>, infos: map<nat, DocumentInfo>)
    requires WellKeyed(infos) && Enumerates(order, infos) && IsU64(|infos|)
    requires forall k :: k in infos ==> ValidInfo(infos[k])
    ensures DecodeMeta(MetaStored(files, Entries(order, infos))[META_FILE_NAME]) == Success(infos)
  {
    var xs := Entries(order, infos);
    var base := if BackupPath(META_FILE_NAME) in files then files[BackupPath(META_FILE_NAME)] else [];
    PrefixAtOverwrite(base, 0, EncodeMeta(xs));
    DecodeMetaRoundTrip(xs, MetaStored(files, xs)[META_FILE_NAME]);
    IndexOfEntries(order, infos);
  }

  /** An index built by `LoadMeta` keys every entry by its own id. */
  lemma {:induction false} IndexOfWellKeyed(infos: seq<DocumentInfo>)
    ensures WellKeyed(IndexOf(infos))
  {
    if infos != [] {
      IndexOfWellKeyed(infos[..|infos| - 1]);
    }
  }

  lemma DecodeMetaWellKeyed(data: Bytes)
    requires DecodeMeta(data).Success?
    ensures WellKeyed(DecodeMeta(data).value)
  {
    var next := Codec.ReadString(data, 0).value.1;
    IndexOfWellKeyed(ReadSeq(data, next, DecodeInfo).value.0);
  }

  /** Meta `Store` touches only the meta file and its backup, neither of which is a page. */
  lemma MetaStoredFrame(files: FileMap, infos: seq<DocumentInfo>)
    ensures META_FILE_NAME in MetaStored(files, infos)
    ensures forall p :: p != META_FILE_NAME && p != BackupPath(META_FILE_NAME) ==>
              (p in MetaStored(files, infos) <==> p in files)
              && (p in files ==> MetaStored(files, infos)[p] == files[p])
    ensures forall i: nat :: PagePath(i) != META_FILE_NAME && PagePath(i) != BackupPath(META_FILE_NAME)
    ensures forall i: nat :: BackupPath(PagePath(i)) != META_FILE_NAME
                             && BackupPath(PagePath(i)) != BackupPath(META_FILE_NAME)
  {
    forall i: nat
      ensures PagePath(i) != META_FILE_NAME && PagePath(i) != BackupPath(META_FILE_NAME)
      ensures BackupPath(PagePath(i)) != META_FILE_NAME
              && BackupPath(PagePath(i)) != BackupPath(META_FILE_NAME)
    {
      assert PagePath(i)[0] == 'p';
      assert BackupPath(PagePath(i))[0] == 'p';
      assert BackupPath(META_FILE_NAME)[0] == 'm';
    }
  }

  // ------------------------------------------------------------ payload pages

  /** The directory once page `index` has been opened: a missing page is created holding
      only its header. */
  function PageOpened(files: FileMap, index: nat): (r: FileMap)
    ensures PagePath(index) in r
  {
    if PagePath(index) in files then files else files[PagePath(index) := EncodeString(PAGE_PREFIX)]
  }

  /** The page at `index` is present and unusable. */
  predicate Corrupted(files: FileMap, index: nat) {
    PagePath(index) in files && CheckPage(files[PagePath(index)]).Fail?
  }

  /** A transaction on an existing file always begins. */
  lemma BeginExisting(files: FileMap, path: Path)
    requires path in files
    ensures BeginFiles(files, path, false).Some?
  {
  }

  /** The directory after `Delete`'s committed transaction on an existing page. */
  function DeletedFiles(files: FileMap, position: DocumentPosition): FileMap
    requires PagePath(position.pageIndex) in files
  {
    var path := PagePath(position.pageIndex);
    BeginExisting(files, path);
    var b := BeginFiles(files, path, false).value;
    CommitFiles(b[path := DisableSlot(b[path], position.pageOffset)], path)
  }

  /** `Delete` disables the slot on the page (restored first from a leftover backup), removes
      the backup, and touches no other file. */
  lemma DeleteEffect(files: FileMap, position: DocumentPosition)
    requires PagePath(position.pageIndex) in files
    ensures var r := DeletedFiles(files, position);
      var path := PagePath(position.pageIndex);
      var restored := if BackupPath(path) in files then files[BackupPath(path)] else files[path];
      && path in r && BackupPath(path) !in r
      && r[path] == DisableSlot(restored, position.pageOffset)
      && LoadSlot(r[path], position.pageOffset) == Failure(FilesystemException)
      && forall p :: p != path && p != BackupPath(path) ==>
           (p in r <==> p in files) && (p in files ==> r[p] == files[p])
  {
    var path := PagePath(position.pageIndex);
    BeginSnapshot(files, path, false);
    LoadAfterDisable(if BackupPath(path) in files then files[BackupPath(path)] else files[path],
                     position.pageOffset);
  }

  /** `Delete` leaves every file but the page and its backup as it was. */
  lemma DeletedFrame(files: FileMap, position: DocumentPosition, p: Path)
    requires PagePath(position.pageIndex) in files
    requires p != PagePath(position.pageIndex) && p != BackupPath(PagePath(position.pageIndex))
    ensures var r := DeletedFiles(files, position);
      (p in r <==> p in files) && (p in files ==> r[p] == files[p])
  {
    BeginSnapshot(files, PagePath(position.pageIndex), false);
  }

  /** A backup file is never a page file. */
  lemma BackupIsNoPage(a: nat, b: nat)
    ensures BackupPath(PagePath(a)) != PagePath(b)
  {
    var backup := BackupPath(PagePath(a));
    var page := PagePath(b);
    assert backup[|backup| - 2] == 'u';
    assert page[|page| - 2] == page[|page| - 3..][1] == 'd';
  }

  // ------------------------------------------------------------ the old slot of a moved payload

  /** The old offset payload `Store` hands to `StorePayload` on the NEW page, as written:
      whenever the document had a position, even on another page. */
  function OldOffsetAsWritten(oldPosition: Option<DocumentPosition>, position: DocumentPosition)
    : (r: Option<nat>)
    ensures r.Some? <==> oldPosition.Some?
  {
    if oldPosition.Some? then Some(oldPosition.value.pageOffset) else None
  }

  /** The old offset as intended: only a slot on the same page is disabled through the new
      page; a slot on another page is disabled on its own page. */
  function OldOffsetForNewPage(oldPosition: Option<DocumentPosition>, position: DocumentPosition)
    : (r: Option<nat>)
    ensures r.Some? <==> oldPosition.Some? && oldPosition.value.pageIndex == position.pageIndex
    ensures r.Some? ==> r.value == oldPosition.value.pageOffset
  {
    if oldPosition.Some? && oldPosition.value.pageIndex == position.pageIndex then
      Some(oldPosition.value.pageOffset)
    else
      None
  }

  /** As written, moving a payload from page 1 to page 2 disables the slot of ANOTHER
      document that sits at the same offset on page 2. */
  lemma OldOffsetAsWrittenCorrupts()
    ensures var other := [7 as byte];
      var page2 := EncodeString(PAGE_PREFIX) + EncodeSlot(other);
      var oldPosition := Some(DocumentPosition(1, DefaultPageSize()));
      var position := DocumentPosition(2, |page2|);
      && LoadSlot(page2, DefaultPageSize()) == Success(other)
      && LoadSlot(AfterStore(page2, position.pageOffset, [8],
                             OldOffsetAsWritten(oldPosition, position)),
                  DefaultPageSize()) == Failure(FilesystemException)
  {
    var other := [7 as byte];
    var page2 := EncodeString(PAGE_PREFIX) + EncodeSlot(other);
    PrefixAtConcat(page2, 0, EncodeString(PAGE_PREFIX), EncodeSlot(other));
    LoadHeldSlot(page2, DefaultPageSize(), other);
    LoadAfterDisable(StoreSlot(page2, |page2|, [8]), DefaultPageSize());
  }

  /** With the intended old offset, moving a payload to another page leaves every slot
      already on the new page in place. */
  lemma OldOffsetForNewPageKeepsSlots(page: Bytes, at: nat, kept: Bytes, payload: Bytes,
                                      oldPosition: Option<DocumentPosition>,
                                      position: DocumentPosition)
    requires oldPosition.Some? ==> oldPosition.value.pageIndex != position.pageIndex
    requires HoldsSlot(page, at, kept) && at + SlotSize(kept) <= position.pageOffset
    ensures HoldsSlot(AfterStore(page, position.pageOffset, payload,
                                 OldOffsetForNewPage(oldPosition, position)), at, kept)
  {
    SlotSurvivesStore(page, at, kept, position.pageOffset, payload);
  }

  /** The old slot to disable lies inside the new one. */
  predicate OldSlotOverlaps(oldPosition: Option<DocumentPosition>, position: DocumentPosition,
                            payload: Bytes)
  {
    && oldPosition.Some? && oldPosition.value.pageIndex == position.pageIndex
    && position.pageOffset <= oldPosition.value.pageOffset < position.pageOffset + SlotSize(payload)
  }

  /** The old slot to disable (if any) starts outside the slot written at `offset`. */
  predicate ClearOf(oldOffset: Option<nat>, offset: nat, payload: Bytes) {
    oldOffset.None? || oldOffset.value < offset || offset + SlotSize(payload) <= oldOffset.value
  }

  /** The slot the old position names no longer loads. */
  predicate OldSlotGone(files: FileMap, oldPosition: DocumentPosition) {
    PagePath(oldPosition.pageIndex) in files
    && LoadSlot(files[PagePath(oldPosition.pageIndex)], oldPosition.pageOffset)
       == Failure(FilesystemException)
  }

  /** As written, a payload at offset 12 of page 1 that moves to a new page 2 disables its
      own new slot there: the new slot also starts at offset 12. */
  lemma OldOffsetAsWrittenLosesNewSlot(payload: Bytes)
    ensures var oldPosition := Some(DocumentPosition(1, DefaultPageSize()));
      var position := DocumentPosition(2, DefaultPageSize());
      LoadSlot(AfterStore(EncodeString(PAGE_PREFIX), position.pageOffset, payload,
                          OldOffsetAsWritten(oldPosition, position)),
               position.pageOffset) == Failure(FilesystemException)
  {
    LoadAfterDisable(StoreSlot(EncodeString(PAGE_PREFIX), DefaultPageSize(), payload), DefaultPageSize());
  }

  /** With the intended old offset, a payload moving to another page always finds its new
      slot in place. */
  lemma OldOffsetForNewPageKeepsNewSlot(page: Bytes, payload: Bytes,
                                        oldPosition: Option<DocumentPosition>,
                                        position: DocumentPosition)
    requires IsU64(|payload|)
    requires oldPosition.Some? ==> oldPosition.value.pageIndex != position.pageIndex
    ensures LoadSlot(AfterStore(page, position.pageOffset, payload,
                                OldOffsetForNewPage(oldPosition, position)),
                     position.pageOffset) == Success(payload)
  {
    LoadAfterStore(page, position.pageOffset, payload);
  }

  // ------------------------------------------------------------ the directory the sink keeps

  /** The slot for `payload` is at `position` in the directory. */
  predicate PayloadAt(files: FileMap, position: DocumentPosition, payload: Bytes) {
    PagePath(position.pageIndex) in files
    && HoldsSlot(files[PagePath(position.pageIndex)], position.pageOffset, payload)
  }

  /** A page that still passes its header check. */
  predicate PageReadable(files: FileMap, index: nat) {
    PagePath(index) in files && CheckPage(files[PagePath(index)]) == Pass
  }

  /** No page has a backup: no page transaction is open or was cut short. */
  ghost predicate NoPageBackups(files: FileMap) {
    forall i: nat :: BackupPath(PagePath(i)) !in files
  }

  /** The known pages are exactly the page files of the directory; each starts with its
      header and is exactly as long as recorded; and no page transaction is open. */
  ghost predicate PagesMirrored(files: FileMap, pages: map<nat, nat>) {
    && (forall k :: k in pages ==>
          PagePath(k) in files && HoldsHeader(files[PagePath(k)]) && |files[PagePath(k)]| == pages[k])
    && (forall i: nat :: PagePath(i) in files ==> i in pages)
    && NoPageBackups(files)
  }

  /** Every page file is named as the sink names its pages, and no page transaction is
      open. */
  ghost predicate CanonicalPages(files: FileMap) {
    && (forall name :: name in files && IsPageFileName(name) && PageIndex(name).Success? ==>
          name == PagePath(PageIndex(name).value))
    && NoPageBackups(files)
  }

  /** `FindAvailablePosition`'s choice for a slot of `size` bytes: the end of a known page
      with room for it when there is one, otherwise just past the header of the page after
      the counter. */
  predicate Chosen(pages: map<nat, nat>, counter: nat, size: nat, p: DocumentPosition) {
    if exists k :: k in pages && pages[k] + size <= MAX_PAGE_SIZE then
      p.pageIndex in pages && p.pageOffset == pages[p.pageIndex]
      && pages[p.pageIndex] + size <= MAX_PAGE_SIZE
    else
      p == DocumentPosition(counter + 1, DefaultPageSize())
  }

  /** The position is the end of its page: the recorded size of a known page, the end of the
      header of a new one. */
  predicate AtPageEnd(pages: map<nat, nat>, position: DocumentPosition) {
    if position.pageIndex in pages then position.pageOffset == pages[position.pageIndex]
    else position.pageOffset == DefaultPageSize()
  }

  /** The old slot, when there is one, has its flag on a known page, past the header and
      before the recorded end. */
  predicate OldSlotKnown(pages: map<nat, nat>, oldPosition: Option<DocumentPosition>) {
    oldPosition.Some? ==>
      && oldPosition.value.pageIndex in pages
      && DefaultPageSize() <= oldPosition.value.pageOffset < pages[oldPosition.value.pageIndex]
  }

  /** Payload `Store` touches no file but the slot's page, the old slot's page and their
      backups. */
  predicate Untouched(p: Path, position: DocumentPosition, oldPosition: Option<DocumentPosition>) {
    && p != PagePath(position.pageIndex) && p != BackupPath(PagePath(position.pageIndex))
    && (oldPosition.Some? ==>
          p != PagePath(oldPosition.value.pageIndex)
          && p != BackupPath(PagePath(oldPosition.value.pageIndex)))
  }

  /** The directory once `PlaceSlot` has written: the page opened (created when missing), its
      transaction begun (a leftover backup restored first) and the slot stored. */
  function PlacedFiles(files: FileMap, position: DocumentPosition, payload: Bytes,
                       oldOffset: Option<nat>): FileMap
  {
    var path := PagePath(position.pageIndex);
    var afterOpen := PageOpened(files, position.pageIndex);
    BeginExisting(afterOpen, path);
    var begun := BeginFiles(afterOpen, path, false).value;
    begun[path := AfterStore(begun[path], position.pageOffset, payload, oldOffset)]
  }

  /** The directory after payload `Store` succeeded: the slot placed, an old slot on another
      page disabled by `Delete`, and the page's transaction committed. */
  function StoredFiles(files: FileMap, position: DocumentPosition, payload: Bytes,
                       oldPosition: Option<DocumentPosition>): FileMap
  {
    var placed := PlacedFiles(files, position, payload, OldOffsetForNewPage(oldPosition, position));
    var disabled :=
      if oldPosition.Some? && oldPosition.value.pageIndex != position.pageIndex then
        DeletedFiles(PageOpened(placed, oldPosition.value.pageIndex), oldPosition.value)
      else
        placed;
    CommitFiles(disabled, PagePath(position.pageIndex))
  }

  /** Payload `Store` on a directory with no page transaction open: the slot is written to
      its page (created with its header when missing), and an old slot on another page has
      its flag cleared there. */
  function AppendedFiles(files: FileMap, position: DocumentPosition, payload: Bytes,
                         oldPosition: Option<DocumentPosition>): FileMap
  {
    var path := PagePath(position.pageIndex);
    var page := if path in files then files[path] else EncodeString(PAGE_PREFIX);
    var written := files[path := AfterStore(page, position.pageOffset, payload,
                                            OldOffsetForNewPage(oldPosition, position))];
    if oldPosition.Some? && oldPosition.value.pageIndex != position.pageIndex
       && PagePath(oldPosition.value.pageIndex) in files then
      written[PagePath(oldPosition.value.pageIndex) :=
                DisableSlot(files[PagePath(oldPosition.value.pageIndex)], oldPosition.value.pageOffset)]
    else
      written
  }

  /** With no leftover backup, `PlaceSlot` leaves the slot written to the page and the
      page's former content in its backup. */
  lemma PlacedIsBegun(files: FileMap, position: DocumentPosition, payload: Bytes,
                      oldOffset: Option<nat>)
    requires BackupPath(PagePath(position.pageIndex)) !in files
    ensures var path := PagePath(position.pageIndex);
      var page := if path in files then files[path] else EncodeString(PAGE_PREFIX);
      PlacedFiles(files, position, payload, oldOffset)
        == files[path := AfterStore(page, position.pageOffset, payload, oldOffset)][BackupPath(path) := page]
  {
  }

  /** With no leftover backup, `Delete` on an existing page only clears the slot's flag. */
  lemma DeletedIsDisabled(files: FileMap, position: DocumentPosition)
    requires PagePath(position.pageIndex) in files
    requires BackupPath(PagePath(position.pageIndex)) !in files
    ensures DeletedFiles(PageOpened(files, position.pageIndex), position)
            == files[PagePath(position.pageIndex) :=
                       DisableSlot(files[PagePath(position.pageIndex)], position.pageOffset)]
  {
    var path := PagePath(position.pageIndex);
    CommitKeepsWrite(files, path, false, DisableSlot(files[path], position.pageOffset));
  }

  /** Dropping a backup that was added to a directory without one, after a write to another
      file, leaves the directory with just that write. */
  lemma CommitAfterOtherWrite(files: FileMap, backup: Path, saved: Bytes, other: Path, content: Bytes)
    requires backup !in files && other != backup
    ensures files[backup := saved][other := content] - {backup} == files[other := content]
  {
    var left := files[backup := saved][other := content] - {backup};
    assert left.Keys == files[other := content].Keys;
  }

  /** On a directory with no page transaction open, payload `Store` is `AppendedFiles`. */
  lemma StoredIsAppended(files: FileMap, position: DocumentPosition, payload: Bytes,
                         oldPosition: Option<DocumentPosition>)
    requires NoPageBackups(files)
    requires oldPosition.Some? && oldPosition.value.pageIndex != position.pageIndex ==>
               PagePath(oldPosition.value.pageIndex) in files
    ensures StoredFiles(files, position, payload, oldPosition)
            == AppendedFiles(files, position, payload, oldPosition)
  {
    hide PlacedFiles, DeletedFiles, AfterStore, DisableSlot;
    var path := PagePath(position.pageIndex);
    var oldOffset := OldOffsetForNewPage(oldPosition, position);
    var page := if path in files then files[path] else EncodeString(PAGE_PREFIX);
    var written := files[path := AfterStore(page, position.pageOffset, payload, oldOffset)];
    var placed := written[BackupPath(path) := page];
    PlacedIsBegun(files, position, payload, oldOffset);
    if oldPosition.Some? && oldPosition.value.pageIndex != position.pageIndex {
      var oldPath := PagePath(oldPosition.value.pageIndex);
      PagePathInjective(oldPosition.value.pageIndex, position.pageIndex);
      BackupIsNoPage(position.pageIndex, oldPosition.value.pageIndex);
      BackupIsNoPage(oldPosition.value.pageIndex, position.pageIndex);
      BackupPathInjective(oldPath, path);
      DeletedIsDisabled(placed, oldPosition.value);
      CommitAfterOtherWrite(written, BackupPath(path), page, oldPath,
                            DisableSlot(files[oldPath], oldPosition.value.pageOffset));
    } else {
      assert CommitFiles(placed, path) == written;
    }
  }

  /** Whatever the directory held, payload `Store` leaves the old slot unable to load,
      whichever page it was on. */
  lemma StoredDisablesOld(files: FileMap, position: DocumentPosition, payload: Bytes,
                          oldPosition: Option<DocumentPosition>)
    requires oldPosition.Some?
    ensures OldSlotGone(StoredFiles(files, position, payload, oldPosition), oldPosition.value)
  {
    var path := PagePath(position.pageIndex);
    var oldPath := PagePath(oldPosition.value.pageIndex);
    var placed := PlacedFiles(files, position, payload, OldOffsetForNewPage(oldPosition, position));
    BackupIsNoPage(position.pageIndex, oldPosition.value.pageIndex);
    if oldPosition.value.pageIndex != position.pageIndex {
      DeleteEffect(PageOpened(placed, oldPosition.value.pageIndex), oldPosition.value);
    } else {
      var afterOpen := PageOpened(files, position.pageIndex);
      BeginExisting(afterOpen, path);
      var begun := BeginFiles(afterOpen, path, false).value;
      BeginSnapshot(afterOpen, path, false);
      LoadAfterDisable(StoreSlot(begun[path], position.pageOffset, payload), oldPosition.value.pageOffset);
    }
  }

  /** Payload `Store` leaves every other file as it was. */
  lemma StoredFrame(files: FileMap, position: DocumentPosition, payload: Bytes,
                    oldPosition: Option<DocumentPosition>)
    ensures var r := StoredFiles(files, position, payload, oldPosition);
      forall p :: Untouched(p, position, oldPosition) ==>
        (p in r <==> p in files) && (p in files ==> r[p] == files[p])
  {
    var path := PagePath(position.pageIndex);
    var r := StoredFiles(files, position, payload, oldPosition);
    var placed := PlacedFiles(files, position, payload, OldOffsetForNewPage(oldPosition, position));
    StoredSteps(files, placed, position, payload, oldPosition);
    hide StoredFiles, PlacedFiles, DeletedFiles;
    forall p | Untouched(p, position, oldPosition)
      ensures (p in r <==> p in files) && (p in files ==> r[p] == files[p])
    {
      PlacedFrame(files, position, payload, OldOffsetForNewPage(oldPosition, position), p);
      if oldPosition.Some? && oldPosition.value.pageIndex != position.pageIndex {
        DeletedFrame(PageOpened(placed, oldPosition.value.pageIndex), oldPosition.value, p);
      }
    }
  }

  /** `PlaceSlot` touches no file but the slot's page and its backup. */
  lemma PlacedFrame(files: FileMap, position: DocumentPosition, payload: Bytes,
                    oldOffset: Option<nat>, p: Path)
    requires p != PagePath(position.pageIndex) && p != BackupPath(PagePath(position.pageIndex))
    ensures var r := PlacedFiles(files, position, payload, oldOffset);
      (p in r <==> p in files) && (p in files ==> r[p] == files[p])
  {
    var path := PagePath(position.pageIndex);
    var afterOpen := PageOpened(files, position.pageIndex);
    BeginExisting(afterOpen, path);
    BeginSnapshot(afterOpen, path, false);
  }

  /** Payload `Store` leaves the new slot in place unless the old slot's flag lies inside
      it. */
  lemma StoredHolds(files: FileMap, position: DocumentPosition, payload: Bytes,
                    oldPosition: Option<DocumentPosition>)
    requires IsU64(|payload|) && !OldSlotOverlaps(oldPosition, position, payload)
    ensures PayloadAt(StoredFiles(files, position, payload, oldPosition), position, payload)
  {
    var path := PagePath(position.pageIndex);
    var oldOffset := OldOffsetForNewPage(oldPosition, position);
    var placed := PlacedFiles(files, position, payload, oldOffset);
    PlacedHolds(files, position, payload, oldOffset);
    StoredSteps(files, placed, position, payload, oldPosition);
    hide StoredFiles, PlacedFiles, DeletedFiles, HoldsSlot;
    var r := StoredFiles(files, position, payload, oldPosition);
    assert path in r && r[path] == placed[path] by {
      BackupIsNoPage(position.pageIndex, position.pageIndex);
      if oldPosition.Some? && oldPosition.value.pageIndex != position.pageIndex {
        PagePathInjective(oldPosition.value.pageIndex, position.pageIndex);
        BackupIsNoPage(oldPosition.value.pageIndex, position.pageIndex);
        DeletedFrame(PageOpened(placed, oldPosition.value.pageIndex), oldPosition.value, path);
      }
    }
  }

  /** `PlaceSlot` leaves the new slot on its page unless the old flag lies inside it. */
  lemma PlacedHolds(files: FileMap, position: DocumentPosition, payload: Bytes,
                    oldOffset: Option<nat>)
    requires IsU64(|payload|) && ClearOf(oldOffset, position.pageOffset, payload)
    ensures PayloadAt(PlacedFiles(files, position, payload, oldOffset), position, payload)
  {
    var path := PagePath(position.pageIndex);
    var afterOpen := PageOpened(files, position.pageIndex);
    BeginExisting(afterOpen, path);
    var begun := BeginFiles(afterOpen, path, false).value;
    StoreKeepsNewSlot(begun[path], position.pageOffset, payload, oldOffset);
  }

  // ------------------------------------------------------------ a mirrored directory

  /** Bytes a page keeps when its slot is appended and an old flag before the end is
      cleared: the header, and a length grown by the slot. */
  lemma AppendedPage(page: Bytes, offset: nat, payload: Bytes, oldOffset: Option<nat>)
    requires HoldsHeader(page) && |page| == offset
    requires oldOffset.Some? ==> DefaultPageSize() <= oldOffset.value < offset
    ensures HoldsHeader(AfterStore(page, offset, payload, oldOffset))
    ensures |AfterStore(page, offset, payload, oldOffset)| == offset + SlotSize(payload)
  {
    CheckNewPage(page);
    var stored := StoreSlot(page, offset, payload);
    HeaderSurvives(page, offset, EncodeSlot(payload));
    if oldOffset.Some? {
      HeaderSurvives(stored, oldOffset.value, EncodeBool(false));
    }
  }

  /** A flag cleared past the header and before the end keeps the page's header and
      length. */
  lemma DisabledPage(page: Bytes, offset: nat)
    requires HoldsHeader(page) && DefaultPageSize() <= offset < |page|
    ensures HoldsHeader(DisableSlot(page, offset)) && |DisableSlot(page, offset)| == |page|
  {
    HeaderSurvives(page, offset, EncodeBool(false));
  }

  /** The page a position names, as the sink opens it: of a known page its content, of a new
      page the bare header; either way as long as the position's offset. */
  lemma OpenedAtEnd(files: FileMap, pages: map<nat, nat>, position: DocumentPosition)
    requires PagesMirrored(files, pages) && AtPageEnd(pages, position)
    ensures var path := PagePath(position.pageIndex);
      var page := if path in files then files[path] else EncodeString(PAGE_PREFIX);
      && HoldsHeader(page) && |page| == position.pageOffset
      && |PageOpened(files, position.pageIndex)[path]| == position.pageOffset
      && !Corrupted(files, position.pageIndex)
  {
    var path := PagePath(position.pageIndex);
    if path in files {
      CheckPageIsHeader(files[path]);
    } else {
      CheckNewPage(EncodeString(PAGE_PREFIX));
      CheckPageIsHeader(EncodeString(PAGE_PREFIX));
    }
  }

  /** Payload `Store` on a mirrored directory keeps it mirrored, with the slot's page
      recorded one slot longer. */
  lemma AppendedMirrored(files: FileMap, pages: map<nat, nat>, position: DocumentPosition,
                         payload: Bytes, oldPosition: Option<DocumentPosition>)
    requires PagesMirrored(files, pages) && AtPageEnd(pages, position)
    requires OldSlotKnown(pages, oldPosition)
    ensures PagesMirrored(AppendedFiles(files, position, payload, oldPosition),
                          pages[position.pageIndex := position.pageOffset + SlotSize(payload)])
  {
    hide AppendedFiles, AfterStore, DisableSlot, HoldsHeader, Corrupted, PageOpened;
    var path := PagePath(position.pageIndex);
    var page := if path in files then files[path] else EncodeString(PAGE_PREFIX);
    var oldOffset := OldOffsetForNewPage(oldPosition, position);
    var r := AppendedFiles(files, position, payload, oldPosition);
    var pages' := pages[position.pageIndex := position.pageOffset + SlotSize(payload)];
    OpenedAtEnd(files, pages, position);
    AppendedPage(page, position.pageOffset, payload, oldOffset);
    if oldPosition.Some? && oldPosition.value.pageIndex != position.pageIndex {
      var oldPath := PagePath(oldPosition.value.pageIndex);
      DisabledPage(files[oldPath], oldPosition.value.pageOffset);
    }
    forall k | k in pages'
      ensures PagePath(k) in r && HoldsHeader(r[PagePath(k)]) && |r[PagePath(k)]| == pages'[k]
    {
      AppendedPageAt(files, position, payload, oldPosition, k);
    }
    forall i: nat | PagePath(i) in r
      ensures i in pages'
    {
      AppendedPageAt(files, position, payload, oldPosition, i);
    }
    forall i: nat
      ensures BackupPath(PagePath(i)) !in r
    {
      AppendedPageAt(files, position, payload, oldPosition, i);
    }
  }

  /** What payload `Store` on a directory with no transaction open leaves in page `q`'s file
      and in its backup. */
  lemma AppendedPageAt(files: FileMap, position: DocumentPosition, payload: Bytes,
                       oldPosition: Option<DocumentPosition>, q: nat)
    ensures var r := AppendedFiles(files, position, payload, oldPosition);
      var p := PagePath(q);
      var page := if p in files then files[p] else EncodeString(PAGE_PREFIX);
      && (q == position.pageIndex ==>
            p in r && r[p] == AfterStore(page, position.pageOffset, payload,
                                         OldOffsetForNewPage(oldPosition, position)))
      && (q != position.pageIndex ==> (p in r <==> p in files))
      && ((q != position.pageIndex && oldPosition.Some? && q == oldPosition.value.pageIndex
           && p in files) ==> r[p] == DisableSlot(files[p], oldPosition.value.pageOffset))
      && ((q != position.pageIndex && (oldPosition.None? || q != oldPosition.value.pageIndex)
           && p in files) ==> r[p] == files[p])
      && (BackupPath(p) in r <==> BackupPath(p) in files)
  {
    hide AfterStore, DisableSlot;
    PagePathInjective(q, position.pageIndex);
    BackupIsNoPage(q, position.pageIndex);
    if oldPosition.Some? {
      PagePathInjective(q, oldPosition.value.pageIndex);
      BackupIsNoPage(q, oldPosition.value.pageIndex);
    }
  }

  /** A slot already in a mirrored directory survives payload `Store`, unless it holds the
      old slot's flag. */
  lemma AppendedKeeps(files: FileMap, pages: map<nat, nat>, position: DocumentPosition,
                      payload: Bytes, oldPosition: Option<DocumentPosition>,
                      at: DocumentPosition, kept: Bytes)
    requires PagesMirrored(files, pages) && AtPageEnd(pages, position)
    requires OldSlotKnown(pages, oldPosition)
    requires PayloadAt(files, at, kept)
    requires oldPosition.Some? && oldPosition.value.pageIndex == at.pageIndex ==>
               oldPosition.value.pageOffset < at.pageOffset
               || at.pageOffset + SlotSize(kept) <= oldPosition.value.pageOffset
    ensures PayloadAt(AppendedFiles(files, position, payload, oldPosition), at, kept)
  {
    var path := PagePath(position.pageIndex);
    var atPath := PagePath(at.pageIndex);
    var file := files[atPath];
    PagePathInjective(at.pageIndex, position.pageIndex);
    if oldPosition.Some? {
      PagePathInjective(at.pageIndex, oldPosition.value.pageIndex);
    }
    if at.pageIndex == position.pageIndex {
      SlotSurvivesStore(file, at.pageOffset, kept, position.pageOffset, payload);
      var oldOffset := OldOffsetForNewPage(oldPosition, position);
      if oldOffset.Some? {
        SlotSurvivesDisable(StoreSlot(file, position.pageOffset, payload), at.pageOffset, kept,
                            oldOffset.value);
      }
    } else if oldPosition.Some? && oldPosition.value.pageIndex == at.pageIndex {
      SlotSurvivesDisable(file, at.pageOffset, kept, oldPosition.value.pageOffset);
    }
  }

  /** On a mirrored directory payload `Store` always leaves the new slot in place: an old
      slot on the same page ends before the page's end, where the new one starts. */
  lemma AppendedHolds(files: FileMap, pages: map<nat, nat>, position: DocumentPosition,
                      payload: Bytes, oldPosition: Option<DocumentPosition>)
    requires PagesMirrored(files, pages) && AtPageEnd(pages, position)
    requires OldSlotKnown(pages, oldPosition) && IsU64(|payload|)
    ensures !OldSlotOverlaps(oldPosition, position, payload)
    ensures PayloadAt(AppendedFiles(files, position, payload, oldPosition), position, payload)
  {
    var path := PagePath(position.pageIndex);
    var page := if path in files then files[path] else EncodeString(PAGE_PREFIX);
    StoreKeepsNewSlot(page, position.pageOffset, payload, OldOffsetForNewPage(oldPosition, position));
    if oldPosition.Some? && oldPosition.value.pageIndex != position.pageIndex {
      PagePathInjective(oldPosition.value.pageIndex, position.pageIndex);
    }
  }

  /** `PlaceSlot`'s steps compose to `PlacedFiles`: the page as opened, the transaction as
      begun, then the slot written to the page's content. */
  lemma PlacedSteps(files: FileMap, afterOpen: FileMap, begun: FileMap, position: DocumentPosition,
                    payload: Bytes, oldOffset: Option<nat>)
    requires PagePath(position.pageIndex) in files ==> afterOpen == files
    requires PagePath(position.pageIndex) !in files ==>
               afterOpen == files[PagePath(position.pageIndex) := EncodeString(PAGE_PREFIX)]
    requires BeginFiles(afterOpen, PagePath(position.pageIndex), false).Some?
    requires begun == BeginFiles(afterOpen, PagePath(position.pageIndex), false).value
    ensures afterOpen == PageOpened(files, position.pageIndex)
    ensures var path := PagePath(position.pageIndex);
      && path in begun && ContentOf(begun, path) == begun[path]
      && PlacedFiles(files, position, payload, oldOffset)
         == begun[path := AfterStore(ContentOf(begun, path), position.pageOffset, payload, oldOffset)]
  {
    BeginSnapshot(afterOpen, PagePath(position.pageIndex), false);
  }

  /** Payload `Store`'s steps after `PlaceSlot` compose to `StoredFiles`. */
  lemma StoredSteps(files: FileMap, placed: FileMap, position: DocumentPosition, payload: Bytes,
                    oldPosition: Option<DocumentPosition>)
    requires placed == PlacedFiles(files, position, payload, OldOffsetForNewPage(oldPosition, position))
    ensures oldPosition.Some? && oldPosition.value.pageIndex != position.pageIndex ==>
              StoredFiles(files, position, payload, oldPosition)
              == CommitFiles(DeletedFiles(PageOpened(placed, oldPosition.value.pageIndex),
                                          oldPosition.value),
                             PagePath(position.pageIndex))
    ensures !(oldPosition.Some? && oldPosition.value.pageIndex != position.pageIndex) ==>
              StoredFiles(files, position, payload, oldPosition)
              == CommitFiles(placed, PagePath(position.pageIndex))
  {
  }

  /** What payload `Store` promises, gathered: the frame, the old slot gone, the new slot in
      place, and a mirrored directory kept mirrored. */
  lemma StoredFacts(files: FileMap, pages: map<nat, nat>, position: DocumentPosition,
                    payload: Bytes, oldPosition: Option<DocumentPosition>)
    ensures var r := StoredFiles(files, position, payload, oldPosition);
      && (forall p :: Untouched(p, position, oldPosition) ==>
            (p in r <==> p in files) && (p in files ==> r[p] == files[p]))
      && (oldPosition.Some? ==> OldSlotGone(r, oldPosition.value))
      && (IsU64(|payload|) && !OldSlotOverlaps(oldPosition, position, payload) ==>
            PayloadAt(r, position, payload))
      && (PagesMirrored(files, pages) && AtPageEnd(pages, position) && OldSlotKnown(pages, oldPosition) ==>
            PagesMirrored(AppendedFiles(files, position, payload, oldPosition),
                          pages[position.pageIndex := position.pageOffset + SlotSize(payload)]))
  {
    StoredFrame(files, position, payload, oldPosition);
    if oldPosition.Some? {
      StoredDisablesOld(files, position, payload, oldPosition);
    }
    if IsU64(|payload|) && !OldSlotOverlaps(oldPosition, position, payload) {
      StoredHolds(files, position, payload, oldPosition);
    }
    if PagesMirrored(files, pages) && AtPageEnd(pages, position) && OldSlotKnown(pages, oldPosition) {
      AppendedMirrored(files, pages, position, payload, oldPosition);
    }
  }

  /** On a mirrored directory, payload `Store` cannot fail and is `AppendedFiles`: the page
      the slot goes to passes its check, and so does the page of an old slot elsewhere. */
  lemma StoreOnMirrored(files: FileMap, pages: map<nat, nat>, counter: nat,
                        position: DocumentPosition, payload: Bytes,
                        oldPosition: Option<DocumentPosition>)
    requires PagesBelow(pages, counter)
    requires Chosen(pages, counter, SlotSize(payload), position)
    ensures PagesMirrored(files, pages) && OldSlotKnown(pages, oldPosition) ==>
      && AtPageEnd(pages, position)
      && !Corrupted(files, position.pageIndex)
      && |PageOpened(files, position.pageIndex)[PagePath(position.pageIndex)]| == position.pageOffset
      && (oldPosition.Some? && oldPosition.value.pageIndex != position.pageIndex ==>
            !Corrupted(PlacedFiles(files, position, payload,
                                   OldOffsetForNewPage(oldPosition, position)),
                       oldPosition.value.pageIndex))
      && StoredFiles(files, position, payload, oldPosition)
         == AppendedFiles(files, position, payload, oldPosition)
  {
    if PagesMirrored(files, pages) && OldSlotKnown(pages, oldPosition) {
      OpenedAtEnd(files, pages, position);
      if oldPosition.Some? && oldPosition.value.pageIndex != position.pageIndex {
        var oldPath := PagePath(oldPosition.value.pageIndex);
        var placed := PlacedFiles(files, position, payload, OldOffsetForNewPage(oldPosition, position));
        StoredFrame(files, position, payload, None);
        PagePathInjective(oldPosition.value.pageIndex, position.pageIndex);
        BackupIsNoPage(position.pageIndex, oldPosition.value.pageIndex);
        PlacedIsBegun(files, position, payload, OldOffsetForNewPage(oldPosition, position));
        assert placed[oldPath] == files[oldPath];
        CheckPageIsHeader(files[oldPath]);
      }
      StoredIsAppended(files, position, payload, oldPosition);
    }
  }

  /** Two directories hold the same page files with the same bytes, and the same page
      backups. */
  ghost predicate SamePages(a: FileMap, b: FileMap) {
    forall i: nat ::
      && (PagePath(i) in a <==> PagePath(i) in b)
      && (PagePath(i) in a ==> a[PagePath(i)] == b[PagePath(i)])
      && (BackupPath(PagePath(i)) in a <==> BackupPath(PagePath(i)) in b)
  }

  /** What the pages hold does not depend on any other file. */
  lemma SamePagesKeep(a: FileMap, b: FileMap, pages: map<nat, nat>)
    requires SamePages(a, b)
    ensures PagesMirrored(a, pages) ==> PagesMirrored(b, pages)
    ensures forall position, payload :: PayloadAt(a, position, payload) ==> PayloadAt(b, position, payload)
  {
    forall position, payload | PayloadAt(a, position, payload)
      ensures PayloadAt(b, position, payload)
    {
      assert (PagePath(position.pageIndex) in a <==> PagePath(position.pageIndex) in b);
    }
  }

  /** Meta `Store` leaves every page and page backup as it was. */
  lemma MetaStoredSamePages(files: FileMap, infos: seq<DocumentInfo>)
    ensures SamePages(files, MetaStored(files, infos))
  {
    MetaStoredFrame(files, infos);
  }

  /** Payload `Store` on a directory whose page files are named as the sink names them keeps
      them so: the only page it may create is named by its index. */
  lemma AppendedCanonical(files: FileMap, position: DocumentPosition, payload: Bytes,
                          oldPosition: Option<DocumentPosition>)
    requires CanonicalPages(files)
    ensures CanonicalPages(AppendedFiles(files, position, payload, oldPosition))
  {
    var r := AppendedFiles(files, position, payload, oldPosition);
    PageIndexOfPagePath(position.pageIndex);
    forall i: nat
      ensures BackupPath(PagePath(i)) !in r
    {
      BackupIsNoPage(i, position.pageIndex);
      if oldPosition.Some? {
        BackupIsNoPage(i, oldPosition.value.pageIndex);
      }
    }
  }

  /** Meta `Store` keeps the page files as the sink names them. */
  lemma MetaStoredCanonical(files: FileMap, infos: seq<DocumentInfo>)
    requires CanonicalPages(files)
    ensures CanonicalPages(MetaStored(files, infos))
  {
    MetaStoredFrame(files, infos);
    assert !IsPageFileName(META_FILE_NAME) by {
      assert META_FILE_NAME[..|PAGE_FILE_PREFIX|] != PAGE_FILE_PREFIX by {
        assert META_FILE_NAME[0] == 'm';
      }
    }
    assert !IsPageFileName(BackupPath(META_FILE_NAME)) by {
      var b := BackupPath(META_FILE_NAME);
      assert b[..|PAGE_FILE_PREFIX|] != PAGE_FILE_PREFIX by {
        assert b[0] == 'm';
      }
    }
  }

  /** Every page the loader found is at least a header long. */
  lemma FoundSized(files: FileMap, pages: map<nat, nat>)
    requires PagesFound(files, pages)
    requires forall name :: name in files ==> !BadPage(files, name)
    ensures forall k :: k in pages ==> DefaultPageSize() <= pages[k]
  {
    forall k | k in pages
      ensures DefaultPageSize() <= pages[k]
    {
      var name :| name in files && IsPageFileName(name) && PageIndex(name) == Success(k)
                  && pages[k] == |files[name]|;
      assert !BadPage(files, name);
      CheckedPageLength(files[name]);
    }
  }

  /** Pages the loader found in a directory whose page files are named as the sink names
      them mirror that directory, each at least a header long. */
  lemma FoundMirrored(files: FileMap, pages: map<nat, nat>)
    requires CanonicalPages(files) && PagesFound(files, pages)
    requires forall name :: name in files ==> !BadPage(files, name)
    ensures PagesMirrored(files, pages)
    ensures forall k :: k in pages ==> DefaultPageSize() <= pages[k]
  {
    forall k | k in pages
      ensures PagePath(k) in files && HoldsHeader(files[PagePath(k)])
              && |files[PagePath(k)]| == pages[k] && DefaultPageSize() <= pages[k]
    {
      var name :| name in files && IsPageFileName(name) && PageIndex(name) == Success(k)
                  && pages[k] == |files[name]|;
      assert name == PagePath(k);
      assert !BadPage(files, name);
      CheckPageIsHeader(files[name]);
      CheckedPageLength(files[name]);
    }
    forall i: nat | PagePath(i) in files
      ensures i in pages
    {
      assert !BadPage(files, PagePath(i));
      PageIndexOfPagePath(i);
    }
  }

  // ------------------------------------------------------------ the sink

  /** No known page has an index above the counter, so a new index is free; every known
      page is at least its header long. */
  predicate PagesBelow(pages: map<nat, nat>, counter: nat) {
    forall k :: k in pages ==> k <= counter && DefaultPageSize() <= pages[k]
  }

  /** Recording a page at or below the counter, at least a header long, keeps the pages
      below the counter. */
  lemma PagesBelowRecord(pages: map<nat, nat>, counter: nat, k: nat, size: nat)
    requires PagesBelow(pages, counter) && k <= counter && DefaultPageSize() <= size
    ensures PagesBelow(pages[k := size], counter)
  {
  }

  /** A page file the loader refuses: its name has an index `stol` rejects, or it fails the
      prefix check. */
  predicate BadPage(files: FileMap, name: Path)
    requires name in files
  {
    IsPageFileName(name) && (PageIndex(name).Failure? || CheckPage(files[name]).Fail?)
  }

  /** `pages` holds an entry for every page file in `files`, and only for those, sized as one
      of the files with that index. */
  ghost predicate PagesFound(files: FileMap, pages: map<nat, nat>) {
    && (forall name :: name in files && IsPageFileName(name) ==>
          PageIndex(name).Success? && PageIndex(name).value in pages)
    && (forall k :: k in pages ==>
          exists name :: name in files && IsPageFileName(name) && PageIndex(name) == Success(k)
                         && pages[k] == |files[name]|)
  }

  class FileStorageSink {
    const fs: FileSystem
    /** The highest page index handed out or found so far. */
    var pageIndexCounter: nat
    /** The known pages: index to size. The map holds copies of the page objects, and only
        their sizes are ever read from it. */
    var pagesMap: map<nat, nat>

    constructor (fs: FileSystem)
      ensures this.fs == fs && pageIndexCounter == 0 && pagesMap == map[]
    {
      this.fs := fs;
      pageIndexCounter := 0;
      pagesMap := map[];
    }

    predicate Valid()
      reads this
    {
      PagesBelow(pagesMap, pageIndexCounter)
    }

    /** The known pages are exactly the page files, at their recorded sizes. */
    ghost predicate Mirrors()
      reads this, fs
    {
      PagesMirrored(fs.files, pagesMap)
    }

    /** First fit: a known page with room for `size` more bytes, at its end; otherwise the
        next page index, just past the header of the page that will be created. */
    method FindAvailablePosition(size: nat) returns (p: DocumentPosition)
      requires Valid()
      modifies this
      ensures Valid() && pagesMap == old(pagesMap)
      ensures Chosen(old(pagesMap), old(pageIndexCounter), size, p)
      ensures p.pageIndex <= pageIndexCounter
      ensures (exists k :: k in pagesMap && pagesMap[k] + size <= MAX_PAGE_SIZE) ==>
                p.pageIndex in pagesMap && pagesMap[p.pageIndex] + size <= MAX_PAGE_SIZE
                && p.pageOffset == pagesMap[p.pageIndex]
                && pageIndexCounter == old(pageIndexCounter)
      ensures (forall k :: k in pagesMap ==> pagesMap[k] + size > MAX_PAGE_SIZE) ==>
                pageIndexCounter == old(pageIndexCounter) + 1
                && p == DocumentPosition(pageIndexCounter, DefaultPageSize())
                && forall k :: k in pagesMap ==> k < p.pageIndex
    {
      var keys := pagesMap.Keys;
      while keys != {}
        invariant keys <= pagesMap.Keys
        invariant forall k :: k in pagesMap && k !in keys ==> pagesMap[k] + size > MAX_PAGE_SIZE
        decreases |keys|
      {
        var k :| k in keys;
        if pagesMap[k] + size <= MAX_PAGE_SIZE {
          return DocumentPosition(k, pagesMap[k]);
        }
        keys := keys - {k};
      }
      pageIndexCounter := pageIndexCounter + 1;
      return DocumentPosition(pageIndexCounter, DefaultPageSize());
    }

    /** Meta `Store`: the meta file is opened truncated, THEN the transaction begins (so a
        rollback could only restore the emptied file), the prefix, the entry count and every
        entry are written, and the transaction commits. */
    method StoreMeta(infos: map<nat, DocumentInfo>) returns (ghost order: seq<nat>)
      modifies fs
      ensures Enumerates(order, infos)
      ensures fs.files == MetaStored(old(fs.files), Entries(order, infos))
    {
      hide EncodeInfo, EncodeSeq, EncodeString, AfterWrite, BeginFiles, CommitFiles, MetaStored, Entries;
      var out := OutStream.Open(fs, META_FILE_NAME, true);
      ghost var afterOpen := fs.files;
      var transaction := new FileTransaction(fs, META_FILE_NAME, false);
      var guard := TransactionGuard.Start(transaction);
      BeginExisting(afterOpen, META_FILE_NAME);
      ghost var begun := fs.files;
      var entries;
      entries, order := Enumerate(infos);
      out.WriteString(META_PREFIX);
      out.WriteSeq(entries, EncodeInfo);
      AfterWriteCompose(begun, META_FILE_NAME, 0, EncodeString(META_PREFIX),
                        EncodeSeq(entries, EncodeInfo));
      ghost var written := fs.files;
      var committed := guard.value.Commit();
      MetaStoredSteps(old(fs.files), afterOpen, begun, written, fs.files, Entries(order, infos));
    }

    /** The entries of the index in the order the map is iterated. */
    static method Enumerate(infos: map<nat, DocumentInfo>)
      returns (entries: seq<DocumentInfo>, ghost order: seq<nat>)
      ensures Enumerates(order, infos) && entries == Entries(order, infos)
    {
      VisitStart(infos);
      entries, order := [], [];
      var remaining := infos.Keys;
      while remaining != {}
        invariant Visiting(order, remaining, infos)
        invariant entries == Entries(order, infos)
        decreases |remaining|
      {
        var k :| k in remaining;
        VisitStep(order, remaining, infos, k);
        entries, order := entries + [infos[k]], order + [k];
        remaining := remaining - {k};
      }
      VisitDone(order, infos);
    }

    /** `LoadMeta`: an unreadable meta file, a wrong prefix and any read past the end are all
        reported as `FilesystemException`. */
    method LoadMeta() returns (r: Result<map<nat, DocumentInfo>, Error>)
      ensures META_FILE_NAME !in fs.files ==> r == Failure(FilesystemException)
      ensures META_FILE_NAME in fs.files ==> r == DecodeMeta(fs.files[META_FILE_NAME])
    {
      hide DecodeInfo, ReadItems, IndexOf;
      var stream := InStream.Open(fs, META_FILE_NAME);
      if stream.Failure? {
        return Failure(FilesystemException);
      }
      var input := stream.value;
      var prefix := input.ReadString();
      if prefix.Failure? || prefix.value != META_PREFIX {
        return Failure(FilesystemException);
      }
      ghost var countAt := input.pos;
      var count := input.ReadU64();
      if count.Failure? {
        return Failure(FilesystemException);
      }
      ghost var start := input.pos;
      ghost var items: seq<DocumentInfo> := [];
      var result: map<nat, DocumentInfo> := map[];
      PrependNothing(ReadItems(input.data, start, count.value, DecodeInfo));
      IndexOfEmpty();
      for i := 0 to count.value
        invariant |items| == i && result == IndexOf(items)
        invariant ReadItems(input.data, start, count.value, DecodeInfo)
               == PrependItems(items, ReadItems(input.data, input.pos, count.value - i, DecodeInfo))
      {
        ghost var at := input.pos;
        var info := ReadInfo(input);
        ReadItemsStep(input.data, at, count.value - i, DecodeInfo);
        if info.Failure? {
          return Failure(FilesystemException);
        }
        PrependTwice(items, [info.value], ReadItems(input.data, input.pos, count.value - i - 1, DecodeInfo));
        IndexOfSnoc(items, info.value);
        result := result[info.value.id := info.value];
        items := items + [info.value];
      }
      ReadItemsZero(input.data, input.pos, DecodeInfo);
      assert items + [] == items;
      return Success(result);
    }

    /** `Delete`: the page is opened (created when missing), and the slot is disabled inside
        a committed transaction. */
    method Delete(position: DocumentPosition) returns (r: Outcome<Error>)
      modifies fs
      ensures Corrupted(old(fs.files), position.pageIndex) ==>
                r == Fail(FilesystemException) && fs.files == old(fs.files)
      ensures !Corrupted(old(fs.files), position.pageIndex) ==>
                r == Pass
                && fs.files == DeletedFiles(PageOpened(old(fs.files), position.pageIndex), position)
    {
      var opening := PageFile.OpenIndex(fs, position.pageIndex);
      if opening.Failure? {
        return Fail(opening.error);
      }
      var page := opening.value;
      ghost var afterOpen := fs.files;
      var transaction := new FileTransaction(fs, page.path, false);
      var guard := TransactionGuard.Start(transaction);
      BeginExisting(afterOpen, page.path);
      ghost var begun := fs.files;
      page.DisablePayload(position.pageOffset);
      var committed := guard.value.Commit();
      return Pass;
    }

    /** Payload `Store`: the slot goes to the first page with room (a new page when none
        has), inside a transaction on that page; the page's new size is recorded; an old slot
        on the same page is disabled through the same write, one on another page by `Delete`
        inside its own transaction. When that fails, the new page is rolled back and the
        error is passed on. */
    method StorePayload(oldPosition: Option<DocumentPosition>, payload: Bytes)
      returns (r: Result<DocumentPosition, Error>)
      requires Valid()
      modifies this, fs
      ensures Valid()
      ensures r.Failure? ==> r.error == FilesystemException
      ensures r.Success? ==>
                && Chosen(old(pagesMap), old(pageIndexCounter), SlotSize(payload), r.value)
                && fs.files == StoredFiles(old(fs.files), r.value, payload, oldPosition)
                && pagesMap == old(pagesMap)[r.value.pageIndex :=
                     |PageOpened(old(fs.files), r.value.pageIndex)[PagePath(r.value.pageIndex)]|
                     + SlotSize(payload)]
      ensures r.Success? && IsU64(|payload|) && !OldSlotOverlaps(oldPosition, r.value, payload) ==>
                PayloadAt(fs.files, r.value, payload)
      ensures r.Success? && oldPosition.Some? ==> OldSlotGone(fs.files, oldPosition.value)
      ensures r.Success? ==>
                forall p :: Untouched(p, r.value, oldPosition) ==>
                  (p in fs.files <==> p in old(fs.files))
                  && (p in old(fs.files) ==> fs.files[p] == old(fs.files)[p])
      ensures old(Mirrors()) && OldSlotKnown(old(pagesMap), oldPosition) ==>
                && r.Success? && AtPageEnd(old(pagesMap), r.value) && Mirrors()
                && fs.files == AppendedFiles(old(fs.files), r.value, payload, oldPosition)
                && pagesMap == old(pagesMap)[r.value.pageIndex := r.value.pageOffset + SlotSize(payload)]
    {
      hide HoldsSlot, PagePath, DeletedFiles, PlacedFiles, StoredFiles, AppendedFiles, PagesMirrored;
      hide Untouched, OldSlotGone, PayloadAt, Chosen, AtPageEnd, OldSlotKnown, Corrupted, PageOpened;
      hide PagesBelow;
      var position := FindAvailablePosition(SlotSize(payload));
      StoreOnMirrored(old(fs.files), old(pagesMap), old(pageIndexCounter), position, payload, oldPosition);
      var placed := PlaceSlot(position, payload, OldOffsetForNewPage(oldPosition, position));
      if placed.Failure? {
        return Failure(placed.error);
      }
      var guard := placed.value;
      ghost var path := PagePath(position.pageIndex);
      ghost var beforeDelete := fs.files;
      if oldPosition.Some? && oldPosition.value.pageIndex != position.pageIndex {
        var disabled := Delete(oldPosition.value);
        if disabled.Fail? {
          var closed := guard.Close();
          return Failure(disabled.error);
        }
      }
      var committed := guard.Commit();
      StoredSteps(old(fs.files), beforeDelete, position, payload, oldPosition);
      StoredFacts(old(fs.files), old(pagesMap), position, payload, oldPosition);
      return Success(position);
    }

    /** The first half of payload `Store`: the page at `position` is opened, its
        transaction begun, the slot written (disabling `oldOffset` on the same page) and the
        page's new size recorded. The transaction is returned still in progress. */
    method PlaceSlot(position: DocumentPosition, payload: Bytes, oldOffset: Option<nat>)
      returns (r: Result<TransactionGuard, Error>)
      requires Valid() && position.pageIndex <= pageIndexCounter
      modifies this, fs
      ensures Valid()
      ensures r.Failure? <==> Corrupted(old(fs.files), position.pageIndex)
      ensures r.Failure? ==>
                r.error == FilesystemException && fs.files == old(fs.files)
                && pagesMap == old(pagesMap) && pageIndexCounter == old(pageIndexCounter)
      ensures r.Success? ==>
                && fs.files == PlacedFiles(old(fs.files), position, payload, oldOffset)
                && pagesMap == old(pagesMap)[position.pageIndex :=
                     |PageOpened(old(fs.files), position.pageIndex)[PagePath(position.pageIndex)]|
                     + SlotSize(payload)]
                && pageIndexCounter == old(pageIndexCounter)
      ensures r.Success? ==>
                && fresh(r.value) && fresh(r.value.transaction)
                && r.value.transaction.fs == fs
                && r.value.transaction.path == PagePath(position.pageIndex)
                && r.value.transaction.backupPath == BackupPath(PagePath(position.pageIndex))
                && r.value.transaction.state == InProgress
                && PagePath(position.pageIndex) in fs.files
    {
      hide AfterStore, BeginFiles, HoldsSlot, EncodeSlot, PagePath, PlacedFiles, StoreSlot, DisableSlot;
      hide PageOpened, PagesBelow;
      var opening := PageFile.OpenIndex(fs, position.pageIndex);
      if opening.Failure? {
        return Failure(opening.error);
      }
      var page := opening.value;
      ghost var afterOpen := fs.files;
      var transaction := new FileTransaction(fs, page.path, false);
      var guard := TransactionGuard.Start(transaction);
      BeginExisting(afterOpen, page.path);
      ghost var begun := fs.files;
      PlacedSteps(old(fs.files), afterOpen, begun, position, payload, oldOffset);
      CheckedPageLength(afterOpen[page.path]);
      var stored := page.StorePayload(Some(payload), position.pageOffset, oldOffset);
      PagesBelowRecord(pagesMap, pageIndexCounter, page.index, page.size);
      pagesMap := pagesMap[page.index := page.size];
      return Success(guard.value);
    }

    /** `LoadPageFilesMap`: every file whose name is a page file name is opened as a page;
        the first page found for an index is kept. A page that cannot be opened stops the
        scan with its error. */
    method LoadPageFilesMap() returns (r: Result<map<nat, nat>, Error>)
      modifies fs
      ensures fs.files == old(fs.files)
      ensures r.Success? <==> forall name :: name in fs.files ==> !BadPage(fs.files, name)
      ensures r.Success? ==> PagesFound(fs.files, r.value)
      ensures r.Failure? ==> r.error == FilesystemException
    {
      var names := fs.files.Keys;
      var found: map<nat, nat> := map[];
      while names != {}
        invariant fs.files == old(fs.files) && names <= fs.files.Keys
        invariant forall name :: name in fs.files && name !in names ==> !BadPage(fs.files, name)
        invariant forall name :: name in fs.files && name !in names && IsPageFileName(name) ==>
                    PageIndex(name).Success? && PageIndex(name).value in found
        invariant forall k :: k in found ==>
                    exists name :: name in fs.files && IsPageFileName(name)
                                   && PageIndex(name) == Success(k) && found[k] == |fs.files[name]|
        decreases |names|
      {
        var name :| name in names;
        names := names - {name};
        if !IsPageFileName(name) {
          continue;
        }
        var page := PageFile.OpenNamed(fs, name);
        if page.Failure? {
          assert BadPage(fs.files, name);
          return Failure(page.error);
        }
        if page.value.index !in found {
          found := found[page.value.index := page.value.size];
        }
      }
      return Success(found);
    }

    /** `InitFs`: a missing index is created empty; then the pages are scanned and the
        counter raised to the highest index found. */
    method InitFs() returns (r: Outcome<Error>)
      modifies this, fs
      ensures META_FILE_NAME in old(fs.files) ==> fs.files == old(fs.files)
      ensures META_FILE_NAME !in old(fs.files) ==> fs.files == MetaStored(old(fs.files), [])
      ensures r.Pass? <==> forall name :: name in fs.files ==> !BadPage(fs.files, name)
      ensures r.Fail? ==>
                r == Fail(FilesystemException)
                && pagesMap == old(pagesMap) && pageIndexCounter == old(pageIndexCounter)
      ensures r.Pass? ==>
                PagesFound(fs.files, pagesMap) && Valid()
                && pageIndexCounter >= old(pageIndexCounter)
                && (pageIndexCounter == old(pageIndexCounter) || pageIndexCounter in pagesMap)
      ensures CanonicalPages(old(fs.files)) ==> CanonicalPages(fs.files)
      ensures r.Pass? && CanonicalPages(old(fs.files)) ==> Mirrors()
    {
      hide MetaStored, BadPage, PagesFound, CanonicalPages, PagesMirrored;
      if !fs.Exists(META_FILE_NAME) {
        ghost var order := StoreMeta(map[]);
        assert Entries(order, map[]) == [];
        if CanonicalPages(old(fs.files)) {
          MetaStoredCanonical(old(fs.files), []);
        }
      }
      var loaded := LoadPageFilesMap();
      if loaded.Failure? {
        return Fail(loaded.error);
      }
      pagesMap := loaded.value;
      FoundSized(fs.files, pagesMap);
      if CanonicalPages(old(fs.files)) {
        FoundMirrored(fs.files, pagesMap);
      }
      RaiseCounter();
      return Pass;
    }

    /** The counter is raised to the highest known page index. */
    method RaiseCounter()
      modifies this
      ensures pagesMap == old(pagesMap)
      ensures forall k :: k in pagesMap ==> k <= pageIndexCounter
      ensures pageIndexCounter >= old(pageIndexCounter)
      ensures pageIndexCounter == old(pageIndexCounter) || pageIndexCounter in pagesMap
    {
      var keys := pagesMap.Keys;
      while keys != {}
        invariant keys <= pagesMap.Keys && pagesMap == old(pagesMap)
        invariant forall k :: k in pagesMap && k !in keys ==> k <= pageIndexCounter
        invariant pageIndexCounter >= old(pageIndexCounter)
        invariant pageIndexCounter == old(pageIndexCounter) || pageIndexCounter in pagesMap
        decreases |keys|
      {
        var k :| k in keys;
        if k > pageIndexCounter {
          pageIndexCounter := k;
        }
        keys := keys - {k};
      }
    }

    method Init() returns (r: Outcome<Error>)
      modifies this, fs
      ensures r.Pass? <==> forall name :: name in fs.files ==> !BadPage(fs.files, name)
      ensures r.Pass? ==> PagesFound(fs.files, pagesMap) && Valid()
      ensures r.Fail? ==> r == Fail(FilesystemException)
                          && pagesMap == old(pagesMap) && pageIndexCounter == old(pageIndexCounter)
      ensures CanonicalPages(old(fs.files)) ==> CanonicalPages(fs.files)
      ensures r.Pass? && CanonicalPages(old(fs.files)) ==> Mirrors()
    {
      r := InitFs();
    }

    /** `Reset`: forgets the pages and the counter, then initialises again. */
    method Reset() returns (r: Outcome<Error>)
      modifies this, fs
      ensures r.Pass? <==> forall name :: name in fs.files ==> !BadPage(fs.files, name)
      ensures r.Pass? ==>
                PagesFound(fs.files, pagesMap) && Valid()
                && (pageIndexCounter == 0 || pageIndexCounter in pagesMap)
      ensures r.Fail? ==> r == Fail(FilesystemException) && pagesMap == map[] && pageIndexCounter == 0
      ensures CanonicalPages(old(fs.files)) ==> CanonicalPages(fs.files)
      ensures r.Pass? && CanonicalPages(old(fs.files)) ==> Mirrors()
    {
      pagesMap := map[];
      pageIndexCounter := 0;
      r := InitFs();
    }

    /** `LoadPayload`: the page is opened (created when missing) and the slot read. */
    method LoadPayload(position: DocumentPosition) returns (r: Result<Bytes, Error>)
      modifies fs
      ensures fs.files == PageOpened(old(fs.files), position.pageIndex)
              || (Corrupted(old(fs.files), position.pageIndex) && fs.files == old(fs.files))
      ensures Corrupted(old(fs.files), position.pageIndex) ==> r == Failure(FilesystemException)
      ensures !Corrupted(old(fs.files), position.pageIndex) ==>
                r == LoadSlot(fs.files[PagePath(position.pageIndex)], position.pageOffset)
    {
      var page :- PageFile.OpenIndex(fs, position.pageIndex);
      r := page.LoadPayload(position.pageOffset);
    }
  }

  /** Part way through iterating `infos`: `order` lists the keys visited, each once, and
      `remaining` the keys still to visit. */
  ghost predicate Visiting(order: seq<nat>, remaining: set<nat>, infos: map<nat, DocumentInfo>)
    ensures Visiting(order, remaining, infos) ==> forall i :: 0 <= i < |order| ==> order[i] in infos
  {
    && remaining <= infos.Keys
    && (forall i :: 0 <= i < |order| ==> order[i] in infos && order[i] !in remaining)
    && (forall k :: k in infos ==> k in remaining || k in order)
    && (forall i, j :: 0 <= i < j < |order| ==> order[i] != order[j])
    && |order| + |remaining| == |infos|
  }

  lemma VisitStart(infos: map<nat, DocumentInfo>)
    ensures Visiting([], infos.Keys, infos)
  {
  }

  lemma VisitStep(order: seq<nat>, remaining: set<nat>, infos: map<nat, DocumentInfo>, k: nat)
    requires Visiting(order, remaining, infos) && k in remaining
    ensures Visiting(order + [k], remaining - {k}, infos)
    ensures k in infos && forall i :: 0 <= i < |order| ==> order[i] in infos
    ensures |remaining - {k}| < |remaining|
  {
  }

  lemma VisitDone(order: seq<nat>, infos: map<nat, DocumentInfo>)
    requires Visiting(order, {}, infos)
    ensures Enumerates(order, infos)
  {
  }

  /** The steps of meta `Store` compose to `MetaStored`. */
  lemma MetaStoredSteps(files: FileMap, afterOpen: FileMap, begun: FileMap, written: FileMap,
                        committed: FileMap, infos: seq<DocumentInfo>)
    requires afterOpen == files[META_FILE_NAME := []]
    requires begun == BeginFiles(afterOpen, META_FILE_NAME, false).value
    requires written == AfterWrite(begun, META_FILE_NAME, 0, EncodeMeta(infos))
    requires committed == CommitFiles(written, META_FILE_NAME)
    ensures committed == MetaStored(files, infos)
  {
  }
}
