# document_db storage engine and utilities, in Dafny

This project models the storage engine of the `document_db` service together with the
shared utilities the services build on.

The storage engine keeps documents durably in plain files inside one directory:

- **The binary codec.** `BinaryInStream` and `BinaryOutStream` write and read:
  - fixed-width integers;
  - strings as an 8-byte length followed by their bytes;
  - vectors and lists as an 8-byte count followed by their elements;
  - optionals as a `bool` flag followed by the value;
  - time points as signed 64-bit nanoseconds;
  - `StrongTypedef` wrappers as their underlying value.
- **Document records.** `DocumentPosition`, `DocumentInfo` and `Document` are written in a
  fixed field order.
- **The file transaction.** It copies the main file to `<path>.backup` on `Begin`. `Commit`
  deletes the copy, `Rollback` copies it back, and a leftover backup found by `Begin` is
  restored. The transaction guard begins on construction and rolls back at scope end
  unless it was committed.
- **Page files.** `page_<index>.dp` starts with the string "PAGE", followed by payload slots.
  Each slot is an `active` flag and a length-prefixed payload.
- **The storage sink.** It keeps the whole index in `meta.ddb` ("META", a count, then each
  info). It places payloads first-fit in pages of at most 4 MiB and opens a new page when
  none has room.
- **The document store.** It offers `Add`, `Get`, `List`, `Update`, `Delete` and `Clear` over
  an id-to-info map. Its id counter is restored to one past the highest stored id.

The utilities are:

- `Format` and `ShrinkString`;
- the config path tokenizer and lookup;
- the URL query parser and `ToString(Method)`;
- the HTTP handler table;
- `GetOrDefault`, `GetOptional`, `ToLower` and `ToUpper`;
- the two `GetId` request parsers;
- the two component registries;
- the api-config store;
- the dummy dictionary and counter.

Modelling choices:

- **Files.** The directory is a map from file names to byte sequences, held by a
  `FileSystem` object whose operations mutate it.
- **Streams, pages, sink and store.** These are classes whose methods change that map and
  their own fields, as the source's objects do.
- **Byte layouts.** They are pure functions from values to bytes and from `(bytes, cursor)`
  to an optional `(value, cursor)`.
- **Integers.** They are stored little-endian. The source writes the host's native layout,
  which is little-endian on the platforms it builds for.
- **Exceptions.** They become `Result`/`Outcome` values whose error names the exception kind
  and, where the source gives one, its message.
- **The store's invariant.** `Storage` keeps a ghost map from document ids to the slot each
  positioned document was last stored in (position and payload). `Intact` says the sink's
  known pages are exactly the page files, every such slot holds its payload, and no two
  slots overlap. Every operation except `Load`, `Init` and `Reset` keeps it, so `Get` returns
  the payload of the latest `Add` or `Update` (`AddThenGet`, `UpdateThenGet`), and other
  documents' entries and slots are left as they were.
- **The clock.** It is a parameter `now`.
- **Handlers and components.** Handlers are an opaque type parameter. Components are
  objects whose own `Init` and `Reset` count their calls.

## Model

| member | source | states |
|---|---|---|
| Codec.EncodeFixed | libraries/common/include/binary.hpp:199-205 | an arithmetic value is written as exactly `width` bytes |
| Codec.DecodeEncodeFixed | libraries/common/include/binary.hpp:73-79 | reading the written bytes gives back the value modulo 256^width |
| Codec.EncodeDecodeFixed | libraries/common/include/binary.hpp:73-79 | every byte string is the encoding of the value it decodes to, so the layout is a bijection |
| Codec.UnsignedRoundTrip | libraries/common/include/binary.hpp:73-79 | any unsigned value below 256^width round-trips |
| Codec.SignedRoundTrip | libraries/common/include/binary.hpp:73-79 | any two's complement value of the width round-trips |
| Codec.ReadUnsigned | libraries/common/include/binary.hpp:73-79 | reading fails exactly when fewer than `width` bytes remain; otherwise the cursor moves by `width` |
| Codec.ReadSigned | libraries/common/include/binary.hpp:73-79 | the signed read is bounded by the width and moves the cursor by `width` |
| Codec.ReadUnsignedRoundTrip | libraries/common/include/binary.hpp:199-205 | a value written anywhere in a buffer reads back with the cursor just past it |
| Codec.ReadSignedRoundTrip | libraries/common/include/binary.hpp:199-205 | the same for signed values |
| Codec.EncodeU64 | libraries/common/include/binary.hpp:199-205 | a `size_t`/`uint64_t` takes 8 bytes |
| Codec.ReadU64 | libraries/common/include/binary.hpp:73-79 | an 8-byte unsigned read needs 8 bytes and advances by 8 |
| Codec.ReadU64Bound | libraries/common/include/binary.hpp:73-79 | every value read fits in 64 bits |
| Codec.ReadU64RoundTrip | libraries/common/include/binary.hpp:199-205 | every 64-bit unsigned value round-trips |
| Codec.ReadI64 | libraries/common/include/binary.hpp:73-79 | an 8-byte signed read needs 8 bytes and advances by 8 |
| Codec.ReadI64Bound | libraries/common/include/binary.hpp:73-79 | every value read fits in a signed 64-bit integer |
| Codec.ReadI64RoundTrip | libraries/common/include/binary.hpp:199-205 | every signed 64-bit value round-trips |
| Codec.EncodeBool | libraries/common/include/binary.hpp:199-205 | a `bool` is one byte, 1 for true and 0 for false |
| Codec.ReadBool | libraries/common/include/binary.hpp:73-79 | a `bool` read takes one byte, and a non-zero byte is true |
| Codec.ReadBoolRoundTrip | libraries/common/include/binary.hpp:199-205 | a written `bool` reads back |
| Codec.ReadTime | libraries/common/src/binary/binary.cpp:56-63 | a time-point read needs 8 bytes, read as a signed nanosecond count |
| Codec.ReadTimeRoundTrip | libraries/common/src/binary/binary.cpp:96-102 | every time point whose nanosecond count fits in 64 bits round-trips |
| Codec.EncodeString | libraries/common/src/binary/binary.cpp:90-94 | a string is an 8-byte length followed by its bytes, so it takes 8 + \|s\| bytes |
| Codec.ReadString | libraries/common/src/binary/binary.cpp:48-54 | reads the count, then exactly that many bytes, and fails when fewer remain |
| Codec.ReadStringRoundTrip | libraries/common/src/binary/binary.cpp:90-94 | `decode(encode(s)) == s` for every string shorter than 2^64, wherever it is written |
| Codec.EncodeOptional | libraries/common/include/binary.hpp:252-259 | an optional is a flag byte, followed by the value only when one is present |
| Codec.ReadOptionalKeepsPrior | libraries/common/include/binary.hpp:123-134 | a false flag leaves the destination's prior value untouched |
| Codec.ReadOptionalRoundTrip | libraries/common/include/binary.hpp:252-259 | an optional round-trips, and an empty one keeps the destination's prior value |
| Codec.EncodeSeq | libraries/common/include/binary.hpp:211-220 | a vector or list starts with its 8-byte element count |
| Codec.ReadItems | libraries/common/include/binary.hpp:85-103 | reads `count` elements one after the other and returns exactly `count` of them |
| Codec.ReadSeq | libraries/common/include/binary.hpp:85-103 | reads the count, then that many elements |
| Codec.ReadItemsRoundTrip | libraries/common/include/binary.hpp:211-220 | elements written in turn read back as the same sequence |
| Codec.ReadSeqRoundTrip | libraries/common/include/binary.hpp:211-220 | a counted sequence of valid elements reads back equal |
| Streams.InStream.OfBytes | libraries/common/src/binary/binary.cpp:27-31 | wrapping an opened file starts reading at offset 0 |
| Streams.InStream.Open | libraries/common/src/binary/binary.cpp:11-25 | opening a missing file fails with a stream error; otherwise the stream holds the file's bytes and starts at offset 0 |
| Streams.InStream.Seek | libraries/common/include/binary.hpp:58-62 | the cursor moves to the given position |
| Streams.InStream.ReadWith | libraries/common/src/binary/binary.cpp:11-15 | any read past the end raises instead of returning a partial value; a successful read advances the cursor by what it consumed |
| Streams.InStream.ReadFixed | libraries/common/include/binary.hpp:73-79 | `>>` of an unsigned arithmetic value is the fixed-width decoding at the cursor |
| Streams.InStream.ReadSignedFixed | libraries/common/include/binary.hpp:73-79 | `>>` of a signed arithmetic value is the two's complement decoding at the cursor |
| Streams.InStream.ReadU64 | libraries/common/include/binary.hpp:73-79 | `>>` of a `size_t` |
| Streams.InStream.ReadBool | libraries/common/include/binary.hpp:73-79 | `>>` of a `bool` |
| Streams.InStream.ReadString | libraries/common/src/binary/binary.cpp:48-54 | `>>` of a string is the length-prefixed decoding at the cursor |
| Streams.InStream.ReadTime | libraries/common/src/binary/binary.cpp:56-63 | `>>` of a time point |
| Streams.InStream.ReadOptionalInto | libraries/common/include/binary.hpp:120-135 | `>>` of an optional; a false flag keeps the destination's prior value |
| Streams.InStream.ReadSeq | libraries/common/include/binary.hpp:85-103 | `>>` of a vector or list: the count, then each element appended in turn; the loop equals the sequence decoder |
| Streams.InStream.ReadWrapped | libraries/common/include/binary.hpp:142-148 | a wrapper is read as its underlying value and stored into it; on failure the wrapper is unchanged |
| Streams.OutStream.Attach | libraries/common/src/binary/binary.cpp:70-73 | wrapping an open file writes from offset 0 |
| Streams.OutStream.Open | libraries/common/include/binary.hpp:167-168 | opening creates a missing file and keeps existing bytes unless `truncate` is set |
| Streams.OutStream.Seek | libraries/common/tests/binary.cpp:280-292 | seeking to a position makes the next write overwrite in place |
| Streams.OutStream.SeekEnd | libraries/common/tests/binary.cpp:248-262 | seeking to the end makes the next write append |
| Streams.OutStream.Write | libraries/common/include/binary.hpp:199-205 | the file holds the bytes at the old cursor and is unchanged elsewhere, and the cursor moves past them |
| Streams.OutStream.WriteFixed | libraries/common/include/binary.hpp:199-205 | `<<` of an arithmetic value writes its fixed-width encoding |
| Streams.OutStream.WriteBool | libraries/common/include/binary.hpp:199-205 | `<<` of a `bool` writes one byte |
| Streams.OutStream.WriteString | libraries/common/src/binary/binary.cpp:90-94 | `<<` of a string writes its size, then its bytes |
| Streams.OutStream.WriteTime | libraries/common/src/binary/binary.cpp:96-102 | `<<` of a time point writes its nanoseconds as a signed 64-bit value |
| Streams.OutStream.WriteWith | libraries/common/include/binary.hpp:199-205 | writes any value through its encoder at the cursor |
| Streams.OutStream.WriteOptional | libraries/common/include/binary.hpp:252-259 | `<<` of an optional writes the flag, then the value when present |
| Streams.OutStream.WriteSeq | libraries/common/include/binary.hpp:211-220 | `<<` of a vector or list writes the count, then each element; the loop equals the sequence encoder |
| Streams.OutStream.WriteWrapped | libraries/common/include/binary.hpp:266-270 | a wrapper is written exactly as its underlying value |
| StrongTypedefs.StrongTypedef.Default | libraries/common/include/strong_typedef.hpp:14 | default construction wraps `T()`, and `GetUnderlying` then returns it |
| StrongTypedefs.StrongTypedef.constructor | libraries/common/include/strong_typedef.hpp:15-16 | construction from `v` wraps `v`, and `GetUnderlying` then returns `v` |
| StrongTypedefs.StrongTypedef.Copy | libraries/common/include/strong_typedef.hpp:17-19 | a copy wraps the same value, leaves the source unchanged and is `==` to it both ways |
| StrongTypedefs.StrongTypedef.Move | libraries/common/include/strong_typedef.hpp:20-22 | move construction swaps: `GetUnderlying` gives the source's old value, and the source ends up with the new object's initial value |
| StrongTypedefs.StrongTypedef.Assign | libraries/common/include/strong_typedef.hpp:25-33 | assigning a `T` replaces the wrapped value, and `GetUnderlying` then returns it |
| StrongTypedefs.StrongTypedef.CopyAssign | libraries/common/include/strong_typedef.hpp:34-37 | copy assignment takes the other's value, leaves the other unchanged and makes the two `==` |
| StrongTypedefs.StrongTypedef.MoveAssign | libraries/common/include/strong_typedef.hpp:38-42 | move assignment swaps the two wrapped values |
| StrongTypedefs.EqualsEquivalence | libraries/common/include/strong_typedef.hpp:43-45 | `==` is reflexive, symmetric and transitive, and holds exactly when `GetUnderlying` gives the same value |
| Documents.EncodePositionLength | services/document_db/src/fs_sink/db_binary.cpp:6-14 | an optional position takes 1 byte, plus 16 when present |
| Documents.EncodeInfoLength | services/document_db/src/fs_sink/db_binary.cpp:16-26 | an info takes 24 + (8+\|name\|) + (8+\|namespace\|) + (8+\|owner\|) + 1 bytes, plus 16 with a position |
| Documents.DecodePositionRoundTrip | services/document_db/src/fs_sink/db_binary.cpp:35-50 | an optional position round-trips |
| Documents.DecodePositionAbsent | services/document_db/src/fs_sink/db_binary.cpp:45-47 | a false flag decodes to no position after one byte |
| Documents.InfoOffsets | services/document_db/src/fs_sink/db_binary.cpp:16-26 | gives the byte offsets of the seven fields in write order |
| Documents.InfoFieldsAt | services/document_db/src/fs_sink/db_binary.cpp:16-26 | the fields are stored in the order id, created, updated, name, namespace, owner, position |
| Documents.DecodeInfoChain | services/document_db/src/fs_sink/db_binary.cpp:52-64 | reading the seven fields in that order builds the info |
| Documents.InfoFieldsRead | services/document_db/src/fs_sink/db_binary.cpp:52-64 | each field reads back from its offset |
| Documents.DecodeInfoRoundTrip | services/document_db/src/fs_sink/db_binary.cpp:52-64 | every info whose fields fit their widths round-trips |
| Documents.PayloadRoundTrip | services/document_db/src/fs_sink/db_binary.cpp:70 | a document's optional payload round-trips |
| Documents.DecodeDocumentChain | services/document_db/src/fs_sink/db_binary.cpp:66-73 | a document reads as its info followed by its payload |
| Documents.DecodeDocumentRoundTrip | services/document_db/src/fs_sink/db_binary.cpp:66-73 | a document round-trips |
| Documents.WritePosition | services/document_db/src/fs_sink/db_binary.cpp:6-14 | the stream receives the position's encoding |
| Documents.WriteInfo | services/document_db/src/fs_sink/db_binary.cpp:16-26 | the seven field writes together write the info's encoding |
| Documents.WriteDocument | services/document_db/src/fs_sink/db_binary.cpp:28-33 | the info, then the payload |
| Documents.ReadPosition | services/document_db/src/fs_sink/db_binary.cpp:35-50 | the read equals the position decoder at the cursor |
| Documents.ReadInfo | services/document_db/src/fs_sink/db_binary.cpp:52-64 | the read equals the info decoder at the cursor, so every field comes from the stream |
| Documents.ReadDocument | services/document_db/src/fs_sink/db_binary.cpp:66-73 | the read equals the document decoder at the cursor |
| Files.Zeros | libraries/common/include/binary.hpp:199-205 | `stream_.write` after a `Seek` past the end pads the gap with zero bytes (the `ofstream`'s behaviour, which the source relies on) |
| Files.Overwrite | libraries/common/include/binary.hpp:199-205 | `stream_.write` at the position a `Seek` set (the `ofstream`'s behaviour) leaves a file as long as the old file or the end of the write, whichever is greater |
| Files.OverwriteBytes | libraries/common/include/binary.hpp:199-205 | after `stream_.write` at a sought position the written positions hold the bytes, and every other position keeps its old byte or is zero padding (the `ofstream`'s behaviour) |
| Files.OverwriteUnique | libraries/common/include/binary.hpp:199-205 | a file with those properties is the result of `stream_.write` at a sought position |
| Files.OverwriteCompose | libraries/common/include/binary.hpp:199-205 | two consecutive writes equal one write of the concatenation |
| Files.AfterWriteFrame | libraries/common/include/binary.hpp:167-168 | a write creates the file when missing and touches no other file |
| Files.AfterWriteCompose | libraries/common/include/binary.hpp:199-205 | consecutive writes to one file compose |
| Files.PrefixAtOverwrite | libraries/common/include/binary.hpp:199-205 | the bytes `stream_.write` wrote after a `Seek` are found at the sought offset |
| Files.PrefixAtOverwriteDisjoint | libraries/common/include/binary.hpp:199-205 | bytes that `stream_.write` at a sought position does not reach keep their values |
| Files.OverwriteAtEnd | libraries/common/tests/binary.cpp:248-262 | writing at the end appends |
| Files.OverwriteInside | libraries/common/tests/binary.cpp:280-292 | writing inside replaces exactly the bytes written and keeps the length |
| Files.FileSystem.constructor | libraries/files/src/transaction/transaction.cpp:32 | the directory holds the given files |
| Files.FileSystem.Exists | libraries/files/src/transaction/transaction.cpp:32-38 | `exists` is true exactly for the files present |
| Files.FileSystem.Remove | libraries/files/src/transaction/transaction.cpp:52 | `remove` deletes the file and reports whether it existed |
| Files.FileSystem.CopyFile | libraries/files/src/transaction/transaction.cpp:42 | `copy_file` fails without a source, or with a target present and no overwrite; otherwise the target gets the source's bytes |
| Files.FileSystem.CreateEmpty | libraries/files/src/transaction/transaction.cpp:39 | opening an `ofstream` creates an empty file |
| Transactions.BackupPath | libraries/files/src/transaction/transaction.cpp:13-18 | the backup is `<path>.backup` and is never the main file |
| Transactions.BackupPathInjective | libraries/files/src/transaction/transaction.cpp:18 | different files have different backups |
| Transactions.RollbackFiles | libraries/files/src/transaction/transaction.cpp:67-75 | rolling back succeeds exactly when the backup exists |
| Transactions.BeginFailure | libraries/files/src/transaction/transaction.cpp:32-42 | `Begin` fails exactly when there is neither a main file, nor a backup, nor `create_if_missing` |
| Transactions.BeginSnapshot | libraries/files/src/transaction/transaction.cpp:42-43 | after `Begin` the backup holds what the main file holds |
| Transactions.RollbackUndoesWrite | libraries/files/src/transaction/transaction.cpp:59-75 | rolling back after `Begin` and any write restores the file from before the write and removes the backup |
| Transactions.CommitKeepsWrite | libraries/files/src/transaction/transaction.cpp:46-57 | committing keeps the write and removes the backup |
| Transactions.BeginAfterCrash | libraries/files/tests/transaction.cpp:229-253 | after a crash between `Begin` and its end, the next `Begin` restores the content from before the crash |
| Transactions.PreparedIdempotent | libraries/files/src/transaction/transaction.cpp:32-40 | recovering twice is recovering once |
| Transactions.FileTransaction.constructor | libraries/files/src/transaction/transaction.cpp:17-19 | a new transaction is in state Unknown with backup `<path>.backup` |
| Transactions.FileTransaction.Begin | libraries/files/src/transaction/transaction.cpp:23-44 | InProgress is refused with its message and no file changes; otherwise a leftover backup is restored, a missing file is created on request, the file is copied to the backup and the state is InProgress |
| Transactions.FileTransaction.Commit | libraries/files/src/transaction/transaction.cpp:46-57 | outside InProgress it raises its message; otherwise the backup is removed, the main file kept and the state Committed |
| Transactions.FileTransaction.Rollback | libraries/files/src/transaction/transaction.cpp:59-65 | outside InProgress it raises its message; otherwise it does what `RollbackImpl` does |
| Transactions.FileTransaction.RollbackImpl | libraries/files/src/transaction/transaction.cpp:67-75 | the backup is copied over the main file and removed, and the state is RolledBack |
| Transactions.TransactionGuard.Start | libraries/common/src/transactions/transactions.cpp:8-12 | construction calls `Begin` once; if `Begin` raises there is no guard |
| Transactions.TransactionGuard.Commit | libraries/common/src/transactions/transactions.cpp:20-22 | forwards to the transaction's `Commit` and does nothing else |
| Transactions.TransactionGuard.Close | libraries/common/src/transactions/transactions.cpp:14-18 | at scope end a committed transaction is left alone and an uncommitted one is rolled back |
| Pages.DefaultPageSize | services/document_db/src/fs_sink/page.cpp:16-19 | the default page size is 8 + 4, the byte length of the encoded "PAGE" |
| Pages.PagePath | services/document_db/src/fs_sink/page.cpp:58-61 | page `n` lives in `page_<n>.dp`, a name the page-file pattern accepts |
| Pages.PagePathInjective | services/document_db/src/fs_sink/page.cpp:58-61 | different indices have different files |
| Pages.LastDot | services/document_db/src/fs_sink/page.cpp:33 | finds the last '.' of a name, which starts the extension `stem` drops |
| Pages.PageIndexOfName | services/document_db/src/fs_sink/page.cpp:32-41 | a page-file name yields the number it spells; when `stol` rejects that number the result is `FilesystemException` |
| Pages.PageIndexOfPagePath | services/document_db/src/fs_sink/page.cpp:32-41 | the index read back from the file name of page `n` (built at page.cpp lines 58-61) is `n` |
| Pages.CheckNewPage | services/document_db/src/fs_sink/page.cpp:43-56 | a freshly created page (its header written at page.cpp lines 90-95) passes the header check |
| Pages.CheckedPageLength | services/document_db/src/fs_sink/page.cpp:43-56 | a page that passes the check is at least as long as its header |
| Pages.EncodeSlot | services/document_db/src/fs_sink/page.cpp:127-132 | a slot is a true flag followed by the length-prefixed payload, `GetPayloadSize` bytes long |
| Pages.LoadHeldSlot | services/document_db/src/fs_sink/page.cpp:145-158 | a slot present at an offset loads as its payload |
| Pages.LoadAfterStore | services/document_db/src/fs_sink/page.cpp:127-158 | loading at the offset just stored returns the payload |
| Pages.LoadAfterDisable | services/document_db/src/fs_sink/page.cpp:145-154 | after `DisablePayloadInPage` (page.cpp lines 63-66) the slot raises `FilesystemException` on load |
| Pages.DisableFlagOnly | services/document_db/src/fs_sink/page.cpp:63-66 | disabling changes exactly the flag byte |
| Pages.StoreAtEnd | services/document_db/src/fs_sink/page.cpp:127-132 | storing at the page's end appends the slot |
| Pages.SlotSurvivesStore | services/document_db/src/fs_sink/page.cpp:127-131 | a slot survives a store whose bytes do not reach it |
| Pages.SlotSurvivesDisable | services/document_db/src/fs_sink/page.cpp:63-66 | a slot survives disabling another slot |
| Pages.StoreKeepsNewSlot | services/document_db/src/fs_sink/page.cpp:127-137 | after `StorePayload` the new slot is in place unless the old offset lies inside it |
| Pages.PageFile.Open | services/document_db/src/fs_sink/page.cpp:86-96 | an existing page is checked and sized from its file; a missing one is created holding "PAGE" and sized at the default; a bad header raises `FilesystemException` and changes no file |
| Pages.PageFile.OpenNamed | services/document_db/src/fs_sink/page.cpp:76-79 | the index comes from the name; a name `stol` rejects raises `FilesystemException` and creates nothing |
| Pages.PageFile.OpenIndex | services/document_db/src/fs_sink/page.cpp:81-84 | the file name comes from the index |
| Pages.PageFile.StorePayload | services/document_db/src/fs_sink/page.cpp:120-138 | a null payload raises `logic_error` and writes nothing; otherwise the slot is written at the offset, the size grows by the slot, and the old slot is disabled when given |
| Pages.PageFile.DisablePayload | services/document_db/src/fs_sink/page.cpp:140-143 | writes a single false byte at the offset |
| Pages.PageFile.LoadPayload | services/document_db/src/fs_sink/page.cpp:145-158 | returns the active slot's payload; an inactive slot raises `FilesystemException` |
| Pages.CheckPageValidity | services/document_db/src/fs_sink/page.cpp:43-56 | equals the header check on the file's bytes; a read failure and a wrong prefix both raise `FilesystemException` |
| Pages.DisableInPage | services/document_db/src/fs_sink/page.cpp:63-66 | a false flag is written at the offset and nothing else |
| StorageSink.Entries | services/document_db/src/fs_sink/fs_sink.cpp:110-112 | the index entries in iteration order, one per key |
| StorageSink.InfoCodecInverts | services/document_db/src/fs_sink/db_binary.cpp:52-64 | the info decoder inverts the encoder for every valid info |
| StorageSink.DecodeMetaRoundTrip | services/document_db/src/fs_sink/fs_sink.cpp:155-184 | meta bytes written for valid entries load back as their index |
| StorageSink.MetaHeader | services/document_db/src/fs_sink/fs_sink.cpp:108-109 | the meta file starts with "META", and loading refuses a different prefix (fs_sink.cpp lines 168-171) |
| StorageSink.IndexOfAgrees | services/document_db/src/fs_sink/fs_sink.cpp:177-182 | entries keyed by their ids rebuild exactly those keys |
| StorageSink.IndexOfEntries | services/document_db/src/fs_sink/fs_sink.cpp:177-182 | whatever the order `Store` writes the entries in (fs_sink.cpp lines 110-112), loading them gives back the index |
| StorageSink.MetaStoreLoad | services/document_db/src/fs_sink/fs_sink.cpp:103-188 | what meta `Store` leaves behind, `LoadMeta` reads back as the same index |
| StorageSink.IndexOfWellKeyed | services/document_db/src/fs_sink/fs_sink.cpp:180-181 | a loaded index keys every entry by its own id |
| StorageSink.DecodeMetaWellKeyed | services/document_db/src/fs_sink/fs_sink.cpp:177-184 | anything `LoadMeta` returns keys each entry by its id |
| StorageSink.MetaStoredFrame | services/document_db/src/fs_sink/fs_sink.cpp:103-116 | meta `Store` touches only `meta.ddb` and its backup, never a page |
| StorageSink.PageOpened | services/document_db/src/fs_sink/page.cpp:86-96 | after opening, the page's file exists |
| StorageSink.BeginExisting | libraries/files/src/transaction/transaction.cpp:23-44 | a transaction on an existing file always begins |
| StorageSink.DeleteEffect | services/document_db/src/fs_sink/fs_sink.cpp:148-153 | `Delete` disables the slot on its page, removes the backup and changes no other file |
| StorageSink.BackupIsNoPage | services/document_db/src/fs_sink/fs_sink.cpp:29 | a page's backup is not a page file |
| StorageSink.OldOffsetAsWritten | services/document_db/src/fs_sink/fs_sink.cpp:122-128 | as written, the old offset is handed to the new page whenever the document had a position |
| StorageSink.OldOffsetForNewPage | services/document_db/src/fs_sink/fs_sink.cpp:122-139 | as intended, an old offset is handed to the new page only when the old slot is on that page |
| StorageSink.OldOffsetAsWrittenCorrupts | services/document_db/src/fs_sink/fs_sink.cpp:122-128 | moving a payload from page 1 to page 2 disables another document's slot at the same offset on page 2 |
| StorageSink.OldOffsetForNewPageKeepsSlots | services/document_db/src/fs_sink/fs_sink.cpp:122-139 | with the intended offset, moving to another page keeps every slot already on the new page |
| StorageSink.OldOffsetAsWrittenLosesNewSlot | services/document_db/src/fs_sink/fs_sink.cpp:122-128 | as written, a payload at offset 12 of page 1 that moves to a fresh page 2 disables its own new slot, which also starts at offset 12 |
| StorageSink.OldOffsetForNewPageKeepsNewSlot | services/document_db/src/fs_sink/fs_sink.cpp:122-128 | with the intended offset, a payload moving to another page always loads back from its new slot |
| StorageSink.PlacedIsBegun | services/document_db/src/fs_sink/fs_sink.cpp:125-127 | with no leftover backup, placing the slot leaves the page with the slot written and its former content in the backup |
| StorageSink.DeletedIsDisabled | services/document_db/src/fs_sink/fs_sink.cpp:131-138 | with no leftover backup, disabling the old slot on an existing page clears only that flag |
| StorageSink.StoredIsAppended | services/document_db/src/fs_sink/fs_sink.cpp:118-146 | on a directory with no page transaction open, payload `Store` writes the slot to its page (created with its header when missing), clears an old slot's flag on another page, and leaves no backup |
| StorageSink.StoredDisablesOld | services/document_db/src/fs_sink/fs_sink.cpp:122-139 | after payload `Store` the old slot no longer loads, on the new page (through the old offset) or on another page (through `Delete`) |
| StorageSink.StoredFrame | services/document_db/src/fs_sink/fs_sink.cpp:118-146 | payload `Store` changes no file other than the new slot's page, the old slot's page and their backups; `meta.ddb` and all other pages are kept |
| StorageSink.StoredHolds | services/document_db/src/fs_sink/fs_sink.cpp:125-127 | after payload `Store` the payload is at the returned position unless the old flag lies inside the new slot |
| StorageSink.StoredFacts | services/document_db/src/fs_sink/fs_sink.cpp:118-146 | the frame, the old slot gone, the new slot in place, and a mirrored directory kept mirrored, for any directory |
| StorageSink.PlacedFrame | services/document_db/src/fs_sink/fs_sink.cpp:125-127 | placing the slot touches only the page and its backup |
| StorageSink.PlacedHolds | services/document_db/src/fs_sink/fs_sink.cpp:125-127 | placing the slot leaves it loadable unless the old flag lies inside it |
| StorageSink.AppendedPage | services/document_db/src/fs_sink/page.cpp:120-138 | a page written at its end keeps its header and grows by exactly the slot |
| StorageSink.DisabledPage | services/document_db/src/fs_sink/page.cpp:140-143 | clearing a flag past the header keeps the page's header and length |
| StorageSink.OpenedAtEnd | services/document_db/src/fs_sink/fs_sink.cpp:124 | on a mirrored directory the page a chosen position names opens without error and is as long as the position's offset |
| StorageSink.AppendedMirrored | services/document_db/src/fs_sink/fs_sink.cpp:118-146 | payload `Store` keeps the known pages equal to the page files, with the new slot's page recorded one slot longer |
| StorageSink.AppendedPageAt | services/document_db/src/fs_sink/fs_sink.cpp:118-146 | what payload `Store` leaves in each page file and its backup: the new page written, the old page's flag cleared, every other page kept |
| StorageSink.AppendedKeeps | services/document_db/src/fs_sink/fs_sink.cpp:118-146 | a slot already in a mirrored directory survives payload `Store` unless it holds the old flag |
| StorageSink.AppendedHolds | services/document_db/src/fs_sink/fs_sink.cpp:118-146 | on a mirrored directory the new slot never overlaps the old flag, so the payload is always at its new position |
| StorageSink.StoreOnMirrored | services/document_db/src/fs_sink/fs_sink.cpp:118-146 | on a mirrored directory payload `Store` cannot fail: the chosen position is its page's end, both pages pass their checks, and the result is `AppendedFiles` |
| StorageSink.SamePagesKeep | services/document_db/src/fs_sink/fs_sink.cpp:103-116 | directories with the same pages agree on mirroring and on every slot |
| StorageSink.MetaStoredSamePages | services/document_db/src/fs_sink/fs_sink.cpp:103-116 | meta `Store` leaves every page and page backup as it was |
| StorageSink.AppendedCanonical | services/document_db/src/fs_sink/fs_sink.cpp:118-146 | payload `Store` creates no page file under a name other than the sink's own, and leaves no backup |
| StorageSink.MetaStoredCanonical | services/document_db/src/fs_sink/fs_sink.cpp:103-116 | meta `Store` keeps the page files named as the sink names them |
| StorageSink.FoundSized | services/document_db/src/fs_sink/fs_sink.cpp:61-75 | every page the loader registers is at least a header long |
| StorageSink.FoundMirrored | services/document_db/src/fs_sink/fs_sink.cpp:61-75 | in a directory whose page files carry the sink's names, the pages found are exactly the page files, each with its header and length |
| StorageSink.PagesBelowRecord | services/document_db/src/fs_sink/fs_sink.cpp:212-229 | recording a page at or below the counter keeps every page index at or below it |
| StorageSink.FileStorageSink.constructor | services/document_db/src/fs_sink/fs_sink.cpp:79-80 | no pages known and a counter of 0 |
| StorageSink.FileStorageSink.FindAvailablePosition | services/document_db/src/fs_sink/fs_sink.cpp:212-229 | a page with room is chosen at its end; with no room anywhere the counter is incremented and the new index, above every known page, is returned with the default offset; the choice is `Chosen` of the pages and counter before the call |
| StorageSink.FileStorageSink.StoreMeta | services/document_db/src/fs_sink/fs_sink.cpp:103-116 | afterwards `meta.ddb` holds "META", the count and every entry in some iteration order, written over the file as it stands after truncation and `Begin`, and the backup is gone |
| StorageSink.FileStorageSink.Enumerate | services/document_db/src/fs_sink/fs_sink.cpp:110-112 | visits every key of the index once |
| StorageSink.FileStorageSink.LoadMeta | services/document_db/src/fs_sink/fs_sink.cpp:155-189 | a missing meta file, a wrong prefix and any short read raise `FilesystemException`; otherwise the index is rebuilt entry by entry |
| StorageSink.FileStorageSink.Delete | services/document_db/src/fs_sink/fs_sink.cpp:148-153 | the slot is disabled inside a committed page transaction; a corrupted page raises `FilesystemException` and changes nothing |
| StorageSink.FileStorageSink.StorePayload | services/document_db/src/fs_sink/fs_sink.cpp:118-146 | failures are `FilesystemException`; on success the position is `FindAvailablePosition`'s choice, the directory is `StoredFiles` of the old one, the old slot no longer loads, no other file changes, and the page is recorded one slot longer; when the known pages mirror the page files it cannot fail, is `AppendedFiles` and keeps them mirrored |
| StorageSink.FileStorageSink.PlaceSlot | services/document_db/src/fs_sink/fs_sink.cpp:124-127 | fails exactly when the page is corrupted, changing nothing; otherwise the directory is `PlacedFiles` (page opened, transaction begun, slot written) and the page's size is recorded one slot longer |
| StorageSink.FileStorageSink.LoadPageFilesMap | services/document_db/src/fs_sink/fs_sink.cpp:61-75 | every file named like a page is registered with its size; a bad page raises `FilesystemException`; no file changes |
| StorageSink.FileStorageSink.InitFs | services/document_db/src/fs_sink/fs_sink.cpp:196-210 | a missing index is created empty; it fails exactly when some page file is bad; on success every page is registered with its size, and the counter never decreases and is either unchanged or a registered index |
| StorageSink.FileStorageSink.Init | services/document_db/src/fs_sink/fs_sink.cpp:93-95 | runs `InitFs` |
| StorageSink.FileStorageSink.Reset | services/document_db/src/fs_sink/fs_sink.cpp:97-101 | pages and counter are cleared before `InitFs` runs again |
| StorageSink.FileStorageSink.LoadPayload | services/document_db/src/fs_sink/fs_sink.cpp:191-194 | the page is opened and the slot at the position loaded |
| DocumentStore.UpdatedInfo | services/document_db/src/components/storage.cpp:105-115 | `Update` changes only the supplied name and namespace, never the owner, and refreshes `updated` only when something was supplied |
| DocumentStore.UpdateIdempotent | services/document_db/src/components/storage.cpp:105-115 | applying the same update twice is applying it once |
| DocumentStore.HeldSlotInPage | services/document_db/src/components/storage.cpp:158-162 | a held slot lies inside its page's recorded size |
| DocumentStore.AppendKeepsSlots | services/document_db/src/components/storage.cpp:158-162 | storing a document's payload at a page end keeps every slot held and no two overlapping, with the document's slot moved to the new position |
| DocumentStore.AppendKeepsOther | services/document_db/src/components/storage.cpp:158-162 | another document's slot survives the store and lies apart from the new slot |
| DocumentStore.SamePagesKeepSlots | services/document_db/src/components/storage.cpp:154-156 | writing the index keeps the pages mirrored and every slot held |
| DocumentStore.ConsistentOldKnown | services/document_db/src/components/storage.cpp:158-162 | in an intact store the position in a document's info is its slot's position, on a known page |
| DocumentStore.ConsistentStored | services/document_db/src/components/storage.cpp:158-162 | storing a payload at a page end keeps the store intact, with the slot recorded at its new position |
| DocumentStore.ConsistentSamePages | services/document_db/src/components/storage.cpp:154-156 | the store's invariant depends on the page files only |
| DocumentStore.ConsistentRelabel | services/document_db/src/components/storage.cpp:105-115 | changing an info's fields but not its position keeps the store intact |
| DocumentStore.ConsistentAdmit | services/document_db/src/components/storage.cpp:91 | a new info without a position keeps the store intact |
| DocumentStore.ConsistentRemove | services/document_db/src/components/storage.cpp:137 | removing a document and its slot keeps the store intact |
| DocumentStore.Storage.constructor | services/document_db/src/components/storage.cpp:23-24 | counter 0, empty index, fresh sink |
| DocumentStore.Storage.NextId | services/document_db/src/components/storage.cpp:150-152 | returns the counter, then increments it |
| DocumentStore.Storage.StoreIndex | services/document_db/src/components/storage.cpp:154-156 | afterwards the meta file loads back as the current index, no page file changes, and the store's invariant is kept |
| DocumentStore.Storage.StorePayload | services/document_db/src/components/storage.cpp:158-162 | the payload is stored, the new position recorded in the info and the index written; on an intact store it cannot fail, keeps the store intact and records the document's slot at the new position |
| DocumentStore.Storage.Get | services/document_db/src/components/storage.cpp:41-56 | an absent id raises NotFound (the lookup at storage.cpp lines 12-19); a missing position with `fetch_payload` raises "Missing document position"; otherwise the info is returned, with the payload read from its slot; on an intact store nothing changes and the payload is the one last stored for the document |
| DocumentStore.Storage.List | services/document_db/src/components/storage.cpp:58-70 | every indexed info once, without payload |
| DocumentStore.Storage.Add | services/document_db/src/components/storage.cpp:72-98 | the new info gets the next id, created == updated == now, and the input's name, owner and namespace; the payload is stored at a recorded position; on an intact store it cannot fail and records the new document's slot |
| DocumentStore.Storage.Update | services/document_db/src/components/storage.cpp:100-128 | an absent id raises NotFound and changes nothing; otherwise the info becomes `UpdatedInfo`, a supplied payload is stored, and the index is written; on an intact store it stays intact, and a supplied payload cannot fail and becomes the document's slot |
| DocumentStore.Storage.Delete | services/document_db/src/components/storage.cpp:130-140 | an absent id raises NotFound; otherwise the info and its slot are removed, the index written and the removed info returned; an intact store stays intact |
| DocumentStore.Storage.Clear | services/document_db/src/components/storage.cpp:142-148 | returns the number of entries, leaves the index empty and keeps the id counter; on success the store is intact with no slots |
| DocumentStore.Storage.RestoreIdCounter | services/document_db/src/components/storage.cpp:184-197 | the counter is `RestoredCounter` of the index's ids: 0 for an empty index, otherwise one past the largest id, so every id is below it; the source's 64-bit wrap is admitted under "## Left out" and in "## Findings" |
| DocumentStore.MaxId | services/document_db/src/components/storage.cpp:190-195 | the largest id of a non-empty index: it is one of the ids and no id exceeds it |
| DocumentStore.RestoredCounter | services/document_db/src/components/storage.cpp:184-197 | the intended counter: 0 for no ids, otherwise an id plus one, and above every id |
| DocumentStore.RestoredCounterAsWritten | services/document_db/src/components/storage.cpp:190-196 | `max_id + 1` in `size_t`: below 2^64, one past the largest id unless that id is 2^64 - 1, then 0 |
| DocumentStore.RestoredCounterAsWrittenAgrees | services/document_db/src/components/storage.cpp:190-196 | while every id is below 2^64 - 1 the code as written restores the intended counter |
| DocumentStore.RestoredCounterAsWrittenReusesId | services/document_db/src/components/storage.cpp:190-196 | with the id 2^64 - 1 stored the counter as written is 0, an id already taken when 0 is stored, while the intended counter is fresh |
| DocumentStore.Storage.Load | services/document_db/src/components/storage.cpp:173-177 | the sink is initialised, the index loaded and the counter restored |
| DocumentStore.Storage.Unload | services/document_db/src/components/storage.cpp:179-182 | the index is dropped and the sink reset; on success the store is intact with no slots |
| DocumentStore.Storage.Init | services/document_db/src/components/storage.cpp:30-32 | as `Load`: on success the meta file decodes to the index and the counter is restored; on failure nothing in memory changes |
| DocumentStore.Storage.Reset | services/document_db/src/components/storage.cpp:34-37 | unloads, then loads again |
| DocumentStore.Storage.Record | services/document_db/src/components/storage.cpp:91 | the info is entered under its id, keeping the position already recorded; an intact store stays intact |
| DocumentStore.Storage.RecordAndStore | services/document_db/src/components/storage.cpp:91-93 | the info is entered, then its payload and the index stored; on an intact store it cannot fail and the payload becomes the document's slot |
| DocumentStore.Storage.Drop | services/document_db/src/components/storage.cpp:137 | the info and its slot leave the index; an intact store stays intact |
| DocumentStore.Storage.AddThenGet | services/document_db/src/components/storage.cpp:72-98 | a document added to an intact store reads back with the name, owner, namespace and payload it was added with, under a fresh id; every other document's entry and slot is unchanged |
| DocumentStore.Storage.UpdateThenGet | services/document_db/src/components/storage.cpp:100-128 | after an update with a payload, the document reads back with the updated info and the new payload; every other document's entry and slot is unchanged |
| DocumentStore.Storage.DeleteThenGet | services/document_db/src/components/storage.cpp:130-140 | a deleted document is no longer found, only its entry and slot are removed, and an intact store stays intact |
| Numbers.NatToString | libraries/common/include/format.hpp:31-34 | `std::to_string` of a non-negative value is its decimal digits |
| Numbers.IntToString | libraries/common/include/format.hpp:31-34 | a negative value gets a minus sign |
| Numbers.DigitsValueOfNatToString | libraries/common/include/format.hpp:31-34 | the digits denote the value |
| Numbers.NatToStringInjective | libraries/common/include/format.hpp:31-34 | different values have different texts |
| Numbers.ScanNumeral | services/document_db/src/utils/request.cpp:22 | `strtoul` skips white space, takes an optional sign and needs at least one digit |
| Numbers.Stol | services/document_db/src/fs_sink/page.cpp:35 | `std::stol` raises `invalid_argument` exactly when there is no numeral, only raises logic errors, and returns a value within the signed 64-bit range |
| Numbers.Stoul | services/document_db/src/utils/request.cpp:22 | `std::stoul` raises `invalid_argument` exactly when there is no numeral, only raises logic errors, and returns a value below 2^64 |
| Numbers.ScanNatToString | services/document_db/src/utils/request.cpp:22 | the decimal text of `n` scans as `n` |
| Numbers.StolOfNatToString | services/document_db/src/fs_sink/page.cpp:35 | `stol` reads back any decimal that fits |
| Numbers.StoulOfNatToString | services/document_db/src/utils/request.cpp:22 | `stoul` reads back any decimal that fits |
| Formatting.IntegralToStringRoundTrip | libraries/common/include/format.hpp:31-34 | an integral argument's text parses back to its value |
| Formatting.ToStringExamples | libraries/common/include/format.hpp:27-49 | `'a'` prints as "97", booleans as "true"/"false" |
| Formatting.SplitJoin | libraries/common/include/format.hpp:84-94 | a format string is its placeholder-free pieces joined by "{}" |
| Formatting.JoinSplit | libraries/common/include/format.hpp:84-94 | placeholder-free pieces are recovered from their join |
| Formatting.FormatImplStep | libraries/common/include/format.hpp:84-94 | one step replaces the first "{}" at or after the position and resumes after the replacement |
| Formatting.FormatImplStop | libraries/common/include/format.hpp:76-89 | too few arguments raise "not enough arguments", too many raise "extra arguments" |
| Formatting.FormatImplShift | libraries/common/include/format.hpp:90-93 | text before the search position, including inserted text, is never rescanned |
| Formatting.FormatBySplit | libraries/common/include/format.hpp:98-102 | `Format` puts the arguments in order between the pieces, and fails exactly when the counts differ |
| Formatting.FormatJoin | libraries/common/include/format.hpp:98-102 | the same, stated for any placeholder-free pieces |
| Formatting.FreeWithoutBrace | libraries/common/include/format.hpp:77 | text without '{' holds no placeholder |
| Formatting.FormatOne | libraries/common/include/format.hpp:98-102 | a template with one placeholder gives prefix + argument + suffix |
| Formatting.FormatExamples | libraries/common/tests/format.cpp:39-86 | `"{ }"` comes back unchanged; a "{}" inside an argument is not substituted; counts that do not match fail |
| Formatting.ShrinkedIndexIsFound | libraries/common/src/format/format.cpp:10-11 | the placeholder of "... ({} more chars)" is at index 5 |
| Formatting.GetShrinkedPlaceholder | libraries/common/src/format/format.cpp:13-18 | the template with "{}" replaced by the decimal count |
| Formatting.TemplatePiecesFree | libraries/common/src/format/format.cpp:10 | the template has exactly one placeholder |
| Formatting.ShrinkedPlaceholderIsFormat | libraries/common/src/format/format.cpp:13-18 | the placeholder equals `Format` of the template with the count |
| Formatting.ShrunkSizeAsWritten | libraries/common/src/format/format.cpp:41 | the count is the size difference truncated to a 32-bit `int` |
| Formatting.ShrinkStringAsWrittenReadsPastEnd | libraries/common/src/format/format.cpp:40-53 | a limit of 2^32 - 1 over an empty string produces a positive count and a copy past the end |
| Formatting.ShrinkStringAsWrittenKeepsLong | libraries/common/src/format/format.cpp:41-44 | a string 2^31 characters over the limit is returned unshrunk |
| Formatting.ShrinkString | libraries/common/src/format/format.cpp:40-53 | a string within the limit is unchanged; a longer one keeps its first `limit` characters, and its length is limit + \|placeholder\| |
| Formatting.ShrinkStringReportsDropped | libraries/common/src/format/format.cpp:46-53 | the count in a shrunk string parses back as the number of characters dropped |
| Formatting.ShrunkSizeExact | libraries/common/src/format/format.cpp:41 | below 2^31 the 32-bit count is exact |
| Formatting.ShrinkStringAsWrittenAgrees | libraries/common/src/format/format.cpp:40-53 | below 2^31 the code as written and the intended function agree |
| Config.SegmentsFrom | libraries/common/src/config/config.cpp:15-29 | the text between consecutive delimiters |
| Config.SegmentsFromJoin | libraries/common/src/config/config.cpp:15-29 | the segments joined by the delimiter give the path back, and none holds the delimiter |
| Config.SegmentsJoin | libraries/common/src/config/config.cpp:15-29 | the same, from the start of the path |
| Config.JoinSegmentsFrom | libraries/common/src/config/config.cpp:15-29 | delimiter-free tokens are the segments of their join |
| Config.JoinSegments | libraries/common/src/config/config.cpp:15-29 | the same, for a whole path |
| Config.PathTokensMeaning | libraries/common/src/config/config.cpp:9-31 | tokenizing fails exactly when a non-empty path has a segment of at most one character; successful tokens join back to the path, hold no delimiter and are at least 2 long |
| Config.PathTokensRejects | libraries/common/src/config/config.cpp:19-21 | any segment of length at most 1 raises "invalid config path" |
| Config.PathTokensAccepts | libraries/common/src/config/config.cpp:15-30 | a path whose segments are all long yields exactly those segments |
| Config.GetPathTokens | libraries/common/src/config/config.cpp:9-31 | the loop returns the tokens the specification gives, and raises exactly when it does |
| Config.PathTokensNested | libraries/common/tests/config.cpp:96-106 | "obj_key/nested_key" and "obj_key:nested_key" give the two keys |
| Config.PathTokensDoubledDelimiter | libraries/common/tests/config.cpp:127-130 | "key//key2" is rejected |
| Config.LookupAppend | libraries/common/src/config/config.cpp:59-70 | a lookup descends one key per token, in order |
| Config.Configuration.constructor | libraries/common/src/config/config.cpp:37 | the configuration holds the given JSON |
| Config.Configuration.GetJsonByPath | libraries/common/src/config/config.cpp:55-71 | an invalid path raises; otherwise the node reached key by key, the root for an empty path, or null when a step is missing or not an object |
| HttpUtils.MethodTemplateIsFormat | libraries/http/src/utils/utils.cpp:20-21 | `Format("HTTP Method {}", code)` is the prefix followed by the decimal code |
| HttpUtils.MethodName | libraries/http/src/utils/utils.cpp:7-23 | any method other than the five named ones is "HTTP Method <n>" |
| HttpUtils.NamedMethod | libraries/http/src/utils/utils.cpp:9-18 | each named method's text is told apart by its length and first letter |
| HttpUtils.OtherMethod | libraries/http/src/utils/utils.cpp:19-21 | any other method's text starts with the 12-character prefix |
| HttpUtils.MethodNameInjective | libraries/http/src/utils/utils.cpp:7-23 | different methods get different names |
| HttpUtils.ToMapMeaning | libraries/http/src/utils/utils.cpp:42-44 | the keys are the non-empty keys of the pairs, each mapped to its last value |
| HttpUtils.PairsFromStep | libraries/http/src/utils/utils.cpp:34-45 | one pair is read as the text up to the next '=' and then up to the next '&'; with no '=' left, reading stops |
| HttpUtils.PairsStart | libraries/http/src/utils/utils.cpp:32 | parsing starts at the first '?' |
| HttpUtils.GetParams | libraries/http/src/utils/utils.cpp:25-48 | the loop returns the map of the pairs read from the target |
| HttpUtils.NoQueryNoParams | libraries/http/src/utils/utils.cpp:32-34 | a target without '?' has no parameters |
| HttpUtils.PairsFromQuery | libraries/http/src/utils/utils.cpp:34-46 | a query built from pairs reads back as those pairs |
| HttpUtils.ParamsOfQuery | libraries/http/src/utils/utils.cpp:25-48 | reading parameters inverts writing them: path, '?', then `k=v` pairs separated by '&' |
| HttpUtils.ToMapSnoc | libraries/http/src/utils/utils.cpp:42-44 | a pair with an empty key is dropped, and a later key overwrites |
| HttpUtils.ParamsDoubledDelimiter | libraries/http/tests/utils.cpp:32 | "/path?key=value&&key2=value2" gives keys "key" and "&key2" |
| HttpUtils.ParamsDoubledPrefix | libraries/http/tests/utils.cpp:33 | "/path??key=value" gives the key "?key" |
| HttpUtils.ParamsRepeatedKey | libraries/http/tests/utils.cpp:31 | a repeated key keeps its last value |
| HttpUtils.ParamsEmptyKey | libraries/http/tests/utils.cpp:34 | "/path?=value" gives nothing |
| HttpUtils.ParamsWithoutEqual | libraries/http/tests/utils.cpp:28 | a trailing key without '=' is ignored |
| HttpServer.Lookup | libraries/http/src/http_server/http_server.cpp:80-90 | the handler for the target and method, or none when either is unknown |
| HttpServer.WithHandler | libraries/http/src/http_server/http_server.cpp:64-68 | afterwards that pair answers the handler and every other pair is unchanged |
| HttpServer.WithoutHandler | libraries/http/src/http_server/http_server.cpp:70-78 | afterwards that pair answers none, every other pair is unchanged, and a target left empty is dropped |
| HttpServer.SameAnswersSameTable | libraries/http/src/http_server/http_server.cpp:62-90 | a table without empty targets is determined by its answers |
| HttpServer.AddThenRemove | libraries/http/src/http_server/http_server.cpp:64-78 | registering on a free pair and removing it gives back the table |
| HttpServer.RemoveThenAdd | libraries/http/src/http_server/http_server.cpp:64-78 | removing a handler and registering it again gives back the table |
| HttpServer.HttpHandlers.constructor | libraries/http/src/http_server/http_server.cpp:62 | an empty table |
| HttpServer.HttpHandlers.AddHandler | libraries/http/src/http_server/http_server.cpp:64-68 | `GetHandler` then answers the handler for that pair, overwriting an earlier one |
| HttpServer.HttpHandlers.RemoveHandler | libraries/http/src/http_server/http_server.cpp:70-78 | `GetHandler` then answers none for that pair, and an unknown pair changes nothing |
| Algo.GetOrDefaultLaws | libraries/common/include/utils/algo.hpp:9-18 | after storing `v` under a key the lookup gives `v` there and the old answer at every other key; an empty map or a removed key gives the default |
| Algo.GetOptionalLaws | libraries/common/include/utils/algo.hpp:20-28 | after storing `v` under a key the lookup gives `Some(v)` there and the old answer at every other key; an empty map or a removed key gives nothing |
| Algo.GetOrDefaultIsGetOptional | libraries/common/include/utils/algo.hpp:9-28 | the two agree |
| Algo.CharToLower | libraries/common/include/utils/algo.hpp:34 | `tolower` maps A-Z to a-z and fixes every other character |
| Algo.CharToUpper | libraries/common/include/utils/algo.hpp:42 | `toupper` maps a-z to A-Z and fixes every other character |
| Algo.ToLower | libraries/common/include/utils/algo.hpp:30-36 | keeps the length and maps each character independently |
| Algo.ToUpper | libraries/common/include/utils/algo.hpp:38-44 | keeps the length and maps each character independently |
| Algo.ToLowerMeaning | libraries/common/include/utils/algo.hpp:30-36 | the result has no upper-case letter and differs from the input only at upper-case letters |
| Algo.ToUpperMeaning | libraries/common/include/utils/algo.hpp:38-44 | the result has no lower-case letter and differs from the input only at lower-case letters |
| Algo.CaseRoundTrip | libraries/common/include/utils/algo.hpp:30-44 | lowering an upper-cased string equals lowering the original |
| Algo.ToLowerExample | libraries/common/tests/utils.cpp:10-14 | "sOme StRinG-123" becomes "some string-123" |
| Algo.ToUpperExample | libraries/common/tests/utils.cpp:16-20 | "sOme StRinG-123" becomes "SOME STRING-123" |
| Requests.GetIdAsWritten | services/document_db/src/utils/request.cpp:9-26 | a missing id raises "Parameter 'id' not found"; an empty value raises `out_of_range`; a leading '-' and a `stoul` failure raise "Parameter 'id' is invalid"; otherwise the `stoul` value |
| Requests.GetId | services/document_db/src/utils/request.cpp:9-26 | the same, and an accepted id is exactly the non-negative number the value starts with |
| Requests.GetIdDiffersOnlyOnNegatives | services/document_db/src/utils/request.cpp:16-19 | the two differ only on a value whose numeral carries a minus sign |
| Requests.ParamsOfIdQuery | services/document_db/src/utils/request.cpp:10-11 | a target whose query is `id=<v>` carries exactly that parameter |
| Requests.GetIdOfTarget | services/document_db/src/utils/request.cpp:9-26 | any 64-bit id written in decimal in the target is read back; the config service's copy of `GetId` is the same code |
| Requests.ScanSpaceMinusOne | services/document_db/src/utils/request.cpp:22 | `strtoul` reads " -1" as a negative numeral |
| Requests.GetIdAsWrittenAcceptsNegative | services/document_db/src/utils/request.cpp:17-22 | as written, the id " -1" is accepted as 2^64 - 1 |
| Components.Component.Init | libraries/components/include/component_base.hpp:22 | a component's `Init` is called once more |
| Components.Component.Reset | libraries/components/include/component_base.hpp:25 | a component's `Reset` is called once more |
| Components.AlreadyRegisteredIsFormatted | libraries/components/src/components_engine.cpp:22-23 | the duplicate-registration message is `Format` of its template with the name |
| Components.NotRegisteredIsFormatted | libraries/components/include/components_engine.hpp:44-45 | the missing-component message is `Format` of its template with the name |
| Components.MessagesNameTheComponent | libraries/components/src/components_engine.cpp:22-23 | different names give different messages |
| Components.DistinctComponents | libraries/components/src/components_engine.cpp:46-49 | names are keys, so one call per name is one call per component |
| Components.ComponentsEngine.constructor | libraries/components/src/components_engine.cpp:10 | not initialised, no components |
| Components.ComponentsEngine.Register | libraries/components/src/components_engine.cpp:19-26 | a taken name raises "component '<name>' already registered" and changes nothing; otherwise the component is filed under its name |
| Components.ComponentsEngine.Get | libraries/components/src/components_engine.cpp:28-34 | the component filed under the name, or null |
| Components.ComponentsEngine.GetTyped | libraries/components/include/components_engine.hpp:35-46 | the component, or "component '<name>' is not registered" |
| Components.ComponentsEngine.Clear | libraries/components/src/components_engine.cpp:36-38 | forgets every component and keeps the initialised flag |
| Components.ComponentsEngine.Init | libraries/components/src/components_engine.cpp:40-52 | the first call initialises every component exactly once; later calls do nothing |
| Components.ComponentsEngine.Reset | libraries/components/src/components_engine.cpp:54-60 | resets every component exactly once and keeps the registry |
| CommonComponents.ComponentsEngine.constructor | libraries/common/src/components/components_engine.cpp:8-9 | not initialised, no components |
| CommonComponents.ComponentsEngine.Register | libraries/common/src/components/components_engine.cpp:32-35 | files the component under its name, silently replacing an earlier one |
| CommonComponents.ComponentsEngine.Get | libraries/common/include/components_engine.hpp:30-40 | the component, or "component '<name>' is not registered" |
| CommonComponents.ComponentsEngine.Init | libraries/common/src/components/components_engine.cpp:18-30 | the first call initialises every component exactly once and sets the flag; later calls do nothing |
| CommonComponents.ComponentsEngine.Reset | libraries/common/src/components/components_engine.cpp:37-40 | forgets every component and clears the flag, so the next `Init` runs again |
| ApiConfigStore.ItemExistsIsFormatted | services/api_config/src/components/api_storage.cpp:19-20 | the duplicate message is `Format` of its template with the name |
| ApiConfigStore.ApiConfigStorage.constructor | services/api_config/src/components/api_storage.cpp:7 | an empty store with counter 0 |
| ApiConfigStore.ApiConfigStorage.GetNextId | services/api_config/src/components/api_storage.cpp:60-62 | returns the counter, which then moves on by one modulo 2^64 |
| ApiConfigStore.ApiConfigStorage.Insert | services/api_config/src/components/api_storage.cpp:16-35 | a taken name raises "item with name '<n>' already exists" and changes nothing; otherwise it stores the next id, author "author" and created == updated == now, keeping ids distinct |
| ApiConfigStore.ApiConfigStorage.Update | services/api_config/src/components/api_storage.cpp:37-45 | false and no change for an absent name; otherwise replaces the data and `updated` and keeps id, author and created |
| ApiConfigStore.ApiConfigStorage.Delete | services/api_config/src/components/api_storage.cpp:47-49 | true exactly when the name was present, which is then removed |
| ApiConfigStore.ApiConfigStorage.Get | services/api_config/src/components/api_storage.cpp:51-58 | the stored entry, or none |
| Dummy.DummyDict.constructor | services/dummy/src/components/dict.cpp:7 | an empty dictionary |
| Dummy.DummyDict.Reset | services/dummy/src/components/dict.cpp:17-19 | removes every entry |
| Dummy.DummyDict.Add | services/dummy/src/components/dict.cpp:21-23 | `Get(k)` then returns `v`, and every other key keeps its value |
| Dummy.DummyDict.Get | services/dummy/src/components/dict.cpp:25-27 | the stored value, or none for a key never added |
| Dummy.DummyCounter.constructor | services/dummy/src/components/counter.cpp:5 | starts at 0 |
| Dummy.DummyCounter.Reset | services/dummy/src/components/counter.cpp:15-17 | back to 0, so the next `AddOne` returns 1 |
| Dummy.DummyCounter.GetValue | services/dummy/src/components/counter.cpp:19-21 | the current value, nothing changed |
| Dummy.DummyCounter.AddOne | services/dummy/src/components/counter.cpp:23-25 | increments modulo 2^64 and returns the new value |
| Dummy.AddOneCounts | services/dummy/tests/test_dummy_components.py:3-7 | n calls of `AddOne` from zero answer 1, 2, ..., n |

## Left out

- Concurrency. This covers the storage's shared, upgrade and unique locks, its atomic id
  counter, and the thread pool. The model is sequential.
- The network. This covers the HTTP server and sessions, the client, the request handlers
  and the JSON responses. `HttpHandlers` is modelled, and handlers are an opaque type.
- JSON parsing and the typed config accessors, which rest on a JSON library. A config is an
  abstract JSON tree.
- Floating-point encoding and printing.
- Time formatting (`TimePointToString`). Time points are 64-bit nanosecond counts, and the
  clock is a parameter `now`.
- Logging.
- Real filesystem behaviour. Directory iteration is a map, so a directory entry is never a
  directory, and OS error texts are not modelled. `file_size` is the length of the bytes.
- Iteration order of `unordered_map`. Loops over maps choose each next key
  nondeterministically, and every contract holds for any order.
- `StrongTypedef` move operations leave the moved-from value indeterminate for some `T`.
  The model takes the initial value of the new object as a parameter.
- The typed `Get<T>` of both registries: the dynamic cast to `T` is not modelled,
  and the component is returned as is.
- A component's own `Init` and `Reset` bodies. They are code the registries do not see,
  and the model records only that each call happens.
- DocumentStore.Storage.NextId: does not model the 64-bit wrap-around of the atomic counter.
- DocumentStore.Storage.RestoreIdCounter: the counter is unbounded. The source computes
  `max_id + 1` in `size_t` (services/document_db/src/components/storage.cpp:196), which wraps to 0
  when the index read from `meta.ddb` holds the id 2^64 - 1 (`RestoredCounterAsWritten`, see
  "## Findings"). The fresh-id facts that `Valid()` gives `Add` after `Load`, `Init` or `Reset`
  hold in the source only while the largest stored id is below 2^64 - 1.
  A store would need 2^64 additions to reach it.
- DocumentStore.Storage.Get: the payload is read only when the slot's page passes its header
  check and the slot loads. A page corrupted on disk raises `FilesystemException`, as in the
  source, but the contract names only the error kind.
- DocumentStore.Storage.Delete: the payload slot stays active, as in the source, which does
  not call `OnDocumentDeleted`.
- DocumentStore.Storage.StorePayload: outside an intact store, the payload is proved to be
  found at its new position only when the old slot does not overlap the new one. In an intact
  store (`Intact`: the known pages are the page files, every positioned document's slot holds
  its payload, and no two slots overlap) it is proved outright.
- DocumentStore.Storage.Load, DocumentStore.Storage.Init and DocumentStore.Storage.Reset: make
  no claim that the store is intact afterwards. The positions they read from `meta.ddb` point
  at payloads the model does not know. An intact store starts from construction over a
  directory without pages, or from `Clear` or `Unload`, and every later operation keeps it
  intact.
- DocumentStore.Storage.Add, DocumentStore.Storage.Update and DocumentStore.Storage.StorePayload:
  the intact-store guarantees need a payload whose length fits the slot's 8-byte length
  field (`IsU64`).
- StorageSink.FileStorageSink.StorePayload: follows OldOffsetForNewPage; the code as written
  is OldOffsetAsWritten (services/document_db/src/fs_sink/fs_sink.cpp:122-128), see
  "## Findings".
- StorageSink.FileStorageSink.StorePayload: on failure the contract states the error kind
  only, not the directory after the rollback. When disabling the old slot fails, the new
  page is rolled back while its recorded size keeps the slot, as in the source, which records
  the size before the old page is opened.
- Codec.ReadString: a count too large to allocate makes `str.resize(count)`
  (libraries/common/src/binary/binary.cpp:48-53) raise `std::length_error` or
  `std::bad_alloc`. Those are not `std::ios_base::failure`, so they escape the catches in
  Pages.CheckPageValidity (services/document_db/src/fs_sink/page.cpp:52) and
  StorageSink.FileStorageSink.LoadMeta (services/document_db/src/fs_sink/fs_sink.cpp:185).
  The model has no allocation limit and reports such a count as a short read
  (`FilesystemException`).
- Pages.CheckPageValidity: an allocation failure while reading the prefix would escape as
  `std::length_error` or `std::bad_alloc`; the model reports `FilesystemException`, as for
  any short read (see Codec.ReadString above).
- StorageSink.FileStorageSink.LoadMeta: the same holds for a string count in the meta file
  that is too large to allocate.
- Formatting.ShrinkString, Formatting.ShrinkStringAsWritten, Algo.CharToLower,
  Algo.CharToUpper, Algo.ToLower and Algo.ToUpper: strings are modelled as sequences of
  characters, while the source's `std::string` holds bytes. The two agree on ASCII text
  only. A byte count that differs from the character count, a cut inside a multi-byte
  character, and `tolower`/`toupper` on bytes of 0x80 and above (undefined behaviour for a
  negative `char`) are not modelled.
- `ApiConfigStorage::Insert`, `Update` and `Delete` are declared in `api_storage.hpp` as returning
  `models::ApiConfigData`, while `api_storage.cpp` defines them as returning `void`, `bool` and
  `bool`. The definitions are followed.
- The element types of the codec are given by an encoder and a decoder function. Only the
  kinds the source instantiates are covered: integers of 1 to 8 bytes, `bool`, strings,
  optionals, sequences, time points and wrappers.
- The empty-meta branch of `LoadMeta` (services/document_db/src/fs_sink/fs_sink.cpp:163-166) cannot be reached,
  because the stream raises at the end of the file. An empty meta file is therefore reported as
  `FilesystemException`.
- `std::stoul` gets `data()` of the value. The value is a whole string, so the NUL that ends
  it is not modelled.
- Streams.OutStream.Open: the path constructor in libraries/common/src/binary/binary.cpp:65-68
  opens with `std::ios::out` alone, which truncates. The model follows the declaration in
  `binary.hpp`, whose `truncate` flag decides.
- The bodies of the two `Seek` methods are not part of this model. They are taken to move the
  stream position, as their declarations and the seek tests say.
- Copy and move of `PageFile`, and `Swap` and move of `FileStorageSink`. Objects are shared
  references in the model.
- `Config::FromFile`, which reads and parses a JSON file.
- HttpServer.HttpHandlers.GetHandler: it carries no contract of its own. Its body is
  `HttpServer.Lookup` on the table, and `Lookup` carries the contract.
- The meta `Store` opens `meta.ddb` for writing, which truncates it, before its transaction
  begins. The backup therefore holds the empty file, and a rollback cannot bring back the
  previous index. The model keeps this order.

## Findings

| source | as written | input that shows it | evidently intended | confidence | as-written member | corrected member |
|---|---|---|---|---|---|---|
| services/document_db/src/fs_sink/fs_sink.cpp:122-128 | the old offset is passed to `StorePayload` on the NEW page whenever the document had a position, even when the old slot is on another page | a payload at page 1 offset 12 moving to page 2, where another document's slot sits at offset 12: that slot is disabled | pass the old offset only when the old slot is on the new page; an old slot elsewhere is disabled by lines 132-139 alone | high, not executed | StorageSink.OldOffsetAsWrittenCorrupts | StorageSink.OldOffsetForNewPageKeepsSlots |
| services/document_db/src/fs_sink/fs_sink.cpp:122-128 | the same old offset is cleared on the new page after the new slot is written there | a payload at page 1 offset 12 moving to a fresh page 2, whose first slot is at offset 12: the new slot is disabled at once and the document's payload no longer loads | the same correction: no old offset for a new page | high, not executed | StorageSink.OldOffsetAsWrittenLosesNewSlot | StorageSink.OldOffsetForNewPageKeepsNewSlot |
| libraries/common/src/format/format.cpp:41-53 | `str.size() - limit` is computed in 64-bit unsigned arithmetic and stored in a 32-bit `int` | `ShrinkString("", 2^32 - 1)` gives a count of 1 and copies 2^32 - 1 characters from an empty string; a string 2^31 characters over the limit is not shrunk | compare the sizes before subtracting | medium, not executed | Formatting.ShrinkStringAsWrittenReadsPastEnd | Formatting.ShrinkString |
| services/document_db/src/components/storage.cpp:190-196 | `max_id + 1` is computed in `size_t` and wraps to 0 | an index read from `meta.ddb` holding the ids 0 and 2^64 - 1: the counter becomes 0, and the next `Add` stores its info under id 0 at storage.cpp:91, replacing document 0 | the next id is one past the largest, never a stored one | low, not executed: the id 2^64 - 1 arises only from a meta file written elsewhere or 2^64 additions | DocumentStore.RestoredCounterAsWrittenReusesId | DocumentStore.Storage.RestoreIdCounter |
| services/document_db/src/utils/request.cpp:17-22 | only the first character is checked for '-', but `stoul` skips leading white space and wraps a negated number | the target `/?id= -1` yields the id 2^64 - 1 | refuse any numeral with a minus sign | low, not executed: an HTTP parser may refuse the space, but a request built in code does not | Requests.GetIdAsWrittenAcceptsNegative | Requests.GetId |
