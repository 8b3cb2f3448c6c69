/** `documents::fs_sink::PageFile`: one payload page of the store. A page file is the string
    "PAGE" (its 8-byte length, then the four letters) followed by payload slots; a slot is an
    `active` flag byte followed by the length-prefixed payload. Pages are named
    `page_<index>.dp` inside the storage directory. */
module Pages {
  import opened Wrappers
  import opened Errors
  import opened Numbers
  import opened Codec
  import opened Files
  import opened Streams

  /** "PAGE" */
  const PAGE_PREFIX: Bytes := [0x50, 0x41, 0x47, 0x45]
  const PAGE_FILE_PREFIX: string := "page_"
  const PAGE_FILE_EXTENSION: string := ".dp"

  /** The size of a page that holds only its header: the encoded "PAGE" string. */
  function DefaultPageSize(): (n: nat)
    ensures n == |EncodeString(PAGE_PREFIX)| == 12
  {
    WORD + |PAGE_PREFIX|
  }

  // ------------------------------------------------------------ page file names

  /** The name the regular expression `^page_\d+\.dp$` accepts. */
  predicate IsPageFileName(name: string) {
    && |name| >= |PAGE_FILE_PREFIX| + 1 + |PAGE_FILE_EXTENSION|
    && name[..|PAGE_FILE_PREFIX|] == PAGE_FILE_PREFIX
    && name[|name| - |PAGE_FILE_EXTENSION|..] == PAGE_FILE_EXTENSION
    && AllDigits(name[|PAGE_FILE_PREFIX|..|name| - |PAGE_FILE_EXTENSION|])
  }

  /** The file name of page `index`. */
  function PagePath(index: nat): (name: Path)
    ensures IsPageFileName(name)
    ensures name[|PAGE_FILE_PREFIX|..|name| - |PAGE_FILE_EXTENSION|] == NatToString(index)
  {
    var name := PAGE_FILE_PREFIX + NatToString(index) + PAGE_FILE_EXTENSION;
    assert name[..|PAGE_FILE_PREFIX|] == PAGE_FILE_PREFIX;
    assert name[|name| - |PAGE_FILE_EXTENSION|..] == PAGE_FILE_EXTENSION;
    assert name[|PAGE_FILE_PREFIX|..|name| - |PAGE_FILE_EXTENSION|] == NatToString(index);
    name
  }

  /** Different pages have different files. */
  lemma PagePathInjective(a: nat, b: nat)
    ensures PagePath(a) == PagePath(b) <==> a == b
  {
    if PagePath(a) == PagePath(b) {
      NatToStringInjective(a, b);
    }
  }

  /** The position of the last '.' in `s`. */
  function LastDot(s: string): (r: Option<nat>)
    ensures r.Some? ==> r.value < |s| && s[r.value] == '.'
                        && forall i :: r.value < i < |s| ==> s[i] != '.'
    ensures r.None? ==> forall i :: 0 <= i < |s| ==> s[i] != '.'
  {
    if s == [] then None
    else if s[|s| - 1] == '.' then Some(|s| - 1)
    else LastDot(s[..|s| - 1])
  }

  /** `std::filesystem::path::stem` of a file name: the name without its last extension. A
      name whose only dot is its first character has no extension. */
  function Stem(name: string): string {
    if name == "." || name == ".." then name
    else match LastDot(name)
      case None => name
      case Some(k) => if k == 0 then name else name[..k]
  }

  /** `GetPageIndex`: the number after "page_" in the stem, parsed by `std::stol` and
      converted to `size_t`; a stem too short for the prefix, or a suffix `stol` rejects,
      raises `FilesystemException`. */
  function PageIndex(name: Path): Result<nat, Error> {
    var stem := Stem(name);
    if |stem| < |PAGE_FILE_PREFIX| then Failure(FilesystemException)
    else match Stol(stem[|PAGE_FILE_PREFIX|..])
      case Failure(_) => Failure(FilesystemException)
      case Success(v) => Success(if v < 0 then v + TWO_TO_THE_64 else v)
  }

  lemma StolOfDigits(d: string)
    requires |d| > 0 && AllDigits(d)
    ensures Stol(d) == (if DigitsValue(d) < TWO_TO_THE_63 then Success(DigitsValue(d))
                        else Failure(OutOfRange))
  {
    assert SkipSpaces(d, 0) == 0;
    DigitRunEndOfDigits(d, [], 0);
    assert d + [] == d;
    assert d[0..|d|] == d;
  }

  /** Every name the page-file pattern accepts yields the number it spells, unless that
      number does not fit a `long`. */
  lemma PageIndexOfName(name: Path)
    requires IsPageFileName(name)
    ensures var d := name[|PAGE_FILE_PREFIX|..|name| - |PAGE_FILE_EXTENSION|];
      PageIndex(name) == (if DigitsValue(d) < TWO_TO_THE_63 then Success(DigitsValue(d))
                          else Failure(FilesystemException))
  {
    var n := |name|;
    var d := name[|PAGE_FILE_PREFIX|..n - |PAGE_FILE_EXTENSION|];
    assert name[n - 3] == '.' && name[n - 2] == 'd' && name[n - 1] == 'p' by {
      assert name[n - 3..] == ".dp";
    }
    forall i | 0 <= i < n - 3
      ensures name[i] != '.'
    {
      if i < 5 {
        assert name[i] == name[..5][i];
      } else {
        assert name[i] == d[i - 5];
      }
    }
    var k := LastDot(name).value;
    assert k == n - 3;
    assert Stem(name) == name[..n - 3];
    assert Stem(name)[|PAGE_FILE_PREFIX|..] == d;
    StolOfDigits(d);
  }

  /** The index of page `n`'s file is `n`, for every index a `long` can hold. */
  lemma PageIndexOfPagePath(n: nat)
    ensures n < TWO_TO_THE_63 ==> PageIndex(PagePath(n)) == Success(n)
    ensures n >= TWO_TO_THE_63 ==> PageIndex(PagePath(n)) == Failure(FilesystemException)
  {
    PageIndexOfName(PagePath(n));
    DigitsValueOfNatToString(n);
  }

  // ------------------------------------------------------------ page contents

  /** `CheckPageValidity` on a page's bytes: the file must start with the string "PAGE";
      anything else, including a file too short to hold a string, is a corrupted page. */
  function CheckPage(file: Bytes): Outcome<Error> {
    match Codec.ReadString(file, 0)
    case None => Fail(FilesystemException)
    case Some((prefix, _)) => if prefix != PAGE_PREFIX then Fail(FilesystemException) else Pass
  }

  /** The header a new page is created with passes the check, whatever follows it. */
  lemma CheckNewPage(file: Bytes)
    requires IsPrefixAt(file, 0, EncodeString(PAGE_PREFIX))
    ensures CheckPage(file) == Pass
    ensures |file| >= DefaultPageSize()
  {
    ReadStringRoundTrip(PAGE_PREFIX, file, 0);
  }

  /** The header a page starts with: the encoded string "PAGE". */
  predicate HoldsHeader(file: Bytes) {
    IsPrefixAt(file, 0, EncodeString(PAGE_PREFIX))
  }

  /** The header check passes exactly on the files that start with the header. */
  lemma CheckPageIsHeader(file: Bytes)
    ensures CheckPage(file) == Pass <==> HoldsHeader(file)
  {
    if HoldsHeader(file) {
      CheckNewPage(file);
    }
    if CheckPage(file) == Pass {
      var count := file[..WORD];
      assert DecodeUnsigned(count) == |PAGE_PREFIX|;
      EncodeDecodeFixed(count);
      assert file[WORD..DefaultPageSize()] == PAGE_PREFIX;
      assert file[..DefaultPageSize()] == EncodeString(PAGE_PREFIX);
      PrefixAtSlice(file, 0, EncodeString(PAGE_PREFIX));
    }
  }

  /** A write that starts past the header keeps it. */
  lemma HeaderSurvives(file: Bytes, pos: nat, bytes: Bytes)
    requires HoldsHeader(file) && DefaultPageSize() <= pos
    ensures HoldsHeader(Overwrite(file, pos, bytes))
  {
    PrefixAtOverwriteDisjoint(file, 0, EncodeString(PAGE_PREFIX), pos, bytes);
  }

  /** A page that passes the check is at least as long as its header. */
  lemma CheckedPageLength(file: Bytes)
    requires CheckPage(file) == Pass
    ensures |file| >= DefaultPageSize()
  {
  }

  /** A slot: the `active` flag set, then the length-prefixed payload. */
  function EncodeSlot(payload: Bytes): (r: Bytes)
    ensures |r| == SlotSize(payload)
  {
    EncodeBool(true) + EncodeString(payload)
  }

  /** The bytes a slot takes (`GetPayloadSize`): flag, length, payload. */
  function SlotSize(payload: Bytes): nat {
    1 + WORD + |payload|
  }

  /** The slot for `payload` is at `offset` of `file`. */
  predicate HoldsSlot(file: Bytes, offset: nat, payload: Bytes) {
    IsU64(|payload|) && IsPrefixAt(file, offset, EncodeSlot(payload))
  }

  /** `LoadPayload` on a page's bytes: an inactive slot is an error; reading past the end
      raises the stream's failure. */
  function LoadSlot(file: Bytes, offset: nat): Result<Bytes, Error> {
    match Codec.ReadBool(file, offset)
    case None => Failure(IoFailure)
    case Some((active, next)) =>
      if !active then Failure(FilesystemException)
      else match Codec.ReadString(file, next)
        case None => Failure(IoFailure)
        case Some((payload, _)) => Success(payload)
  }

  /** `StorePayload` without an old offset, on a page's bytes. */
  function StoreSlot(file: Bytes, offset: nat, payload: Bytes): Bytes {
    Overwrite(file, offset, EncodeSlot(payload))
  }

  /** `DisablePayloadInPage` on a page's bytes: a false flag at `offset`. */
  function DisableSlot(file: Bytes, offset: nat): Bytes {
    Overwrite(file, offset, EncodeBool(false))
  }

  /** `StorePayload` on a page's bytes: the slot, then the old slot disabled when given. */
  function AfterStore(file: Bytes, offset: nat, payload: Bytes, oldOffset: Option<nat>): Bytes {
    var stored := StoreSlot(file, offset, payload);
    if oldOffset.Some? then DisableSlot(stored, oldOffset.value) else stored
  }

  /** A slot that is present loads as its payload. */
  lemma LoadHeldSlot(file: Bytes, offset: nat, payload: Bytes)
    requires HoldsSlot(file, offset, payload)
    ensures LoadSlot(file, offset) == Success(payload)
  {
    PrefixAtConcat(file, offset, EncodeBool(true), EncodeString(payload));
    ReadBoolRoundTrip(true, file, offset);
    ReadStringRoundTrip(payload, file, offset + 1);
  }

  /** Storing a payload puts its slot at the offset, so loading it there returns it. */
  lemma LoadAfterStore(file: Bytes, offset: nat, payload: Bytes)
    requires IsU64(|payload|)
    ensures HoldsSlot(StoreSlot(file, offset, payload), offset, payload)
    ensures LoadSlot(StoreSlot(file, offset, payload), offset) == Success(payload)
  {
    PrefixAtOverwrite(file, offset, EncodeSlot(payload));
    LoadHeldSlot(StoreSlot(file, offset, payload), offset, payload);
  }

  /** A disabled slot no longer loads. */
  lemma LoadAfterDisable(file: Bytes, offset: nat)
    ensures LoadSlot(DisableSlot(file, offset), offset) == Failure(FilesystemException)
  {
    PrefixAtOverwrite(file, offset, EncodeBool(false));
    ReadBoolRoundTrip(false, DisableSlot(file, offset), offset);
  }

  /** Disabling a slot inside the page changes exactly its flag byte. */
  lemma DisableFlagOnly(file: Bytes, offset: nat)
    requires offset < |file|
    ensures DisableSlot(file, offset) == file[offset := 0]
  {
    OverwriteInside(file, offset, EncodeBool(false));
    assert file[..offset] + EncodeBool(false) + file[offset + 1..] == file[offset := 0];
  }

  /** Storing at the end of the page appends the slot. */
  lemma StoreAtEnd(file: Bytes, payload: Bytes)
    ensures StoreSlot(file, |file|, payload) == file + EncodeSlot(payload)
  {
    OverwriteAtEnd(file, EncodeSlot(payload));
  }

  /** A slot survives a store whose bytes do not reach it. */
  lemma SlotSurvivesStore(file: Bytes, at: nat, kept: Bytes, offset: nat, payload: Bytes)
    requires HoldsSlot(file, at, kept)
    requires offset + SlotSize(payload) <= at || at + SlotSize(kept) <= offset
    ensures HoldsSlot(StoreSlot(file, offset, payload), at, kept)
  {
    PrefixAtOverwriteDisjoint(file, at, EncodeSlot(kept), offset, EncodeSlot(payload));
  }

  /** A slot survives disabling any other slot whose flag lies outside it. */
  lemma SlotSurvivesDisable(file: Bytes, at: nat, kept: Bytes, offset: nat)
    requires HoldsSlot(file, at, kept)
    requires offset < at || at + SlotSize(kept) <= offset
    ensures HoldsSlot(DisableSlot(file, offset), at, kept)
  {
    PrefixAtOverwriteDisjoint(file, at, EncodeSlot(kept), offset, EncodeBool(false));
  }

  /** After `StorePayload` the new slot is in place, unless the old slot to disable lies
      inside it. */
  lemma StoreKeepsNewSlot(file: Bytes, offset: nat, payload: Bytes, oldOffset: Option<nat>)
    requires IsU64(|payload|)
    requires oldOffset.Some? ==> oldOffset.value < offset || offset + SlotSize(payload) <= oldOffset.value
    ensures HoldsSlot(AfterStore(file, offset, payload, oldOffset), offset, payload)
  {
    LoadAfterStore(file, offset, payload);
    if oldOffset.Some? {
      SlotSurvivesDisable(StoreSlot(file, offset, payload), offset, payload, oldOffset.value);
    }
  }

  // ------------------------------------------------------------ the page object

  class PageFile {
    const fs: FileSystem
    const path: Path
    const index: nat
    /** The byte length of the page as last known: where the next slot goes. */
    var size: nat

    constructor Attach(fs: FileSystem, path: Path, index: nat, size: nat)
      ensures this.fs == fs && this.path == path && this.index == index && this.size == size
    {
      this.fs := fs;
      this.path := path;
      this.index := index;
      this.size := size;
    }

    /** `Init`: an existing page is checked and sized from its file; a missing page is
        created holding only its header. Either way the size is the file's length. */
    static method Open(fs: FileSystem, path: Path, index: nat) returns (r: Result<PageFile, Error>)
      modifies fs
      ensures path in old(fs.files) ==>
                fs.files == old(fs.files)
                && (CheckPage(fs.files[path]).Fail? <==> r.Failure?)
                && (r.Failure? ==> r.error == FilesystemException)
      ensures path !in old(fs.files) ==>
                r.Success? && fs.files == old(fs.files)[path := EncodeString(PAGE_PREFIX)]
      ensures r.Success? ==>
                fresh(r.value) && r.value.fs == fs && r.value.path == path && r.value.index == index
                && path in fs.files && r.value.size == |fs.files[path]|
                && CheckPage(fs.files[path]) == Pass
    {
      if fs.Exists(path) {
        var valid := CheckPageValidity(fs, path);
        if valid.Fail? {
          return Failure(valid.error);
        }
        CheckedPageLength(fs.files[path]);
        var page := new PageFile.Attach(fs, path, index, |fs.files[path]|);
        return Success(page);
      }
      var out := OutStream.Open(fs, path, false);
      out.WriteString(PAGE_PREFIX);
      OverwriteAtEnd([], EncodeString(PAGE_PREFIX));
      assert [] + EncodeString(PAGE_PREFIX) == EncodeString(PAGE_PREFIX);
      CheckNewPage(fs.files[path]);
      var page := new PageFile.Attach(fs, path, index, DefaultPageSize());
      return Success(page);
    }

    /** `PageFile(path)`: the index comes from the file name. */
    static method OpenNamed(fs: FileSystem, name: Path) returns (r: Result<PageFile, Error>)
      modifies fs
      ensures PageIndex(name).Failure? ==> r == Failure(FilesystemException) && fs.files == old(fs.files)
      ensures PageIndex(name).Success? && r.Success? ==> r.value.index == PageIndex(name).value
      ensures r.Success? ==>
                fresh(r.value) && r.value.fs == fs && r.value.path == name
                && name in fs.files && r.value.size == |fs.files[name]|
      ensures name in old(fs.files) ==> fs.files == old(fs.files)
      ensures name in old(fs.files) && PageIndex(name).Success? ==>
                (r.Failure? <==> CheckPage(old(fs.files)[name]).Fail?)
                && (r.Failure? ==> r.error == FilesystemException)
    {
      var index :- PageIndex(name);
      r := Open(fs, name, index);
    }

    /** `PageFile(root, index)`: the file name comes from the index. */
    static method OpenIndex(fs: FileSystem, index: nat) returns (r: Result<PageFile, Error>)
      modifies fs
      ensures PagePath(index) in old(fs.files) ==>
                fs.files == old(fs.files)
                && (CheckPage(fs.files[PagePath(index)]).Fail? <==> r.Failure?)
                && (r.Failure? ==> r.error == FilesystemException)
      ensures PagePath(index) !in old(fs.files) ==>
                r.Success? && fs.files == old(fs.files)[PagePath(index) := EncodeString(PAGE_PREFIX)]
      ensures r.Success? ==>
                fresh(r.value) && r.value.fs == fs && r.value.path == PagePath(index)
                && r.value.index == index
                && PagePath(index) in fs.files && r.value.size == |fs.files[PagePath(index)]|
                && CheckPage(fs.files[PagePath(index)]) == Pass
    {
      r := Open(fs, PagePath(index), index);
    }

    /** Writes the active slot for `payload` at `offset`, grows the size by the slot, and
        disables the slot at `oldOffset` when one is given. A null payload is refused. */
    method StorePayload(payload: Option<Bytes>, offset: nat, oldOffset: Option<nat>)
      returns (r: Outcome<Error>)
      modifies this, fs
      ensures payload.None? ==>
                r == Fail(LogicError("")) && fs.files == old(fs.files) && size == old(size)
      ensures payload.Some? ==>
                r == Pass
                && fs.files == old(fs.files)[path := AfterStore(ContentOf(old(fs.files), path),
                                                                offset, payload.value, oldOffset)]
                && size == old(size) + SlotSize(payload.value)
    {
      if payload.None? {
        return Fail(LogicError(""));
      }
      hide EncodeString, Overwrite;
      ghost var content := ContentOf(old(fs.files), path);
      ghost var stored := StoreSlot(content, offset, payload.value);
      var out := OutStream.Open(fs, path, false);
      out.Seek(offset);
      out.WriteBool(true);
      out.WriteString(payload.value);
      AfterWriteCompose(old(fs.files)[path := content], path, offset, EncodeBool(true), EncodeString(payload.value));
      assert fs.files == old(fs.files)[path := stored];
      size := size + SlotSize(payload.value);
      if oldOffset.Some? {
        DisableInPage(out, oldOffset.value);
        assert ContentOf(old(fs.files)[path := stored], path) == stored;
        assert fs.files == old(fs.files)[path := DisableSlot(stored, oldOffset.value)];
      }
      return Pass;
    }

    /** Opens the page for writing and disables the slot at `offset`. */
    method DisablePayload(offset: nat)
      modifies fs
      ensures fs.files == old(fs.files)[path := DisableSlot(ContentOf(old(fs.files), path), offset)]
    {
      var out := OutStream.Open(fs, path, false);
      DisableInPage(out, offset);
    }

    /** Reads the slot at `offset`: its payload when it is active. */
    method LoadPayload(offset: nat) returns (r: Result<Bytes, Error>)
      ensures path !in fs.files ==> r == Failure(IoFailure)
      ensures path in fs.files ==> r == LoadSlot(fs.files[path], offset)
    {
      var input :- InStream.Open(fs, path);
      input.Seek(offset);
      var active :- input.ReadBool();
      if !active {
        return Failure(FilesystemException);
      }
      r := input.ReadString();
    }
  }

  /** `CheckPageValidity`: a stream failure and a wrong prefix are both reported as a
      corrupted page. */
  method CheckPageValidity(fs: FileSystem, path: Path) returns (r: Outcome<Error>)
    requires path in fs.files
    ensures r == CheckPage(fs.files[path])
  {
    var stream := InStream.Open(fs, path);
    var input := stream.value;
    var prefix := input.ReadString();
    if prefix.Failure? || prefix.value != PAGE_PREFIX {
      return Fail(FilesystemException);
    }
    return Pass;
  }

  /** `DisablePayloadInPage`: a false flag written at `offset` of an open page stream. */
  method DisableInPage(out: OutStream, offset: nat)
    modifies out, out.fs
    ensures out.fs.files == old(out.fs.files)[out.path := DisableSlot(ContentOf(old(out.fs.files), out.path), offset)]
    ensures out.pos == offset + 1
  {
    out.Seek(offset);
    out.WriteBool(false);
  }
}
