/** The directory the storage works in, as a map from file names to their bytes, with the
    `std::filesystem` operations the transaction and the page files use. */
module Files {
  import opened Wrappers
  import opened Errors
  import opened Codec

  type Path = string

  type FileMap = map<Path, Bytes>

  function Max(a: int, b: int): int { if a < b then b else a }

  function Zeros(n: nat): (r: Bytes)
    ensures |r| == n
    ensures forall i :: 0 <= i < n ==> r[i] == 0
  {
    seq(n, _ => 0)
  }

  /** The bytes of a file, or nothing when it does not exist (what a stream opened for
      writing starts from). */
  function ContentOf(files: FileMap, path: Path): Bytes {
    if path in files then files[path] else []
  }

  /** The file after writing `bytes` at offset `pos`: those positions hold `bytes`, every
      other existing byte is kept, and a gap between the old end and `pos` reads as zeros. */
  function Overwrite(file: Bytes, pos: nat, bytes: Bytes): (r: Bytes)
    ensures |r| == Max(|file|, pos + |bytes|)
  {
    seq(Max(|file|, pos + |bytes|), i requires 0 <= i =>
      if pos <= i < pos + |bytes| then bytes[i - pos] else if i < |file| then file[i] else 0)
  }

  /** What a write leaves in the file: the written bytes at their positions, and the old
      byte (or a zero past the old end) everywhere else. */
  lemma OverwriteBytes(file: Bytes, pos: nat, bytes: Bytes)
    ensures Overwrite(file, pos, bytes)[pos..pos + |bytes|] == bytes
    ensures forall i :: 0 <= i < |Overwrite(file, pos, bytes)| && !(pos <= i < pos + |bytes|) ==>
              Overwrite(file, pos, bytes)[i] == (if i < |file| then file[i] else 0)
  {
    var r := Overwrite(file, pos, bytes);
    assert r[pos..pos + |bytes|] == bytes;
  }

  /** Two files agree when they have the same length and the same byte everywhere; used to
      identify the result of a sequence of writes. */
  lemma OverwriteUnique(r: Bytes, file: Bytes, pos: nat, bytes: Bytes)
    requires |r| == Max(|file|, pos + |bytes|)
    requires forall i :: pos <= i < pos + |bytes| ==> r[i] == bytes[i - pos]
    requires forall i :: 0 <= i < |r| && !(pos <= i < pos + |bytes|) ==>
               r[i] == (if i < |file| then file[i] else 0)
    ensures r == Overwrite(file, pos, bytes)
  {
    var o := Overwrite(file, pos, bytes);
    OverwriteBytes(file, pos, bytes);
    forall i | 0 <= i < |r|
      ensures r[i] == o[i]
    {
      if pos <= i < pos + |bytes| {
        assert o[i] == o[pos..pos + |bytes|][i - pos];
      }
    }
  }

  /** Two consecutive writes are one write of the concatenated bytes. */
  lemma OverwriteCompose(file: Bytes, pos: nat, a: Bytes, b: Bytes)
    ensures Overwrite(Overwrite(file, pos, a), pos + |a|, b) == Overwrite(file, pos, a + b)
  {
    var f1 := Overwrite(file, pos, a);
    var r := Overwrite(f1, pos + |a|, b);
    var ab := a + b;
    OverwriteBytes(file, pos, a);
    OverwriteBytes(f1, pos + |a|, b);
    forall i | pos <= i < pos + |ab|
      ensures r[i] == ab[i - pos]
    {
      if i < pos + |a| {
        assert f1[i] == f1[pos..pos + |a|][i - pos];
      } else {
        assert r[i] == r[pos + |a|..pos + |a| + |b|][i - pos - |a|];
      }
    }
    OverwriteUnique(r, file, pos, ab);
  }

  /** The directory after writing `bytes` at offset `pos` of `path`, which a stream opened
      for writing has created when it was missing. */
  function AfterWrite(files: FileMap, path: Path, pos: nat, bytes: Bytes): FileMap {
    files[path := Overwrite(ContentOf(files, path), pos, bytes)]
  }

  /** A write creates the file when it was missing, and touches no other file. */
  lemma AfterWriteFrame(files: FileMap, path: Path, pos: nat, bytes: Bytes)
    ensures AfterWrite(files, path, pos, bytes).Keys == files.Keys + {path}
    ensures forall p :: p in files && p != path ==> AfterWrite(files, path, pos, bytes)[p] == files[p]
    ensures ContentOf(AfterWrite(files, path, pos, bytes), path) == Overwrite(ContentOf(files, path), pos, bytes)
  {
  }

  /** Two consecutive writes to a file are one write of the concatenated bytes. */
  lemma AfterWriteCompose(files: FileMap, path: Path, pos: nat, a: Bytes, b: Bytes)
    ensures AfterWrite(AfterWrite(files, path, pos, a), path, pos + |a|, b)
         == AfterWrite(files, path, pos, a + b)
  {
    OverwriteCompose(ContentOf(files, path), pos, a, b);
  }

  /** A write leaves its bytes at its offset. */
  lemma PrefixAtOverwrite(file: Bytes, pos: nat, bytes: Bytes)
    ensures IsPrefixAt(Overwrite(file, pos, bytes), pos, bytes)
  {
    OverwriteBytes(file, pos, bytes);
    PrefixAtSlice(Overwrite(file, pos, bytes), pos, bytes);
  }

  /** Bytes that a write does not reach keep their values. */
  lemma PrefixAtOverwriteDisjoint(file: Bytes, at: nat, b: Bytes, pos: nat, bytes: Bytes)
    requires IsPrefixAt(file, at, b)
    requires pos + |bytes| <= at || at + |b| <= pos
    ensures IsPrefixAt(Overwrite(file, pos, bytes), at, b)
  {
    var r := Overwrite(file, pos, bytes);
    forall i | 0 <= i < |b|
      ensures r[at + i] == b[i]
    {
      assert file[at + i] == b[i];
    }
  }

  /** Writing at the end of a file appends. */
  lemma OverwriteAtEnd(file: Bytes, bytes: Bytes)
    ensures Overwrite(file, |file|, bytes) == file + bytes
  {
    var r := file + bytes;
    forall i | |file| <= i < |file| + |bytes|
      ensures r[i] == bytes[i - |file|]
    {
    }
    OverwriteUnique(r, file, |file|, bytes);
  }

  /** Writing inside a file replaces exactly the bytes written and keeps its length. */
  lemma OverwriteInside(file: Bytes, pos: nat, bytes: Bytes)
    requires pos + |bytes| <= |file|
    ensures Overwrite(file, pos, bytes) == file[..pos] + bytes + file[pos + |bytes|..]
  {
    var r := file[..pos] + bytes + file[pos + |bytes|..];
    forall i | pos <= i < pos + |bytes|
      ensures r[i] == bytes[i - pos]
    {
    }
    OverwriteUnique(r, file, pos, bytes);
  }

  /** One directory of the host filesystem. */
  class FileSystem {
    var files: FileMap

    constructor (initial: FileMap)
      ensures files == initial
    {
      files := initial;
    }

    /** `std::filesystem::exists`. */
    function Exists(path: Path): (b: bool)
      reads this
      ensures b <==> path in files
    {
      path in files
    }

    /** `std::filesystem::remove`: deletes the file and reports whether there was one. */
    method Remove(path: Path) returns (removed: bool)
      modifies this
      ensures files == old(files) - {path}
      ensures removed <==> path in old(files)
    {
      removed := path in files;
      files := files - {path};
    }

    /** `std::filesystem::copy_file`: fails when the source is missing, or when the target
        exists and overwriting was not requested. */
    method CopyFile(from: Path, to: Path, overwrite: bool) returns (r: Outcome<Error>)
      modifies this
      ensures from !in old(files) || (to in old(files) && !overwrite) ==>
                r == Fail(FilesystemError) && files == old(files)
      ensures from in old(files) && (to !in old(files) || overwrite) ==>
                r == Pass && files == old(files)[to := old(files)[from]]
    {
      if from !in files || (to in files && !overwrite) {
        return Fail(FilesystemError);
      }
      files := files[to := files[from]];
      return Pass;
    }

    /** Opening a `std::ofstream` in its default mode: creates the file, or empties it. */
    method CreateEmpty(path: Path)
      modifies this
      ensures files == old(files)[path := []]
    {
      files := files[path := []];
    }
  }
}
