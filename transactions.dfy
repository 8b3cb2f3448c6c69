/** `files::transaction::FileTransaction`, a backup-copy transaction over one file, and
    `common::transactions::TransactionGuard`, the scope guard that drives it. A transaction
    copies the main file to `<path>.backup` when it begins; committing deletes the copy and
    rolling back copies it over the main file. A backup left behind by a crash is found and
    restored by the next `Begin`. */
module Transactions {
  import opened Wrappers
  import opened Errors
  import opened Codec
  import opened Files

  const BACKUP_SUFFIX: string := ".backup"

  /** The backup file of `path`: never the main file itself, and never the backup of
      another file. */
  function BackupPath(path: Path): (b: Path)
    ensures |b| == |path| + |BACKUP_SUFFIX| && b[..|path|] == path
    ensures b != path
  {
    path + BACKUP_SUFFIX
  }

  lemma BackupPathInjective(p: Path, q: Path)
    ensures BackupPath(p) == BackupPath(q) <==> p == q
  {
    if BackupPath(p) == BackupPath(q) {
      assert p == BackupPath(p)[..|p|] == BackupPath(q)[..|q|] == q;
    }
  }

  datatype State = Unknown | InProgress | Committed | RolledBack

  // ------------------------------------------------ the effect on the directory

  /** `RollbackImpl` on the directory: the backup is copied over the main file and removed;
      `None` when there is no backup to copy. */
  function RollbackFiles(files: FileMap, path: Path): (r: Option<FileMap>)
    ensures r.Some? <==> BackupPath(path) in files
  {
    if BackupPath(path) in files then
      Some(files[path := files[BackupPath(path)]] - {BackupPath(path)})
    else
      None
  }

  /** The directory after the first two steps of `Begin`: a leftover backup is restored and,
      when asked to, a missing main file is created empty. */
  function Prepared(files: FileMap, path: Path, createIfMissing: bool): FileMap {
    var recovered := if BackupPath(path) in files then RollbackFiles(files, path).value else files;
    if createIfMissing && path !in recovered then recovered[path := []] else recovered
  }

  /** The directory after a successful `Begin`: the prepared directory with the main file
      copied to the backup; `None` when there is no main file to copy. */
  function BeginFiles(files: FileMap, path: Path, createIfMissing: bool): Option<FileMap> {
    var p := Prepared(files, path, createIfMissing);
    if path in p then Some(p[BackupPath(path) := p[path]]) else None
  }

  /** `Commit` on the directory: the backup is removed. */
  function CommitFiles(files: FileMap, path: Path): FileMap {
    files - {BackupPath(path)}
  }

  /** `Begin` fails exactly when there is neither a main file nor a backup to restore it from,
      and creating it was not requested; it then leaves the directory as it was. */
  lemma BeginFailure(files: FileMap, path: Path, createIfMissing: bool)
    ensures BeginFiles(files, path, createIfMissing).None? <==>
              path !in files && BackupPath(path) !in files && !createIfMissing
    ensures BeginFiles(files, path, createIfMissing).None? ==>
              Prepared(files, path, createIfMissing) == files
  {
  }

  /** After a successful `Begin` the backup holds what the main file holds: the content
      restored from a leftover backup, else the existing content, else nothing. Every other
      file is as it was. */
  lemma BeginSnapshot(files: FileMap, path: Path, createIfMissing: bool)
    requires BeginFiles(files, path, createIfMissing).Some?
    ensures var r := BeginFiles(files, path, createIfMissing).value;
      && path in r && BackupPath(path) in r
      && r[BackupPath(path)] == r[path]
      && r[path] == (if BackupPath(path) in files then files[BackupPath(path)]
                     else if path in files then files[path] else [])
      && forall p :: p != path && p != BackupPath(path) ==>
           (p in r <==> p in files) && (p in files ==> r[p] == files[p])
  {
  }

  /** Rolling back after a `Begin` and any write to the main file gives back the prepared
      directory; when no backup was left over and the file existed, that is the directory
      from before the transaction. */
  lemma RollbackUndoesWrite(files: FileMap, path: Path, createIfMissing: bool, written: Bytes)
    requires BeginFiles(files, path, createIfMissing).Some?
    ensures var b := BeginFiles(files, path, createIfMissing).value;
      RollbackFiles(b[path := written], path) == Some(Prepared(files, path, createIfMissing))
    ensures BackupPath(path) !in files && path in files ==>
      RollbackFiles(BeginFiles(files, path, createIfMissing).value[path := written], path) == Some(files)
  {
    var p := Prepared(files, path, createIfMissing);
    var b := BeginFiles(files, path, createIfMissing).value;
    var r := RollbackFiles(b[path := written], path).value;
    assert BackupPath(path) !in p;
    assert r == p;
  }

  /** Committing after a `Begin` and a write keeps the write and removes the backup; with no
      leftover backup every other file is as before the transaction. */
  lemma CommitKeepsWrite(files: FileMap, path: Path, createIfMissing: bool, written: Bytes)
    requires BeginFiles(files, path, createIfMissing).Some?
    requires BackupPath(path) !in files
    ensures var c := CommitFiles(BeginFiles(files, path, createIfMissing).value[path := written], path);
      c == files[path := written]
  {
  }

  /** Crash recovery: when the process dies after `Begin` and a write but before `Commit` or
      `Rollback`, the next `Begin` on the same file restores the content the first one saw. */
  lemma BeginAfterCrash(files: FileMap, path: Path, createIfMissing: bool, written: Bytes,
                        again: bool)
    requires BeginFiles(files, path, createIfMissing).Some?
    ensures var b := BeginFiles(files, path, createIfMissing).value;
      var b2 := BeginFiles(b[path := written], path, again);
      b2.Some? && b2.value[path] == b[path] && b2.value == b
  {
    var b := BeginFiles(files, path, createIfMissing).value;
    var crashed := b[path := written];
    var p := Prepared(crashed, path, again);
    assert p == b - {BackupPath(path)};
  }

  /** Recovering twice is recovering once. */
  lemma PreparedIdempotent(files: FileMap, path: Path, createIfMissing: bool)
    ensures var p := Prepared(files, path, createIfMissing);
      Prepared(p, path, createIfMissing) == p
  {
  }

  // ------------------------------------------------ the transaction object

  class FileTransaction {
    const fs: FileSystem
    const path: Path
    const backupPath: Path
    const createIfMissing: bool
    var state: State

    constructor (fs: FileSystem, path: Path, createIfMissing: bool)
      ensures this.fs == fs && this.path == path && backupPath == BackupPath(path)
      ensures this.createIfMissing == createIfMissing && state == Unknown
    {
      this.fs := fs;
      this.path := path;
      backupPath := BackupPath(path);
      this.createIfMissing := createIfMissing;
      state := Unknown;
    }

    predicate IsCommitted()
      reads this
    {
      state == Committed
    }

    /** Starts the transaction: refuses to start twice, restores a leftover backup, creates a
        missing file when asked to, then copies the file to its backup. */
    method Begin() returns (r: Outcome<Error>)
      requires backupPath == BackupPath(path)
      modifies this, fs
      ensures old(state) == InProgress ==>
                r == Fail(LogicError("Cannot begin already started transaction"))
                && fs.files == old(fs.files) && state == old(state)
      ensures old(state) != InProgress ==>
                var b := BeginFiles(old(fs.files), path, createIfMissing);
                && (r.Pass? <==> b.Some?)
                && (b.Some? ==> fs.files == b.value && state == InProgress)
                && (b.None? ==> r == Fail(FilesystemError) && fs.files == old(fs.files)
                                && state == old(state))
    {
      if state == InProgress {
        return Fail(LogicError("Cannot begin already started transaction"));
      }
      if fs.Exists(backupPath) {
        r := RollbackImpl();
      }
      if createIfMissing && !fs.Exists(path) {
        fs.CreateEmpty(path);
      }
      r := fs.CopyFile(path, backupPath, false);
      if r.Fail? {
        return;
      }
      state := InProgress;
    }

    /** Finishes the transaction keeping the writes: the backup is deleted (a missing backup
        is only logged). */
    method Commit() returns (r: Outcome<Error>)
      requires backupPath == BackupPath(path)
      modifies this, fs
      ensures old(state) != InProgress ==>
                r == Fail(LogicError("Cannot commit not started or completed transaction"))
                && fs.files == old(fs.files) && state == old(state)
      ensures old(state) == InProgress ==>
                r == Pass && fs.files == CommitFiles(old(fs.files), path) && state == Committed
    {
      if state != InProgress {
        return Fail(LogicError("Cannot commit not started or completed transaction"));
      }
      var deleted := fs.Remove(backupPath);
      state := Committed;
      return Pass;
    }

    /** Abandons the transaction: the backup is copied back over the file. */
    method Rollback() returns (r: Outcome<Error>)
      requires backupPath == BackupPath(path)
      modifies this, fs
      ensures old(state) != InProgress ==>
                r == Fail(LogicError("Cannot rollback not started or completed transaction"))
                && fs.files == old(fs.files) && state == old(state)
      ensures old(state) == InProgress ==> RolledBackFrom(old(fs.files), r)
    {
      if state != InProgress {
        return Fail(LogicError("Cannot rollback not started or completed transaction"));
      }
      r := RollbackImpl();
    }

    /** What `RollbackImpl` leaves behind, starting from `before`. */
    twostate predicate RolledBackFrom(before: FileMap, new r: Outcome<Error>)
      reads this, fs
    {
      var b := RollbackFiles(before, path);
      && (r.Pass? <==> b.Some?)
      && (b.Some? ==> fs.files == b.value && state == RolledBack)
      && (b.None? ==> r == Fail(FilesystemError) && fs.files == before && state == old(state))
    }

    method RollbackImpl() returns (r: Outcome<Error>)
      requires backupPath == BackupPath(path)
      modifies this, fs
      ensures RolledBackFrom(old(fs.files), r)
    {
      r := fs.CopyFile(backupPath, path, true);
      if r.Fail? {
        return;
      }
      var deleted := fs.Remove(backupPath);
      state := RolledBack;
    }
  }

  /** Begins a transaction on construction and rolls it back when the scope ends without a
      commit. */
  class TransactionGuard {
    const transaction: FileTransaction

    constructor Hold(transaction: FileTransaction)
      ensures this.transaction == transaction
    {
      this.transaction := transaction;
    }

    /** Construction: `Begin` is called exactly once; when it raises there is no guard. */
    static method Start(transaction: FileTransaction) returns (r: Result<TransactionGuard, Error>)
      requires transaction.backupPath == BackupPath(transaction.path)
      modifies transaction, transaction.fs
      ensures r.Success? ==> fresh(r.value) && r.value.transaction == transaction
      ensures old(transaction.state) == InProgress ==>
                r == Failure(LogicError("Cannot begin already started transaction"))
                && transaction.fs.files == old(transaction.fs.files)
      ensures old(transaction.state) != InProgress ==>
                var b := BeginFiles(old(transaction.fs.files), transaction.path,
                                    transaction.createIfMissing);
                && (r.Success? <==> b.Some?)
                && (b.Some? ==> transaction.fs.files == b.value && transaction.state == InProgress)
                && (b.None? ==> r == Failure(FilesystemError)
                                && transaction.fs.files == old(transaction.fs.files))
    {
      var begun := transaction.Begin();
      if begun.Fail? {
        return Failure(begun.error);
      }
      var g := new TransactionGuard.Hold(transaction);
      return Success(g);
    }

    /** Forwards to the transaction's `Commit` and does nothing else. */
    method Commit() returns (r: Outcome<Error>)
      requires transaction.backupPath == BackupPath(transaction.path)
      modifies transaction, transaction.fs
      ensures old(transaction.state) != InProgress ==>
                r.Fail? && transaction.fs.files == old(transaction.fs.files)
      ensures old(transaction.state) == InProgress ==>
                r == Pass && transaction.fs.files == CommitFiles(old(transaction.fs.files), transaction.path)
                && transaction.state == Committed
    {
      r := transaction.Commit();
    }

    /** The end of the guard's scope (the destructor): a committed transaction is left
        alone, any other is rolled back. */
    method Close() returns (r: Outcome<Error>)
      requires transaction.backupPath == BackupPath(transaction.path)
      modifies transaction, transaction.fs
      ensures old(transaction.state) == Committed ==>
                r == Pass && transaction.fs.files == old(transaction.fs.files)
                && transaction.state == Committed
      ensures old(transaction.state) == InProgress ==>
                transaction.RolledBackFrom(old(transaction.fs.files), r)
      ensures old(transaction.state) in {Unknown, RolledBack} ==>
                r.Fail? && transaction.fs.files == old(transaction.fs.files)
    {
      if !transaction.IsCommitted() {
        r := transaction.Rollback();
      } else {
        r := Pass;
      }
    }
  }
}
