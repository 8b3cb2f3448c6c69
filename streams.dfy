/** `BinaryInStream` and `BinaryOutStream`: a file's bytes plus a cursor. Every read decodes
    at the cursor and advances it by what it consumed, and raises `IoFailure` when the bytes
    run out (the streams throw on eof, fail and bad). Every write overwrites the file at the
    cursor and advances it. */
module Streams {
  import opened Wrappers
  import opened Errors
  import opened Codec
  import opened Files
  import opened StrongTypedefs

  /** Prepends already-read items to the outcome of reading the remaining ones. */
  function PrependItems<T>(items: seq<T>, rest: Option<(seq<T>, nat)>): Option<(seq<T>, nat)> {
    match rest
    case None => None
    case Some((more, after)) => Some((items + more, after))
  }

  class InStream {
    /** The bytes of the file when it was opened. */
    const data: Bytes
    var pos: nat

    /** Wrapping an opened file rewinds it to offset 0. */
    constructor OfBytes(data: Bytes)
      ensures this.data == data && pos == 0
    {
      this.data := data;
      pos := 0;
    }

    /** Opening a missing file fails: the stream throws once exceptions are enabled on a
        stream whose open failed. */
    static method Open(fs: FileSystem, path: Path) returns (r: Result<InStream, Error>)
      ensures path !in fs.files ==> r == Failure(IoFailure)
      ensures path in fs.files ==>
                r.Success? && fresh(r.value) && r.value.data == fs.files[path] && r.value.pos == 0
    {
      if path !in fs.files {
        return Failure(IoFailure);
      }
      var s := new InStream.OfBytes(fs.files[path]);
      return Success(s);
    }

    /** The outcome `r` of a read whose decoding at the old cursor gave `d`; on success the
        cursor is where the decoding ended. */
    ghost predicate Took<T>(d: Option<(T, nat)>, r: Result<T, Error>)
      reads this
    {
      match d
      case None => r == Failure(IoFailure)
      case Some((v, after)) => r == Success(v) && pos == after
    }

    method Seek(position: nat)
      modifies this
      ensures pos == position
    {
      pos := position;
    }

    /** Reads any value with the given decoder. */
    method ReadWith<T>(dec: (Bytes, nat) -> Option<(T, nat)>) returns (r: Result<T, Error>)
      modifies this
      ensures Took(dec(data, old(pos)), r)
    {
      match dec(data, pos)
      case None =>
        r := Failure(IoFailure);
      case Some((v, after)) =>
        r := Success(v);
        pos := after;
    }

    /** `>>` of an unsigned arithmetic value of `width` bytes. */
    method ReadFixed(width: nat) returns (r: Result<nat, Error>)
      modifies this
      ensures Took(ReadUnsigned(data, old(pos), width), r)
    {
      if pos + width > |data| {
        return Failure(IoFailure);
      }
      r := Success(DecodeUnsigned(data[pos..pos + width]));
      pos := pos + width;
    }

    /** `>>` of a signed arithmetic value of `width` bytes. */
    method ReadSignedFixed(width: nat) returns (r: Result<int, Error>)
      requires width > 0
      modifies this
      ensures Took(ReadSigned(data, old(pos), width), r)
    {
      if pos + width > |data| {
        return Failure(IoFailure);
      }
      r := Success(DecodeSigned(data[pos..pos + width]));
      pos := pos + width;
    }

    method ReadU64() returns (r: Result<nat, Error>)
      modifies this
      ensures Took(Codec.ReadU64(data, old(pos)), r)
    {
      r := ReadFixed(WORD);
    }

    method ReadBool() returns (r: Result<bool, Error>)
      modifies this
      ensures Took(Codec.ReadBool(data, old(pos)), r)
    {
      ghost var at := pos;
      var b :- ReadFixed(1);
      ghost var s := data[at..at + 1];
      assert s[1..] == [];
      assert DecodeUnsigned(s) == s[0] as nat + 256 * DecodeUnsigned(s[1..]);
      r := Success(b != 0);
    }

    /** A string: the 8-byte count, then that many bytes. */
    method ReadString() returns (r: Result<Bytes, Error>)
      modifies this
      ensures Took(Codec.ReadString(data, old(pos)), r)
    {
      var count :- ReadU64();
      if pos + count > |data| {
        return Failure(IoFailure);
      }
      r := Success(data[pos..pos + count]);
      pos := pos + count;
    }

    /** A time point: a signed 64-bit count of nanoseconds. */
    method ReadTime() returns (r: Result<int, Error>)
      modifies this
      ensures Took(Codec.ReadTime(data, old(pos)), r)
    {
      r := ReadSignedFixed(WORD);
    }

    /** An optional read into a destination holding `prior`, which a false flag keeps. */
    method ReadOptionalInto<T>(prior: Option<T>, dec: (Bytes, nat) -> Option<(T, nat)>)
      returns (r: Result<Option<T>, Error>)
      modifies this
      ensures Took(Codec.ReadOptionalInto(data, old(pos), prior, dec), r)
    {
      var present :- ReadBool();
      if !present {
        return Success(prior);
      }
      var v :- ReadWith(dec);
      r := Success(Some(v));
    }

    /** A vector or list: the count, then each element appended in turn. */
    method ReadSeq<T>(dec: (Bytes, nat) -> Option<(T, nat)>) returns (r: Result<seq<T>, Error>)
      modifies this
      ensures Took(Codec.ReadSeq(data, old(pos), dec), r)
    {
      var count :- ReadU64();
      ghost var start := pos;
      var items: seq<T> := [];
      PrependNothing(ReadItems(data, pos, count, dec));
      for i := 0 to count
        invariant |items| == i
        invariant ReadItems(data, start, count, dec)
               == PrependItems(items, ReadItems(data, pos, count - i, dec))
      {
        ghost var before := pos;
        var item := ReadWith(dec);
        if item.Failure? {
          assert ReadItems(data, before, count - i, dec) == None;
          return Failure(IoFailure);
        }
        assert ReadItems(data, before, count - i, dec)
            == PrependItems([item.value], ReadItems(data, pos, count - i - 1, dec));
        PrependTwice(items, [item.value], ReadItems(data, pos, count - i - 1, dec));
        items := items + [item.value];
      }
      assert ReadItems(data, pos, 0, dec) == Some(([], pos));
      assert items + [] == items;
      r := Success(items);
    }

    /** A wrapped value is read as its underlying value and stored into the wrapper; on
        failure the wrapper is untouched. */
    method ReadWrapped<T(==)>(w: StrongTypedef<T>, dec: (Bytes, nat) -> Option<(T, nat)>)
      returns (r: Outcome<Error>)
      modifies this, w
      ensures dec(data, old(pos)).None? ==> r == Fail(IoFailure) && w.value == old(w.value)
      ensures dec(data, old(pos)).Some? ==>
                r == Pass && w.value == dec(data, old(pos)).value.0
                && pos == dec(data, old(pos)).value.1
    {
      var v := ReadWith(dec);
      if v.Failure? {
        return Fail(IoFailure);
      }
      w.Assign(v.value);
      r := Pass;
    }
  }

  class OutStream {
    const fs: FileSystem
    const path: Path
    var pos: nat

    constructor Attach(fs: FileSystem, path: Path)
      ensures this.fs == fs && this.path == path && pos == 0
    {
      this.fs := fs;
      this.path := path;
      pos := 0;
    }

    /** Opens `path` for writing at offset 0, creating it when missing. Existing bytes are
        kept unless `truncate` is set. */
    static method Open(fs: FileSystem, path: Path, truncate: bool) returns (s: OutStream)
      modifies fs
      ensures fresh(s) && s.fs == fs && s.path == path && s.pos == 0
      ensures fs.files == old(fs.files)[path := if truncate then [] else ContentOf(old(fs.files), path)]
    {
      fs.files := fs.files[path := if truncate then [] else ContentOf(fs.files, path)];
      s := new OutStream.Attach(fs, path);
    }

    function Contents(): Bytes
      reads fs
    {
      ContentOf(fs.files, path)
    }

    /** The file now holds `bytes` written at the old cursor, nothing else changed, and the
        cursor moved past them. */
    twostate predicate WroteAtCursor(bytes: Bytes)
      reads this, fs
    {
      fs.files == AfterWrite(old(fs.files), path, old(pos), bytes) && pos == old(pos) + |bytes|
    }

    method Seek(position: nat)
      modifies this
      ensures pos == position
    {
      pos := position;
    }

    /** `Seek(BinaryStreamPosition::END)`. */
    method SeekEnd()
      modifies this
      ensures pos == |Contents()|
    {
      pos := |Contents()|;
    }

    method Write(bytes: Bytes)
      modifies this, fs
      ensures WroteAtCursor(bytes)
    {
      fs.files := AfterWrite(fs.files, path, pos, bytes);
      pos := pos + |bytes|;
    }

    /** `<<` of an arithmetic value of `width` bytes. */
    method WriteFixed(v: int, width: nat)
      modifies this, fs
      ensures WroteAtCursor(EncodeFixed(v, width))
    {
      Write(EncodeFixed(v, width));
    }

    method WriteBool(b: bool)
      modifies this, fs
      ensures WroteAtCursor(EncodeBool(b))
    {
      WriteFixed(if b then 1 else 0, 1);
      assert EncodeFixed(if b then 1 else 0, 1) == EncodeBool(b);
    }

    /** A string or string_view: its size, then its raw bytes. */
    method WriteString(s: Bytes)
      modifies this, fs
      ensures WroteAtCursor(EncodeString(s))
    {
      ghost var before, at := fs.files, pos;
      WriteFixed(|s|, WORD);
      Write(s);
      AfterWriteCompose(before, path, at, EncodeU64(|s|), s);
    }

    /** A time point: its nanoseconds since the epoch as a signed 64-bit value. */
    method WriteTime(nanos: int)
      modifies this, fs
      ensures WroteAtCursor(EncodeTime(nanos))
    {
      WriteFixed(nanos, WORD);
    }

    method WriteWith<T>(x: T, enc: T -> Bytes)
      modifies this, fs
      ensures WroteAtCursor(enc(x))
    {
      Write(enc(x));
    }

    /** An optional: the `has_value` flag, then the value when present. */
    method WriteOptional<T>(o: Option<T>, enc: T -> Bytes)
      modifies this, fs
      ensures WroteAtCursor(EncodeOptional(o, enc))
    {
      ghost var before, at := fs.files, pos;
      WriteBool(o.Some?);
      if o.Some? {
        WriteWith(o.value, enc);
        AfterWriteCompose(before, path, at, EncodeBool(true), enc(o.value));
      } else {
        assert EncodeOptional(o, enc) == EncodeBool(false);
      }
    }

    /** A vector or list: its size, then each element in order. */
    method WriteSeq<T>(xs: seq<T>, enc: T -> Bytes)
      modifies this, fs
      ensures WroteAtCursor(EncodeSeq(xs, enc))
    {
      ghost var before, at := fs.files, pos;
      WriteFixed(|xs|, WORD);
      ghost var written := EncodeU64(|xs|);
      assert xs[..0] == [];
      for i := 0 to |xs|
        invariant written == EncodeU64(|xs|) + EncodeItems(xs[..i], enc)
        invariant fs.files == AfterWrite(before, path, at, written)
        invariant pos == at + |written|
      {
        WriteWith(xs[i], enc);
        AfterWriteCompose(before, path, at, written, enc(xs[i]));
        EncodeItemsSnoc(xs[..i], xs[i], enc);
        assert xs[..i + 1] == xs[..i] + [xs[i]];
        written := written + enc(xs[i]);
      }
      assert xs[..|xs|] == xs;
    }

    /** A wrapped value is written exactly as its underlying value. */
    method WriteWrapped<T(==)>(w: StrongTypedef<T>, enc: T -> Bytes)
      modifies this, fs
      ensures WroteAtCursor(enc(w.value))
    {
      WriteWith(w.GetUnderlying(), enc);
    }
  }

  lemma PrependNothing<T>(r: Option<(seq<T>, nat)>)
    ensures PrependItems([], r) == r
  {
    if r.Some? {
      assert [] + r.value.0 == r.value.0;
    }
  }

  /** Reading no items reads nothing and stays put. */
  lemma ReadItemsZero<T>(data: Bytes, at: nat, dec: (Bytes, nat) -> Option<(T, nat)>)
    ensures ReadItems(data, at, 0, dec) == Some(([], at))
  {
  }

  /** Reading `n` items is reading the first one and then `n - 1` more after it. */
  lemma ReadItemsStep<T>(data: Bytes, at: nat, n: nat, dec: (Bytes, nat) -> Option<(T, nat)>)
    requires n >= 1
    ensures dec(data, at).None? ==> ReadItems(data, at, n, dec) == None
    ensures dec(data, at).Some? ==>
              ReadItems(data, at, n, dec)
              == PrependItems([dec(data, at).value.0], ReadItems(data, dec(data, at).value.1, n - 1, dec))
  {
  }

  lemma PrependTwice<T>(a: seq<T>, b: seq<T>, r: Option<(seq<T>, nat)>)
    ensures PrependItems(a, PrependItems(b, r)) == PrependItems(a + b, r)
  {
    if r.Some? {
      assert a + (b + r.value.0) == (a + b) + r.value.0;
    }
  }

  lemma {:induction false} EncodeItemsSnoc<T>(xs: seq<T>, x: T, enc: T -> Bytes)
    ensures EncodeItems(xs + [x], enc) == EncodeItems(xs, enc) + enc(x)
    decreases |xs|
  {
    if xs == [] {
      assert [x][1..] == [];
    } else {
      assert (xs + [x])[1..] == xs[1..] + [x];
      EncodeItemsSnoc(xs[1..], x, enc);
    }
  }
}
