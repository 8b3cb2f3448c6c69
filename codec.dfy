/** Byte layouts written and read by the binary streams: fixed-width integers in
    little-endian two's complement, booleans, length-prefixed strings, counted sequences,
    optionals and time points. Every encoder is a function to bytes and every decoder a
    function of `(bytes, cursor)` that yields the value and the cursor after it, or `None`
    when the bytes run out. */
module Codec {
  import opened Wrappers

  newtype byte = x: int | 0 <= x < 256

  type Bytes = seq<byte>

  /** `sizeof(size_t)`, `sizeof(uint64_t)` and `sizeof(int64_t)`. */
  const WORD: nat := 8

  const U64_LIMIT: nat := 0x1_0000_0000_0000_0000

  predicate IsU64(n: int) { 0 <= n < U64_LIMIT }

  predicate IsI64(n: int) { -(U64_LIMIT as int) / 2 <= n < U64_LIMIT / 2 }

  /** Number of distinct values of a `width`-byte integer. */
  function Pow256(width: nat): (r: nat)
    ensures r >= 1
  {
    if width == 0 then 1 else 256 * Pow256(width - 1)
  }

  lemma Pow256Word()
    ensures Pow256(WORD) == U64_LIMIT
  {
    assert Pow256(1) == 256;
    assert Pow256(2) == 0x1_0000;
    assert Pow256(4) == 0x1_0000_0000 by {
      assert Pow256(3) == 0x100_0000;
    }
    assert Pow256(6) == 0x1_0000_0000_0000 by {
      assert Pow256(5) == 0x100_0000_0000;
    }
    assert Pow256(7) == 0x100_0000_0000_0000;
  }

  /** `b` occurs in `data` starting at `pos`. */
  predicate IsPrefixAt(data: Bytes, pos: nat, b: Bytes) {
    pos + |b| <= |data| && forall i | 0 <= i < |b| :: data[pos + i] == b[i]
  }

  /** The same, as a slice. */
  lemma PrefixAtSlice(data: Bytes, pos: nat, b: Bytes)
    ensures IsPrefixAt(data, pos, b) <==> pos + |b| <= |data| && data[pos..pos + |b|] == b
  {
    if pos + |b| <= |data| && data[pos..pos + |b|] == b {
      forall i | 0 <= i < |b|
        ensures data[pos + i] == b[i]
      {
        assert data[pos + i] == data[pos..pos + |b|][i];
      }
    }
  }

  lemma PrefixAtConcat(data: Bytes, pos: nat, a: Bytes, b: Bytes)
    requires IsPrefixAt(data, pos, a + b)
    ensures IsPrefixAt(data, pos, a) && IsPrefixAt(data, pos + |a|, b)
  {
    forall i | 0 <= i < |a|
      ensures data[pos + i] == a[i]
    {
      assert (a + b)[i] == a[i];
    }
    forall i | 0 <= i < |b|
      ensures data[pos + |a| + i] == b[i]
    {
      assert (a + b)[|a| + i] == b[i];
    }
  }

  // ---------------------------------------------------------------- fixed width

  lemma {:induction false} MulAtLeast(m: int, d: int)
    requires m > 0 && d >= 1
    ensures m * d >= m
    decreases d
  {
    if d > 1 {
      MulAtLeast(m, d - 1);
      assert m * d == m * (d - 1) + m;
    }
  }

  lemma OnlyZeroMultipleBelow(m: int, d: int)
    requires m > 0 && -m < m * d < m
    ensures d == 0
  {
    if d >= 1 {
      MulAtLeast(m, d);
    } else if d <= -1 {
      MulAtLeast(m, -d);
    }
  }

  lemma ModUnique(v: int, m: int, k: int, t: int)
    requires m > 0 && v == m * k + t && 0 <= t < m
    ensures v % m == t && v / m == k
  {
    var d := k - v / m;
    assert m * d == v % m - t;
    OnlyZeroMultipleBelow(m, d);
  }

  lemma ModSplit(v: int, p: nat)
    requires p >= 1
    ensures v % (256 * p) == v % 256 + 256 * ((v / 256) % p)
    ensures v / (256 * p) == (v / 256) / p
  {
    var q, r := v / 256, v % 256;
    var a, b := q / p, q % p;
    assert v == 256 * q + r;
    assert q == p * a + b;
    assert v == (256 * p) * a + (256 * b + r) by {
      assert 256 * q == 256 * (p * a) + 256 * b;
    }
    assert 256 * b + r < 256 * p by {
      assert b <= p - 1;
      assert 256 * b <= 256 * (p - 1);
    }
    ModUnique(v, 256 * p, a, 256 * b + r);
  }

  /** The low `width` bytes of `v` in two's complement, least significant first: what
      writing an arithmetic value of `width` bytes stores, whatever its signedness. */
  function EncodeFixed(v: int, width: nat): (r: Bytes)
    ensures |r| == width
    decreases width
  {
    seq(width, i requires 0 <= i < width => ((v / Pow256(i)) % 256) as byte)
  }

  /** The first stored byte is the lowest; the rest store `v / 256` in one byte less. */
  lemma EncodeFixedStep(v: int, width: nat)
    requires width > 0
    ensures EncodeFixed(v, width) == [(v % 256) as byte] + EncodeFixed(v / 256, width - 1)
  {
    var e, rest := EncodeFixed(v, width), EncodeFixed(v / 256, width - 1);
    forall i | 1 <= i < width
      ensures e[i] == rest[i - 1]
    {
      ModSplit(v, Pow256(i - 1));
    }
    assert e == [e[0]] + e[1..];
  }

  /** The unsigned value of little-endian bytes. */
  function DecodeUnsigned(s: Bytes): nat {
    if s == [] then 0 else s[0] as nat + 256 * DecodeUnsigned(s[1..])
  }

  /** `width` bytes hold fewer than 256^width unsigned values. */
  lemma {:induction false} DecodeUnsignedBound(s: Bytes)
    ensures DecodeUnsigned(s) < Pow256(|s|)
  {
    if s != [] {
      var rest := DecodeUnsigned(s[1..]);
      DecodeUnsignedBound(s[1..]);
      assert 256 * rest <= 256 * (Pow256(|s| - 1) - 1);
    }
  }

  /** The two's complement value of little-endian bytes. */
  function DecodeSigned(s: Bytes): int
    requires |s| > 0
  {
    var u := DecodeUnsigned(s);
    if u >= Pow256(|s|) / 2 then u - Pow256(|s|) else u
  }

  /** A signed value of `width` bytes lies in [-256^width / 2, 256^width / 2). */
  lemma DecodeSignedBound(s: Bytes)
    requires |s| > 0
    ensures -(Pow256(|s|) as int) / 2 <= DecodeSigned(s) < Pow256(|s|) / 2
  {
    DecodeUnsignedBound(s);
  }

  /** Decoding the stored bytes gives back the value modulo 256^width. */
  lemma {:induction false} DecodeEncodeFixed(v: int, width: nat)
    ensures DecodeUnsigned(EncodeFixed(v, width)) == v % Pow256(width)
    decreases width
  {
    if width > 0 {
      EncodeFixedStep(v, width);
      assert EncodeFixed(v, width)[1..] == EncodeFixed(v / 256, width - 1);
      DecodeEncodeFixed(v / 256, width - 1);
      ModSplit(v, Pow256(width - 1));
    }
  }

  /** Every byte string is the encoding of its own value: the layout is a bijection. */
  lemma {:induction false} EncodeDecodeFixed(s: Bytes)
    ensures EncodeFixed(DecodeUnsigned(s), |s|) == s
  {
    if s != [] {
      var n := DecodeUnsigned(s);
      var rest := DecodeUnsigned(s[1..]);
      ModUnique(n, 256, rest, s[0] as int);
      EncodeDecodeFixed(s[1..]);
      EncodeFixedStep(n, |s|);
      assert EncodeFixed(n, |s|) == [s[0]] + s[1..];
    }
  }

  lemma UnsignedRoundTrip(n: nat, width: nat)
    requires n < Pow256(width)
    ensures DecodeUnsigned(EncodeFixed(n, width)) == n
  {
    DecodeEncodeFixed(n, width);
    ModUnique(n, Pow256(width), 0, n);
  }

  lemma SignedRoundTrip(t: int, width: nat)
    requires width > 0
    requires -(Pow256(width) as int) / 2 <= t < Pow256(width) / 2
    ensures DecodeSigned(EncodeFixed(t, width)) == t
  {
    var p := Pow256(width);
    assert p == 256 * Pow256(width - 1);
    DecodeEncodeFixed(t, width);
    if t < 0 {
      ModUnique(t, p, -1, t + p);
    } else {
      ModUnique(t, p, 0, t);
    }
  }

  // ---------------------------------------------------------------- cursor decoders

  /** Reads an unsigned `width`-byte value at `pos`. */
  function ReadUnsigned(data: Bytes, pos: nat, width: nat): (r: Option<(nat, nat)>)
    ensures r.Some? <==> pos + width <= |data|
    ensures r.Some? ==> r.value.1 == pos + width
  {
    if pos + width <= |data| then Some((DecodeUnsigned(data[pos..pos + width]), pos + width))
    else None
  }

  /** Reads a signed `width`-byte value at `pos`. */
  function ReadSigned(data: Bytes, pos: nat, width: nat): (r: Option<(int, nat)>)
    requires width > 0
    ensures r.Some? <==> pos + width <= |data|
    ensures r.Some? ==> r.value.1 == pos + width
  {
    if pos + width <= |data| then Some((DecodeSigned(data[pos..pos + width]), pos + width))
    else None
  }

  /** Writing `n` in `width` bytes and reading them back yields `n`, for every value the
      type can hold. */
  lemma ReadUnsignedRoundTrip(n: nat, width: nat, data: Bytes, pos: nat)
    requires n < Pow256(width)
    requires IsPrefixAt(data, pos, EncodeFixed(n, width))
    ensures ReadUnsigned(data, pos, width) == Some((n, pos + width))
  {
    PrefixAtSlice(data, pos, EncodeFixed(n, width));
    UnsignedRoundTrip(n, width);
  }

  lemma ReadSignedRoundTrip(t: int, width: nat, data: Bytes, pos: nat)
    requires width > 0
    requires -(Pow256(width) as int) / 2 <= t < Pow256(width) / 2
    requires IsPrefixAt(data, pos, EncodeFixed(t, width))
    ensures ReadSigned(data, pos, width) == Some((t, pos + width))
  {
    PrefixAtSlice(data, pos, EncodeFixed(t, width));
    SignedRoundTrip(t, width);
  }

  function EncodeU64(n: int): (r: Bytes)
    ensures |r| == WORD
  {
    EncodeFixed(n, WORD)
  }

  function ReadU64(data: Bytes, pos: nat): (r: Option<(nat, nat)>)
    ensures r.Some? <==> pos + WORD <= |data|
    ensures r.Some? ==> r.value.1 == pos + WORD
  {
    ReadUnsigned(data, pos, WORD)
  }

  /** Whatever is read fits an unsigned 64-bit integer. */
  lemma ReadU64Bound(data: Bytes, pos: nat)
    requires pos + WORD <= |data|
    ensures IsU64(ReadU64(data, pos).value.0)
  {
    Pow256Word();
    DecodeUnsignedBound(data[pos..pos + WORD]);
  }

  lemma ReadU64RoundTrip(n: nat, data: Bytes, pos: nat)
    requires IsU64(n)
    requires IsPrefixAt(data, pos, EncodeU64(n))
    ensures ReadU64(data, pos) == Some((n, pos + WORD))
  {
    Pow256Word();
    ReadUnsignedRoundTrip(n, WORD, data, pos);
  }

  function EncodeI64(t: int): Bytes { EncodeFixed(t, WORD) }

  function ReadI64(data: Bytes, pos: nat): (r: Option<(int, nat)>)
    ensures r.Some? <==> pos + WORD <= |data|
    ensures r.Some? ==> r.value.1 == pos + WORD
  {
    ReadSigned(data, pos, WORD)
  }

  /** Whatever is read fits a signed 64-bit integer. */
  lemma ReadI64Bound(data: Bytes, pos: nat)
    requires pos + WORD <= |data|
    ensures IsI64(ReadI64(data, pos).value.0)
  {
    Pow256Word();
    DecodeSignedBound(data[pos..pos + WORD]);
  }

  lemma ReadI64RoundTrip(t: int, data: Bytes, pos: nat)
    requires IsI64(t)
    requires IsPrefixAt(data, pos, EncodeI64(t))
    ensures ReadI64(data, pos) == Some((t, pos + WORD))
  {
    Pow256Word();
    ReadSignedRoundTrip(t, WORD, data, pos);
  }

  /** A `bool` occupies one byte: 1 for true, 0 for false. */
  function EncodeBool(b: bool): (r: Bytes)
    ensures |r| == 1
  {
    [if b then 1 else 0]
  }

  function ReadBool(data: Bytes, pos: nat): (r: Option<(bool, nat)>)
    ensures r.Some? <==> pos < |data|
    ensures r.Some? ==> r.value.1 == pos + 1 && (r.value.0 <==> data[pos] != 0)
  {
    if pos < |data| then Some((data[pos] != 0, pos + 1)) else None
  }

  lemma ReadBoolRoundTrip(b: bool, data: Bytes, pos: nat)
    requires IsPrefixAt(data, pos, EncodeBool(b))
    ensures ReadBool(data, pos) == Some((b, pos + 1))
  {
    assert data[pos + 0] == EncodeBool(b)[0];
  }

  /** A time point is its signed 64-bit count of nanoseconds since the epoch. */
  function EncodeTime(nanos: int): Bytes { EncodeI64(nanos) }

  function ReadTime(data: Bytes, pos: nat): (r: Option<(int, nat)>)
    ensures r.Some? <==> pos + WORD <= |data|
  {
    ReadI64(data, pos)
  }

  lemma ReadTimeRoundTrip(nanos: int, data: Bytes, pos: nat)
    requires IsI64(nanos)
    requires IsPrefixAt(data, pos, EncodeTime(nanos))
    ensures ReadTime(data, pos) == Some((nanos, pos + WORD))
  {
    ReadI64RoundTrip(nanos, data, pos);
  }

  // ---------------------------------------------------------------- strings

  /** A string is its 8-byte length followed by exactly that many raw bytes. */
  function EncodeString(s: Bytes): (r: Bytes)
    ensures |r| == WORD + |s|
    ensures r[WORD..] == s
  {
    EncodeU64(|s|) + s
  }

  /** Reads the 8-byte count, then exactly that many bytes. */
  function ReadString(data: Bytes, pos: nat): (r: Option<(Bytes, nat)>)
    ensures r.Some? <==> pos + WORD <= |data| && pos + WORD + ReadU64(data, pos).value.0 <= |data|
    ensures r.Some? ==> r.value.1 == pos + WORD + |r.value.0|
  {
    var (count, start) :- ReadU64(data, pos);
    if start + count <= |data| then Some((data[start..start + count], start + count)) else None
  }

  lemma ReadStringRoundTrip(s: Bytes, data: Bytes, pos: nat)
    requires IsU64(|s|)
    requires IsPrefixAt(data, pos, EncodeString(s))
    ensures ReadString(data, pos) == Some((s, pos + WORD + |s|))
  {
    PrefixAtSlice(data, pos + WORD, s);
    PrefixAtConcat(data, pos, EncodeU64(|s|), s);
    ReadU64RoundTrip(|s|, data, pos);
  }

  // ---------------------------------------------------------------- generic codecs

  /** `dec` reads back every valid value `enc` writes, wherever it is written. */
  ghost predicate Inverts<T(!new)>(valid: T -> bool, enc: T -> Bytes, dec: (Bytes, nat) -> Option<(T, nat)>) {
    forall x: T, data: Bytes, pos: nat ::
      valid(x) && IsPrefixAt(data, pos, enc(x)) ==> dec(data, pos) == Some((x, pos + |enc(x)|))
  }

  /** An optional is a one-byte `has_value` flag, followed by the value when present. */
  function EncodeOptional<T>(o: Option<T>, enc: T -> Bytes): (r: Bytes)
    ensures |r| == 1 + (if o.Some? then |enc(o.value)| else 0)
  {
    EncodeBool(o.Some?) + (if o.Some? then enc(o.value) else [])
  }

  /** Reads an optional into a destination that already holds `prior`. A false flag writes
      nothing, so the destination keeps `prior`. */
  function ReadOptionalInto<T>(data: Bytes, pos: nat, prior: Option<T>,
                               dec: (Bytes, nat) -> Option<(T, nat)>): (r: Option<(Option<T>, nat)>)
  {
    var (present, next) :- ReadBool(data, pos);
    if !present then Some((prior, next))
    else
      var (v, after) :- dec(data, next);
      Some((Some(v), after))
  }

  /** With a false flag the destination is untouched whatever it held. */
  lemma ReadOptionalKeepsPrior<T>(data: Bytes, pos: nat, prior: Option<T>,
                                  dec: (Bytes, nat) -> Option<(T, nat)>)
    requires pos < |data| && data[pos] == 0
    ensures ReadOptionalInto(data, pos, prior, dec) == Some((prior, pos + 1))
  {
  }

  /** An optional round-trips; an empty one leaves the destination's prior value, which is
      `None` for a freshly constructed destination. */
  lemma ReadOptionalRoundTrip<T(!new)>(o: Option<T>, valid: T -> bool, enc: T -> Bytes,
                                 dec: (Bytes, nat) -> Option<(T, nat)>,
                                 data: Bytes, pos: nat, prior: Option<T>)
    requires Inverts(valid, enc, dec)
    requires o.Some? ==> valid(o.value)
    requires IsPrefixAt(data, pos, EncodeOptional(o, enc))
    ensures ReadOptionalInto(data, pos, prior, dec)
         == Some((if o.Some? then o else prior, pos + |EncodeOptional(o, enc)|))
  {
    var tail := if o.Some? then enc(o.value) else [];
    PrefixAtConcat(data, pos, EncodeBool(o.Some?), tail);
    ReadBoolRoundTrip(o.Some?, data, pos);
  }

  /** The elements of a sequence, each encoded in turn. */
  function EncodeItems<T>(xs: seq<T>, enc: T -> Bytes): Bytes
  {
    if xs == [] then [] else enc(xs[0]) + EncodeItems(xs[1..], enc)
  }

  /** A vector or list is its 8-byte element count followed by each element in order. */
  function EncodeSeq<T>(xs: seq<T>, enc: T -> Bytes): (r: Bytes)
    ensures |r| >= WORD && r[..WORD] == EncodeU64(|xs|)
  {
    EncodeU64(|xs|) + EncodeItems(xs, enc)
  }

  /** Reads `count` elements one after the other. */
  function ReadItems<T>(data: Bytes, pos: nat, count: nat,
                        dec: (Bytes, nat) -> Option<(T, nat)>): (r: Option<(seq<T>, nat)>)
    ensures r.Some? ==> |r.value.0| == count
    decreases count
  {
    if count == 0 then Some(([], pos))
    else
      var (x, next) :- dec(data, pos);
      var (xs, after) :- ReadItems(data, next, count - 1, dec);
      Some(([x] + xs, after))
  }

  function ReadSeq<T>(data: Bytes, pos: nat, dec: (Bytes, nat) -> Option<(T, nat)>): (r: Option<(seq<T>, nat)>)
    ensures r.Some? ==> pos + WORD <= |data| && |r.value.0| == ReadU64(data, pos).value.0
  {
    var (count, next) :- ReadU64(data, pos);
    ReadItems(data, next, count, dec)
  }

  lemma {:induction false} ReadItemsRoundTrip<T(!new)>(xs: seq<T>, valid: T -> bool, enc: T -> Bytes,
                                                 dec: (Bytes, nat) -> Option<(T, nat)>,
                                                 data: Bytes, pos: nat)
    requires Inverts(valid, enc, dec)
    requires forall i :: 0 <= i < |xs| ==> valid(xs[i])
    requires IsPrefixAt(data, pos, EncodeItems(xs, enc))
    ensures ReadItems(data, pos, |xs|, dec) == Some((xs, pos + |EncodeItems(xs, enc)|))
    decreases |xs|
  {
    if xs != [] {
      PrefixAtConcat(data, pos, enc(xs[0]), EncodeItems(xs[1..], enc));
      assert dec(data, pos) == Some((xs[0], pos + |enc(xs[0])|));
      ReadItemsRoundTrip(xs[1..], valid, enc, dec, data, pos + |enc(xs[0])|);
      assert [xs[0]] + xs[1..] == xs;
    }
  }

  /** A vector or list of valid elements reads back as an equal sequence. */
  lemma ReadSeqRoundTrip<T(!new)>(xs: seq<T>, valid: T -> bool, enc: T -> Bytes,
                            dec: (Bytes, nat) -> Option<(T, nat)>, data: Bytes, pos: nat)
    requires Inverts(valid, enc, dec)
    requires IsU64(|xs|)
    requires forall i :: 0 <= i < |xs| ==> valid(xs[i])
    requires IsPrefixAt(data, pos, EncodeSeq(xs, enc))
    ensures ReadSeq(data, pos, dec) == Some((xs, pos + |EncodeSeq(xs, enc)|))
  {
    PrefixAtConcat(data, pos, EncodeU64(|xs|), EncodeItems(xs, enc));
    ReadU64RoundTrip(|xs|, data, pos);
    ReadItemsRoundTrip(xs, valid, enc, dec, data, pos + WORD);
  }
}
