/** `common::format`: `ToString` of the argument kinds the services pass, `Format`, which
    substitutes `{}` placeholders left to right, and `ShrinkString`, which cuts long log
    lines. */
module Formatting {
  import opened Wrappers
  import opened Errors
  import opened Numbers
  import opened Text

  const PLACEHOLDER: string := "{}"
  const NOT_ENOUGH_ARGUMENTS: string := "not enough arguments in Format() call"
  const EXTRA_ARGUMENTS: string := "extra arguments in Format() call"

  /** An argument of `Format`, by the `ToString` overload it selects. A `char` is an
      integral value (its code). */
  datatype Arg =
    | Boolean(b: bool)
    | Integral(value: int)
    | Str(s: string)
    /** A `StrongTypedef`, printed as its underlying value. */
    | Wrapped(underlying: Arg)

  /** `ToString`: booleans as words, integral values in decimal (`std::to_string`), strings
      unchanged, a wrapper as what it wraps. */
  function ToString(a: Arg): string {
    match a
    case Boolean(b) => if b then "true" else "false"
    case Integral(v) => IntToString(v)
    case Str(s) => s
    case Wrapped(u) => ToString(u)
  }

  /** The text of a non-negative integral argument parses back to its value. */
  lemma IntegralToStringRoundTrip(v: nat)
    requires v < TWO_TO_THE_63
    ensures Stol(ToString(Integral(v))) == Success(v)
    ensures Stol(ToString(Wrapped(Integral(v)))) == Success(v)
  {
    assert NatToString(v) + [] == NatToString(v);
    StolOfNatToString(v, []);
  }

  /** A `char` goes through `std::to_string` as its code, and booleans print as words. */
  lemma ToStringExamples()
    ensures ToString(Integral('a' as int)) == "97"
    ensures ToString(Boolean(true)) == "true" && ToString(Boolean(false)) == "false"
  {
    assert NatToString(97) == NatToString(9) + [DigitChar(7)];
  }

  // ------------------------------------------------------------ Format

  /** `impl::FormatImpl`: replace the first `{}` at or after `lastPos` by the next argument's
      text and continue after the inserted text; with no argument left, any further `{}` is
      an error, and so is an argument left without a `{}`. */
  function FormatImpl(lastPos: nat, format: string, args: seq<Arg>): Result<string, Error>
    decreases |args|
  {
    var found := FindSub(format, PLACEHOLDER, lastPos);
    if args == [] then
      if found.Some? then Failure(LogicError(NOT_ENOUGH_ARGUMENTS)) else Success(format)
    else if found.None? then Failure(LogicError(EXTRA_ARGUMENTS))
    else
      var i := found.value;
      var replacement := ToString(args[0]);
      FormatImpl(i + |replacement|, format[..i] + replacement + format[i + |PLACEHOLDER|..], args[1..])
  }

  function Format(format: string, args: seq<Arg>): Result<string, Error> {
    FormatImpl(0, format, args)
  }

  /** `s` holds no placeholder. */
  predicate Free(s: string) {
    forall j :: 0 <= j < |s| ==> !OccursAt(s, PLACEHOLDER, j)
  }

  /** The literal pieces of a format string: the text between consecutive placeholders,
      each placeholder taken at the leftmost position. */
  function Split(s: string): (r: seq<string>)
    ensures |r| >= 1
    decreases |s|
  {
    match FindSub(s, PLACEHOLDER, 0)
    case None => [s]
    case Some(i) => [s[..i]] + Split(s[i + |PLACEHOLDER|..])
  }

  /** The pieces put back together with a placeholder between each two. */
  function Join(pieces: seq<string>): string
    requires |pieces| >= 1
    decreases |pieces|
  {
    if |pieces| == 1 then pieces[0] else pieces[0] + PLACEHOLDER + Join(pieces[1..])
  }

  /** The pieces with each argument's text between two of them: what substituting every
      placeholder at once produces. */
  function Interleave(pieces: seq<string>, args: seq<Arg>): string
    requires |pieces| == |args| + 1
    decreases |args|
  {
    if args == [] then pieces[0] else pieces[0] + ToString(args[0]) + Interleave(pieces[1..], args[1..])
  }

  /** What `Format` must give: the substitution when there are as many placeholders as
      arguments, otherwise the error naming which side is short. */
  function Expected(pieces: seq<string>, args: seq<Arg>): Result<string, Error> {
    if |pieces| == |args| + 1 then Success(Interleave(pieces, args))
    else if |pieces| > |args| + 1 then Failure(LogicError(NOT_ENOUGH_ARGUMENTS))
    else Failure(LogicError(EXTRA_ARGUMENTS))
  }

  /** A placeholder is a `{` followed by a `}`. */
  lemma PlaceholderAt(s: string, j: nat)
    ensures OccursAt(s, PLACEHOLDER, j) <==> j + 2 <= |s| && s[j] == '{' && s[j + 1] == '}'
  {
    if j + 2 <= |s| && s[j] == '{' && s[j + 1] == '}' {
      assert s[j..j + 2] == PLACEHOLDER;
    }
  }

  /** A piece before the leftmost placeholder holds none. */
  lemma PrefixFree(s: string, i: nat)
    requires FindSub(s, PLACEHOLDER, 0) == Some(i)
    ensures Free(s[..i])
  {
    forall j: nat | OccursAt(s[..i], PLACEHOLDER, j)
      ensures false
    {
      assert s[..i][j..j + 2] == s[j..j + 2];
      assert OccursAt(s, PLACEHOLDER, j);
    }
  }

  /** A string is what stands before a placeholder in it, the placeholder, and what
      follows. */
  lemma AroundPlaceholder(s: string, i: nat)
    requires OccursAt(s, PLACEHOLDER, i)
    ensures s == s[..i] + PLACEHOLDER + s[i + 2..]
  {
    assert s[i..i + 2] == PLACEHOLDER;
    assert s == s[..i] + s[i..i + 2] + s[i + 2..];
  }

  /** Splitting loses nothing, and no piece holds a placeholder. */
  lemma {:induction false} SplitJoin(s: string)
    ensures Join(Split(s)) == s
    ensures forall k :: 0 <= k < |Split(s)| ==> Free(Split(s)[k])
    decreases |s|
  {
    match FindSub(s, PLACEHOLDER, 0)
    case None =>
    case Some(i) =>
      var rest := s[i + 2..];
      SplitJoin(rest);
      PrefixFree(s, i);
      AroundPlaceholder(s, i);
      assert Split(s)[1..] == Split(rest);
  }

  /** Behind a piece free of placeholders, the leftmost placeholder is the one that
      follows the piece. */
  lemma FirstPlaceholderAfter(p: string, rest: string)
    requires Free(p)
    ensures OccursAt(p + PLACEHOLDER + rest, PLACEHOLDER, |p|)
    ensures forall j :: 0 <= j < |p| ==> !OccursAt(p + PLACEHOLDER + rest, PLACEHOLDER, j)
  {
    var s := p + PLACEHOLDER + rest;
    assert s[|p|..|p| + 2] == PLACEHOLDER;
    forall j | 0 <= j < |p|
      ensures !OccursAt(s, PLACEHOLDER, j)
    {
      PlaceholderAt(s, j);
      assert s[j] == p[j];
      if j + 1 < |p| {
        PlaceholderAt(p, j);
        assert s[j + 1] == p[j + 1];
      } else {
        assert s[j + 1] == '{';
      }
    }
  }

  /** Pieces free of placeholders are recovered from their join. */
  lemma {:induction false} JoinSplit(pieces: seq<string>)
    requires |pieces| >= 1 && forall k :: 0 <= k < |pieces| ==> Free(pieces[k])
    ensures Split(Join(pieces)) == pieces
    decreases |pieces|
  {
    var p := pieces[0];
    if |pieces| == 1 {
      FindSubUnique(p, PLACEHOLDER, 0, None);
    } else {
      var rest := Join(pieces[1..]);
      var s := p + PLACEHOLDER + rest;
      FirstPlaceholderAfter(p, rest);
      FindSubUnique(s, PLACEHOLDER, 0, Some(|p|));
      assert s[..|p|] == p;
      assert s[|p| + 2..] == rest;
      JoinSplit(pieces[1..]);
    }
  }

  /** One substitution step of `FormatImpl`. */
  lemma FormatImplStep(lastPos: nat, format: string, args: seq<Arg>, i: nat)
    requires args != [] && FindSub(format, PLACEHOLDER, lastPos) == Some(i)
    ensures FormatImpl(lastPos, format, args)
         == FormatImpl(i + |ToString(args[0])|, format[..i] + ToString(args[0]) + format[i + 2..], args[1..])
  {
    hide ToString, FindSub;
    assert |PLACEHOLDER| == 2;
  }

  /** Where `FormatImpl` stops: no argument left, or no placeholder left for one. */
  lemma FormatImplStop(lastPos: nat, format: string, args: seq<Arg>)
    requires args == [] || FindSub(format, PLACEHOLDER, lastPos).None?
    ensures FormatImpl(lastPos, format, args)
         == if args != [] then Failure(LogicError(EXTRA_ARGUMENTS))
            else if FindSub(format, PLACEHOLDER, lastPos).Some? then Failure(LogicError(NOT_ENOUGH_ARGUMENTS))
            else Success(format)
  {
  }

  /** Replacing inside `rest` is replacing inside `done + rest`, past `done`. */
  lemma SpliceAfter(done: string, rest: string, k: nat, rep: string)
    requires k + 2 <= |rest|
    ensures (done + rest)[..|done| + k] + rep + (done + rest)[|done| + k + 2..]
         == (done + (rest[..k] + rep)) + rest[k + 2..]
  {
    var s := done + rest;
    assert s[..|done| + k] == done + rest[..k];
    assert s[|done| + k + 2..] == rest[k + 2..];
  }

  /** A result with `done` in front of its text. */
  function Prefixed(done: string, r: Result<string, Error>): Result<string, Error> {
    match r
    case Success(t) => Success(done + t)
    case Failure(e) => Failure(e)
  }

  /** Text before the search position is carried through unchanged: `FormatImpl` only
      ever works on what follows it. */
  lemma {:induction false} FormatImplShift(done: string, rest: string, args: seq<Arg>)
    ensures FormatImpl(|done|, done + rest, args) == Prefixed(done, FormatImpl(0, rest, args))
    decreases |args|
  {
    hide FormatImpl, FindSub;
    var s := done + rest;
    FindSubShift(done, rest, PLACEHOLDER, 0);
    var found := FindSub(rest, PLACEHOLDER, 0);
    if args == [] || found.None? {
      FormatImplStop(|done|, s, args);
      FormatImplStop(0, rest, args);
    } else {
      var k := found.value;
      var rep := ToString(args[0]);
      var d2 := rest[..k] + rep;
      var d1 := done + d2;
      var tail := rest[k + 2..];
      FormatImplStep(|done|, s, args, |done| + k);
      FormatImplStep(0, rest, args, k);
      SpliceAfter(done, rest, k, rep);
      FormatImplShift(d1, tail, args[1..]);
      FormatImplShift(d2, tail, args[1..]);
      match FormatImpl(0, tail, args[1..])
      case Success(t) => assert d1 + t == done + (d2 + t);
      case Failure(_) =>
    }
  }

  /** `Format` substitutes the arguments, in order, for the placeholders of the format
      string, fails with "not enough arguments" when placeholders outnumber arguments and
      with "extra arguments" when arguments outnumber placeholders. Text an argument brings
      in is never searched. */
  lemma {:induction false} FormatBySplit(format: string, args: seq<Arg>)
    ensures Format(format, args) == Expected(Split(format), args)
    decreases |args|
  {
    var found := FindSub(format, PLACEHOLDER, 0);
    if args != [] && found.Some? {
      var k := found.value;
      var rep := ToString(args[0]);
      var tail := format[k + 2..];
      assert format[..k] + rep + format[k + 2..] == (format[..k] + rep) + tail;
      FormatImplShift(format[..k] + rep, tail, args[1..]);
      FormatBySplit(tail, args[1..]);
      assert Split(format)[1..] == Split(tail);
    }
  }

  /** Substitution needs the pieces only: with pieces free of placeholders, `Format` of
      their join is the interleaving, whatever the arguments' texts contain. */
  lemma FormatJoin(pieces: seq<string>, args: seq<Arg>)
    requires |pieces| == |args| + 1 && forall k :: 0 <= k < |pieces| ==> Free(pieces[k])
    ensures Format(Join(pieces), args) == Success(Interleave(pieces, args))
  {
    JoinSplit(pieces);
    FormatBySplit(Join(pieces), args);
  }

  /** Text without an opening brace holds no placeholder. */
  lemma FreeWithoutBrace(s: string)
    requires forall j :: 0 <= j < |s| ==> s[j] != '{'
    ensures Free(s)
  {
    forall j | 0 <= j < |s|
      ensures !OccursAt(s, PLACEHOLDER, j)
    {
      PlaceholderAt(s, j);
    }
  }

  /** A message with one placeholder, the shape every error message of the services uses:
      the argument's text lands between the two literal parts, whatever it contains. */
  lemma FormatOne(prefix: string, suffix: string, a: Arg)
    requires Free(prefix) && Free(suffix)
    ensures Format(prefix + PLACEHOLDER + suffix, [a]) == Success(prefix + ToString(a) + suffix)
  {
    var pieces := [prefix, suffix];
    FormatJoin(pieces, [a]);
    assert pieces[1..] == [suffix];
    assert Join(pieces) == prefix + PLACEHOLDER + suffix;
    assert Interleave(pieces[1..], []) == suffix;
  }

  /** A format without placeholders and without arguments comes back unchanged, and a `{}`
      brought in by an argument stays in the result. */
  lemma FormatExamples()
    ensures Format("{ }", []) == Success("{ }")
    ensures Format("{}", [Str("{}")]) == Success("{}")
    ensures Format("{}", []) == Failure(LogicError(NOT_ENOUGH_ARGUMENTS))
    ensures Format("x", [Boolean(true)]) == Failure(LogicError(EXTRA_ARGUMENTS))
  {
    forall j: nat
      ensures !OccursAt("{ }", PLACEHOLDER, j) && !OccursAt("x", PLACEHOLDER, j)
    {
      PlaceholderAt("{ }", j);
      PlaceholderAt("x", j);
    }
    FindSubUnique("{ }", PLACEHOLDER, 0, None);
    FindSubUnique("x", PLACEHOLDER, 0, None);
    PlaceholderAt("{}", 0);
    assert FindSub("{}", PLACEHOLDER, 0) == Some(0);
    assert FindSub("{}", PLACEHOLDER, 2) == None;
    assert "{}"[..0] + "{}" + "{}"[2..] == "{}";
  }

  // ------------------------------------------------------------ ShrinkString

  const SHRINKED_TEMPLATE: string := "... ({} more chars)"
  /** Where `{}` sits in the template, computed at compile time in the source. */
  const SHRINKED_INDEX: nat := 5
  const DEFAULT_SHRINK_LIMIT: nat := 256
  const TWO_TO_THE_31: nat := 0x8000_0000
  const TWO_TO_THE_32: nat := 0x1_0000_0000

  lemma ShrinkedIndexIsFound()
    ensures FindSub(SHRINKED_TEMPLATE, PLACEHOLDER, 0) == Some(SHRINKED_INDEX)
  {
    assert OccursAt(SHRINKED_TEMPLATE, PLACEHOLDER, SHRINKED_INDEX);
    forall j: nat | j < SHRINKED_INDEX
      ensures !OccursAt(SHRINKED_TEMPLATE, PLACEHOLDER, j)
    {
      assert SHRINKED_TEMPLATE[j] != '{';
    }
    FindSubUnique(SHRINKED_TEMPLATE, PLACEHOLDER, 0, Some(SHRINKED_INDEX));
  }

  /** `GetShrinkedPlaceholder`: the template with its `{}` replaced by the decimal count. */
  function GetShrinkedPlaceholder(n: int): (r: string)
    ensures r == "... (" + IntToString(n) + " more chars)"
  {
    SHRINKED_TEMPLATE[..SHRINKED_INDEX] + IntToString(n) + SHRINKED_TEMPLATE[SHRINKED_INDEX + |PLACEHOLDER|..]
  }

  lemma TemplatePiecesFree()
    ensures Free("... (") && Free(" more chars)")
  {
    forall j | 0 <= j < 5
      ensures !OccursAt("... (", PLACEHOLDER, j)
    {
      PlaceholderAt("... (", j);
    }
    forall j | 0 <= j < 12
      ensures !OccursAt(" more chars)", PLACEHOLDER, j)
    {
      PlaceholderAt(" more chars)", j);
    }
  }

  /** The template is its two pieces around the placeholder. */
  lemma TemplateIsJoin()
    ensures SHRINKED_TEMPLATE == "... (" + "{}" + " more chars)"
  {
    var t := SHRINKED_TEMPLATE;
    var u := "... (" + "{}" + " more chars)";
    assert |t| == |u|;
    forall k | 0 <= k < |t|
      ensures t[k] == u[k]
    {
      if k < 5 {
      } else if k < 7 {
      } else {
      }
    }
  }

  /** The placeholder is what `Format` makes of the template and the count. */
  lemma ShrinkedPlaceholderIsFormat(n: int)
    ensures Format(SHRINKED_TEMPLATE, [Integral(n)]) == Success(GetShrinkedPlaceholder(n))
  {
    ShrinkedIndexIsFound();
    var pieces := ["... (", " more chars)"];
    assert pieces[1..] == [" more chars)"];
    assert Join(pieces[1..]) == " more chars)";
    assert Join(pieces) == "... (" + "{}" + " more chars)";
    TemplateIsJoin();
    TemplatePiecesFree();
    FormatJoin(pieces, [Integral(n)]);
  }

  /** `ShrinkString` as the source computes it: `size() - limit` in 64-bit unsigned
      arithmetic, stored in a 32-bit `int`. A positive count with `limit` past the end
      of `s` makes the copy read beyond the string, which is `None` here. */
  function ShrunkSizeAsWritten(length: nat, limit: nat): (n: int)
    ensures -(TWO_TO_THE_31 as int) <= n < TWO_TO_THE_31
  {
    var w := (length - limit) % TWO_TO_THE_64 % TWO_TO_THE_32;
    if w >= TWO_TO_THE_31 then w - TWO_TO_THE_32 else w
  }

  function ShrinkStringAsWritten(s: string, limit: nat): Option<string> {
    var n := ShrunkSizeAsWritten(|s|, limit);
    if n <= 0 then Some(s)
    else if limit > |s| then None
    else Some(s[..limit] + GetShrinkedPlaceholder(n))
  }

  /** A limit of 2^32 - 1 over an empty string wraps to a count of 1: the as-written code
      copies 2^32 - 1 characters out of an empty string. */
  lemma ShrinkStringAsWrittenReadsPastEnd()
    ensures ShrunkSizeAsWritten(0, TWO_TO_THE_32 - 1) == 1
    ensures ShrinkStringAsWritten("", TWO_TO_THE_32 - 1) == None
    ensures ShrinkString("", TWO_TO_THE_32 - 1) == ""
  {
    assert (0 - (TWO_TO_THE_32 - 1)) % TWO_TO_THE_64 == TWO_TO_THE_64 - TWO_TO_THE_32 + 1;
    assert (TWO_TO_THE_64 - TWO_TO_THE_32 + 1) % TWO_TO_THE_32 == 1;
  }

  /** A string 2^31 characters over the limit wraps to a negative count and is not
      shrunk at all. */
  lemma ShrinkStringAsWrittenKeepsLong(s: string, limit: nat)
    requires |s| == limit + TWO_TO_THE_31 && |s| < TWO_TO_THE_32
    ensures ShrinkStringAsWritten(s, limit) == Some(s) && |s| > limit
  {
    assert (|s| - limit) % TWO_TO_THE_64 == TWO_TO_THE_31;
  }

  /** `ShrinkString` as intended: a string within the limit is returned unchanged; a longer
      one is cut to its first `limit` characters followed by the count of those dropped. */
  function ShrinkString(s: string, limit: nat): (r: string)
    ensures |s| <= limit ==> r == s
    ensures |s| > limit ==> |r| == limit + |GetShrinkedPlaceholder(|s| - limit)|
    ensures |s| > limit ==> r[..limit] == s[..limit]
  {
    if |s| <= limit then s else s[..limit] + GetShrinkedPlaceholder(|s| - limit)
  }

  /** The count in a shrunk string reads back as the number of characters dropped, so the
      original length is recoverable. */
  lemma ShrinkStringReportsDropped(s: string, limit: nat)
    requires |s| > limit && |s| - limit < TWO_TO_THE_64
    ensures var r := ShrinkString(s, limit);
      |r| > limit + 5 && r[..limit + 5] == s[..limit] + "... ("
      && Stoul(r[limit + 5..]) == Success(|s| - limit)
  {
    hide ShrinkString, NatToString, Stoul;
    var head := s[..limit] + "... (";
    var count := NatToString(|s| - limit) + " more chars)";
    ShrinkStringPieces(s, limit, head, count);
    var r := ShrinkString(s, limit);
    assert |head| == limit + 5;
    assert r[..limit + 5] == head && r[limit + 5..] == count;
    CountReadsBack(|s| - limit, count);
  }

  /** The count of a placeholder, followed by the text after it, reads back as itself. */
  lemma CountReadsBack(n: nat, count: string)
    requires n < TWO_TO_THE_64 && count == NatToString(n) + " more chars)"
    ensures Stoul(count) == Success(n)
  {
    StoulOfNatToString(n, " more chars)");
  }

  /** A shrunk string is the kept prefix, the text before the count, and the count with
      the text after it. */
  lemma ShrinkStringPieces(s: string, limit: nat, head: string, count: string)
    requires |s| > limit
    requires head == s[..limit] + "... (" && count == NatToString(|s| - limit) + " more chars)"
    ensures ShrinkString(s, limit) == head + count
  {
    hide GetShrinkedPlaceholder;
    assert ShrinkString(s, limit) == s[..limit] + GetShrinkedPlaceholder(|s| - limit);
    assert IntToString(|s| - limit) == NatToString(|s| - limit);
  }

  /** Below 2^31 the as-written count is the exact difference. */
  lemma ShrunkSizeExact(length: nat, limit: nat)
    requires length < TWO_TO_THE_31 && limit < TWO_TO_THE_31
    ensures ShrunkSizeAsWritten(length, limit) == length - limit
  {
    if length < limit {
      var d := limit - length;
      assert (length - limit) % TWO_TO_THE_64 == TWO_TO_THE_64 - d;
      assert TWO_TO_THE_64 - d == (TWO_TO_THE_64 - TWO_TO_THE_32) + (TWO_TO_THE_32 - d);
      assert (TWO_TO_THE_64 - d) % TWO_TO_THE_32 == TWO_TO_THE_32 - d;
    }
  }

  /** Below 2^31 the as-written arithmetic is exact, and the two agree. */
  lemma ShrinkStringAsWrittenAgrees(s: string, limit: nat)
    requires |s| < TWO_TO_THE_31 && limit < TWO_TO_THE_31
    ensures ShrinkStringAsWritten(s, limit) == Some(ShrinkString(s, limit))
  {
    ShrunkSizeExact(|s|, limit);
  }
}
