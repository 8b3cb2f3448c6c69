/** Decimal text of integers (`std::to_string`) and the numeric parsers `std::stol` and
    `std::stoul` in base 10, shared by the formatter, the page-file naming and the
    request-parameter parsers. */
module Numbers {
  import opened Wrappers
  import opened Errors

  const TWO_TO_THE_63: nat := 0x8000_0000_0000_0000
  const TWO_TO_THE_64: nat := 0x1_0000_0000_0000_0000

  predicate IsDigit(c: char) { '0' <= c <= '9' }

  predicate AllDigits(s: string) { forall i :: 0 <= i < |s| ==> IsDigit(s[i]) }

  /** The characters `isspace` accepts in the "C" locale. */
  predicate IsSpace(c: char) { c == ' ' || 9 <= c as int <= 13 }

  function DigitValue(c: char): (d: nat)
    requires IsDigit(c)
    ensures d < 10
  {
    c as int - '0' as int
  }

  function DigitChar(d: nat): (c: char)
    requires d < 10
    ensures IsDigit(c) && DigitValue(c) == d
  {
    ('0' as int + d) as char
  }

  /** Decimal text of `n`, most significant digit first. */
  function NatToString(n: nat): (s: string)
    ensures |s| >= 1 && AllDigits(s)
    ensures s[0] == '0' ==> n == 0
  {
    if n < 10 then [DigitChar(n)] else NatToString(n / 10) + [DigitChar(n % 10)]
  }

  /** Decimal text of a signed value: a minus sign for negative values. */
  function IntToString(i: int): (s: string)
    ensures |s| >= 1
    ensures s[0] == '-' <==> i < 0
  {
    if i < 0 then "-" + NatToString(-i) else NatToString(i)
  }

  /** The number a string of decimal digits denotes. */
  function DigitsValue(s: string): nat
    requires AllDigits(s)
  {
    if s == [] then 0 else DigitsValue(s[..|s| - 1]) * 10 + DigitValue(s[|s| - 1])
  }

  lemma {:induction false} DigitsValueOfNatToString(n: nat)
    ensures DigitsValue(NatToString(n)) == n
  {
    if n >= 10 {
      var s := NatToString(n);
      assert s[..|s| - 1] == NatToString(n / 10);
      DigitsValueOfNatToString(n / 10);
    }
  }

  lemma NatToStringInjective(a: nat, b: nat)
    requires NatToString(a) == NatToString(b)
    ensures a == b
  {
    DigitsValueOfNatToString(a);
    DigitsValueOfNatToString(b);
  }

  /** End of the run of decimal digits that starts at `i`. */
  function DigitRunEnd(s: string, i: nat): (j: nat)
    requires i <= |s|
    ensures i <= j <= |s|
    ensures AllDigits(s[i..j])
    ensures j < |s| ==> !IsDigit(s[j])
    decreases |s| - i
  {
    if i < |s| && IsDigit(s[i]) then DigitRunEnd(s, i + 1) else i
  }

  /** First index at or after `i` that is not white space. */
  function SkipSpaces(s: string, i: nat): (j: nat)
    requires i <= |s|
    ensures i <= j <= |s|
    ensures j < |s| ==> !IsSpace(s[j])
    ensures forall k :: i <= k < j ==> IsSpace(s[k])
    decreases |s| - i
  {
    if i < |s| && IsSpace(s[i]) then SkipSpaces(s, i + 1) else i
  }

  /** What `strtol`/`strtoul` recognise in base 10: the sign and the magnitude. */
  datatype Numeral = Numeral(negative: bool, magnitude: nat)

  /** Leading white space, an optional sign, then at least one digit; anything after the
      digits is ignored. `None` means that no conversion could be performed. */
  function ScanNumeral(s: string): (r: Option<Numeral>)
    ensures r.None? <==> var i := SkipSpaces(s, 0);
                         var j := if i < |s| && (s[i] == '-' || s[i] == '+') then i + 1 else i;
                         !(j < |s| && IsDigit(s[j]))
  {
    var i := SkipSpaces(s, 0);
    var negative := i < |s| && s[i] == '-';
    var j := if i < |s| && (s[i] == '-' || s[i] == '+') then i + 1 else i;
    var k := DigitRunEnd(s, j);
    if k == j then None else Some(Numeral(negative, DigitsValue(s[j..k])))
  }

  /** `std::stol`: a 64-bit signed result, `invalid_argument` when nothing converts and
      `out_of_range` when the value does not fit. */
  function Stol(s: string): (r: Result<int, Error>)
    ensures r.Success? ==> -(TWO_TO_THE_63 as int) <= r.value < TWO_TO_THE_63
    ensures r.Failure? ==> IsLogicError(r.error)
    ensures ScanNumeral(s).None? <==> r == Failure(InvalidArgument)
  {
    match ScanNumeral(s)
    case None => Failure(InvalidArgument)
    case Some(Numeral(negative, m)) =>
      if negative then (if m > TWO_TO_THE_63 then Failure(OutOfRange) else Success(-(m as int)))
      else (if m >= TWO_TO_THE_63 then Failure(OutOfRange) else Success(m))
  }

  /** `std::stoul`: a 64-bit unsigned result. A negated magnitude wraps modulo 2^64, as
      `strtoul` does, and only a magnitude of 2^64 or more is out of range. */
  function Stoul(s: string): (r: Result<nat, Error>)
    ensures r.Success? ==> r.value < TWO_TO_THE_64
    ensures r.Failure? ==> IsLogicError(r.error)
    ensures ScanNumeral(s).None? <==> r == Failure(InvalidArgument)
  {
    match ScanNumeral(s)
    case None => Failure(InvalidArgument)
    case Some(Numeral(negative, m)) =>
      if m >= TWO_TO_THE_64 then Failure(OutOfRange)
      else if negative then Success((TWO_TO_THE_64 - m) % TWO_TO_THE_64)
      else Success(m)
  }

  lemma {:induction false} DigitRunEndOfDigits(d: string, rest: string, i: nat)
    requires AllDigits(d) && i <= |d|
    requires rest == [] || !IsDigit(rest[0])
    ensures DigitRunEnd(d + rest, i) == |d|
    decreases |d| - i
  {
    var s := d + rest;
    if i < |d| {
      assert s[i] == d[i];
      DigitRunEndOfDigits(d, rest, i + 1);
    } else if i < |s| {
      assert s[i] == rest[0];
    }
  }

  /** The decimal text of `n`, followed by anything that does not start with a digit, scans
      back to `n`. */
  lemma ScanNatToString(n: nat, rest: string)
    requires rest == [] || !IsDigit(rest[0])
    ensures ScanNumeral(NatToString(n) + rest) == Some(Numeral(false, n))
  {
    var d := NatToString(n);
    var s := d + rest;
    assert s[0] == d[0];
    assert SkipSpaces(s, 0) == 0;
    DigitRunEndOfDigits(d, rest, 0);
    assert s[0..|d|] == d;
    DigitsValueOfNatToString(n);
  }

  lemma StolOfNatToString(n: nat, rest: string)
    requires n < TWO_TO_THE_63
    requires rest == [] || !IsDigit(rest[0])
    ensures Stol(NatToString(n) + rest) == Success(n)
  {
    ScanNatToString(n, rest);
  }

  lemma StoulOfNatToString(n: nat, rest: string)
    requires n < TWO_TO_THE_64
    requires rest == [] || !IsDigit(rest[0])
    ensures Stoul(NatToString(n) + rest) == Success(n)
  {
    ScanNatToString(n, rest);
  }
}
