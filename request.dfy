/** `utils::request::GetId` of the document and config services: the document or config id
    carried by the `id` query parameter of a request target. */
module Requests {
  import opened Wrappers
  import opened Errors
  import opened Numbers
  import opened HttpUtils
  import opened Algo

  const ID_PARAM: string := "id"
  const ID_NOT_FOUND: string := "Parameter 'id' not found"
  const ID_INVALID: string := "Parameter 'id' is invalid"

  /** `GetId` as written: a missing parameter and a value starting with `'-'` are refused,
      an empty value makes `at(0)` throw `out_of_range` (which nothing catches), and the rest
      goes to `std::stoul`, whose failures become a bad request. `stoul` skips leading white
      space and converts a negative numeral by wrapping it modulo 2^64. */
  function GetIdAsWritten(target: string): (r: Result<nat, Error>)
    ensures ID_PARAM !in Params(target) ==> r == Failure(BadRequest(ID_NOT_FOUND))
    ensures ID_PARAM in Params(target) && Params(target)[ID_PARAM] == [] ==> r == Failure(OutOfRange)
    ensures (ID_PARAM in Params(target) && Params(target)[ID_PARAM] != [] && Params(target)[ID_PARAM][0] == '-')
              ==> r == Failure(BadRequest(ID_INVALID))
    ensures r.Success? ==> ID_PARAM in Params(target) && Stoul(Params(target)[ID_PARAM]) == Success(r.value)
    ensures r.Success? ==> r.value < TWO_TO_THE_64
    ensures r.Failure? ==> r.error in {BadRequest(ID_NOT_FOUND), BadRequest(ID_INVALID), OutOfRange}
  {
    match GetOptional(Params(target), ID_PARAM)
    case None => Failure(BadRequest(ID_NOT_FOUND))
    case Some(id) =>
      if id == [] then Failure(OutOfRange)
      else if id[0] == '-' then Failure(BadRequest(ID_INVALID))
      else
        match Stoul(id)
        case Success(n) => Success(n)
        case Failure(_) => Failure(BadRequest(ID_INVALID))
  }

  /** `GetId` as intended: besides the cases above, any numeral with a minus sign is refused,
      wherever the sign stands after the leading white space. An accepted id is exactly the
      non-negative number the value starts with. */
  function GetId(target: string): (r: Result<nat, Error>)
    ensures ID_PARAM !in Params(target) ==> r == Failure(BadRequest(ID_NOT_FOUND))
    ensures ID_PARAM in Params(target) && Params(target)[ID_PARAM] == [] ==> r == Failure(OutOfRange)
    ensures r.Success? ==> ID_PARAM in Params(target) && ScanNumeral(Params(target)[ID_PARAM]) == Some(Numeral(false, r.value))
    ensures r.Success? ==> r.value < TWO_TO_THE_64
    ensures r.Failure? ==> r.error in {BadRequest(ID_NOT_FOUND), BadRequest(ID_INVALID), OutOfRange}
  {
    match GetIdAsWritten(target)
    case Failure(e) => Failure(e)
    case Success(n) =>
      var id := Params(target)[ID_PARAM];
      if ScanNumeral(id).value.negative then Failure(BadRequest(ID_INVALID)) else Success(n)
  }

  /** The two versions differ only on a value whose numeral carries a minus sign. */
  lemma GetIdDiffersOnlyOnNegatives(target: string)
    ensures GetIdAsWritten(target) != GetId(target) ==>
              (ID_PARAM in Params(target) && ScanNumeral(Params(target)[ID_PARAM]).Some?
              && ScanNumeral(Params(target)[ID_PARAM]).value.negative)
  {
  }

  /** A target whose whole query is `id=<value>` carries exactly that parameter. */
  lemma ParamsOfIdQuery(path: string, value: string)
    requires PREFIX !in path && DELIMITER !in value
    ensures Params(path + [PREFIX] + ID_PARAM + [EQUAL] + value) == map[ID_PARAM := value]
  {
    var pairs := [(ID_PARAM, value)];
    ParamsOfQuery(path, pairs);
    QueryStep(pairs);
    ToMapSnoc([], pairs[0]);
    assert [] + [pairs[0]] == pairs;
    assert path + [PREFIX] + ID_PARAM + [EQUAL] + value == path + [PREFIX] + Query(pairs);
  }

  /** A target whose query is `id=<n>` in decimal, for any `n` that fits in 64 bits, yields
      `n`: the id round-trips through the request target. */
  lemma GetIdOfTarget(path: string, n: nat)
    requires PREFIX !in path && n < TWO_TO_THE_64
    ensures GetId(path + [PREFIX] + ID_PARAM + [EQUAL] + NatToString(n)) == Success(n)
  {
    var value := NatToString(n);
    assert forall k :: 0 <= k < |value| ==> IsDigit(value[k]);
    ParamsOfIdQuery(path, value);
    assert value + [] == value;
    StoulOfNatToString(n, []);
    ScanNatToString(n, []);
  }

  /** `strtoul` skips the space and reads a negative numeral. */
  lemma ScanSpaceMinusOne()
    ensures ScanNumeral(" -1") == Some(Numeral(true, 1))
  {
    var value := " -1";
    assert SkipSpaces(value, 0) == 1;
    assert DigitRunEnd(value, 2) == 3;
    assert DigitsValue(value[2..3]) == 1;
  }

  /** With leading white space the minus sign passes the first-character check: as written
      the id ` -1` wraps to 2^64 - 1, the intended version refuses it. */
  lemma GetIdAsWrittenAcceptsNegative()
    ensures GetIdAsWritten("/?id= -1") == Success(TWO_TO_THE_64 - 1)
    ensures GetId("/?id= -1") == Failure(BadRequest(ID_INVALID))
  {
    hide Params, ScanNumeral;
    ParamsOfIdQuery("/", " -1");
    assert "/?id= -1" == "/" + [PREFIX] + ID_PARAM + [EQUAL] + " -1";
    assert Params("/?id= -1") == map[ID_PARAM := " -1"];
    ScanSpaceMinusOne();
    assert Stoul(" -1") == Success(TWO_TO_THE_64 - 1);
  }
}
