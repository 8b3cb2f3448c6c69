/** `http::utils`: the name of a request method, and the parameters of a request target's
    query string. */
module HttpUtils {
  import opened Wrappers
  import opened Numbers
  import opened Text
  import Formatting

  /** A request method, by its code in Boost.Beast's `verb` enumeration (`unknown` is 0,
      and there are 34 codes in all). */
  type Method = c: nat | c < 34

  const DELETE: Method := 1
  const GET: Method := 2
  const HEAD: Method := 3
  const POST: Method := 4
  const PUT: Method := 5

  const METHOD_TEMPLATE: string := "HTTP Method {}"

  /** `Format("HTTP Method {}", code)` is the prefix followed by the code in decimal. */
  lemma MethodTemplateIsFormat(code: int)
    ensures Formatting.Format(METHOD_TEMPLATE, [Formatting.Integral(code)])
         == Success("HTTP Method " + IntToString(code))
  {
    var pieces := ["HTTP Method ", ""];
    forall j | 0 <= j < 12
      ensures !OccursAt(pieces[0], Formatting.PLACEHOLDER, j)
    {
      Formatting.PlaceholderAt(pieces[0], j);
    }
    assert pieces[1..] == [""];
    assert Formatting.Join(pieces) == "HTTP Method " + "{}" + "";
    var t := METHOD_TEMPLATE;
    assert t == t[..12] + t[12..] && t[..12] == "HTTP Method " && t[12..] == "{}";
    Formatting.FormatJoin(pieces, [Formatting.Integral(code)]);
    assert Formatting.Join(pieces) == METHOD_TEMPLATE;
    assert Formatting.Interleave(pieces[1..], []) == "";
    assert Formatting.Interleave(pieces, [Formatting.Integral(code)])
        == pieces[0] + IntToString(code) + "";
    assert pieces[0] + IntToString(code) + "" == "HTTP Method " + IntToString(code);
    assert Formatting.Format(METHOD_TEMPLATE, [Formatting.Integral(code)])
        == Success(Formatting.Interleave(pieces, [Formatting.Integral(code)]));
  }

  /** `ToString(Method)`: the five methods the services use by name, any other by its code
      through `Format`. */
  function MethodName(m: Method): (r: string)
    ensures m !in {GET, POST, PUT, DELETE, HEAD} ==> r == "HTTP Method " + NatToString(m)
  {
    if m == GET then "GET"
    else if m == POST then "POST"
    else if m == PUT then "PUT"
    else if m == DELETE then "DELETE"
    else if m == HEAD then "HEAD"
    else
      MethodTemplateIsFormat(m);
      match Formatting.Format(METHOD_TEMPLATE, [Formatting.Integral(m)])
      case Success(s) => s
      case Failure(_) => assert false; ""
  }

  /** The five named methods: each name is told apart by its length and first letter. */
  lemma NamedMethod(m: Method)
    requires m in {GET, POST, PUT, DELETE, HEAD}
    ensures |MethodName(m)| <= 6
    ensures m == GET <==> |MethodName(m)| == 3 && MethodName(m)[0] == 'G'
    ensures m == PUT <==> |MethodName(m)| == 3 && MethodName(m)[0] == 'P'
    ensures m == POST <==> |MethodName(m)| == 4 && MethodName(m)[0] == 'P'
    ensures m == HEAD <==> |MethodName(m)| == 4 && MethodName(m)[0] == 'H'
    ensures m == DELETE <==> |MethodName(m)| == 6
  {
  }

  /** Any other method: the code follows a fixed 12-character prefix. */
  lemma OtherMethod(m: Method)
    requires m !in {GET, POST, PUT, DELETE, HEAD}
    ensures |MethodName(m)| > 12 && MethodName(m)[12..] == NatToString(m)
  {
    assert |"HTTP Method "| == 12;
  }

  /** Different methods have different names, so a name identifies its method. */
  lemma MethodNameInjective(a: Method, b: Method)
    requires MethodName(a) == MethodName(b)
    ensures a == b
  {
    hide MethodName;
    var named := {GET, POST, PUT, DELETE, HEAD};
    if a !in named && b !in named {
      OtherMethod(a);
      OtherMethod(b);
      NatToStringInjective(a, b);
    } else if a in named && b in named {
      NamedMethod(a);
      NamedMethod(b);
    } else if a in named {
      NamedMethod(a);
      OtherMethod(b);
    } else {
      OtherMethod(a);
      NamedMethod(b);
    }
  }

  // ------------------------------------------------------------ query parameters

  const PREFIX: char := '?'
  const DELIMITER: char := '&'
  const EQUAL: char := '='

  /** The key and value pairs read from `url` when the cursor stands on the `'?'` or `'&'`
      at `it` (or at the end): the key runs from after the cursor to the next `'='`, the
      value from there to the next `'&'`, where the cursor moves next; reading stops when
      no `'='` is left. */
  function PairsFrom(url: string, it: nat): seq<(string, string)>
    requires it <= |url|
    decreases |url| - it
  {
    if it == |url| then []
    else
      var equal := FindChar(url, EQUAL, it + 1);
      if equal == |url| then []
      else
        var delimiter := FindChar(url, DELIMITER, equal + 1);
        [(url[it + 1..equal], url[equal + 1..delimiter])] + PairsFrom(url, delimiter)
  }

  /** The pairs of a target, read from its first `'?'` on. */
  function Pairs(url: string): seq<(string, string)> {
    PairsFrom(url, FindChar(url, PREFIX, 0))
  }

  /** The pairs entered into a map in order: a pair with an empty key is dropped, and a
      later pair overwrites an earlier one with the same key. */
  function ToMap(pairs: seq<(string, string)>): map<string, string>
    decreases |pairs|
  {
    if pairs == [] then map[]
    else
      var m := ToMap(pairs[..|pairs| - 1]);
      var p := pairs[|pairs| - 1];
      if p.0 == [] then m else m[p.0 := p.1]
  }

  /** What `GetParams` returns for a request whose target is `url`. */
  function Params(url: string): map<string, string> {
    ToMap(Pairs(url))
  }

  /** The keys of the map are the non-empty keys of the pairs, and each one maps to the
      value of its last pair. */
  lemma ToMapMeaning(pairs: seq<(string, string)>)
    ensures forall k :: k in ToMap(pairs) <==> k != [] && exists i :: 0 <= i < |pairs| && pairs[i].0 == k
    ensures forall i :: 0 <= i < |pairs| && pairs[i].0 != [] && (forall j :: i < j < |pairs| ==> pairs[j].0 != pairs[i].0) ==>
              pairs[i].0 in ToMap(pairs) && ToMap(pairs)[pairs[i].0] == pairs[i].1
  {
    forall k
      ensures k in ToMap(pairs) <==> k != [] && exists i :: 0 <= i < |pairs| && pairs[i].0 == k
    {
      ToMapKey(pairs, k);
    }
    forall i | 0 <= i < |pairs| && pairs[i].0 != [] && (forall j :: i < j < |pairs| ==> pairs[j].0 != pairs[i].0)
      ensures pairs[i].0 in ToMap(pairs) && ToMap(pairs)[pairs[i].0] == pairs[i].1
    {
      ToMapLast(pairs, i);
    }
  }

  /** A key is in the map exactly when it is non-empty and some pair has it. */
  lemma {:induction false} ToMapKey(pairs: seq<(string, string)>, k: string)
    ensures k in ToMap(pairs) <==> k != [] && exists i :: 0 <= i < |pairs| && pairs[i].0 == k
    decreases |pairs|
  {
    if pairs != [] {
      var init := pairs[..|pairs| - 1];
      ToMapKey(init, k);
      if k in ToMap(pairs) && k != pairs[|pairs| - 1].0 {
        var i :| 0 <= i < |init| && init[i].0 == k;
        assert pairs[i].0 == k;
      }
      if k != [] && k != pairs[|pairs| - 1].0 && exists i :: 0 <= i < |pairs| && pairs[i].0 == k {
        var i :| 0 <= i < |pairs| && pairs[i].0 == k;
        assert init[i].0 == k;
      }
    }
  }

  /** The last pair with a non-empty key gives that key's value. */
  lemma {:induction false} ToMapLast(pairs: seq<(string, string)>, i: nat)
    requires i < |pairs| && pairs[i].0 != [] && forall j :: i < j < |pairs| ==> pairs[j].0 != pairs[i].0
    ensures pairs[i].0 in ToMap(pairs) && ToMap(pairs)[pairs[i].0] == pairs[i].1
    decreases |pairs|
  {
    if i < |pairs| - 1 {
      var init := pairs[..|pairs| - 1];
      assert init[i] == pairs[i];
      forall j | i < j < |init|
        ensures init[j].0 != init[i].0
      {
        assert init[j] == pairs[j];
      }
      ToMapLast(init, i);
    }
  }

  /** One step of the reading: the pair at the cursor, then the rest. */
  lemma PairsFromStep(url: string, it: nat)
    requires it < |url|
    ensures var equal := FindChar(url, EQUAL, it + 1);
            && (equal == |url| ==> PairsFrom(url, it) == [])
            && (equal < |url| ==>
                  var delimiter := FindChar(url, DELIMITER, equal + 1);
                  PairsFrom(url, it) == [(url[it + 1..equal], url[equal + 1..delimiter])] + PairsFrom(url, delimiter))
  {
  }

  /** The loop's step, in terms of the pairs read so far. */
  lemma PairsNext(url: string, it: nat, n: nat)
    requires it < |url| && n <= |Pairs(url)| && PairsFrom(url, it) == Pairs(url)[n..]
    requires FindChar(url, EQUAL, it + 1) < |url|
    ensures var equal := FindChar(url, EQUAL, it + 1);
            var delimiter := FindChar(url, DELIMITER, equal + 1);
            var key := url[it + 1..equal];
            var value := url[equal + 1..delimiter];
            && n < |Pairs(url)|
            && PairsFrom(url, delimiter) == Pairs(url)[n + 1..]
            && ToMap(Pairs(url)[..n + 1]) == (if key == [] then ToMap(Pairs(url)[..n]) else ToMap(Pairs(url)[..n])[key := value])
  {
    hide PairsFrom, Pairs;
    PairsFromStep(url, it);
    var all := Pairs(url);
    assert all[..n + 1][..n] == all[..n];
  }

  /** Parsing starts at the first `'?'`. */
  lemma PairsStart(url: string)
    ensures Pairs(url) == PairsFrom(url, FindChar(url, PREFIX, 0))
  {
  }

  /** `GetParams`: from the first `'?'`, repeatedly reads a key up to the next `'='` and a
      value up to the next `'&'`, storing the pair unless the key is empty. */
  method GetParams(target: string) returns (params: map<string, string>)
    ensures params == Params(target)
  {
    hide PairsFrom, Pairs, ToMap;
    ghost var all := Pairs(target);
    ghost var n := 0;
    params := map[];
    var it := FindChar(target, PREFIX, 0);
    PairsStart(target);
    assert all[..0] == [] && all[0..] == all;
    ToMapEmpty();
    PairsFromEnd(target);
    while it != |target|
      invariant it <= |target| && n <= |all|
      invariant PairsFrom(target, it) == all[n..]
      invariant params == ToMap(all[..n])
      decreases |target| - it
    {
      var equal := FindChar(target, EQUAL, it + 1);
      if equal == |target| {
        PairsFromStep(target, it);
        break;
      }
      var delimiter := FindChar(target, DELIMITER, equal + 1);
      var key := target[it + 1..equal];
      var value := target[equal + 1..delimiter];
      PairsNext(target, it, n);
      if key != [] {
        params := params[key := value];
      }
      n := n + 1;
      it := delimiter;
    }
    assert all[..n] == all by {
      assert all[n..] == [];
    }
  }

  /** A target without `'?'` has no parameters. */
  lemma NoQueryNoParams(url: string)
    requires PREFIX !in url
    ensures Params(url) == map[]
  {
    FindCharUnique(url, PREFIX, 0, |url|);
  }

  /** The query string of a sequence of pairs: `k=v`, separated by `'&'`. */
  function Query(pairs: seq<(string, string)>): string
    requires |pairs| >= 1
    decreases |pairs|
  {
    pairs[0].0 + [EQUAL] + pairs[0].1 + (if |pairs| == 1 then [] else [DELIMITER] + Query(pairs[1..]))
  }

  /** Pairs whose keys hold no `'='` and whose values hold no `'&'` (a key may hold `'&'`
      or `'?'`). */
  predicate Encodable(pairs: seq<(string, string)>) {
    forall i :: 0 <= i < |pairs| ==> EQUAL !in pairs[i].0 && DELIMITER !in pairs[i].1
  }

  /** One unfolding of `Query`. */
  lemma QueryStep(pairs: seq<(string, string)>)
    requires |pairs| >= 1
    ensures |pairs| == 1 ==> Query(pairs) == pairs[0].0 + [EQUAL] + pairs[0].1
    ensures |pairs| > 1 ==> Query(pairs) == pairs[0].0 + [EQUAL] + pairs[0].1 + [DELIMITER] + Query(pairs[1..])
  {
  }

  /** The query string of pairs, cut after the first value. */
  lemma QueryHead(pairs: seq<(string, string)>, tail: string)
    requires |pairs| >= 1
    requires tail == if |pairs| == 1 then [] else [DELIMITER] + Query(pairs[1..])
    ensures Query(pairs) == pairs[0].0 + ([EQUAL] + (pairs[0].1 + tail))
  {
    hide Query;
    QueryStep(pairs);
  }

  /** A key without `'='` read from `from`: the `'='` follows it at `equal`. */
  lemma KeyBeforeEqual(url: string, from: nat, key: string, rest: string, equal: nat)
    requires from <= |url| && url[from..] == key + ([EQUAL] + rest) && EQUAL !in key
    requires equal == from + |key|
    ensures equal < |url| && FindChar(url, EQUAL, from) == equal
    ensures url[from..equal] == key && url[equal + 1..] == rest
  {
    FindAfterWord(url, from, key, EQUAL, [EQUAL] + rest);
    assert url[equal + 1..] == url[equal..][1..];
  }

  /** A value without `'&'` read from `from`: it ends at `delimiter`, where the `'&'` of
      the next pair or the end of the target stands. */
  lemma ValueBeforeDelimiter(url: string, from: nat, value: string, tail: string, delimiter: nat)
    requires from <= |url| && url[from..] == value + tail && DELIMITER !in value
    requires tail == [] || (tail[0] == DELIMITER)
    requires delimiter == from + |value|
    ensures delimiter <= |url| && FindChar(url, DELIMITER, from) == delimiter
    ensures url[from..delimiter] == value
    ensures tail == [] ==> delimiter == |url|
    ensures tail != [] ==> delimiter < |url| && url[delimiter + 1..] == tail[1..]
  {
    FindAfterWord(url, from, value, DELIMITER, tail);
    if tail != [] {
      assert url[delimiter + 1..] == url[delimiter..][1..];
    }
  }

  lemma PairsFromEnd(url: string)
    ensures PairsFrom(url, |url|) == []
  {
  }

  lemma EncodableSplit(pairs: seq<(string, string)>)
    requires |pairs| >= 1 && Encodable(pairs)
    ensures EQUAL !in pairs[0].0 && DELIMITER !in pairs[0].1 && Encodable(pairs[1..])
  {
  }

  /** The first pair read from a query string is its first pair: its key is followed by
      `'='` and its value by `'&'` or the end. */
  lemma PairsFromQueryHead(url: string, it: nat, pairs: seq<(string, string)>)
    requires |pairs| >= 1 && EQUAL !in pairs[0].0 && DELIMITER !in pairs[0].1
    requires it < |url| && url[it + 1..] == Query(pairs)
    ensures var delimiter := it + 1 + |pairs[0].0| + 1 + |pairs[0].1|;
            && delimiter <= |url|
            && PairsFrom(url, it) == [pairs[0]] + PairsFrom(url, delimiter)
            && (|pairs| == 1 ==> delimiter == |url|)
            && (|pairs| > 1 ==> delimiter < |url| && url[delimiter + 1..] == Query(pairs[1..]))
  {
    hide Query, PairsFrom, FindChar;
    var equal := it + 1 + |pairs[0].0|;
    var delimiter := equal + 1 + |pairs[0].1|;
    var tail: string := if |pairs| == 1 then [] else [DELIMITER] + Query(pairs[1..]);
    QueryHead(pairs, tail);
    KeyBeforeEqual(url, it + 1, pairs[0].0, pairs[0].1 + tail, equal);
    ValueBeforeDelimiter(url, equal + 1, pairs[0].1, tail, delimiter);
    PairsFromStep(url, it);
  }

  lemma {:induction false} PairsFromQuery(url: string, it: nat, pairs: seq<(string, string)>)
    requires |pairs| >= 1 && Encodable(pairs)
    requires it < |url| && url[it + 1..] == Query(pairs)
    ensures PairsFrom(url, it) == pairs
    decreases |pairs|
  {
    hide PairsFrom, Query, Encodable;
    EncodableSplit(pairs);
    PairsFromQueryHead(url, it, pairs);
    var delimiter := it + 1 + |pairs[0].0| + 1 + |pairs[0].1|;
    if |pairs| == 1 {
      PairsFromEnd(url);
      assert [pairs[0]] + [] == pairs;
    } else {
      PairsFromQuery(url, delimiter, pairs[1..]);
      assert [pairs[0]] + pairs[1..] == pairs;
    }
  }

  /** Reading parameters inverts writing them: a path without `'?'`, a `'?'` and the query
      string of encodable pairs give those pairs as a map. */
  lemma ParamsOfQuery(path: string, pairs: seq<(string, string)>)
    requires PREFIX !in path && |pairs| >= 1 && Encodable(pairs)
    ensures Params(path + [PREFIX] + Query(pairs)) == ToMap(pairs)
  {
    var url := path + [PREFIX] + Query(pairs);
    forall j | 0 <= j < |path|
      ensures url[j] != PREFIX
    {
      assert url[j] == path[j];
    }
    FindCharUnique(url, PREFIX, 0, |path|);
    assert url[|path| + 1..] == Query(pairs);
    PairsFromQuery(url, |path|, pairs);
  }

  lemma ToMapEmpty()
    ensures ToMap([]) == map[]
  {
  }

  /** Adding one more pair: dropped when its key is empty, otherwise it overwrites. */
  lemma ToMapSnoc(pairs: seq<(string, string)>, p: (string, string))
    ensures ToMap(pairs + [p]) == if p.0 == [] then ToMap(pairs) else ToMap(pairs)[p.0 := p.1]
  {
    assert (pairs + [p])[..|pairs|] == pairs;
  }

  /** The map of two pairs, entered in order. */
  lemma ToMapTwo(p: (string, string), q: (string, string))
    requires p.0 != [] && q.0 != []
    ensures ToMap([p, q]) == map[p.0 := p.1][q.0 := q.1]
  {
    ToMapSnoc([], p);
    ToMapSnoc([p], q);
    assert [] + [p] == [p] && [p] + [q] == [p, q];
  }

  /** The parameters of a target with a one-pair query. */
  lemma ParamsOfOne(path: string, p: (string, string))
    requires PREFIX !in path && EQUAL !in p.0 && DELIMITER !in p.1
    ensures Params(path + [PREFIX] + p.0 + [EQUAL] + p.1) == if p.0 == [] then map[] else map[p.0 := p.1]
  {
    hide Params, Query, ToMap;
    var pairs := [p];
    QueryStep(pairs);
    assert path + [PREFIX] + p.0 + [EQUAL] + p.1 == path + [PREFIX] + Query(pairs);
    ParamsOfQuery(path, pairs);
    ToMapSnoc([], p);
    assert [] + [p] == pairs;
    ToMapEmpty();
  }

  /** The parameters of a target with a two-pair query whose keys are not empty. */
  lemma ParamsOfTwo(path: string, p: (string, string), q: (string, string))
    requires PREFIX !in path && EQUAL !in p.0 && DELIMITER !in p.1 && EQUAL !in q.0 && DELIMITER !in q.1
    requires p.0 != [] && q.0 != []
    ensures Params(path + [PREFIX] + p.0 + [EQUAL] + p.1 + [DELIMITER] + q.0 + [EQUAL] + q.1)
         == map[p.0 := p.1][q.0 := q.1]
  {
    hide Params, Query, ToMap;
    var pairs := [p, q];
    QueryStep(pairs);
    QueryStep(pairs[1..]);
    assert pairs[1..] == [q];
    assert path + [PREFIX] + p.0 + [EQUAL] + p.1 + [DELIMITER] + q.0 + [EQUAL] + q.1
        == path + [PREFIX] + Query(pairs);
    ParamsOfQuery(path, pairs);
    ToMapTwo(p, q);
  }

  /** From the tests: a doubled `'&'` starts the next key with `'&'`. */
  lemma ParamsDoubledDelimiter()
    ensures Params("/path?key=value&&key2=value2") == map["key" := "value", "&key2" := "value2"]
  {
    hide Params;
    ParamsOfTwo("/path", ("key", "value"), ("&key2", "value2"));
    assert "/path?key=value&&key2=value2"
        == "/path" + [PREFIX] + "key" + [EQUAL] + "value" + [DELIMITER] + "&key2" + [EQUAL] + "value2";
  }

  /** From the tests: a doubled `'?'` starts the first key with `'?'`. */
  lemma ParamsDoubledPrefix()
    ensures Params("/path??key=value") == map["?key" := "value"]
  {
    hide Params;
    ParamsOfOne("/path", ("?key", "value"));
    assert "/path??key=value" == "/path" + [PREFIX] + "?key" + [EQUAL] + "value";
  }

  /** From the tests: a repeated key keeps its last value. */
  lemma ParamsRepeatedKey()
    ensures Params("/path?key=value&key=value2") == map["key" := "value2"]
  {
    hide Params;
    ParamsOfTwo("/path", ("key", "value"), ("key", "value2"));
    assert "/path?key=value&key=value2"
        == "/path" + [PREFIX] + "key" + [EQUAL] + "value" + [DELIMITER] + "key" + [EQUAL] + "value2";
  }

  /** From the tests: an empty key is dropped. */
  lemma ParamsEmptyKey()
    ensures Params("/path?=value") == map[]
  {
    hide Params;
    ParamsOfOne("/path", ("", "value"));
    assert "/path?=value" == "/path" + [PREFIX] + "" + [EQUAL] + "value";
  }

  /** From the tests: a trailing key without `'='` is ignored. */
  lemma ParamsWithoutEqual()
    ensures Params("/path?key") == map[]
  {
    var url := "/path?key";
    FindCharUnique(url, PREFIX, 0, 5);
    FindCharUnique(url, EQUAL, 6, |url|);
  }
}
