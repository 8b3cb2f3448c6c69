/** `common::config`: a JSON configuration, and the lookup of a nested value by a path of
    keys such as `"server/port"`. */
module Config {
  import opened Wrappers
  import opened Errors
  import opened Text

  /** A JSON document, without floating-point numbers. */
  datatype Json =
    | Null
    | Boolean(b: bool)
    | Number(n: int)
    | Str(s: string)
    | Array(items: seq<Json>)
    | Object(members: map<string, Json>)

  const INVALID_PATH: string := "invalid config path"
  const DEFAULT_DELIMITER: char := '/'

  // ------------------------------------------------------------ path tokens

  /** The segments of `path` from `begin` on: the text between consecutive delimiters. */
  function SegmentsFrom(path: string, delimiter: char, begin: nat): (r: seq<string>)
    requires begin <= |path|
    ensures |r| >= 1
    decreases |path| - begin
  {
    var end := FindChar(path, delimiter, begin);
    [path[begin..end]] + (if end == |path| then [] else SegmentsFrom(path, delimiter, end + 1))
  }

  function Segments(path: string, delimiter: char): seq<string> {
    SegmentsFrom(path, delimiter, 0)
  }

  /** The tokens put back together with the delimiter between each two. */
  function Join(tokens: seq<string>, delimiter: char): string
    requires |tokens| >= 1
    decreases |tokens|
  {
    if |tokens| == 1 then tokens[0] else tokens[0] + [delimiter] + Join(tokens[1..], delimiter)
  }

  /** One unfolding of `Join`. */
  lemma JoinStep(tokens: seq<string>, delimiter: char)
    requires |tokens| >= 1
    ensures |tokens| == 1 ==> Join(tokens, delimiter) == tokens[0]
    ensures |tokens| > 1 ==> Join(tokens, delimiter) == tokens[0] + [delimiter] + Join(tokens[1..], delimiter)
  {
  }

  predicate NoDelimiter(token: string, delimiter: char) {
    forall i :: 0 <= i < |token| ==> token[i] != delimiter
  }

  lemma NoDelimiterMeans(token: string, delimiter: char)
    ensures NoDelimiter(token, delimiter) <==> delimiter !in token
  {
  }

  /** One unfolding of `SegmentsFrom`. */
  lemma SegmentsFromStep(path: string, delimiter: char, begin: nat)
    requires begin <= |path|
    ensures var end := FindChar(path, delimiter, begin);
            && SegmentsFrom(path, delimiter, begin)[0] == path[begin..end]
            && (end == |path| ==> SegmentsFrom(path, delimiter, begin) == [path[begin..end]])
            && (end < |path| ==> SegmentsFrom(path, delimiter, begin)
                                   == [path[begin..end]] + SegmentsFrom(path, delimiter, end + 1))
  {
  }

  /** Joining the segments gives the path back, and no segment holds the delimiter. */
  lemma {:induction false} SegmentsFromJoin(path: string, delimiter: char, begin: nat)
    requires begin <= |path|
    ensures Join(SegmentsFrom(path, delimiter, begin), delimiter) == path[begin..]
    ensures forall k :: 0 <= k < |SegmentsFrom(path, delimiter, begin)| ==>
              NoDelimiter(SegmentsFrom(path, delimiter, begin)[k], delimiter)
    decreases |path| - begin
  {
    hide SegmentsFrom, Join;
    var end := FindChar(path, delimiter, begin);
    var segs := SegmentsFrom(path, delimiter, begin);
    SegmentsFromStep(path, delimiter, begin);
    assert NoDelimiter(segs[0], delimiter);
    JoinStep(segs, delimiter);
    if end == |path| {
      assert segs == [path[begin..end]];
    } else {
      var rest := SegmentsFrom(path, delimiter, end + 1);
      SegmentsFromJoin(path, delimiter, end + 1);
      assert segs == [path[begin..end]] + rest;
      assert segs[1..] == rest;
      assert Join(segs, delimiter) == path[begin..end] + [delimiter] + Join(rest, delimiter);
      assert path[begin..] == path[begin..end] + [delimiter] + path[end + 1..];
      forall k | 1 <= k < |segs|
        ensures NoDelimiter(segs[k], delimiter)
      {
        assert segs[k] == rest[k - 1];
      }
    }
  }

  lemma SegmentsJoin(path: string, delimiter: char)
    ensures Join(Segments(path, delimiter), delimiter) == path
    ensures forall k :: 0 <= k < |Segments(path, delimiter)| ==>
              NoDelimiter(Segments(path, delimiter)[k], delimiter)
  {
    SegmentsFromJoin(path, delimiter, 0);
  }

  /** Where the first token of a join ends: at the first delimiter, or at the end when it is
      the only token. */
  lemma JoinHead(tokens: seq<string>, delimiter: char, path: string, begin: nat)
    requires |tokens| >= 1 && NoDelimiter(tokens[0], delimiter)
    requires begin <= |path| && path[begin..] == Join(tokens, delimiter)
    ensures var end := begin + |tokens[0]|;
            && FindChar(path, delimiter, begin) == end
            && path[begin..end] == tokens[0]
            && (|tokens| == 1 ==> end == |path|)
            && (|tokens| > 1 ==> end < |path| && path[end + 1..] == Join(tokens[1..], delimiter))
  {
    hide Join, NoDelimiter;
    JoinStep(tokens, delimiter);
    NoDelimiterMeans(tokens[0], delimiter);
    var t := tokens[0];
    var tail: string := if |tokens| == 1 then [] else [delimiter] + Join(tokens[1..], delimiter);
    assert path[begin..] == t + tail;
    FindAfterWord(path, begin, t, delimiter, tail);
    if |tokens| > 1 {
      var end := begin + |t|;
      assert path[end + 1..] == path[end..][1..] == tail[1..];
    }
  }

  /** Tokens free of the delimiter are the segments of their join. */
  lemma {:induction false} JoinSegmentsFrom(tokens: seq<string>, delimiter: char, path: string, begin: nat)
    requires |tokens| >= 1 && forall k :: 0 <= k < |tokens| ==> NoDelimiter(tokens[k], delimiter)
    requires begin <= |path| && path[begin..] == Join(tokens, delimiter)
    ensures SegmentsFrom(path, delimiter, begin) == tokens
    decreases |tokens|
  {
    hide SegmentsFrom, Join, NoDelimiter;
    JoinHead(tokens, delimiter, path, begin);
    SegmentsFromStep(path, delimiter, begin);
    if |tokens| > 1 {
      var end := begin + |tokens[0]|;
      forall k | 0 <= k < |tokens| - 1
        ensures NoDelimiter(tokens[1..][k], delimiter)
      {
        assert tokens[1..][k] == tokens[k + 1];
      }
      JoinSegmentsFrom(tokens[1..], delimiter, path, end + 1);
      assert tokens == [tokens[0]] + tokens[1..];
    }
  }

  lemma JoinSegments(tokens: seq<string>, delimiter: char)
    requires |tokens| >= 1 && forall k :: 0 <= k < |tokens| ==> NoDelimiter(tokens[k], delimiter)
    ensures Segments(Join(tokens, delimiter), delimiter) == tokens
  {
    JoinSegmentsFrom(tokens, delimiter, Join(tokens, delimiter), 0);
  }

  /** Every token is at least two characters long. */
  predicate AllLong(tokens: seq<string>) {
    forall k :: 0 <= k < |tokens| ==> |tokens[k]| >= 2
  }

  lemma AllLongAppend(tokens: seq<string>, token: string)
    requires AllLong(tokens) && |token| >= 2
    ensures AllLong(tokens + [token])
  {
  }

  /** What `GetPathTokens` returns: nothing for the empty path, otherwise the segments,
      each of which must be at least two characters long. */
  function PathTokens(path: string, delimiter: char): Result<seq<string>, Error> {
    if path == [] then Success([])
    else if AllLong(Segments(path, delimiter)) then
      Success(Segments(path, delimiter))
    else Failure(RuntimeError(INVALID_PATH))
  }

  /** Successful tokens join back to the path, hold no delimiter and are at least two
      characters long; a failure means some segment (an empty one from a doubled, leading
      or trailing delimiter, or a one-character one) is too short. */
  lemma PathTokensMeaning(path: string, delimiter: char)
    ensures PathTokens(path, delimiter).Success? && path != [] ==>
              var tokens := PathTokens(path, delimiter).value;
              && Join(tokens, delimiter) == path
              && (forall k :: 0 <= k < |tokens| ==> NoDelimiter(tokens[k], delimiter) && |tokens[k]| >= 2)
    ensures PathTokens(path, delimiter).Failure? <==>
              path != [] && exists k :: 0 <= k < |Segments(path, delimiter)| && |Segments(path, delimiter)[k]| <= 1
  {
    SegmentsJoin(path, delimiter);
  }

  /** The segment starting at `begin` is the one after the `n` already collected. */
  lemma SegmentsNext(path: string, delimiter: char, begin: nat, n: nat)
    requires begin <= |path| && n <= |Segments(path, delimiter)|
    requires SegmentsFrom(path, delimiter, begin) == Segments(path, delimiter)[n..]
    ensures var end := FindChar(path, delimiter, begin);
            && n < |Segments(path, delimiter)|
            && Segments(path, delimiter)[n] == path[begin..end]
            && Segments(path, delimiter)[..n] + [path[begin..end]] == Segments(path, delimiter)[..n + 1]
            && (end == |path| <==> n + 1 == |Segments(path, delimiter)|)
            && (end == |path| ==> Segments(path, delimiter)[..n + 1] == Segments(path, delimiter))
            && (end < |path| ==> SegmentsFrom(path, delimiter, end + 1) == Segments(path, delimiter)[n + 1..])
  {
    hide SegmentsFrom, Segments;
    SegmentsFromStep(path, delimiter, begin);
    var segs := Segments(path, delimiter);
    var rest := SegmentsFrom(path, delimiter, begin);
    var end := FindChar(path, delimiter, begin);
    assert |rest| == |segs| - n >= 1;
    assert segs[n] == rest[0] == path[begin..end];
    assert segs[..n] + [segs[n]] == segs[..n + 1];
    if end < |path| {
      var tail := SegmentsFrom(path, delimiter, end + 1);
      assert rest == [path[begin..end]] + tail;
      assert tail == rest[1..] == segs[n + 1..];
    } else {
      assert |rest| == 1;
      assert segs[..n + 1] == segs;
    }
  }

  lemma PathTokensRejects(path: string, delimiter: char, k: nat)
    requires path != [] && k < |Segments(path, delimiter)| && |Segments(path, delimiter)[k]| <= 1
    ensures PathTokens(path, delimiter) == Failure(RuntimeError(INVALID_PATH))
  {
  }

  lemma PathTokensAccepts(path: string, delimiter: char)
    requires path != [] && AllLong(Segments(path, delimiter))
    ensures PathTokens(path, delimiter) == Success(Segments(path, delimiter))
  {
  }

  /** The loop state of `GetPathTokens`: `tokens` are the segments before the one that
      starts at `begin`, and each of them is long enough. */
  ghost predicate Collected(path: string, delimiter: char, begin: nat, tokens: seq<string>) {
    && begin <= |path|
    && |tokens| <= |Segments(path, delimiter)|
    && tokens == Segments(path, delimiter)[..|tokens|]
    && SegmentsFrom(path, delimiter, begin) == Segments(path, delimiter)[|tokens|..]
    && AllLong(tokens)
  }

  lemma CollectStart(path: string, delimiter: char)
    ensures Collected(path, delimiter, 0, [])
  {
    assert SegmentsFrom(path, delimiter, 0) == Segments(path, delimiter)[0..];
  }

  /** One turn of the loop: a short segment is the failure `PathTokens` reports, the last
      segment completes its tokens, and any other long one is collected. */
  lemma CollectStep(path: string, delimiter: char, begin: nat, end: nat, tokens: seq<string>)
    requires path != [] && Collected(path, delimiter, begin, tokens)
    requires end == FindChar(path, delimiter, begin)
    ensures begin <= end <= |path|
    ensures end - begin <= 1 ==> PathTokens(path, delimiter) == Failure(RuntimeError(INVALID_PATH))
    ensures end - begin >= 2 && end == |path| ==> PathTokens(path, delimiter) == Success(tokens + [path[begin..end]])
    ensures end - begin >= 2 && end < |path| ==> Collected(path, delimiter, end + 1, tokens + [path[begin..end]])
  {
    hide SegmentsFrom, Segments, PathTokens, AllLong;
    var token := path[begin..end];
    SegmentsNext(path, delimiter, begin, |tokens|);
    if |token| <= 1 {
      PathTokensRejects(path, delimiter, |tokens|);
    } else {
      AllLongAppend(tokens, token);
      if end == |path| {
        PathTokensAccepts(path, delimiter);
      }
    }
  }

  /** `GetPathTokens`: walks the path from delimiter to delimiter, collecting the text
      between them and rejecting any piece shorter than two characters. */
  method GetPathTokens(path: string, delimiter: char) returns (r: Result<seq<string>, Error>)
    ensures r == PathTokens(path, delimiter)
  {
    if path == [] {
      return Success([]);
    }
    hide Collected, PathTokens;
    CollectStart(path, delimiter);
    var tokens: seq<string> := [];
    var begin := 0;
    var end := FindChar(path, delimiter, begin);
    while true
      invariant begin <= |path| && end == FindChar(path, delimiter, begin)
      invariant Collected(path, delimiter, begin, tokens)
      decreases |path| - begin
    {
      CollectStep(path, delimiter, begin, end, tokens);
      if end - begin <= 1 {
        return Failure(RuntimeError(INVALID_PATH));
      }
      tokens := tokens + [path[begin..end]];
      if end == |path| {
        return Success(tokens);
      }
      begin := end + 1;
      end := FindChar(path, delimiter, begin);
    }
  }

  /** Paths from the configuration tests: a nested key, under the default and under a
      custom delimiter. */
  lemma PathTokensNested(delimiter: char)
    requires delimiter !in "obj_key" && delimiter !in "nested_key"
    ensures PathTokens("obj_key" + [delimiter] + "nested_key", delimiter) == Success(["obj_key", "nested_key"])
  {
    var tokens := ["obj_key", "nested_key"];
    assert Join(tokens, delimiter) == tokens[0] + [delimiter] + tokens[1];
    JoinSegments(tokens, delimiter);
    PathTokensAccepts(Join(tokens, delimiter), delimiter);
  }

  /** A doubled delimiter leaves an empty token, which is rejected. */
  lemma PathTokensDoubledDelimiter()
    ensures PathTokens("key//key2", '/') == Failure(RuntimeError(INVALID_PATH))
  {
    var tokens := ["key", "", "key2"];
    var path := "key//key2";
    assert path == path[..3] + path[3..4] + path[4..];
    assert path[..3] == tokens[0] && path[3..4] == ['/'] && path[4..] == ['/'] + tokens[2];
    assert Join(tokens, '/') == path;
    JoinSegments(tokens, '/');
    PathTokensRejects(path, '/', 1);
  }

  // ------------------------------------------------------------ lookup

  /** The node reached from `node` by following `keys`, one object member per key; `None`
      when a key is missing or a node on the way is not an object. */
  function Lookup(node: Json, keys: seq<string>): Option<Json>
    decreases |keys|
  {
    if keys == [] then Some(node)
    else match node
      case Object(m) => if keys[0] in m then Lookup(m[keys[0]], keys[1..]) else None
      case _ => None
  }

  /** A lookup descends through the keys in order: a longer path continues from where the
      shorter one ended. */
  lemma {:induction false} LookupAppend(node: Json, a: seq<string>, b: seq<string>)
    ensures Lookup(node, a + b) == (match Lookup(node, a) case None => None case Some(n) => Lookup(n, b))
    decreases |a|
  {
    if a == [] {
      assert a + b == b;
    } else {
      assert (a + b)[0] == a[0] && (a + b)[1..] == a[1..] + b;
      if node.Object? && a[0] in node.members {
        LookupAppend(node.members[a[0]], a[1..], b);
      }
    }
  }

  class Configuration {
    const data: Json

    constructor (data: Json)
      ensures this.data == data
    {
      this.data := data;
    }

    /** `GetJsonByPath`: the path is split into tokens (an invalid path raises), then the
        tree is descended one member per token; a missing member or a non-object node on
        the way gives `None`, and the empty path gives the whole document. */
    method GetJsonByPath(path: string, delimiter: char) returns (r: Result<Option<Json>, Error>)
      ensures PathTokens(path, delimiter).Failure? ==> r == Failure(PathTokens(path, delimiter).error)
      ensures PathTokens(path, delimiter).Success? ==> r == Success(Lookup(data, PathTokens(path, delimiter).value))
      ensures path == [] ==> r == Success(Some(data))
    {
      var tokens :- GetPathTokens(path, delimiter);
      var current := data;
      var i := 0;
      while i < |tokens|
        invariant i <= |tokens|
        invariant Lookup(data, tokens[..i]) == Some(current)
      {
        LookupAppend(data, tokens[..i], [tokens[i]]);
        assert tokens[..i + 1] == tokens[..i] + [tokens[i]];
        if !current.Object? || tokens[i] !in current.members {
          LookupAppend(data, tokens[..i + 1], tokens[i + 1..]);
          assert tokens[..i + 1] + tokens[i + 1..] == tokens;
          return Success(None);
        }
        current := current.members[tokens[i]];
        i := i + 1;
      }
      assert tokens[..i] == tokens;
      return Success(Some(current));
    }
  }
}
