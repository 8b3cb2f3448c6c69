/** `http::server::HttpHandlers`: the routing table of the HTTP server, from a request
    target and a method to the handler that answers it. */
module HttpServer {
  import opened Wrappers
  import opened HttpUtils

  /** For each target, the handlers of its methods. `H` stands for the handler callable,
      which the table only stores and hands back. */
  type Table<H> = map<string, map<Method, H>>

  /** No target is kept with an empty set of methods. */
  predicate WellFormed<H>(t: Table<H>) {
    forall uri :: uri in t ==> t[uri] != map[]
  }

  /** `GetHandler`: the handler registered for the target and the method, if any. */
  function Lookup<H>(t: Table<H>, uri: string, verb: Method): (r: Option<H>)
    ensures r.Some? <==> uri in t && verb in t[uri]
    ensures r.Some? ==> r.value == t[uri][verb]
  {
    if uri in t && verb in t[uri] then Some(t[uri][verb]) else None
  }

  /** `AddHandler`: the table with the handler registered, replacing any earlier one for the
      same target and method. */
  function WithHandler<H>(t: Table<H>, uri: string, verb: Method, handler: H): (r: Table<H>)
    ensures WellFormed(t) ==> WellFormed(r)
    ensures Lookup(r, uri, verb) == Some(handler)
    ensures forall u: string, m: Method :: (u, m) != (uri, verb) ==> Lookup(r, u, m) == Lookup(t, u, m)
  {
    var methods := if uri in t then t[uri] else map[];
    assert verb in methods[verb := handler];
    t[uri := methods[verb := handler]]
  }

  /** `RemoveHandler`: the table with the handler unregistered; a target left without
      methods is dropped, and an unknown target or method changes nothing. */
  function WithoutHandler<H>(t: Table<H>, uri: string, verb: Method): (r: Table<H>)
    ensures WellFormed(t) ==> WellFormed(r)
    ensures Lookup(r, uri, verb) == None
    ensures forall u: string, m: Method :: (u, m) != (uri, verb) ==> Lookup(r, u, m) == Lookup(t, u, m)
    ensures Lookup(t, uri, verb).None? ==> r == t
    ensures uri in t && t[uri].Keys == {verb} ==> uri !in r
  {
    if uri in t && verb in t[uri] then
      var rest := t[uri] - {verb};
      assert forall m :: m in rest <==> m in t[uri] && m != verb;
      if rest == map[] then t - {uri} else t[uri := rest]
    else t
  }

  /** A well-formed table is determined by its answers. */
  lemma SameAnswersSameTable<H>(a: Table<H>, b: Table<H>)
    requires WellFormed(a) && WellFormed(b)
    requires forall uri: string, m: Method :: Lookup(a, uri, m) == Lookup(b, uri, m)
    ensures a == b
  {
    forall uri | uri in a
      ensures uri in b && a[uri] == b[uri]
    {
      var m :| m in a[uri];
      assert Lookup(a, uri, m).Some?;
      forall m' | m' in a[uri] || (uri in b && m' in b[uri])
        ensures m' in a[uri] && uri in b && m' in b[uri] && a[uri][m'] == b[uri][m']
      {
        assert Lookup(a, uri, m') == Lookup(b, uri, m');
      }
    }
    forall uri | uri in b
      ensures uri in a
    {
      var m :| m in b[uri];
      assert Lookup(b, uri, m).Some?;
    }
  }

  /** Registering a handler for a free target and method and then removing it gives the
      table back. */
  lemma AddThenRemove<H>(t: Table<H>, uri: string, verb: Method, handler: H)
    requires WellFormed(t) && Lookup(t, uri, verb).None?
    ensures WithoutHandler(WithHandler(t, uri, verb, handler), uri, verb) == t
  {
    var r := WithoutHandler(WithHandler(t, uri, verb, handler), uri, verb);
    SameAnswersSameTable(r, t);
  }

  /** Removing a handler and registering it again gives the table back. */
  lemma RemoveThenAdd<H>(t: Table<H>, uri: string, verb: Method)
    requires WellFormed(t) && Lookup(t, uri, verb).Some?
    ensures WithHandler(WithoutHandler(t, uri, verb), uri, verb, t[uri][verb]) == t
  {
    var r := WithHandler(WithoutHandler(t, uri, verb), uri, verb, t[uri][verb]);
    SameAnswersSameTable(r, t);
  }

  class HttpHandlers<H> {
    var handlers: Table<H>

    ghost predicate Valid()
      reads this
    {
      WellFormed(handlers)
    }

    constructor ()
      ensures Valid() && handlers == map[]
    {
      handlers := map[];
    }

    function GetHandler(uri: string, verb: Method): Option<H>
      reads this
    {
      Lookup(handlers, uri, verb)
    }

    method AddHandler(uri: string, verb: Method, handler: H)
      requires Valid()
      modifies this
      ensures Valid() && handlers == WithHandler(old(handlers), uri, verb, handler)
    {
      ghost var before := handlers;
      var methods := if uri in handlers then handlers[uri] else map[];
      handlers := handlers[uri := methods[verb := handler]];
      assert handlers == WithHandler(before, uri, verb, handler);
    }

    method RemoveHandler(uri: string, verb: Method)
      requires Valid()
      modifies this
      ensures Valid() && handlers == WithoutHandler(old(handlers), uri, verb)
    {
      if uri in handlers {
        var methods := handlers[uri];
        if verb in methods {
          var rest := methods - {verb};
          if rest == map[] {
            handlers := handlers - {uri};
          } else {
            handlers := handlers[uri := rest];
          }
        }
      }
    }
  }
}
