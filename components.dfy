/** `components::ComponentsEngine`: the process-wide registry of named components, which
    initialises every registered component once and resets them on demand. */
module Components {
  import opened Wrappers
  import opened Errors
  import opened Algo
  import Formatting

  const ALREADY_REGISTERED_FORMAT: string := "component '{}' already registered"
  const NOT_REGISTERED_FORMAT: string := "component '{}' is not registered"

  /** Stands for any component. Its own `Init` and `Reset` are code the registry does not
      see; all the registry relies on is that each call happens, which these counters record. */
  class Component {
    const name: string
    var initCalls: nat
    var resetCalls: nat

    constructor (name: string)
      ensures this.name == name && initCalls == 0 && resetCalls == 0
    {
      this.name := name;
      initCalls := 0;
      resetCalls := 0;
    }

    method Init()
      modifies this
      ensures initCalls == old(initCalls) + 1 && resetCalls == old(resetCalls)
    {
      initCalls := initCalls + 1;
    }

    method Reset()
      modifies this
      ensures resetCalls == old(resetCalls) + 1 && initCalls == old(initCalls)
    {
      resetCalls := resetCalls + 1;
    }
  }

  /** The `logic_error` message of a second registration under one name. */
  function AlreadyRegistered(name: string): string {
    "component '" + name + "' already registered"
  }

  /** The `logic_error` message of a typed `Get` for a name nobody registered. */
  function NotRegistered(name: string): string {
    "component '" + name + "' is not registered"
  }

  /** The message of a second registration is what `Format` makes of its template: the
      name is put in place of the placeholder, whatever characters it holds. */
  lemma AlreadyRegisteredIsFormatted(name: string)
    ensures Formatting.Format(ALREADY_REGISTERED_FORMAT, [Formatting.Str(name)]) == Success(AlreadyRegistered(name))
  {
    hide Formatting.Format, Formatting.FormatImpl;
    Formatting.FreeWithoutBrace("component '");
    Formatting.FreeWithoutBrace("' already registered");
    assert ALREADY_REGISTERED_FORMAT == "component '" + Formatting.PLACEHOLDER + "' already registered";
    Formatting.FormatOne("component '", "' already registered", Formatting.Str(name));
  }

  /** The message of a missing component is what `Format` makes of its template. */
  lemma NotRegisteredIsFormatted(name: string)
    ensures Formatting.Format(NOT_REGISTERED_FORMAT, [Formatting.Str(name)]) == Success(NotRegistered(name))
  {
    hide Formatting.Format, Formatting.FormatImpl;
    Formatting.FreeWithoutBrace("component '");
    Formatting.FreeWithoutBrace("' is not registered");
    assert NOT_REGISTERED_FORMAT == "component '" + Formatting.PLACEHOLDER + "' is not registered";
    Formatting.FormatOne("component '", "' is not registered", Formatting.Str(name));
  }

  /** Different names give different messages, so the message identifies the component. */
  lemma MessagesNameTheComponent(a: string, b: string)
    ensures AlreadyRegistered(a) == AlreadyRegistered(b) ==> a == b
    ensures NotRegistered(a) == NotRegistered(b) ==> a == b
  {
    if AlreadyRegistered(a) == AlreadyRegistered(b) {
      var p, q := "component '", "' already registered";
      assert |a| == |b|;
      assert a == (p + a + q)[|p|..|p| + |a|];
      assert b == (p + b + q)[|p|..|p| + |b|];
    }
    if NotRegistered(a) == NotRegistered(b) {
      var p, q := "component '", "' is not registered";
      assert |a| == |b|;
      assert a == (p + a + q)[|p|..|p| + |a|];
      assert b == (p + b + q)[|p|..|p| + |b|];
    }
  }

  /** Every component is filed under its own name. */
  ghost predicate NamedByKey(components: map<string, Component>) {
    forall n :: n in components ==> components[n].name == n
  }

  /** Names are keys, so the registry holds each component object at most once, and one call
      per name is one call per component. */
  lemma DistinctComponents(components: map<string, Component>, a: string, b: string)
    requires NamedByKey(components) && a in components && b in components
    ensures components[a] == components[b] <==> a == b
  {
  }

  class ComponentsEngine {
    var isInitialized: bool
    var components: map<string, Component>

    ghost predicate Valid()
      reads this
    {
      NamedByKey(components)
    }

    ghost function Registered(): set<Component>
      reads this
    {
      components.Values
    }

    constructor ()
      ensures Valid() && !isInitialized && components == map[]
    {
      isInitialized := false;
      components := map[];
    }

    /** `Register`: refuses a name that is already taken and then changes nothing; otherwise
        files the component under its name. */
    method Register(component: Component) returns (r: Result<(), Error>)
      requires Valid()
      modifies this
      ensures Valid() && isInitialized == old(isInitialized)
      ensures component.name in old(components) ==>
                r == Failure(LogicError(AlreadyRegistered(component.name))) && components == old(components)
      ensures component.name !in old(components) ==>
                r == Success(()) && components == old(components)[component.name := component]
    {
      var name := component.name;
      if name in components {
        return Failure(LogicError(AlreadyRegistered(name)));
      }
      components := components[name := component];
      r := Success(());
    }

    /** `Get(name)`: the component filed under the name, or null. */
    function Get(name: string): (r: Option<Component>)
      requires Valid()
      reads this
      ensures r.Some? <==> name in components
      ensures r.Some? ==> r.value in Registered() && r.value.name == name
    {
      GetOptional(components, name)
    }

    /** The typed `Get<T>`, for the type whose `kName` is `name`; the cast to the type is
        not modelled. */
    function GetTyped(name: string): (r: Result<Component, Error>)
      requires Valid()
      reads this
      ensures name !in components <==> r == Failure(LogicError(NotRegistered(name)))
      ensures r.Success? ==> r.value in Registered() && r.value.name == name
    {
      match Get(name)
      case Some(c) => Success(c)
      case None => Failure(LogicError(NotRegistered(name)))
    }

    /** `Clear`: forgets every component but keeps the initialised flag. */
    method Clear()
      modifies this
      ensures Valid() && components == map[] && isInitialized == old(isInitialized)
    {
      components := map[];
    }

    /** `Init`: the first call initialises every registered component exactly once; later
        calls do nothing. The registry itself is not changed. */
    method Init()
      requires Valid()
      modifies this, Registered()
      ensures Valid() && isInitialized && components == old(components)
      ensures forall n :: n in components ==>
                components[n].initCalls == old(components[n].initCalls) + (if old(isInitialized) then 0 else 1)
      ensures forall n :: n in components ==> components[n].resetCalls == old(components[n].resetCalls)
    {
      if isInitialized {
        return;
      }
      var todo := components.Keys;
      while todo != {}
        invariant todo <= components.Keys
        invariant forall n :: n in components ==>
                    components[n].initCalls == old(components[n].initCalls) + (if n in todo then 0 else 1)
        invariant forall n :: n in components ==> components[n].resetCalls == old(components[n].resetCalls)
        modifies components.Values
        decreases todo
      {
        var n :| n in todo;
        components[n].Init();
        todo := todo - {n};
      }
      isInitialized := true;
    }

    /** `Reset`: resets every registered component exactly once and keeps them registered. */
    method Reset()
      requires Valid()
      modifies Registered()
      ensures forall n :: n in components ==> components[n].resetCalls == old(components[n].resetCalls) + 1
      ensures forall n :: n in components ==> components[n].initCalls == old(components[n].initCalls)
    {
      var todo := components.Keys;
      while todo != {}
        invariant todo <= components.Keys
        invariant forall n :: n in components ==>
                    components[n].resetCalls == old(components[n].resetCalls) + (if n in todo then 0 else 1)
        invariant forall n :: n in components ==> components[n].initCalls == old(components[n].initCalls)
        decreases todo
      {
        var n :| n in todo;
        components[n].Reset();
        todo := todo - {n};
      }
    }
  }
}
