/** `common::components::ComponentsEngine`: the older registry of named components. Unlike
    the newer one it lets a registration replace an earlier one, and its `Reset` forgets the
    components instead of resetting them. */
module CommonComponents {
  import opened Wrappers
  import opened Errors
  import opened Algo
  import opened Components

  class ComponentsEngine {
    var isInitialized: bool
    var components: map<string, Component>

    ghost predicate Valid()
      reads this
    {
      NamedByKey(components)
    }

    ghost function Registered(): set<Component>
      reads this
    {
      components.Values
    }

    constructor ()
      ensures Valid() && !isInitialized && components == map[]
    {
      isInitialized := false;
      components := map[];
    }

    /** `Register`: files the component under its name, replacing whatever was there. */
    method Register(component: Component)
      requires Valid()
      modifies this
      ensures Valid() && isInitialized == old(isInitialized)
      ensures components == old(components)[component.name := component]
    {
      components := components[component.name := component];
    }

    /** The typed `Get<T>`, for the type whose `kName` is `name`; the cast to the type is
        not modelled. */
    function Get(name: string): (r: Result<Component, Error>)
      requires Valid()
      reads this
      ensures name !in components <==> r == Failure(LogicError(NotRegistered(name)))
      ensures r.Success? ==> r.value in Registered() && r.value.name == name
    {
      match GetOptional(components, name)
      case Some(c) => Success(c)
      case None => Failure(LogicError(NotRegistered(name)))
    }

    /** `Init`: the first call initialises every registered component exactly once; later
        calls do nothing until a `Reset`. */
    method Init()
      requires Valid()
      modifies this, Registered()
      ensures Valid() && isInitialized && components == old(components)
      ensures forall n :: n in components ==>
                components[n].initCalls == old(components[n].initCalls) + (if old(isInitialized) then 0 else 1)
      ensures forall n :: n in components ==> components[n].resetCalls == old(components[n].resetCalls)
    {
      if isInitialized {
        return;
      }
      var todo := components.Keys;
      while todo != {}
        invariant todo <= components.Keys
        invariant forall n :: n in components ==>
                    components[n].initCalls == old(components[n].initCalls) + (if n in todo then 0 else 1)
        invariant forall n :: n in components ==> components[n].resetCalls == old(components[n].resetCalls)
        modifies components.Values
        decreases todo
      {
        var n :| n in todo;
        components[n].Init();
        todo := todo - {n};
      }
      isInitialized := true;
    }

    /** `Reset`: forgets every component and clears the flag, so the next `Init` runs again. */
    method Reset()
      modifies this
      ensures Valid() && components == map[] && !isInitialized
    {
      components := map[];
      isInitialized := false;
    }
  }
}
