/** `api_config::components::ApiConfigStorage`: the in-memory store of the config service,
    one entry per API configuration name, each stamped with an id, an author and times. */
module ApiConfigStore {
  import opened Wrappers
  import opened Errors
  import opened Numbers
  import opened Algo
  import Config
  import Formatting

  /** `models::ApiConfig`: the name is the key of the store. */
  datatype ApiConfig = ApiConfig(name: string, description: Option<string>, schema: Config.Json)

  /** Time points of the system clock, as ticks. */
  type Time = int

  datatype Metadata = Metadata(id: nat, author: string, created: Time, updated: Time)

  datatype ApiConfigData = ApiConfigData(data: ApiConfig, metadata: Metadata)

  const ITEM_EXISTS_FORMAT: string := "item with name '{}' already exists"
  const AUTHOR: string := "author"

  /** The `runtime_error` message of an `Insert` under a taken name. */
  function ItemExists(name: string): string {
    "item with name '" + name + "' already exists"
  }

  /** The message is what `Format` makes of its template, whatever the name holds. */
  lemma ItemExistsIsFormatted(name: string)
    ensures Formatting.Format(ITEM_EXISTS_FORMAT, [Formatting.Str(name)]) == Success(ItemExists(name))
  {
    hide Formatting.Format, Formatting.FormatImpl;
    Formatting.FreeWithoutBrace("item with name '");
    Formatting.FreeWithoutBrace("' already exists");
    assert ITEM_EXISTS_FORMAT == "item with name '" + Formatting.PLACEHOLDER + "' already exists";
    Formatting.FormatOne("item with name '", "' already exists", Formatting.Str(name));
  }

  /** Every entry is filed under the name of its configuration. */
  ghost predicate NamedByKey(apis: map<string, ApiConfigData>) {
    forall n :: n in apis ==> apis[n].data.name == n
  }

  /** Every id handed out so far is below the counter and no two entries share one. This
      holds as long as the 64-bit counter has not wrapped. */
  ghost predicate FreshIds(apis: map<string, ApiConfigData>, counter: nat) {
    (forall n :: n in apis ==> apis[n].metadata.id < counter)
    && (forall a, b :: a in apis && b in apis && apis[a].metadata.id == apis[b].metadata.id ==> a == b)
  }

  class ApiConfigStorage {
    var apis: map<string, ApiConfigData>
    var idCounter: nat

    ghost predicate Valid()
      reads this
    {
      NamedByKey(apis) && idCounter < TWO_TO_THE_64
    }

    constructor ()
      ensures Valid() && apis == map[] && idCounter == 0 && FreshIds(apis, idCounter)
    {
      apis := map[];
      idCounter := 0;
    }

    /** `GetNextId`: the counter's value, the counter moving on by one modulo 2^64. */
    method GetNextId() returns (id: nat)
      requires Valid()
      modifies this
      ensures Valid() && apis == old(apis)
      ensures id == old(idCounter) && idCounter == (old(idCounter) + 1) % TWO_TO_THE_64
    {
      id := idCounter;
      idCounter := (idCounter + 1) % TWO_TO_THE_64;
    }

    /** `Insert`: a taken name is refused and nothing changes; otherwise the configuration
        is stored with the next id, the fixed author and `now` as both creation and update
        time. */
    method Insert(api: ApiConfig, now: Time) returns (r: Result<(), Error>)
      requires Valid()
      modifies this
      ensures Valid()
      ensures api.name in old(apis) ==>
                r == Failure(RuntimeError(ItemExists(api.name))) && apis == old(apis) && idCounter == old(idCounter)
      ensures api.name !in old(apis) ==>
                r == Success(())
                && apis == old(apis)[api.name := ApiConfigData(api, Metadata(old(idCounter), AUTHOR, now, now))]
                && idCounter == (old(idCounter) + 1) % TWO_TO_THE_64
      ensures old(FreshIds(apis, idCounter)) && old(idCounter) + 1 < TWO_TO_THE_64 ==> FreshIds(apis, idCounter)
    {
      if api.name in apis {
        return Failure(RuntimeError(ItemExists(api.name)));
      }
      var id := GetNextId();
      apis := apis[api.name := ApiConfigData(api, Metadata(id, AUTHOR, now, now))];
      r := Success(());
    }

    /** `Update`: for a stored name, replaces the configuration and the update time and keeps
        id, author and creation time; reports whether the name was stored. */
    method Update(api: ApiConfig, now: Time) returns (found: bool)
      requires Valid()
      modifies this
      ensures Valid() && idCounter == old(idCounter)
      ensures found <==> api.name in old(apis)
      ensures found ==>
                var m := old(apis)[api.name].metadata;
                apis == old(apis)[api.name := ApiConfigData(api, Metadata(m.id, m.author, m.created, now))]
      ensures !found ==> apis == old(apis)
      ensures old(FreshIds(apis, idCounter)) ==> FreshIds(apis, idCounter)
    {
      if api.name in apis {
        var m := apis[api.name].metadata;
        apis := apis[api.name := ApiConfigData(api, m.(updated := now))];
        return true;
      }
      return false;
    }

    /** `Delete`: removes the name and reports whether it was stored. */
    method Delete(name: string) returns (found: bool)
      requires Valid()
      modifies this
      ensures Valid() && idCounter == old(idCounter)
      ensures found <==> name in old(apis)
      ensures apis == old(apis) - {name}
      ensures old(FreshIds(apis, idCounter)) ==> FreshIds(apis, idCounter)
    {
      found := name in apis;
      apis := apis - {name};
    }

    /** `Get`: the stored entry, or none. */
    function Get(name: string): (r: Option<ApiConfigData>)
      requires Valid()
      reads this
      ensures r.Some? <==> name in apis
      ensures r.Some? ==> r.value.data.name == name && r.value == apis[name]
    {
      GetOptional(apis, name)
    }
  }
}
