/**
 * The hub's variable store: a cache from variable name to record, filled
 * from the variable definitions with every value at its default, read by
 * name, and written only where the variable is not read-only.
 */
module HubVar {
  import opened Wrappers
  import opened HubNet
  import Logging

  /** Hub_Var: a variable's record. Doubles are modelled as reals. */
  datatype Var = Var(name: string, value: real, defaultValue: real, persistent: bool, readonly: bool)

  /** One row of the variable_definitions table. */
  datatype Definition = Definition(name: string, defaultValue: real, persistent: bool, readonly: bool)

  /** The record built for a definition: its value starts at its default. */
  function Fresh(d: Definition): (v: Var)
    ensures v.name == d.name && v.value == d.defaultValue && v.defaultValue == d.defaultValue
    ensures v.persistent == d.persistent && v.readonly == d.readonly
  {
    Var(d.name, d.defaultValue, d.defaultValue, d.persistent, d.readonly)
  }

  /** Every record is filed under its own name. */
  predicate Keyed(cache: map<string, Var>) {
    forall k :: k in cache ==> cache[k].name == k
  }

  /**
   * The cache after Dictionary_set of every definition in order: a later
   * definition of the same name replaces an earlier one.
   */
  function CacheOf(defs: seq<Definition>): (cache: map<string, Var>)
    ensures Keyed(cache)
    ensures forall k :: k in cache ==> cache[k].value == cache[k].defaultValue
  {
    if defs == [] then map[]
    else
      var last := defs[|defs| - 1];
      CacheOf(defs[..|defs| - 1])[last.name := Fresh(last)]
  }

  /** The cache holds exactly the defined names. */
  lemma {:induction false} CacheOfKeys(defs: seq<Definition>)
    ensures forall k :: k in CacheOf(defs) <==> exists d :: d in defs && d.name == k
  {
    if defs != [] {
      var init := defs[..|defs| - 1];
      CacheOfKeys(init);
      assert forall d :: d in defs <==> d in init || d == defs[|defs| - 1];
    }
  }

  /** The record for a name is built from the last definition of that name. */
  lemma {:induction false} CacheOfLastWins(defs: seq<Definition>, i: nat)
    requires i < |defs|
    requires forall j :: i < j < |defs| ==> defs[j].name != defs[i].name
    ensures defs[i].name in CacheOf(defs) && CacheOf(defs)[defs[i].name] == Fresh(defs[i])
    decreases |defs|
  {
    if i < |defs| - 1 {
      CacheOfLastWins(defs[..|defs| - 1], i);
    }
  }

  /** Storing one more definition is one more map update. */
  lemma CacheOfSnoc(defs: seq<Definition>, i: nat)
    requires i < |defs|
    ensures CacheOf(defs[..i + 1]) == CacheOf(defs[..i])[defs[i].name := Fresh(defs[i])]
  {
    assert defs[..i + 1][..i] == defs[..i];
  }

  lemma KeyedMerge(a: map<string, Var>, b: map<string, Var>)
    requires Keyed(a) && Keyed(b)
    ensures Keyed(a + b)
  {
  }

  /** What Hub_Var_set reports: -1 unknown name, -2 read-only, 0 written. */
  datatype SetOutcome = SetOutcome(code: int, cache: map<string, Var>)

  /**
   * Hub_Var_set on a cache: only a known, writable variable takes the new
   * value; its flags, its default and every other record stay as they were.
   */
  function SetValue(cache: map<string, Var>, name: string, value: real): (o: SetOutcome)
    ensures name !in cache ==> o.code == -1 && o.cache == cache
    ensures name in cache && cache[name].readonly ==> o.code == -2 && o.cache == cache
    ensures name in cache && !cache[name].readonly ==>
      o.code == 0 && o.cache.Keys == cache.Keys &&
      o.cache[name].value == value &&
      o.cache[name] == cache[name].(value := value)
    ensures forall k :: k in cache && k != name ==> k in o.cache && o.cache[k] == cache[k]
    ensures Keyed(cache) ==> Keyed(o.cache)
  {
    if name !in cache then SetOutcome(-1, cache)
    else if cache[name].readonly then SetOutcome(-2, cache)
    else SetOutcome(0, cache[name := cache[name].(value := value)])
  }

  /** A successful set is seen by the next get, and setting the value read back changes nothing. */
  lemma SetThenGet(cache: map<string, Var>, name: string, value: real)
    requires name in cache && !cache[name].readonly
    ensures var o := SetValue(cache, name, value);
      name in o.cache && o.cache[name].value == value &&
      SetValue(o.cache, name, cache[name].value).cache == cache
  {
  }

  /** The variable cache of the hub. */
  class VarStore {
    var cache: map<string, Var>

    ghost predicate Valid()
      reads this
    {
      Keyed(cache)
    }

    /** Dictionary_new(): an empty cache. */
    constructor()
      ensures Valid() && cache == map[]
    {
      cache := map[];
    }

    /**
     * Hub_Var_initCacheTable over the rows of variable_definitions: no rows
     * logs a warning and leaves the cache alone; otherwise each row is stored
     * with its value at the default.
     */
    method InitCacheTable(defs: seq<Definition>) returns (effects: seq<Effect>)
      requires Valid()
      modifies this
      ensures Valid()
      ensures defs == [] ==>
        cache == old(cache) &&
        effects == [HubLog(Logging.Warning, "No variables defined, but continuing anyway")]
      ensures defs != [] ==> cache == old(cache) + CacheOf(defs) && effects == []
    {
      if defs == [] {
        return [HubLog(Logging.Warning, "No variables defined, but continuing anyway")];
      }
      var i := 0;
      while i < |defs|
        invariant 0 <= i <= |defs|
        invariant cache == old(cache) + CacheOf(defs[..i])
      {
        CacheOfSnoc(defs, i);
        cache := cache[defs[i].name := Fresh(defs[i])];
        i := i + 1;
      }
      assert defs[..i] == defs;
      KeyedMerge(old(cache), CacheOf(defs));
      effects := [];
    }

    /** Hub_Var_get: the record filed under name, None when there is none. */
    function Get(name: string): (v: Option<Var>)
      reads this
      ensures v.None? <==> name !in cache
      ensures v.Some? ==> v.value == cache[name]
    {
      if name in cache then Some(cache[name]) else None
    }

    /** Hub_Var_set, without the database write of persistent variables. */
    method Set(name: string, value: real) returns (r: int)
      requires Valid()
      modifies this
      ensures Valid()
      ensures SetOutcome(r, cache) == SetValue(old(cache), name, value)
    {
      if name !in cache {
        return -1;
      }
      var v := cache[name];
      if v.readonly {
        return -2;
      }
      cache := cache[name := v.(value := value)];
      r := 0;
    }
  }
}
