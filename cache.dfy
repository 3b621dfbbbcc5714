/** `Reflect` and `reflectionCache`: each record type is reflected once and
    its reflection shared. The cache maps a type name to the reflections of
    the types with that name, in the order they were first asked for. */
module ReflectCache {
  import opened Wrappers
  import opened Text
  import opened Reflect

  /** The first reflection in `list` whose type is `t`. */
  function Find(list: seq<ReflectionRef>, t: RecordType): (found: Option<ReflectionRef>)
    ensures found.Some? ==> found.value in list && found.value.value.recordType == t
  {
    if list == [] then None
    else if list[0].value.recordType == t then Some(list[0])
    else Find(list[1..], t)
  }

  /** `Find` misses exactly when no reflection in the list has type `t`. */
  lemma {:induction false} FindMisses(list: seq<ReflectionRef>, t: RecordType)
    ensures Find(list, t).None? <==> forall k :: 0 <= k < |list| ==> list[k].value.recordType != t
  {
    if list != [] {
      FindMisses(list[1..], t);
      assert forall k :: 1 <= k < |list| ==> list[k] == list[1..][k - 1];
    }
  }

  /** `Find` stops at the first reflection of type `t`. */
  lemma {:induction false} FindFirst(list: seq<ReflectionRef>, t: RecordType, k: nat)
    requires k < |list| && list[k].value.recordType == t
    requires forall j :: 0 <= j < k ==> list[j].value.recordType != t
    ensures Find(list, t) == Some(list[k])
  {
    if k > 0 {
      FindFirst(list[1..], t, k - 1);
    }
  }

  /** Appending a reflection of `t` to a list without one makes it found. */
  lemma FindAppended(list: seq<ReflectionRef>, t: RecordType, r: ReflectionRef)
    requires Find(list, t).None? && r.value.recordType == t
    ensures Find(list + [r], t) == Some(r)
  {
    FindMisses(list, t);
    FindFirst(list + [r], t, |list|);
  }

  /** The reflections stored under `name`. */
  function ListFor(entries: map<Bytes, seq<ReflectionRef>>, name: Bytes): seq<ReflectionRef> {
    if name in entries then entries[name] else []
  }

  /** The cached reflection of `t`: the first of type `t` under its name. */
  function Lookup(entries: map<Bytes, seq<ReflectionRef>>, t: RecordType): Option<ReflectionRef> {
    Find(ListFor(entries, t.name), t)
  }

  /** A cache entry is a reflection of a type with the name it is stored under. */
  predicate Cached(env: Env, name: Bytes, r: ReflectionRef) {
    r.value.recordType.name == name && ReflectSpec(env, r.value.recordType) == Success(r.value)
  }

  /** A cached reflection is the reflection of the type it was found for. */
  lemma LookupIsReflection(env: Env, entries: map<Bytes, seq<ReflectionRef>>, t: RecordType)
    requires forall name :: name in entries ==> forall k :: 0 <= k < |entries[name]| ==> Cached(env, name, entries[name][k])
    requires Lookup(entries, t).Some?
    ensures ReflectSpec(env, t) == Success(Lookup(entries, t).value.value)
  {
    var found := Lookup(entries, t).value;
    var list := ListFor(entries, t.name);
    var k :| 0 <= k < |list| && list[k] == found;
    assert Cached(env, t.name, list[k]);
  }

  /** `reflectionCache` together with the names tables and the default
      APP-NAME that `reflectImpl` reads. */
  class ReflectionCache {
    const env: Env
    var entries: map<Bytes, seq<ReflectionRef>>

    ghost predicate Valid()
      reads this
    {
      forall name :: name in entries ==> forall k :: 0 <= k < |entries[name]| ==> Cached(env, name, entries[name][k])
    }

    constructor (env: Env)
      ensures this.env == env && entries == map[] && Valid()
    {
      this.env := env;
      entries := map[];
    }

    /** `Reflect`: the cached reflection of `t` if there is one; otherwise
        a new reflection, created or appended under `t`'s name. A panic
        leaves the cache as it was. */
    method Reflect(t: RecordType) returns (res: Result<ReflectionRef, ConfigError>)
      requires Valid()
      modifies this
      ensures Valid()
      ensures Lookup(old(entries), t).Some? ==> res == Success(Lookup(old(entries), t).value) && entries == old(entries)
      ensures Lookup(old(entries), t).None? && ReflectSpec(env, t).Failure? ==>
        res == Failure(ReflectSpec(env, t).error) && entries == old(entries)
      ensures Lookup(old(entries), t).None? && ReflectSpec(env, t).Success? ==>
        && res.Success? && fresh(res.value)
        && entries == old(entries)[t.name := ListFor(old(entries), t.name) + [res.value]]
      ensures res.Success? ==> ReflectSpec(env, t) == Success(res.value.value) && Lookup(entries, t) == Some(res.value)
    {
      if t.name !in entries {
        res := ReflectImpl(env, t);
        if res.Success? {
          entries := entries[t.name := [res.value]];
          assert [res.value] == [] + [res.value];
          FindAppended([], t, res.value);
        }
        return;
      }
      var reflectionList := entries[t.name];
      for k := 0 to |reflectionList|
        invariant forall j :: 0 <= j < k ==> reflectionList[j].value.recordType != t
      {
        if reflectionList[k].value.recordType == t {
          FindFirst(reflectionList, t, k);
          LookupIsReflection(env, entries, t);
          return Success(reflectionList[k]);
        }
      }
      FindMisses(reflectionList, t);
      res := ReflectImpl(env, t);
      if res.Success? {
        entries := entries[t.name := reflectionList + [res.value]];
        FindAppended(reflectionList, t, res.value);
      }
    }
  }

  /** Asking twice for the same type gives the same object (or the same
      panic) the second time. */
  method ReflectTwice(cache: ReflectionCache, t: RecordType) returns (first: Result<ReflectionRef, ConfigError>, second: Result<ReflectionRef, ConfigError>)
    requires cache.Valid()
    modifies cache
    ensures cache.Valid()
    ensures second == first
  {
    first := cache.Reflect(t);
    second := cache.Reflect(t);
  }
}
