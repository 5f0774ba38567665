/**
 * The object definition registry. Definitions and singleton instances share one JavaScript
 * `Map`; instance keys are the canonical identifier behind a private prefix, and instances are
 * told apart only by that prefix occurring in the key. Every read except `removeDefinition`
 * first resolves its identifier through the installed identifier relation.
 */
module DefinitionRegistry {
  import opened Wrappers
  import opened Strings
  import JsMap
  import opened Definitions
  import opened IdentifierRelation

  /** The private prefix of instance keys. */
  const PREFIX: string := "_id_default_"

  /** The registry's `storeMap`: definitions and instances in insertion order. */
  type Store = JsMap.Entries<StoredValue>

  /** The key `registerObject(id, ...)` writes: `PREFIX + id`, with no alias resolution. */
  function InstanceKey(id: string): (k: string)
    ensures OccursAt(k, PREFIX, 0) && k[|PREFIX|..] == id
  {
    ContainsJoin([], PREFIX, id);
    assert [] + PREFIX + id == PREFIX + id;
    PREFIX + id
  }

  /** `key.indexOf(PREFIX) !== -1`: the prefix occurs anywhere in the key, not only at its start. */
  function IsInstanceKey(key: string): (b: bool)
    ensures b <==> Contains(key, PREFIX)
  {
    IndexOf(key, PREFIX) != -1
  }

  /** `identifierRelation.getRelation(id) ?? id`. */
  function Resolve(rel: Relation, id: string): (c: string)
    ensures JsMap.Has(rel, id) ==> (id, c) in rel
    ensures !JsMap.Has(rel, id) ==> c == id
  {
    JsMap.Get(rel, id).GetOr(id)
  }

  /** What `getDefinition(id)` returns: the value under the resolved key, `None` for `undefined`. */
  function LookupDefinition(store: Store, rel: Relation, id: string): (r: Option<StoredValue>)
    ensures r.Some? <==> JsMap.Has(store, Resolve(rel, id))
    ensures r.Some? ==> (Resolve(rel, id), r.value) in store
    ensures !JsMap.Has(rel, id) ==> r == JsMap.Get(store, id)
  {
    JsMap.Get(store, Resolve(rel, id))
  }

  /** What `getObject(id)` returns: the value under the prefixed resolved key. */
  function LookupObject(store: Store, rel: Relation, id: string): (r: Option<StoredValue>)
    ensures r.Some? <==> JsMap.Has(store, PREFIX + Resolve(rel, id))
    ensures r.Some? ==> (PREFIX + Resolve(rel, id), r.value) in store
    ensures !JsMap.Has(rel, id) ==> r == JsMap.Get(store, PREFIX + id)
  {
    JsMap.Get(store, InstanceKey(Resolve(rel, id)))
  }

  /** The `identifiers` view: the keys without the prefix, in insertion order. */
  function IdentifiersOf(store: Store): seq<string>
  {
    if store == [] then []
    else (if IsInstanceKey(store[0].0) then [] else [store[0].0]) + IdentifiersOf(store[1..])
  }

  /** The keys with the prefix, in insertion order. */
  function InstanceKeysOf(store: Store): seq<string>
  {
    if store == [] then []
    else (if IsInstanceKey(store[0].0) then [store[0].0] else []) + InstanceKeysOf(store[1..])
  }

  /** What `getDefinitionByName(name)` returns: every stored value whose `name` is `name`, in insertion order. */
  function DefinitionsNamed(store: Store, name: string): seq<StoredValue>
  {
    if store == [] then []
    else (if NameOf(store[0].1) == Some(name) then [store[0].1] else []) + DefinitionsNamed(store[1..], name)
  }

  lemma {:induction false} IdentifiersSnoc(store: Store, e: (string, StoredValue))
    ensures IdentifiersOf(store + [e]) == IdentifiersOf(store) + (if IsInstanceKey(e.0) then [] else [e.0])
  {
    if store != [] {
      assert (store + [e])[1..] == store[1..] + [e];
      IdentifiersSnoc(store[1..], e);
    }
  }

  lemma {:induction false} DefinitionsNamedSnoc(store: Store, name: string, e: (string, StoredValue))
    ensures DefinitionsNamed(store + [e], name)
            == DefinitionsNamed(store, name) + (if NameOf(e.1) == Some(name) then [e.1] else [])
  {
    if store != [] {
      assert (store + [e])[1..] == store[1..] + [e];
      DefinitionsNamedSnoc(store[1..], name, e);
    }
  }

  /** An instance key is never listed by `identifiers`. */
  lemma InstanceKeyIsInstance(id: string)
    ensures IsInstanceKey(InstanceKey(id))
  {
    var k := InstanceKey(id);
    assert OccursAt(k, PREFIX, 0);
  }

  /** `identifiers` lists exactly the keys of the store that do not contain the prefix. */
  lemma {:induction false} IdentifiersExactly(store: Store, k: string)
    ensures k in IdentifiersOf(store) <==> JsMap.Has(store, k) && !IsInstanceKey(k)
  {
    if store != [] {
      IdentifiersExactly(store[1..], k);
      assert JsMap.Keys(store) == [store[0].0] + JsMap.Keys(store[1..]);
    }
  }

  /**
   * `identifiers` keeps insertion order: registering a new definition key adds it at the end,
   * re-registering a present key keeps its place, and a key containing the prefix never shows.
   */
  lemma {:induction false} IdentifiersAfterSet(store: Store, k: string, v: StoredValue)
    ensures IdentifiersOf(JsMap.Set(store, k, v))
            == if JsMap.Has(store, k) || IsInstanceKey(k) then IdentifiersOf(store) else IdentifiersOf(store) + [k]
  {
    if store != [] {
      var e, t := store[0], store[1..];
      assert store == [e] + t;
      assert JsMap.Keys(store) == [e.0] + JsMap.Keys(t);
      IdentifiersCons(e, t);
      if e.0 == k {
        assert JsMap.Set(store, k, v) == [(k, v)] + t;
        IdentifiersCons((k, v), t);
      } else {
        assert JsMap.Set(store, k, v) == [e] + JsMap.Set(t, k, v);
        IdentifiersCons(e, JsMap.Set(t, k, v));
        IdentifiersAfterSet(t, k, v);
      }
    }
  }

  lemma IdentifiersCons(e: (string, StoredValue), t: Store)
    ensures IdentifiersOf([e] + t) == (if IsInstanceKey(e.0) then [] else [e.0]) + IdentifiersOf(t)
  {
    assert ([e] + t)[1..] == t;
  }

  lemma KeysWithoutCons(x: string, ks: seq<string>, k: string)
    ensures JsMap.KeysWithout([x] + ks, k) == if x == k then JsMap.KeysWithout(ks, k) else [x] + JsMap.KeysWithout(ks, k)
  {
    assert ([x] + ks)[1..] == ks;
  }

  /** `removeDefinition(k)` drops exactly `k` from `identifiers` and keeps the order of the rest. */
  lemma {:induction false} IdentifiersAfterDelete(store: Store, k: string)
    ensures IdentifiersOf(JsMap.Delete(store, k)) == JsMap.KeysWithout(IdentifiersOf(store), k)
  {
    if store != [] {
      var e, t := store[0], store[1..];
      assert store == [e] + t;
      IdentifiersAfterDelete(t, k);
      IdentifiersCons(e, t);
      if e.0 != k {
        IdentifiersCons(e, JsMap.Delete(t, k));
      }
      if !IsInstanceKey(e.0) {
        KeysWithoutCons(e.0, IdentifiersOf(t), k);
      } else {
        assert [] + IdentifiersOf(t) == IdentifiersOf(t);
        assert [] + IdentifiersOf(JsMap.Delete(t, k)) == IdentifiersOf(JsMap.Delete(t, k));
      }
    }
  }

  /** `count` is the number of all keys: the listed identifiers plus the instance keys. */
  lemma {:induction false} CountSplits(store: Store)
    ensures |store| == |IdentifiersOf(store)| + |InstanceKeysOf(store)|
  {
    if store != [] {
      CountSplits(store[1..]);
    }
  }

  /** `getDefinitionByName(n)` holds exactly the stored values named `n`, instance entries included. */
  lemma {:induction false} DefinitionsNamedExactly(store: Store, name: string, v: StoredValue)
    ensures v in DefinitionsNamed(store, name)
            <==> NameOf(v) == Some(name) && exists i :: 0 <= i < |store| && store[i].1 == v
  {
    if store != [] {
      DefinitionsNamedExactly(store[1..], name, v);
      if exists i :: 0 <= i < |store| && store[i].1 == v {
        var i :| 0 <= i < |store| && store[i].1 == v;
        if i > 0 {
          assert store[1..][i - 1].1 == v;
        }
      }
      if exists i :: 0 <= i < |store[1..]| && store[1..][i].1 == v {
        var i :| 0 <= i < |store[1..]| && store[1..][i].1 == v;
        assert store[i + 1].1 == v;
      }
    }
  }

  /** An instance registered with a `name` property is returned by `getDefinitionByName` for that name. */
  lemma ObjectsFoundByName(store: Store, id: string, o: ManagedObject, name: string)
    requires o.name == Some(name)
    ensures InstanceValue(o) in DefinitionsNamed(JsMap.Set(store, InstanceKey(id), InstanceValue(o)), name)
  {
    var after := JsMap.Set(store, InstanceKey(id), InstanceValue(o));
    JsMap.GetSet(store, InstanceKey(id), InstanceValue(o), InstanceKey(id));
    var i :| 0 <= i < |after| && after[i] == (InstanceKey(id), InstanceValue(o));
    DefinitionsNamedExactly(after, name, InstanceValue(o));
  }

  /**
   * Two definitions that share a class name under two new identifiers are both returned by
   * `getDefinitionByName`, after the earlier matches and in registration order.
   */
  lemma DuplicateNamesInRegistrationOrder(store: Store, id1: string, d1: ObjectDefinition, id2: string, d2: ObjectDefinition)
    requires id1 != id2 && !JsMap.Has(store, id1) && !JsMap.Has(store, id2)
    requires d1.name == d2.name
    ensures DefinitionsNamed(JsMap.Set(JsMap.Set(store, id1, DefinitionValue(d1)), id2, DefinitionValue(d2)), d1.name)
            == DefinitionsNamed(store, d1.name) + [DefinitionValue(d1), DefinitionValue(d2)]
  {
    var once := JsMap.Set(store, id1, DefinitionValue(d1));
    JsMap.SetNewAppends(store, id1, DefinitionValue(d1));
    assert once == store + [(id1, DefinitionValue(d1))];
    JsMap.KeysSet(store, id1, DefinitionValue(d1));
    assert !JsMap.Has(once, id2);
    JsMap.SetNewAppends(once, id2, DefinitionValue(d2));
    DefinitionsNamedSnoc(store, d1.name, (id1, DefinitionValue(d1)));
    DefinitionsNamedSnoc(once, d1.name, (id2, DefinitionValue(d2)));
  }

  /** `removeDefinition(id)` deletes the literal key only: afterwards that key is absent and every other key reads as before. */
  lemma RemoveDefinitionLiteral(store: Store, id: string, q: string)
    ensures !JsMap.Has(JsMap.Delete(store, id), id)
    ensures q != id ==> JsMap.Get(JsMap.Delete(store, id), q) == JsMap.Get(store, q)
  {
    JsMap.GetDelete(store, id, id);
    JsMap.GetDelete(store, id, q);
  }

  /** For an identifier that resolves to itself, `getDefinition` after `removeDefinition` finds nothing. */
  lemma RemovedDefinitionNotFound(store: Store, rel: Relation, id: string)
    requires Resolve(rel, id) == id
    ensures LookupDefinition(JsMap.Delete(store, id), rel, id) == None
  {
    JsMap.GetDelete(store, id, id);
  }

  /**
   * Removing by an alias does not resolve it: the definition under the canonical identifier stays
   * visible through that same alias.
   */
  lemma RemoveByAliasKeepsCanonical(store: Store, rel: Relation, alias: string, canonical: string)
    requires JsMap.Get(rel, alias) == Some(canonical) && canonical != alias
    requires JsMap.Has(store, canonical)
    ensures LookupDefinition(JsMap.Delete(store, alias), rel, alias) == JsMap.Get(store, canonical)
    ensures LookupDefinition(JsMap.Delete(store, alias), rel, alias).Some?
  {
    JsMap.GetDelete(store, alias, canonical);
  }

  /** An instance registered under the canonical identifier is visible through every alias that resolves to it. */
  lemma ObjectVisibleThroughAlias(store: Store, rel: Relation, canonical: string, alias: string, o: ManagedObject)
    requires Resolve(rel, alias) == canonical
    ensures LookupObject(JsMap.Set(store, InstanceKey(canonical), InstanceValue(o)), rel, alias) == Some(InstanceValue(o))
  {
    JsMap.GetSet(store, InstanceKey(canonical), InstanceValue(o), InstanceKey(canonical));
  }

  /**
   * `registerObject` does not resolve its identifier: an instance registered under an alias of
   * another identifier leaves `getObject` of that alias as it was.
   */
  lemma ObjectUnderAliasNotResolved(store: Store, rel: Relation, alias: string, canonical: string, o: ManagedObject)
    requires JsMap.Get(rel, alias) == Some(canonical) && canonical != alias
    ensures LookupObject(JsMap.Set(store, InstanceKey(alias), InstanceValue(o)), rel, alias) == LookupObject(store, rel, alias)
  {
    assert InstanceKey(canonical)[|PREFIX|..] != InstanceKey(alias)[|PREFIX|..];
    JsMap.GetSet(store, InstanceKey(alias), InstanceValue(o), InstanceKey(canonical));
  }

  /**
   * The two logical stores are independent: registering an instance leaves `getDefinition` of
   * every identifier whose resolved key is not that instance key as it was.
   */
  lemma RegisterObjectKeepsDefinitions(store: Store, rel: Relation, id: string, o: ManagedObject, q: string)
    requires Resolve(rel, q) != InstanceKey(id)
    ensures LookupDefinition(JsMap.Set(store, InstanceKey(id), InstanceValue(o)), rel, q) == LookupDefinition(store, rel, q)
  {
    JsMap.GetSet(store, InstanceKey(id), InstanceValue(o), Resolve(rel, q));
  }

  /**
   * Registering only an instance for an identifier with no definition: `hasDefinition` stays false
   * while `hasObject` becomes true.
   */
  lemma ObjectOnlyRegistration(store: Store, rel: Relation, id: string, o: ManagedObject)
    requires Resolve(rel, id) == id && !JsMap.Has(store, id)
    ensures LookupDefinition(JsMap.Set(store, InstanceKey(id), InstanceValue(o)), rel, id) == None
    ensures LookupObject(JsMap.Set(store, InstanceKey(id), InstanceValue(o)), rel, id) == Some(InstanceValue(o))
  {
    assert |InstanceKey(id)| > |id|;
    RegisterObjectKeepsDefinitions(store, rel, id, o, id);
    ObjectVisibleThroughAlias(store, rel, id, id, o);
  }

  /**
   * A class registered under its truthy UUID, after `saveClassRelation` with a truthy alias and
   * namespace, is found by `getDefinition` through its alias, its class name, its qualified name
   * and its UUID alike (for example alias "userService", class "UserService", namespace "core").
   */
  lemma ClassFoundByEveryName(store: Store, rel: Relation, m: ComponentModule, namespace: string, d: ObjectDefinition)
    requires m.uuid != "" && m.aliasId != "" && namespace != ""
    ensures var rel' := SaveClassRelationOf(rel, m, namespace);
            var store' := JsMap.Set(store, m.uuid, DefinitionValue(d));
            && LookupDefinition(store', rel', m.aliasId) == Some(DefinitionValue(d))
            && LookupDefinition(store', rel', m.name) == Some(DefinitionValue(d))
            && LookupDefinition(store', rel', namespace + ":" + m.name) == Some(DefinitionValue(d))
            && LookupDefinition(store', rel', m.uuid) == Some(DefinitionValue(d))
  {
    SaveClassRelationResolves(rel, m, namespace, m.uuid);
    JsMap.GetSet(store, m.uuid, DefinitionValue(d), m.uuid);
  }

  /**
   * `ObjectDefinitionRegistry`: the store, the list of singleton identifiers, and the installed
   * identifier relation (`null` until the getter creates one, when it was set to nothing).
   */
  class ObjectDefinitionRegistry {
    var storeMap: Store
    var singletonIds: seq<string>
    var identifierRelation: LegacyIdentifierRelation?

    ghost predicate Valid()
      reads this
    {
      JsMap.DistinctKeys(storeMap)
    }

    /** The table of the installed relation; one not yet created reads as the empty table it will start with. */
    function RelationTable(): Relation
      reads this, identifierRelation
    {
      if identifierRelation == null then [] else identifierRelation.storeMap
    }

    constructor ()
      ensures Valid() && storeMap == [] && singletonIds == []
      ensures identifierRelation != null && fresh(identifierRelation) && identifierRelation.Valid()
      ensures RelationTable() == []
    {
      storeMap := [];
      singletonIds := [];
      identifierRelation := new LegacyIdentifierRelation();
    }

    /** The `identifierRelation` getter (also `getIdentifierRelation()`): creates a default relation when none is installed. */
    method GetIdentifierRelation() returns (r: LegacyIdentifierRelation)
      modifies this`identifierRelation
      ensures identifierRelation == r
      ensures old(identifierRelation) != null ==> r == old(identifierRelation)
      ensures old(identifierRelation) == null ==> fresh(r) && r.Valid() && r.storeMap == []
      ensures RelationTable() == old(RelationTable())
    {
      if identifierRelation == null {
        identifierRelation := new LegacyIdentifierRelation();
      }
      r := identifierRelation;
    }

    /** The `identifierRelation` setter (also `setIdentifierRelation(r)`): installs another relation. */
    method SetIdentifierRelation(r: LegacyIdentifierRelation?)
      modifies this`identifierRelation
      ensures identifierRelation == r
    {
      identifierRelation := r;
    }

    /** The `identifiers` getter: every key without the prefix, in insertion order. */
    method Identifiers() returns (ids: seq<string>)
      ensures ids == IdentifiersOf(storeMap)
      ensures forall k :: k in ids <==> JsMap.Has(storeMap, k) && !IsInstanceKey(k)
    {
      ids := [];
      var i := 0;
      while i < |storeMap|
        invariant 0 <= i <= |storeMap|
        invariant ids == IdentifiersOf(storeMap[..i])
      {
        var key := storeMap[i].0;
        assert storeMap[..i + 1] == storeMap[..i] + [storeMap[i]];
        IdentifiersSnoc(storeMap[..i], storeMap[i]);
        if IndexOf(key, PREFIX) == -1 {
          ids := ids + [key];
        }
        i := i + 1;
      }
      assert storeMap[..i] == storeMap;
      forall k ensures k in ids <==> JsMap.Has(storeMap, k) && !IsInstanceKey(k) {
        IdentifiersExactly(storeMap, k);
      }
    }

    /** The `count` getter: the size of the store, instance entries included. */
    function Count(): (n: nat)
      requires Valid()
      reads this
      ensures n == |JsMap.KeySet(storeMap)|
      ensures n == |IdentifiersOf(storeMap)| + |InstanceKeysOf(storeMap)|
    {
      JsMap.SizeIsKeyCount(storeMap);
      CountSplits(storeMap);
      |storeMap|
    }

    /** `getSingletonDefinitionIds()`: the recorded singleton identifiers, in registration order. */
    function GetSingletonDefinitionIds(): (ids: seq<string>)
      reads this
      ensures ids == singletonIds
    {
      singletonIds
    }

    /** `getDefinitionByName(name)`: a scan over all stored values, instances included. */
    method GetDefinitionByName(name: string) returns (definitions: seq<StoredValue>)
      ensures definitions == DefinitionsNamed(storeMap, name)
      ensures forall v :: v in definitions <==> NameOf(v) == Some(name) && exists i :: 0 <= i < |storeMap| && storeMap[i].1 == v
    {
      definitions := [];
      var i := 0;
      while i < |storeMap|
        invariant 0 <= i <= |storeMap|
        invariant definitions == DefinitionsNamed(storeMap[..i], name)
      {
        var v := storeMap[i].1;
        assert storeMap[..i + 1] == storeMap[..i] + [storeMap[i]];
        DefinitionsNamedSnoc(storeMap[..i], name, storeMap[i]);
        if NameOf(v) == Some(name) {
          definitions := definitions + [v];
        }
        i := i + 1;
      }
      assert storeMap[..i] == storeMap;
      forall v ensures v in definitions <==> NameOf(v) == Some(name) && exists i :: 0 <= i < |storeMap| && storeMap[i].1 == v {
        DefinitionsNamedExactly(storeMap, name, v);
      }
    }

    /** `registerDefinition(identifier, definition)`: record a singleton identifier (again, if already there), then upsert. */
    method RegisterDefinition(identifier: string, definition: ObjectDefinition)
      requires Valid()
      modifies this`storeMap, this`singletonIds
      ensures Valid()
      ensures storeMap == JsMap.Set(old(storeMap), identifier, DefinitionValue(definition))
      ensures singletonIds == old(singletonIds) + (if definition.isSingletonScope then [identifier] else [])
      ensures multiset(singletonIds)[identifier]
              == multiset(old(singletonIds))[identifier] + (if definition.isSingletonScope then 1 else 0)
      ensures JsMap.Get(storeMap, identifier) == Some(DefinitionValue(definition))
    {
      if definition.isSingletonScope {
        singletonIds := singletonIds + [identifier];
      }
      JsMap.SetDistinct(storeMap, identifier, DefinitionValue(definition));
      JsMap.GetSet(storeMap, identifier, DefinitionValue(definition), identifier);
      storeMap := JsMap.Set(storeMap, identifier, DefinitionValue(definition));
    }

    /** `getDefinition(identifier)`: resolve through the relation, falling back to the literal, then look up. */
    method GetDefinition(identifier: string) returns (d: Option<StoredValue>)
      modifies this`identifierRelation
      ensures old(identifierRelation) != null ==> identifierRelation == old(identifierRelation)
      ensures RelationTable() == old(RelationTable())
      ensures d == LookupDefinition(storeMap, RelationTable(), identifier)
    {
      var relation := GetIdentifierRelation();
      var key := relation.GetRelation(identifier).GetOr(identifier);
      d := JsMap.Get(storeMap, key);
    }

    /** `removeDefinition(identifier)`: delete the literal key, with no alias resolution. */
    method RemoveDefinition(identifier: string)
      requires Valid()
      modifies this`storeMap
      ensures Valid()
      ensures storeMap == JsMap.Delete(old(storeMap), identifier)
      ensures !JsMap.Has(storeMap, identifier)
    {
      JsMap.DeleteDistinct(storeMap, identifier);
      JsMap.GetDelete(storeMap, identifier, identifier);
      storeMap := JsMap.Delete(storeMap, identifier);
    }

    /** `hasDefinition(identifier)`: the same resolution as `getDefinition`, existence only. */
    method HasDefinition(identifier: string) returns (b: bool)
      modifies this`identifierRelation
      ensures old(identifierRelation) != null ==> identifierRelation == old(identifierRelation)
      ensures RelationTable() == old(RelationTable())
      ensures b <==> LookupDefinition(storeMap, RelationTable(), identifier).Some?
    {
      var relation := GetIdentifierRelation();
      var key := relation.GetRelation(identifier).GetOr(identifier);
      b := JsMap.Has(storeMap, key);
    }

    /** `hasObject(identifier)`: resolve, then test the prefixed key. */
    method HasObject(identifier: string) returns (b: bool)
      modifies this`identifierRelation
      ensures old(identifierRelation) != null ==> identifierRelation == old(identifierRelation)
      ensures RelationTable() == old(RelationTable())
      ensures b <==> LookupObject(storeMap, RelationTable(), identifier).Some?
    {
      var relation := GetIdentifierRelation();
      var key := relation.GetRelation(identifier).GetOr(identifier);
      b := JsMap.Has(storeMap, PREFIX + key);
    }

    /** `clearAll()`: empty the store and the singleton list; the relation is left alone. */
    method ClearAll()
      modifies this`storeMap, this`singletonIds
      ensures Valid()
      ensures storeMap == [] && singletonIds == []
      ensures Count() == 0 && IdentifiersOf(storeMap) == []
      ensures forall id :: LookupObject(storeMap, RelationTable(), id) == None
      ensures RelationTable() == old(RelationTable())
    {
      singletonIds := [];
      storeMap := [];
    }

    /** `registerObject(identifier, target)`: upsert under `PREFIX + identifier`, with no alias resolution. */
    method RegisterObject(identifier: string, target: ManagedObject)
      requires Valid()
      modifies this`storeMap
      ensures Valid()
      ensures storeMap == JsMap.Set(old(storeMap), InstanceKey(identifier), InstanceValue(target))
      ensures IdentifiersOf(storeMap) == IdentifiersOf(old(storeMap))
    {
      JsMap.SetDistinct(storeMap, InstanceKey(identifier), InstanceValue(target));
      InstanceKeyIsInstance(identifier);
      IdentifiersAfterSet(storeMap, InstanceKey(identifier), InstanceValue(target));
      storeMap := JsMap.Set(storeMap, PREFIX + identifier, InstanceValue(target));
    }

    /** `getObject(identifier)`: resolve, then read the prefixed key. */
    method GetObject(identifier: string) returns (o: Option<StoredValue>)
      modifies this`identifierRelation
      ensures old(identifierRelation) != null ==> identifierRelation == old(identifierRelation)
      ensures RelationTable() == old(RelationTable())
      ensures o == LookupObject(storeMap, RelationTable(), identifier)
    {
      var relation := GetIdentifierRelation();
      var key := relation.GetRelation(identifier).GetOr(identifier);
      o := JsMap.Get(storeMap, PREFIX + key);
    }
  }
}
