/**
 * The identifier relation: an upsert-only alias table from every name a component can be
 * addressed by (its UUID, declared alias, class name, `namespace:ClassName`, or a function id)
 * to its canonical UUID.
 */
module IdentifierRelation {
  import opened Wrappers
  import JsMap
  import opened Definitions

  /** The relation's `storeMap`: alias to canonical UUID. */
  type Relation = JsMap.Entries<string>

  /** The separator of a namespace-qualified class name. */
  const NamespaceSeparator: string := ":"

  /**
   * The keys `saveClassRelation(m, namespace)` writes, in the order it writes them. The UUID itself
   * is always written; the alias (when truthy), the class name and `namespace:name` (when the
   * namespace is truthy) only when the UUID is truthy.
   */
  function ClassRelationKeys(m: ComponentModule, namespace: string): seq<string>
  {
    [m.uuid]
    + (if m.uuid == "" then []
       else (if m.aliasId != "" then [m.aliasId] else [])
            + [m.name]
            + (if namespace != "" then [namespace + NamespaceSeparator + m.name] else []))
  }

  /** The table after `saveClassRelation(m, namespace)`: each written key now maps to the UUID. */
  function SaveClassRelationOf(rel: Relation, m: ComponentModule, namespace: string): (r: Relation)
    ensures JsMap.Get(r, m.uuid) == Some(m.uuid)
    ensures JsMap.DistinctKeys(rel) ==> JsMap.DistinctKeys(r)
  {
    var ks := ClassRelationKeys(m, namespace);
    JsMap.GetSetAll(rel, ks, m.uuid, m.uuid);
    assert JsMap.DistinctKeys(rel) ==> JsMap.DistinctKeys(JsMap.SetAll(rel, ks, m.uuid)) by {
      if JsMap.DistinctKeys(rel) {
        JsMap.SetAllDistinct(rel, ks, m.uuid);
      }
    }
    JsMap.SetAll(rel, ks, m.uuid)
  }

  /** The `set` calls after the alias: the class name, then the qualified name when the namespace is truthy. */
  lemma ClassRelationTail(r1: Relation, m: ComponentModule, namespace: string)
    ensures var last := if namespace != "" then [namespace + NamespaceSeparator + m.name] else [];
            var r2 := JsMap.Set(r1, m.name, m.uuid);
            JsMap.SetAll(r1, [m.name] + last, m.uuid)
            == if namespace != "" then JsMap.Set(r2, namespace + NamespaceSeparator + m.name, m.uuid) else r2
  {
    var last := if namespace != "" then [namespace + NamespaceSeparator + m.name] else [];
    var r2 := JsMap.Set(r1, m.name, m.uuid);
    JsMap.SetAllCons(r1, m.name, last, m.uuid);
    if namespace != "" {
      JsMap.SetAllCons(r2, namespace + NamespaceSeparator + m.name, [], m.uuid);
    }
  }

  /** With a truthy UUID and alias: the UUID, then the alias, then the tail. */
  lemma ClassRelationWithAlias(rel: Relation, m: ComponentModule, namespace: string)
    requires m.uuid != "" && m.aliasId != ""
    ensures SaveClassRelationOf(rel, m, namespace)
            == JsMap.SetAll(JsMap.Set(JsMap.Set(rel, m.uuid, m.uuid), m.aliasId, m.uuid),
                            [m.name] + (if namespace != "" then [namespace + NamespaceSeparator + m.name] else []), m.uuid)
  {
    var u := m.uuid;
    var last := if namespace != "" then [namespace + NamespaceSeparator + m.name] else [];
    assert ClassRelationKeys(m, namespace) == [u] + ([m.aliasId] + ([m.name] + last));
    JsMap.SetAllCons(rel, u, [m.aliasId] + ([m.name] + last), u);
    JsMap.SetAllCons(JsMap.Set(rel, u, u), m.aliasId, [m.name] + last, u);
  }

  /** With a truthy UUID and a falsy alias: the UUID, then the tail. */
  lemma ClassRelationWithoutAlias(rel: Relation, m: ComponentModule, namespace: string)
    requires m.uuid != "" && m.aliasId == ""
    ensures SaveClassRelationOf(rel, m, namespace)
            == JsMap.SetAll(JsMap.Set(rel, m.uuid, m.uuid),
                            [m.name] + (if namespace != "" then [namespace + NamespaceSeparator + m.name] else []), m.uuid)
  {
    var u := m.uuid;
    var last := if namespace != "" then [namespace + NamespaceSeparator + m.name] else [];
    assert ClassRelationKeys(m, namespace) == [u] + ([m.name] + last);
    JsMap.SetAllCons(rel, u, [m.name] + last, u);
  }

  /** `saveClassRelation` as the chain of `set` calls it performs, branch by branch. */
  lemma SaveClassRelationSteps(rel: Relation, m: ComponentModule, namespace: string)
    ensures SaveClassRelationOf(rel, m, namespace)
            == var r0 := JsMap.Set(rel, m.uuid, m.uuid);
               if m.uuid == "" then r0
               else
                 var r1 := if m.aliasId != "" then JsMap.Set(r0, m.aliasId, m.uuid) else r0;
                 var r2 := JsMap.Set(r1, m.name, m.uuid);
                 if namespace != "" then JsMap.Set(r2, namespace + NamespaceSeparator + m.name, m.uuid) else r2
  {
    var u := m.uuid;
    var r0 := JsMap.Set(rel, u, u);
    if u == "" {
      assert ClassRelationKeys(m, namespace) == [u] + [];
      JsMap.SetAllCons(rel, u, [], u);
    } else if m.aliasId != "" {
      ClassRelationWithAlias(rel, m, namespace);
      ClassRelationTail(JsMap.Set(r0, m.aliasId, u), m, namespace);
    } else {
      ClassRelationWithoutAlias(rel, m, namespace);
      ClassRelationTail(r0, m, namespace);
    }
  }

  /** The table after `saveFunctionRelation(id, uuid)`: the UUID maps to itself, then `id` to the UUID. */
  function SaveFunctionRelationOf(rel: Relation, id: string, uuid: string): (r: Relation)
    ensures forall q :: JsMap.Has(r, q) <==> JsMap.Has(rel, q) || q == uuid || q == id
    ensures JsMap.DistinctKeys(rel) ==> JsMap.DistinctKeys(r)
  {
    JsMap.HasSetAll(rel, [uuid, id], uuid);
    assert JsMap.DistinctKeys(rel) ==> JsMap.DistinctKeys(JsMap.SetAll(rel, [uuid, id], uuid)) by {
      if JsMap.DistinctKeys(rel) {
        JsMap.SetAllDistinct(rel, [uuid, id], uuid);
      }
    }
    JsMap.SetAll(rel, [uuid, id], uuid)
  }

  /**
   * With a truthy UUID, every name of the component resolves to the UUID afterwards, and keys
   * that are not among its names read as before.
   */
  lemma SaveClassRelationResolves(rel: Relation, m: ComponentModule, namespace: string, q: string)
    requires m.uuid != ""
    ensures JsMap.Get(SaveClassRelationOf(rel, m, namespace), m.uuid) == Some(m.uuid)
    ensures JsMap.Get(SaveClassRelationOf(rel, m, namespace), m.name) == Some(m.uuid)
    ensures m.aliasId != "" ==> JsMap.Get(SaveClassRelationOf(rel, m, namespace), m.aliasId) == Some(m.uuid)
    ensures namespace != "" ==>
      JsMap.Get(SaveClassRelationOf(rel, m, namespace), namespace + NamespaceSeparator + m.name) == Some(m.uuid)
    ensures q != m.uuid && q != m.name && (m.aliasId == "" || q != m.aliasId)
            && (namespace == "" || q != namespace + NamespaceSeparator + m.name)
            ==> JsMap.Get(SaveClassRelationOf(rel, m, namespace), q) == JsMap.Get(rel, q)
  {
    var ks := ClassRelationKeys(m, namespace);
    var qualified := namespace + NamespaceSeparator + m.name;
    var tail := (if m.aliasId != "" then [m.aliasId] else []) + [m.name]
                + (if namespace != "" then [qualified] else []);
    assert ks == [m.uuid] + tail;
    assert m.uuid in ks && m.name in ks;
    assert m.aliasId != "" ==> m.aliasId in ks;
    assert namespace != "" ==> qualified in ks;
    assert q != m.uuid && q != m.name && (m.aliasId == "" || q != m.aliasId) && (namespace == "" || q != qualified)
           ==> q !in ks;
    JsMap.GetSetAll(rel, ks, m.uuid, m.uuid);
    JsMap.GetSetAll(rel, ks, m.uuid, m.name);
    JsMap.GetSetAll(rel, ks, m.uuid, m.aliasId);
    JsMap.GetSetAll(rel, ks, m.uuid, qualified);
    JsMap.GetSetAll(rel, ks, m.uuid, q);
  }

  /** With a falsy UUID only the self entry for it is written: no alias, name or namespace key is added. */
  lemma SaveClassRelationFalsyUuid(rel: Relation, m: ComponentModule, namespace: string, q: string)
    requires m.uuid == ""
    ensures SaveClassRelationOf(rel, m, namespace) == JsMap.Set(rel, "", "")
    ensures JsMap.Keys(SaveClassRelationOf(rel, m, namespace))
            == if JsMap.Has(rel, "") then JsMap.Keys(rel) else JsMap.Keys(rel) + [""]
    ensures q != "" ==> JsMap.Get(SaveClassRelationOf(rel, m, namespace), q) == JsMap.Get(rel, q)
  {
    assert ClassRelationKeys(m, namespace) == [""];
    assert SaveClassRelationOf(rel, m, namespace) == JsMap.SetAll(JsMap.Set(rel, "", ""), [], "");
    JsMap.KeysSet(rel, "", "");
    JsMap.GetSet(rel, "", "", q);
  }

  /** After `saveFunctionRelation(id, uuid)`, both resolve to the UUID and every other key reads as before. */
  lemma SaveFunctionRelationResolves(rel: Relation, id: string, uuid: string, q: string)
    ensures JsMap.Get(SaveFunctionRelationOf(rel, id, uuid), uuid) == Some(uuid)
    ensures JsMap.Get(SaveFunctionRelationOf(rel, id, uuid), id) == Some(uuid)
    ensures q != id && q != uuid ==> JsMap.Get(SaveFunctionRelationOf(rel, id, uuid), q) == JsMap.Get(rel, q)
  {
    JsMap.GetSetAll(rel, [uuid, id], uuid, uuid);
    JsMap.GetSetAll(rel, [uuid, id], uuid, id);
    JsMap.GetSetAll(rel, [uuid, id], uuid, q);
  }

  /** Writes are upserts: a later `saveFunctionRelation` for the same id overwrites the earlier mapping. */
  lemma SaveFunctionRelationLastWins(rel: Relation, id: string, first: string, second: string)
    ensures JsMap.Get(SaveFunctionRelationOf(SaveFunctionRelationOf(rel, id, first), id, second), id) == Some(second)
    ensures first != id && first != second ==>
      JsMap.Get(SaveFunctionRelationOf(SaveFunctionRelationOf(rel, id, first), id, second), first) == Some(first)
  {
    var once := SaveFunctionRelationOf(rel, id, first);
    SaveFunctionRelationResolves(once, id, second, id);
    SaveFunctionRelationResolves(once, id, second, first);
    SaveFunctionRelationResolves(rel, id, first, first);
  }

  /** `LegacyIdentifierRelation`: the relation table as an object whose `storeMap` its methods update. */
  class LegacyIdentifierRelation {
    var storeMap: Relation

    ghost predicate Valid()
      reads this
    {
      JsMap.DistinctKeys(storeMap)
    }

    constructor ()
      ensures Valid() && storeMap == []
    {
      storeMap := [];
    }

    /** `saveClassRelation(module, namespace)`. */
    method SaveClassRelation(m: ComponentModule, namespace: string)
      requires Valid()
      modifies this
      ensures Valid()
      ensures storeMap == SaveClassRelationOf(old(storeMap), m, namespace)
    {
      ghost var before := storeMap;
      var componentId := m.uuid;
      storeMap := JsMap.Set(storeMap, componentId, componentId);
      if componentId != "" {
        var aliasId := m.aliasId;
        if aliasId != "" {
          storeMap := JsMap.Set(storeMap, aliasId, componentId);
        }
        storeMap := JsMap.Set(storeMap, m.name, componentId);
        if namespace != "" {
          storeMap := JsMap.Set(storeMap, namespace + NamespaceSeparator + m.name, componentId);
        }
      }
      SaveClassRelationSteps(before, m, namespace);
    }

    /** `saveFunctionRelation(id, uuid)`. */
    method SaveFunctionRelation(id: string, uuid: string)
      requires Valid()
      modifies this
      ensures Valid()
      ensures storeMap == SaveFunctionRelationOf(old(storeMap), id, uuid)
    {
      ghost var before := storeMap;
      JsMap.SetAllSnoc(before, [], uuid, uuid);
      storeMap := JsMap.Set(storeMap, uuid, uuid);
      JsMap.SetAllSnoc(before, [uuid], id, uuid);
      storeMap := JsMap.Set(storeMap, id, uuid);
      JsMap.SetAllDistinct(before, [uuid, id], uuid);
    }

    /** `hasRelation(id)`: the table holds an entry for `id`, the trivial self entries included. */
    function HasRelation(id: string): (b: bool)
      reads this
      ensures b <==> exists i :: 0 <= i < |storeMap| && storeMap[i].0 == id
    {
      JsMap.Has(storeMap, id)
    }

    /** `getRelation(id)`: the stored canonical id, or `None` (`undefined`) exactly when there is no entry. */
    function GetRelation(id: string): (r: Option<string>)
      reads this
      ensures r.None? <==> !HasRelation(id)
      ensures r.Some? ==> (id, r.value) in storeMap
      ensures Valid() ==> forall i :: 0 <= i < |storeMap| && storeMap[i].0 == id ==> r == Some(storeMap[i].1)
    {
      if HasRelation(id) then JsMap.Get(storeMap, id) else None
    }
  }
}
