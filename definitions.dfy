/**
 * The records the registry stores and reads. The decorator layer and the definition class that
 * produce them are not part of this model: their readers and predicates are plain fields here.
 */
module Definitions {
  import opened Wrappers

  /**
   * What the decorator layer reads off a decorated class: `getComponentUUID` (the generated
   * identity), `getComponentId` (the declared alias) and `getComponentName` (the class name).
   * A falsy (absent) UUID or alias is the empty string.
   */
  datatype ComponentModule = ComponentModule(uuid: string, aliasId: string, name: string)

  /** Where a definition came from, for diagnostics. */
  datatype CreateFrom = Framework | File | Module

  /**
   * An object definition. The registry reads only `name` and `isSingletonScope`; the scope
   * predicates of the definition class are opaque booleans here.
   */
  datatype ObjectDefinition = ObjectDefinition(
    id: string,
    name: string,
    namespace: Option<string>,
    srcPath: string,
    dependsOn: seq<string>,
    isSingletonScope: bool,
    isRequestScope: bool,
    isAsync: bool,
    allowDowngrade: bool,
    createFrom: CreateFrom)

  /** A live instance built by the construction engine: an opaque handle and its own `name` property, if any. */
  datatype ManagedObject = ManagedObject(handle: nat, name: Option<string>)

  /** One value of the registry's single store: a definition, or an instance under a prefixed key. */
  datatype StoredValue = DefinitionValue(definition: ObjectDefinition) | InstanceValue(instance: ManagedObject)

  /** The `name` property of a stored value, `None` when it has none. */
  function NameOf(v: StoredValue): Option<string>
  {
    match v
    case DefinitionValue(d) => Some(d.name)
    case InstanceValue(o) => o.name
  }
}
