/** Values handled by the in-memory entity store: entity instances described only by
    metadata, key tuples, per-entity-set metadata and the outcomes of store operations. */
module Entities {

  datatype Option<T> = None | Some(value: T)

  /** Why a store operation produced no result. */
  datatype Error =
    | UnknownEntitySet(name: string)                  // metadata does not know the entity set
    | NoNavigation(source: string, target: string)    // no navigation from source to target
    | NotFound                                        // read or navigation found no matching key
    | UpdateTargetMissing                             // update of a key tuple that is not stored

  datatype Result<T> = Ok(value: T) | Err(error: Error)

  /** A key tuple: key-property name to its value. Map equality makes the order of the
      entries irrelevant, as for a key map built in any order. */
  type KeyTuple = map<string, string>

  /** An entity instance: its property values by metadata name (an unset property is absent)
      and its navigation fields, each holding the related instances attached to it
      (a to-one reference is a collection of at most one). */
  datatype Entity = Entity(props: map<string, string>, nav: map<string, seq<Entity>>)

  /** What the metadata says about one entity set: its key-property names and, per target
      entity set, the navigation field on this type that holds the related data. */
  datatype EntitySetInfo = EntitySetInfo(keyNames: seq<string>, navigation: map<string, string>)

  /** Every entity set has at least one key property. */
  predicate WellFormedMetadata(meta: map<string, EntitySetInfo>)
  {
    forall s | s in meta :: |meta[s].keyNames| >= 1
  }
}
