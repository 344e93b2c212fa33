/** The in-memory data source: one DataStore per entity set, addressed by entity-set name
    through the metadata, plus navigation over the related data attached to an instance. */
module InMemoryDs {
  import opened Entities
  import opened KeyEngine
  import opened DataStores

  /** What readRelatedData yields: the whole related collection, or one member of it. */
  datatype Related = Many(members: seq<Entity>) | One(member: Entity)

  /** The index of the first member of `s` whose key tuple is `keys`, if any. */
  function FindByKey(s: seq<Entity>, names: seq<string>, keys: KeyTuple): (r: Option<nat>)
    ensures r.Some? ==> r.value < |s| && KeyOf(s[r.value], names) == Some(keys)
    ensures r.Some? ==> forall j | 0 <= j < r.value :: KeyOf(s[j], names) != Some(keys)
    ensures r.None? ==> forall j | 0 <= j < |s| :: KeyOf(s[j], names) != Some(keys)
  {
    if s == [] then None
    else if KeyOf(s[0], names) == Some(keys) then Some(0)
    else match FindByKey(s[1..], names, keys)
      case None => None
      case Some(i) => Some(i + 1)
  }

  /** The instances attached to navigation field `field` of `source` (none when unset). */
  function Attached(source: Entity, field: string): seq<Entity>
  {
    if field in source.nav then source.nav[field] else []
  }

  class AnnotationInMemoryDs {
    const meta: map<string, EntitySetInfo>
    const stores: map<string, DataStore>

    ghost predicate Valid()
      reads this, stores.Values
    {
      && WellFormedMetadata(meta)
      && stores.Keys == meta.Keys
      && (forall s | s in stores :: stores[s].Valid() && stores[s].keyNames == meta[s].keyNames)
      && (forall s, t | s in stores && t in stores && s != t :: stores[s] != stores[t])
    }

    /** A data source whose entity sets are those of `meta`, every store empty with its
        counter at 1. */
    constructor (meta: map<string, EntitySetInfo>)
      requires WellFormedMetadata(meta)
      ensures Valid() && this.meta == meta
      ensures forall s | s in stores :: fresh(stores[s]) && stores[s].State() == TableState(map[], 1)
    {
      var m: map<string, DataStore> := map[];
      var todo := meta.Keys;
      while todo != {}
        invariant todo <= meta.Keys && m.Keys == meta.Keys - todo
        invariant forall s | s in m :: fresh(m[s]) && m[s].Valid() && m[s].keyNames == meta[s].keyNames
        invariant forall s | s in m :: m[s].State() == TableState(map[], 1)
        invariant forall s, t | s in m && t in m && s != t :: m[s] != m[t]
        decreases todo
      {
        var s :| s in todo;
        var d := new DataStore(meta[s].keyNames);
        m := m[s := d];
        todo := todo - {s};
      }
      this.meta := meta;
      stores := m;
    }

    /** createData: inserts `e` into the store of entity set `entitySet` and returns the instance
        as stored (with a generated key written back where one was needed). The other
        stores do not change. */
    method CreateData(entitySet: string, e: Entity) returns (r: Result<Entity>)
      requires Valid()
      modifies stores.Values
      ensures Valid()
      ensures entitySet !in stores ==> r == Err(UnknownEntitySet(entitySet))
      ensures entitySet in stores ==>
                var c := CreateInto(old(stores[entitySet].State()), meta[entitySet].keyNames, e);
                r == Ok(c.stored) && stores[entitySet].State() == c.state
      // the instance as stored is read back under its (possibly generated) key
      ensures r.Ok? ==> entitySet in meta && ReadData(entitySet, KeyOf(r.value, meta[entitySet].keyNames).value) == r
      ensures forall s | s in stores && s != entitySet :: stores[s].State() == old(stores[s].State())
    {
      if entitySet !in stores {
        return Err(UnknownEntitySet(entitySet));
      }
      var stored := stores[entitySet].Create(e);
      r := Ok(stored);
    }

    /** readData: the instance of entity set `entitySet` stored under exactly the key map `keys`. */
    function ReadData(entitySet: string, keys: KeyTuple): (r: Result<Entity>)
      requires Valid()
      reads this, stores.Values
      ensures entitySet !in meta ==> r == Err(UnknownEntitySet(entitySet))
      ensures entitySet in meta ==> (r.Ok? <==> keys in stores[entitySet].table)
      ensures r.Ok? ==> entitySet in meta && r.value == stores[entitySet].table[keys]
      ensures r.Ok? ==> KeyOf(r.value, meta[entitySet].keyNames) == Some(keys)
      ensures r.Err? && entitySet in meta ==> r.error == NotFound
    {
      if entitySet !in stores then Err(UnknownEntitySet(entitySet))
      else match stores[entitySet].Read(keys)
        case None => Err(NotFound)
        case Some(found) => Ok(found)
    }

    /** updateData: replaces the stored instance with `e`'s key tuple by `e`, wholesale;
        returns the replaced instance, or fails without change when that key is not stored. */
    method UpdateData(entitySet: string, e: Entity) returns (r: Result<Entity>)
      requires Valid()
      modifies stores.Values
      ensures Valid()
      ensures entitySet !in stores ==> r == Err(UnknownEntitySet(entitySet))
      ensures entitySet in stores ==>
                var replaced := ReplaceIn(old(stores[entitySet].table), meta[entitySet].keyNames, e);
                && stores[entitySet].counter == old(stores[entitySet].counter)
                && (replaced.None? ==> r == Err(UpdateTargetMissing) && stores[entitySet].table == old(stores[entitySet].table))
                && (replaced.Some? ==> r.Ok? && stores[entitySet].table == replaced.value)
      // after a successful update the new instance is what is read under its key
      ensures r.Ok? ==> entitySet in meta && ReadData(entitySet, KeyOf(e, meta[entitySet].keyNames).value) == Ok(e)
      ensures forall s | s in stores && s != entitySet :: stores[s].State() == old(stores[s].State())
    {
      if entitySet !in stores {
        return Err(UnknownEntitySet(entitySet));
      }
      r := stores[entitySet].Update(e);
    }

    /** readRelatedData: the data for `targetSet` attached to `source` of `sourceSet`. An
        empty key map yields the whole attached collection; otherwise the first attached
        member whose key tuple is `targetKeys`, or NotFound. The stores are not consulted. */
    function ReadRelatedData(sourceSet: string, source: Entity, targetSet: string, targetKeys: KeyTuple): (r: Result<Related>)
      ensures sourceSet !in meta || targetSet !in meta ==> r.Err? && r.error.UnknownEntitySet?
      ensures sourceSet in meta && targetSet in meta && targetSet !in meta[sourceSet].navigation ==>
                r == Err(NoNavigation(sourceSet, targetSet))
      ensures r.Ok? ==> sourceSet in meta && targetSet in meta && targetSet in meta[sourceSet].navigation
      // a declared navigation always succeeds with an empty key map, and otherwise fails
      // only with NotFound, exactly when no attached member has the requested key tuple
      ensures sourceSet in meta && targetSet in meta && targetSet in meta[sourceSet].navigation ==>
                && (targetKeys == map[] ==> r.Ok?)
                && (r.Ok? || r == Err(NotFound))
                && ((exists m | m in Attached(source, meta[sourceSet].navigation[targetSet]) ::
                       KeyOf(m, meta[targetSet].keyNames) == Some(targetKeys)) ==> r.Ok?)
      ensures r.Ok? && targetKeys == map[] ==>
                r.value == Many(Attached(source, meta[sourceSet].navigation[targetSet]))
      ensures r.Ok? && targetKeys != map[] ==>
                && r.value.One?
                && r.value.member in Attached(source, meta[sourceSet].navigation[targetSet])
                && KeyOf(r.value.member, meta[targetSet].keyNames) == Some(targetKeys)
                // the member returned is the first attached one with that key tuple
                && var i := FindByKey(Attached(source, meta[sourceSet].navigation[targetSet]), meta[targetSet].keyNames, targetKeys);
                   i.Some? && r.value.member == Attached(source, meta[sourceSet].navigation[targetSet])[i.value]
      ensures r.Err? && r.error == NotFound ==>
                && targetKeys != map[]
                && forall m | m in Attached(source, meta[sourceSet].navigation[targetSet]) ::
                     KeyOf(m, meta[targetSet].keyNames) != Some(targetKeys)
    {
      if sourceSet !in meta then Err(UnknownEntitySet(sourceSet))
      else if targetSet !in meta then Err(UnknownEntitySet(targetSet))
      else if targetSet !in meta[sourceSet].navigation then Err(NoNavigation(sourceSet, targetSet))
      else
        var related := Attached(source, meta[sourceSet].navigation[targetSet]);
        if targetKeys == map[] then Ok(Many(related))
        else match FindByKey(related, meta[targetSet].keyNames, targetKeys)
          case None => Err(NotFound)
          case Some(i) => Ok(One(related[i]))
    }
  }
}
