/** The data source's observable behaviour, stated for all instances and key layouts: the
    effect of creating into a fresh store, of a duplicate key, of a composite key, of an
    update, of navigation reads and of a run of creates. */
module Behaviour {
  import opened Entities
  import opened KeyEngine
  import opened DataStores
  import opened InMemoryDs

  /** The first key a fresh Id-keyed store generates is {Id: "1"}. */
  lemma FirstGeneratedId()
    ensures GenKey(["Id"], 1) == map["Id" := "1"]
  {
  }

  /** An instance whose key is unset, created into a fresh store, gets the key generated
      from counter value 1 written back; it is the only stored instance, it is found under
      that key, and its other properties are kept. */
  lemma CreateUnkeyedIntoFreshStore(names: seq<string>, e: Entity)
    requires |names| >= 1
    requires KeyOf(e, names).None?
    ensures var c := CreateInto(TableState(map[], 1), names, e);
            && c.stored == WithKey(e, GenKey(names, 1))
            && c.state == TableState(map[GenKey(names, 1) := c.stored], 2)
            && KeyOf(c.stored, names) == Some(GenKey(names, 1))
            && forall p | p in e.props && p !in names :: c.stored.props[p] == e.props[p]
  {
  }

  /** An instance with its own key, created into a fresh store, is stored unchanged under
      that key and the counter is not drawn. */
  lemma CreateKeyedIntoFreshStore(names: seq<string>, e: Entity)
    requires |names| >= 1
    requires KeyOf(e, names).Some?
    ensures var c := CreateInto(TableState(map[], 1), names, e);
            c.stored == e && c.state == TableState(map[KeyOf(e, names).value := e], 1)
  {
  }

  /** Two instances proposing the same key: the first keeps it, the second gets the first
      generated key, and both are stored. */
  lemma CreateDuplicateKey(names: seq<string>, first: Entity, second: Entity)
    requires |names| >= 1
    requires KeyOf(first, names).Some? && KeyOf(second, names) == KeyOf(first, names)
    requires KeyOf(first, names).value != GenKey(names, 1)
    ensures var c1 := CreateInto(TableState(map[], 1), names, first);
            var c2 := CreateInto(c1.state, names, second);
            && c2.stored == WithKey(second, GenKey(names, 1))
            && c2.state.table == map[KeyOf(first, names).value := first, GenKey(names, 1) := c2.stored]
            && c2.state.counter == 2
  {
  }

  /** The key tuple does not depend on the order in which the key properties are listed,
      so a composite key is found whatever order its parts are given in. */
  lemma KeyOrderIrrelevant(e: Entity, a: seq<string>, b: seq<string>)
    requires forall k :: k in a <==> k in b
    ensures KeyOf(e, a) == KeyOf(e, b)
  {
    if KeyOf(e, a).Some? {
      assert KeyOf(e, b).Some?;
      assert KeyOf(e, a).value == KeyOf(e, b).value;
    }
  }

  /** Updating the instance just created, with a new instance carrying the same key,
      replaces it wholesale: only the new instance is found under the key, and no instance
      is added or lost. */
  lemma UpdateAfterCreate(st: TableState, names: seq<string>, e: Entity, updated: Entity)
    requires |names| >= 1
    requires KeyOf(e, names).Some? && KeyOf(e, names).value !in st.table
    requires KeyOf(updated, names) == KeyOf(e, names)
    ensures var c := CreateInto(st, names, e);
            var r := ReplaceIn(c.state.table, names, updated);
            && r == Some(st.table[KeyOf(e, names).value := updated])
            && |r.value| == |st.table| + 1
  {
    var key := KeyOf(e, names).value;
    var c := CreateInto(st, names, e);
    assert c.state.table == st.table[key := e];
    var r := ReplaceIn(c.state.table, names, updated);
    assert r.value == st.table[key := updated];
  }

  /** Updating an instance whose key is not stored fails and changes nothing. */
  lemma UpdateMissing(table: map<KeyTuple, Entity>, names: seq<string>, e: Entity)
    requires KeyOf(e, names).Some? ==> KeyOf(e, names).value !in table
    ensures ReplaceIn(table, names, e).None?
  {
  }

  /** No two members of `s` share a key tuple. */
  predicate DistinctKeys(s: seq<Entity>, names: seq<string>)
  {
    forall i, j | 0 <= i < j < |s| :: KeyOf(s[i], names).Some? ==> KeyOf(s[i], names) != KeyOf(s[j], names)
  }

  /** Navigating from a source to a target set with an empty key map yields exactly the
      collection attached to the source, whatever it holds. */
  lemma ReadRelatedCollection(ds: AnnotationInMemoryDs, sourceSet: string, source: Entity, targetSet: string)
    requires sourceSet in ds.meta && targetSet in ds.meta && targetSet in ds.meta[sourceSet].navigation
    ensures ds.ReadRelatedData(sourceSet, source, targetSet, map[])
              == Ok(Many(Attached(source, ds.meta[sourceSet].navigation[targetSet])))
  {
  }

  /** Navigating with the key tuple of an attached member, among members of distinct key
      tuples, yields that member. */
  lemma ReadRelatedMember(ds: AnnotationInMemoryDs, sourceSet: string, source: Entity,
                          targetSet: string, i: nat)
    requires sourceSet in ds.meta && targetSet in ds.meta && targetSet in ds.meta[sourceSet].navigation
    requires var related := Attached(source, ds.meta[sourceSet].navigation[targetSet]);
             && i < |related| && KeyOf(related[i], ds.meta[targetSet].keyNames).Some?
             && DistinctKeys(related, ds.meta[targetSet].keyNames)
    requires |ds.meta[targetSet].keyNames| >= 1
    ensures var related := Attached(source, ds.meta[sourceSet].navigation[targetSet]);
            ds.ReadRelatedData(sourceSet, source, targetSet,
                               KeyOf(related[i], ds.meta[targetSet].keyNames).value) == Ok(One(related[i]))
  {
    var names := ds.meta[targetSet].keyNames;
    var related := Attached(source, ds.meta[sourceSet].navigation[targetSet]);
    var keys := KeyOf(related[i], names).value;
    assert keys != map[] by {
      assert names[0] in keys;
    }
    var found := FindByKey(related, names, keys);
    assert found == Some(i);
  }

  /** Creates of a run of instances, one after another, whatever keys they propose (the
      same one, or colliding ones): every one of them is stored, none replaces another, and
      the other entity sets are untouched. */
  method CreateMany(ds: AnnotationInMemoryDs, entitySet: string, es: seq<Entity>)
    requires ds.Valid() && entitySet in ds.stores
    modifies ds.stores.Values
    ensures ds.Valid()
    ensures |ds.stores[entitySet].table| == |old(ds.stores[entitySet].table)| + |es|
    ensures forall k | k in old(ds.stores[entitySet].table) ::
              k in ds.stores[entitySet].table && ds.stores[entitySet].table[k] == old(ds.stores[entitySet].table)[k]
    ensures forall s | s in ds.stores && s != entitySet :: ds.stores[s].State() == old(ds.stores[s].State())
  {
    var i := 0;
    while i < |es|
      invariant ds.Valid() && i <= |es|
      invariant |ds.stores[entitySet].table| == |old(ds.stores[entitySet].table)| + i
      invariant forall k | k in old(ds.stores[entitySet].table) ::
                  k in ds.stores[entitySet].table && ds.stores[entitySet].table[k] == old(ds.stores[entitySet].table)[k]
      invariant forall s | s in ds.stores && s != entitySet :: ds.stores[s].State() == old(ds.stores[s].State())
    {
      var r := ds.CreateData(entitySet, es[i]);
      i := i + 1;
    }
  }
}
