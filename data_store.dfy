/** The per-entity-set collection: a table from key tuple to instance plus the key counter,
    first as values with the effect of each operation, then as the mutable DataStore. */
module DataStores {
  import opened Entities
  import opened KeyEngine

  /** The contents of one store: its table and the next counter value. */
  datatype TableState = TableState(table: map<KeyTuple, Entity>, counter: nat)

  /** The outcome of a create: the new contents and the instance as stored, with its key
      written back. */
  datatype Creation = Creation(state: TableState, stored: Entity)

  /** Every instance of the table sits under its own key tuple. */
  ghost predicate KeyedTable(table: map<KeyTuple, Entity>, names: seq<string>)
  {
    forall k | k in table :: KeyOf(table[k], names) == Some(k)
  }

  /** The table is keyed and the counter has started. */
  ghost predicate WellKeyed(st: TableState, names: seq<string>)
  {
    st.counter >= 1 && KeyedTable(st.table, names)
  }

  /** The effect of createData on one store. A proposed key tuple that is free is kept;
      an unset or already used one is replaced by the first free generated key tuple,
      drawn from the counter onwards, and written back onto the instance. */
  function CreateInto(st: TableState, names: seq<string>, e: Entity): (r: Creation)
    requires |names| >= 1
    // the instance lands under a key tuple that was free: nothing stored is lost or changed
    ensures KeyOf(r.stored, names).Some?
    ensures KeyOf(r.stored, names).value !in st.table
    ensures r.state.table == st.table[KeyOf(r.stored, names).value := r.stored]
    ensures |r.state.table| == |st.table| + 1
    ensures WellKeyed(st, names) ==> WellKeyed(r.state, names)
    // non-key properties and navigation fields survive the key write-back
    ensures r.stored.nav == e.nav
    ensures forall p | p in e.props && p !in names :: p in r.stored.props && r.stored.props[p] == e.props[p]
    // a free explicit key is kept and the counter is not touched
    ensures KeyOf(e, names).Some? && KeyOf(e, names).value !in st.table ==>
              r.stored == e && r.state.counter == st.counter
    // otherwise the least free generated key at or after the counter is used, and the
    // counter moves past it, so that value is never handed out again
    ensures !(KeyOf(e, names).Some? && KeyOf(e, names).value !in st.table) ==>
              && st.counter < r.state.counter
              && r.stored == WithKey(e, GenKey(names, r.state.counter - 1))
              && forall m | st.counter <= m < r.state.counter - 1 :: GenKey(names, m) in st.table
  {
    var proposed := KeyOf(e, names);
    if proposed.Some? && proposed.value !in st.table then
      Creation(TableState(st.table[proposed.value := e], st.counter), e)
    else
      var n := FirstFreeFrom(st.table, names, st.counter);
      var key := GenKey(names, n);
      WithGenKey(e, names, n);
      Creation(TableState(st.table[key := WithKey(e, key)], n + 1), WithKey(e, key))
  }

  /** When an instance needs a generated key and the counter's own key tuple is free, the
      counter value is the one used, and the counter moves one step. */
  lemma CreateUsesFreeCounter(st: TableState, names: seq<string>, e: Entity)
    requires |names| >= 1
    requires !(KeyOf(e, names).Some? && KeyOf(e, names).value !in st.table)
    requires GenKey(names, st.counter) !in st.table
    ensures CreateInto(st, names, e).stored == WithKey(e, GenKey(names, st.counter))
    ensures CreateInto(st, names, e).state == TableState(st.table[GenKey(names, st.counter) := WithKey(e, GenKey(names, st.counter))], st.counter + 1)
  {
  }

  /** The effect of updateData on a table: the instance whose key tuple is stored replaces
      the stored one wholesale; an instance with an unset or unknown key changes nothing. */
  function ReplaceIn(table: map<KeyTuple, Entity>, names: seq<string>, e: Entity): (r: Option<map<KeyTuple, Entity>>)
    ensures r.Some? <==> KeyOf(e, names).Some? && KeyOf(e, names).value in table
    ensures r.Some? ==> r.value.Keys == table.Keys
    ensures r.Some? ==> r.value[KeyOf(e, names).value] == e
    ensures r.Some? ==> forall k | k in table && k != KeyOf(e, names).value :: r.value[k] == table[k]
    ensures r.Some? && KeyedTable(table, names) ==> KeyedTable(r.value, names)
  {
    var key := KeyOf(e, names);
    if key.Some? && key.value in table then Some(table[key.value := e]) else None
  }

  /** One store of the in-memory data source. */
  class DataStore {
    const keyNames: seq<string>
    var table: map<KeyTuple, Entity>
    var counter: nat

    function State(): TableState
      reads this
    {
      TableState(table, counter)
    }

    ghost predicate Valid()
      reads this
    {
      |keyNames| >= 1 && WellKeyed(State(), keyNames)
    }

    constructor (keyNames: seq<string>)
      requires |keyNames| >= 1
      ensures Valid() && this.keyNames == keyNames
      ensures State() == TableState(map[], 1)
    {
      this.keyNames := keyNames;
      table := map[];
      counter := 1;
    }

    /** Inserts `e`, generating and writing back a key when its own is unset or used;
        returns the instance as stored. */
    method Create(e: Entity) returns (stored: Entity)
      requires Valid()
      modifies this
      ensures Creation(State(), stored) == CreateInto(old(State()), keyNames, e)
      ensures Valid()
    {
      ghost var outcome := CreateInto(State(), keyNames, e);
      var proposed := KeyOf(e, keyNames);
      if proposed.Some? && proposed.value !in table {
        table := table[proposed.value := e];
        stored := e;
        assert outcome == Creation(State(), stored);
        return;
      }
      ghost var first := FirstFreeFrom(table, keyNames, counter);
      // draw counter values until the generated key tuple is free
      var n := counter;
      var key := GenKey(keyNames, n);
      while key in table
        invariant table == old(table) && counter == old(counter)
        invariant key == GenKey(keyNames, n)
        invariant first == FirstFreeFrom(table, keyNames, n)
        decreases |Taken(table, keyNames, n)|
      {
        TakenShrinks(table, keyNames, n);
        n := n + 1;
        key := GenKey(keyNames, n);
      }
      counter := n + 1;
      assert first == n;
      stored := WithKey(e, key);
      assert outcome.stored == stored;
      assert outcome.state.counter == n + 1;
      assert outcome.state.table == table[key := stored];
      table := table[key := stored];
    }

    /** The instance stored under exactly the key tuple `keys`, if any. */
    function Read(keys: KeyTuple): (r: Option<Entity>)
      requires Valid()
      reads this
      ensures r.Some? <==> keys in table
      ensures r.Some? ==> r.value == table[keys]
      ensures r.Some? ==> KeyOf(r.value, keyNames) == Some(keys)
    {
      if keys in table then Some(table[keys]) else None
    }

    /** Replaces the instance stored under `e`'s key tuple by `e` and returns the replaced
        one; fails, changing nothing, when that key tuple is unset or not stored. */
    method Update(e: Entity) returns (r: Result<Entity>)
      requires Valid()
      modifies this
      ensures Valid() && counter == old(counter)
      ensures var replaced := ReplaceIn(old(table), keyNames, e);
              && (replaced.None? ==> r == Err(UpdateTargetMissing) && table == old(table))
              && (replaced.Some? ==> r == Ok(old(table)[KeyOf(e, keyNames).value]) && table == replaced.value)
    {
      var key := KeyOf(e, keyNames);
      if key.Some? && key.value in table {
        r := Ok(table[key.value]);
        table := table[key.value := e];
      } else {
        r := Err(UpdateTargetMissing);
      }
    }
  }
}
