/** The key engine: the key tuple of an instance, the store-generated key tuples and the
    search for the first free generated key. */
module KeyEngine {
  import opened Entities
  import opened Decimal

  /** The key tuple of `e` under the key-property names `names`, or None when some key
      property is unset (the store then generates a key). */
  function KeyOf(e: Entity, names: seq<string>): (r: Option<KeyTuple>)
    ensures r.Some? <==> forall k | k in names :: k in e.props
    ensures r.Some? ==> r.value.Keys == set k | k in names
    ensures r.Some? ==> forall k | k in r.value :: r.value[k] == e.props[k]
  {
    if forall k | k in names :: k in e.props then Some(map k | k in names :: e.props[k]) else None
  }

  /** The key tuple the store generates from counter value n: its decimal string in every
      key property. */
  function GenKey(names: seq<string>, n: nat): KeyTuple
  {
    map k | k in names :: NatToString(n)
  }

  /** The instance with the key tuple written back onto its key properties. */
  function WithKey(e: Entity, key: KeyTuple): Entity
  {
    e.(props := e.props + key)
  }

  /** Different counter values give different key tuples. */
  lemma GenKeyInjective(names: seq<string>, a: nat, b: nat)
    requires |names| >= 1
    ensures GenKey(names, a) == GenKey(names, b) ==> a == b
  {
    if GenKey(names, a) == GenKey(names, b) {
      assert GenKey(names, a)[names[0]] == NatToString(a);
      NatToStringInjective(a, b);
    }
  }

  /** Writing a generated key back makes it the instance's key tuple, and keeps every
      non-key property and every navigation field. */
  lemma WithGenKey(e: Entity, names: seq<string>, n: nat)
    ensures KeyOf(WithKey(e, GenKey(names, n)), names) == Some(GenKey(names, n))
    ensures WithKey(e, GenKey(names, n)).nav == e.nav
    ensures forall p | p in e.props && p !in names :: WithKey(e, GenKey(names, n)).props[p] == e.props[p]
  {
    var key := GenKey(names, n);
    var r := KeyOf(WithKey(e, key), names);
    assert r.Some?;
    assert r.value == key;
  }

  /** The stored key tuples that are generated from a counter value of at least c;
      it shrinks as the search for a free key moves past a taken one. */
  ghost function Taken<V>(table: map<KeyTuple, V>, names: seq<string>, c: nat): set<KeyTuple>
    requires |names| >= 1
  {
    set k | k in table && names[0] in k && Value(k[names[0]]) >= c
  }

  lemma TakenShrinks<V>(table: map<KeyTuple, V>, names: seq<string>, c: nat)
    requires |names| >= 1
    requires GenKey(names, c) in table
    ensures |Taken(table, names, c + 1)| < |Taken(table, names, c)|
  {
    ValueOfNatToString(c);
    var g := GenKey(names, c);
    assert g[names[0]] == NatToString(c);
    assert g in Taken(table, names, c);
    assert g !in Taken(table, names, c + 1);
    var rest := Taken(table, names, c) - {g};
    assert Taken(table, names, c + 1) <= rest;
    assert |rest| == |Taken(table, names, c)| - 1;
    SubsetCard(Taken(table, names, c + 1), rest);
  }

  lemma {:induction false} SubsetCard<T>(a: set<T>, b: set<T>)
    requires a <= b
    ensures |a| <= |b|
    decreases b
  {
    if a != {} {
      var x :| x in a;
      SubsetCard(a - {x}, b - {x});
    }
  }

  /** The least counter value n >= c whose generated key tuple is not in the table. */
  function FirstFreeFrom<V>(table: map<KeyTuple, V>, names: seq<string>, c: nat): (n: nat)
    requires |names| >= 1
    ensures c <= n
    ensures GenKey(names, n) !in table
    ensures forall m | c <= m < n :: GenKey(names, m) in table
    decreases |Taken(table, names, c)|
  {
    if GenKey(names, c) !in table then c
    else
      TakenShrinks(table, names, c);
      FirstFreeFrom(table, names, c + 1)
  }
}
