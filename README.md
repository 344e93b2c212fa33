# In-memory entity store of the OData annotation processor

This project models the in-memory data source of the OData 2 annotation processor
(`AnnotationInMemoryDs`). The data source keeps one store per entity set. Each store is a
table from key tuple to entity instance, plus a key counter that starts at 1. Its
operations are:

- `createData`: keeps a caller-supplied key that is free. It gives an instance whose key is
  unset or already used the next free generated key, and writes that key back onto the
  instance.
- `readData`: looks up an instance by its exact key tuple.
- `updateData`: replaces the stored instance with the same key tuple wholesale.
- `readRelatedData`: follows a navigation from a source instance to the instances
  attached to it. With an empty key map it returns the whole collection; otherwise it
  returns the one member with that key.

The store's behaviour is modelled from the test class `AnnotationsInMemoryDsTest`, which
is the only source of this component in the model.

Files:

- `entities.dfy` (`Entities`): instances as values, key tuples, errors and the metadata
  of an entity set. The metadata gives the key-property names and, for each target set,
  the navigation field.
- `decimal.dfy` (`Decimal`): the decimal rendering of counter values and its inverse.
- `key_engine.dfy` (`KeyEngine`): the key tuple of an instance, generated key tuples,
  key write-back, and the search for the first free generated key.
- `data_store.dfy` (`DataStores`): the effect of create and update on one store's table
  as functions, and the mutable `DataStore` class proved against them.
- `in_memory_ds.dfy` (`InMemoryDs`): the `AnnotationInMemoryDs` class with one
  `DataStore` per entity set, and navigation reads.
- `behaviour.dfy` (`Behaviour`): the scenarios of the test class, stated for all
  instances and key layouts.

Keys are strings. An unset key property is one absent from the instance's property map.
A generated key tuple holds the decimal string of the counter value in every key
property.

## Model

| member | source | states |
|---|---|---|
| Decimal.NatToString | odata2-annotation-processor/annotation-processor-core/src/test/java/org/apache/olingo/odata2/core/annotation/data/AnnotationsInMemoryDsTest.java:254-258 | a generated key value is a non-empty string of decimal digits without a leading zero, one digit exactly for values below ten |
| Decimal.ValueOfNatToString | odata2-annotation-processor/annotation-processor-core/src/test/java/org/apache/olingo/odata2/core/annotation/data/AnnotationsInMemoryDsTest.java:254-258 | reading a generated key value back as a number gives the counter value it came from |
| Decimal.NatToStringInjective | odata2-annotation-processor/annotation-processor-core/src/test/java/org/apache/olingo/odata2/core/annotation/data/AnnotationsInMemoryDsTest.java:296-304 | distinct counter values give distinct key values, so generated keys never collide with each other |
| KeyEngine.KeyOf | odata2-annotation-processor/annotation-processor-core/src/test/java/org/apache/olingo/odata2/core/annotation/data/AnnotationsInMemoryDsTest.java:318-322 | an instance has a key tuple exactly when every key property is set; the tuple covers exactly the key properties, with the instance's values |
| KeyEngine.GenKeyInjective | odata2-annotation-processor/annotation-processor-core/src/test/java/org/apache/olingo/odata2/core/annotation/data/AnnotationsInMemoryDsTest.java:296-304 | different counter values give different generated key tuples |
| KeyEngine.WithGenKey | odata2-annotation-processor/annotation-processor-core/src/test/java/org/apache/olingo/odata2/core/annotation/data/AnnotationsInMemoryDsTest.java:251-258 | writing a generated key back makes it the instance's key tuple, and keeps every non-key property and navigation field |
| KeyEngine.TakenShrinks | odata2-annotation-processor/annotation-processor-core/src/test/java/org/apache/olingo/odata2/core/annotation/data/AnnotationsInMemoryDsTest.java:62-83 | skipping a counter value whose key is taken leaves fewer taken keys ahead, so the search for a free key ends |
| KeyEngine.FirstFreeFrom | odata2-annotation-processor/annotation-processor-core/src/test/java/org/apache/olingo/odata2/core/annotation/data/AnnotationsInMemoryDsTest.java:62-83 | the counter value chosen is at or after the counter, its key is free, and every value skipped before it has a taken key |
| DataStores.CreateInto | odata2-annotation-processor/annotation-processor-core/src/test/java/org/apache/olingo/odata2/core/annotation/data/AnnotationsInMemoryDsTest.java:246-305 | the instance lands under a key that was free, nothing stored is lost or changed, the table grows by one, every instance stays under its own key; a free explicit key is kept without touching the counter, otherwise the least free generated key at or after the counter is written back and the counter moves past it |
| DataStores.CreateUsesFreeCounter | odata2-annotation-processor/annotation-processor-core/src/test/java/org/apache/olingo/odata2/core/annotation/data/AnnotationsInMemoryDsTest.java:249-258 | when the counter's own key is free, an instance needing a key gets exactly that key and the counter moves one step |
| DataStores.ReplaceIn | odata2-annotation-processor/annotation-processor-core/src/test/java/org/apache/olingo/odata2/core/annotation/data/AnnotationsInMemoryDsTest.java:352-368 | an update succeeds exactly when the instance's key is set and stored; it replaces that one entry wholesale, keeps every other entry and the key set, and keeps every instance under its own key |
| DataStores.DataStore.constructor | odata2-annotation-processor/annotation-processor-core/src/test/java/org/apache/olingo/odata2/core/annotation/data/AnnotationsInMemoryDsTest.java:55-58 | a new store is empty with its counter at 1 |
| DataStores.DataStore.Create | odata2-annotation-processor/annotation-processor-core/src/test/java/org/apache/olingo/odata2/core/annotation/data/AnnotationsInMemoryDsTest.java:246-305 | drawing counter values until a free generated key is found yields the new table, counter and stored instance of CreateInto, and keeps the store well keyed |
| DataStores.DataStore.Read | odata2-annotation-processor/annotation-processor-core/src/test/java/org/apache/olingo/odata2/core/annotation/data/AnnotationsInMemoryDsTest.java:253-258 | a read finds an instance exactly when the key tuple is stored, returns the instance stored there with all its properties, and that instance has the key tuple |
| DataStores.DataStore.Update | odata2-annotation-processor/annotation-processor-core/src/test/java/org/apache/olingo/odata2/core/annotation/data/AnnotationsInMemoryDsTest.java:352-368 | an update leaves the table ReplaceIn gives and returns the replaced instance, or fails with UpdateTargetMissing and changes nothing; the counter never moves |
| InMemoryDs.FindByKey | odata2-annotation-processor/annotation-processor-core/src/test/java/org/apache/olingo/odata2/core/annotation/data/AnnotationsInMemoryDsTest.java:231-241 | the index returned is that of the first member with the requested key tuple; none is returned only when no member has it |
| InMemoryDs.AnnotationInMemoryDs.constructor | odata2-annotation-processor/annotation-processor-core/src/test/java/org/apache/olingo/odata2/core/annotation/data/AnnotationsInMemoryDsTest.java:55-58 | a new data source has one fresh, empty store per entity set of the metadata, each with its counter at 1 and its own key properties |
| InMemoryDs.AnnotationInMemoryDs.CreateData | odata2-annotation-processor/annotation-processor-core/src/test/java/org/apache/olingo/odata2/core/annotation/data/AnnotationsInMemoryDsTest.java:246-305 | an unknown entity set is an error; otherwise the set's store takes the state CreateInto gives, the instance as stored is returned and read back under its key, and no other store changes |
| InMemoryDs.AnnotationInMemoryDs.ReadData | odata2-annotation-processor/annotation-processor-core/src/test/java/org/apache/olingo/odata2/core/annotation/data/AnnotationsInMemoryDsTest.java:253-258 | an unknown entity set is an error; otherwise a read succeeds exactly when the key tuple is stored, returns the stored instance, which has that key tuple, and otherwise reports NotFound |
| InMemoryDs.AnnotationInMemoryDs.UpdateData | odata2-annotation-processor/annotation-processor-core/src/test/java/org/apache/olingo/odata2/core/annotation/data/AnnotationsInMemoryDsTest.java:352-368 | an unknown entity set is an error; otherwise the store takes the table ReplaceIn gives or fails with UpdateTargetMissing unchanged; after success the new instance is what is read under its key; no other store changes |
| InMemoryDs.AnnotationInMemoryDs.ReadRelatedData | odata2-annotation-processor/annotation-processor-core/src/test/java/org/apache/olingo/odata2/core/annotation/data/AnnotationsInMemoryDsTest.java:189-241 | unknown sets and a target set without navigation are errors; a declared navigation with an empty key map always succeeds with the collection attached to the source; with a key map it returns the first attached member with that key tuple, and fails, only with NotFound, exactly when no attached member has it |
| Behaviour.FirstGeneratedId | odata2-annotation-processor/annotation-processor-core/src/test/java/org/apache/olingo/odata2/core/annotation/data/AnnotationsInMemoryDsTest.java:253-258 | the first key an Id-keyed store generates is {Id: "1"} |
| Behaviour.CreateUnkeyedIntoFreshStore | odata2-annotation-processor/annotation-processor-core/src/test/java/org/apache/olingo/odata2/core/annotation/data/AnnotationsInMemoryDsTest.java:246-259 | an instance without a key, created into a fresh store, gets the key of counter value 1 written back, is the only stored instance, is found under that key and keeps its other properties |
| Behaviour.CreateKeyedIntoFreshStore | odata2-annotation-processor/annotation-processor-core/src/test/java/org/apache/olingo/odata2/core/annotation/data/AnnotationsInMemoryDsTest.java:262-277 | an instance with its own key, created into a fresh store, is stored unchanged under that key and the counter is not drawn |
| Behaviour.CreateDuplicateKey | odata2-annotation-processor/annotation-processor-core/src/test/java/org/apache/olingo/odata2/core/annotation/data/AnnotationsInMemoryDsTest.java:280-305 | of two instances proposing the same key, the first keeps it and the second gets the first generated key written back; both are stored |
| Behaviour.KeyOrderIrrelevant | odata2-annotation-processor/annotation-processor-core/src/test/java/org/apache/olingo/odata2/core/annotation/data/AnnotationsInMemoryDsTest.java:318-322 | the key tuple of a composite key does not depend on the order of its parts |
| Behaviour.UpdateAfterCreate | odata2-annotation-processor/annotation-processor-core/src/test/java/org/apache/olingo/odata2/core/annotation/data/AnnotationsInMemoryDsTest.java:330-369 | updating the instance just created, with another carrying the same key, succeeds and leaves only the new instance under the key, with no instance added or lost |
| Behaviour.UpdateMissing | odata2-annotation-processor/annotation-processor-core/src/test/java/org/apache/olingo/odata2/core/annotation/data/AnnotationsInMemoryDsTest.java:356-358 | an update whose key is unset or not stored fails |
| Behaviour.ReadRelatedCollection | odata2-annotation-processor/annotation-processor-core/src/test/java/org/apache/olingo/odata2/core/annotation/data/AnnotationsInMemoryDsTest.java:189-200 | navigation with an empty key map yields exactly the attached collection, whatever it holds |
| Behaviour.ReadRelatedMember | odata2-annotation-processor/annotation-processor-core/src/test/java/org/apache/olingo/odata2/core/annotation/data/AnnotationsInMemoryDsTest.java:231-242 | navigation with the key tuple of an attached member, among members with distinct key tuples, yields that member |
| Behaviour.CreateMany | odata2-annotation-processor/annotation-processor-core/src/test/java/org/apache/olingo/odata2/core/annotation/data/AnnotationsInMemoryDsTest.java:62-83 | creates of any run of instances, one after another, whatever keys they propose (all of them the same explicit id, say), store as many more instances as the run holds, keep every instance stored before under its key unchanged, and leave other entity sets untouched |

## Left out

- Threads, latches and timeouts are not modelled. Those tests are about concurrent
  creates, and they are ignored in the test class. `Behaviour.CreateMany` keeps only
  their sequential consequence: no instance is lost.
- Key values seeded from the system clock are not modelled, because they are not
  deterministic. `Behaviour.CreateMany` takes the instances as a parameter instead, so it
  covers every choice of names and ids the clock could give.
- Mockito wiring, the annotation-based metadata provider and reflection-based property
  access are not part of this model. They are replaced by a metadata map from entity-set
  name to key-property names and navigation fields.
- Instances are values, not shared objects. Write-back of a generated key shows up as the
  instance returned by create, not as a change to the caller's object. Cycles through
  navigation fields, such as a room whose building lists that room, become snapshots.
- Key values are strings. The numeric target key of the related-target test (an integer
  3 matched against the string key "3") is modelled as the string "3".
- Stores are all created with the data source, one per entity set of the metadata, rather
  than on first use. No operation can tell the difference.
- DataStores.CreateInto: when a composite key is unset or collides, it uses the same
  generation policy as for a single key. The decimal string of the counter value goes into
  every key property. The test class does not exercise this case. Composite keys use the
  same generation policy so that no instance is lost.
- DataStores.ReplaceIn: an update whose key is unset or not stored is an error that
  changes nothing. The test class does not exercise it.
- InMemoryDs.AnnotationInMemoryDs.ReadRelatedData: when several attached members share
  the requested key, the first one is returned. The test class does not exercise this
  case.
- A to-one reference is modelled as a navigation collection of at most one instance. So an
  empty-key navigation to a to-one field returns that collection (`Many`), not the single
  instance.
- KeyEngine.FirstFreeFrom: a generated key that is already stored (for instance an explicit
  "10" when the counter reaches 10) is skipped, and the counter moves on to the next free
  one. This is a modelling choice; no enabled test reaches that case.
