# FreeBuilder `Map` property builder, in Dafny

FreeBuilder is a Java annotation processor. It generates a builder superclass
for a user's value type. This project models what it generates for a type
`Person` with one property, `name`, of type `Map<Integer, String>`: the class
`Person_Builder`, with its builder methods and its nested `Value` and
`Partial` classes. The generator is expected to emit that class in two forms,
one for Java 6 and one for Java 7. The two forms differ only in spelling.

The model has six modules, one per file:

- `java.dfy` (module `Java`) holds the Java notions the generated code relies
  on. These are 32-bit `int`, `null`, the two exceptions it throws, and normal
  versus abrupt completion of a call.
- `entries.dfy` (module `Entries`) holds the builder's `LinkedHashMap`, seen
  as a sequence of key/value entries in iteration order. `ToMap` forgets the
  order and gives the mapping that `Map.equals` compares.
- `persons.dfy` (module `Persons`) holds the built `Value` and `Partial`
  objects and their `equals`, `hashCode` and `toString`.
- `builder_spec.dfy` (module `BuilderSpec`) holds one function per builder
  method. Each function gives the table after the call and how the call
  ended. The lemmas there state what the builder promises across calls.
- `builders.dfy` (module `Builders`) is the builder itself, a class with
  mutable state. Its `name` field is kept as a `LinkedHashMap` is: a hash
  table `name` plus an insertion-order list `order`. `PutName`,
  `PutAllName`, `RemoveName`, `ClearName` and the two `MergeFrom` methods are
  proved against the `BuilderSpec` function of the same name. `Clear` is
  proved to restore the state of a new builder, and `Build` and
  `BuildPartial` to copy the builder's entries in order. `NameView` is the
  live, read-only view that `getName()` returns.
- `source_levels.dfy` (module `SourceLevels`) covers the two outputs. It
  shows that they construct the same map type and compute the same `equals`
  and `hashCode`.

A thrown exception is returned as a `Completion` (`Abrupt(...)`), together
with the table as the exception leaves it. Java `null` is `Nullable.Null`.

The Java 6 `equals` (`MapSourceTest.java` lines 190 and 225) calls
`name.equals(other.name)`, which is not null-safe. It never needs to be,
because the `name` of a built value is never null.
`SourceLevels.MapEquals` therefore requires a non-null receiver.

## Model

| member | source | states |
|---|---|---|
| Entries.ZipMapping | src/test/java/org/inferred/freebuilder/processor/MapSourceTest.java:58-59 | A duplicate-free insertion order that covers exactly the hash table's keys iterates that table. The result's key order is the list, it has no duplicate key, and its mapping is the table. |
| Entries.OrderAndMappingDetermineEntries | src/test/java/org/inferred/freebuilder/processor/MapSourceTest.java:58-59 | Two duplicate-free entry lists with the same key order and the same mapping are the same list. The list-plus-table form of a `LinkedHashMap` loses nothing. |
| Entries.ToMapAt | src/test/java/org/inferred/freebuilder/processor/MapSourceTest.java:58-59 | In a table without duplicate keys, every entry's key maps to that entry's value. |
| Entries.RemoveAtMapping | src/test/java/org/inferred/freebuilder/processor/MapSourceTest.java:105 | `name.remove(key)` on one entry keeps the table free of duplicates. The new mapping is the old one without that key. |
| Entries.AppendMapping | src/test/java/org/inferred/freebuilder/processor/MapSourceTest.java:88-93 | If a table followed by more entries has no duplicate key, then so do both parts. The combined mapping is the union of the two mappings. |
| Entries.SameMappingSameSum | src/test/java/org/inferred/freebuilder/processor/MapSourceTest.java:197-199 | The sum of per-entry hashes (`Map.hashCode`) depends only on the mapping, not on the iteration order. |
| Persons.Equals | src/test/java/org/inferred/freebuilder/processor/MapSourceTest.java:185-194 | `equals` holds exactly when `obj` is of the receiver's own class, the two maps have the same size, and every key of the receiver's map is in the other map with the same value. This is the test `AbstractMap.equals` performs, and the model proves it is equality of the two mappings, order ignored. The `Partial` form is at lines 220-229. |
| Persons.EqualsIsEquivalence | src/test/java/org/inferred/freebuilder/processor/MapSourceTest.java:185-194 | `equals` is reflexive, symmetric and transitive. A `Value` never equals a `Partial`, because of the `instanceof` test against the receiver's own class. |
| Persons.EqualsIffSameEntries | src/test/java/org/inferred/freebuilder/processor/MapSourceTest.java:185-194 | Two values built from duplicate-free tables are `equals` exactly when they hold the same multiset of entries, whatever their order. |
| Persons.MapHashCode | src/test/java/org/inferred/freebuilder/processor/MapSourceTest.java:197-199 | `name.hashCode()`, which adds the entry hashes into an `int` with overflow at each step, is the exact sum of the entry hashes wrapped once to 32 bits. |
| Persons.ArraysHashCode | src/test/java/org/inferred/freebuilder/processor/MapSourceTest.java:197-199 | `Arrays.hashCode`, the fold `31 * h + e` from 1 with overflow at each step, is the exact fold wrapped once to 32 bits. |
| Persons.HashCode | src/test/java/org/inferred/freebuilder/processor/MapSourceTest.java:197-199 | `Arrays.hashCode(new Object[] {name})` is `31 + name.hashCode()` with `int` wrap-around. |
| Persons.EqualsImpliesEqualHashCode | src/test/java/org/inferred/freebuilder/processor/MapSourceTest.java:197-199 | Equal built values have equal hash codes, for any per-entry hash. |
| Persons.ToString | src/test/java/org/inferred/freebuilder/processor/MapSourceTest.java:202-204 | The text starts with `"partial "` exactly when the object is a `Partial` (line 238). It is `Person{name=`, or `partial Person{name=` for a `Partial`, then the rendered map, then `}`. |
| BuilderSpec.PutName | src/test/java/org/inferred/freebuilder/processor/MapSourceTest.java:61-76 | The call returns normally iff the value is non-null and the key is absent. A null value throws NullPointerException, and that check comes first. A present key throws IllegalArgumentException. A failed call leaves the table unchanged. A successful call appends the entry at the end of the order, maps the key to the value, and leaves every other mapping as it was. Duplicate-freedom is preserved. |
| BuilderSpec.AppendNewKey | src/test/java/org/inferred/freebuilder/processor/MapSourceTest.java:74 | `name.put` of an absent key appends the key to the key order. The mapping gains exactly that key with that value. The table stays free of duplicates. |
| BuilderSpec.PutEntry | src/test/java/org/inferred/freebuilder/processor/MapSourceTest.java:89-91 | One loop turn returns normally iff the key and the value are non-null and the key is absent. Otherwise the table is unchanged and the exception is the one `putName` or unboxing throws (`Rejects`). |
| BuilderSpec.PutAllEntries | src/test/java/org/inferred/freebuilder/processor/MapSourceTest.java:88-93 | The loop leaves the old table followed by a prefix of the source, in source order. Either the whole source went in and the call returns normally, or the next source entry is one that `putName` rejects against the table reached, with the exception thrown. Duplicate-freedom is preserved. |
| BuilderSpec.PutAllEntriesStep | src/test/java/org/inferred/freebuilder/processor/MapSourceTest.java:89-91 | The loop is `putName` on the first entry, then the rest of the loop on the table it leaves, stopping if it throws. A null key throws NullPointerException before `putName` runs. |
| BuilderSpec.PutAllName | src/test/java/org/inferred/freebuilder/processor/MapSourceTest.java:78-93 | A null map throws NullPointerException and changes nothing. Otherwise the result is the loop over the map's entries. |
| BuilderSpec.PutAllSucceedsIff | src/test/java/org/inferred/freebuilder/processor/MapSourceTest.java:78-93 | On a duplicate-free table, `putAllName` returns normally exactly when the source has no null key or value, no key twice, and no key already present. It then appends the whole source in its order. |
| BuilderSpec.PutAllIntoFreshReproduces | src/test/java/org/inferred/freebuilder/processor/MapSourceTest.java:88-93 | `putAllName` of a duplicate-free map into a new builder returns normally and reproduces the map, iteration order included. |
| BuilderSpec.PutAllIsNotTransactional | src/test/java/org/inferred/freebuilder/processor/MapSourceTest.java:88-93 | Take the table {2→x} and the source [1→a, 2→b, 3→c]. The call throws IllegalArgumentException at key 2. Entry 1→a stays in the table and 3→c never goes in. |
| BuilderSpec.RemoveName | src/test/java/org/inferred/freebuilder/processor/MapSourceTest.java:95-107 | The call throws IllegalArgumentException iff the key is absent, and then changes nothing. Otherwise it deletes exactly that key's entry, and the other entries keep their relative order. The mapping loses exactly that key. |
| BuilderSpec.RemoveNameFound | src/test/java/org/inferred/freebuilder/processor/MapSourceTest.java:102-107 | Removing a present key returns normally, with the table minus that key's entry. The key is then absent. |
| BuilderSpec.ClearName | src/test/java/org/inferred/freebuilder/processor/MapSourceTest.java:109-118 | The call always returns normally and leaves the table empty, as in a new builder. |
| BuilderSpec.PutAllBoxed | src/test/java/org/inferred/freebuilder/processor/MapSourceTest.java:132-143 | Take `putAllName` over the entries of a value built by this class or of a builder of this class. It never throws NullPointerException. The table grows by a prefix of those entries, and by all of them when it returns normally. When it throws, the next entry's key is already in the table. It stays free of duplicates. |
| BuilderSpec.MergeFromValue | src/test/java/org/inferred/freebuilder/processor/MapSourceTest.java:129-135 | For a non-null value built by this class, `mergeFrom(value)` ends as `putAllName(value.getName())` does. It never throws NullPointerException and merges a prefix of the value's entries, or all of them. It throws only on a key the builder already has. |
| BuilderSpec.MergeFromBuilder | src/test/java/org/inferred/freebuilder/processor/MapSourceTest.java:137-143 | For a non-null builder of this class, `mergeFrom(builder)` has the same outcome over the template builder's own table. |
| BuilderSpec.PutSameKeyTwiceFails | src/test/java/org/inferred/freebuilder/processor/MapSourceTest.java:64-73 | After a successful `putName(k, v)`, a second `putName(k, w)` with non-null `w` throws IllegalArgumentException and leaves the table unchanged. |
| BuilderSpec.RemoveThenPutMovesKeyToEnd | src/test/java/org/inferred/freebuilder/processor/MapSourceTest.java:102-107 | `removeName(k)` then `putName(k, v)` both return normally. Key `k` moves to the end of the iteration order with the new value, and the rest keep their order. |
| BuilderSpec.MergeFromBuilderIsMergeFromBuilt | src/test/java/org/inferred/freebuilder/processor/MapSourceTest.java:132-143 | `mergeFrom(builder)` ends exactly as `mergeFrom(builder.build())` and `mergeFrom(builder.buildPartial())`: same table, same exception. |
| BuilderSpec.BuildMergeBuildRoundTrip | src/test/java/org/inferred/freebuilder/processor/MapSourceTest.java:132-158 | Build, merge the value into a new builder, build again: the same entries in the same order. The result is an equal value. |
| BuilderSpec.MergeFromSelf | src/test/java/org/inferred/freebuilder/processor/MapSourceTest.java:140-143 | `b.mergeFrom(b)` throws IllegalArgumentException on a non-empty builder before changing anything. It leaves an empty builder empty. |
| BuilderSpec.AdmissibleBoxed | src/test/java/org/inferred/freebuilder/processor/MapSourceTest.java:132-143 | The entries of a duplicate-free built value are an admissible `putAllName` source iff none of their keys is in the table. |
| BuilderSpec.MergeSucceedsIff | src/test/java/org/inferred/freebuilder/processor/MapSourceTest.java:132-143 | Merging a duplicate-free value or builder returns normally iff none of its keys is already in the table. |
| BuilderSpec.MergeFromEqualValues | src/test/java/org/inferred/freebuilder/processor/MapSourceTest.java:132-135 | Merging two `equals` values into the same builder ends the same way, even when their entries are in different orders. When the merge returns normally, the two resulting builders build equal values. |
| Builders.PersonBuilder.Entries | src/test/java/org/inferred/freebuilder/processor/MapSourceTest.java:58-59 | The builder's iteration is duplicate-free. Its key order is the linked list and its mapping is the hash table. |
| Builders.PersonBuilder.constructor | src/test/java/org/inferred/freebuilder/processor/MapSourceTest.java:58-59 | A new builder holds an empty table. |
| Builders.PersonBuilder.PutName | src/test/java/org/inferred/freebuilder/processor/MapSourceTest.java:70-76 | The new table and the exception are those of `BuilderSpec.PutName` on the old table. The list and hash table stay consistent. |
| Builders.PersonBuilder.PutAllName | src/test/java/org/inferred/freebuilder/processor/MapSourceTest.java:88-93 | The loop over the map's entries, calling `putName` and stopping at the first exception, ends as `BuilderSpec.PutAllName` on the old table does. |
| Builders.PersonBuilder.RemoveName | src/test/java/org/inferred/freebuilder/processor/MapSourceTest.java:102-107 | Deleting from both the list and the hash table ends as `BuilderSpec.RemoveName` on the old table does. |
| Builders.PersonBuilder.ClearName | src/test/java/org/inferred/freebuilder/processor/MapSourceTest.java:115-118 | The call ends as `BuilderSpec.ClearName`: normally, with an empty table. |
| Builders.NameView.Entries | src/test/java/org/inferred/freebuilder/processor/MapSourceTest.java:125-126 | The view returned by `getName()` shows the backing builder's list and hash table as they are when it is read: a duplicate-free iteration whose key order is the builder's list and whose mapping is its table. |
| Builders.ViewIsBuilder | src/test/java/org/inferred/freebuilder/processor/MapSourceTest.java:120-127 | For every builder and every view obtained from it, reading the view gives the builder's current entries, so every change to the builder shows through the view. |
| Builders.PersonBuilder.GetName | src/test/java/org/inferred/freebuilder/processor/MapSourceTest.java:120-127 | The call returns a new view backed by this builder. The view's entries are always the builder's current ones, so later changes show through it. |
| Builders.PersonBuilder.MergeFromValue | src/test/java/org/inferred/freebuilder/processor/MapSourceTest.java:132-135 | The call ends as `BuilderSpec.MergeFromValue` on the old table. |
| Builders.PersonBuilder.MergeFromBuilder | src/test/java/org/inferred/freebuilder/processor/MapSourceTest.java:140-143 | The call ends as `BuilderSpec.MergeFromBuilder` on the old table and the template's table as they were before the call. This holds when the template is the builder itself. |
| Builders.PersonBuilder.Clear | src/test/java/org/inferred/freebuilder/processor/MapSourceTest.java:145-151 | The builder is back to the state of a new builder. |
| Builders.PersonBuilder.Build | src/test/java/org/inferred/freebuilder/processor/MapSourceTest.java:156-177 | The call returns a `Value` holding the builder's entries in iteration order (`ImmutableMap.copyOf`). It is an immutable datatype, so later builder calls do not reach it. |
| Builders.PersonBuilder.BuildPartial | src/test/java/org/inferred/freebuilder/processor/MapSourceTest.java:160-170 | The call returns a `Partial` holding the same ordered copy. |
| SourceLevels.Initializer | src/test/java/org/inferred/freebuilder/processor/MapSourceTest.java:58-59 | Only the Java 7 initializer is the diamond form `new LinkedHashMap<>()`. |
| SourceLevels.InitializerTexts | src/test/java/org/inferred/freebuilder/processor/MapSourceTest.java:256 | Java 6 emits `new LinkedHashMap<Integer, String>()`. Java 7 emits `new LinkedHashMap<>()`. |
| SourceLevels.SameInstantiationAtBothLevels | src/test/java/org/inferred/freebuilder/processor/MapSourceTest.java:256 | For any field type with type arguments, the spelled-out form and the diamond form construct an object with exactly the declared type arguments, although they write different arguments. |
| SourceLevels.EqualsAt | src/test/java/org/inferred/freebuilder/processor/MapSourceTest.java:382-388 | At either level, `equals(obj)` is false for null and for objects of other classes. Otherwise it is `Persons.Equals`. The Java 6 form is at lines 185-194. |
| SourceLevels.EqualsAgreesAtBothLevels | src/test/java/org/inferred/freebuilder/processor/MapSourceTest.java:382-388 | The Java 6 `if` form and the Java 7 `Objects.equals` form agree on every argument. |
| SourceLevels.HashCodeAt | src/test/java/org/inferred/freebuilder/processor/MapSourceTest.java:391-393 | At either level, `hashCode()` is `31` plus the wrapped sum of the entry hashes, wrapped to 32 bits. The Java 6 form is at lines 197-199. |
| SourceLevels.HashCodeAgreesAtBothLevels | src/test/java/org/inferred/freebuilder/processor/MapSourceTest.java:391-393 | `Objects.hash(name)` (Java 7) and `Arrays.hashCode(new Object[] {name})` (Java 6) both compute `Persons.HashCode`. Values that are `equals` hash alike at either level. |

`Builders.ViewFollowsBuilderValueDoesNot`, `Builders.ViewFollowsPut` and
`Builders.ViewFollowsRemoval` are clients of the class. They show that a view
from `getName()` follows a later `putName` and `removeName`. A value from
`build()` does not, and a rejected `putName` changes nothing.

## Left out

- Method chaining: every mutator returns `(Person.Builder) this`. The model returns the completion instead.
- Exception messages (`"Key already present in name: %s"`) are not modelled. Only the exception's class is.
- The per-entry hash `Integer.hashCode(key) ^ String.hashCode(value)` is library code. `hashCode` takes it as a parameter, so concrete hash values are not modelled, only the relations between them.
- `toString` beyond its fixed prefix: the map's own rendering (`AbstractMap.toString`) is a parameter.
- `equals(obj)` only sees `obj` as null, a built `Person`, or "another class". Subclasses and reflection are not modelled.
- Java `String` is `seq<char>`. UTF-16 details play no part here.
- The generator itself: `generateSource`, the source formatter, `CodeGenerator`, `SourceStringBuilder`, the map property's code generator and `createMetadata` (lines 435-484). Their code is not part of this model. Only the emitted class and its two source-level spellings are modelled.
- The GWT fixture `src/it/gwt/src/main/java/org/inferred/freebuilder/client/rpc/StringListGwtType.java` is an interface without logic.
- Iterating a map while it changes (ConcurrentModificationException) is not modelled. `mergeFrom(builder)` with the builder itself can never reach that point: its first `putName` throws before any change (`BuilderSpec.MergeFromSelf`). A client can also call `b.putAllName(b.getName())`. That call, like `BuilderSpec.MergeFromSelf`, throws IllegalArgumentException at its first entry before any change, or does nothing on an empty builder.
- The source map of `putAllName` is its entries in iteration order, which may have null keys or values. How a foreign `Map` implementation orders its entries is not modelled.
- BuilderSpec.MergeFromValue: `mergeFrom(null)` throws NullPointerException at `value.getName()` (line 133). The model's `Person` is never null, so this case is not modelled. A `Person` of another class whose `getName()` returns null or a map with null keys or values is not modelled either. The model always takes a value built by this class.
- BuilderSpec.MergeFromBuilder: `mergeFrom((Person.Builder) null)` throws NullPointerException at `template.name` (line 141). The model's template is a table, never null, so this case is not modelled.
- BuilderSpec.PutAllEntries: `putName` and `putAllName` are public and not final, so the calls at lines 90, 133 and 141 dispatch virtually. A `Person.Builder` that overrides `putName` changes what `putAllName` and both `mergeFrom` overloads do. The model always runs the generated `putName`.
- Builders.PersonBuilder.MergeFromBuilder: the template's table is read once before the loop, not iterated live. The two are the same, because the only alias (the template is this builder) throws before any change.
