/** The generated `Person_Builder` as a mutable object. Its one field,
    `private final LinkedHashMap<Integer, String> name`, is kept as the two
    parts of a `LinkedHashMap`: the hash table `name` and the insertion-order
    list `order`. `PutName`, `PutAllName`, `RemoveName`, `ClearName` and the
    two `MergeFrom` methods are proved against the function of the same name
    in module `BuilderSpec`; `Clear` is proved to restore `BuilderSpec.Fresh`,
    and `Build` and `BuildPartial` to copy the builder's entries. */
module Builders {
  import opened Java
  import opened Entries
  import opened Persons
  import Spec = BuilderSpec

  class PersonBuilder {
    /** The keys of `name` in insertion order (the `LinkedHashMap`'s list). */
    var order: seq<JavaInt>
    /** The mappings of `name` (the `LinkedHashMap`'s hash table). */
    var name: map<JavaInt, string>

    /** The list and the table describe one map: each key of the table is in
        the list exactly once, and the list holds no other key. */
    ghost predicate Valid()
      reads this
    {
      Distinct(order) && (forall k :: k in name <==> k in order)
    }

    /** The entries of `name` in iteration order. */
    function Entries(): (es: seq<Entry>)
      reads this
      requires Valid()
      ensures WellFormed(es) && Keys(es) == order && ToMap(es) == name
    {
      ZipMapping(order, name);
      Zip(order, name)
    }

    /** The generated field initializer: an empty `LinkedHashMap`. */
    constructor ()
      ensures Valid() && Entries() == Spec.Fresh
    {
      order := [];
      name := map[];
    }

    /** `putName(key, value)`; a thrown exception is the returned completion. */
    method PutName(key: JavaInt, value: Nullable<string>) returns (completion: Completion)
      requires Valid()
      modifies this
      ensures Valid()
      ensures Spec.Outcome(Entries(), completion) == Spec.PutName(old(Entries()), key, value)
    {
      if value.Null? {
        return Abrupt(NullPointerException);
      }
      if key in name {
        return Abrupt(IllegalArgumentException);
      }
      ghost var before := Entries();
      name := name[key := value.value];
      order := order + [key];
      assert Entries() == before + [Entry(key, value.value)];
      completion := Normal;
    }

    /** `putAllName(map)`: `putName` on each entry in the map's iteration
        order, stopping at the first exception. */
    method PutAllName(source: Nullable<seq<Spec.SourceEntry>>) returns (completion: Completion)
      requires Valid()
      modifies this
      ensures Valid()
      ensures Spec.Outcome(Entries(), completion) == Spec.PutAllName(old(Entries()), source)
    {
      if source.Null? {
        return Abrupt(NullPointerException);
      }
      var entries := source.value;
      var i := 0;
      while i < |entries|
        invariant 0 <= i <= |entries| && Valid()
        invariant Spec.PutAllEntries(old(Entries()), entries) == Spec.PutAllEntries(Entries(), entries[i..])
      {
        var entry := entries[i];
        Spec.PutAllEntriesStep(Entries(), entries[i..]);
        assert entries[i..][1..] == entries[i + 1..];
        if entry.key.Null? {
          return Abrupt(NullPointerException);
        }
        completion := PutName(entry.key.value, entry.value);
        if completion.Abrupt? {
          return;
        }
        i := i + 1;
      }
      completion := Normal;
    }

    /** `removeName(key)`. */
    method RemoveName(key: JavaInt) returns (completion: Completion)
      requires Valid()
      modifies this
      ensures Valid()
      ensures Spec.Outcome(Entries(), completion) == Spec.RemoveName(old(Entries()), key)
    {
      if key !in name {
        return Abrupt(IllegalArgumentException);
      }
      ghost var before := Entries();
      var i := IndexOf(order, key);
      ghost var after := RemoveAt(before, i);
      RemoveAtMapping(before, i);
      order := order[..i] + order[i + 1..];
      name := name - {key};
      RemoveAtKeyOrder(before, i);
      OrderAndMappingDetermineEntries(Entries(), after);
      completion := Normal;
    }

    /** `clearName()`. */
    method ClearName()
      requires Valid()
      modifies this
      ensures Valid()
      ensures Spec.Outcome(Entries(), Normal) == Spec.ClearName(old(Entries()))
    {
      order := [];
      name := map[];
    }

    /** `getName()`: `Collections.unmodifiableMap(name)`, a new read-only view
        backed by this builder's table. */
    method GetName() returns (view: NameView)
      ensures fresh(view) && view.builder == this
    {
      view := new NameView(this);
    }

    /** `mergeFrom(Person value)`. */
    method MergeFromValue(value: Person) returns (completion: Completion)
      requires Valid()
      modifies this
      ensures Valid()
      ensures Spec.Outcome(Entries(), completion) == Spec.MergeFromValue(old(Entries()), value)
    {
      completion := PutAllName(NonNull(Spec.Boxed(value.name)));
    }

    /** `mergeFrom(Person.Builder template)`. Reading the template's table
        before the loop is the same as iterating it live: when `template` is
        this builder, the first `putName` finds its key present and throws
        before anything changes. */
    method MergeFromBuilder(template: PersonBuilder) returns (completion: Completion)
      requires Valid() && template.Valid()
      modifies this
      ensures Valid()
      ensures Spec.Outcome(Entries(), completion)
              == Spec.MergeFromBuilder(old(Entries()), old(template.Entries()))
    {
      var snapshot := template.Entries();
      completion := PutAllName(NonNull(Spec.Boxed(snapshot)));
    }

    /** `clear()`: every property back to the state of a new builder; `name`
        is the only one. */
    method Clear()
      requires Valid()
      modifies this
      ensures Valid() && Entries() == Spec.Fresh
    {
      order := [];
      name := map[];
    }

    /** `build()`: a `Value` holding an immutable copy of the table, in order. */
    method Build() returns (value: Person)
      requires Valid()
      ensures value.Value? && value.name == Entries()
    {
      value := Value(Entries());
    }

    /** `buildPartial()`: the same copy, as a `Partial`. */
    method BuildPartial() returns (value: Person)
      requires Valid()
      ensures value.Partial? && value.name == Entries()
    {
      value := Partial(Entries());
    }
  }

  /** The read-only view returned by `getName()`. It keeps no entries of its
      own: what it shows is the backing builder's table at the time of
      reading. */
  class NameView {
    const builder: PersonBuilder

    constructor (builder: PersonBuilder)
      ensures this.builder == builder
    {
      this.builder := builder;
    }

    /** What the view shows: the backing builder's list and hash table as
        they are when the view is read. */
    function Entries(): (es: seq<Entry>)
      reads builder
      requires builder.Valid()
      ensures WellFormed(es) && Keys(es) == builder.order && ToMap(es) == builder.name
    {
      builder.Entries()
    }
  }

  /** Whatever calls the builder has received, reading the view from
      `getName()` gives the builder's current entries. */
  lemma ViewIsBuilder(b: PersonBuilder, view: NameView)
    requires b.Valid() && view.builder == b
    ensures view.Entries() == b.Entries()
  {
  }

  /** A client of the builder: the view from `getName()` follows a later
      `putName`, while the value from `build()` does not. */
  method ViewFollowsBuilderValueDoesNot()
  {
    var b := new PersonBuilder();
    var c := b.PutName(1, NonNull("a"));
    assert b.Entries() == [Entry(1, "a")];
    var view := b.GetName();
    var built := b.Build();
    ViewFollowsPut(b, view, built);
  }

  method ViewFollowsPut(b: PersonBuilder, view: NameView, built: Person)
    requires b.Valid() && view.builder == b
    requires b.Entries() == [Entry(1, "a")] && built == Value(b.Entries())
    modifies b
  {
    assert Keys(b.Entries()) == [1];
    var c := b.PutName(2, NonNull("b"));
    assert c == Normal;
    assert view.Entries() == [Entry(1, "a"), Entry(2, "b")];
    assert built.name == [Entry(1, "a")];
  }

  /** A client of the builder: a rejected `putName` leaves the view as it
      was, and a `removeName` shows through it at once. */
  method ViewFollowsRemoval(b: PersonBuilder, view: NameView)
    requires b.Valid() && view.builder == b
    requires b.Entries() == [Entry(1, "a"), Entry(2, "b")]
    modifies b
  {
    assert Keys(b.Entries()) == [1, 2];
    var c := b.PutName(1, NonNull("z"));
    assert c == Abrupt(IllegalArgumentException);
    assert view.Entries() == [Entry(1, "a"), Entry(2, "b")];
    c := b.RemoveName(1);
    assert IndexOf([1, 2], 1) == 0;
    assert view.Entries() == [Entry(2, "b")];
  }
}
