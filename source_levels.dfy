/** The two outputs the generator emits for the `name` property, one per Java
    source level. They differ in two places only: how the field initializer
    spells the `LinkedHashMap` type arguments, and which library calls the
    `equals` and `hashCode` of the built classes make. Both differences leave
    the behaviour of the generated code the same. */
module SourceLevels {
  import opened Java
  import opened Entries
  import opened Persons

  datatype SourceLevel = Java6 | Java7

  /** The type arguments of the field's declared type
      `LinkedHashMap<Integer, String>`. */
  const DeclaredTypeArguments: seq<string> := ["Integer", "String"]

  /** The type arguments written in the initializer `new LinkedHashMap<...>()`
      of a field whose declared type has the arguments `declared`: spelled
      out under Java 6, left to the diamond `<>` under Java 7. */
  function WrittenTypeArguments(level: SourceLevel, declared: seq<string>): seq<string>
  {
    match level
    case Java6 => declared
    case Java7 => []
  }

  /** The type arguments the compiler gives the constructed object: the
      written ones, or, for an empty diamond, those inferred from the
      declared type of the field it initializes. */
  function InstantiatedTypeArguments(written: seq<string>, declared: seq<string>): seq<string>
  {
    if written == [] then declared else written
  }

  /** For any generic field type, both source levels construct an object of
      exactly the declared type: the written arguments when spelled out, the
      inferred ones for the diamond. */
  lemma SameInstantiationAtBothLevels(level: SourceLevel, declared: seq<string>)
    requires declared != []
    ensures InstantiatedTypeArguments(WrittenTypeArguments(level, declared), declared) == declared
    ensures WrittenTypeArguments(Java7, declared) != WrittenTypeArguments(Java6, declared)
  {
  }

  /** Type arguments separated by `", "`. */
  function JoinTypeArguments(args: seq<string>): string
  {
    if args == [] then ""
    else if |args| == 1 then args[0]
    else args[0] + ", " + JoinTypeArguments(args[1..])
  }

  /** The emitted initializer expression of the `name` field. */
  function Initializer(level: SourceLevel): (text: string)
    ensures level == Java6 <==> text != "new LinkedHashMap<>()"
  {
    "new LinkedHashMap<" + JoinTypeArguments(WrittenTypeArguments(level, DeclaredTypeArguments)) + ">()"
  }

  /** The initializer texts of the two expected outputs. */
  lemma InitializerTexts()
    ensures Initializer(Java6) == "new LinkedHashMap<Integer, String>()"
    ensures Initializer(Java7) == "new LinkedHashMap<>()"
  {
    assert JoinTypeArguments(["String"]) == "String";
  }

  /** The argument `obj` of `equals(Object obj)`: null, a built `Person`, or
      an object of some other class. */
  datatype JavaObject = NullObject | PersonObject(person: Person) | OtherObject

  /** `Map.equals` between two `name` references, either of which may be null
      as far as the emitted code is concerned. */
  function MapEquals(a: Nullable<seq<Entry>>, b: Nullable<seq<Entry>>): bool
    requires a.NonNull?
  {
    b.NonNull? && ToMap(a.value) == ToMap(b.value)
  }

  /** `Objects.equals(a, b)`: true when both are null, otherwise `a.equals(b)`
      for a non-null `a`. */
  function ObjectsEquals(a: Nullable<seq<Entry>>, b: Nullable<seq<Entry>>): bool
  {
    if a.Null? then b.Null? else MapEquals(a, b)
  }

  /** `equals(obj)` of a built value as emitted at `level`: the `instanceof`
      test against the receiver's own class first, then under Java 6
      `name.equals(other.name)` inside an `if`, under Java 7
      `Objects.equals(name, other.name)`. */
  function EqualsAt(level: SourceLevel, self: Person, obj: JavaObject): (equal: bool)
    ensures equal <==> obj.PersonObject? && Equals(self, obj.person)
  {
    if !(obj.PersonObject? && obj.person.Value? == self.Value?) then false
    else
      var name, otherName := NonNull(self.name), NonNull(obj.person.name);
      match level
      case Java6 => if !MapEquals(name, otherName) then false else true
      case Java7 => ObjectsEquals(name, otherName)
  }

  /** The two emitted forms of `equals` compute the same relation. */
  lemma EqualsAgreesAtBothLevels(level: SourceLevel, self: Person, obj: JavaObject)
    ensures EqualsAt(Java6, self, obj) == EqualsAt(Java7, self, obj)
  {
  }

  /** `Objects.hash(values...)`, which the Java library defines as
      `Arrays.hashCode(values)`. */
  function ObjectsHash(elementHashes: seq<JavaInt>): JavaInt
  {
    ArraysHashCode(elementHashes)
  }

  /** `hashCode()` of a built value as emitted at `level`:
      `Arrays.hashCode(new Object[] {name})` under Java 6,
      `Objects.hash(name)` under Java 7. */
  function HashCodeAt(level: SourceLevel, p: Person, entryHash: Entry -> JavaInt): (h: JavaInt)
    ensures h == Wrap32(31 + Wrap32(SumHashes(p.name, entryHash)))
  {
    match level
    case Java6 => ArraysHashCode([MapHashCode(p.name, entryHash)])
    case Java7 => ObjectsHash([MapHashCode(p.name, entryHash)])
  }

  /** Both emitted forms compute `Persons.HashCode`, so equal built values
      hash alike at either level. */
  lemma HashCodeAgreesAtBothLevels(level: SourceLevel, p: Person, q: Person, entryHash: Entry -> JavaInt)
    ensures HashCodeAt(level, p, entryHash) == HashCode(p, entryHash)
    ensures WellFormed(p.name) && WellFormed(q.name) && EqualsAt(level, p, PersonObject(q)) ==>
              HashCodeAt(level, p, entryHash) == HashCodeAt(level, q, entryHash)
  {
    assert HashCodeAt(level, q, entryHash) == HashCode(q, entryHash);
    if WellFormed(p.name) && WellFormed(q.name) && EqualsAt(level, p, PersonObject(q)) {
      EqualsImpliesEqualHashCode(p, q, entryHash);
    }
  }
}
