/** The built `Person` objects of the generated code: the nested `Value`
    class returned by `build()` and the nested `Partial` class returned by
    `buildPartial()`, with their `equals`, `hashCode` and `toString`. */
module Persons {
  import opened Java
  import opened Entries

  /** A built `Person`. Both classes hold `ImmutableMap.copyOf(builder.name)`:
      an immutable copy of the builder's entries, in the builder's order,
      which their `getName()` returns. */
  datatype Person = Value(name: seq<Entry>) | Partial(name: seq<Entry>)

  /** `equals(obj)`: `obj` must be an instance of the same generated class
      (a `Value` never equals a `Partial`), and the two `name` maps must be
      equal, which for Java maps means the same mappings in any order. The
      ensures is the test `AbstractMap.equals` performs: the same size, and
      every key of this map mapped to the same value in the other. */
  function Equals(p: Person, q: Person): (equal: bool)
    ensures equal <==>
              && p.Value? == q.Value?
              && |ToMap(p.name)| == |ToMap(q.name)|
              && forall k | k in ToMap(p.name) :: k in ToMap(q.name) && ToMap(q.name)[k] == ToMap(p.name)[k]
  {
    SameMapIffSubmapOfSameSize(ToMap(p.name), ToMap(q.name));
    p.Value? == q.Value? && ToMap(p.name) == ToMap(q.name)
  }

  /** Two maps are equal exactly when they have the same size and one is
      contained in the other. */
  lemma SameMapIffSubmapOfSameSize(m: map<JavaInt, string>, n: map<JavaInt, string>)
    ensures m == n <==> |m| == |n| && forall k | k in m :: k in n && n[k] == m[k]
  {
    if |m| == |n| && forall k | k in m :: k in n && n[k] == m[k] {
      assert m.Keys <= n.Keys;
      if m.Keys != n.Keys {
        assert exists k :: k in n.Keys && k !in m.Keys;
        var k :| k in n.Keys && k !in m.Keys;
        SubsetCardinality(m.Keys, n.Keys - {k});
      }
    }
  }

  lemma {:induction false} SubsetCardinality(a: set<JavaInt>, b: set<JavaInt>)
    requires a <= b
    ensures |a| <= |b|
    decreases |a|
  {
    if a != {} {
      var x :| x in a;
      SubsetCardinality(a - {x}, b - {x});
    }
  }

  /** `equals` is an equivalence relation, and `Value` and `Partial` are
      never equal to each other. */
  lemma EqualsIsEquivalence(p: Person, q: Person, r: Person)
    ensures Equals(p, p)
    ensures Equals(p, q) ==> Equals(q, p)
    ensures Equals(p, q) && Equals(q, r) ==> Equals(p, r)
    ensures !Equals(Value(p.name), Partial(q.name))
  {
  }

  /** Two values built from well-formed tables are equal exactly when they
      hold the same entries, whatever the order of those entries. */
  lemma EqualsIffSameEntries(a: seq<Entry>, b: seq<Entry>)
    requires WellFormed(a) && WellFormed(b)
    ensures Equals(Value(a), Value(b)) <==> multiset(a) == multiset(b)
  {
    if ToMap(a) == ToMap(b) {
      SameMappingSameEntries(a, b);
    }
    if multiset(a) == multiset(b) {
      SameEntriesSameMapping(a, b);
    }
  }

  lemma {:induction false} SameMappingSameEntries(a: seq<Entry>, b: seq<Entry>)
    requires WellFormed(a) && WellFormed(b) && ToMap(a) == ToMap(b)
    ensures multiset(a) == multiset(b)
    decreases |a|
  {
    if a == [] {
      if b != [] {
        ToMapAt(b, 0);
      }
    } else {
      var n := |a|;
      var init, last := a[..n - 1], a[n - 1];
      assert init == RemoveAt(a, n - 1);
      RemoveAtMapping(a, n - 1);
      ToMapAt(a, n - 1);
      var j :| 0 <= j < |b| && Keys(b)[j] == last.key;
      ToMapAt(b, j);
      assert b[j] == last;
      RemoveAtMapping(b, j);
      assert ToMap(init) == ToMap(RemoveAt(b, j));
      SameMappingSameEntries(init, RemoveAt(b, j));
      MultisetRemoveAt(a, n - 1);
      MultisetRemoveAt(b, j);
    }
  }

  lemma MultisetRemoveAt(es: seq<Entry>, i: nat)
    requires i < |es|
    ensures multiset(es) == multiset(RemoveAt(es, i)) + multiset{es[i]}
  {
    assert es == es[..i] + [es[i]] + es[i + 1..];
  }

  lemma SameEntriesSameMapping(a: seq<Entry>, b: seq<Entry>)
    requires WellFormed(a) && WellFormed(b) && multiset(a) == multiset(b)
    ensures ToMap(a) == ToMap(b)
  {
    forall k ensures k in ToMap(a) <==> k in ToMap(b) {
      if k in Keys(a) {
        var i :| 0 <= i < |a| && Keys(a)[i] == k;
        assert a[i] in multiset(b);
        var j :| 0 <= j < |b| && b[j] == a[i];
        assert Keys(b)[j] == k;
      }
      if k in Keys(b) {
        var j :| 0 <= j < |b| && Keys(b)[j] == k;
        assert b[j] in multiset(a);
        var i :| 0 <= i < |a| && a[i] == b[j];
        assert Keys(a)[i] == k;
      }
    }
    forall i | 0 <= i < |a| ensures ToMap(b)[a[i].key] == a[i].value {
      assert a[i] in multiset(b);
      var j :| 0 <= j < |b| && b[j] == a[i];
      ToMapAt(b, j);
    }
    MappingByIndex(a, ToMap(b));
  }

  /** `Map.hashCode()`: `AbstractMap.hashCode` adds the entries' hashes in
      iteration order into an `int`, overflowing at each step. The hash of
      one entry (`Integer.hashCode(key) ^ String.hashCode(value)`) is library
      code and is taken as a parameter. The result is the exact sum of the
      entry hashes, wrapped once. */
  function MapHashCode(es: seq<Entry>, entryHash: Entry -> JavaInt): (h: JavaInt)
    ensures h == Wrap32(SumHashes(es, entryHash))
  {
    if es == [] then 0
    else
      var n := |es|;
      var before := MapHashCode(es[..n - 1], entryHash);
      WrapThenScale(SumHashes(es[..n - 1], entryHash), 1, entryHash(es[n - 1]));
      Wrap32(before + entryHash(es[n - 1]))
  }

  /** `Arrays.hashCode(elements)` on exact integers, never overflowing:
      start from 1 and fold `31 * h + e` over the element hashes. */
  function ExactArraysHash(elementHashes: seq<JavaInt>): int
  {
    if elementHashes == [] then 1
    else
      var n := |elementHashes|;
      31 * ExactArraysHash(elementHashes[..n - 1]) + elementHashes[n - 1]
  }

  /** `Arrays.hashCode(elements)`: the same fold in `int`, overflowing at each
      step. The result is the exact fold wrapped once. `Objects.hash(a...)` is
      defined by the Java library as `Arrays.hashCode(a)`. */
  function ArraysHashCode(elementHashes: seq<JavaInt>): (h: JavaInt)
    ensures h == Wrap32(ExactArraysHash(elementHashes))
  {
    if elementHashes == [] then 1
    else
      var n := |elementHashes|;
      var before := ArraysHashCode(elementHashes[..n - 1]);
      WrapThenScale(ExactArraysHash(elementHashes[..n - 1]), 31, elementHashes[n - 1]);
      Wrap32(31 * before + elementHashes[n - 1])
  }

  /** `hashCode()` of `Value` and `Partial`: the array hash of the single
      field `name`. */
  function HashCode(p: Person, entryHash: Entry -> JavaInt): (h: JavaInt)
    ensures h == Wrap32(31 + MapHashCode(p.name, entryHash))
  {
    var elements := [MapHashCode(p.name, entryHash)];
    assert elements[..0] == [] && ArraysHashCode(elements[..0]) == 1;
    ArraysHashCode(elements)
  }

  /** Equal built values have equal hash codes, whatever the entry hash: the
      `hashCode` contract the generated classes keep. */
  lemma EqualsImpliesEqualHashCode(p: Person, q: Person, entryHash: Entry -> JavaInt)
    requires WellFormed(p.name) && WellFormed(q.name)
    requires Equals(p, q)
    ensures HashCode(p, entryHash) == HashCode(q, entryHash)
  {
    SameMappingSameSum(p.name, q.name, entryHash);
  }

  /** `toString()`: `"Person{name=" + name + "}"` for a `Value` and the same
      text prefixed with `"partial "` for a `Partial`; the map's own rendering
      (`AbstractMap.toString`) is a parameter. */
  function ToString(p: Person, renderedName: string): (s: string)
    ensures p.Partial? <==> |s| >= 8 && s[..8] == "partial "
    ensures var prefix := if p.Partial? then "partial Person{name=" else "Person{name=";
            && |s| == |prefix| + |renderedName| + 1
            && s[..|prefix|] == prefix
            && s[|prefix|..|s| - 1] == renderedName
            && s[|s| - 1] == '}'
  {
    var s := (if p.Partial? then "partial " else "") + "Person{name=" + renderedName + "}";
    assert p.Value? ==> s[0] == 'P';
    s
  }
}
