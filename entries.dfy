/** The `name` property's table as the generated code sees it: a sequence of
    key/value entries in iteration order. Both the builder's `LinkedHashMap`
    (insertion order) and the built value's `ImmutableMap` (copied order)
    iterate this way; `ToMap` forgets the order and gives the mapping that
    `Map.equals` compares. */
module Entries {
  import opened Java

  /** One mapping of `Map<Integer, String>`: a non-null key and value. */
  datatype Entry = Entry(key: JavaInt, value: string)

  /** The keys in iteration order. */
  function Keys(es: seq<Entry>): (ks: seq<JavaInt>)
    ensures |ks| == |es|
    ensures forall i | 0 <= i < |es| :: ks[i] == es[i].key
  {
    seq(|es|, i requires 0 <= i < |es| => es[i].key)
  }

  predicate Distinct<T(==)>(s: seq<T>)
  {
    forall i, j | 0 <= i < j < |s| :: s[i] != s[j]
  }

  /** A Java map never holds the same key twice. */
  predicate WellFormed(es: seq<Entry>)
  {
    Distinct(Keys(es))
  }

  /** The mapping the entries describe; a later entry for a key wins, as a
      `put` on an existing key would, although well-formed entries never
      repeat a key. */
  function ToMap(es: seq<Entry>): (m: map<JavaInt, string>)
    ensures forall k :: k in m <==> k in Keys(es)
  {
    if es == [] then map[]
    else
      var init, last := es[..|es| - 1], es[|es| - 1];
      assert Keys(es) == Keys(init) + [last.key];
      ToMap(init)[last.key := last.value]
  }

  /** In a well-formed table every entry's key maps to that entry's value. */
  lemma {:induction false} ToMapAt(es: seq<Entry>, i: nat)
    requires WellFormed(es) && i < |es|
    ensures es[i].key in ToMap(es) && ToMap(es)[es[i].key] == es[i].value
    decreases |es|
  {
    var n := |es|;
    if i < n - 1 {
      var init := es[..n - 1];
      assert Keys(es)[i] != Keys(es)[n - 1];
      assert WellFormed(init) by {
        forall x, y | 0 <= x < y < |init| ensures Keys(init)[x] != Keys(init)[y] {
          assert Keys(es)[x] != Keys(es)[y];
        }
      }
      ToMapAt(init, i);
    }
  }

  /** Position of a key that occurs in `ks`. */
  function IndexOf(ks: seq<JavaInt>, k: JavaInt): (i: nat)
    requires k in ks
    ensures i < |ks| && ks[i] == k && k !in ks[..i]
  {
    if ks[0] == k then 0
    else
      var i := 1 + IndexOf(ks[1..], k);
      assert ks[..i] == [ks[0]] + ks[1..][..i - 1];
      i
  }

  /** The entries without the one at position `i`, the rest in their order. */
  function RemoveAt(es: seq<Entry>, i: nat): (r: seq<Entry>)
    requires i < |es|
    ensures |r| == |es| - 1
    ensures forall j | 0 <= j < i :: r[j] == es[j]
    ensures forall j | i <= j < |r| :: r[j] == es[j + 1]
  {
    es[..i] + es[i + 1..]
  }

  /** Removing one entry of a well-formed table keeps it well-formed and
      removes exactly that entry's key from the mapping. */
  lemma RemoveAtMapping(es: seq<Entry>, i: nat)
    requires WellFormed(es) && i < |es|
    ensures WellFormed(RemoveAt(es, i))
    ensures ToMap(RemoveAt(es, i)) == ToMap(es) - {es[i].key}
  {
    var r := RemoveAt(es, i);
    var m := ToMap(es) - {es[i].key};
    RemoveAtKeys(es, i);
    RemoveAtKeySet(es, i);
    RemoveAtValues(es, i);
    MappingByIndex(r, m);
  }

  /** Removing the entry at `i` removes the key at `i` from the key order. */
  lemma RemoveAtKeyOrder(es: seq<Entry>, i: nat)
    requires i < |es|
    ensures Keys(RemoveAt(es, i)) == Keys(es)[..i] + Keys(es)[i + 1..]
  {
  }

  lemma RemoveAtKeySet(es: seq<Entry>, i: nat)
    requires WellFormed(es) && i < |es|
    ensures forall k :: k in Keys(RemoveAt(es, i)) <==> k in Keys(es) && k != es[i].key
  {
    var ks, r := Keys(es), RemoveAt(es, i);
    var before, after := ks[..i], ks[i + 1..];
    RemoveAtKeyOrder(es, i);
    assert ks == before + [ks[i]] + after;
    assert ks[i] !in before by {
      forall x | 0 <= x < i ensures before[x] != ks[i] { assert ks[x] != ks[i]; }
    }
    assert ks[i] !in after by {
      forall x | 0 <= x < |after| ensures after[x] != ks[i] { assert ks[i + 1 + x] != ks[i]; }
    }
  }

  lemma RemoveAtValues(es: seq<Entry>, i: nat)
    requires WellFormed(es) && i < |es|
    ensures forall j | 0 <= j < |RemoveAt(es, i)| :: (ToMap(es) - {es[i].key})[RemoveAt(es, i)[j].key] == RemoveAt(es, i)[j].value
  {
    var r := RemoveAt(es, i);
    var m := ToMap(es) - {es[i].key};
    forall j | 0 <= j < |r| ensures m[r[j].key] == r[j].value {
      var j' := if j < i then j else j + 1;
      assert r[j] == es[j'] && Keys(es)[j'] != Keys(es)[i];
      ToMapAt(es, j');
    }
  }

  lemma RemoveAtKeys(es: seq<Entry>, i: nat)
    requires WellFormed(es) && i < |es|
    ensures WellFormed(RemoveAt(es, i))
  {
    var r := RemoveAt(es, i);
    forall a, b | 0 <= a < b < |r| ensures Keys(r)[a] != Keys(r)[b] {
      var a', b' := if a < i then a else a + 1, if b < i then b else b + 1;
      assert Keys(es)[a'] != Keys(es)[b'];
    }
  }

  /** A map is the mapping of well-formed entries when it has exactly their
      keys and gives each key its entry's value. */
  lemma MappingByIndex(es: seq<Entry>, m: map<JavaInt, string>)
    requires WellFormed(es)
    requires forall k :: k in m <==> k in Keys(es)
    requires forall i | 0 <= i < |es| :: m[es[i].key] == es[i].value
    ensures ToMap(es) == m
  {
    var t := ToMap(es);
    assert t.Keys == m.Keys;
    forall k | k in t ensures t[k] == m[k] {
      var j :| 0 <= j < |es| && Keys(es)[j] == k;
      ToMapAt(es, j);
    }
  }

  /** Appending a table whose keys are new gives the union of the two mappings. */
  lemma AppendMapping(a: seq<Entry>, b: seq<Entry>)
    requires WellFormed(a + b)
    ensures WellFormed(a) && WellFormed(b)
    ensures ToMap(a + b) == ToMap(a) + ToMap(b)
  {
    AppendParts(a, b);
    AppendKeySet(a, b);
    AppendValues(a, b);
    MappingByIndex(a + b, ToMap(a) + ToMap(b));
  }

  lemma AppendParts(a: seq<Entry>, b: seq<Entry>)
    requires WellFormed(a + b)
    ensures WellFormed(a) && WellFormed(b)
    ensures forall x, y | 0 <= x < |a| && 0 <= y < |b| :: a[x].key != b[y].key
  {
    var ab := a + b;
    forall x, y | 0 <= x < y < |a| ensures Keys(a)[x] != Keys(a)[y] {
      assert Keys(ab)[x] != Keys(ab)[y];
    }
    forall x, y | 0 <= x < y < |b| ensures Keys(b)[x] != Keys(b)[y] {
      assert Keys(ab)[|a| + x] != Keys(ab)[|a| + y];
    }
    forall x, y | 0 <= x < |a| && 0 <= y < |b| ensures a[x].key != b[y].key {
      assert Keys(ab)[x] != Keys(ab)[|a| + y];
    }
  }

  lemma AppendKeySet(a: seq<Entry>, b: seq<Entry>)
    ensures forall k :: k in ToMap(a) + ToMap(b) <==> k in Keys(a + b)
  {
    var ab := a + b;
    forall k ensures k in ToMap(a) + ToMap(b) <==> k in Keys(ab) {
      if k in Keys(ab) {
        var j :| 0 <= j < |ab| && Keys(ab)[j] == k;
        if j < |a| { assert Keys(a)[j] == k; } else { assert Keys(b)[j - |a|] == k; }
      }
      if k in ToMap(a) {
        var j :| 0 <= j < |a| && Keys(a)[j] == k;
        assert Keys(ab)[j] == k;
      }
      if k in ToMap(b) {
        var j :| 0 <= j < |b| && Keys(b)[j] == k;
        assert Keys(ab)[|a| + j] == k;
      }
    }
  }

  lemma AppendValues(a: seq<Entry>, b: seq<Entry>)
    requires WellFormed(a) && WellFormed(b)
    requires forall x, y | 0 <= x < |a| && 0 <= y < |b| :: a[x].key != b[y].key
    ensures forall j | 0 <= j < |a + b| :: (ToMap(a) + ToMap(b))[(a + b)[j].key] == (a + b)[j].value
  {
    var ab, u := a + b, ToMap(a) + ToMap(b);
    forall j | 0 <= j < |ab| ensures u[ab[j].key] == ab[j].value {
      if j < |a| {
        assert ab[j] == a[j];
        ToMapAt(a, j);
      } else {
        assert ab[j] == b[j - |a|];
        ToMapAt(b, j - |a|);
      }
    }
  }

  /** The entries of an insertion-order list of keys over a hash table: the
      `LinkedHashMap` behind the builder's `name` field. */
  function Zip(order: seq<JavaInt>, table: map<JavaInt, string>): (es: seq<Entry>)
    requires forall k | k in order :: k in table
    ensures |es| == |order|
    ensures forall i | 0 <= i < |order| :: es[i] == Entry(order[i], table[order[i]])
  {
    seq(|order|, i requires 0 <= i < |order| => Entry(order[i], table[order[i]]))
  }

  /** A duplicate-free order covering exactly the table's keys iterates the
      table itself: the linked list and the hash table describe one map. */
  lemma ZipMapping(order: seq<JavaInt>, table: map<JavaInt, string>)
    requires Distinct(order)
    requires forall k :: k in table <==> k in order
    ensures Keys(Zip(order, table)) == order
    ensures WellFormed(Zip(order, table))
    ensures ToMap(Zip(order, table)) == table
  {
    var es := Zip(order, table);
    assert Keys(es) == order;
    var m := ToMap(es);
    forall k | k in m ensures m[k] == table[k] {
      var j :| 0 <= j < |es| && Keys(es)[j] == k;
      ToMapAt(es, j);
    }
  }

  /** A well-formed entry list is determined by its key order and its
      mapping together: the two halves of a `LinkedHashMap` lose nothing. */
  lemma {:induction false} OrderAndMappingDetermineEntries(a: seq<Entry>, b: seq<Entry>)
    requires WellFormed(a) && WellFormed(b)
    requires Keys(a) == Keys(b) && ToMap(a) == ToMap(b)
    ensures a == b
  {
    forall i | 0 <= i < |a| ensures a[i] == b[i] {
      assert Keys(a)[i] == Keys(b)[i];
      ToMapAt(a, i);
      ToMapAt(b, i);
    }
  }

  /** Sum of a per-entry hash over the entries, without wrap-around: the
      hash of a Java map is this sum taken modulo 2^32. */
  function SumHashes(es: seq<Entry>, entryHash: Entry -> JavaInt): int
  {
    if es == [] then 0 else SumHashes(es[..|es| - 1], entryHash) + entryHash(es[|es| - 1])
  }

  lemma {:induction false} SumRemoveAt(es: seq<Entry>, i: nat, entryHash: Entry -> JavaInt)
    requires i < |es|
    ensures SumHashes(es, entryHash) == SumHashes(RemoveAt(es, i), entryHash) + entryHash(es[i])
    decreases |es|
  {
    var n := |es|;
    var init := es[..n - 1];
    if i == n - 1 {
      assert RemoveAt(es, i) == init;
    } else {
      assert RemoveAt(es, i) == RemoveAt(init, i) + [es[n - 1]];
      assert RemoveAt(es, i)[..n - 2] == RemoveAt(init, i);
      SumRemoveAt(init, i, entryHash);
    }
  }

  /** Two well-formed tables with the same mapping have the same hash sum,
      whatever their iteration orders: the reason `Map.hashCode` agrees with
      `Map.equals`. */
  lemma {:induction false} SameMappingSameSum(a: seq<Entry>, b: seq<Entry>, entryHash: Entry -> JavaInt)
    requires WellFormed(a) && WellFormed(b) && ToMap(a) == ToMap(b)
    ensures SumHashes(a, entryHash) == SumHashes(b, entryHash)
    decreases |a|
  {
    if a == [] {
      if b != [] {
        ToMapAt(b, 0);
      }
    } else {
      var n := |a|;
      var init, last := a[..n - 1], a[n - 1];
      assert init == RemoveAt(a, n - 1);
      RemoveAtMapping(a, n - 1);
      assert last.key in ToMap(b);
      var j :| 0 <= j < |b| && Keys(b)[j] == last.key;
      ToMapAt(a, n - 1);
      ToMapAt(b, j);
      assert b[j] == last;
      RemoveAtMapping(b, j);
      assert ToMap(init) == ToMap(RemoveAt(b, j));
      SameMappingSameSum(init, RemoveAt(b, j), entryHash);
      SumRemoveAt(b, j, entryHash);
      assert SumHashes(a, entryHash) == SumHashes(init, entryHash) + entryHash(last);
    }
  }
}
