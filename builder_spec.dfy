/** What each method of the generated `Person_Builder` does to the builder's
    `name` table, as functions of the entries before the call. The class in
    module `Builders` is proved against these functions; the lemmas here state
    what the builder promises across calls. */
module BuilderSpec {
  import opened Java
  import opened Entries
  import opened Persons

  /** The builder's table after a call, and how the call ended. A call that
      throws may still have changed the table (`putAllName`). */
  datatype Outcome = Outcome(entries: seq<Entry>, completion: Completion)

  /** One `Map.Entry<? extends Integer, ? extends String>` of the map passed to
      `putAllName`; its key and its value may be null. */
  datatype SourceEntry = SourceEntry(key: Nullable<JavaInt>, value: Nullable<string>)

  /** The entries of a built value, or of another builder, as the source map
      of `putAllName`. */
  function Boxed(es: seq<Entry>): (src: seq<SourceEntry>)
    ensures |src| == |es|
    ensures forall i | 0 <= i < |es| :: src[i] == SourceEntry(NonNull(es[i].key), NonNull(es[i].value))
  {
    seq(|es|, i requires 0 <= i < |es| => SourceEntry(NonNull(es[i].key), NonNull(es[i].value)))
  }

  /** The table of a new builder: the field initializer's empty `LinkedHashMap`. */
  const Fresh: seq<Entry> := []

  /** `putName(key, value)`: the null check on `value` comes first, then the
      check that `key` is absent; only then is the entry added, at the end of
      the iteration order. A failed call changes nothing. */
  function PutName(es: seq<Entry>, key: JavaInt, value: Nullable<string>): (r: Outcome)
    ensures r.completion == Normal <==> value.NonNull? && key !in Keys(es)
    ensures value.Null? ==> r.completion == Abrupt(NullPointerException)
    ensures value.NonNull? && key in Keys(es) ==> r.completion == Abrupt(IllegalArgumentException)
    ensures r.completion.Abrupt? ==> r.entries == es
    ensures r.completion.Normal? ==> r.entries == es + [Entry(key, value.value)]
    ensures r.completion.Normal? ==> ToMap(r.entries) == ToMap(es)[key := value.value]
    ensures WellFormed(es) ==> WellFormed(r.entries)
  {
    if value.Null? then Outcome(es, Abrupt(NullPointerException))
    else if key in Keys(es) then Outcome(es, Abrupt(IllegalArgumentException))
    else
      var e := Entry(key, value.value);
      AppendNewKey(es, e);
      Outcome(es + [e], Normal)
  }

  lemma AppendNewKey(es: seq<Entry>, e: Entry)
    requires e.key !in Keys(es)
    ensures Keys(es + [e]) == Keys(es) + [e.key]
    ensures ToMap(es + [e]) == ToMap(es)[e.key := e.value]
    ensures WellFormed(es) ==> WellFormed(es + [e])
  {
    assert Keys(es + [e]) == Keys(es) + [e.key];
    assert (es + [e])[..|es|] == es;
  }

  /** One turn of `putAllName`'s loop, `putName(entry.getKey(),
      entry.getValue())`: unboxing a null key to `int` throws before
      `putName` runs. */
  function PutEntry(es: seq<Entry>, e: SourceEntry): (r: Outcome)
    ensures r.completion.Normal? <==> e.key.NonNull? && e.value.NonNull? && e.key.value !in Keys(es)
    ensures r.completion.Abrupt? ==> r.entries == es && Rejects(es, e, r.completion.exception)
    ensures r.completion.Normal? ==> r.entries == es + [Entry(e.key.value, e.value.value)]
  {
    if e.key.Null? then Outcome(es, Abrupt(NullPointerException))
    else PutName(es, e.key.value, e.value)
  }

  /** The exception `putName` throws for the source entry `e` against the
      table `es`: a null key or value throws NullPointerException, a key
      already present IllegalArgumentException. */
  predicate Rejects(es: seq<Entry>, e: SourceEntry, x: JavaException)
  {
    if e.key.Null? || e.value.Null? then x == NullPointerException
    else e.key.value in Keys(es) && x == IllegalArgumentException
  }

  /** `after` is the table `es` followed by the first entries of `src`, in
      the order of `src`. */
  predicate AppendsPrefix(es: seq<Entry>, src: seq<SourceEntry>, after: seq<Entry>)
  {
    && |es| <= |after| <= |es| + |src|
    && after[..|es|] == es
    && forall j | |es| <= j < |after| ::
         src[j - |es|] == SourceEntry(NonNull(after[j].key), NonNull(after[j].value))
  }

  /** What the loop of `putAllName` can end with, run from the table `es`
      over the source entries `src`: the old table followed by a prefix of
      the source, and either the whole source went in and the loop returned
      normally, or the next source entry is one `putName` rejects against
      the table reached, with the exception it throws. */
  predicate LoopOutcome(es: seq<Entry>, src: seq<SourceEntry>, r: Outcome)
  {
    && AppendsPrefix(es, src, r.entries)
    && (r.completion.Normal? ==> |r.entries| == |es| + |src|)
    && (r.completion.Abrupt? ==>
          |r.entries| < |es| + |src| && Rejects(r.entries, src[|r.entries| - |es|], r.completion.exception))
  }

  lemma LoopOutcomeEmpty(es: seq<Entry>)
    ensures LoopOutcome(es, [], Outcome(es, Normal))
  {
    assert es[..|es|] == es;
  }

  lemma LoopOutcomeRejected(es: seq<Entry>, src: seq<SourceEntry>)
    requires src != [] && PutEntry(es, src[0]).completion.Abrupt?
    ensures LoopOutcome(es, src, PutEntry(es, src[0]))
  {
    assert es[..|es|] == es;
  }

  lemma LoopOutcomeAccepted(es: seq<Entry>, src: seq<SourceEntry>, r: Outcome)
    requires src != [] && PutEntry(es, src[0]).completion.Normal?
    requires LoopOutcome(PutEntry(es, src[0]).entries, src[1..], r)
    ensures LoopOutcome(es, src, r)
  {
    var e := PutEntry(es, src[0]).entries[|es|];
    var after := r.entries;
    assert PutEntry(es, src[0]).entries == es + [e];
    assert after[..|es|] == after[..|es| + 1][..|es|];
    assert after[|es|] == after[..|es| + 1][|es|];
    forall j | |es| < j < |after|
      ensures src[j - |es|] == SourceEntry(NonNull(after[j].key), NonNull(after[j].value))
    {
      assert src[1..][j - (|es| + 1)] == src[j - |es|];
    }
    if |after| < |es| + |src| {
      assert src[1..][|after| - (|es| + 1)] == src[|after| - |es|];
    }
  }

  /** The loop of `putAllName` over the source map's entries in iteration
      order. It stops at the first entry `putName` rejects, and the entries
      added before that one stay added. */
  function PutAllEntries(es: seq<Entry>, src: seq<SourceEntry>): (r: Outcome)
    ensures LoopOutcome(es, src, r)
    ensures WellFormed(es) ==> WellFormed(r.entries)
    decreases |src|
  {
    if src == [] then LoopOutcomeEmpty(es); Outcome(es, Normal)
    else
      var first := PutEntry(es, src[0]);
      if first.completion.Abrupt? then LoopOutcomeRejected(es, src); first
      else
        var r := PutAllEntries(first.entries, src[1..]);
        LoopOutcomeAccepted(es, src, r);
        r
  }

  /** One turn of the loop of `putAllName`, unfolded. */
  lemma PutAllEntriesStep(es: seq<Entry>, src: seq<SourceEntry>)
    requires src != []
    ensures src[0].key.Null? ==> PutAllEntries(es, src) == Outcome(es, Abrupt(NullPointerException))
    ensures src[0].key.NonNull? ==>
              var first := PutName(es, src[0].key.value, src[0].value);
              PutAllEntries(es, src)
              == if first.completion.Abrupt? then first else PutAllEntries(first.entries, src[1..])
  {
  }

  /** `putAllName(map)`: a null map throws at `map.entrySet()`, before any change. */
  function PutAllName(es: seq<Entry>, source: Nullable<seq<SourceEntry>>): (r: Outcome)
    ensures source.Null? ==> r == Outcome(es, Abrupt(NullPointerException))
    ensures source.NonNull? ==> r == PutAllEntries(es, source.value)
  {
    if source.Null? then Outcome(es, Abrupt(NullPointerException)) else PutAllEntries(es, source.value)
  }

  /** The source map of `putAllName` goes in entirely: no null key or value,
      no key twice, no key the table already holds. */
  predicate Admissible(es: seq<Entry>, src: seq<SourceEntry>)
  {
    && (forall i | 0 <= i < |src| :: src[i].key.NonNull? && src[i].value.NonNull?)
    && (forall i, j | 0 <= i < j < |src| :: src[i].key != src[j].key)
    && (forall i | 0 <= i < |src| :: src[i].key.value !in Keys(es))
  }

  /** `putAllName` on a well-formed table returns normally exactly when the
      source is admissible, and then appends the whole source in its order. */
  lemma PutAllSucceedsIff(es: seq<Entry>, src: seq<SourceEntry>)
    requires WellFormed(es)
    ensures PutAllEntries(es, src).completion == Normal <==> Admissible(es, src)
    ensures PutAllEntries(es, src).completion == Normal ==> Boxed(PutAllEntries(es, src).entries[|es|..]) == src
  {
    var r := PutAllEntries(es, src);
    if r.completion == Normal {
      WholeSourceAppended(es, src, r.entries);
      WholeSourceAdmissible(es, src, r.entries);
    } else {
      RejectedSourceNotAdmissible(es, src, r.entries, r.completion.exception);
    }
  }

  lemma WholeSourceAppended(es: seq<Entry>, src: seq<SourceEntry>, after: seq<Entry>)
    requires AppendsPrefix(es, src, after) && |after| == |es| + |src|
    ensures after == es + after[|es|..]
    ensures Boxed(after[|es|..]) == src
  {
    var added := after[|es|..];
    forall i | 0 <= i < |src| ensures src[i] == SourceEntry(NonNull(added[i].key), NonNull(added[i].value)) {
      assert added[i] == after[|es| + i];
    }
  }

  lemma WholeSourceAdmissible(es: seq<Entry>, src: seq<SourceEntry>, after: seq<Entry>)
    requires |es| <= |after| && WellFormed(after) && after == es + after[|es|..] && Boxed(after[|es|..]) == src
    ensures Admissible(es, src)
  {
    var added := after[|es|..];
    assert forall i | 0 <= i < |src| :: src[i] == SourceEntry(NonNull(added[i].key), NonNull(added[i].value));
    forall i, j | 0 <= i < j < |src| ensures src[i].key != src[j].key {
      assert Keys(after)[|es| + i] != Keys(after)[|es| + j];
    }
    forall i | 0 <= i < |src| ensures src[i].key.value !in Keys(es) {
      forall x | 0 <= x < |es| ensures Keys(es)[x] != src[i].key.value {
        assert Keys(after)[x] != Keys(after)[|es| + i];
      }
    }
  }

  /** When `putAllName` throws, the entry it stopped at has a null key or
      value, or a key that the table or an earlier source entry holds. */
  lemma RejectedSourceNotAdmissible(es: seq<Entry>, src: seq<SourceEntry>, after: seq<Entry>, x: JavaException)
    requires AppendsPrefix(es, src, after) && |after| < |es| + |src|
    requires Rejects(after, src[|after| - |es|], x)
    ensures !Admissible(es, src)
  {
    var n := |after| - |es|;
    var s := src[n];
    if s.key.NonNull? && s.value.NonNull? {
      var j :| 0 <= j < |after| && Keys(after)[j] == s.key.value;
      if j < |es| {
        assert after[..|es|][j] == es[j];
        assert Keys(es)[j] == s.key.value;
      } else {
        assert src[j - |es|].key == s.key;
      }
    }
  }

  lemma BoxedInjective(a: seq<Entry>, b: seq<Entry>)
    requires Boxed(a) == Boxed(b)
    ensures a == b
  {
    assert |a| == |Boxed(a)| == |b|;
    forall i | 0 <= i < |a| ensures a[i] == b[i] {
      assert Boxed(a)[i] == Boxed(b)[i];
    }
  }

  /** `putAllName` of a well-formed map into a new builder reproduces that
      map, iteration order included. */
  lemma PutAllIntoFreshReproduces(src: seq<Entry>)
    requires WellFormed(src)
    ensures PutAllName(Fresh, NonNull(Boxed(src))) == Outcome(src, Normal)
  {
    var bs := Boxed(src);
    forall i, j | 0 <= i < j < |bs| ensures bs[i].key != bs[j].key {
      assert Keys(src)[i] != Keys(src)[j];
    }
    assert Admissible(Fresh, bs);
    PutAllSucceedsIff(Fresh, bs);
    var r := PutAllEntries(Fresh, bs);
    assert r.entries[|Fresh|..] == r.entries;
    BoxedInjective(r.entries, src);
  }

  /** `removeName(key)`: a key that is absent throws and changes nothing;
      otherwise exactly that key's entry goes, and the others keep their
      relative order. */
  function RemoveName(es: seq<Entry>, key: JavaInt): (r: Outcome)
    ensures r.completion.Abrupt? <==> key !in Keys(es)
    ensures r.completion.Abrupt? ==> r == Outcome(es, Abrupt(IllegalArgumentException))
    ensures r.completion.Normal? ==>
              exists i | 0 <= i < |es| :: es[i].key == key && r.entries == RemoveAt(es, i)
    ensures WellFormed(es) ==> WellFormed(r.entries) && ToMap(r.entries) == ToMap(es) - {key}
  {
    if key !in Keys(es) then Outcome(es, Abrupt(IllegalArgumentException))
    else
      var i := IndexOf(Keys(es), key);
      assert es[i].key == key;
      var r := Outcome(RemoveAt(es, i), Normal);
      if WellFormed(es) then RemoveAtMapping(es, i); r else r
  }

  /** `clearName()`: always returns normally with an empty table. */
  function ClearName(es: seq<Entry>): (r: Outcome)
    ensures r.completion == Normal && ToMap(r.entries) == map[] && r.entries == Fresh
  {
    Outcome([], Normal)
  }

  /** What merging the entries `a` of a built value or of another builder
      into the table `es` can end with: none of those entries is null, so
      the only failure is a key already in the table; the table grows by a
      prefix of `a`, all of it when the merge returns normally, and it stays
      free of duplicate keys. */
  predicate MergeOutcome(es: seq<Entry>, a: seq<Entry>, r: Outcome)
  {
    && r.completion != Abrupt(NullPointerException)
    && |es| <= |r.entries| <= |es| + |a|
    && r.entries == es + a[..|r.entries| - |es|]
    && (r.completion.Normal? ==> r.entries == es + a)
    && (r.completion.Abrupt? ==>
          |r.entries| < |es| + |a| && a[|r.entries| - |es|].key in Keys(r.entries))
    && (WellFormed(es) ==> WellFormed(r.entries))
  }

  lemma PutAllBoxed(es: seq<Entry>, a: seq<Entry>)
    ensures MergeOutcome(es, a, PutAllEntries(es, Boxed(a)))
  {
    var r := PutAllEntries(es, Boxed(a));
    BoxedPrefix(es, a, r.entries);
    if r.completion.Abrupt? {
      var n := |r.entries| - |es|;
      assert Boxed(a)[n] == SourceEntry(NonNull(a[n].key), NonNull(a[n].value));
    }
  }

  lemma BoxedPrefix(es: seq<Entry>, a: seq<Entry>, after: seq<Entry>)
    requires AppendsPrefix(es, Boxed(a), after)
    ensures after == es + a[..|after| - |es|]
  {
    var n := |after| - |es|;
    forall j | 0 <= j < n ensures after[|es| + j] == a[j] {
      assert Boxed(a)[j] == SourceEntry(NonNull(after[|es| + j].key), NonNull(after[|es| + j].value));
    }
    assert after == after[..|es|] + after[|es|..];
    assert after[|es|..] == a[..n];
  }

  /** `mergeFrom(Person value)`: `putAllName(value.getName())`, for a value
      built by this class. Such a value holds no null key or value, so the
      only failure is a key the builder already has; entries merged before it
      stay merged. */
  function MergeFromValue(es: seq<Entry>, value: Person): (r: Outcome)
    ensures MergeOutcome(es, value.name, r)
  {
    PutAllBoxed(es, value.name);
    PutAllName(es, NonNull(Boxed(value.name)))
  }

  /** `mergeFrom(Person.Builder template)`: `putAllName` over the template
      builder's own `name` table. */
  function MergeFromBuilder(es: seq<Entry>, template: seq<Entry>): (r: Outcome)
    ensures MergeOutcome(es, template, r)
  {
    PutAllBoxed(es, template);
    PutAllName(es, NonNull(Boxed(template)))
  }

  /** A later `putName` of the same key fails and changes nothing: duplicate
      keys are not allowed. */
  lemma PutSameKeyTwiceFails(es: seq<Entry>, key: JavaInt, first: string, second: Nullable<string>)
    requires PutName(es, key, NonNull(first)).completion == Normal
    ensures second.NonNull? ==>
              var once := PutName(es, key, NonNull(first)).entries;
              PutName(once, key, second) == Outcome(once, Abrupt(IllegalArgumentException))
  {
    AppendNewKey(es, Entry(key, first));
  }

  /** Putting a key again after removing it appends it at the end of the
      iteration order, with the new value. */
  lemma RemoveThenPutMovesKeyToEnd(es: seq<Entry>, key: JavaInt, value: string)
    requires WellFormed(es) && key in Keys(es)
    ensures var removed := RemoveName(es, key);
            var r := PutName(removed.entries, key, NonNull(value));
            && removed.completion == Normal
            && r.completion == Normal
            && r.entries == RemoveAt(es, IndexOf(Keys(es), key)) + [Entry(key, value)]
            && ToMap(r.entries) == ToMap(es)[key := value]
  {
    RemoveNameFound(es, key);
    var removed := RemoveName(es, key).entries;
    AppendNewKey(removed, Entry(key, value));
    UpdateAfterRemoval(ToMap(es), key, value);
  }

  /** Removing a key and then mapping it again is the same as remapping it. */
  lemma UpdateAfterRemoval(m: map<JavaInt, string>, k: JavaInt, v: string)
    ensures (m - {k})[k := v] == m[k := v]
  {
  }

  lemma RemoveNameFound(es: seq<Entry>, key: JavaInt)
    requires WellFormed(es) && key in Keys(es)
    ensures RemoveName(es, key) == Outcome(RemoveAt(es, IndexOf(Keys(es), key)), Normal)
    ensures key !in Keys(RemoveName(es, key).entries)
  {
    assert key !in ToMap(RemoveName(es, key).entries);
  }

  /** A concrete `putAllName` that throws half-way: the entry before the
      rejected one stays in the builder, the one after never goes in. */
  lemma PutAllIsNotTransactional()
    ensures PutAllName([Entry(2, "x")], NonNull([
              SourceEntry(NonNull(1), NonNull("a")),
              SourceEntry(NonNull(2), NonNull("b")),
              SourceEntry(NonNull(3), NonNull("c"))]))
            == Outcome([Entry(2, "x"), Entry(1, "a")], Abrupt(IllegalArgumentException))
  {
    var e1 := SourceEntry(NonNull(1), NonNull("a"));
    var rest := [SourceEntry(NonNull(2), NonNull("b")), SourceEntry(NonNull(3), NonNull("c"))];
    assert [e1] + rest == [e1, rest[0], rest[1]];
    assert Keys([Entry(2, "x")]) == [2];
    assert Keys([Entry(2, "x"), Entry(1, "a")]) == [2, 1];
    assert PutEntry([Entry(2, "x")], e1) == Outcome([Entry(2, "x"), Entry(1, "a")], Normal);
    assert PutAllEntries([Entry(2, "x"), Entry(1, "a")], rest)
        == Outcome([Entry(2, "x"), Entry(1, "a")], Abrupt(IllegalArgumentException));
  }

  /** `mergeFrom(builder)` ends exactly as `mergeFrom(builder.build())` and
      `mergeFrom(builder.buildPartial())` would: same table, same exception. */
  lemma MergeFromBuilderIsMergeFromBuilt(es: seq<Entry>, template: seq<Entry>)
    ensures MergeFromBuilder(es, template) == MergeFromValue(es, Value(template))
    ensures MergeFromBuilder(es, template) == MergeFromValue(es, Partial(template))
  {
  }

  /** Build, merge into a new builder, build again: the same entries in the
      same order, hence an equal value. */
  lemma BuildMergeBuildRoundTrip(es: seq<Entry>)
    requires WellFormed(es)
    ensures MergeFromValue(Fresh, Value(es)) == Outcome(es, Normal)
    ensures Equals(Value(MergeFromValue(Fresh, Value(es)).entries), Value(es))
  {
    PutAllIntoFreshReproduces(es);
  }

  /** `b.mergeFrom(b)`: the first entry is already present, so a non-empty
      builder throws before changing anything, and an empty one is left as it
      is. */
  lemma MergeFromSelf(es: seq<Entry>)
    ensures MergeFromBuilder(es, es)
            == Outcome(es, if es == [] then Normal else Abrupt(IllegalArgumentException))
  {
    if es != [] {
      assert Keys(es)[0] == es[0].key;
      assert Boxed(es) == [Boxed(es)[0]] + Boxed(es)[1..];
    }
  }

  lemma AdmissibleBoxed(es: seq<Entry>, a: seq<Entry>)
    requires WellFormed(a)
    ensures Admissible(es, Boxed(a)) <==> forall k | k in Keys(a) :: k !in Keys(es)
  {
    var b := Boxed(a);
    forall i, j | 0 <= i < j < |b| ensures b[i].key != b[j].key {
      assert Keys(a)[i] != Keys(a)[j];
    }
    if Admissible(es, b) {
      forall k | k in Keys(a) ensures k !in Keys(es) {
        var i :| 0 <= i < |a| && Keys(a)[i] == k;
        assert b[i].key.value == k;
      }
    }
  }

  /** Merging two equal built values (the same mappings, perhaps in different
      orders) into the same builder ends the same way, and when it returns
      normally the two builders would build equal values. */
  lemma MergeFromEqualValues(es: seq<Entry>, p: Person, q: Person)
    requires WellFormed(es) && WellFormed(p.name) && WellFormed(q.name)
    requires Equals(p, q)
    ensures MergeFromValue(es, p).completion == MergeFromValue(es, q).completion
    ensures MergeFromValue(es, p).completion == Normal ==>
              Equals(Value(MergeFromValue(es, p).entries), Value(MergeFromValue(es, q).entries))
  {
    var rp, rq := MergeFromValue(es, p), MergeFromValue(es, q);
    assert rp == PutAllEntries(es, Boxed(p.name));
    assert rq == PutAllEntries(es, Boxed(q.name));
    assert forall k :: k in Keys(p.name) <==> k in Keys(q.name);
    MergeSucceedsIff(es, p.name);
    MergeSucceedsIff(es, q.name);
    if rp.completion == Normal {
      assert rp.entries == es + p.name && rq.entries == es + q.name;
      AppendMapping(es, p.name);
      AppendMapping(es, q.name);
      assert ToMap(rp.entries) == ToMap(es) + ToMap(p.name);
    }
  }

  /** Merging the entries of a built value or builder succeeds exactly when
      none of their keys is in the table already. */
  lemma MergeSucceedsIff(es: seq<Entry>, a: seq<Entry>)
    requires WellFormed(es) && WellFormed(a)
    ensures PutAllEntries(es, Boxed(a)).completion == Normal <==> forall k | k in Keys(a) :: k !in Keys(es)
  {
    AdmissibleBoxed(es, a);
    PutAllSucceedsIff(es, Boxed(a));
  }
}
