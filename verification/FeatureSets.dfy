/**
 capa-x/src/engine.rs: the insertion-ordered feature sets that rules are matched against.
 `FeatureSet` is the value; `FeatureMap` is the object that the engine updates in place.
 */
module FeatureSets {
  import opened Base
  import opened Features

  /** `keys` lists the features in the order they were first inserted; `locs` holds their locations. */
  datatype RawSet = FeatureSet(keys: seq<Feature>, locs: map<Feature, set<Address>>)

  ghost predicate WellFormed(fs: RawSet) {
    Distinct(fs.keys) && fs.locs.Keys == KeySet(fs.keys)
  }

  function KeySet(keys: seq<Feature>): set<Feature> {
    if keys == [] then {} else KeySet(keys[..|keys| - 1]) + {keys[|keys| - 1]}
  }

  lemma KeySetMeans(keys: seq<Feature>)
    ensures KeySet(keys) == set k | k in keys
  {
    if keys != [] {
      var init, last := keys[..|keys| - 1], keys[|keys| - 1];
      KeySetMeans(init);
      assert keys == init + [last];
    }
  }

  lemma KeySetAppend(keys: seq<Feature>, k: Feature)
    ensures KeySet(keys + [k]) == KeySet(keys) + {k}
  {
    assert (keys + [k])[..|keys|] == keys;
  }

  type FeatureSet = fs: RawSet | WellFormed(fs) witness FeatureSet([], map[])

  const EMPTY: FeatureSet := FeatureSet([], map[])

  lemma KeyIsLocated(fs: FeatureSet, i: nat)
    requires i < |fs.keys|
    ensures fs.keys[i] in fs.locs
    ensures KeySet(fs.keys[..i + 1]) == KeySet(fs.keys[..i]) + {fs.keys[i]}
  {
    KeySetMeans(fs.keys);
    KeySetAppend(fs.keys[..i], fs.keys[i]);
    assert fs.keys[..i + 1] == fs.keys[..i] + [fs.keys[i]];
  }

  function Locations(locs: map<Feature, set<Address>>, f: Feature): set<Address> {
    if f in locs then locs[f] else {}
  }

  function InsertMany(fs: FeatureSet, f: Feature, at: set<Address>): (r: FeatureSet)
    ensures r.locs == fs.locs[f := Locations(fs.locs, f) + at]
  {
    KeySetMeans(fs.keys);
    DistinctAppend(fs.keys, f);
    KeySetAppend(fs.keys, f);
    FeatureSet(if f in fs.locs then fs.keys else fs.keys + [f], fs.locs[f := Locations(fs.locs, f) + at])
  }

  lemma InsertContents(fs: FeatureSet, g: Feature, at: set<Address>, f: Feature)
    ensures f in InsertMany(fs, g, at).locs <==> f in fs.locs || f == g
    ensures Locations(InsertMany(fs, g, at).locs, f) == Locations(fs.locs, f) + (if f == g then at else {})
  {
  }

  function UnionLocs(a: map<Feature, set<Address>>, b: map<Feature, set<Address>>): map<Feature, set<Address>> {
    map f | f in a.Keys + b.Keys :: Locations(a, f) + Locations(b, f)
  }

  /** Insert each pair in turn, as `seed` does with the features of one unit. */
  function InsertAll(fs: FeatureSet, entries: seq<(Address, Feature)>): FeatureSet {
    if entries == [] then fs
    else
      var last := entries[|entries| - 1];
      InsertMany(InsertAll(fs, entries[..|entries| - 1]), last.1, {last.0})
  }

  lemma InsertAllNext(fs: FeatureSet, entries: seq<(Address, Feature)>, i: nat)
    requires i < |entries|
    ensures InsertAll(fs, entries[..i + 1]) == InsertMany(InsertAll(fs, entries[..i]), entries[i].1, {entries[i].0})
  {
    assert entries[..i + 1][..i] == entries[..i];
  }

  // ---- what the scans of `Bytes` and `Os` leaves can see of the order ----

  predicate IsBytes(f: Feature) { f.Bytes? }

  predicate IsOs(f: Feature) { f.Os? }

  /** Equal contents, and the same relative order among `Bytes` keys and among `Os` keys. */
  ghost predicate Equivalent(a: FeatureSet, b: FeatureSet) {
    && a.locs == b.locs
    && Filter(a.keys, IsBytes) == Filter(b.keys, IsBytes)
    && Filter(a.keys, IsOs) == Filter(b.keys, IsOs)
  }

  /** The keys of `ks` that are not in `known`. */
  function Missing(ks: seq<Feature>, known: set<Feature>): seq<Feature> {
    if ks == [] then []
    else
      var k, init := ks[|ks| - 1], Missing(ks[..|ks| - 1], known);
      if k in known then init else init + [k]
  }

  lemma MissingOf(ks: seq<Feature>, known: set<Feature>)
    ensures forall k :: k in Missing(ks, known) <==> k in ks && k !in known
  {
  }

  lemma MissingDistinct(ks: seq<Feature>, known: set<Feature>)
    requires Distinct(ks)
    ensures Distinct(Missing(ks, known))
  {
    if ks != [] {
      MissingDistinct(ks[..|ks| - 1], known);
      MissingOf(ks[..|ks| - 1], known);
      DistinctAppend(Missing(ks[..|ks| - 1], known), ks[|ks| - 1]);
    }
  }

  lemma ExtendedKeys(fs: FeatureSet, ks: seq<Feature>)
    requires Distinct(ks)
    ensures Distinct(fs.keys + Missing(ks, fs.locs.Keys))
    ensures KeySet(fs.keys + Missing(ks, fs.locs.Keys)) == fs.locs.Keys + set k | k in ks
  {
    KeySetMeans(fs.keys);
    KeySetMeans(fs.keys + Missing(ks, fs.locs.Keys));
    MissingOf(ks, fs.locs.Keys);
    MissingDistinct(ks, fs.locs.Keys);
    DistinctConcat(fs.keys, Missing(ks, fs.locs.Keys));
  }

  /** `fs` after the first `n` entries of `other` were merged in: old keys keep their places. */
  function MergePrefix(fs: FeatureSet, other: FeatureSet, n: nat): FeatureSet
    requires n <= |other.keys|
  {
    var ks := other.keys[..n];
    KeySetMeans(other.keys);
    DistinctPrefix(other.keys, n);
    ExtendedKeys(fs, ks);
    FeatureSet(fs.keys + Missing(ks, fs.locs.Keys), MergedLocs(fs.locs, other, ks))
  }

  function MergedLocs(locs: map<Feature, set<Address>>, other: FeatureSet, ks: seq<Feature>): map<Feature, set<Address>>
    requires forall k :: k in ks ==> k in other.locs
  {
    map f | f in locs.Keys + (set k | k in ks) :: Locations(locs, f) + (if f in ks then other.locs[f] else {})
  }

  function Merge(fs: FeatureSet, other: FeatureSet): FeatureSet {
    MergePrefix(fs, other, |other.keys|)
  }

  lemma MergedLocsAt(locs: map<Feature, set<Address>>, other: FeatureSet, ks: seq<Feature>, f: Feature)
    requires forall x :: x in ks ==> x in other.locs
    ensures f in MergedLocs(locs, other, ks) <==> f in locs || f in ks
    ensures Locations(MergedLocs(locs, other, ks), f) == Locations(locs, f) + (if f in ks then other.locs[f] else {})
  {
  }

  lemma MergedLocsStep(locs: map<Feature, set<Address>>, other: FeatureSet, ks: seq<Feature>, k: Feature)
    requires forall x :: x in ks + [k] ==> x in other.locs
    requires k !in ks
    ensures var before := MergedLocs(locs, other, ks);
            MergedLocs(locs, other, ks + [k]) == before[k := Locations(before, k) + other.locs[k]]
  {
    var before, after := MergedLocs(locs, other, ks), MergedLocs(locs, other, ks + [k]);
    var expected := before[k := Locations(before, k) + other.locs[k]];
    assert forall f :: f in ks + [k] <==> f in ks || f == k;
    forall f ensures (f in after <==> f in expected) && Locations(after, f) == Locations(expected, f) {
      MergedLocsAt(locs, other, ks, f);
      MergedLocsAt(locs, other, ks + [k], f);
    }
    assert after.Keys == expected.Keys;
    forall f | f in after ensures after[f] == expected[f] {
      assert after[f] == Locations(after, f);
    }
  }

  lemma MergeStep(fs: FeatureSet, other: FeatureSet, n: nat)
    requires n < |other.keys| && other.keys[n] in other.locs
    ensures MergePrefix(fs, other, n + 1)
            == InsertMany(MergePrefix(fs, other, n), other.keys[n], other.locs[other.keys[n]])
  {
    var ks, k := other.keys[..n], other.keys[n];
    assert other.keys[..n + 1] == ks + [k];
    assert k !in ks && forall x :: x in ks + [k] ==> x in other.locs by {
      KeySetMeans(other.keys);
      DistinctPrefix(other.keys, n);
    }
    MergeStepAt(fs, other, ks, k);
  }

  lemma MergeStepAt(fs: FeatureSet, other: FeatureSet, ks: seq<Feature>, k: Feature)
    requires k !in ks && forall x :: x in ks + [k] ==> x in other.locs
    ensures var before := MergedLocs(fs.locs, other, ks);
            && MergedLocs(fs.locs, other, ks + [k]) == before[k := Locations(before, k) + other.locs[k]]
            && fs.keys + Missing(ks + [k], fs.locs.Keys)
               == (if k in before then fs.keys + Missing(ks, fs.locs.Keys)
                   else fs.keys + Missing(ks, fs.locs.Keys) + [k])
  {
    MissingAppend(ks, k, fs.locs.Keys);
    MergedLocsStep(fs.locs, other, ks, k);
  }

  lemma MergeContents(fs: FeatureSet, other: FeatureSet)
    ensures Merge(fs, other).locs == UnionLocs(fs.locs, other.locs)
    ensures Merge(fs, other).keys == fs.keys + Missing(other.keys, fs.locs.Keys)
  {
    assert other.keys[..|other.keys|] == other.keys;
    KeySetMeans(other.keys);
  }

  lemma FilterConcat(a: seq<Feature>, b: seq<Feature>, p: Feature -> bool)
    ensures Filter(a + b, p) == Filter(a, p) + Filter(b, p)
  {
    if b == [] {
      assert a + b == a;
    } else {
      FilterConcat(a, b[..|b| - 1], p);
      assert (a + b)[..|a + b| - 1] == a + b[..|b| - 1];
    }
  }

  lemma MissingAppend(ks: seq<Feature>, k: Feature, known: set<Feature>)
    ensures Missing(ks + [k], known) == if k in known then Missing(ks, known) else Missing(ks, known) + [k]
  {
    assert (ks + [k])[..|ks + [k]| - 1] == ks;
  }

  lemma FilterMissing(ks: seq<Feature>, known: set<Feature>, p: Feature -> bool)
    ensures Filter(Missing(ks, known), p) == Missing(Filter(ks, p), known)
  {
    if ks != [] {
      var init, k := ks[..|ks| - 1], ks[|ks| - 1];
      FilterMissing(init, known, p);
      if k in known {
        assert Missing(ks, known) == Missing(init, known);
      } else {
        FilterAppend(Missing(init, known), k, p);
      }
      if p(k) {
        MissingAppend(Filter(init, p), k, known);
      }
    }
  }

  lemma FilteredMerge(a: FeatureSet, b: FeatureSet, p: Feature -> bool)
    ensures Filter(Merge(a, b).keys, p) == Filter(a.keys, p) + Missing(Filter(b.keys, p), a.locs.Keys)
  {
    MergeContents(a, b);
    FilterConcat(a.keys, Missing(b.keys, a.locs.Keys), p);
    FilterMissing(b.keys, a.locs.Keys, p);
  }

  lemma MergeEquivalent(a: FeatureSet, a': FeatureSet, b: FeatureSet, b': FeatureSet)
    requires Equivalent(a, a') && Equivalent(b, b')
    ensures Equivalent(Merge(a, b), Merge(a', b'))
  {
    MergeContents(a, b);
    MergeContents(a', b');
    FilteredMerge(a, b, IsBytes);
    FilteredMerge(a', b', IsBytes);
    FilteredMerge(a, b, IsOs);
    FilteredMerge(a', b', IsOs);
  }

  lemma InsertEquivalent(a: FeatureSet, b: FeatureSet, f: Feature, at: set<Address>)
    requires Equivalent(a, b)
    ensures Equivalent(InsertMany(a, f, at), InsertMany(b, f, at))
  {
    FilterAppend(a.keys, f, IsBytes);
    FilterAppend(a.keys, f, IsOs);
    FilterAppend(b.keys, f, IsBytes);
    FilterAppend(b.keys, f, IsOs);
  }

  lemma InsertAllEquivalent(a: FeatureSet, b: FeatureSet, entries: seq<(Address, Feature)>)
    requires Equivalent(a, b)
    ensures Equivalent(InsertAll(a, entries), InsertAll(b, entries))
  {
    if entries != [] {
      var init, last := entries[..|entries| - 1], entries[|entries| - 1];
      InsertAllEquivalent(a, b, init);
      InsertEquivalent(InsertAll(a, init), InsertAll(b, init), last.1, {last.0});
    }
  }

  /** An insertion-ordered map of features that its owner updates in place. */
  class FeatureMap {
    var keys: seq<Feature>
    var locs: map<Feature, set<Address>>

    ghost predicate Valid()
      reads this
    {
      WellFormed(FeatureSet(keys, locs))
    }

    function View(): FeatureSet
      requires Valid()
      reads this
    {
      FeatureSet(keys, locs)
    }

    constructor ()
      ensures Valid() && View() == EMPTY
    {
      keys, locs := [], map[];
    }

    /** A new key goes to the end; a known key keeps its place. */
    method Extend(f: Feature, at: set<Address>)
      requires Valid()
      modifies this
      ensures Valid() && View() == InsertMany(old(View()), f, at)
    {
      ghost var result := InsertMany(View(), f, at);
      assert {} + at == at;
      if f !in locs {
        keys := keys + [f];
        locs := locs[f := at];
      } else {
        locs := locs[f := locs[f] + at];
      }
      assert FeatureSet(keys, locs) == result;
    }

    method Insert(f: Feature, at: Address)
      requires Valid()
      modifies this
      ensures Valid() && View() == InsertMany(old(View()), f, {at})
    {
      Extend(f, {at});
    }

    /** `merge` and `merge_owned`: take over every entry of `other`, in its order. */
    method Absorb(other: FeatureSet)
      requires Valid()
      modifies this
      ensures Valid() && View() == Merge(old(View()), other)
    {
      ghost var before := View();
      MergeNothing(before, other);
      for i := 0 to |other.keys|
        invariant Valid() && View() == MergePrefix(before, other, i)
      {
        KeySetMeans(other.keys);
        MergeStep(before, other, i);
        Extend(other.keys[i], other.locs[other.keys[i]]);
      }
    }

    /** Insert each pair in turn. */
    method InsertPairs(entries: seq<(Address, Feature)>)
      requires Valid()
      modifies this
      ensures Valid() && View() == InsertAll(old(View()), entries)
    {
      ghost var before := View();
      for i := 0 to |entries|
        invariant Valid() && View() == InsertAll(before, entries[..i])
      {
        InsertAllNext(before, entries, i);
        Insert(entries[i].1, entries[i].0);
      }
      assert entries[..|entries|] == entries;
    }
  }

  lemma MergeNothing(fs: FeatureSet, other: FeatureSet)
    ensures MergePrefix(fs, other, 0) == fs
  {
    var merged := MergedLocs(fs.locs, other, []);
    assert other.keys[..0] == [];
    assert merged.Keys == fs.locs.Keys;
    forall f | f in merged ensures merged[f] == fs.locs[f] {
      assert fs.locs[f] + {} == fs.locs[f];
    }
    assert fs.keys + Missing([], fs.locs.Keys) == fs.keys;
  }
}
