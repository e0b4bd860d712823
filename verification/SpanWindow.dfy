/**
 capa-x/src/capabilities/dynamic_analysis.rs: the feature union of the trailing window of calls, kept up to date call by
 call instead of being computed anew.
 */
module SpanWindow {
  import opened Base
  import opened Features
  import opened FeatureSets

  /** The number of calls in a span. */
  const SPAN_SIZE: nat := 20

  /**
   The features of one call: each is at the call's own address, or without an address, and those without an address are
   exactly the global ones, which every call has.
   */
  ghost predicate OfCall(fs: FeatureSet, addr: Address, globals: set<Feature>) {
    && (forall f | f in fs.locs :: fs.locs[f] != {} && fs.locs[f] <= {addr, NoAddress})
    && (forall f | f in fs.locs :: NoAddress in fs.locs[f] <==> f in globals)
    && forall f | f in globals :: f in fs.locs
  }

  ghost predicate InWindow(window: seq<FeatureSet>, f: Feature) {
    exists i | 0 <= i < |window| :: f in window[i].locs
  }

  function WindowSites(window: seq<FeatureSet>, f: Feature): set<Address> {
    set i, a | 0 <= i < |window| && a in Locations(window[i].locs, f) :: a
  }

  /** `locs` has what the window has of `f`. */
  ghost predicate HasWindow(locs: map<Feature, set<Address>>, window: seq<FeatureSet>, f: Feature) {
    && (f in locs <==> InWindow(window, f))
    && Locations(locs, f) == WindowSites(window, f)
  }

  /** `current` has the features and locations of the sets in the window, and no others. */
  ghost predicate IsUnion(current: FeatureSet, window: seq<FeatureSet>) {
    forall f :: HasWindow(current.locs, window, f)
  }

  // ---- forgetting a call ----

  /** Take locations away from a feature, and the feature too once it has none left. */
  function Evict(fs: FeatureSet, f: Feature, at: set<Address>): FeatureSet {
    if f !in fs.locs then fs
    else if fs.locs[f] - at == {} then
      RemoveKey(fs, f);
      FeatureSet(Missing(fs.keys, {f}), fs.locs - {f})
    else FeatureSet(fs.keys, fs.locs[f := fs.locs[f] - at])
  }

  lemma RemoveKey(fs: FeatureSet, f: Feature)
    ensures WellFormed(FeatureSet(Missing(fs.keys, {f}), fs.locs - {f}))
  {
    KeySetMeans(fs.keys);
    KeySetMeans(Missing(fs.keys, {f}));
    MissingOf(fs.keys, {f});
    MissingDistinct(fs.keys, {f});
  }

  /** Global features stay; the others lose the locations of the call. */
  function EvictUnlessGlobal(fs: FeatureSet, f: Feature, at: set<Address>): FeatureSet {
    if at == {NoAddress} then fs else Evict(fs, f, at)
  }

  /** `fs` after the first `n` features of `oldest` were evicted. */
  function EvictPrefix(fs: FeatureSet, oldest: FeatureSet, n: nat): FeatureSet
    requires n <= |oldest.keys|
  {
    if n == 0 then fs
    else
      KeyIsLocated(oldest, n - 1);
      EvictUnlessGlobal(EvictPrefix(fs, oldest, n - 1), oldest.keys[n - 1], oldest.locs[oldest.keys[n - 1]])
  }

  /** What is left of `f` when a call that had it at `at` is forgotten. */
  ghost predicate Leaves(before: map<Feature, set<Address>>, f: Feature, at: set<Address>,
                         after: map<Feature, set<Address>>)
  {
    if f !in before || at == {} || at == {NoAddress} then
      (f in after <==> f in before) && Locations(after, f) == Locations(before, f)
    else Locations(after, f) == before[f] - at && (f in after <==> before[f] - at != {})
  }

  lemma EvictLeaves(fs: FeatureSet, g: Feature, at: set<Address>, f: Feature)
    requires at != {}
    ensures Leaves(fs.locs, f, if f == g then at else {}, EvictUnlessGlobal(fs, g, at).locs)
  {
  }

  lemma LeavesTwice(a: map<Feature, set<Address>>, f: Feature, first: set<Address>, b: map<Feature, set<Address>>,
                    second: set<Address>, c: map<Feature, set<Address>>)
    requires Leaves(a, f, first, b) && Leaves(b, f, second, c) && (first == {} || second == {})
    ensures Leaves(a, f, first + second, c)
  {
  }

  /** What the first `n` keys of the call say of `f`. */
  function SitesOfPrefix(oldest: FeatureSet, n: nat, f: Feature): set<Address>
    requires n <= |oldest.keys|
  {
    if f in oldest.keys[..n] then Locations(oldest.locs, f) else {}
  }

  lemma {:induction false} EvictPrefixLeaves(fs: FeatureSet, oldest: FeatureSet, n: nat, f: Feature)
    requires n <= |oldest.keys| && forall g | g in oldest.locs :: oldest.locs[g] != {}
    ensures Leaves(fs.locs, f, SitesOfPrefix(oldest, n, f), EvictPrefix(fs, oldest, n).locs)
  {
    if n > 0 {
      var g := oldest.keys[n - 1];
      KeyIsLocated(oldest, n - 1);
      EvictPrefixLeaves(fs, oldest, n - 1, f);
      EvictLeaves(EvictPrefix(fs, oldest, n - 1), g, oldest.locs[g], f);
      DistinctPrefix(oldest.keys, n - 1);
      assert oldest.keys[..n] == oldest.keys[..n - 1] + [g];
      LeavesTwice(fs.locs, f, SitesOfPrefix(oldest, n - 1, f), EvictPrefix(fs, oldest, n - 1).locs,
                  if f == g then oldest.locs[g] else {}, EvictPrefix(fs, oldest, n).locs);
    }
  }

  lemma EvictedLeaves(fs: FeatureSet, oldest: FeatureSet, f: Feature)
    requires forall g | g in oldest.locs :: oldest.locs[g] != {}
    ensures Leaves(fs.locs, f, Locations(oldest.locs, f), EvictPrefix(fs, oldest, |oldest.keys|).locs)
  {
    EvictPrefixLeaves(fs, oldest, |oldest.keys|, f);
    KeySetMeans(oldest.keys);
    assert oldest.keys[..|oldest.keys|] == oldest.keys;
  }

  // ---- the window slides ----

  lemma WindowAppend(window: seq<FeatureSet>, next: FeatureSet, f: Feature)
    ensures InWindow(window + [next], f) <==> InWindow(window, f) || f in next.locs
    ensures WindowSites(window + [next], f) == WindowSites(window, f) + Locations(next.locs, f)
  {
    var longer := window + [next];
    if i :| 0 <= i < |window| && f in window[i].locs {
      assert longer[i] == window[i];
    }
    if f in next.locs {
      assert longer[|window|] == next;
    }
    SitesAppend(window, next, f);
  }

  lemma SitesAppend(window: seq<FeatureSet>, next: FeatureSet, f: Feature)
    ensures WindowSites(window + [next], f) == WindowSites(window, f) + Locations(next.locs, f)
  {
    var longer := window + [next];
    forall a | a in WindowSites(longer, f) ensures a in WindowSites(window, f) + Locations(next.locs, f) {
      var i :| 0 <= i < |longer| && a in Locations(longer[i].locs, f);
      assert i < |window| ==> longer[i] == window[i];
    }
    forall a | a in WindowSites(window, f) ensures a in WindowSites(longer, f) {
      var i :| 0 <= i < |window| && a in Locations(window[i].locs, f);
      assert longer[i] == window[i];
    }
    forall a | a in Locations(next.locs, f) ensures a in WindowSites(longer, f) {
      assert longer[|window|] == next;
    }
  }

  lemma WindowFirst(window: seq<FeatureSet>, f: Feature)
    requires window != []
    ensures InWindow(window, f) <==> f in window[0].locs || InWindow(window[1..], f)
    ensures WindowSites(window, f) == Locations(window[0].locs, f) + WindowSites(window[1..], f)
  {
    var rest := window[1..];
    if i :| 0 <= i < |window| && f in window[i].locs {
      assert i > 0 ==> f in rest[i - 1].locs;
    }
    if i :| 0 <= i < |rest| && f in rest[i].locs {
      assert f in window[i + 1].locs;
    }
    forall i, a | 0 <= i < |window| && a in Locations(window[i].locs, f)
      ensures a in Locations(window[0].locs, f) + WindowSites(rest, f)
    {
      assert i > 0 ==> a in Locations(rest[i - 1].locs, f);
    }
    forall i, a | 0 <= i < |rest| && a in Locations(rest[i].locs, f) ensures a in WindowSites(window, f) {
      assert a in Locations(window[i + 1].locs, f);
    }
  }

  lemma GrownIsUnion(current: FeatureSet, window: seq<FeatureSet>, next: FeatureSet)
    requires IsUnion(current, window)
    ensures IsUnion(Merge(current, next), window + [next])
  {
    forall f ensures HasWindow(Merge(current, next).locs, window + [next], f) {
      assert HasWindow(current.locs, window, f);
      MergeContents(current, next);
      WindowAppend(window, next, f);
    }
  }

  /** The calls of a window: each has its own address, different from all the others. */
  ghost predicate AreCalls(window: seq<FeatureSet>, addrs: seq<Address>, globals: set<Feature>) {
    && |window| == |addrs|
    && (forall i | 0 <= i < |window| :: addrs[i] != NoAddress && OfCall(window[i], addrs[i], globals))
    && forall i, j | 0 <= i < j < |addrs| :: addrs[i] != addrs[j]
  }

  /** The oldest call's own address is nowhere else in the window. */
  lemma OldestIsApart(window: seq<FeatureSet>, addrs: seq<Address>, globals: set<Feature>, f: Feature)
    requires window != [] && AreCalls(window, addrs, globals)
    ensures addrs[0] !in WindowSites(window[1..], f)
    ensures NoAddress in WindowSites(window[1..], f) ==> f in globals
    ensures InWindow(window[1..], f) <==> WindowSites(window[1..], f) != {}
  {
    var rest := window[1..];
    forall i, a | 0 <= i < |rest| && a in Locations(rest[i].locs, f)
      ensures a != addrs[0] && (a == NoAddress ==> f in globals)
    {
      assert OfCall(window[i + 1], addrs[i + 1], globals);
      assert rest[i].locs[f] <= {addrs[i + 1], NoAddress};
    }
    if i :| 0 <= i < |rest| && f in rest[i].locs {
      assert OfCall(window[i + 1], addrs[i + 1], globals);
      var a :| a in rest[i].locs[f];
      assert a in Locations(rest[i].locs, f);
    }
  }

  /** Forgetting the oldest call and adding the next one gives the union of the slid window. */
  lemma SlidIsUnion(current: FeatureSet, window: seq<FeatureSet>, addrs: seq<Address>, globals: set<Feature>,
                    next: FeatureSet, addr: Address)
    requires window != [] && AreCalls(window, addrs, globals) && OfCall(next, addr, globals)
    requires IsUnion(current, window)
    ensures IsUnion(Merge(EvictPrefix(current, window[0], |window[0].keys|), next), window[1..] + [next])
  {
    var left := EvictPrefix(current, window[0], |window[0].keys|);
    assert OfCall(window[0], addrs[0], globals);
    forall f ensures HasWindow(Merge(left, next).locs, window[1..] + [next], f) {
      assert HasWindow(current.locs, window, f);
      EvictedLeaves(current, window[0], f);
      MergeContents(left, next);
      WindowFirst(window, f);
      WindowAppend(window[1..], next, f);
      OldestIsApart(window, addrs, globals, f);
      SlidAt(current.locs, window, f, left.locs, addrs, globals, next, addr);
    }
  }

  /** One feature: what is forgotten of it is its location at the oldest call, or comes back with the next call. */
  lemma SlidAt(current: map<Feature, set<Address>>, window: seq<FeatureSet>, f: Feature,
               left: map<Feature, set<Address>>, addrs: seq<Address>, globals: set<Feature>, next: FeatureSet,
               addr: Address)
    requires window != [] && |addrs| == |window| && addrs[0] != NoAddress
    requires OfCall(window[0], addrs[0], globals) && OfCall(next, addr, globals)
    requires f in current <==> f in window[0].locs || InWindow(window[1..], f)
    requires Locations(current, f) == Locations(window[0].locs, f) + WindowSites(window[1..], f)
    requires Leaves(current, f, Locations(window[0].locs, f), left)
    requires addrs[0] !in WindowSites(window[1..], f)
    requires NoAddress in WindowSites(window[1..], f) ==> f in globals
    requires InWindow(window[1..], f) <==> WindowSites(window[1..], f) != {}
    ensures f in left || f in next.locs <==> InWindow(window[1..], f) || f in next.locs
    ensures Locations(left, f) + Locations(next.locs, f) == WindowSites(window[1..], f) + Locations(next.locs, f)
  {
    var rest, at := WindowSites(window[1..], f), Locations(window[0].locs, f);
    if f in globals {
      assert NoAddress in next.locs[f];
      assert Locations(left, f) + {NoAddress} == rest + {NoAddress};
    } else if f in window[0].locs {
      assert at == {addrs[0]};
      assert Locations(left, f) == rest;
    }
  }
}
