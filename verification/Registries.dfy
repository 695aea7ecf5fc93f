/** Merging image mirror sets through unordered maps into one deterministic registry configuration. */
module Registries {
  import opened ImagePath
  import opened Sorting

  datatype Mirror = Mirror(host: string, resolveTags: bool)

  datatype Policy = Unset | AllowContactingSource | NeverContactSource

  datatype MirrorSet = MirrorSet(source: string, mirrors: seq<Mirror>, policy: Policy)

  const HOST_OF := (m: Mirror) => m.host
  const SOURCE_OF := (s: MirrorSet) => s.source

  // What is contributed for one source

  /** The sets of one source, in order. */
  function For(sets: seq<MirrorSet>, source: string): seq<MirrorSet> {
    if sets == [] then []
    else if sets[0].source == source then [sets[0]] + For(sets[1..], source)
    else For(sets[1..], source)
  }

  ghost predicate HasHost(ms: seq<Mirror>, h: string) {
    exists m :: m in ms && m.host == h
  }

  ghost predicate HasTagged(ms: seq<Mirror>, h: string) {
    exists m :: m in ms && m.host == h && m.resolveTags
  }

  ghost predicate Contributes(sets: seq<MirrorSet>, h: string) {
    exists s :: s in sets && HasHost(s.mirrors, h)
  }

  ghost predicate ResolvesTags(sets: seq<MirrorSet>, h: string) {
    exists s :: s in sets && HasTagged(s.mirrors, h)
  }

  /** The first policy other than Allow; Allow when there is none. */
  function PolicyOf(sets: seq<MirrorSet>): Policy {
    if sets == [] then AllowContactingSource
    else if sets[0].policy == AllowContactingSource then PolicyOf(sets[1..])
    else sets[0].policy
  }

  ghost predicate UniqueHosts(ms: seq<Mirror>) {
    forall i, j :: 0 <= i < j < |ms| ==> ms[i].host != ms[j].host
  }

  /** Mirrors of the same host agree on tag resolution. */
  ghost predicate Consistent(ms: seq<Mirror>) {
    forall m, n :: m in ms && n in ms && m.host == n.host ==> m == n
  }

  ghost predicate AllConsistent(sets: seq<MirrorSet>) {
    forall s :: s in sets ==> Consistent(s.mirrors)
  }

  /** `ms` holds exactly the hosts of `sets`, tagged exactly where one of them is; hosts are unique once there
      was something to merge, and a single set is kept as it is. */
  ghost predicate Union(sets: seq<MirrorSet>, ms: seq<Mirror>) {
    && (forall h :: HasHost(ms, h) <==> Contributes(sets, h))
    && (forall m :: m in ms ==> (m.resolveTags <==> ResolvesTags(sets, m.host)))
    && (|sets| == 1 ==> multiset(ms) == multiset(sets[0].mirrors))
    && (|sets| > 1 ==> UniqueHosts(ms))
  }

  ghost predicate Merged(sets: seq<MirrorSet>, r: MirrorSet) {
    Union(sets, r.mirrors) && r.policy == PolicyOf(sets)
  }

  /** The merged configuration of `base`. */
  ghost predicate Output(base: seq<MirrorSet>, out: seq<MirrorSet>) {
    && StrictlyAscending(SOURCE_OF, out)
    && (forall src :: (exists r :: r in out && r.source == src) <==> For(base, src) != [])
    && (forall r :: r in out ==> Merged(For(base, r.source), r) && Ascending(HOST_OF, r.mirrors))
  }

  // Merging two lists of mirrors

  type ByHost = map<string, Mirror>

  /** The merge of two lists: each host once, resolving tags if it does in either list. */
  method MergeMirrors(existing: seq<Mirror>, added: seq<Mirror>) returns (r: seq<Mirror>)
    requires Consistent(existing)
    ensures UniqueHosts(r)
    ensures forall h :: HasHost(r, h) <==> HasHost(existing, h) || HasHost(added, h)
    ensures forall m :: m in r ==> (m.resolveTags <==> HasTagged(existing, m.host) || HasTagged(added, m.host))
  {
    hide HasHost, HasTagged, Consistent;
    var unique := IndexByHost(existing);
    unique := AddMirrors(unique, existing, added);
    r := ValuesInAnyOrder(unique);
    HostsOf(unique, r);
  }

  lemma HostsOf(unique: ByHost, r: seq<Mirror>)
    requires forall x :: x in r <==> x.host in unique && unique[x.host] == x
    requires forall h :: h in unique ==> unique[h].host == h
    ensures forall h :: HasHost(r, h) <==> h in unique
  {
    forall h | h in unique
      ensures HasHost(r, h)
    {
      assert unique[h] in r;
    }
  }

  /** The first loop: of mirrors with the same host, the last is kept. */
  method IndexByHost(existing: seq<Mirror>) returns (unique: ByHost)
    requires Consistent(existing)
    ensures forall h :: h in unique <==> HasHost(existing, h)
    ensures forall h :: h in unique ==> unique[h].host == h
    ensures forall h :: h in unique ==> (unique[h].resolveTags <==> HasTagged(existing, h))
  {
    unique := map[];
    for i := 0 to |existing|
      invariant forall h :: h in unique <==> HasHost(existing[..i], h)
      invariant forall h :: h in unique ==> unique[h] in existing && unique[h].host == h
    {
      HostsSnoc(existing, i);
      unique := unique[existing[i].host := existing[i]];
    }
    assert existing[..|existing|] == existing;
  }

  /** The second loop: a new mirror is added, or adds tag resolution. */
  method AddMirrors(start: ByHost, ghost existing: seq<Mirror>, added: seq<Mirror>) returns (unique: ByHost)
    requires forall h :: h in start <==> HasHost(existing, h)
    requires forall h :: h in start ==> start[h].host == h
    requires forall h :: h in start ==> (start[h].resolveTags <==> HasTagged(existing, h))
    ensures forall h :: h in unique <==> HasHost(existing, h) || HasHost(added, h)
    ensures forall h :: h in unique ==> unique[h].host == h
    ensures forall h :: h in unique ==> (unique[h].resolveTags <==> HasTagged(existing, h) || HasTagged(added, h))
  {
    hide HasHost, HasTagged;
    unique := start;
    NoMirrors();
    for i := 0 to |added|
      invariant forall h :: h in unique <==> HasHost(existing, h) || HasHost(added[..i], h)
      invariant forall h :: h in unique ==> unique[h].host == h
      invariant forall h :: h in unique ==>
                              (unique[h].resolveTags <==> HasTagged(existing, h) || HasTagged(added[..i], h))
    {
      var m := added[i];
      HostsSnoc(added, i);
      TaggedHasHost(existing, added[..i], m.host);
      if m.host in unique {
        if !unique[m.host].resolveTags && m.resolveTags {
          unique := unique[m.host := m];
        }
      } else {
        unique := unique[m.host := m];
      }
    }
    assert added[..|added|] == added;
  }

  lemma NoMirrors()
    ensures forall h :: !HasHost([], h) && !HasTagged([], h)
  {
  }

  lemma HostsSnoc(ms: seq<Mirror>, i: nat)
    requires i < |ms|
    ensures forall h :: HasHost(ms[..i + 1], h) <==> HasHost(ms[..i], h) || h == ms[i].host
    ensures forall h :: HasTagged(ms[..i + 1], h) <==> HasTagged(ms[..i], h) || (h == ms[i].host && ms[i].resolveTags)
  {
    assert ms[..i + 1] == ms[..i] + [ms[i]];
    forall h
      ensures HasHost(ms[..i + 1], h) <==> HasHost(ms[..i], h) || h == ms[i].host
      ensures HasTagged(ms[..i + 1], h) <==> HasTagged(ms[..i], h) || (h == ms[i].host && ms[i].resolveTags)
    {
      assert ms[i] in ms[..i + 1];
      assert forall m :: m in ms[..i + 1] <==> m in ms[..i] || m == ms[i];
    }
  }

  lemma TaggedHasHost(a: seq<Mirror>, b: seq<Mirror>, h: string)
    ensures HasTagged(a, h) ==> HasHost(a, h)
    ensures HasTagged(b, h) ==> HasHost(b, h)
  {
  }

  /** A map's values in the order in which it happens to be traversed. */
  method ValuesInAnyOrder(m: map<string, Mirror>) returns (r: seq<Mirror>)
    requires forall h :: h in m ==> m[h].host == h
    ensures forall x :: x in r <==> x.host in m && m[x.host] == x
    ensures UniqueHosts(r)
  {
    r := [];
    var rest := m.Keys;
    while rest != {}
      invariant rest <= m.Keys
      invariant forall x :: x in r <==> x.host in m && x.host !in rest && m[x.host] == x
      invariant UniqueHosts(r)
    {
      var h :| h in rest;
      assert m[h] !in r;
      r := r + [m[h]];
      rest := rest - {h};
    }
  }

  // Merging mirror sets by source

  lemma {:induction false} ForAppend(a: seq<MirrorSet>, b: seq<MirrorSet>, src: string)
    ensures For(a + b, src) == For(a, src) + For(b, src)
    decreases |a|
  {
    if a == [] {
      assert a + b == b;
    } else {
      ForAppend(a[1..], b, src);
      assert (a + b)[1..] == a[1..] + b && (a + b)[0] == a[0];
    }
  }

  lemma {:induction false} PolicyMore(sets: seq<MirrorSet>, s: MirrorSet)
    ensures PolicyOf(sets + [s]) == if PolicyOf(sets) == AllowContactingSource then s.policy else PolicyOf(sets)
    decreases |sets|
  {
    if sets == [] {
      assert sets + [s] == [s];
    } else {
      PolicyMore(sets[1..], s);
      assert (sets + [s])[1..] == sets[1..] + [s];
    }
  }

  lemma ContributesMore(sets: seq<MirrorSet>, s: MirrorSet, h: string)
    ensures Contributes(sets + [s], h) <==> Contributes(sets, h) || HasHost(s.mirrors, h)
    ensures ResolvesTags(sets + [s], h) <==> ResolvesTags(sets, h) || HasTagged(s.mirrors, h)
    ensures ResolvesTags(sets, h) ==> Contributes(sets, h)
  {
    assert forall x :: x in sets + [s] <==> x in sets || x == s;
    if x :| x in sets && HasTagged(x.mirrors, h) {
      TaggedHasHost(x.mirrors, [], h);
    }
    if x :| x in sets && HasHost(x.mirrors, h) {
      assert x in sets + [s];
    }
    assert s in sets + [s];
  }

  lemma SingleMerged(s: MirrorSet)
    requires Consistent(s.mirrors)
    ensures Merged([s], s)
  {
    forall h
      ensures Contributes([s], h) <==> HasHost(s.mirrors, h)
      ensures ResolvesTags([s], h) <==> HasTagged(s.mirrors, h)
    {
      ContributesMore([], s, h);
      assert [] + [s] == [s];
    }
    assert PolicyOf([s]) == s.policy;
  }

  lemma UnionTags(sets: seq<MirrorSet>, ms: seq<Mirror>, h: string)
    requires Union(sets, ms)
    ensures HasTagged(ms, h) <==> ResolvesTags(sets, h)
  {
    if ResolvesTags(sets, h) {
      ContributesMore(sets, MirrorSet("", [], Unset), h);
      assert HasHost(ms, h);
      var m :| m in ms && m.host == h;
      assert m.resolveTags;
    }
  }

  /** One more set for a source that is there already. */
  lemma MergeMore(sets: seq<MirrorSet>, existing: MirrorSet, s: MirrorSet, r: seq<Mirror>)
    requires sets != [] && Merged(sets, existing) && UniqueHosts(r)
    requires forall h :: HasHost(r, h) <==> HasHost(existing.mirrors, h) || HasHost(s.mirrors, h)
    requires forall m :: m in r ==> (m.resolveTags <==> HasTagged(existing.mirrors, m.host) || HasTagged(s.mirrors, m.host))
    ensures var policy := if existing.policy == AllowContactingSource then s.policy else existing.policy;
            Merged(sets + [s], MirrorSet(existing.source, r, policy))
  {
    hide HasHost, HasTagged, UniqueHosts;
    forall h
      ensures HasHost(r, h) <==> Contributes(sets + [s], h)
      ensures HasTagged(existing.mirrors, h) || HasTagged(s.mirrors, h) <==> ResolvesTags(sets + [s], h)
    {
      ContributesMore(sets, s, h);
      UnionTags(sets, existing.mirrors, h);
    }
    PolicyMore(sets, s);
  }

  lemma UniqueIsConsistent(ms: seq<Mirror>)
    requires UniqueHosts(ms)
    ensures Consistent(ms)
  {
  }

  type BySource = map<string, MirrorSet>

  /** The map after `done` sets: for each source so far, the merge of its sets. */
  ghost predicate Collected(done: seq<MirrorSet>, unique: BySource) {
    && (forall src :: src in unique <==> For(done, src) != [])
    && (forall src :: src in unique ==>
          unique[src].source == src && Merged(For(done, src), unique[src]) && Consistent(unique[src].mirrors))
  }

  method MergeMirrorSets(base: seq<MirrorSet>) returns (out: seq<MirrorSet>)
    requires AllConsistent(base)
    ensures Output(base, out)
  {
    hide Collected, Output, For;
    if |base| == 0 {
      EmptyOutput();
      return [];
    }
    var unique: BySource := map[];
    CollectedNone();
    for i := 0 to |base|
      invariant Collected(base[..i], unique)
    {
      unique := AddSet(base, i, unique);
    }
    assert base[..|base|] == base;
    CollectedSources(base, unique);
    out := SetsInAnyOrder(unique);
    out := SortMirrorSets(base, unique, out);
  }

  lemma EmptyOutput()
    ensures Output([], [])
  {
  }

  lemma CollectedNone()
    ensures Collected([], map[])
  {
  }

  /** One iteration of the loop. */
  method AddSet(base: seq<MirrorSet>, i: nat, unique: BySource) returns (r: BySource)
    requires i < |base| && AllConsistent(base) && Collected(base[..i], unique)
    ensures Collected(base[..i + 1], r)
  {
    hide Merged, For, Collected, HasHost, HasTagged, UniqueHosts, Consistent;
    var ms := base[i];
    var v: MirrorSet := ms;
    ghost var done := base[..i];
    CollectedAt(done, unique, ms.source);
    assert base[..i + 1] == done + [ms];
    if ms.source in unique {
      var existing := unique[ms.source];
      var mirrors := MergeMirrors(existing.mirrors, ms.mirrors);
      UniqueIsConsistent(mirrors);
      MergeMoreOf(done, existing, ms, mirrors);
      v := MirrorSet(existing.source, mirrors,
                     if existing.policy == AllowContactingSource then ms.policy else existing.policy);
    } else {
      SingleMerged(ms);
      assert For(done, ms.source) + [ms] == [ms];
    }
    r := unique[ms.source := v];
    CollectedAdd(done, unique, ms, v);
  }

  lemma CollectedAt(done: seq<MirrorSet>, unique: BySource, src: string)
    requires Collected(done, unique)
    ensures src in unique <==> For(done, src) != []
    ensures src in unique ==>
              unique[src].source == src && Merged(For(done, src), unique[src]) && Consistent(unique[src].mirrors)
  {
  }

  lemma CollectedAdd(done: seq<MirrorSet>, unique: BySource, s: MirrorSet, v: MirrorSet)
    requires Collected(done, unique)
    requires v.source == s.source && Merged(For(done, s.source) + [s], v) && Consistent(v.mirrors)
    ensures Collected(done + [s], unique[s.source := v])
  {
    hide Merged, For, Consistent;
    var r := unique[s.source := v];
    forall src
      ensures src in r <==> For(done + [s], src) != []
      ensures src in r ==> r[src].source == src && Merged(For(done + [s], src), r[src]) && Consistent(r[src].mirrors)
    {
      ForOneMore(done, s, src);
      CollectedAt(done, unique, src);
    }
  }

  lemma ForOneMore(done: seq<MirrorSet>, s: MirrorSet, src: string)
    ensures For(done + [s], src) == if s.source == src then For(done, src) + [s] else For(done, src)
  {
    ForAppend(done, [s], src);
  }

  lemma MergeMoreOf(done: seq<MirrorSet>, existing: MirrorSet, s: MirrorSet, r: seq<Mirror>)
    requires For(done, s.source) != [] && Merged(For(done, s.source), existing) && UniqueHosts(r)
    requires forall h :: HasHost(r, h) <==> HasHost(existing.mirrors, h) || HasHost(s.mirrors, h)
    requires forall m :: m in r ==> (m.resolveTags <==> HasTagged(existing.mirrors, m.host) || HasTagged(s.mirrors, m.host))
    ensures var policy := if existing.policy == AllowContactingSource then s.policy else existing.policy;
            Merged(For(done, s.source) + [s], MirrorSet(existing.source, r, policy))
  {
    MergeMore(For(done, s.source), existing, s, r);
  }

  /** The values of the map, in the order in which it happens to be traversed. */
  method SetsInAnyOrder(unique: BySource) returns (r: seq<MirrorSet>)
    requires forall src :: src in unique ==> unique[src].source == src
    ensures forall x :: x in r <==> x.source in unique && unique[x.source] == x
    ensures forall i, j :: 0 <= i < j < |r| ==> r[i].source != r[j].source
  {
    r := [];
    var rest := unique.Keys;
    while rest != {}
      invariant rest <= unique.Keys
      invariant forall x :: x in r <==> x.source in unique && x.source !in rest && unique[x.source] == x
      invariant forall i, j :: 0 <= i < j < |r| ==> r[i].source != r[j].source
    {
      var src :| src in rest;
      assert unique[src] !in r;
      r := r + [unique[src]];
      rest := rest - {src};
    }
  }

  lemma CollectedSources(done: seq<MirrorSet>, unique: BySource)
    requires Collected(done, unique)
    ensures forall src :: src in unique ==> unique[src].source == src
  {
  }

  /** Sorts the mirrors of each set by host and then the sets by source. */
  method SortMirrorSets(ghost base: seq<MirrorSet>, ghost unique: BySource, sets: seq<MirrorSet>)
    returns (out: seq<MirrorSet>)
    requires Collected(base, unique)
    requires forall x :: x in sets <==> x.source in unique && unique[x.source] == x
    requires forall i, j :: 0 <= i < j < |sets| ==> sets[i].source != sets[j].source
    ensures Output(base, out)
  {
    hide Collected, Merged, Output, Ascending, StrictlyAscending, For;
    var inner: seq<MirrorSet> := [];
    for i := 0 to |sets|
      invariant |inner| == i
      invariant forall k :: 0 <= k < i ==> inner[k] == sets[k].(mirrors := inner[k].mirrors)
      invariant forall k :: 0 <= k < i ==>
                              Merged(For(base, inner[k].source), inner[k]) && Ascending(HOST_OF, inner[k].mirrors)
    {
      var sorted := Sort(HOST_OF, sets[i].mirrors);
      MergedSorted(base, unique, sets[i], sorted);
      inner := inner + [sets[i].(mirrors := sorted)];
    }
    out := Sort(SOURCE_OF, inner);
    DistinctKeysStrict(SOURCE_OF, out, inner);
    SameMultiset(out, inner);
    assert forall r :: r in out ==> Merged(For(base, r.source), r) && Ascending(HOST_OF, r.mirrors);
    CollectedSources(base, unique);
    SourcesKept(base, unique, sets, inner, out);
    OutputFrom(base, out);
  }

  lemma OutputFrom(base: seq<MirrorSet>, out: seq<MirrorSet>)
    requires StrictlyAscending(SOURCE_OF, out)
    requires forall src :: (exists r :: r in out && r.source == src) <==> For(base, src) != []
    requires forall r :: r in out ==> Merged(For(base, r.source), r) && Ascending(HOST_OF, r.mirrors)
    ensures Output(base, out)
  {
  }

  lemma SourcesKept(base: seq<MirrorSet>, unique: BySource, sets: seq<MirrorSet>, inner: seq<MirrorSet>, out: seq<MirrorSet>)
    requires Collected(base, unique)
    requires forall x :: x in sets <==> x.source in unique && unique[x.source] == x
    requires |inner| == |sets| && forall k :: 0 <= k < |sets| ==> inner[k].source == sets[k].source
    requires forall r :: r in out <==> r in inner
    requires forall src :: src in unique ==> unique[src].source == src
    ensures forall src :: (exists r :: r in out && r.source == src) <==> For(base, src) != []
  {
    hide Collected, For;
    forall src
      ensures (exists r :: r in out && r.source == src) <==> For(base, src) != []
    {
      CollectedAt(base, unique, src);
      if r :| r in out && r.source == src {
        assert r in inner;
        var k :| 0 <= k < |inner| && inner[k] == r;
        assert sets[k] in sets;
      }
      if src in unique {
        assert unique[src] in sets;
        var k :| 0 <= k < |sets| && sets[k] == unique[src];
        assert inner[k] in inner;
      }
    }
  }

  /** Sorting its mirrors does not change what a merged set holds. */
  lemma MergedSorted(base: seq<MirrorSet>, unique: BySource, s: MirrorSet, sorted: seq<Mirror>)
    requires Collected(base, unique) && s.source in unique && unique[s.source] == s
    requires Ascending(HOST_OF, sorted) && multiset(sorted) == multiset(s.mirrors)
    ensures Merged(For(base, s.source), s.(mirrors := sorted))
  {
    var sets := For(base, s.source);
    SameMultiset(sorted, s.mirrors);
    assert forall h :: HasHost(sorted, h) <==> HasHost(s.mirrors, h);
    if |sets| > 1 {
      DistinctKeysStrict(HOST_OF, sorted, s.mirrors);
      StrictIsUnique(sorted);
    }
  }

  lemma StrictIsUnique(ms: seq<Mirror>)
    requires StrictlyAscending(HOST_OF, ms)
    ensures UniqueHosts(ms)
  {
    forall i, j | 0 <= i < j < |ms|
      ensures ms[i].host != ms[j].host
    {
      LessIrreflexive(ms[i].host);
      assert Less(HOST_OF(ms[i]), HOST_OF(ms[j]));
    }
  }

  // The outcome does not depend on any order

  lemma {:induction false} ForCount(sets: seq<MirrorSet>, src: string, x: MirrorSet)
    ensures multiset(For(sets, src))[x] == if x.source == src then multiset(sets)[x] else 0
    decreases |sets|
  {
    if sets != [] {
      ForCount(sets[1..], src, x);
      assert sets == [sets[0]] + sets[1..];
    }
  }

  lemma ForPermutation(a: seq<MirrorSet>, b: seq<MirrorSet>, src: string)
    requires multiset(a) == multiset(b)
    ensures multiset(For(a, src)) == multiset(For(b, src))
  {
    forall x
      ensures multiset(For(a, src))[x] == multiset(For(b, src))[x]
    {
      ForCount(a, src, x);
      ForCount(b, src, x);
    }
  }

  /** No source has both an entry without a policy and one that says Never. */
  ghost predicate Unmixed(sets: seq<MirrorSet>) {
    forall s, t :: s in sets && t in sets && s.source == t.source ==> !(s.policy == Unset && t.policy == NeverContactSource)
  }

  lemma {:induction false} PolicyIsFirst(sets: seq<MirrorSet>)
    ensures PolicyOf(sets) == AllowContactingSource ==> forall s :: s in sets ==> s.policy == AllowContactingSource
    ensures PolicyOf(sets) != AllowContactingSource ==> exists s :: s in sets && s.policy == PolicyOf(sets)
    decreases |sets|
  {
    if sets != [] {
      PolicyIsFirst(sets[1..]);
      if sets[0].policy != AllowContactingSource {
        assert sets[0] in sets;
      } else if PolicyOf(sets[1..]) != AllowContactingSource {
        var s :| s in sets[1..] && s.policy == PolicyOf(sets[1..]);
        assert s in sets;
      }
    }
  }

  /** The policy is Never exactly when some entry says so. */
  ghost predicate PrefersNever(sets: seq<MirrorSet>) {
    PolicyOf(sets) == NeverContactSource <==> exists s :: s in sets && s.policy == NeverContactSource
  }

  /** The entries of one source prefer Never in every order exactly when an unset policy and Never do not both
      occur among them. */
  lemma NeverPreferred(sets: seq<MirrorSet>)
    ensures (forall b :: multiset(b) == multiset(sets) ==> PrefersNever(b)) <==>
            forall s, t :: s in sets && t in sets ==> !(s.policy == Unset && t.policy == NeverContactSource)
  {
    if s, t :| s in sets && t in sets && s.policy == Unset && t.policy == NeverContactSource {
      var rest := Without(sets, s);
      var b := [s] + rest;
      assert multiset(b) == multiset(sets);
      SameMultiset(b, sets);
      assert !PrefersNever(b);
    } else {
      forall b | multiset(b) == multiset(sets)
        ensures PrefersNever(b)
      {
        SameMultiset(b, sets);
        PolicyIsFirst(b);
      }
    }
  }

  lemma PolicyPermutation(a: seq<MirrorSet>, b: seq<MirrorSet>)
    requires multiset(a) == multiset(b)
    requires forall s, t :: s in a && t in a ==> !(s.policy == Unset && t.policy == NeverContactSource)
    ensures PolicyOf(a) == PolicyOf(b)
  {
    SameMultiset(a, b);
    PolicyIsFirst(a);
    PolicyIsFirst(b);
  }

  lemma {:induction false} ForSources(sets: seq<MirrorSet>, src: string, s: MirrorSet)
    ensures s in For(sets, src) <==> s in sets && s.source == src
    decreases |sets|
  {
    if sets != [] {
      ForSources(sets[1..], src, s);
    }
  }

  /** Two sorted unions of the same contributions are the same list. */
  lemma UnionUnique(a: seq<MirrorSet>, b: seq<MirrorSet>, ms: seq<Mirror>, ns: seq<Mirror>)
    requires multiset(a) == multiset(b) && a != [] && AllConsistent(a)
    requires Union(a, ms) && Union(b, ns) && Ascending(HOST_OF, ms) && Ascending(HOST_OF, ns)
    ensures ms == ns
  {
    SameMultiset(a, b);
    forall h
      ensures HasHost(ms, h) <==> HasHost(ns, h)
      ensures ResolvesTags(a, h) <==> ResolvesTags(b, h)
    {
      SameContributions(a, b, h);
    }
    if |a| == 1 {
      assert a[0] in b && b[0] == a[0];
    } else {
      forall m
        ensures m in ms <==> m in ns
      {
        SameMirror(a, b, ms, ns, m);
        SameMirror(b, a, ns, ms, m);
      }
      UniqueNoDuplicates(ms);
      UniqueNoDuplicates(ns);
      SameElements(ms, ns);
      UniqueIsConsistent(ms);
    }
    ConsistentSame(a, ms);
    SortUnique(HOST_OF, ms, ns);
  }

  lemma SameContributions(a: seq<MirrorSet>, b: seq<MirrorSet>, h: string)
    requires forall s :: s in a <==> s in b
    ensures Contributes(a, h) <==> Contributes(b, h)
    ensures ResolvesTags(a, h) <==> ResolvesTags(b, h)
  {
  }

  lemma SameMirror(a: seq<MirrorSet>, b: seq<MirrorSet>, ms: seq<Mirror>, ns: seq<Mirror>, m: Mirror)
    requires Union(a, ms) && Union(b, ns)
    requires HasHost(ms, m.host) <==> HasHost(ns, m.host)
    requires ResolvesTags(a, m.host) <==> ResolvesTags(b, m.host)
    ensures m in ms ==> m in ns
  {
    if m in ms {
      assert HasHost(ms, m.host);
      var n :| n in ns && n.host == m.host;
      assert n == m;
    }
  }

  lemma UniqueNoDuplicates(ms: seq<Mirror>)
    requires UniqueHosts(ms)
    ensures NoDuplicates(ms)
  {
  }

  lemma ConsistentSame(a: seq<MirrorSet>, ms: seq<Mirror>)
    requires Union(a, ms)
    ensures forall x, y :: x in ms && y in ms && HOST_OF(x) == HOST_OF(y) ==> x == y
  {
  }

  /** For every source the two lists lead to the same policy. */
  ghost predicate SamePolicies(a: seq<MirrorSet>, b: seq<MirrorSet>) {
    forall src :: PolicyOf(For(a, src)) == PolicyOf(For(b, src))
  }

  /** The merged configuration is one and the same sequence for every order of the entries, of the map
      traversals and of the sorts, provided no source mixes a missing policy with Never. */
  lemma OutputUnique(a: seq<MirrorSet>, b: seq<MirrorSet>, out: seq<MirrorSet>, out': seq<MirrorSet>)
    requires multiset(a) == multiset(b) && AllConsistent(a) && Unmixed(a)
    requires Output(a, out) && Output(b, out')
    ensures out == out'
  {
    hide Output, For, AllConsistent, Unmixed, PolicyOf;
    forall src
      ensures PolicyOf(For(a, src)) == PolicyOf(For(b, src))
    {
      UnmixedFor(a, src);
      UnmixedPolicy(a, b, src);
    }
    OutputByPolicies(a, b, out, out');
  }

  lemma UnmixedFor(sets: seq<MirrorSet>, src: string)
    requires Unmixed(sets)
    ensures Unmixed(For(sets, src))
  {
    forall s, t | s in For(sets, src) && t in For(sets, src)
      ensures !(s.policy == Unset && t.policy == NeverContactSource)
    {
      ForSources(sets, src, s);
      ForSources(sets, src, t);
    }
  }

  lemma UnmixedPolicy(a: seq<MirrorSet>, b: seq<MirrorSet>, src: string)
    requires multiset(a) == multiset(b) && Unmixed(For(a, src))
    ensures PolicyOf(For(a, src)) == PolicyOf(For(b, src))
  {
    ForPermutation(a, b, src);
    forall s | s in For(a, src)
      ensures s.source == src
    {
      ForSources(a, src, s);
    }
    PolicyPermutation(For(a, src), For(b, src));
  }

  /** Only the policies can depend on the order of the entries. */
  lemma OutputByPolicies(a: seq<MirrorSet>, b: seq<MirrorSet>, out: seq<MirrorSet>, out': seq<MirrorSet>)
    requires multiset(a) == multiset(b) && AllConsistent(a) && SamePolicies(a, b)
    requires Output(a, out) && Output(b, out')
    ensures out == out'
  {
    hide For, Merged, Ascending, StrictlyAscending, AllConsistent, SamePolicies;
    forall r
      ensures r in out <==> r in out'
    {
      if r in out {
        EntryUnique(a, b, out, out', r);
      }
      if r in out' {
        EntryBack(a, b, out, out', r);
      }
    }
    StrictSets(out);
    StrictSets(out');
    SameElements(out, out');
    SortUnique(SOURCE_OF, out, out');
  }

  lemma StrictSets(out: seq<MirrorSet>)
    requires StrictlyAscending(SOURCE_OF, out)
    ensures NoDuplicates(out) && Ascending(SOURCE_OF, out)
    ensures forall x, y :: x in out && y in out && SOURCE_OF(x) == SOURCE_OF(y) ==> x == y
  {
    forall i, j | 0 <= i < j < |out|
      ensures out[i].source != out[j].source && !Less(SOURCE_OF(out[j]), SOURCE_OF(out[i]))
    {
      LessIrreflexive(out[i].source);
      assert Less(SOURCE_OF(out[i]), SOURCE_OF(out[j]));
      if Less(SOURCE_OF(out[j]), SOURCE_OF(out[i])) {
        LessTransitive(out[i].source, out[j].source, out[i].source);
      }
    }
  }

  lemma EntryUnique(a: seq<MirrorSet>, b: seq<MirrorSet>, out: seq<MirrorSet>, out': seq<MirrorSet>, r: MirrorSet)
    requires multiset(a) == multiset(b) && AllConsistent(a) && SamePolicies(a, b)
    requires Output(a, out) && Output(b, out') && r in out
    ensures r in out'
  {
    var src := r.source;
    var fa, fb := For(a, src), For(b, src);
    ForPermutation(a, b, src);
    assert fa != [];
    SameMultiset(fa, fb);
    var q :| q in out' && q.source == src;
    forall s | s in fa
      ensures s in a && s.source == src
    {
      ForSources(a, src, s);
    }
    UnionUnique(fa, fb, r.mirrors, q.mirrors);
    assert q == r;
  }

  lemma EntryBack(a: seq<MirrorSet>, b: seq<MirrorSet>, out: seq<MirrorSet>, out': seq<MirrorSet>, r: MirrorSet)
    requires multiset(a) == multiset(b) && AllConsistent(a) && SamePolicies(a, b)
    requires Output(a, out) && Output(b, out') && r in out'
    ensures r in out
  {
    SameMultiset(a, b);
    EntryUnique(b, a, out', out, r);
  }

  /** A source that mixes them comes out differently depending on which entry is met first. */
  lemma MixedDepends(rest: seq<MirrorSet>, u: MirrorSet, n: MirrorSet, out: seq<MirrorSet>, out': seq<MirrorSet>)
    requires u.source == n.source && u.policy == Unset && n.policy == NeverContactSource
    requires Output([u, n] + rest, out) && Output([n, u] + rest, out')
    ensures multiset([u, n] + rest) == multiset([n, u] + rest)
    ensures out != out'
  {
    FirstDecides(u, n, rest);
    FirstDecides(n, u, rest);
    PoliciesShow([u, n] + rest, [n, u] + rest, u.source, out, out');
  }

  /** Where the policy of a source differs, so does the merged configuration. */
  lemma PoliciesShow(a: seq<MirrorSet>, b: seq<MirrorSet>, src: string, out: seq<MirrorSet>, out': seq<MirrorSet>)
    requires For(a, src) != [] && PolicyOf(For(a, src)) != PolicyOf(For(b, src))
    requires Output(a, out) && Output(b, out')
    ensures out != out'
  {
    hide Merged, StrictlyAscending, Ascending;
    var r :| r in out && r.source == src;
    MergedPolicy(For(a, src), r);
    MergedPolicy(For(b, src), r);
    assert r in out && Merged(For(a, r.source), r);
    assert r in out' ==> Merged(For(b, r.source), r);
  }

  lemma FirstDecides(u: MirrorSet, n: MirrorSet, rest: seq<MirrorSet>)
    requires u.source == n.source && u.policy != AllowContactingSource
    ensures For([u, n] + rest, u.source) != [] && PolicyOf(For([u, n] + rest, u.source)) == u.policy
  {
    var a := [u, n] + rest;
    assert a[0] == u && For(a, u.source) == [u] + For(a[1..], u.source);
  }

  lemma MergedPolicy(sets: seq<MirrorSet>, r: MirrorSet)
    ensures Merged(sets, r) ==> r.policy == PolicyOf(sets)
  {
  }

  // From the cluster's resources

  /** One entry of an ImageDigestMirrorSet or ImageTagMirrorSet. */
  datatype Entry = Entry(source: string, mirrors: seq<string>, policy: Policy)

  /** Picks the registry host out of an image location. */
  type Hostname = string -> string

  function NewMirror(hostname: Hostname, source: string, mirror: string, resolveTags: bool): Mirror {
    Mirror(if source != mirror then MirrorURL(source, mirror) else hostname(mirror), resolveTags)
  }

  function NewMirrors(hostname: Hostname, source: string, mirrors: seq<string>, resolveTags: bool): seq<Mirror> {
    if mirrors == [] then []
    else [NewMirror(hostname, source, mirrors[0], resolveTags)] + NewMirrors(hostname, source, mirrors[1..], resolveTags)
  }

  function NewMirrorSet(hostname: Hostname, e: Entry, resolveTags: bool): MirrorSet {
    MirrorSet(hostname(e.source), NewMirrors(hostname, e.source, e.mirrors, resolveTags), e.policy)
  }

  function NewMirrorSets(hostname: Hostname, es: seq<Entry>, resolveTags: bool): seq<MirrorSet> {
    if es == [] then []
    else [NewMirrorSet(hostname, es[0], resolveTags)] + NewMirrorSets(hostname, es[1..], resolveTags)
  }

  function Flat(items: seq<seq<Entry>>): seq<Entry> {
    if items == [] then [] else items[0] + Flat(items[1..])
  }

  function AllSets(hostname: Hostname, idms: seq<seq<Entry>>, itms: seq<seq<Entry>>): seq<MirrorSet> {
    NewMirrorSets(hostname, Flat(idms), false) + NewMirrorSets(hostname, Flat(itms), true)
  }

  /** The host of the mirror at location `l`: the location without what it shares with the source at its end, or
      its registry when the two are the same. */
  ghost predicate HostFor(hostname: Hostname, source: string, l: string, h: string) {
    if l == source then h == hostname(l) else OwnPart(source, l, h)
  }

  /** An entry for the source has a mirror at the host. */
  ghost predicate Lists(hostname: Hostname, es: seq<Entry>, src: string, h: string) {
    exists e, l :: e in es && l in e.mirrors && hostname(e.source) == src && HostFor(hostname, e.source, l, h)
  }

  /** `p` is the policy of the first entry for the source that does not say Allow, or Allow when all do. */
  ghost predicate PolicyFor(hostname: Hostname, es: seq<Entry>, src: string, p: Policy) {
    if forall e :: e in es && hostname(e.source) == src ==> e.policy == AllowContactingSource then p == AllowContactingSource
    else exists i :: 0 <= i < |es| && hostname(es[i].source) == src && es[i].policy == p != AllowContactingSource &&
                     forall j :: 0 <= j < i && hostname(es[j].source) == src ==> es[j].policy == AllowContactingSource
  }

  /** The merged configuration, also in terms of the entries: its sources, and for each of them its hosts, which of
      them resolve tags, and its policy. */
  method GetMergedMirrorSets(hostname: Hostname, idms: seq<seq<Entry>>, itms: seq<seq<Entry>>)
    returns (out: seq<MirrorSet>)
    ensures Output(AllSets(hostname, idms, itms), out)
    ensures (set r | r in out :: r.source) == set e | e in Flat(idms) + Flat(itms) :: hostname(e.source)
    ensures forall r, h :: r in out ==>
                             (HasHost(r.mirrors, h) <==>
                              Lists(hostname, Flat(idms), r.source, h) || Lists(hostname, Flat(itms), r.source, h))
    ensures forall r, m :: r in out && m in r.mirrors ==> (m.resolveTags <==> Lists(hostname, Flat(itms), r.source, m.host))
    ensures forall r :: r in out ==> PolicyFor(hostname, Flat(idms) + Flat(itms), r.source, r.policy)
  {
    hide Output, AllConsistent;
    var digests := CollectSets(hostname, idms, false);
    var tags := CollectSets(hostname, itms, true);
    AllSetsConsistent(hostname, idms, itms);
    out := MergeMirrorSets(digests + tags);
    SourcesOf(hostname, idms, itms, out);
    hide AllSets, Flat, Lists, PolicyFor, HasHost;
    forall r | r in out
      ensures forall h :: HasHost(r.mirrors, h) <==>
                          Lists(hostname, Flat(idms), r.source, h) || Lists(hostname, Flat(itms), r.source, h)
      ensures forall m :: m in r.mirrors ==> (m.resolveTags <==> Lists(hostname, Flat(itms), r.source, m.host))
      ensures PolicyFor(hostname, Flat(idms) + Flat(itms), r.source, r.policy)
    {
      SaysWhatEntriesSay(hostname, idms, itms, out, r);
    }
  }

  /** The loop over the resources of one kind. */
  method CollectSets(hostname: Hostname, items: seq<seq<Entry>>, resolveTags: bool) returns (sets: seq<MirrorSet>)
    ensures sets == NewMirrorSets(hostname, Flat(items), resolveTags)
  {
    hide NewMirrorSets, NewMirrorSet;
    sets := [];
    NewSetsNone(hostname, resolveTags);
    for i := 0 to |items|
      invariant sets == NewMirrorSets(hostname, Flat(items[..i]), resolveTags)
    {
      var more := CollectEntries(hostname, items[i], resolveTags);
      FlatSnoc(items, i);
      NewSetsAppend(hostname, Flat(items[..i]), items[i], resolveTags);
      sets := sets + more;
    }
    assert items[..|items|] == items;
  }

  /** The loop over the entries of one resource. */
  method CollectEntries(hostname: Hostname, es: seq<Entry>, resolveTags: bool) returns (sets: seq<MirrorSet>)
    ensures sets == NewMirrorSets(hostname, es, resolveTags)
  {
    sets := [];
    for j := 0 to |es|
      invariant sets == NewMirrorSets(hostname, es[..j], resolveTags)
    {
      NewSetsAppend(hostname, es[..j], [es[j]], resolveTags);
      assert es[..j + 1] == es[..j] + [es[j]];
      sets := sets + [NewMirrorSet(hostname, es[j], resolveTags)];
    }
    assert es[..|es|] == es;
  }

  lemma NewSetsNone(hostname: Hostname, tags: bool)
    ensures NewMirrorSets(hostname, [], tags) == []
  {
  }

  lemma {:induction false} NewSetsAppend(hostname: Hostname, a: seq<Entry>, b: seq<Entry>, tags: bool)
    ensures NewMirrorSets(hostname, a + b, tags) == NewMirrorSets(hostname, a, tags) + NewMirrorSets(hostname, b, tags)
    decreases |a|
  {
    hide NewMirrorSet;
    if a == [] {
      assert a + b == b;
    } else {
      var c := a + b;
      assert c[1..] == a[1..] + b && c[0] == a[0];
      NewSetsAppend(hostname, a[1..], b, tags);
    }
  }

  lemma {:induction false} FlatSnoc(items: seq<seq<Entry>>, i: nat)
    requires i < |items|
    ensures Flat(items[..i + 1]) == Flat(items[..i]) + items[i]
  {
    if i == 0 {
      assert items[..1] == [items[0]] && items[..0] == [];
      assert Flat([items[0]]) == items[0] + Flat([]);
    } else {
      FlatSnoc(items[1..], i - 1);
      assert items[..i + 1][1..] == items[1..][..i] && items[..i][1..] == items[1..][..i - 1];
    }
  }

  lemma {:induction false} NewMirrorsMember(hostname: Hostname, source: string, mirrors: seq<string>, tags: bool, m: Mirror)
    ensures m in NewMirrors(hostname, source, mirrors, tags) <==>
            exists l :: l in mirrors && m == NewMirror(hostname, source, l, tags)
    decreases |mirrors|
  {
    if mirrors != [] {
      NewMirrorsMember(hostname, source, mirrors[1..], tags, m);
      assert forall l :: l in mirrors <==> l == mirrors[0] || l in mirrors[1..];
    }
  }

  lemma {:induction false} NewSetsMember(hostname: Hostname, es: seq<Entry>, tags: bool, s: MirrorSet)
    ensures s in NewMirrorSets(hostname, es, tags) <==> exists e :: e in es && s == NewMirrorSet(hostname, e, tags)
    decreases |es|
  {
    if es != [] {
      NewSetsMember(hostname, es[1..], tags, s);
      assert forall e :: e in es <==> e == es[0] || e in es[1..];
    }
  }

  lemma SetConsistent(hostname: Hostname, e: Entry, tags: bool)
    ensures Consistent(NewMirrorSet(hostname, e, tags).mirrors)
  {
    var ms := NewMirrors(hostname, e.source, e.mirrors, tags);
    forall m | m in ms
      ensures m.resolveTags == tags
    {
      NewMirrorsMember(hostname, e.source, e.mirrors, tags, m);
    }
  }

  lemma AllSetsConsistent(hostname: Hostname, idms: seq<seq<Entry>>, itms: seq<seq<Entry>>)
    ensures AllConsistent(AllSets(hostname, idms, itms))
  {
    hide NewMirrorSet, NewMirrorSets, Consistent, Flat;
    forall s | s in AllSets(hostname, idms, itms)
      ensures Consistent(s.mirrors)
    {
      NewSetsMember(hostname, Flat(idms), false, s);
      NewSetsMember(hostname, Flat(itms), true, s);
      if e :| e in Flat(idms) && s == NewMirrorSet(hostname, e, false) {
        SetConsistent(hostname, e, false);
      } else {
        var e :| e in Flat(itms) && s == NewMirrorSet(hostname, e, true);
        SetConsistent(hostname, e, true);
      }
    }
  }

  // What the entries say

  lemma NewMirrorHost(hostname: Hostname, source: string, l: string, tags: bool, h: string)
    ensures NewMirror(hostname, source, l, tags).host == h <==> HostFor(hostname, source, l, h)
    ensures NewMirror(hostname, source, l, tags).resolveTags == tags
  {
    hide MirrorURL, OwnPart;
    OwnPartExactly(source, l, h);
  }

  lemma SetHosts(hostname: Hostname, e: Entry, tags: bool, h: string)
    ensures HasHost(NewMirrorSet(hostname, e, tags).mirrors, h) <==> exists l :: l in e.mirrors && HostFor(hostname, e.source, l, h)
    ensures HasTagged(NewMirrorSet(hostname, e, tags).mirrors, h) <==> tags && HasHost(NewMirrorSet(hostname, e, tags).mirrors, h)
  {
    hide NewMirror, NewMirrors, HostFor;
    var ms := NewMirrors(hostname, e.source, e.mirrors, tags);
    forall m | m in ms
      ensures m.resolveTags == tags
      ensures exists l :: l in e.mirrors && HostFor(hostname, e.source, l, m.host)
    {
      NewMirrorsMember(hostname, e.source, e.mirrors, tags, m);
      var l :| l in e.mirrors && m == NewMirror(hostname, e.source, l, tags);
      NewMirrorHost(hostname, e.source, l, tags, m.host);
    }
    if l :| l in e.mirrors && HostFor(hostname, e.source, l, h) {
      NewMirrorHost(hostname, e.source, l, tags, h);
      NewMirrorsMember(hostname, e.source, e.mirrors, tags, NewMirror(hostname, e.source, l, tags));
    }
  }

  /** A host is contributed for a source exactly when an entry for the source has a mirror there. */
  lemma HostsComeFromEntries(hostname: Hostname, idms: seq<seq<Entry>>, itms: seq<seq<Entry>>, src: string, h: string)
    ensures Contributes(For(AllSets(hostname, idms, itms), src), h) <==>
            Lists(hostname, Flat(idms), src, h) || Lists(hostname, Flat(itms), src, h)
  {
    hide NewMirrorSets, NewMirrors, HasHost, Flat, HostFor;
    var base := AllSets(hostname, idms, itms);
    if s :| s in For(base, src) && HasHost(s.mirrors, h) {
      ForSources(base, src, s);
      NewSetsMember(hostname, Flat(idms), false, s);
      NewSetsMember(hostname, Flat(itms), true, s);
      if e :| e in Flat(idms) && s == NewMirrorSet(hostname, e, false) {
        SetHosts(hostname, e, false, h);
      } else {
        var e :| e in Flat(itms) && s == NewMirrorSet(hostname, e, true);
        SetHosts(hostname, e, true, h);
      }
    }
    if e, l :| e in Flat(idms) && l in e.mirrors && hostname(e.source) == src && HostFor(hostname, e.source, l, h) {
      SetHosts(hostname, e, false, h);
      NewSetsMember(hostname, Flat(idms), false, NewMirrorSet(hostname, e, false));
      ForSources(base, src, NewMirrorSet(hostname, e, false));
    }
    if e, l :| e in Flat(itms) && l in e.mirrors && hostname(e.source) == src && HostFor(hostname, e.source, l, h) {
      SetHosts(hostname, e, true, h);
      NewSetsMember(hostname, Flat(itms), true, NewMirrorSet(hostname, e, true));
      ForSources(base, src, NewMirrorSet(hostname, e, true));
    }
  }

  /** A mirror resolves tags exactly when an ImageTagMirrorSet lists it for the source. */
  lemma TagsComeFromTagSets(hostname: Hostname, idms: seq<seq<Entry>>, itms: seq<seq<Entry>>, src: string, h: string)
    ensures ResolvesTags(For(AllSets(hostname, idms, itms), src), h) <==> Lists(hostname, Flat(itms), src, h)
  {
    hide NewMirrorSets, NewMirrors, HasHost, HasTagged, Flat, HostFor;
    var base := AllSets(hostname, idms, itms);
    if s :| s in For(base, src) && HasTagged(s.mirrors, h) {
      ForSources(base, src, s);
      NewSetsMember(hostname, Flat(idms), false, s);
      NewSetsMember(hostname, Flat(itms), true, s);
      if e :| e in Flat(idms) && s == NewMirrorSet(hostname, e, false) {
        SetHosts(hostname, e, false, h);
      }
      var e :| e in Flat(itms) && s == NewMirrorSet(hostname, e, true);
      SetHosts(hostname, e, true, h);
    }
    if e, l :| e in Flat(itms) && l in e.mirrors && hostname(e.source) == src && HostFor(hostname, e.source, l, h) {
      SetHosts(hostname, e, true, h);
      NewSetsMember(hostname, Flat(itms), true, NewMirrorSet(hostname, e, true));
      ForSources(base, src, NewMirrorSet(hostname, e, true));
    }
  }

  lemma {:induction false} SetAt(hostname: Hostname, es: seq<Entry>, tags: bool, i: nat)
    requires i < |es|
    ensures |NewMirrorSets(hostname, es, tags)| == |es|
    ensures NewMirrorSets(hostname, es, tags)[i] == NewMirrorSet(hostname, es[i], tags)
  {
    hide NewMirrorSet;
    if |es| > 1 {
      SetAt(hostname, es[1..], tags, if i > 0 then i - 1 else 0);
    }
  }

  lemma AllSetAt(hostname: Hostname, idms: seq<seq<Entry>>, itms: seq<seq<Entry>>, i: nat)
    requires i < |Flat(idms) + Flat(itms)|
    ensures var e, sets := (Flat(idms) + Flat(itms))[i], AllSets(hostname, idms, itms);
            |sets| == |Flat(idms) + Flat(itms)| && sets[i].source == hostname(e.source) && sets[i].policy == e.policy
  {
    var d, t := Flat(idms), Flat(itms);
    assert d != [] ==> |NewMirrorSets(hostname, d, false)| == |d| by {
      if d != [] {
        SetAt(hostname, d, false, 0);
      }
    }
    assert t != [] ==> |NewMirrorSets(hostname, t, true)| == |t| by {
      if t != [] {
        SetAt(hostname, t, true, 0);
      }
    }
    if i < |d| {
      SetAt(hostname, d, false, i);
    } else {
      SetAt(hostname, t, true, i - |d|);
    }
  }

  lemma SetsCount(hostname: Hostname, idms: seq<seq<Entry>>, itms: seq<seq<Entry>>)
    ensures |AllSets(hostname, idms, itms)| == |Flat(idms) + Flat(itms)|
  {
    if Flat(idms) + Flat(itms) != [] {
      AllSetAt(hostname, idms, itms, 0);
    }
  }

  /** The first set of the source that does not say Allow decides. */
  lemma {:induction false} FirstPolicy(sets: seq<MirrorSet>, src: string)
    ensures (forall s :: s in sets && s.source == src ==> s.policy == AllowContactingSource) ==>
              PolicyOf(For(sets, src)) == AllowContactingSource
    ensures !(forall s :: s in sets && s.source == src ==> s.policy == AllowContactingSource) ==>
              exists i :: 0 <= i < |sets| && DecidesAt(sets, src, i) && sets[i].policy == PolicyOf(For(sets, src))
  {
    if sets != [] {
      var rest := sets[1..];
      FirstPolicy(rest, src);
      if sets[0].source == src && sets[0].policy != AllowContactingSource {
        assert DecidesAt(sets, src, 0);
      } else if !(forall s :: s in rest && s.source == src ==> s.policy == AllowContactingSource) {
        var i :| 0 <= i < |rest| && DecidesAt(rest, src, i) && rest[i].policy == PolicyOf(For(rest, src));
        assert DecidesAt(sets, src, i + 1) by {
          assert forall j :: 0 < j < i + 1 ==> sets[j] == rest[j - 1];
        }
      } else {
        assert forall s :: s in sets <==> s == sets[0] || s in rest;
      }
    }
  }

  ghost predicate DecidesAt(sets: seq<MirrorSet>, src: string, i: nat)
    requires i < |sets|
  {
    && sets[i].source == src && sets[i].policy != AllowContactingSource
    && (forall j :: 0 <= j < i && sets[j].source == src ==> sets[j].policy == AllowContactingSource)
  }

  /** The policy of a source is that of its first entry that does not say Allow. */
  lemma PolicyComesFromEntries(hostname: Hostname, idms: seq<seq<Entry>>, itms: seq<seq<Entry>>, src: string)
    ensures PolicyFor(hostname, Flat(idms) + Flat(itms), src, PolicyOf(For(AllSets(hostname, idms, itms), src)))
  {
    var es, sets := Flat(idms) + Flat(itms), AllSets(hostname, idms, itms);
    hide AllSets, Flat;
    SetsCount(hostname, idms, itms);
    forall i | 0 <= i < |es|
      ensures sets[i].source == hostname(es[i].source) && sets[i].policy == es[i].policy
    {
      AllSetAt(hostname, idms, itms, i);
    }
    FirstPolicy(sets, src);
    if forall s :: s in sets && s.source == src ==> s.policy == AllowContactingSource {
      forall e | e in es && hostname(e.source) == src
        ensures e.policy == AllowContactingSource
      {
        var i :| 0 <= i < |es| && es[i] == e;
        assert sets[i] in sets;
      }
    } else {
      var i :| 0 <= i < |sets| && DecidesAt(sets, src, i) && sets[i].policy == PolicyOf(For(sets, src));
      assert es[i] in es && hostname(es[i].source) == src;
    }
  }

  /** A source is configured exactly when some entry has it. */
  lemma SourcesComeFromEntries(hostname: Hostname, idms: seq<seq<Entry>>, itms: seq<seq<Entry>>, src: string)
    ensures For(AllSets(hostname, idms, itms), src) != [] <==>
            exists e :: (e in Flat(idms) || e in Flat(itms)) && hostname(e.source) == src
  {
    hide NewMirrorSets, NewMirrors, Flat, For;
    var sets := AllSets(hostname, idms, itms);
    if For(sets, src) != [] {
      var s := For(sets, src)[0];
      ForSources(sets, src, s);
      NewSetsMember(hostname, Flat(idms), false, s);
      NewSetsMember(hostname, Flat(itms), true, s);
    }
    if e :| e in Flat(idms) && hostname(e.source) == src {
      NewSetsMember(hostname, Flat(idms), false, NewMirrorSet(hostname, e, false));
      ForSources(sets, src, NewMirrorSet(hostname, e, false));
    }
    if e :| e in Flat(itms) && hostname(e.source) == src {
      NewSetsMember(hostname, Flat(itms), true, NewMirrorSet(hostname, e, true));
      ForSources(sets, src, NewMirrorSet(hostname, e, true));
    }
  }

  lemma {:induction false} FlatMember(items: seq<seq<Entry>>, e: Entry)
    ensures e in Flat(items) <==> exists i :: 0 <= i < |items| && e in items[i]
  {
    if items != [] {
      FlatMember(items[1..], e);
      if i :| 0 <= i < |items| && e in items[i] && i > 0 {
        assert items[1..][i - 1] == items[i];
      }
    }
  }

  /** One merged set, in terms of the entries. */
  lemma SaysWhatEntriesSay(hostname: Hostname, idms: seq<seq<Entry>>, itms: seq<seq<Entry>>, out: seq<MirrorSet>, r: MirrorSet)
    requires Output(AllSets(hostname, idms, itms), out) && r in out
    ensures forall h :: HasHost(r.mirrors, h) <==>
                        Lists(hostname, Flat(idms), r.source, h) || Lists(hostname, Flat(itms), r.source, h)
    ensures forall m :: m in r.mirrors ==> (m.resolveTags <==> Lists(hostname, Flat(itms), r.source, m.host))
    ensures PolicyFor(hostname, Flat(idms) + Flat(itms), r.source, r.policy)
  {
    var sets := AllSets(hostname, idms, itms);
    assert Merged(For(sets, r.source), r);
    hide Output, AllSets, Flat, Lists, For, PolicyOf, PolicyFor, Contributes, ResolvesTags, HasHost;
    PolicyComesFromEntries(hostname, idms, itms, r.source);
    forall h
      ensures HasHost(r.mirrors, h) <==> Lists(hostname, Flat(idms), r.source, h) || Lists(hostname, Flat(itms), r.source, h)
      ensures ResolvesTags(For(sets, r.source), h) <==> Lists(hostname, Flat(itms), r.source, h)
    {
      HostsComeFromEntries(hostname, idms, itms, r.source, h);
      TagsComeFromTagSets(hostname, idms, itms, r.source, h);
    }
  }

  lemma SourcesOf(hostname: Hostname, idms: seq<seq<Entry>>, itms: seq<seq<Entry>>, out: seq<MirrorSet>)
    requires Output(AllSets(hostname, idms, itms), out)
    ensures (set r | r in out :: r.source) == set e | e in Flat(idms) + Flat(itms) :: hostname(e.source)
  {
    hide AllSets, Flat, For;
    var entries := set e | e in Flat(idms) + Flat(itms) :: hostname(e.source);
    forall r | r in out
      ensures r.source in entries
    {
      SourcesComeFromEntries(hostname, idms, itms, r.source);
    }
    forall src | src in entries
      ensures exists r :: r in out && r.source == src
    {
      SourcesComeFromEntries(hostname, idms, itms, src);
    }
  }
}
