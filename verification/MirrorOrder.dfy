/** When the merged registry configuration depends on the order of the entries. */
module MirrorOrder {
  import opened Sorting
  import opened Registries

  /** Every order of the entries, and every way to merge and sort them, leads to the same configuration. */
  ghost predicate OrderIndependent(base: seq<MirrorSet>) {
    forall a, b, out, out' ::
      multiset(a) == multiset(base) && multiset(b) == multiset(base) && Output(a, out) && Output(b, out') ==> out == out'
  }

  // There is a merged configuration for every order

  /** One mirror for each of the hosts, tagged where some set asks for it. */
  lemma OnePerHost(sets: seq<MirrorSet>, hosts: set<string>) returns (ms: seq<Mirror>)
    ensures UniqueHosts(ms)
    ensures forall h :: HasHost(ms, h) <==> h in hosts
    ensures forall m :: m in ms ==> (m.resolveTags <==> ResolvesTags(sets, m.host))
  {
    if hosts == {} {
      ms := [];
    } else {
      var h :| h in hosts;
      var rest := OnePerHost(sets, hosts - {h});
      var m := Mirror(h, ResolvesTags(sets, h));
      ms := [m] + rest;
      assert forall x :: x in rest ==> HasHost(rest, x.host);
      forall g
        ensures HasHost(ms, g) <==> g == h || HasHost(rest, g)
      {
        assert m in ms && m.host == h;
        if x :| x in rest && x.host == g {
          assert x in ms;
        }
      }
    }
  }

  lemma SortedUnion(sets: seq<MirrorSet>, ms: seq<Mirror>) returns (sorted: seq<Mirror>)
    requires Union(sets, ms)
    ensures Union(sets, sorted) && Ascending(HOST_OF, sorted)
  {
    sorted := InsertionSort(HOST_OF, ms);
    InsertionSortSorts(HOST_OF, ms);
    SameMultiset(sorted, ms);
    assert forall h :: HasHost(sorted, h) <==> HasHost(ms, h);
    if |sets| > 1 {
      DistinctKeysStrict(HOST_OF, sorted, ms);
      StrictIsUnique(sorted);
    }
  }

  lemma UnionExists(sets: seq<MirrorSet>) returns (ms: seq<Mirror>)
    requires sets != [] && AllConsistent(sets)
    ensures Union(sets, ms) && Ascending(HOST_OF, ms)
  {
    hide Union;
    if |sets| == 1 {
      SingleMerged(sets[0]);
      assert sets == [sets[0]];
      ms := SortedUnion(sets, sets[0].mirrors);
    } else {
      var hosts := set s, m | s in sets && m in s.mirrors :: m.host;
      ms := OnePerHost(sets, hosts);
      ManyUnion(sets, hosts, ms);
      ms := SortedUnion(sets, ms);
    }
  }

  lemma ManyUnion(sets: seq<MirrorSet>, hosts: set<string>, ms: seq<Mirror>)
    requires |sets| > 1 && hosts == set s, m | s in sets && m in s.mirrors :: m.host
    requires UniqueHosts(ms) && (forall h :: HasHost(ms, h) <==> h in hosts)
    requires forall m :: m in ms ==> (m.resolveTags <==> ResolvesTags(sets, m.host))
    ensures Union(sets, ms)
  {
  }

  /** One merged entry for each of the sources. */
  lemma OnePerSource(base: seq<MirrorSet>, sources: set<string>) returns (out: seq<MirrorSet>)
    requires AllConsistent(base) && forall src :: src in sources ==> For(base, src) != []
    ensures forall i, j :: 0 <= i < j < |out| ==> out[i].source != out[j].source
    ensures forall src :: (exists r :: r in out && r.source == src) <==> src in sources
    ensures forall r :: r in out ==> Merged(For(base, r.source), r) && Ascending(HOST_OF, r.mirrors)
  {
    hide For, Union, Ascending;
    if sources == {} {
      out := [];
    } else {
      var src :| src in sources;
      var rest := OnePerSource(base, sources - {src});
      ForConsistent(base, src);
      var ms := UnionExists(For(base, src));
      var r := MirrorSet(src, ms, PolicyOf(For(base, src)));
      out := [r] + rest;
      forall g
        ensures (exists x :: x in out && x.source == g) <==> g in sources
      {
        assert r in out;
        if g in sources - {src} {
          var x :| x in rest && x.source == g;
          assert x in out;
        }
        if x :| x in out && x.source == g && x != r {
          assert x in rest && g in sources - {src};
        }
      }
    }
  }

  lemma ForConsistent(base: seq<MirrorSet>, src: string)
    requires AllConsistent(base)
    ensures AllConsistent(For(base, src))
  {
    forall s | s in For(base, src)
      ensures Consistent(s.mirrors)
    {
      ForSources(base, src, s);
    }
  }

  lemma OutputExists(base: seq<MirrorSet>) returns (out: seq<MirrorSet>)
    requires AllConsistent(base)
    ensures Output(base, out)
  {
    hide For, Merged, Ascending, StrictlyAscending, Output;
    var sources := set s | s in base :: s.source;
    forall src
      ensures src in sources <==> For(base, src) != []
    {
      SourceListed(base, src);
    }
    var entries := OnePerSource(base, sources);
    out := InsertionSort(SOURCE_OF, entries);
    InsertionSortSorts(SOURCE_OF, entries);
    DistinctKeysStrict(SOURCE_OF, out, entries);
    SameMultiset(out, entries);
    OutputFrom(base, out);
  }

  lemma SourceListed(base: seq<MirrorSet>, src: string)
    ensures (exists s :: s in base && s.source == src) <==> For(base, src) != []
  {
    if s :| s in base && s.source == src {
      ForSources(base, src, s);
    }
    if For(base, src) != [] {
      ForSources(base, src, For(base, src)[0]);
    }
  }

  // The exact condition

  lemma Permuted(a: seq<MirrorSet>, base: seq<MirrorSet>)
    requires multiset(a) == multiset(base)
    ensures AllConsistent(base) ==> AllConsistent(a)
    ensures Unmixed(base) ==> Unmixed(a)
  {
    SameMultiset(a, base);
  }

  /** Consistent entries are merged into the same configuration in every order exactly when no source has both
      an entry without a policy and one that says Never. */
  lemma OrderIndependentExactly(base: seq<MirrorSet>)
    requires AllConsistent(base)
    ensures OrderIndependent(base) <==> Unmixed(base)
  {
    hide AllConsistent, Output;
    if Unmixed(base) {
      forall a, b, out, out' | multiset(a) == multiset(base) && multiset(b) == multiset(base) &&
                               Output(a, out) && Output(b, out')
        ensures out == out'
      {
        Permuted(a, base);
        OutputUnique(a, b, out, out');
      }
    } else {
      var a, b, out, out' := TwoOutputs(base);
    }
  }

  lemma TwoOutputs(base: seq<MirrorSet>)
    returns (a: seq<MirrorSet>, b: seq<MirrorSet>, out: seq<MirrorSet>, out': seq<MirrorSet>)
    requires AllConsistent(base) && !Unmixed(base)
    ensures multiset(a) == multiset(base) && multiset(b) == multiset(base)
    ensures Output(a, out) && Output(b, out') && out != out'
  {
    hide AllConsistent, Output;
    var u, n :| u in base && n in base && u.source == n.source && u.policy == Unset && n.policy == NeverContactSource;
    var others := Without(base, u);
    var rest := Without(others, n);
    a, b := [u, n] + rest, [n, u] + rest;
    Permuted(a, base);
    Permuted(b, base);
    out := OutputExists(a);
    out' := OutputExists(b);
    MixedDepends(rest, u, n, out, out');
  }

  // The orders that the cluster's resources can come in: all digest sets before all tag sets

  /** Every order of the entries of either kind leads to the same configuration. */
  ghost predicate ResourceOrderIndependent(hostname: Hostname, idms: seq<seq<Entry>>, itms: seq<seq<Entry>>) {
    forall i, t, i', t', out, out' ::
      (&& multiset(Flat(i)) == multiset(Flat(idms)) && multiset(Flat(t)) == multiset(Flat(itms))
       && multiset(Flat(i')) == multiset(Flat(idms)) && multiset(Flat(t')) == multiset(Flat(itms))
       && Output(AllSets(hostname, i, t), out) && Output(AllSets(hostname, i', t'), out'))
      ==> out == out'
  }

  ghost predicate AllAllow(sets: seq<MirrorSet>) {
    forall s :: s in sets ==> s.policy == AllowContactingSource
  }

  /** No source mixes an unset policy and Never among its digest sets, nor, when all of these say Allow, among its
      tag sets. */
  ghost predicate SplitUnmixed(digests: seq<MirrorSet>, tags: seq<MirrorSet>) {
    && Unmixed(digests)
    && (forall src :: AllAllow(For(digests, src)) ==> Unmixed(For(tags, src)))
  }

  lemma {:induction false} PolicyAppend(a: seq<MirrorSet>, b: seq<MirrorSet>)
    ensures PolicyOf(a + b) == if PolicyOf(a) == AllowContactingSource then PolicyOf(b) else PolicyOf(a)
    decreases |a|
  {
    if a == [] {
      assert a + b == b;
    } else {
      assert (a + b)[1..] == a[1..] + b;
      PolicyAppend(a[1..], b);
    }
  }

  lemma PolicyOfSplit(digests: seq<MirrorSet>, tags: seq<MirrorSet>, src: string)
    ensures var p := PolicyOf(For(digests, src));
            PolicyOf(For(digests + tags, src)) == if p == AllowContactingSource then PolicyOf(For(tags, src)) else p
  {
    ForAppend(digests, tags, src);
    PolicyAppend(For(digests, src), For(tags, src));
  }

  lemma SplitPolicies(d: seq<MirrorSet>, t: seq<MirrorSet>, d': seq<MirrorSet>, t': seq<MirrorSet>, src: string)
    requires SplitUnmixed(d, t) && multiset(d') == multiset(d) && multiset(t') == multiset(t)
    ensures PolicyOf(For(d' + t', src)) == PolicyOf(For(d + t, src))
  {
    hide For, PolicyOf, Unmixed;
    PolicyOfSplit(d, t, src);
    PolicyOfSplit(d', t', src);
    UnmixedFor(d, src);
    UnmixedPolicy(d, d', src);
    if PolicyOf(For(d, src)) == AllowContactingSource {
      PolicyIsFirst(For(d, src));
      UnmixedPolicy(t, t', src);
    }
  }

  lemma Around<T>(a: seq<T>, x: T) returns (a1: seq<T>, a2: seq<T>)
    requires x in a
    ensures a == a1 + [x] + a2 && multiset(a) == multiset{x} + multiset(a1 + a2)
  {
    var k :| 0 <= k < |a| && a[k] == x;
    a1, a2 := a[..k], a[k + 1..];
    assert a == a1 + [x] + a2;
  }

  lemma Cancel<T>(x: T, a: multiset<T>, b: multiset<T>)
    requires multiset{x} + a == multiset{x} + b
    ensures a == b
  {
    assert (multiset{x} + a) - multiset{x} == a && (multiset{x} + b) - multiset{x} == b;
  }

  lemma SetsAround(hostname: Hostname, b1: seq<Entry>, x: Entry, b2: seq<Entry>, tags: bool)
    ensures multiset(NewMirrorSets(hostname, b1 + [x] + b2, tags)) ==
            multiset{NewMirrorSet(hostname, x, tags)} + multiset(NewMirrorSets(hostname, b1 + b2, tags))
  {
    assert NewMirrorSets(hostname, [x], tags) == [NewMirrorSet(hostname, x, tags)];
    hide NewMirrorSet, NewMirrorSets;
    NewSetsAppend(hostname, b1 + [x], b2, tags);
    NewSetsAppend(hostname, b1, [x], tags);
    NewSetsAppend(hostname, b1, b2, tags);
  }

  lemma {:induction false} NewSetsPermuted(hostname: Hostname, a: seq<Entry>, b: seq<Entry>, tags: bool)
    requires multiset(a) == multiset(b)
    ensures multiset(NewMirrorSets(hostname, a, tags)) == multiset(NewMirrorSets(hostname, b, tags))
    decreases |a|
  {
    hide NewMirrorSet, NewMirrorSets;
    SameMultiset(a, b);
    if a == [] {
      assert b == [];
    } else {
      var x, rest := a[0], a[1..];
      assert x in a;
      var b1, b2 := Around(b, x);
      assert a == [] + [x] + rest && [] + rest == rest;
      assert multiset(a) == multiset{x} + multiset(rest);
      Cancel(x, multiset(rest), multiset(b1 + b2));
      NewSetsPermuted(hostname, rest, b1 + b2, tags);
      SetsAround(hostname, b1, x, b2, tags);
      SetsAround(hostname, [], x, rest, tags);
    }
  }

  lemma SplitSame(hostname: Hostname, idms: seq<seq<Entry>>, itms: seq<seq<Entry>>, i: seq<seq<Entry>>,
                  t: seq<seq<Entry>>, src: string)
    requires multiset(Flat(i)) == multiset(Flat(idms)) && multiset(Flat(t)) == multiset(Flat(itms))
    requires SplitUnmixed(NewMirrorSets(hostname, Flat(idms), false), NewMirrorSets(hostname, Flat(itms), true))
    ensures multiset(AllSets(hostname, i, t)) == multiset(AllSets(hostname, idms, itms))
    ensures PolicyOf(For(AllSets(hostname, i, t), src)) == PolicyOf(For(AllSets(hostname, idms, itms), src))
  {
    hide NewMirrorSets, Flat, SplitUnmixed, PolicyOf, For;
    NewSetsPermuted(hostname, Flat(i), Flat(idms), false);
    NewSetsPermuted(hostname, Flat(t), Flat(itms), true);
    SplitPolicies(NewMirrorSets(hostname, Flat(idms), false), NewMirrorSets(hostname, Flat(itms), true),
                  NewMirrorSets(hostname, Flat(i), false), NewMirrorSets(hostname, Flat(t), true), src);
  }

  lemma SplitOutput(hostname: Hostname, idms: seq<seq<Entry>>, itms: seq<seq<Entry>>, i: seq<seq<Entry>>,
                    t: seq<seq<Entry>>, i': seq<seq<Entry>>, t': seq<seq<Entry>>, out: seq<MirrorSet>,
                    out': seq<MirrorSet>)
    requires multiset(Flat(i)) == multiset(Flat(idms)) && multiset(Flat(t)) == multiset(Flat(itms))
    requires multiset(Flat(i')) == multiset(Flat(idms)) && multiset(Flat(t')) == multiset(Flat(itms))
    requires SplitUnmixed(NewMirrorSets(hostname, Flat(idms), false), NewMirrorSets(hostname, Flat(itms), true))
    requires Output(AllSets(hostname, i, t), out) && Output(AllSets(hostname, i', t'), out')
    ensures out == out'
  {
    hide NewMirrorSets, Flat, SplitUnmixed, PolicyOf, For, AllSets, Output, AllConsistent;
    forall src
      ensures PolicyOf(For(AllSets(hostname, i, t), src)) == PolicyOf(For(AllSets(hostname, i', t'), src))
      ensures multiset(AllSets(hostname, i, t)) == multiset(AllSets(hostname, i', t'))
    {
      SplitSame(hostname, idms, itms, i, t, src);
      SplitSame(hostname, idms, itms, i', t', src);
    }
    SplitSame(hostname, idms, itms, i, t, "");
    SplitSame(hostname, idms, itms, i', t', "");
    AllSetsConsistent(hostname, i, t);
    OutputByPolicies(AllSets(hostname, i, t), AllSets(hostname, i', t'), out, out');
  }

  lemma FlatSingle(es: seq<Entry>)
    ensures Flat([es]) == es
  {
    assert [es][1..] == [] && Flat([]) == [];
  }

  /** Two entries with the given sets brought to the front, in both orders, in one resource. */
  lemma ToFront(hostname: Hostname, items: seq<seq<Entry>>, tags: bool, u: MirrorSet, n: MirrorSet)
    returns (i: seq<seq<Entry>>, i': seq<seq<Entry>>, rest: seq<MirrorSet>)
    requires u in NewMirrorSets(hostname, Flat(items), tags) && n in NewMirrorSets(hostname, Flat(items), tags) && u != n
    ensures multiset(Flat(i)) == multiset(Flat(items)) && multiset(Flat(i')) == multiset(Flat(items))
    ensures NewMirrorSets(hostname, Flat(i), tags) == [u, n] + rest
    ensures NewMirrorSets(hostname, Flat(i'), tags) == [n, u] + rest
  {
    hide NewMirrorSet, Flat;
    var all := Flat(items);
    NewSetsMember(hostname, all, tags, u);
    NewSetsMember(hostname, all, tags, n);
    var eu :| eu in all && u == NewMirrorSet(hostname, eu, tags);
    var en :| en in all && n == NewMirrorSet(hostname, en, tags);
    var others := Without(all, eu);
    var left := Without(others, en);
    i, i' := [[eu, en] + left], [[en, eu] + left];
    FlatSingle([eu, en] + left);
    FlatSingle([en, eu] + left);
    rest := NewMirrorSets(hostname, left, tags);
    TwoSets(hostname, eu, en, left, tags);
    TwoSets(hostname, en, eu, left, tags);
  }

  lemma TwoSets(hostname: Hostname, x: Entry, y: Entry, left: seq<Entry>, tags: bool)
    ensures NewMirrorSets(hostname, [x, y] + left, tags) ==
            [NewMirrorSet(hostname, x, tags), NewMirrorSet(hostname, y, tags)] + NewMirrorSets(hostname, left, tags)
  {
    hide NewMirrorSet;
    assert ([x, y] + left)[1..] == [y] + left && ([y] + left)[1..] == left;
  }

  lemma TwoResourceOutputs(hostname: Hostname, idms: seq<seq<Entry>>, itms: seq<seq<Entry>>)
    returns (i: seq<seq<Entry>>, t: seq<seq<Entry>>, i': seq<seq<Entry>>, t': seq<seq<Entry>>, out: seq<MirrorSet>,
             out': seq<MirrorSet>)
    requires !SplitUnmixed(NewMirrorSets(hostname, Flat(idms), false), NewMirrorSets(hostname, Flat(itms), true))
    ensures multiset(Flat(i)) == multiset(Flat(idms)) && multiset(Flat(t)) == multiset(Flat(itms))
    ensures multiset(Flat(i')) == multiset(Flat(idms)) && multiset(Flat(t')) == multiset(Flat(itms))
    ensures Output(AllSets(hostname, i, t), out) && Output(AllSets(hostname, i', t'), out') && out != out'
  {
    hide Flat, NewMirrorSets, Output, AllConsistent, PolicyOf, For;
    var digests, tags := NewMirrorSets(hostname, Flat(idms), false), NewMirrorSets(hostname, Flat(itms), true);
    i, t, i', t' := idms, itms, idms, itms;
    if !Unmixed(digests) {
      var u, n :| u in digests && n in digests && u.source == n.source && u.policy == Unset && n.policy == NeverContactSource;
      var rest;
      i, i', rest := ToFront(hostname, idms, false, u, n);
      out, out' := BothOutputs(hostname, i, t, i', t');
      FirstInDigests(rest, tags, u, n);
      PoliciesShow(AllSets(hostname, i, t), AllSets(hostname, i', t'), u.source, out, out');
    } else {
      var src :| AllAllow(For(digests, src)) && !Unmixed(For(tags, src));
      var u, n :| u in For(tags, src) && n in For(tags, src) && u.policy == Unset && n.policy == NeverContactSource;
      ForSources(tags, src, u);
      ForSources(tags, src, n);
      var rest;
      t, t', rest := ToFront(hostname, itms, true, u, n);
      out, out' := BothOutputs(hostname, i, t, i', t');
      FirstInTags(digests, rest, u, n);
      PoliciesShow(AllSets(hostname, i, t), AllSets(hostname, i', t'), src, out, out');
    }
  }

  lemma BothOutputs(hostname: Hostname, i: seq<seq<Entry>>, t: seq<seq<Entry>>, i': seq<seq<Entry>>, t': seq<seq<Entry>>)
    returns (out: seq<MirrorSet>, out': seq<MirrorSet>)
    ensures Output(AllSets(hostname, i, t), out) && Output(AllSets(hostname, i', t'), out')
  {
    hide AllSets, Output, AllConsistent;
    AllSetsConsistent(hostname, i, t);
    AllSetsConsistent(hostname, i', t');
    out := OutputExists(AllSets(hostname, i, t));
    out' := OutputExists(AllSets(hostname, i', t'));
  }

  lemma FirstInDigests(rest: seq<MirrorSet>, tags: seq<MirrorSet>, u: MirrorSet, n: MirrorSet)
    requires u.source == n.source && u.policy == Unset && n.policy == NeverContactSource
    ensures For(([u, n] + rest) + tags, u.source) != []
    ensures PolicyOf(For(([u, n] + rest) + tags, u.source)) == Unset
    ensures PolicyOf(For(([n, u] + rest) + tags, u.source)) == NeverContactSource
  {
    assert ([u, n] + rest) + tags == [u, n] + (rest + tags) && ([n, u] + rest) + tags == [n, u] + (rest + tags);
    FirstDecides(u, n, rest + tags);
    FirstDecides(n, u, rest + tags);
  }

  lemma FirstInTags(digests: seq<MirrorSet>, rest: seq<MirrorSet>, u: MirrorSet, n: MirrorSet)
    requires u.source == n.source && u.policy == Unset && n.policy == NeverContactSource
    requires AllAllow(For(digests, u.source))
    ensures For(digests + ([u, n] + rest), u.source) != []
    ensures PolicyOf(For(digests + ([u, n] + rest), u.source)) == Unset
    ensures PolicyOf(For(digests + ([n, u] + rest), u.source)) == NeverContactSource
  {
    hide PolicyOf;
    FirstDecides(u, n, rest);
    FirstDecides(n, u, rest);
    PolicyIsFirst(For(digests, u.source));
    ForAppend(digests, [u, n] + rest, u.source);
    PolicyOfSplit(digests, [u, n] + rest, u.source);
    PolicyOfSplit(digests, [n, u] + rest, u.source);
  }

  /** The configuration merged from the cluster's resources does not depend on the order of their entries exactly
      when no source mixes an unset policy and Never among its digest entries, nor, when all of these say Allow,
      among its tag entries. */
  lemma ResourceOrderExactly(hostname: Hostname, idms: seq<seq<Entry>>, itms: seq<seq<Entry>>)
    ensures ResourceOrderIndependent(hostname, idms, itms) <==>
            SplitUnmixed(NewMirrorSets(hostname, Flat(idms), false), NewMirrorSets(hostname, Flat(itms), true))
  {
    hide NewMirrorSets, Flat, SplitUnmixed, AllSets, Output;
    if SplitUnmixed(NewMirrorSets(hostname, Flat(idms), false), NewMirrorSets(hostname, Flat(itms), true)) {
      forall i, t, i', t', out, out' | multiset(Flat(i)) == multiset(Flat(idms)) && multiset(Flat(t)) == multiset(Flat(itms)) &&
                                       multiset(Flat(i')) == multiset(Flat(idms)) && multiset(Flat(t')) == multiset(Flat(itms)) &&
                                       Output(AllSets(hostname, i, t), out) && Output(AllSets(hostname, i', t'), out')
        ensures out == out'
      {
        SplitOutput(hostname, idms, itms, i, t, i', t', out, out');
      }
    } else {
      var i, t, i', t', out, out' := TwoResourceOutputs(hostname, idms, itms);
    }
  }
}
