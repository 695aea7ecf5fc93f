/** Validating, ordering and exchanging the contents of the services ConfigMap. */
module ServicesCM {
  import opened Graph
  import opened ServiceSpec
  import opened CycleCheck
  import opened CycleVerdict

  // Cycles

  function TopoOf(byName: map<string, Service>): Topology {
    map n | n in byName :: byName[n].dependencies
  }

  lemma TopoOfKeys(byName: map<string, Service>)
    ensures TopoOf(byName).Keys == byName.Keys
  {
  }

  lemma TopoOfUpdate(byName: map<string, Service>, n: string, s: Service)
    ensures TopoOf(byName[n := s]) == TopoOf(byName)[n := s.dependencies]
    ensures TopoOf(map[]) == map[]
  {
  }

  /** The recursive check with its shared marks. */
  class CycleChecker {
    const servicesMap: map<string, Service>
    var state: Marks

    constructor (services: seq<Service>)
      ensures Keyed() && Graph() == Dependencies(services) && state == map[]
    {
      hide TopoOf;
      var byName: map<string, Service> := map[];
      TopoOfUpdate(byName, "", Service("", "", [], [], [], false, 0));
      for i := 0 to |services|
        invariant forall n :: n in byName ==> byName[n].name == n
        invariant TopoOf(byName) == Dependencies(services[..i])
      {
        assert services[..i + 1][..i] == services[..i];
        TopoOfUpdate(byName, services[i].name, services[i]);
        byName := byName[services[i].name := services[i]];
      }
      assert services[..|services|] == services;
      servicesMap, state := byName, map[];
    }

    ghost predicate Keyed() {
      forall n :: n in servicesMap ==> servicesMap[n].name == n
    }

    function Graph(): Topology {
      TopoOf(servicesMap)
    }

    /** Terminates because every call marks one more managed service. */
    method HasCycle(s: Service) returns (cycle: bool)
      requires Keyed() && s.name in servicesMap && s.name !in state
      modifies this
      ensures Outcome(cycle, state) == Scan(Graph(), old(state)[s.name := true], s.name, s.dependencies)
      decreases Unseen(Graph(), state)
    {
      MarkingLowers(Graph(), state, s.name);
      state := state[s.name := true];
      ghost var marked := state;
      for i := 0 to |s.dependencies|
        invariant state == marked
        invariant Scan(Graph(), marked, s.name, s.dependencies) == Scan(Graph(), marked, s.name, s.dependencies[i..])
      {
        var d := s.dependencies[i];
        if d in state && state[d] {
          return true;
        }
        if d !in state {
          if d in servicesMap {
            cycle := HasCycle(servicesMap[d]);
            return;
          }
        }
      }
      state := state[s.name := false];
      return false;
    }
  }

  /** The verdict on a list of services that may name a service twice. */
  function AcceptsServices(t: Topology, m: Marks, services: seq<Service>): bool
    decreases |services|
  {
    if services == [] then true
    else if services[0].name in m then AcceptsServices(t, m, services[1..])
    else
      var s := services[0];
      var o := Scan(t, m[s.name := true], s.name, s.dependencies);
      !o.cycle && AcceptsServices(t, o.marks, services[1..])
  }

  method ValidateCycles(services: seq<Service>) returns (ok: bool)
    ensures ok == AcceptsServices(Dependencies(services), map[], services)
  {
    hide Scan, Dependencies, TopoOf;
    var checker := new CycleChecker(services);
    assert services[0..] == services;
    for i := 0 to |services|
      invariant checker.Keyed() && checker.Graph() == Dependencies(services) && fresh(checker)
      invariant AcceptsServices(Dependencies(services), map[], services) ==
                AcceptsServices(Dependencies(services), checker.state, services[i..])
    {
      var s := services[i];
      assert s in services && s.name in checker.Graph().Keys;
      assert s.name in checker.servicesMap by { TopoOfKeys(checker.servicesMap); }
      assert services[i..][0] == s && services[i..][1..] == services[i + 1..];
      if s.name !in checker.state {
        var cycle := checker.HasCycle(s);
        if cycle {
          return false;
        }
      }
    }
    return true;
  }

  function NameSeq(services: seq<Service>): (names: seq<string>)
    ensures |names| == |services| && forall i :: 0 <= i < |names| ==> names[i] == services[i].name
    ensures forall n :: n in names <==> n in Names(services)
  {
    var names := seq(|services|, i requires 0 <= i < |services| => services[i].name);
    assert forall i :: 0 <= i < |services| ==> names[i] == services[i].name;
    names
  }

  /** The entry that counts for a name is the last one. */
  lemma {:induction false} DependenciesLast(services: seq<Service>, i: nat)
    requires i < |services| && forall j :: i < j < |services| ==> services[j].name != services[i].name
    ensures services[i].name in Dependencies(services)
    ensures Dependencies(services)[services[i].name] == services[i].dependencies
    decreases |services|
  {
    var k := |services| - 1;
    if i < k {
      DependenciesLast(services[..k], i);
    }
  }

  lemma DependenciesAt(services: seq<Service>, i: nat)
    requires DistinctNames(services) && i < |services|
    ensures services[i].name in Dependencies(services)
    ensures Dependencies(services)[services[i].name] == services[i].dependencies
  {
    DependenciesLast(services, i);
  }

  lemma {:induction false} AcceptsNames(t: Topology, m: Marks, services: seq<Service>)
    requires forall s :: s in services ==> s.name in t && t[s.name] == s.dependencies
    ensures AcceptsServices(t, m, services) == Accepts(t, m, NameSeq(services))
    decreases |services|
  {
    if services != [] {
      var names := NameSeq(services);
      assert names[1..] == NameSeq(services[1..]);
      var s := services[0];
      if s.name in m {
        AcceptsNames(t, m, services[1..]);
      } else {
        AcceptsNames(t, Visit(t, m, s.name).marks, services[1..]);
      }
    }
  }

  /** For distinct names, the method computes the verdict whose meaning `CycleVerdict` states. */
  lemma DistinctVerdict(services: seq<Service>)
    requires DistinctNames(services)
    ensures AcceptsServices(Dependencies(services), map[], services) ==
            Accepts(Dependencies(services), map[], NameSeq(services))
    ensures Orders(Dependencies(services), NameSeq(services))
  {
    forall s | s in services
      ensures s.name in Dependencies(services) && Dependencies(services)[s.name] == s.dependencies
    {
      var i :| 0 <= i < |services| && services[i] == s;
      DependenciesAt(services, i);
    }
    AcceptsNames(Dependencies(services), map[], services);
  }

  // Bootstrap services depend on bootstrap services

  predicate HasDependency(s: Service, possible: seq<Service>) {
    exists d, p :: d in s.dependencies && p in possible && d == p.name
  }

  ghost predicate BootstrapIndependent(services: seq<Service>) {
    forall b :: b in services && b.bootstrap ==>
                  |b.nodeVariablesInCommand| == 0 &&
                  forall c :: c in services && !c.bootstrap ==> c.name !in b.dependencies
  }

  ghost predicate DependenciesValid(services: seq<Service>) {
    BootstrapIndependent(services) && AcceptsServices(Dependencies(services), map[], services)
  }

  method ValidateDependencies(services: seq<Service>) returns (ok: bool)
    ensures ok <==> DependenciesValid(services)
    ensures ok ==> forall b :: b in services && b.bootstrap ==> b.nodeVariablesInCommand == []
    ensures ok ==> forall b, c :: b in services && c in services && b.bootstrap && !c.bootstrap ==> c.name !in b.dependencies
  {
    var bootstrap, nonBootstrap: seq<Service> := [], [];
    for i := 0 to |services|
      invariant forall s :: s in bootstrap <==> s in services[..i] && s.bootstrap
      invariant forall s :: s in nonBootstrap <==> s in services[..i] && !s.bootstrap
    {
      if services[i].bootstrap {
        bootstrap := bootstrap + [services[i]];
      } else {
        nonBootstrap := nonBootstrap + [services[i]];
      }
    }
    assert services[..|services|] == services;
    for i := 0 to |bootstrap|
      invariant forall k :: 0 <= k < i ==> |bootstrap[k].nodeVariablesInCommand| == 0 &&
                                           !HasDependency(bootstrap[k], nonBootstrap)
    {
      if |bootstrap[i].nodeVariablesInCommand| > 0 || HasDependency(bootstrap[i], nonBootstrap) {
        return false;
      }
    }
    ok := ValidateCycles(services);
  }

  // Priorities

  ghost predicate Sorted(services: seq<Service>) {
    forall i, j :: 0 <= i < j < |services| ==> services[i].priority <= services[j].priority
  }

  /** A possible outcome of sorting by priority: ties come out in any order. */
  ghost predicate SortOf(services: seq<Service>, sorted: seq<Service>) {
    Sorted(sorted) && multiset(sorted) == multiset(services)
  }

  /** Conversion to a signed 64-bit integer. */
  function ToInt(p: uint64): int {
    if p < 0x8000_0000_0000_0000 then p else p - 0x1_0000_0000_0000_0000
  }

  /** Every bootstrap service has a strictly lower number than every controller service. */
  ghost predicate Separated(services: seq<Service>) {
    forall b, c :: b in services && c in services && b.bootstrap && !c.bootstrap ==> b.priority < c.priority
  }

  /** A controller service whose priority the conversion turns into -1, the start value of the loop. */
  ghost predicate WrapsToStart(services: seq<Service>) {
    && (forall s :: s in services ==> !s.bootstrap)
    && (exists s :: s in services && s.priority == 0xFFFF_FFFF_FFFF_FFFF)
  }

  ghost predicate PrioritiesValid(services: seq<Service>) {
    Separated(services) && !WrapsToStart(services)
  }

  /** Accepts exactly the separated lists, however the sort breaks ties, with one exception: without any
      bootstrap service, a controller service at the largest 64-bit priority is refused. */
  method ValidatePriorities(services: seq<Service>, sorted: seq<Service>) returns (ok: bool)
    requires SortOf(services, sorted)
    ensures ok <==> PrioritiesValid(services)
    ensures ok <==>
            && (forall b, c :: b in services && c in services && b.bootstrap && !c.bootstrap ==> b.priority < c.priority)
            && ((exists s :: s in services && s.bootstrap) || forall s :: s in services ==> s.priority < 0xFFFF_FFFF_FFFF_FFFF)
  {
    SameMembers(services, sorted);
    var nonBootstrapSeen := false;
    var lastBootstrapPriority := -1;
    ghost var last := -1;
    for i := 0 to |sorted|
      invariant -1 <= last < i
      invariant forall k :: 0 <= k < i ==> (sorted[k].bootstrap <==> k <= last)
      invariant nonBootstrapSeen <==> last < i - 1
      invariant lastBootstrapPriority == if last < 0 then -1 else ToInt(sorted[last].priority)
      invariant forall k :: 0 <= last < k < i ==> sorted[last].priority < sorted[k].priority
      invariant last < 0 ==> forall k :: 0 <= k < i ==> sorted[k].priority != 0xFFFF_FFFF_FFFF_FFFF
    {
      var s := sorted[i];
      if s.bootstrap {
        if nonBootstrapSeen {
          assert !sorted[i - 1].bootstrap && sorted[i - 1] in services && s in services;
          return false;
        }
        lastBootstrapPriority := ToInt(s.priority);
        last := i;
      } else {
        if ToInt(s.priority) == lastBootstrapPriority {
          Overlap(services, sorted, i, last);
          return false;
        }
        nonBootstrapSeen := true;
      }
    }
    assert PrioritiesValid(services) by {
      forall b, c | b in services && c in services && b.bootstrap && !c.bootstrap
        ensures b.priority < c.priority
      {
        var k :| 0 <= k < |sorted| && sorted[k] == b;
        var l :| 0 <= l < |sorted| && sorted[l] == c;
        assert k <= last < l;
      }
      if last >= 0 {
        assert sorted[last] in services;
      }
    }
    return true;
  }

  lemma SameMembers(services: seq<Service>, sorted: seq<Service>)
    requires multiset(sorted) == multiset(services)
    ensures |sorted| == |services|
    ensures forall s :: s in services <==> s in sorted
    ensures Names(services) == Names(sorted)
  {
    assert forall s :: s in services <==> s in multiset(services);
    assert forall s :: s in sorted <==> s in multiset(sorted);
    assert |multiset(services)| == |services| && |multiset(sorted)| == |sorted|;
  }

  lemma Overlap(services: seq<Service>, sorted: seq<Service>, i: nat, last: int)
    requires SortOf(services, sorted) && i < |sorted| && -1 <= last < i && !sorted[i].bootstrap
    requires forall k :: 0 <= k < i ==> (sorted[k].bootstrap <==> k <= last)
    requires ToInt(sorted[i].priority) == if last < 0 then -1 else ToInt(sorted[last].priority)
    ensures !PrioritiesValid(services)
  {
    SameMembers(services, sorted);
    var c := sorted[i];
    if last >= 0 {
      var b := sorted[last];
      assert b in services && c in services && b.bootstrap && b.priority == c.priority;
    } else {
      assert c.priority == 0xFFFF_FFFF_FFFF_FFFF;
      if b :| b in services && b.bootstrap {
        var k :| 0 <= k < |sorted| && sorted[k] == b;
        assert k > i && c.priority <= b.priority;
      }
    }
  }

  /** Every list can be sorted. */
  lemma SortExists(services: seq<Service>) returns (sorted: seq<Service>)
    ensures SortOf(services, sorted)
  {
    if services == [] {
      sorted := [];
    } else {
      var s := services[0];
      var rest := SortExists(services[1..]);
      assert services == [s] + services[1..];
      sorted := Insert(s, rest);
    }
  }

  lemma Insert(s: Service, rest: seq<Service>) returns (sorted: seq<Service>)
    requires Sorted(rest)
    ensures Sorted(sorted) && multiset(sorted) == multiset([s] + rest)
  {
    hide Sorted;
    if rest == [] || s.priority <= rest[0].priority {
      sorted := [s] + rest;
      SortedFrom(rest);
      SortedCons(s, rest);
    } else {
      var x, after := rest[0], rest[1..];
      SortedFrom(rest);
      var tail := Insert(s, after);
      sorted := [x] + tail;
      SameMembers([s] + after, tail);
      assert forall y :: y in tail ==> y == s || y in after;
      SortedCons(x, tail);
      assert rest == [x] + after;
      assert multiset(sorted) == multiset([x]) + multiset([s] + after);
    }
  }

  lemma SortedFrom(s: seq<Service>)
    requires Sorted(s)
    ensures s != [] ==> Sorted(s[1..]) && forall y :: y in s ==> s[0].priority <= y.priority
  {
  }

  lemma SortedCons(x: Service, tail: seq<Service>)
    requires Sorted(tail) && forall y :: y in tail ==> x.priority <= y.priority
    ensures Sorted([x] + tail)
  {
  }
}
