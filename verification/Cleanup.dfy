/** Tearing the managed services down again. */
module Cleanup {
  import opened Basics
  import opened Graph
  import opened ServiceState
  import opened ServiceManager
  import opened ServiceSpec

  predicate Tagged(config: Config) {
    Contains(config.description, MANAGED_TAG)
  }

  function TaggedNames(st: State): set<string> {
    set n | n in st && Tagged(st[n].config)
  }

  /** `mgr` is on the way from `st`, of which the services in `gone` are removed already, and every state
      since `h` was safe if `st` was. */
  ghost predicate Removing(mgr: Manager, st: State, gone: set<string>, h: seq<State>)
    reads mgr, mgr.svcs.Values
  {
    && mgr.Valid()
    && mgr.View() == Remove(st, gone)
    && (Safe(st) ==> Safe(mgr.View()) && SafeRun(h, mgr.history))
  }

  /** Removes the listed services and, with the flag, every service whose description carries the managed
      tag. It succeeds for any list in any order, from any state whose running services form no cycle;
      the outcome does not depend on the order, and no state on the way is unsafe. */
  method RemoveServices(mgr: Manager, services: seq<Service>, removeAllTagged: bool) returns (ok: bool)
    requires mgr.Valid() && Acyclic(RunTopo(mgr.View()))
    modifies mgr, mgr.svcs.Values
    ensures mgr.Valid() && ok
    ensures mgr.View() ==
            Remove(old(mgr.View()), Names(services) + if removeAllTagged then TaggedNames(old(mgr.View())) else {})
    ensures forall n :: n in old(mgr.View()) && n !in Names(services) ==>
                          (n !in mgr.View() <==>
                           removeAllTagged && exists a, b :: old(mgr.View())[n].config.description == a + MANAGED_TAG + b)
    ensures forall n :: n in mgr.View() ==>
                          n in old(mgr.View()) && n !in Names(services) && mgr.View()[n].config == old(mgr.View())[n].config
    ensures Safe(old(mgr.View())) ==> Safe(mgr.View()) && SafeRun(old(mgr.history), mgr.history)
  {
    hide Acyclic, Halt, Remove, Safe, SafeRun, RunTopo, TaggedNames;
    ghost var st := mgr.View();
    RemoveNothing(st, "");
    SafeAtRest(st, mgr.history);
    var failures := 0;
    var i := |services|;
    assert Names(services[i..]) == {};
    while i > 0
      invariant 0 <= i <= |services| && failures == 0
      invariant mgr.svcs.Values <= old(mgr.svcs.Values)
      invariant Removing(mgr, st, Names(services[i..]), old(mgr.history))
    {
      i := i - 1;
      ghost var gone := Names(services[i + 1..]);
      var removed := RemoveOne(mgr, st, gone, services[i].name, old(mgr.history));
      if !removed {
        failures := failures + 1;
      }
      assert services[i..] == [services[i]] + services[i + 1..];
      assert Names(services[i..]) == gone + {services[i].name};
    }
    assert services[0..] == services;
    if removeAllTagged {
      var removed := RemoveTagged(mgr, st, Names(services), old(mgr.history));
      if !removed {
        failures := failures + 1;
      }
    }
    assert Names(services) + {} == Names(services);
    ok := failures == 0;
    ghost var gone := Names(services) + if removeAllTagged then TaggedNames(st) else {};
    forall n
      ensures n in mgr.View() <==> n in st && n !in gone
      ensures n in mgr.View() ==> mgr.View()[n].config == st[n].config
    {
      RemoveNames(st, gone, n);
    }
    TaggedExactly(st);
  }

  /** The second phase: every remaining service with the managed tag, in the order in which the map
      happens to be traversed. */
  method RemoveTagged(mgr: Manager, ghost st: State, ghost listed: set<string>, ghost h: seq<State>)
    returns (ok: bool)
    requires Acyclic(RunTopo(st)) && Removing(mgr, st, listed, h)
    modifies mgr, mgr.svcs.Values
    ensures ok && mgr.svcs.Values <= old(mgr.svcs.Values)
    ensures Removing(mgr, st, listed + TaggedNames(st), h)
    ensures forall n :: n in st && n !in listed ==>
                          (n !in mgr.View() <==> exists a, b :: st[n].config.description == a + MANAGED_TAG + b)
  {
    hide Acyclic, Halt, Remove, Safe, SafeRun, RunTopo, Tagged, TaggedNames;
    ok := true;
    var existing := mgr.GetServices();
    RemoveNames(st, listed, "");
    assert mgr.View().Keys == existing;
    TaggedThere(st);
    assert listed + (TaggedNames(st) - existing) == listed;
    while existing != {}
      invariant ok && mgr.svcs.Values <= old(mgr.svcs.Values)
      invariant existing <= mgr.svcs.Keys
      invariant Removing(mgr, st, listed + (TaggedNames(st) - existing), h)
      decreases existing
    {
      var name :| name in existing;
      ghost var gone := listed + (TaggedNames(st) - existing);
      assert name in mgr.View();
      RemoveNames(st, gone, name);
      TaggedStep(st, listed, existing, name);
      existing := existing - {name};
      var service := mgr.OpenService(name);
      if service.None? {
        assert false;  // a listed service can be opened
      }
      assert service.value.config == mgr.View()[name].config == st[name].config;
      if Tagged(service.value.config) {
        ok := RemoveOne(mgr, st, gone, name, h);
      }
    }
    assert listed + (TaggedNames(st) - {}) == listed + TaggedNames(st);
    RemoveNames(st, listed + TaggedNames(st), "");
    TaggedExactly(st);
  }

  /** Tagged are the services with the managed tag anywhere in their description. */
  lemma TaggedExactly(st: State)
    ensures forall n :: n in st ==> (n in TaggedNames(st) <==> exists a, b :: st[n].config.description == a + MANAGED_TAG + b)
  {
    forall n | n in st
      ensures n in TaggedNames(st) <==> exists a, b :: st[n].config.description == a + MANAGED_TAG + b
    {
      ContainsExactly(st[n].config.description, MANAGED_TAG);
    }
  }

  lemma TaggedThere(st: State)
    ensures TaggedNames(st) <= st.Keys
  {
  }

  lemma TaggedStep(st: State, listed: set<string>, existing: set<string>, name: string)
    requires name in existing && name in st
    ensures listed + (TaggedNames(st) - (existing - {name})) ==
            if Tagged(st[name].config) then listed + (TaggedNames(st) - existing) + {name}
            else listed + (TaggedNames(st) - existing)
  {
    hide Tagged;
  }

  method RemoveOne(mgr: Manager, ghost st: State, ghost gone: set<string>, name: string, ghost h: seq<State>)
    returns (ok: bool)
    requires Acyclic(RunTopo(st)) && Removing(mgr, st, gone, h)
    modifies mgr, mgr.svcs.Values
    ensures ok && mgr.svcs == old(mgr.svcs) - {name}
    ensures Removing(mgr, st, gone + {name}, h)
  {
    hide Acyclic, Halt, Remove, Safe, SafeRun, RunTopo;
    RemoveKeepsRunTopo(st, gone);
    AcyclicWithin(RunTopo(mgr.View()), RunTopo(st));
    RemoveCompose(st, gone, name);
    ghost var before := mgr.history;
    ok := mgr.DeleteService(name);
    if Safe(st) {
      SafeRunJoin(h, before, mgr.history);
    }
  }

  lemma RemoveNames(st: State, gone: set<string>, n: string)
    ensures Remove(st, gone).Keys == st.Keys - gone
    ensures n in Remove(st, gone) ==> n in st && Remove(st, gone)[n].config == st[n].config
  {
    HaltShrinks(st, gone);
  }

  // Merging the lists of two versions

  /** The last entry with the name. */
  function LastNamed(services: seq<Service>, n: string): (s: Service)
    requires n in Names(services)
    ensures s in services && s.name == n
  {
    var k := |services| - 1;
    assert services == services[..k] + [services[k]];
    if services[k].name == n then services[k] else LastNamed(services[..k], n)
  }

  /** The first entry with the name. */
  function FirstNamed(services: seq<Service>, n: string): (s: Service)
    requires n in Names(services)
    ensures s in services && s.name == n
  {
    var k := |services| - 1;
    assert services == services[..k] + [services[k]];
    if n in Names(services[..k]) then FirstNamed(services[..k], n) else services[k]
  }

  lemma NamedSnoc(services: seq<Service>, i: nat, n: string)
    requires i < |services| && n in Names(services[..i + 1])
    ensures Names(services[..i + 1]) == Names(services[..i]) + {services[i].name}
    ensures LastNamed(services[..i + 1], n) == if services[i].name == n then services[i] else LastNamed(services[..i], n)
    ensures FirstNamed(services[..i + 1], n) ==
            if n in Names(services[..i]) then FirstNamed(services[..i], n) else services[i]
  {
    assert services[..i + 1][..i] == services[..i] && services[..i + 1] == services[..i] + [services[i]];
  }

  /** The entry kept for a name: the last one of the first list, else the first one of the second. */
  function Kept(s1: seq<Service>, s2: seq<Service>, n: string): (s: Service)
    requires n in Names(s1) + Names(s2)
    ensures s.name == n
  {
    if n in Names(s1) then LastNamed(s1, n) else FirstNamed(s2, n)
  }

  lemma {:induction false} LastAt(services: seq<Service>, n: string) returns (i: nat)
    requires n in Names(services)
    ensures i < |services| && services[i] == LastNamed(services, n) && forall j :: i < j < |services| ==> services[j].name != n
    decreases |services|
  {
    var k := |services| - 1;
    assert services == services[..k] + [services[k]];
    if services[k].name == n {
      i := k;
    } else {
      i := LastAt(services[..k], n);
      assert forall j :: i < j < |services| ==> j == k || services[j] == services[..k][j];
    }
  }

  lemma {:induction false} FirstAt(services: seq<Service>, n: string) returns (i: nat)
    requires n in Names(services)
    ensures i < |services| && services[i] == FirstNamed(services, n) && forall j :: 0 <= j < i ==> services[j].name != n
    decreases |services|
  {
    var k := |services| - 1;
    assert services == services[..k] + [services[k]];
    if n in Names(services[..k]) {
      i := FirstAt(services[..k], n);
      assert forall j :: 0 <= j < i ==> services[j] == services[..k][j];
    } else {
      i := k;
      forall j | 0 <= j < k
        ensures services[j].name != n
      {
        assert services[..k][j] == services[j];
      }
    }
  }

  lemma KeptAt(s1: seq<Service>, s2: seq<Service>, n: string)
    requires n in Names(s1) + Names(s2)
    ensures n in Names(s1) ==>
              exists i | 0 <= i < |s1| :: s1[i] == Kept(s1, s2, n) && forall j :: i < j < |s1| ==> s1[j].name != n
    ensures n !in Names(s1) ==>
              exists i | 0 <= i < |s2| :: s2[i] == Kept(s1, s2, n) && forall j :: 0 <= j < i ==> s2[j].name != n
  {
    if n in Names(s1) {
      var i := LastAt(s1, n);
    } else {
      var i := FirstAt(s2, n);
    }
  }

  /** Every name of the two lists once, in any order. */
  method MergeServices(s1: seq<Service>, s2: seq<Service>) returns (merged: seq<Service>)
    ensures DistinctNames(merged) && Names(merged) == Names(s1) + Names(s2)
    ensures forall s :: s in merged ==> s == Kept(s1, s2, s.name)
    ensures forall s :: s in merged && s.name in Names(s1) ==>
                          exists i | 0 <= i < |s1| :: s1[i] == s && forall j :: i < j < |s1| ==> s1[j].name != s.name
    ensures forall s :: s in merged && s.name !in Names(s1) ==>
                          exists i | 0 <= i < |s2| :: s2[i] == s && forall j :: 0 <= j < i ==> s2[j].name != s.name
  {
    hide DistinctNames, Kept, Names;
    var services := IndexServices(s1);
    services := AddServices(s1, services, s2);
    merged := ServicesInAnyOrder(services);
    forall s | s in merged
      ensures s.name in Names(s1) ==>
                exists i | 0 <= i < |s1| :: s1[i] == s && forall j :: i < j < |s1| ==> s1[j].name != s.name
      ensures s.name !in Names(s1) ==>
                exists i | 0 <= i < |s2| :: s2[i] == s && forall j :: 0 <= j < i ==> s2[j].name != s.name
    {
      KeptAt(s1, s2, s.name);
    }
  }

  method IndexServices(s1: seq<Service>) returns (services: map<string, Service>)
    ensures Indexed(services, s1)
  {
    hide Indexed;
    services := map[];
    assert s1[..0] == [];
    IndexedNothing();
    for i := 0 to |s1|
      invariant Indexed(services, s1[..i])
    {
      IndexedSnoc(services, s1, i);
      services := services[s1[i].name := s1[i]];
    }
    assert s1[..|s1|] == s1;
  }

  /** Under each name of the list, its last entry. */
  ghost predicate Indexed(m: map<string, Service>, services: seq<Service>) {
    && m.Keys == Names(services)
    && forall n :: n in m ==> m[n] == LastNamed(services, n)
  }

  lemma IndexedNothing()
    ensures Indexed(map[], [])
  {
  }

  lemma IndexedSnoc(m: map<string, Service>, services: seq<Service>, i: nat)
    requires i < |services| && Indexed(m, services[..i])
    ensures Indexed(m[services[i].name := services[i]], services[..i + 1])
  {
    hide LastNamed, FirstNamed;
    var s := services[i];
    assert services[..i + 1] == services[..i] + [s];
    assert s in services[..i + 1] && s.name in Names(services[..i + 1]);
    NamedSnoc(services, i, s.name);
    hide Names;
    var r := m[s.name := s];
    forall n | n in r
      ensures r[n] == LastNamed(services[..i + 1], n)
    {
      NamedSnoc(services, i, n);
    }
  }

  method AddServices(ghost s1: seq<Service>, first: map<string, Service>, s2: seq<Service>)
    returns (services: map<string, Service>)
    requires Indexed(first, s1)
    ensures services.Keys == Names(s1) + Names(s2)
    ensures forall n :: n in services ==> services[n] == Kept(s1, s2, n)
  {
    hide LastNamed, FirstNamed;
    services := first;
    for i := 0 to |s2|
      invariant services.Keys == Names(s1) + Names(s2[..i])
      invariant forall n :: n in services ==> services[n] == Kept(s1, s2[..i], n)
    {
      assert s2[..i + 1] == s2[..i] + [s2[i]];
      forall n | n in Names(s2[..i + 1])
        ensures FirstNamed(s2[..i + 1], n) == if n in Names(s2[..i]) then FirstNamed(s2[..i], n) else s2[i]
      {
        NamedSnoc(s2, i, n);
      }
      if s2[i].name !in services {
        services := services[s2[i].name := s2[i]];
      }
    }
    assert s2[..|s2|] == s2;
  }

  method ServicesInAnyOrder(services: map<string, Service>) returns (r: seq<Service>)
    requires forall n :: n in services ==> services[n].name == n
    ensures DistinctNames(r)
    ensures forall s :: s in r <==> s.name in services && services[s.name] == s
    ensures Names(r) == services.Keys
  {
    r := [];
    var rest := services.Keys;
    while rest != {}
      invariant rest <= services.Keys && DistinctNames(r)
      invariant forall s :: s in r <==> s.name in services && s.name !in rest && services[s.name] == s
    {
      var n :| n in rest;
      assert forall s :: s in r ==> s.name != n;
      r := r + [services[n]];
      rest := rest - {n};
    }
    forall n | n in services
      ensures n in Names(r)
    {
      assert services[n] in r;
    }
  }
}
