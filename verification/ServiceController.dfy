/** The daemon's reconciliation of the service manager with the services ConfigMap. */
module ServiceController {
  import opened Basics
  import opened Graph
  import opened ServiceState
  import opened ServiceSpec
  import opened ServiceManager
  import opened Reconcile

  /** The service runs on the command that it resolves to, with its description and its dependencies. */
  ghost predicate Holds(svc: Svc, r: Resolver, s: Service) {
    && svc.running
    && r(s) == Some(svc.config.binaryPath)
    && svc.config.description == MANAGED_TAG + " " + s.name
    && svc.config.dependencies == s.dependencies
  }

  lemma HoldsWanted(svc: Svc, r: Resolver, s: Service)
    requires r(s).Some?
    ensures Holds(svc, r, s) <==> svc == Svc(Want(r, s), true)
  {
  }

  /** Every listed service exists, runs, and holds its expected configuration. */
  ghost predicate Installed(st: State, r: Resolver, services: seq<Service>) {
    forall i :: 0 <= i < |services| ==> services[i].name in st && Holds(st[services[i].name], r, services[i])
  }

  /** `u` is where reconciliation stops when service `i` is the first that is not reconcilable: with a placeholder at
      most when its command does not resolve, else with only some of what it needs started. */
  ghost predicate FailedAt(st: State, r: Resolver, services: seq<Service>, i: nat, u: State)
    requires i < |services|
  {
    && (forall j :: 0 <= j < i ==> Reconcilable(Topo(st), r, services, services[j]))
    && !Reconcilable(Topo(st), r, services, services[i])
    && (if r(services[i]).None? then u == Created(After(st, r, services, i), services[i].name)
        else PartlyBooted(Configured(st, r, services, i), u, services[i].name))
  }

  predicate SlicesEquivalent(s1: seq<string>, s2: seq<string>) {
    (|s1| == |s2| && |s1| == 0) || s1 == s2
  }

  class ServiceController {
    const mgr: Manager
    const resolve: Resolver

    constructor (mgr: Manager, resolve: Resolver)
      ensures this.mgr == mgr && this.resolve == resolve
    {
      this.mgr, this.resolve := mgr, resolve;
    }

    /** Reconfigures the service if it differs from what is expected, after stopping it together with
        everything on top of it, and then starts it. */
    method ReconcileService(service: FakeService, expected: Service) returns (ok: bool)
      requires service.serviceList == mgr && service.Listed() && service.name == expected.name
      requires Safe(mgr.View())
      requires forall d :: d in expected.dependencies ==> !Reaches(Topo(mgr.View()), d, expected.name)
      modifies mgr.svcs.Values, mgr`history
      ensures service.Listed()
      ensures ok <==> resolve(expected).Some? &&
                      Startable(Updated(old(mgr.View()), resolve, expected), {expected.name})
      ensures ok ==> mgr.View() == Boot(Updated(old(mgr.View()), resolve, expected), {expected.name})
      ensures ok ==> service.running && resolve(expected) == Some(service.config.binaryPath) &&
                     service.config.description == MANAGED_TAG + " " + expected.name &&
                     service.config.dependencies == expected.dependencies
      ensures !ok ==> if resolve(expected).None? then mgr.View() == old(mgr.View())
                      else PartlyBooted(Updated(old(mgr.View()), resolve, expected), mgr.View(), expected.name)
      ensures Safe(mgr.View()) && SafeRun(old(mgr.history), mgr.history)
      ensures old(service.running) && old(service.config) == Want(resolve, expected) ==>
                mgr.View() == old(mgr.View()) && mgr.history == old(mgr.history)
    {
      hide Safe, SafeRun, Halt, Boot, Startable, Quiet, QuietRun, PartlyBooted, Acyclic, Topo, RunTopo, IdleTopo;
      ghost var st, h0 := mgr.View(), mgr.history;
      SafeAtRest(st, h0);
      var config := service.config;
      var cmd := resolve(expected);
      if cmd.None? {
        return false;
      }
      var updateRequired := false;
      if config.binaryPath != cmd.value {
        config := config.(binaryPath := cmd.value);
        updateRequired := true;
      }
      var expectedDescription := MANAGED_TAG + " " + expected.name;
      if config.description != expectedDescription {
        config := config.(description := expectedDescription);
        updateRequired := true;
      }
      if !SlicesEquivalent(config.dependencies, expected.dependencies) {
        config := config.(dependencies := expected.dependencies);
        updateRequired := true;
      }
      assert config == Want(resolve, expected);
      if updateRequired {
        ok := Reconfigure(service, expected, config);
      }
      ghost var now, h1 := mgr.View(), mgr.history;
      assert now == Updated(st, resolve, expected);
      SafeParts(now);
      ok := mgr.EnsureServiceState(service, true);
      QuietIsSafe(now, mgr.View(), h1, mgr.history);
      SafeRunJoin(h0, h1, mgr.history);
      BootGrows(now, {expected.name});
      UpdatedHolds(st, resolve, expected);
      assert ok ==> mgr.View()[expected.name].config == Want(resolve, expected) && IsRunning(mgr.View(), expected.name);
      assert mgr.View()[expected.name] == Svc(service.config, service.running);
    }

    /** Stops the service, with everything on top of it, and replaces its configuration. */
    method Reconfigure(service: FakeService, ghost expected: Service, config: Config) returns (ok: bool)
      requires service.serviceList == mgr && service.Listed() && service.name == expected.name
      requires Safe(mgr.View()) && service.config != config == Want(resolve, expected)
      requires forall d :: d in expected.dependencies ==> !Reaches(Topo(mgr.View()), d, expected.name)
      modifies mgr.svcs.Values, mgr`history
      ensures service.Listed() && ok
      ensures mgr.View() == Updated(old(mgr.View()), resolve, expected)
      ensures Safe(mgr.View()) && SafeRun(old(mgr.history), mgr.history)
    {
      hide Safe, SafeRun, Boot, Startable, Halt, Quiet, QuietRun, PartlyBooted, Acyclic, Topo, RunTopo, IdleTopo;
      ghost var st, h0 := mgr.View(), mgr.history;
      UpdateKeepsSafe(st, resolve, expected);
      SafeParts(st);
      ok := mgr.EnsureServiceState(service, false);
      QuietIsSafe(st, mgr.View(), h0, mgr.history);
      HaltShrinks(st, {service.name});
      assert service.running == IsRunning(mgr.View(), service.name);
      SafeRunAppend(h0, mgr.history, Updated(st, resolve, expected));
      service.UpdateConfig(config);
    }

    /** Creates what is missing and reconciles the services in the order of the list. Every single state
        change on the way keeps the manager acyclic and dependency-closed. It succeeds exactly when every
        service is reconcilable, and then the manager is in the state `After` the whole list; when that
        is the state it started from, it changes nothing. Otherwise it stops at the first service that is
        not reconcilable. */
    method ReconcileServices(services: seq<Service>) returns (ok: bool)
      requires mgr.Valid() && Safe(mgr.View()) && WellOrdered(Topo(mgr.View()), services)
      modifies mgr, mgr.svcs.Values
      ensures mgr.Valid() && fresh(mgr.svcs.Values - old(mgr.svcs.Values))
      ensures ok <==> forall i :: 0 <= i < |services| ==>
                                    Reconcilable(Topo(old(mgr.View())), resolve, services, services[i])
      ensures ok ==> mgr.View() == After(old(mgr.View()), resolve, services, |services|)
      ensures ok ==> forall i :: 0 <= i < |services| ==>
                                   && services[i].name in mgr.View()
                                   && mgr.View()[services[i].name].running
                                   && resolve(services[i]) == Some(mgr.View()[services[i].name].config.binaryPath)
                                   && mgr.View()[services[i].name].config.description == MANAGED_TAG + " " + services[i].name
                                   && mgr.View()[services[i].name].config.dependencies == services[i].dependencies
      ensures !ok ==> exists i | 0 <= i < |services| :: FailedAt(old(mgr.View()), resolve, services, i, mgr.View())
      ensures Safe(mgr.View()) && SafeRun(old(mgr.history), mgr.history)
      ensures ok && Installed(old(mgr.View()), resolve, services) ==> mgr.history == old(mgr.history)
    {
      hide Safe, SafeRun, Boot, Startable, Topo, After, Updated, Reconcilable, WellOrdered, PartlyBooted;
      ghost var st, h0 := mgr.View(), mgr.history;
      SafeAtRest(st, h0);
      AfterNothing(st, resolve, services);
      var existing := mgr.GetServices();
      for i := 0 to |services|
        invariant mgr.Valid() && fresh(mgr.svcs.Values - old(mgr.svcs.Values))
        invariant mgr.View() == After(st, resolve, services, i)
        invariant Safe(mgr.View()) && SafeRun(h0, mgr.history)
        invariant forall j :: 0 <= j < i ==> Reconcilable(Topo(st), resolve, services, services[j])
        invariant Installed(st, resolve, services) ==> mgr.View() == st && mgr.history == h0
      {
        var expected := services[i];
        NextStep(st, resolve, services, i);
        ghost var h := mgr.history;
        ok := EnsureService(expected, expected.name in existing);
        SafeRunJoin(h0, h, mgr.history);
        if !ok {
          assert FailedAt(st, resolve, services, i, mgr.View());
          return false;
        }
        assert Reconcilable(Topo(st), resolve, services, expected);
        assert mgr.View() == After(st, resolve, services, i + 1);
      }
      WellOrderedDistinct(Topo(st), services);
      ReconcilableResolve(Topo(st), resolve, services);
      AfterInstalled(st, resolve, services);
      return true;
    }

    /** Creates a placeholder unless the service exists, and reconciles it. */
    method EnsureService(expected: Service, present: bool) returns (ok: bool)
      requires mgr.Valid() && (present <==> expected.name in mgr.svcs)
      requires Safe(mgr.View()) && Safe(Created(mgr.View(), expected.name))
      requires forall d :: d in expected.dependencies ==>
                             !Reaches(Topo(Created(mgr.View(), expected.name)), d, expected.name)
      modifies mgr, mgr.svcs.Values
      ensures mgr.Valid() && fresh(mgr.svcs.Values - old(mgr.svcs.Values))
      ensures ok <==> resolve(expected).Some? &&
                      Startable(Updated(Created(old(mgr.View()), expected.name), resolve, expected), {expected.name})
      ensures ok ==> mgr.View() ==
                     Boot(Updated(Created(old(mgr.View()), expected.name), resolve, expected), {expected.name})
      ensures !ok ==> if resolve(expected).None? then mgr.View() == Created(old(mgr.View()), expected.name)
                      else PartlyBooted(Updated(Created(old(mgr.View()), expected.name), resolve, expected), mgr.View(), expected.name)
      ensures Safe(mgr.View()) && SafeRun(old(mgr.history), mgr.history)
      ensures expected.name in old(mgr.View()) && old(mgr.View())[expected.name] == Svc(Want(resolve, expected), true) ==>
                mgr.View() == old(mgr.View()) && mgr.history == old(mgr.history)
    {
      hide Safe, SafeRun, Boot, Startable, Topo, Updated;
      ghost var h0 := mgr.history;
      SafeAtRest(mgr.View(), h0);
      var service: FakeService;
      if !present {
        var created := mgr.CreateService(expected.name, "", PLACEHOLDER);
        service := created.value;
        SafeRunAppend(h0, h0, mgr.View());
      } else {
        var found := mgr.OpenService(expected.name);
        service := found.value;
      }
      ghost var h1 := mgr.history;
      ok := ReconcileService(service, expected);
      SafeRunJoin(h0, h1, mgr.history);
    }
  }

  lemma UpdatedHolds(st: State, r: Resolver, s: Service)
    requires s.name in st
    ensures s.name in Updated(st, r, s) && Updated(st, r, s)[s.name].config == Want(r, s)
  {
  }

  lemma SafeParts(st: State)
    requires Safe(st)
    ensures Acyclic(RunTopo(st)) && Acyclic(IdleTopo(st))
  {
    AcyclicParts(st);
  }

  lemma AfterNothing(st: State, r: Resolver, services: seq<Service>)
    ensures After(st, r, services, 0) == st
  {
  }

  /** One iteration of the loop in `ReconcileServices`. */
  lemma NextStep(st: State, r: Resolver, services: seq<Service>, i: nat)
    requires OnTheWay(st, r, services, i)
    ensures var u := After(st, r, services, i);
            var s := services[i];
            && (s.name in u <==> s.name in st)
            && Safe(Created(u, s.name))
            && (forall d :: d in s.dependencies ==> !Reaches(Topo(Created(u, s.name)), d, s.name))
            && (r(s).Some? && Startable(Updated(Created(u, s.name), r, s), {s.name}) <==>
                Reconcilable(Topo(st), r, services, s))
            && Boot(Updated(Created(u, s.name), r, s), {s.name}) == After(st, r, services, i + 1)
  {
    hide After, Safe, Boot, Startable, Updated, Reconcilable;
    var u, s := After(st, r, services, i), services[i];
    AfterKeys(st, r, services, i);
    NotListedTwice(services, i);
    CreatedSafe(u, s.name);
    forall d | d in s.dependencies
      ensures !Reaches(Topo(Created(u, s.name)), d, s.name)
    {
      DependencyPlace(Topo(st), services, i, d);
      CreatedReach(u, s.name, d, s.name);
      BehindCannotReach(st, r, services, i, d);
    }
    NextState(st, r, services, i);
    if r(s).Some? {
      NextStartable(st, r, services, i);
    } else {
      NotReconcilable(Topo(st), r, services, s);
    }
  }

  lemma NotReconcilable(t: Topology, r: Resolver, services: seq<Service>, s: Service)
    requires r(s).None?
    ensures !Reconcilable(t, r, services, s)
  {
  }

  // The whole list

  lemma BootKeepsSafe(st: State, ss: set<string>)
    requires Safe(st) && Startable(st, ss)
    ensures Safe(Boot(st, ss))
  {
    var b := Boot(st, ss);
    BootGrows(st, ss);
    SameTopo(st, b);
    forall n, d | IsRunning(b, n) && Edge(Topo(b), n, d)
      ensures IsRunning(b, d)
    {
      if !IsRunning(st, n) {
        var s :| s in ss && Reaches(IdleTopo(st), s, n);
        ReachesThenEdge(IdleTopo(st), s, n, d);
        assert BootedBy(st, ss, d);
      }
    }
  }

  /** Between any two services of the list the manager is safe. */
  lemma {:induction false} AfterSafe(st: State, r: Resolver, services: seq<Service>, i: nat)
    requires Safe(st) && WellOrdered(Topo(st), services) && i <= |services|
    requires forall j :: 0 <= j < i ==> Reconcilable(Topo(st), r, services, services[j])
    ensures Safe(After(st, r, services, i))
  {
    hide After, Safe, Boot, Startable, Configured, Reconcilable, WellOrdered;
    if i == 0 {
      AfterNothing(st, r, services);
    } else {
      AfterSafe(st, r, services, i - 1);
      UpdatedSafe(st, r, services, i - 1);
      ReconcilableResolves(Topo(st), r, services, services[i - 1]);
      NextStartable(st, r, services, i - 1);
      BootKeepsSafe(Configured(st, r, services, i - 1), {services[i - 1].name});
      NextState(st, r, services, i - 1);
    }
  }

  lemma ReconcilableResolves(t: Topology, r: Resolver, services: seq<Service>, s: Service)
    requires Reconcilable(t, r, services, s)
    ensures r(s).Some?
  {
  }

  /** After the list, every listed service runs as expected at the same time, although each of them was
      started while later ones were still to be reconfigured. */
  lemma AfterInstalled(st: State, r: Resolver, services: seq<Service>)
    requires DistinctNames(services)
    ensures forall i :: 0 <= i < |services| ==>
                          && services[i].name in After(st, r, services, |services|)
                          && After(st, r, services, |services|)[services[i].name].running
                          && (r(services[i]).Some? ==> Holds(After(st, r, services, |services|)[services[i].name], r, services[i]))
    ensures (forall s :: s in services ==> r(s).Some?) ==> Installed(After(st, r, services, |services|), r, services)
  {
    assert services[..|services|] == services;
    forall i | 0 <= i < |services|
      ensures services[i].name in After(st, r, services, |services|)
      ensures After(st, r, services, |services|)[services[i].name] == Svc(Want(r, services[i]), true)
    {
      NamedIndex(services, i);
    }
  }

  lemma WellOrderedDistinct(t: Topology, services: seq<Service>)
    requires WellOrdered(t, services)
    ensures DistinctNames(services)
  {
  }

  lemma ReconcilableResolve(t: Topology, r: Resolver, services: seq<Service>)
    requires forall j :: 0 <= j < |services| ==> Reconcilable(t, r, services, services[j])
    ensures forall s :: s in services ==> r(s).Some?
  {
  }

  /** When reconciliation stops at a service, all services before it exist, run and hold what is expected. */
  lemma EarlierInstalled(st: State, r: Resolver, services: seq<Service>, i: nat, u: State)
    requires Safe(st) && WellOrdered(Topo(st), services) && i < |services| && FailedAt(st, r, services, i, u)
    ensures Installed(u, r, services[..i])
  {
    hide Safe, WellOrdered, Reconcilable, Configured, After;
    AfterSafe(st, r, services, i);
    forall j | 0 <= j < i
      ensures services[..i][j].name in u && Holds(u[services[..i][j].name], r, services[..i][j])
    {
      ReconcilableResolves(Topo(st), r, services, services[j]);
      EarlierRuns(st, r, services, i, j);
      assert IsRunning(Configured(st, r, services, i), services[j].name);
    }
  }

  lemma EarlierRuns(st: State, r: Resolver, services: seq<Service>, i: nat, j: nat)
    requires OnTheWay(st, r, services, i) && j < i
    ensures var n := services[j].name;
            && n in After(st, r, services, i) && After(st, r, services, i)[n] == Svc(Want(r, services[j]), true)
            && n in Configured(st, r, services, i) && Configured(st, r, services, i)[n] == Svc(Want(r, services[j]), true)
  {
    hide Safe;
    var n := services[j].name;
    assert services[..i][j] == services[j];
    assert DistinctNames(services[..i]);
    NamedIndex(services[..i], j);
    NotListedTwice(services, i);
    ConfiguredOthers(st, r, services, i);
    DoneRunning(st, r, services, i, n);
  }

  lemma StillWellOrdered(st: State, r: Resolver, services: seq<Service>)
    requires WellOrdered(Topo(st), services)
    ensures WellOrdered(Topo(After(st, r, services, |services|)), services)
  {
    hide After;
    var u := After(st, r, services, |services|);
    assert services[..|services|] == services;
    AfterKeys(st, r, services, |services|);
    forall i, d | 0 <= i < |services| && d in services[i].dependencies
      ensures d in Names(services[..i]) || Foreign(Topo(u), services, d)
    {
      DependencyPlace(Topo(st), services, i, d);
      if d !in Names(services) {
        forall l | l in Names(services)
          ensures !Reaches(Topo(u), d, l)
        {
          if p :| Path(Topo(u), d, p, l) {
            ForeignPath(st, u, services, d, p, l);
          }
        }
      }
    }
  }

  /** A state in which everything is installed is the state after the list. */
  lemma InstalledIsFixed(st: State, r: Resolver, services: seq<Service>)
    requires Safe(st) && DistinctNames(services) && Installed(st, r, services)
    ensures After(st, r, services, |services|) == st
  {
    var u := After(st, r, services, |services|);
    assert services[..|services|] == services;
    assert u.Keys == st.Keys;
    forall n | n in st
      ensures u[n] == st[n]
    {
      if n in Names(services) {
        var i :| 0 <= i < |services| && services[i].name == n;
        NamedIndex(services, i);
      } else if Started(st, services, |services|, n) {
        var j, d :| 0 <= j < |services| && d in services[j].dependencies && d !in Names(services) && Reaches(Topo(st), d, n);
        assert Edge(Topo(st), services[j].name, d);
        var p :| Path(Topo(st), d, p, n);
        RunningPath(st, d, p, n);
      }
    }
  }

  /** Reconciling the same list a second time meets its own conditions again and changes nothing. */
  lemma SecondRun(st: State, r: Resolver, services: seq<Service>)
    requires Safe(st) && WellOrdered(Topo(st), services)
    requires forall j :: 0 <= j < |services| ==> Reconcilable(Topo(st), r, services, services[j])
    ensures var u := After(st, r, services, |services|);
            Safe(u) && WellOrdered(Topo(u), services) && After(u, r, services, |services|) == u
  {
    hide After, Safe, Reconcilable;
    AfterSafe(st, r, services, |services|);
    StillWellOrdered(st, r, services);
    ReconcilableResolve(Topo(st), r, services);
    AfterInstalled(st, r, services);
    InstalledIsFixed(After(st, r, services, |services|), r, services);
  }
}
