/** What reconciling a list of services does to the value of the service manager: the state after each
    service of the list, and the proof that one more service leads from each such state to the next. */
module Reconcile {
  import opened Basics
  import opened Graph
  import opened ServiceState
  import opened ServiceSpec

  /** The command a service should run with, once its variables are resolved; None when resolving fails. */
  type Resolver = Service -> Option<string>

  const PLACEHOLDER := Config("", "", [])

  /** The configuration the manager should hold for `s`. */
  function Want(r: Resolver, s: Service): Config {
    Config(if r(s).Some? then r(s).value else "", MANAGED_TAG + " " + s.name, s.dependencies)
  }

  /** `d` is not listed, and does not depend on anything listed. */
  ghost predicate Foreign(t: Topology, services: seq<Service>, d: string) {
    d !in Names(services) && forall l :: l in Names(services) ==> !Reaches(t, d, l)
  }

  /** No name is listed twice, and every dependency is listed earlier or foreign to the list. */
  ghost predicate WellOrdered(t: Topology, services: seq<Service>) {
    && DistinctNames(services)
    && (forall i, d :: 0 <= i < |services| && d in services[i].dependencies ==>
          d in Names(services[..i]) || Foreign(t, services, d))
  }

  /** The command is known and the foreign dependencies exist, with all they depend on. */
  ghost predicate Reconcilable(t: Topology, r: Resolver, services: seq<Service>, s: Service) {
    && r(s).Some?
    && (forall d, n :: d in s.dependencies && d !in Names(services) && Reaches(t, d, n) ==> n in t)
  }

  ghost predicate Changed(st: State, r: Resolver, s: Service) {
    s.name in st && st[s.name].config != Want(r, s)
  }

  /** `n` depended on one of the first `i` services that had to be reconfigured. */
  ghost predicate Stopped(st: State, r: Resolver, services: seq<Service>, i: nat, n: string)
    requires i <= |services|
  {
    exists j :: 0 <= j < i && Changed(st, r, services[j]) && Reaches(Topo(st), n, services[j].name)
  }

  /** One of the first `i` services needs `n` through a foreign dependency. */
  ghost predicate Started(st: State, services: seq<Service>, i: nat, n: string)
    requires i <= |services|
  {
    exists j, d :: 0 <= j < i && d in services[j].dependencies && d !in Names(services) && Reaches(Topo(st), d, n)
  }

  function Named(services: seq<Service>, n: string): (s: Service)
    requires n in Names(services)
    ensures s in services && s.name == n
  {
    if services[|services| - 1].name == n then services[|services| - 1]
    else Named(services[..|services| - 1], n)
  }

  /** The manager after the first `i` services: those run as wanted, and every other service keeps its
      configuration and runs if it ran and did not depend on a reconfigured service, or is needed. */
  ghost function After(st: State, r: Resolver, services: seq<Service>, i: nat): State
    requires i <= |services|
  {
    map n | n in st.Keys + Names(services[..i]) ::
      if n in Names(services[..i]) then Svc(Want(r, Named(services[..i], n)), true)
      else Svc(st[n].config, (st[n].running && !Stopped(st, r, services, i, n)) || Started(st, services, i, n))
  }

  // One service

  function Created(st: State, name: string): State {
    if name in st then st else st[name := Svc(PLACEHOLDER, false)]
  }

  ghost function Updated(st: State, r: Resolver, s: Service): State
    requires s.name in st
  {
    if st[s.name].config == Want(r, s) then st else Halt(st, {s.name})[s.name := Svc(Want(r, s), false)]
  }

  // Names listed so far

  lemma NamesSplit(services: seq<Service>, i: nat)
    requires i < |services|
    ensures Names(services[..i + 1]) == Names(services[..i]) + {services[i].name}
    ensures Names(services[..i + 1]) <= Names(services)
  {
    assert services[..i + 1] == services[..i] + [services[i]];
  }

  lemma NotListedTwice(services: seq<Service>, i: nat)
    requires DistinctNames(services) && i < |services|
    ensures services[i].name !in Names(services[..i])
  {
  }

  lemma NamedIndex(services: seq<Service>, j: nat)
    requires DistinctNames(services) && j < |services|
    ensures Named(services, services[j].name) == services[j]
  {
  }

  lemma NamedSplit(services: seq<Service>, i: nat, n: string)
    requires DistinctNames(services) && i < |services| && n in Names(services[..i + 1])
    ensures Named(services[..i + 1], n) ==
            if n == services[i].name then services[i] else Named(services[..i], n)
  {
    assert services[..i + 1][..i] == services[..i];
  }

  lemma DependencyPlace(t: Topology, services: seq<Service>, i: nat, d: string)
    requires WellOrdered(t, services) && i < |services| && d in services[i].dependencies
    ensures d in Names(services) ==> d in Names(services[..i])
    ensures d !in Names(services) ==> Foreign(t, services, d)
  {
    assert d in Names(services[..i]) || Foreign(t, services, d);
    assert Names(services[..i]) <= Names(services);
  }

  // What no dependency path leaves

  /** The services done so far and everything foreign to the list. */
  ghost function Behind(t: Topology, services: seq<Service>, i: nat): iset<string>
    requires i <= |services|
  {
    iset n | n in Names(services[..i]) || Foreign(t, services, n)
  }

  lemma ForeignClosed(t: Topology, services: seq<Service>, a: string, b: string)
    requires Foreign(t, services, a) && Reaches(t, a, b)
    ensures Foreign(t, services, b)
  {
    forall l | l in Names(services)
      ensures !Reaches(t, b, l)
    {
      if Reaches(t, b, l) {
        ReachesTransitive(t, a, b, l);
      }
    }
  }

  lemma AfterTopo(st: State, r: Resolver, services: seq<Service>, i: nat, a: string)
    requires i <= |services| && a in After(st, r, services, i)
    ensures a !in Names(services[..i]) ==> a in st
    ensures Topo(After(st, r, services, i))[a] ==
            if a in Names(services[..i]) then Named(services[..i], a).dependencies else Topo(st)[a]
  {
  }

  /** From the services done so far only services done before them and foreign ones can be reached. */
  lemma BehindClosed(st: State, r: Resolver, services: seq<Service>, i: nat)
    requires WellOrdered(Topo(st), services) && i <= |services|
    ensures EdgeClosed(Topo(After(st, r, services, i)), Behind(Topo(st), services, i))
  {
    hide After, WellOrdered, Foreign;
    var t, b := Topo(st), Behind(Topo(st), services, i);
    forall x, y | x in b && Edge(Topo(After(st, r, services, i)), x, y)
      ensures y in b
    {
      AfterTopo(st, r, services, i, x);
      if x in Names(services[..i]) {
        var j := NamedAt(services, i, x);
        DependencyPlace(t, services, j, y);
        NamesGrow(services, j, i);
      } else {
        EdgeReaches(t, x, y);
        ForeignClosed(t, services, x, y);
      }
    }
  }

  lemma NamedAt(services: seq<Service>, i: nat, n: string) returns (j: nat)
    requires i <= |services| && n in Names(services[..i])
    ensures j < i && services[j] == Named(services[..i], n)
  {
    j :| 0 <= j < i && services[..i][j] == Named(services[..i], n);
  }

  lemma NamesGrow(services: seq<Service>, j: nat, i: nat)
    requires j <= i <= |services|
    ensures Names(services[..j]) <= Names(services[..i])
  {
    assert services[..i][..j] == services[..j];
  }

  lemma BehindCannotReach(st: State, r: Resolver, services: seq<Service>, i: nat, n: string)
    requires WellOrdered(Topo(st), services) && i < |services| && n in Behind(Topo(st), services, i)
    ensures !Reaches(Topo(After(st, r, services, i)), n, services[i].name)
  {
    BehindClosed(st, r, services, i);
    NotListedTwice(services, i);
    if Reaches(Topo(After(st, r, services, i)), n, services[i].name) {
      ReachesStaysIn(Topo(After(st, r, services, i)), Behind(Topo(st), services, i), n, services[i].name);
    }
  }

  // Dependency paths before and after

  /** Foreign services keep their dependencies, so they reach the same services throughout. */
  lemma ForeignPath(st: State, u: State, services: seq<Service>, a: string, p: seq<string>, b: string)
    requires Foreign(Topo(st), services, a)
    requires forall n :: n !in Names(services) ==> (n in st <==> n in u)
    requires forall n :: n !in Names(services) && n in st ==> u[n].config == st[n].config
    ensures Path(Topo(st), a, p, b) <==> Path(Topo(u), a, p, b)
    decreases |p|
  {
    if p != [] {
      assert Edge(Topo(st), a, p[0]) <==> Edge(Topo(u), a, p[0]);
      if Edge(Topo(st), a, p[0]) {
        EdgeReaches(Topo(st), a, p[0]);
        ForeignClosed(Topo(st), services, a, p[0]);
        ForeignPath(st, u, services, p[0], p[1..], b);
      }
    }
  }

  /** A service that is not yet reconfigured and has not been stopped reaches what it reached before. */
  lemma UntouchedPath(st: State, r: Resolver, services: seq<Service>, i: nat, a: string, p: seq<string>, b: string)
    requires DistinctNames(services) && i <= |services| && DependencyClosed(st)
    requires IsRunning(st, a) && !Stopped(st, r, services, i, a)
    ensures Path(Topo(st), a, p, b) <==> Path(Topo(After(st, r, services, i)), a, p, b)
    decreases |p|
  {
    var u := After(st, r, services, i);
    assert Topo(u)[a] == Topo(st)[a] by {
      AfterTopo(st, r, services, i, a);
      if a in Names(services[..i]) {
        var j :| 0 <= j < i && services[j] == Named(services[..i], a);
        ReachesSelf(Topo(st), a);
        assert !Changed(st, r, services[j]);
      }
    }
    if p != [] && Edge(Topo(st), a, p[0]) {
      assert !Stopped(st, r, services, i, p[0]) by {
        if j :| 0 <= j < i && Changed(st, r, services[j]) && Reaches(Topo(st), p[0], services[j].name) {
          EdgeThenReaches(Topo(st), a, p[0], services[j].name);
        }
      }
      UntouchedPath(st, r, services, i, p[0], p[1..], b);
    }
  }

  // One service, step by step

  /** The manager is `After` the first `i` services, and safe; the next service is in the list. */
  ghost predicate OnTheWay(st: State, r: Resolver, services: seq<Service>, i: nat) {
    && i < |services|
    && WellOrdered(Topo(st), services)
    && Safe(st)
    && Safe(After(st, r, services, i))
  }

  /** The manager once the next service is created and reconfigured as needed, but not yet started. */
  ghost function Configured(st: State, r: Resolver, services: seq<Service>, i: nat): State
    requires i < |services|
  {
    Updated(Created(After(st, r, services, i), services[i].name), r, services[i])
  }

  lemma CreatedReach(st: State, name: string, a: string, b: string)
    ensures Reaches(Topo(Created(st, name)), a, b) <==> Reaches(Topo(st), a, b)
  {
    assert Within(Topo(Created(st, name)), Topo(st)) && Within(Topo(st), Topo(Created(st, name)));
    if Reaches(Topo(Created(st, name)), a, b) {
      ReachesWithin(Topo(Created(st, name)), Topo(st), a, b);
    }
    if Reaches(Topo(st), a, b) {
      ReachesWithin(Topo(st), Topo(Created(st, name)), a, b);
    }
  }

  lemma CreatedSafe(st: State, name: string)
    requires Safe(st)
    ensures Safe(Created(st, name))
  {
    assert Within(Topo(Created(st, name)), Topo(st));
    AcyclicWithin(Topo(Created(st, name)), Topo(st));
  }

  /** Reconfiguring a service keeps the manager safe when its new dependencies do not lead back to it. */
  lemma UpdateKeepsSafe(st: State, r: Resolver, s: Service)
    requires Safe(st) && s.name in st
    requires forall d :: d in s.dependencies ==> !Reaches(Topo(st), d, s.name)
    ensures Safe(Updated(st, r, s))
  {
    if st[s.name].config != Want(r, s) {
      var h, u := Halt(st, {s.name}), Updated(st, r, s);
      HaltShrinks(st, {s.name});
      assert Topo(u) == Topo(st)[s.name := s.dependencies];
      ReplaceKeepsAcyclic(Topo(st), s.name, s.dependencies);
      forall n, d | IsRunning(u, n) && Edge(Topo(u), n, d)
        ensures IsRunning(u, d)
      {
        assert n != s.name && IsRunning(h, n) && Edge(Topo(st), n, d);
        if HaltedBy(st, {s.name}, d) {
          EdgeThenReaches(RunTopo(st), n, d, s.name);
        }
        HaltsItself(st, s.name);
      }
    }
  }

  /** The new dependencies close no cycle, although services not yet reconfigured keep their old ones. */
  lemma UpdatedSafe(st: State, r: Resolver, services: seq<Service>, i: nat)
    requires OnTheWay(st, r, services, i)
    ensures Safe(Configured(st, r, services, i))
  {
    hide After, Safe, Updated;
    var s := services[i];
    var a := Created(After(st, r, services, i), s.name);
    CreatedSafe(After(st, r, services, i), s.name);
    forall d | d in s.dependencies
      ensures !Reaches(Topo(a), d, s.name)
    {
      CreatedReach(After(st, r, services, i), s.name, d, s.name);
      assert d in Behind(Topo(st), services, i);
      BehindCannotReach(st, r, services, i, d);
    }
    UpdateKeepsSafe(a, r, s);
  }

  lemma HaltsItself(st: State, s: string)
    ensures IsRunning(st, s) ==> HaltedBy(st, {s}, s)
  {
    ReachesSelf(RunTopo(st), s);
  }

  /** Which of the other services are running once the next service is reconfigured. */
  lemma UpdatedRunning(st: State, r: Resolver, services: seq<Service>, i: nat, n: string)
    requires OnTheWay(st, r, services, i) && n != services[i].name
    ensures var u := After(st, r, services, i);
            var s := services[i];
            && IsRunning(Configured(st, r, services, i), n) <==>
               IsRunning(u, n) && !(s.name in u && u[s.name].config != Want(r, s) && Reaches(Topo(u), n, s.name))
  {
    hide After, Acyclic, WellOrdered;
    var u, s := After(st, r, services, i), services[i];
    var a := Created(u, s.name);
    CreatedSafe(u, s.name);
    CreatedReach(u, s.name, n, s.name);
    if a[s.name].config != Want(r, s) && IsRunning(a, n) {
      HaltedByClosed(a, {s.name}, n);
      if s.name !in u && Reaches(Topo(u), n, s.name) {
        var p :| Path(Topo(u), n, p, s.name);
        RunningPath(u, n, p, s.name);
      }
    }
  }

  lemma StartedIsForeign(st: State, services: seq<Service>, i: nat, n: string)
    requires WellOrdered(Topo(st), services) && i <= |services| && Started(st, services, i, n)
    ensures Foreign(Topo(st), services, n)
  {
    var j, d :| 0 <= j < i && d in services[j].dependencies && d !in Names(services) && Reaches(Topo(st), d, n);
    assert Names(services[..j]) <= Names(services);
    ForeignClosed(Topo(st), services, d, n);
  }

  /** The cascade of the next service stops exactly what depended on it at the outset. */
  lemma CascadeAgrees(st: State, r: Resolver, services: seq<Service>, i: nat, n: string)
    requires OnTheWay(st, r, services, i) && n !in Names(services[..i]) && IsRunning(After(st, r, services, i), n)
    ensures Reaches(Topo(After(st, r, services, i)), n, services[i].name) <==> Reaches(Topo(st), n, services[i].name)
  {
    var u, name := After(st, r, services, i), services[i].name;
    if Started(st, services, i, n) {
      StartedIsForeign(st, services, i, n);
      BehindCannotReach(st, r, services, i, n);
      assert name in Names(services);
    } else {
      if p :| Path(Topo(st), n, p, name) {
        UntouchedPath(st, r, services, i, n, p, name);
      }
      if p :| Path(Topo(u), n, p, name) {
        UntouchedPath(st, r, services, i, n, p, name);
      }
    }
  }

  /** Starting the next service starts, besides it, what it needs through foreign dependencies. */
  lemma NeedAgrees(st: State, r: Resolver, services: seq<Service>, i: nat, n: string)
    requires OnTheWay(st, r, services, i) && n != services[i].name
    ensures var b := Configured(st, r, services, i);
            var need := exists d :: d in services[i].dependencies && d !in Names(services) && Reaches(Topo(st), d, n);
            && (Reaches(Topo(b), services[i].name, n) ==> IsRunning(b, n) || need)
            && (need ==> Reaches(Topo(b), services[i].name, n))
  {
    var s := services[i];
    var b := Configured(st, r, services, i);
    UpdatedSafe(st, r, services, i);
    if Reaches(Topo(b), s.name, n) {
      var d := FirstStep(Topo(b), s.name, n);
      assert d in s.dependencies by { UpdatedDependencies(st, r, services, i); }
      if d in Names(services) {
        DependencyPlace(Topo(st), services, i, d);
        DoneRunning(st, r, services, i, d);
        var p :| Path(Topo(b), d, p, n);
        RunningPath(b, d, p, n);
      } else {
        ForeignReach(st, r, services, i, d, n);
      }
    }
    if d :| d in s.dependencies && d !in Names(services) && Reaches(Topo(st), d, n) {
      ForeignReach(st, r, services, i, d, n);
      UpdatedDependencies(st, r, services, i);
      EdgeThenReaches(Topo(b), s.name, d, n);
    }
  }

  lemma UpdatedDependencies(st: State, r: Resolver, services: seq<Service>, i: nat)
    requires OnTheWay(st, r, services, i)
    ensures var b := Configured(st, r, services, i);
            services[i].name in b && b[services[i].name].config == Want(r, services[i])
  {
  }

  lemma DoneRunning(st: State, r: Resolver, services: seq<Service>, i: nat, d: string)
    requires OnTheWay(st, r, services, i) && d in Names(services[..i])
    ensures IsRunning(Configured(st, r, services, i), d)
  {
    NotListedTwice(services, i);
    UpdatedRunning(st, r, services, i, d);
    assert d in Behind(Topo(st), services, i);
    BehindCannotReach(st, r, services, i, d);
  }

  lemma UpdatedOthers(st: State, r: Resolver, s: Service)
    requires s.name in st
    ensures Updated(st, r, s).Keys == st.Keys
    ensures forall n :: n != s.name && n in st ==> Updated(st, r, s)[n].config == st[n].config
  {
    HaltShrinks(st, {s.name});
  }

  lemma AfterKeys(st: State, r: Resolver, services: seq<Service>, i: nat)
    requires i <= |services|
    ensures After(st, r, services, i).Keys == st.Keys + Names(services[..i])
    ensures forall n :: n in st && n !in Names(services[..i]) ==> After(st, r, services, i)[n].config == st[n].config
  {
  }

  lemma ConfiguredOthers(st: State, r: Resolver, services: seq<Service>, i: nat)
    requires i < |services|
    ensures var b := Configured(st, r, services, i);
            && b.Keys == st.Keys + Names(services[..i + 1])
            && (forall n :: n != services[i].name && n in b ==>
                  n in After(st, r, services, i) && b[n].config == After(st, r, services, i)[n].config)
  {
    hide After, Updated;
    NamesSplit(services, i);
    AfterKeys(st, r, services, i);
    UpdatedOthers(Created(After(st, r, services, i), services[i].name), r, services[i]);
  }

  lemma ForeignReach(st: State, r: Resolver, services: seq<Service>, i: nat, d: string, n: string)
    requires OnTheWay(st, r, services, i) && d in services[i].dependencies && d !in Names(services)
    ensures Reaches(Topo(Configured(st, r, services, i)), d, n) <==> Reaches(Topo(st), d, n)
  {
    var b := Configured(st, r, services, i);
    ConfiguredOthers(st, r, services, i);
    NamesSplit(services, i);
    assert Names(services[..i]) <= Names(services);
    assert forall x :: x !in Names(services) && x in st ==> b[x].config == st[x].config;
    if p :| Path(Topo(st), d, p, n) {
      ForeignPath(st, b, services, d, p, n);
    }
    if p :| Path(Topo(b), d, p, n) {
      ForeignPath(st, b, services, d, p, n);
    }
  }

  /** In a dependency-closed state a service can be started exactly when all it depends on exists. */
  lemma StartableClosed(st: State, s: string)
    requires DependencyClosed(st)
    ensures Startable(st, {s}) <==> forall n :: Reaches(Topo(st), s, n) ==> n in st
  {
    forall n
      ensures BootedBy(st, {s}, n) ==> Reaches(Topo(st), s, n)
      ensures Reaches(Topo(st), s, n) ==> BootedBy(st, {s}, n) || n in st
    {
      BootedByClosed(st, {s}, n);
    }
  }

  /** The next service starts exactly when its foreign dependencies are complete. */
  lemma NextStartable(st: State, r: Resolver, services: seq<Service>, i: nat)
    requires OnTheWay(st, r, services, i) && r(services[i]).Some?
    ensures Startable(Configured(st, r, services, i), {services[i].name}) <==>
            Reconcilable(Topo(st), r, services, services[i])
  {
    var s, b := services[i], Configured(st, r, services, i);
    UpdatedSafe(st, r, services, i);
    StartableClosed(b, s.name);
    ConfiguredOthers(st, r, services, i);
    NamesSplit(services, i);
    UpdatedDependencies(st, r, services, i);
    if Reconcilable(Topo(st), r, services, s) {
      forall n | Reaches(Topo(b), s.name, n)
        ensures n in b
      {
        if n != s.name {
          NeedAgrees(st, r, services, i, n);
        }
      }
    }
    if forall n :: Reaches(Topo(b), s.name, n) ==> n in b {
      forall d, n | d in s.dependencies && d !in Names(services) && Reaches(Topo(st), d, n)
        ensures n in Topo(st)
      {
        assert Names(services[..i]) <= Names(services);
        ForeignClosed(Topo(st), services, d, n);
        NeedAgrees(st, r, services, i, n);
      }
    }
  }

  lemma StoppedMore(st: State, r: Resolver, services: seq<Service>, i: nat, n: string)
    requires i < |services|
    ensures Stopped(st, r, services, i + 1, n) <==>
            Stopped(st, r, services, i, n) || (Changed(st, r, services[i]) && Reaches(Topo(st), n, services[i].name))
    ensures Started(st, services, i + 1, n) <==>
            || Started(st, services, i, n)
            || exists d :: d in services[i].dependencies && d !in Names(services) && Reaches(Topo(st), d, n)
  {
  }

  /** Starting the next service completes its step: the manager is `After` one more service. */
  lemma NextState(st: State, r: Resolver, services: seq<Service>, i: nat)
    requires OnTheWay(st, r, services, i)
    ensures Boot(Configured(st, r, services, i), {services[i].name}) == After(st, r, services, i + 1)
  {
    hide After, Configured, Boot;
    var s, b := services[i], Configured(st, r, services, i);
    AfterKeys(st, r, services, i + 1);
    ConfiguredOthers(st, r, services, i);
    BootGrows(b, {s.name});
    forall n | n in b
      ensures Boot(b, {s.name})[n] == After(st, r, services, i + 1)[n]
    {
      NextService(st, r, services, i, n);
    }
  }

  lemma NextService(st: State, r: Resolver, services: seq<Service>, i: nat, n: string)
    requires OnTheWay(st, r, services, i) && n in Configured(st, r, services, i)
    requires n in After(st, r, services, i + 1)
    ensures Boot(Configured(st, r, services, i), {services[i].name})[n] == After(st, r, services, i + 1)[n]
  {
    var s, b, u := services[i], Configured(st, r, services, i), After(st, r, services, i);
    NamesSplit(services, i);
    NotListedTwice(services, i);
    UpdatedDependencies(st, r, services, i);
    ConfiguredOthers(st, r, services, i);
    UpdatedSafe(st, r, services, i);
    if n == s.name {
      NamedSplit(services, i, n);
      ReachesSelf(IdleTopo(b), n);
    } else if n in Names(services[..i]) {
      NamedSplit(services, i, n);
      DoneRunning(st, r, services, i, n);
    } else {
      BootedByClosed(b, {s.name}, n);
      NeedAgrees(st, r, services, i, n);
      StoppedMore(st, r, services, i, n);
      UpdatedRunning(st, r, services, i, n);
      if IsRunning(u, n) {
        CascadeAgrees(st, r, services, i, n);
      }
      if Started(st, services, i, n) {
        StartedIsForeign(st, services, i, n);
        assert s.name in Names(services);
      }
    }
  }
}
