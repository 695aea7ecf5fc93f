/** The value of a Windows service manager at one instant, and the two cascades over it: `Halt`, what
    stopping services does to everything that depends on them, and `Boot`, what starting services does
    to everything they depend on. */
module ServiceState {
  import opened Graph

  /** The part of mgr.Config that the daemon reads and writes. */
  datatype Config = Config(binaryPath: string, description: string, dependencies: seq<string>)

  /** A service, Running or Stopped. */
  datatype Svc = Svc(config: Config, running: bool)

  type State = map<string, Svc>

  predicate IsRunning(st: State, n: string) {
    n in st && st[n].running
  }

  function Topo(st: State): Topology {
    map n | n in st :: st[n].config.dependencies
  }

  /** The dependencies of the running services only. */
  function RunTopo(st: State): Topology {
    map n | n in st && st[n].running :: st[n].config.dependencies
  }

  /** The dependencies of the stopped services only. */
  function IdleTopo(st: State): Topology {
    map n | n in st && !st[n].running :: st[n].config.dependencies
  }

  function SetRunning(st: State, n: string, on: bool): State
    requires n in st
  {
    st[n := st[n].(running := on)]
  }

  /** Every dependency of a running service exists and is running. */
  ghost predicate DependencyClosed(st: State) {
    forall n, d :: IsRunning(st, n) && Edge(Topo(st), n, d) ==> IsRunning(st, d)
  }

  ghost predicate Safe(st: State) {
    Acyclic(Topo(st)) && DependencyClosed(st)
  }

  ghost predicate SameConfigs(st: State, u: State) {
    st.Keys == u.Keys && forall n :: n in st ==> u[n].config == st[n].config
  }

  // Stopping

  /** `n` depends, through running services, on a running member of `ss`. */
  ghost predicate HaltedBy(st: State, ss: set<string>, n: string) {
    exists s :: s in ss && IsRunning(st, s) && Reaches(RunTopo(st), n, s)
  }

  ghost function Halt(st: State, ss: set<string>): State {
    map n | n in st :: if HaltedBy(st, ss, n) then st[n].(running := false) else st[n]
  }

  // Starting

  /** `n` is a member of `ss`, or one of them depends on it through stopped services. */
  ghost predicate BootedBy(st: State, ss: set<string>, n: string) {
    exists s :: s in ss && Reaches(IdleTopo(st), s, n)
  }

  ghost function Boot(st: State, ss: set<string>): State {
    map n | n in st :: if BootedBy(st, ss, n) then st[n].(running := true) else st[n]
  }

  /** Everything that has to run before `ss` can run exists. */
  ghost predicate Startable(st: State, ss: set<string>) {
    forall n :: BootedBy(st, ss, n) ==> n in st
  }

  /** `u` is `st` with some of the services that `s` needs started. */
  ghost predicate PartlyBooted(st: State, u: State, s: string) {
    && SameConfigs(st, u)
    && (forall n :: IsRunning(st, n) ==> IsRunning(u, n))
    && (forall n :: IsRunning(u, n) ==> IsRunning(st, n) || BootedBy(st, {s}, n))
  }

  // The three topologies

  lemma RunTopoWithin(st: State)
    ensures Within(RunTopo(st), Topo(st)) && Within(IdleTopo(st), Topo(st))
  {
  }

  lemma AcyclicParts(st: State)
    requires Acyclic(Topo(st))
    ensures Acyclic(RunTopo(st)) && Acyclic(IdleTopo(st))
  {
    RunTopoWithin(st);
    AcyclicWithin(RunTopo(st), Topo(st));
    AcyclicWithin(IdleTopo(st), Topo(st));
  }

  lemma SameTopo(st: State, u: State)
    requires SameConfigs(st, u)
    ensures Topo(st) == Topo(u)
  {
  }

  /** In a dependency-closed state a running service depends only on running ones, however far. */
  lemma RunningPath(st: State, n: string, p: seq<string>, s: string)
    requires DependencyClosed(st) && IsRunning(st, n) && Path(Topo(st), n, p, s)
    ensures Path(RunTopo(st), n, p, s) && IsRunning(st, s)
    decreases |p|
  {
    if p != [] {
      RunningPath(st, p[0], p[1..], s);
    }
  }

  /** In a dependency-closed state, halting `ss` stops exactly the running services that reach a member
      of `ss` through dependencies of any kind. */
  lemma HaltedByClosed(st: State, ss: set<string>, n: string)
    requires DependencyClosed(st) && IsRunning(st, n)
    ensures HaltedBy(st, ss, n) <==> exists s :: s in ss && Reaches(Topo(st), n, s)
  {
    if s :| s in ss && IsRunning(st, s) && Reaches(RunTopo(st), n, s) {
      RunTopoWithin(st);
      ReachesWithin(RunTopo(st), Topo(st), n, s);
    }
    if s :| s in ss && Reaches(Topo(st), n, s) {
      var p :| Path(Topo(st), n, p, s);
      RunningPath(st, n, p, s);
    }
  }

  /** In a dependency-closed state, booting `ss` starts exactly the services that `ss` transitively
      depends on: whatever lies behind a running service is running already. */
  lemma BootedByClosed(st: State, ss: set<string>, n: string)
    requires DependencyClosed(st)
    ensures BootedBy(st, ss, n) ==> exists s :: s in ss && Reaches(Topo(st), s, n)
    ensures (exists s :: s in ss && Reaches(Topo(st), s, n)) ==> BootedBy(st, ss, n) || IsRunning(st, n)
  {
    if s :| s in ss && Reaches(IdleTopo(st), s, n) {
      RunTopoWithin(st);
      ReachesWithin(IdleTopo(st), Topo(st), s, n);
    }
    if s :| s in ss && Reaches(Topo(st), s, n) {
      var p :| Path(Topo(st), s, p, n);
      IdleOrRunning(st, s, p, n);
    }
  }

  lemma IdleOrRunning(st: State, s: string, p: seq<string>, n: string)
    requires DependencyClosed(st) && Path(Topo(st), s, p, n)
    ensures Reaches(IdleTopo(st), s, n) || IsRunning(st, n)
    decreases |p|
  {
    if p == [] {
      ReachesSelf(IdleTopo(st), s);
    } else if IsRunning(st, s) {
      RunningPath(st, s, p, n);
    } else {
      IdleOrRunning(st, p[0], p[1..], n);
      if Reaches(IdleTopo(st), p[0], n) {
        EdgeThenReaches(IdleTopo(st), s, p[0], n);
      }
    }
  }

  // Halting step by step

  lemma HaltNothing(st: State, ss: set<string>)
    requires forall s :: s in ss ==> !IsRunning(st, s)
    ensures Halt(st, ss) == st
  {
  }

  lemma HaltShrinks(st: State, ss: set<string>)
    ensures SameConfigs(st, Halt(st, ss))
    ensures Within(RunTopo(Halt(st, ss)), RunTopo(st)) && RunTopo(Halt(st, ss)).Keys <= RunTopo(st).Keys
    ensures forall s :: s in ss ==> !IsRunning(Halt(st, ss), s)
  {
    forall s | s in ss
      ensures !IsRunning(Halt(st, ss), s)
    {
      ReachesSelf(RunTopo(st), s);
    }
  }

  /** A walk through running services that starts outside the halted ones stays outside them. */
  lemma PathSurvivesHalt(st: State, ss: set<string>, n: string, p: seq<string>, d: string)
    requires !HaltedBy(st, ss, n) && Path(RunTopo(st), n, p, d)
    ensures !HaltedBy(st, ss, d) && Path(RunTopo(Halt(st, ss)), n, p, d)
    decreases |p|
  {
    if p != [] {
      if s :| s in ss && IsRunning(st, s) && Reaches(RunTopo(st), p[0], s) {
        EdgeThenReaches(RunTopo(st), n, p[0], s);
      }
      PathSurvivesHalt(st, ss, p[0], p[1..], d);
    }
  }

  lemma HaltedByMore(st: State, ss: set<string>, d: string, n: string)
    ensures HaltedBy(st, ss + {d}, n) <==> HaltedBy(st, ss, n) || HaltedBy(Halt(st, ss), {d}, n)
  {
    var h := Halt(st, ss);
    HaltShrinks(st, ss);
    if HaltedBy(st, ss + {d}, n) && !HaltedBy(st, ss, n) {
      var p :| Path(RunTopo(st), n, p, d);
      PathSurvivesHalt(st, ss, n, p, d);
      assert d in {d} && IsRunning(h, d) && Reaches(RunTopo(h), n, d);
    }
    if HaltedBy(h, {d}, n) {
      ReachesWithin(RunTopo(h), RunTopo(st), n, d);
      assert d in ss + {d} && IsRunning(st, d) && Reaches(RunTopo(st), n, d);
    }
    if s :| s in ss && IsRunning(st, s) && Reaches(RunTopo(st), n, s) {
      assert s in ss + {d};
    }
  }

  /** Halting one service after a set of them is halting them all at once, whatever the order. */
  lemma HaltCompose(st: State, ss: set<string>, d: string)
    ensures Halt(Halt(st, ss), {d}) == Halt(st, ss + {d})
  {
    forall n | n in st
      ensures Halt(Halt(st, ss), {d})[n] == Halt(st, ss + {d})[n]
    {
      HaltedByMore(st, ss, d, n);
    }
  }

  /** Once its running dependents are halted, stopping `s` completes its own cascade. */
  lemma HaltFinish(st: State, ds: set<string>, s: string)
    requires IsRunning(st, s) && Acyclic(RunTopo(st))
    requires forall d :: d in ds <==> Edge(Topo(st), d, s)
    ensures IsRunning(Halt(st, ds), s)
    ensures Halt(st, {s}) == SetRunning(Halt(st, ds), s, false)
  {
    assert !HaltedBy(st, ds, s) by {
      if d :| d in ds && IsRunning(st, d) && Reaches(RunTopo(st), s, d) {
        AcyclicEdge(RunTopo(st), d, s);
      }
    }
    forall n | n in st
      ensures HaltedBy(st, {s}, n) <==> n == s || HaltedBy(st, ds, n)
    {
      HaltedThrough(st, ds, s, n);
    }
  }

  lemma HaltedThrough(st: State, ds: set<string>, s: string, n: string)
    requires IsRunning(st, s)
    requires forall d :: d in ds <==> Edge(Topo(st), d, s)
    ensures HaltedBy(st, {s}, n) <==> n == s || HaltedBy(st, ds, n)
  {
    ReachesSelf(RunTopo(st), s);
    if Reaches(RunTopo(st), n, s) && n != s {
      var d := LastStep(RunTopo(st), n, s);
      assert d in ds && IsRunning(st, d) && Reaches(RunTopo(st), n, d);
    }
    if d :| d in ds && IsRunning(st, d) && Reaches(RunTopo(st), n, d) {
      ReachesThenEdge(RunTopo(st), n, d, s);
    }
  }

  /** Stopping a service that nothing running depends on keeps a state dependency-closed. */
  lemma StopKeepsClosed(st: State, s: string)
    requires s in st && DependencyClosed(st)
    requires forall n :: IsRunning(st, n) ==> !Edge(Topo(st), n, s)
    ensures DependencyClosed(SetRunning(st, s, false))
  {
    SameTopo(st, SetRunning(st, s, false));
  }

  // Booting step by step

  lemma BootGrows(st: State, ss: set<string>)
    ensures SameConfigs(st, Boot(st, ss))
    ensures Within(IdleTopo(Boot(st, ss)), IdleTopo(st)) && IdleTopo(Boot(st, ss)).Keys <= IdleTopo(st).Keys
    ensures forall s :: s in ss && s in st ==> IsRunning(Boot(st, ss), s)
  {
    forall s | s in ss && s in st
      ensures IsRunning(Boot(st, ss), s)
    {
      ReachesSelf(IdleTopo(st), s);
    }
  }

  lemma BootNothing(st: State)
    ensures Boot(st, {}) == st && Startable(st, {})
  {
  }

  /** A walk through stopped services either avoids what was booted, or ends in something booted. */
  lemma PathSurvivesBoot(st: State, ss: set<string>, d: string, p: seq<string>, n: string)
    requires Path(IdleTopo(st), d, p, n)
    ensures BootedBy(st, ss, n) || Path(IdleTopo(Boot(st, ss)), d, p, n)
    decreases |p|
  {
    if p != [] {
      PathSurvivesBoot(st, ss, p[0], p[1..], n);
      if s :| s in ss && Reaches(IdleTopo(st), s, d) {
        assert Reaches(IdleTopo(st), d, n);
        ReachesTransitive(IdleTopo(st), s, d, n);
      }
    }
  }

  lemma BootedByMore(st: State, ss: set<string>, d: string, n: string)
    ensures BootedBy(st, ss + {d}, n) <==> BootedBy(st, ss, n) || BootedBy(Boot(st, ss), {d}, n)
  {
    var b := Boot(st, ss);
    BootGrows(st, ss);
    if BootedBy(st, ss + {d}, n) && !BootedBy(st, ss, n) {
      var p :| Path(IdleTopo(st), d, p, n);
      PathSurvivesBoot(st, ss, d, p, n);
      assert d in {d} && Reaches(IdleTopo(b), d, n);
    }
    if BootedBy(b, {d}, n) {
      ReachesWithin(IdleTopo(b), IdleTopo(st), d, n);
      assert d in ss + {d} && Reaches(IdleTopo(st), d, n);
    }
    if s :| s in ss && Reaches(IdleTopo(st), s, n) {
      assert s in ss + {d};
    }
  }

  /** Booting one service after a set of them is booting them all at once. */
  lemma BootCompose(st: State, ss: set<string>, d: string)
    ensures Boot(Boot(st, ss), {d}) == Boot(st, ss + {d})
    ensures Startable(st, ss + {d}) <==> Startable(st, ss) && Startable(Boot(st, ss), {d})
  {
    forall n
      ensures BootedBy(st, ss + {d}, n) <==> BootedBy(st, ss, n) || BootedBy(Boot(st, ss), {d}, n)
    {
      BootedByMore(st, ss, d, n);
    }
  }

  lemma BootRunning(st: State, s: string)
    requires IsRunning(st, s)
    ensures Boot(st, {s}) == st && Startable(st, {s})
  {
    forall n | BootedBy(st, {s}, n)
      ensures n == s
    {
      if n != s {
        var d := FirstStep(IdleTopo(st), s, n);
      }
    }
  }

  lemma BootedThrough(st: State, ds: set<string>, s: string, n: string)
    requires s in st && !st[s].running
    requires forall d :: d in ds <==> Edge(Topo(st), s, d)
    ensures BootedBy(st, {s}, n) <==> n == s || BootedBy(st, ds, n)
  {
    ReachesSelf(IdleTopo(st), s);
    if Reaches(IdleTopo(st), s, n) && n != s {
      var d := FirstStep(IdleTopo(st), s, n);
      assert d in ds && Reaches(IdleTopo(st), d, n);
    }
    if d :| d in ds && Reaches(IdleTopo(st), d, n) {
      EdgeThenReaches(IdleTopo(st), s, d, n);
    }
  }

  /** Once its dependencies are booted, starting `s` completes its own boot. */
  lemma BootFinish(st: State, ds: set<string>, s: string)
    requires s in st && !st[s].running
    requires forall d :: d in ds <==> Edge(Topo(st), s, d)
    ensures Boot(st, {s}) == SetRunning(Boot(st, ds), s, true)
    ensures Startable(st, {s}) <==> Startable(st, ds)
  {
    forall n
      ensures BootedBy(st, {s}, n) <==> n == s || BootedBy(st, ds, n)
    {
      BootedThrough(st, ds, s, n);
    }
  }

  /** Starting a service whose dependencies all run keeps a state dependency-closed. */
  lemma StartKeepsClosed(st: State, s: string)
    requires s in st && DependencyClosed(st)
    requires forall d :: Edge(Topo(st), s, d) ==> IsRunning(st, d)
    ensures DependencyClosed(SetRunning(st, s, true))
  {
    SameTopo(st, SetRunning(st, s, true));
  }

  /** Progress made while starting one dependency is progress towards starting the dependent. */
  lemma PartlyBootedThrough(st: State, ds: set<string>, d: string, u: State, s: string)
    requires s in st && !st[s].running && Edge(Topo(st), s, d)
    requires forall x :: x in ds ==> Edge(Topo(st), s, x)
    requires PartlyBooted(Boot(st, ds), u, d)
    ensures PartlyBooted(st, u, s)
  {
    BootGrows(st, ds);
    forall n | IsRunning(u, n) && !IsRunning(st, n)
      ensures BootedBy(st, {s}, n)
    {
      BootedByMore(st, ds, d, n);
      var x :| x in ds + {d} && Reaches(IdleTopo(st), x, n);
      EdgeThenReaches(IdleTopo(st), s, x, n);
      assert s in {s} && Reaches(IdleTopo(st), s, n);
    }
  }

  // Removing

  /** The state after the services named in `ss` are stopped, with everything running on top of them, and
      deleted. */
  ghost function Remove(st: State, ss: set<string>): State {
    Halt(st, ss) - ss
  }

  lemma RemoveNothing(st: State, s: string)
    ensures Remove(st, {}) == st
    ensures s !in st ==> Remove(st, {s}) == st
  {
    HaltNothing(st, {});
    if s !in st {
      HaltNothing(st, {s});
    }
  }

  /** Deleting stopped services changes nothing for the running ones. */
  lemma HaltBesidesStopped(st: State, gone: set<string>, d: string)
    requires forall s :: s in gone ==> !IsRunning(st, s)
    ensures RunTopo(st - gone) == RunTopo(st)
    ensures Halt(st - gone, {d}) == Halt(st, {d}) - gone
  {
    assert RunTopo(st - gone) == RunTopo(st);
    forall n | n in st && n !in gone
      ensures HaltedBy(st - gone, {d}, n) <==> HaltedBy(st, {d}, n)
    {
    }
  }

  /** Removing services one after the other, in any order, is removing them all at once. */
  lemma RemoveCompose(st: State, ss: set<string>, d: string)
    ensures Remove(Remove(st, ss), {d}) == Remove(st, ss + {d})
  {
    HaltShrinks(st, ss);
    HaltBesidesStopped(Halt(st, ss), ss, d);
    HaltCompose(st, ss, d);
  }

  lemma RemoveKeepsRunTopo(st: State, ss: set<string>)
    ensures Within(RunTopo(Remove(st, ss)), RunTopo(st))
  {
    HaltShrinks(st, ss);
  }

  /** What is left after a removal from a dependency-closed state: exactly the other names, each with its
      configuration, still running unless it depended, however far, on a removed service. */
  lemma RemoveLeaves(st: State, ss: set<string>, n: string)
    requires DependencyClosed(st)
    ensures n in Remove(st, ss) <==> n in st && n !in ss
    ensures n in Remove(st, ss) ==> Remove(st, ss)[n].config == st[n].config
    ensures IsRunning(Remove(st, ss), n) <==>
            IsRunning(st, n) && n !in ss && forall s :: s in ss ==> !Reaches(Topo(st), n, s)
  {
    HaltShrinks(st, ss);
    if IsRunning(st, n) {
      HaltedByClosed(st, ss, n);
    }
  }

  lemma DeleteKeepsSafe(st: State, s: string)
    requires Safe(st) && s in st && !IsRunning(st, s)
    ensures Safe(st - {s})
  {
    assert Within(Topo(st - {s}), Topo(st));
    AcyclicWithin(Topo(st - {s}), Topo(st));
  }
}
