/** The service manager: services as objects whose configuration and status change in place, and the
    manager that opens, creates, stops and deletes them. `View` is the manager's value; `history` keeps
    the value after every single change, so that contracts can speak about every intermediate state. */
module ServiceManager {
  import opened Basics
  import opened Graph
  import opened ServiceState

  /** What every state change inside one start or one stop keeps: no dependency list changes, and a
      dependency-closed state stays dependency-closed. */
  ghost predicate Quiet(st: State, u: State) {
    Topo(u) == Topo(st) && (DependencyClosed(st) ==> DependencyClosed(u))
  }

  ghost predicate Extends(h0: seq<State>, h1: seq<State>) {
    |h0| <= |h1| && h1[..|h0|] == h0
  }

  /** `h1` continues `h0` by changes that are quiet with respect to `st`. */
  ghost predicate QuietRun(st: State, h0: seq<State>, h1: seq<State>) {
    Extends(h0, h1) && forall i :: |h0| <= i < |h1| ==> Quiet(st, h1[i])
  }

  lemma QuietRunJoin(st: State, now: State, h0: seq<State>, h1: seq<State>, h2: seq<State>)
    requires Quiet(st, now) && QuietRun(st, h0, h1) && QuietRun(now, h1, h2)
    ensures QuietRun(st, h0, h2)
    ensures forall u :: Quiet(now, u) ==> Quiet(st, u)
  {
    assert h2[..|h0|] == h2[..|h1|][..|h0|];
    forall i | |h0| <= i < |h2|
      ensures Quiet(st, h2[i])
    {
      if i < |h1| {
        assert h2[i] == h2[..|h1|][i];
      }
    }
  }

  /** `h1` continues `h0` by changes that leave the manager safe. */
  ghost predicate SafeRun(h0: seq<State>, h1: seq<State>) {
    Extends(h0, h1) && forall i :: |h0| <= i < |h1| ==> Safe(h1[i])
  }

  lemma SafeAtRest(st: State, h: seq<State>)
    ensures SafeRun(h, h)
  {
  }

  lemma QuietIsSafe(st: State, u: State, h0: seq<State>, h1: seq<State>)
    requires Safe(st)
    ensures Quiet(st, u) ==> Safe(u)
    ensures QuietRun(st, h0, h1) ==> SafeRun(h0, h1)
  {
  }

  lemma SafeRunAppend(h0: seq<State>, h1: seq<State>, u: State)
    requires SafeRun(h0, h1) && Safe(u)
    ensures SafeRun(h0, h1 + [u])
  {
  }

  lemma SafeRunJoin(h0: seq<State>, h1: seq<State>, h2: seq<State>)
    requires SafeRun(h0, h1) && SafeRun(h1, h2)
    ensures SafeRun(h0, h2)
  {
    assert h2[..|h0|] == h2[..|h1|][..|h0|];
    forall i | |h0| <= i < |h2|
      ensures Safe(h2[i])
    {
      if i < |h1| {
        assert h2[i] == h2[..|h1|][i];
      }
    }
  }

  lemma QuietAtRest(st: State, h: seq<State>, s: string)
    ensures Quiet(st, st) && QuietRun(st, h, h) && PartlyBooted(st, st, s)
  {
  }

  lemma QuietRunAppend(st: State, h0: seq<State>, h1: seq<State>, u: State)
    requires QuietRun(st, h0, h1) && Quiet(st, u)
    ensures QuietRun(st, h0, h1 + [u])
  {
  }

  /** The first `i` names as a set. */
  ghost function Seen(names: seq<string>, i: nat): set<string>
    requires i <= |names|
  {
    if i == 0 then {} else Seen(names, i - 1) + {names[i - 1]}
  }

  lemma SeenNext(names: seq<string>, i: nat)
    requires i < |names|
    ensures Seen(names, i + 1) == Seen(names, i) + {names[i]}
  {
  }

  lemma SeenNothing(names: seq<string>)
    ensures Seen(names, 0) == {}
  {
  }

  lemma SeenMembers(names: seq<string>, i: nat)
    requires i <= |names|
    ensures forall d :: d in Seen(names, i) <==> d in names[..i]
  {
    if i > 0 {
      SeenMembers(names, i - 1);
      assert names[..i] == names[..i - 1] + [names[i - 1]];
    }
  }

  lemma SeenAll(names: seq<string>)
    ensures forall d :: d in Seen(names, |names|) <==> d in names
  {
    SeenMembers(names, |names|);
    assert names[..|names|] == names;
  }

  /** The services that stopping `s` has to stop. */
  ghost function Cascade(st: State, s: string): set<string> {
    if IsRunning(st, s) then Ancestors(RunTopo(st), s) else {}
  }

  class FakeService {
    const name: string
    const serviceList: Manager
    var config: Config
    var running: bool

    constructor (name: string, config: Config, running: bool, serviceList: Manager)
      ensures this.name == name && this.serviceList == serviceList
      ensures this.config == config && this.running == running
    {
      this.name, this.serviceList, this.config, this.running := name, serviceList, config, running;
    }

    ghost predicate Listed()
      reads serviceList, serviceList.svcs.Values
    {
      serviceList.Valid() && name in serviceList.svcs && serviceList.svcs[name] == this
    }

    method SetStatus(on: bool)
      requires Listed()
      modifies this`running, serviceList`history
      ensures Listed()
      ensures serviceList.View() == SetRunning(old(serviceList.View()), name, on)
      ensures serviceList.history == old(serviceList.history) + [serviceList.View()]
    {
      ghost var before := serviceList.View();
      running := on;
      assert serviceList.View() == SetRunning(before, name, on);
      serviceList.history := serviceList.history + [serviceList.View()];
    }

    /** Starts the service after the dependencies that are not running. It terminates because the stopped
        services form no cycle. It succeeds exactly when everything the service needs exists, and then
        starts exactly that; when it fails, it has started only some of it. */
    method Start() returns (ok: bool)
      requires Listed()
      requires Acyclic(IdleTopo(serviceList.View()))
      modifies serviceList.svcs.Values, serviceList`history
      ensures Listed()
      ensures ok <==> !old(running) && Startable(old(serviceList.View()), {name})
      ensures ok ==> serviceList.View() == Boot(old(serviceList.View()), {name})
      ensures !ok ==> PartlyBooted(old(serviceList.View()), serviceList.View(), name)
      ensures Quiet(old(serviceList.View()), serviceList.View())
      ensures QuietRun(old(serviceList.View()), old(serviceList.history), serviceList.history)
      decreases Descendants(IdleTopo(serviceList.View()), name)
    {
      hide Boot, Startable, PartlyBooted, Quiet, QuietRun, Acyclic, Descendants, IdleTopo;
      ghost var st := serviceList.View();
      QuietAtRest(st, serviceList.history, name);
      if running {
        return false;
      }
      BootNothing(st);
      var dependencies := config.dependencies;
      for i := 0 to |dependencies|
        invariant Listed()
        invariant serviceList.View() == Boot(st, Seen(dependencies, i))
        invariant Startable(st, Seen(dependencies, i)) && Quiet(st, Boot(st, Seen(dependencies, i)))
        invariant QuietRun(st, old(serviceList.history), serviceList.history)
      {
        var dependency := dependencies[i];
        ghost var done := Seen(dependencies, i);
        SeenMembers(dependencies, i);
        StartStep(st, done, dependency, name);
        if dependency !in serviceList.svcs {
          return false;
        }
        var service := serviceList.svcs[dependency];
        if !service.running {
          ghost var h := serviceList.history;
          ok := service.Start();
          QuietRunJoin(st, Boot(st, done), old(serviceList.history), h, serviceList.history);
          if !ok {
            return false;
          }
        }
        assert Seen(dependencies, i + 1) == done + {dependency};
        assert serviceList.View() == Boot(st, done + {dependency});
      }
      SeenAll(dependencies);
      StartLast(st, Seen(dependencies, |dependencies|), name);
      QuietRunAppend(st, old(serviceList.history), serviceList.history, Boot(st, {name}));
      SetStatus(true);
      return true;
    }

    /** The Stop control: refused when the service is stopped or a running service depends on it. */
    method Control() returns (ok: bool)
      requires Listed()
      modifies this, serviceList`history
      ensures Listed()
      ensures ok <==> old(running) && forall n :: IsRunning(old(serviceList.View()), n) ==>
                                                    !Edge(Topo(old(serviceList.View())), n, name)
      ensures serviceList.View() ==
              if ok then SetRunning(old(serviceList.View()), name, false) else old(serviceList.View())
      ensures serviceList.history == old(serviceList.history) + if ok then [serviceList.View()] else []
    {
      if !running {
        return false;
      }
      var existing := serviceList.ListServiceNames();
      for i := 0 to |existing|
        invariant forall k :: 0 <= k < i && serviceList.svcs[existing[k]].running ==>
                                name !in serviceList.svcs[existing[k]].config.dependencies
      {
        var service := serviceList.svcs[existing[i]];
        for j := 0 to |service.config.dependencies|
          invariant service.running ==> name !in service.config.dependencies[..j]
        {
          if service.config.dependencies[j] == name && service.running {
            assert IsRunning(serviceList.View(), existing[i]);
            assert Edge(Topo(serviceList.View()), existing[i], name);
            return false;
          }
        }
      }
      SetStatus(false);
      return true;
    }

    method UpdateConfig(config: Config)
      requires Listed()
      modifies this, serviceList`history
      ensures Listed()
      ensures serviceList.View() == old(serviceList.View())[name := Svc(config, old(running))]
      ensures serviceList.history == old(serviceList.history) + [serviceList.View()]
    {
      ghost var before := serviceList.View();
      this.config := config;
      assert serviceList.View() == before[name := Svc(config, running)];
      serviceList.history := serviceList.history + [serviceList.View()];
    }

    method ListDependentServices() returns (dependents: seq<string>)
      requires Listed()
      ensures forall d :: d in dependents <==> d != name && Edge(Topo(serviceList.View()), d, name)
    {
      dependents := [];
      var existing := serviceList.ListServiceNames();
      for i := 0 to |existing|
        invariant forall d :: d in dependents <==>
                                d in existing[..i] && d != name && Edge(Topo(serviceList.View()), d, name)
      {
        if existing[i] == name {
          continue;
        }
        var service := serviceList.svcs[existing[i]];
        ghost var before := dependents;
        for j := 0 to |service.config.dependencies|
          invariant forall d :: d in dependents <==>
                                  d in before || (d == existing[i] && name in service.config.dependencies[..j])
        {
          if service.config.dependencies[j] == name {
            dependents := dependents + [existing[i]];
          }
        }
      }
      assert existing[..|existing|] == existing;
    }
  }

  class Manager {
    var svcs: map<string, FakeService>
    ghost var history: seq<State>

    constructor ()
      ensures Valid() && View() == map[] && history == []
    {
      svcs, history := map[], [];
    }

    ghost predicate Valid()
      reads this, svcs.Values
    {
      forall n :: n in svcs ==> svcs[n].name == n && svcs[n].serviceList == this
    }

    ghost function View(): State
      reads this, svcs.Values
    {
      map n | n in svcs :: Svc(svcs[n].config, svcs[n].running)
    }

    /** The names in the order in which the map happens to be traversed. */
    method ListServiceNames() returns (names: seq<string>)
      ensures forall n :: n in names <==> n in svcs
      ensures forall i, j :: 0 <= i < j < |names| ==> names[i] != names[j]
    {
      names := [];
      var rest := svcs.Keys;
      while rest != {}
        invariant rest <= svcs.Keys
        invariant forall n :: n in names <==> n in svcs && n !in rest
        invariant forall i, j :: 0 <= i < j < |names| ==> names[i] != names[j]
      {
        var n :| n in rest;
        names := names + [n];
        rest := rest - {n};
      }
    }

    method GetServices() returns (names: set<string>)
      ensures names == svcs.Keys
    {
      names := {};
      var listed := ListServiceNames();
      for i := 0 to |listed|
        invariant names == set n | n in listed[..i]
      {
        names := names + {listed[i]};
      }
      assert listed[..|listed|] == listed;
    }

    method OpenService(name: string) returns (service: Option<FakeService>)
      ensures service.Some? <==> name in svcs
      ensures service.Some? ==> service.value == svcs[name]
    {
      return if name in svcs then Some(svcs[name]) else None;
    }

    /** Creates a stopped service; refused when the name is taken. */
    method CreateService(name: string, exepath: string, config: Config) returns (service: Option<FakeService>)
      requires Valid()
      modifies this
      ensures Valid()
      ensures service.None? <==> name in old(svcs)
      ensures service.None? ==> svcs == old(svcs) && View() == old(View()) && history == old(history)
      ensures service.Some? ==> service.value.Listed() && service.value.name == name && service.value.serviceList == this
      ensures service.Some? ==> fresh(service.value)
      ensures service.Some? ==> svcs == old(svcs)[name := service.value]
      ensures service.Some? ==> View() == old(View())[name := Svc(config.(binaryPath := exepath), false)]
      ensures service.Some? ==> history == old(history) + [View()]
    {
      if name in svcs {
        return None;
      }
      var s := new FakeService(name, config.(binaryPath := exepath), false, this);
      ghost var before := View();
      svcs := svcs[name := s];
      assert View() == before[name := Svc(config.(binaryPath := exepath), false)];
      history := history + [View()];
      return Some(s);
    }

    /** Stops the service after every running service that depends on it, directly or not. It terminates
        because the running services form no cycle, is never refused a stop, stops exactly the running
        services that depend on it through running ones, and changes no configuration. */
    method EnsureStopped(service: FakeService) returns (ok: bool)
      requires service.serviceList == this && service.Listed()
      requires Acyclic(RunTopo(View()))
      modifies svcs.Values, this`history
      ensures service.Listed()
      ensures ok
      ensures View() == Halt(old(View()), {service.name})
      ensures Quiet(old(View()), View())
      ensures QuietRun(old(View()), old(history), history)
      ensures !old(service.running) ==> history == old(history)
      decreases Cascade(View(), service.name)
    {
      hide Halt, Quiet, QuietRun, Acyclic, Cascade, Topo, RunTopo, Edge, Seen;
      ghost var st := View();
      QuietAtRest(st, history, service.name);
      HaltNothing(st, {});
      if !service.running {
        HaltNothing(st, {service.name});
        return true;
      }
      var dependents := service.ListDependentServices();
      SeenNothing(dependents);
      for i := 0 to |dependents|
        invariant service.Listed()
        invariant View() == Halt(st, Seen(dependents, i)) && Quiet(st, Halt(st, Seen(dependents, i)))
        invariant QuietRun(st, old(history), history)
      {
        var name := dependents[i];
        ghost var done := Seen(dependents, i);
        StopStep(st, done, name, service.name);
        var dependent := OpenService(name);
        if dependent.None? {
          assert false;  // a listed dependent can be opened
        }
        ghost var h := history;
        ok := EnsureStopped(dependent.value);
        QuietRunJoin(st, Halt(st, done), old(history), h, history);
        SeenNext(dependents, i);
        assert View() == Halt(st, done + {name});
      }
      SeenAll(dependents);
      StopLast(st, Seen(dependents, |dependents|), service.name);
      QuietRunAppend(st, old(history), history, Halt(st, {service.name}));
      ok := service.Control();
    }

    /** Brings the service to the wanted state; a service that is there already is left alone. */
    method EnsureServiceState(service: FakeService, running: bool) returns (ok: bool)
      requires service.serviceList == this && service.Listed()
      requires if running then Acyclic(IdleTopo(View())) else Acyclic(RunTopo(View()))
      modifies svcs.Values, this`history
      ensures service.Listed()
      ensures ok <==> running ==> Startable(old(View()), {service.name})
      ensures ok ==> View() == if running then Boot(old(View()), {service.name}) else Halt(old(View()), {service.name})
      ensures !ok ==> PartlyBooted(old(View()), View(), service.name)
      ensures QuietRun(old(View()), old(history), history) && Quiet(old(View()), View())
      ensures old(service.running) == running ==> View() == old(View()) && history == old(history)
    {
      hide Boot, Startable, PartlyBooted, Halt, Quiet, QuietRun, Acyclic, RunTopo, IdleTopo;
      QuietAtRest(View(), history, service.name);
      if service.running == running {
        if running {
          BootRunning(View(), service.name);
        } else {
          HaltNothing(View(), {service.name});
        }
        return true;
      }
      if running {
        ok := service.Start();
      } else {
        ok := EnsureStopped(service);
      }
    }

    /** Stops and deletes the service with everything running on top of it stopped; nothing to do when it
        does not exist. It never fails, and keeps a safe manager safe after each change. */
    method DeleteService(name: string) returns (ok: bool)
      requires Valid() && Acyclic(RunTopo(View()))
      modifies this, svcs.Values
      ensures Valid() && svcs == old(svcs) - {name}
      ensures ok && View() == Remove(old(View()), {name})
      ensures Safe(old(View())) ==> Safe(View()) && SafeRun(old(history), history)
    {
      hide Boot, Halt, Quiet, QuietRun, Acyclic, RunTopo, Safe, SafeRun;
      ghost var st := View();
      var service := OpenService(name);
      SafeAtRest(st, history);
      if service.None? {
        RemoveNothing(st, name);
        return true;
      }
      ok := EnsureServiceState(service.value, false);
      ghost var h, now := history, View();
      HaltShrinks(st, {name});
      assert Safe(st) ==> Safe(now - {name}) && SafeRun(old(history), h + [now - {name}]) by {
        if Safe(st) {
          QuietIsSafe(st, now, old(history), h);
          DeleteKeepsSafe(now, name);
          SafeRunAppend(old(history), h, now - {name});
        }
      }
      Erase(name);
    }

    /** Drops the entry from the service list. */
    method Erase(name: string)
      requires Valid() && name in svcs
      modifies this
      ensures Valid() && svcs == old(svcs) - {name}
      ensures View() == old(View()) - {name}
      ensures history == old(history) + [View()]
    {
      ghost var now := View();
      svcs := svcs - {name};
      assert View() == now - {name};
      history := history + [View()];
    }
  }

  // The loops, one iteration at a time

  lemma BootSubset(st: State, ss: set<string>, tt: set<string>)
    requires ss <= tt
    ensures Startable(st, tt) ==> Startable(st, ss)
  {
    forall n | BootedBy(st, ss, n)
      ensures BootedBy(st, tt, n)
    {
    }
  }

  lemma PartlyBootedDone(st: State, ds: set<string>, s: string)
    requires s in st && !st[s].running
    requires forall d :: d in ds ==> Edge(Topo(st), s, d)
    ensures PartlyBooted(st, Boot(st, ds), s)
  {
    forall n | IsRunning(Boot(st, ds), n) && !IsRunning(st, n)
      ensures BootedBy(st, {s}, n)
    {
      var d :| d in ds && Reaches(IdleTopo(st), d, n);
      EdgeThenReaches(IdleTopo(st), s, d, n);
      assert s in {s} && Reaches(IdleTopo(st), s, n);
    }
  }

  /** One iteration of the loop in `Start`. */
  lemma StartStep(st: State, done: set<string>, d: string, s: string)
    requires s in st && !st[s].running && Acyclic(IdleTopo(st))
    requires forall x :: x in done ==> Edge(Topo(st), s, x)
    requires Edge(Topo(st), s, d)
    requires Startable(st, done)
    ensures var now := Boot(st, done);
            && Topo(now) == Topo(st)
            && (d !in now ==> !Startable(st, {s}) && PartlyBooted(st, now, s))
            && (IsRunning(now, d) ==> now == Boot(st, done + {d}) && Startable(st, done + {d}))
            && (d in now && !now[d].running ==>
                  && Acyclic(IdleTopo(now))
                  && Descendants(IdleTopo(now), d) < Descendants(IdleTopo(st), s))
            && (Startable(now, {d}) ==> Startable(st, done + {d}))
            && Boot(now, {d}) == Boot(st, done + {d})
            && (!Startable(now, {d}) ==> !Startable(st, {s}))
            && (forall u :: PartlyBooted(now, u, d) ==> PartlyBooted(st, u, s))
  {
    hide Boot, Acyclic, Descendants, PartlyBooted;
    var now := Boot(st, done);
    var all := set x | x in st[s].config.dependencies;
    BootCompose(st, done, d);
    BootGrows(st, done);
    SameTopo(st, now);
    BootFinish(st, all, s);
    BootSubset(st, done + {d}, all);
    PartlyBootedDone(st, done, s);
    if d !in now {
      ReachesSelf(IdleTopo(now), d);
      assert d in {d} && BootedBy(now, {d}, d);
    } else if now[d].running {
      BootRunning(now, d);
    } else {
      AcyclicWithin(IdleTopo(now), IdleTopo(st));
      DescendantsShrink(IdleTopo(st), s, d);
      DescendantsWithin(IdleTopo(now), IdleTopo(st), d);
    }
    forall u | PartlyBooted(now, u, d)
      ensures PartlyBooted(st, u, s)
    {
      PartlyBootedThrough(st, done, d, u, s);
    }
  }

  /** The last assignment of `Start`. */
  lemma StartLast(st: State, ds: set<string>, s: string)
    requires s in st && !st[s].running
    requires forall d :: d in ds <==> Edge(Topo(st), s, d)
    requires Startable(st, ds) && Quiet(st, Boot(st, ds))
    ensures Boot(st, {s}) == SetRunning(Boot(st, ds), s, true)
    ensures Startable(st, {s}) && Quiet(st, Boot(st, {s}))
  {
    var now := Boot(st, ds);
    BootFinish(st, ds, s);
    BootGrows(st, ds);
    SameTopo(now, SetRunning(now, s, true));
    if DependencyClosed(st) {
      forall d | Edge(Topo(now), s, d)
        ensures IsRunning(now, d)
      {
        ReachesSelf(IdleTopo(st), d);
        assert BootedBy(st, ds, d);
      }
      StartKeepsClosed(now, s);
    }
  }

  /** One iteration of the loop in `EnsureStopped`. */
  lemma StopStep(st: State, done: set<string>, d: string, s: string)
    requires IsRunning(st, s) && Acyclic(RunTopo(st)) && Edge(Topo(st), d, s)
    ensures var now := Halt(st, done);
            && d in now && Topo(now) == Topo(st)
            && Acyclic(RunTopo(now))
            && Halt(now, {d}) == Halt(st, done + {d})
            && (Quiet(st, now) && Quiet(now, Halt(now, {d})) ==> Quiet(st, Halt(st, done + {d})))
            && Cascade(now, d) < Cascade(st, s)
  {
    var now := Halt(st, done);
    HaltShrinks(st, done);
    HaltCompose(st, done, d);
    SameTopo(st, now);
    AcyclicWithin(RunTopo(now), RunTopo(st));
    ReachesSelf(RunTopo(st), s);
    assert s in Cascade(st, s);
    if now[d].running {
      AncestorsShrink(RunTopo(st), d, s);
      AncestorsWithin(RunTopo(now), RunTopo(st), d);
    }
  }

  /** The Stop control at the end of `EnsureStopped` is not refused. */
  lemma StopLast(st: State, ds: set<string>, s: string)
    requires IsRunning(st, s) && Acyclic(RunTopo(st))
    requires forall d :: d in ds <==> d != s && Edge(Topo(st), d, s)
    requires Quiet(st, Halt(st, ds))
    ensures var now := Halt(st, ds);
            && IsRunning(now, s)
            && (forall n :: IsRunning(now, n) ==> !Edge(Topo(now), n, s))
            && SetRunning(now, s, false) == Halt(st, {s})
            && Quiet(st, Halt(st, {s}))
  {
    var now := Halt(st, ds);
    HaltShrinks(st, ds);
    SameTopo(st, now);
    assert !Edge(Topo(st), s, s) by {
      if Edge(RunTopo(st), s, s) {
        AcyclicEdge(RunTopo(st), s, s);
        ReachesSelf(RunTopo(st), s);
      }
    }
    HaltFinish(st, ds, s);
    SameTopo(now, SetRunning(now, s, false));
    if DependencyClosed(st) {
      StopKeepsClosed(now, s);
    }
  }
}
