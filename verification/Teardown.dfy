/** Installing services and removing them again. */
module Teardown {
  import opened Graph
  import opened ServiceState
  import opened ServiceSpec
  import opened Reconcile
  import opened ServiceController
  import opened Cleanup

  /** `st` with the services started that the list needs but does not contain. */
  ghost function WithNeeded(st: State, services: seq<Service>): State {
    map n | n in st :: st[n].(running := st[n].running || Started(st, services, |services|, n))
  }

  lemma InstalledTagged(st: State, r: Resolver, services: seq<Service>)
    requires Names(services) !! st.Keys && TaggedNames(st) == {}
    ensures TaggedNames(After(st, r, services, |services|)) == Names(services)
  {
    var u := After(st, r, services, |services|);
    assert services[..|services|] == services;
    forall n | n in u
      ensures Tagged(u[n].config) <==> n in Names(services)
    {
      if n in Names(services) {
        var s := Named(services, n);
        assert MANAGED_TAG <= MANAGED_TAG + " " + s.name;
      } else {
        assert n !in TaggedNames(st);
      }
    }
  }

  /** What still runs beside the installed services does not depend on them. */
  lemma OthersIndependent(st: State, r: Resolver, services: seq<Service>, n: string, l: string)
    requires Safe(st) && WellOrdered(Topo(st), services) && Names(services) !! st.Keys
    requires n in st && IsRunning(After(st, r, services, |services|), n) && l in Names(services)
    ensures !Reaches(Topo(After(st, r, services, |services|)), n, l)
  {
    var k := |services|;
    var u := After(st, r, services, k);
    assert services[..k] == services;
    assert !Stopped(st, r, services, k, n);
    if p :| Path(Topo(u), n, p, l) {
      if Started(st, services, k, n) {
        StartedIsForeign(st, services, k, n);
        AfterKeys(st, r, services, k);
        ForeignPath(st, u, services, n, p, l);
        assert Reaches(Topo(st), n, l);
      } else {
        UntouchedPath(st, r, services, k, n, p, l);
        RunningPath(st, n, p, l);
      }
    }
  }

  /** Where none of the services existed and nothing was tagged, reconciling the list and then removing all
      tagged services, listed or not, leads back to where it started, except that foreign services that
      had to be started for the list keep running; without foreign dependencies nothing is left at all. */
  lemma InstallThenRemove(st: State, r: Resolver, services: seq<Service>)
    requires Safe(st) && WellOrdered(Topo(st), services)
    requires forall j :: 0 <= j < |services| ==> Reconcilable(Topo(st), r, services, services[j])
    requires Names(services) !! st.Keys && TaggedNames(st) == {}
    ensures var u := After(st, r, services, |services|);
            Remove(u, TaggedNames(u)) == WithNeeded(st, services)
    ensures (forall s, d :: s in services && d in s.dependencies ==> d in Names(services)) ==>
              WithNeeded(st, services) == st
  {
    hide After, Remove, Safe, WithNeeded, TaggedNames, Reconcilable, WellOrdered;
    var k := |services|;
    var u := After(st, r, services, k);
    AfterSafe(st, r, services, k);
    InstalledTagged(st, r, services);
    RemoveNames(u, Names(services), "");
    assert services[..k] == services;
    AfterKeys(st, r, services, k);
    NeededKeys(st, services);
    forall n | n in st
      ensures Remove(u, Names(services))[n] == WithNeeded(st, services)[n]
    {
      Survivor(st, r, services, n);
    }
  }

  lemma NeededKeys(st: State, services: seq<Service>)
    ensures WithNeeded(st, services).Keys == st.Keys
    ensures (forall s, d :: s in services && d in s.dependencies ==> d in Names(services)) ==>
              WithNeeded(st, services) == st
  {
  }

  lemma Survivor(st: State, r: Resolver, services: seq<Service>, n: string)
    requires Safe(st) && WellOrdered(Topo(st), services) && Safe(After(st, r, services, |services|))
    requires Names(services) !! st.Keys && n in st && n in Remove(After(st, r, services, |services|), Names(services))
    ensures Remove(After(st, r, services, |services|), Names(services))[n] == WithNeeded(st, services)[n]
  {
    var u := After(st, r, services, |services|);
    assert services[..|services|] == services;
    RemoveLeaves(u, Names(services), n);
    assert !Stopped(st, r, services, |services|, n);
    if IsRunning(u, n) {
      forall l | l in Names(services)
        ensures !Reaches(Topo(u), n, l)
      {
        OthersIndependent(st, r, services, n, l);
      }
    }
  }
}
