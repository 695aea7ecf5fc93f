/** When the cycle check as written is right. */
module CycleVerdict {
  import opened Graph
  import opened CycleCheck

  /** The managed services, each once, in some order. */
  ghost predicate Orders(t: Topology, names: seq<string>) {
    Lists(t, names) && forall i, j :: 0 <= i < j < |names| ==> names[i] != names[j]
  }

  /** The check as written gives the right verdict in every order of the list. */
  ghost predicate AlwaysRight(t: Topology) {
    forall names :: Orders(t, names) ==> (Accepts(t, map[], names) <==> Acyclic(t))
  }

  /** No service has two managed dependencies. */
  ghost predicate OneDependency(t: Topology) {
    forall n, d, e :: Edge(t, n, d) && d in t && Edge(t, n, e) && e in t ==> d == e
  }

  /** No managed dependency of a service has a managed dependency itself. */
  ghost predicate NoChain(t: Topology) {
    forall u, v, w :: Edge(t, u, v) && Edge(t, v, w) ==> w !in t
  }

  /** The managed dependencies of every service are listed before it. */
  ghost predicate DependenciesFirst(t: Topology, names: seq<string>) {
    forall i, d :: 0 <= i < |names| && Edge(t, names[i], d) && d in t ==> d in names[..i]
  }

  /** The same, one service after the other, when those in `seen` have been listed before. */
  ghost predicate InOrder(t: Topology, seen: set<string>, names: seq<string>)
    decreases |names|
  {
    names == [] ||
    ((forall d :: Edge(t, names[0], d) && d in t ==> d in seen) && InOrder(t, seen + {names[0]}, names[1..]))
  }

  lemma {:induction false} FirstInOrder(t: Topology, seen: set<string>, names: seq<string>)
    requires forall i, d :: 0 <= i < |names| && Edge(t, names[i], d) && d in t ==> d in seen || d in names[..i]
    ensures InOrder(t, seen, names)
    decreases |names|
  {
    if names != [] {
      var n, rest := names[0], names[1..];
      forall i, d | 0 <= i < |rest| && Edge(t, rest[i], d) && d in t
        ensures d in seen + {n} || d in rest[..i]
      {
        assert rest[i] == names[i + 1];
        assert names[..i + 1] == [n] + rest[..i];
      }
      forall d | Edge(t, n, d) && d in t
        ensures d in seen
      {
        assert n == names[0] && names[..0] == [];
      }
      FirstInOrder(t, seen + {n}, rest);
    }
  }

  lemma {:induction false} InOrderMore(t: Topology, seen: set<string>, more: set<string>, names: seq<string>)
    requires InOrder(t, seen, names) && seen <= more
    ensures InOrder(t, more, names)
    decreases |names|
  {
    if names != [] {
      InOrderMore(t, seen + {names[0]}, more + {names[0]}, names[1..]);
    }
  }

  // Scanning dependencies that have all been seen

  lemma {:induction false} ScanSeen(t: Topology, m: Marks, n: string, ds: seq<string>)
    requires forall d :: d in ds && d in t ==> d in m
    ensures Scan(t, m, n, ds).cycle <==> exists d :: d in ds && OnPath(m, d)
    ensures !Scan(t, m, n, ds).cycle ==> Scan(t, m, n, ds).marks == m[n := false]
    decreases |ds|
  {
    if ds != [] && !OnPath(m, ds[0]) {
      ScanSeen(t, m, n, ds[1..]);
      assert forall d :: d in ds <==> d == ds[0] || d in ds[1..];
    }
  }

  lemma VisitSeen(t: Topology, m: Marks, n: string)
    requires n in t && n !in m
    requires forall d :: d in t[n] && d in t ==> d in m
    requires forall x :: x in m ==> x in t
    ensures Visit(t, m, n).cycle <==> exists d :: d in t[n] && OnPath(m, d)
    ensures !Visit(t, m, n).cycle ==> Visit(t, m, n).marks == m[n := false]
  {
    ScanSeen(t, m[n := true], n, t[n]);
    forall d | d in t[n]
      ensures OnPath(m[n := true], d) <==> OnPath(m, d)
    {
    }
  }

  /** A list in which every service comes after its managed dependencies is accepted, and rightly so. */
  lemma DependenciesFirstAccepted(t: Topology, names: seq<string>)
    requires Lists(t, names) && DependenciesFirst(t, names)
    ensures Accepts(t, map[], names) && Acyclic(t)
  {
    FirstInOrder(t, {}, names);
    var none: Marks := map[];
    assert none.Keys == {};
    AcceptsSorted(t, none, names);
    InOrderAcyclic(t, map[], names);
  }

  /** `e` is the acyclic part of `t` listed so far. */
  lemma {:induction false} InOrderAcyclic(t: Topology, e: Topology, names: seq<string>)
    requires Acyclic(e) && (forall n :: n in e ==> n in t && e[n] == t[n])
    requires forall n, d :: Edge(e, n, d) && d in t ==> d in e
    requires forall n :: n in names ==> n in t
    requires forall n :: n in t ==> n in e || n in names
    requires InOrder(t, e.Keys, names)
    ensures Acyclic(t)
    decreases |names|
  {
    if names == [] {
      assert e == t;
    } else {
      var n := names[0];
      if n in e {
        assert e.Keys + {n} == e.Keys;
        InOrderAcyclic(t, e, names[1..]);
      } else {
        var m: Marks := map x | x in t :: true;
        AddLooked(t, m, e, n, t[n]);
        assert e[n := t[n]].Keys == e.Keys + {n};
        InOrderAcyclic(t, e[n := t[n]], names[1..]);
      }
    }
  }

  lemma {:induction false} AcceptsSorted(t: Topology, m: Marks, names: seq<string>)
    requires forall n :: n in names ==> n in t
    requires forall n :: n in m ==> n in t && !m[n]
    requires InOrder(t, m.Keys, names)
    ensures Accepts(t, m, names)
    decreases |names|
  {
    if names != [] {
      var n := names[0];
      if n in m {
        assert m.Keys + {n} == m.Keys;
        AcceptsSorted(t, m, names[1..]);
      } else {
        VisitSeen(t, m, n);
        assert m[n := false].Keys == m.Keys + {n};
        AcceptsSorted(t, m[n := false], names[1..]);
      }
    }
  }

  // First managed dependencies: a cycle of these is always found

  /** The first managed one of the dependencies, if there is any. */
  function FirstManaged(t: Topology, ds: seq<string>): (f: seq<string>)
    ensures f == [] <==> forall d :: d in ds ==> d !in t
    ensures forall d :: d in f ==> f == [d] && d in ds && d in t
  {
    if ds == [] then [] else if ds[0] in t then [ds[0]] else FirstManaged(t, ds[1..])
  }

  /** Every service with its first managed dependency only. */
  function Firsts(t: Topology): Topology {
    map n | n in t :: FirstManaged(t, t[n])
  }

  /** Whatever the marks, the scan of a service looks at its first managed dependency. */
  lemma {:induction false} LookedFirst(t: Topology, m: Marks, ds: seq<string>, d: string)
    requires d in FirstManaged(t, ds)
    ensures d in Looked(t, m, ds)
    decreases |ds|
  {
    if ds[0] !in t {
      LookedFirst(t, m, ds[1..], d);
    }
  }

  lemma {:induction false} WalkedFirst(t: Topology, m: Marks, n: string, x: string, d: string)
    requires n in t && n !in m
    requires x in Walked(t, m, n) && Edge(Firsts(t), x, d)
    ensures Edge(Walked(t, m, n), x, d)
    decreases Unseen(t, m), 0
  {
    MarkingLowers(t, m, n);
    if x == n {
      LookedFirst(t, m[n := true], t[n], d);
    } else {
      WalkOnFirst(t, m[n := true], t[n], x, d);
    }
  }

  lemma {:induction false} WalkOnFirst(t: Topology, m: Marks, ds: seq<string>, x: string, d: string)
    requires x in WalkOn(t, m, ds) && Edge(Firsts(t), x, d)
    ensures Edge(WalkOn(t, m, ds), x, d)
    decreases Unseen(t, m), 1 + |ds|
  {
    if ds[0] !in m && ds[0] in t {
      WalkedFirst(t, m, ds[0], x, d);
    } else {
      WalkOnFirst(t, m, ds[1..], x, d);
    }
  }

  lemma {:induction false} InspectedFirst(t: Topology, m: Marks, names: seq<string>, x: string, d: string)
    requires forall n :: n in names ==> n in t
    requires x in Inspected(t, m, names) && Edge(Firsts(t), x, d)
    ensures Edge(Inspected(t, m, names), x, d)
    decreases |names|
  {
    if names[0] in m {
      InspectedFirst(t, m, names[1..], x, d);
    } else {
      var o := Visit(t, m, names[0]);
      if x in Inspected(t, o.marks, names[1..]) {
        InspectedFirst(t, o.marks, names[1..], x, d);
      } else {
        WalkedFirst(t, m, names[0], x, d);
      }
    }
  }

  /** When the first managed dependencies form a cycle, the services are refused in every order of the list. */
  lemma FirstsCycleRefused(t: Topology, names: seq<string>)
    requires Lists(t, names) && !Acyclic(Firsts(t))
    ensures !Accepts(t, map[], names)
  {
    if Accepts(t, map[], names) {
      var u := Inspected(t, map[], names);
      AcceptedInspectedAcyclic(t, names);
      forall x, d | Edge(Firsts(t), x, d)
        ensures Edge(u, x, d)
      {
        InspectedFirst(t, map[], names, x, d);
      }
      AcyclicWithin(Firsts(t), u);
    }
  }

  /** A cycle runs through managed services only. */
  lemma {:induction false} ManagedPath(t: Topology, u: Topology, a: string, p: seq<string>, b: string)
    requires forall x, d :: Edge(t, x, d) && d in t ==> Edge(u, x, d)
    requires b in t && Path(t, a, p, b)
    ensures Path(u, a, p, b)
    decreases |p|
  {
    if p != [] {
      ManagedPath(t, u, p[0], p[1..], b);
    }
  }

  /** Where no service has two managed dependencies, nothing hides behind the first one. */
  lemma OneDependencyFirsts(t: Topology)
    requires OneDependency(t)
    ensures Acyclic(Firsts(t)) <==> Acyclic(t)
  {
    assert Within(Firsts(t), t);
    if Acyclic(t) {
      AcyclicWithin(Firsts(t), t);
    }
    if Acyclic(Firsts(t)) {
      forall x, d | Edge(t, x, d) && d in t
        ensures Edge(Firsts(t), x, d)
      {
        var f := FirstManaged(t, t[x]);
        assert f[0] in f && Edge(t, x, f[0]);
      }
      forall a, p | p != []
        ensures !Path(t, a, p, a)
      {
        if Path(t, a, p, a) {
          ManagedPath(t, Firsts(t), a, p, a);
        }
      }
    }
  }

  /** When no service has two managed dependencies, an accepted list contains no cycle. */
  lemma OneDependencySound(t: Topology, names: seq<string>)
    requires Lists(t, names) && OneDependency(t) && Accepts(t, map[], names)
    ensures Acyclic(t)
  {
    OneDependencyFirsts(t);
    if !Acyclic(t) {
      FirstsCycleRefused(t, names);
    }
  }

  // No chain: every order is accepted

  ghost predicate HasManagedDependency(t: Topology, n: string) {
    exists d :: Edge(t, n, d) && d in t
  }

  /** Every service left marked as being processed has a managed dependency. */
  ghost predicate MarksHaveDependencies(t: Topology, m: Marks) {
    forall n :: OnPath(m, n) ==> HasManagedDependency(t, n)
  }

  lemma {:induction false} NoChainVisit(t: Topology, m: Marks, n: string)
    requires n in t && n !in m && NoChain(t) && MarksHaveDependencies(t, m)
    ensures !Visit(t, m, n).cycle && MarksHaveDependencies(t, Visit(t, m, n).marks)
    decreases Unseen(t, m), 0
  {
    MarkingLowers(t, m, n);
    NoChainScan(t, m[n := true], n, t[n]);
  }

  lemma {:induction false} NoChainScan(t: Topology, m: Marks, n: string, ds: seq<string>)
    requires n in t && NoChain(t) && (forall d :: d in ds ==> d in t[n])
    requires forall x :: OnPath(m, x) && x != n ==> HasManagedDependency(t, x)
    ensures !Scan(t, m, n, ds).cycle && MarksHaveDependencies(t, Scan(t, m, n, ds).marks)
    decreases Unseen(t, m), 1 + |ds|
  {
    if ds == [] {
      forall x | OnPath(m[n := false], x)
        ensures HasManagedDependency(t, x)
      {
        assert OnPath(m, x) && x != n;
      }
    } else {
      var d := ds[0];
      assert Edge(t, n, d);
      if OnPath(m, d) && d != n {
        assert false;
      } else if d !in m && d in t {
        assert HasManagedDependency(t, n);
        NoChainVisit(t, m, d);
      } else {
        NoChainScan(t, m, n, ds[1..]);
      }
    }
  }

  lemma {:induction false} NoChainAccepted(t: Topology, m: Marks, names: seq<string>)
    requires forall n :: n in names ==> n in t
    requires NoChain(t) && MarksHaveDependencies(t, m)
    ensures Accepts(t, m, names)
    decreases |names|
  {
    if names == [] {
    } else if names[0] in m {
      NoChainAccepted(t, m, names[1..]);
    } else {
      NoChainVisit(t, m, names[0]);
      NoChainAccepted(t, Visit(t, m, names[0]).marks, names[1..]);
    }
  }

  // A chain: some order is refused

  lemma Bottom(t: Topology, rest: set<string>, n: string) returns (x: string)
    requires Acyclic(t) && n in rest && rest <= t.Keys
    ensures x in rest && forall d :: d in rest ==> !Edge(t, x, d)
    decreases Descendants(t, n)
  {
    if d :| d in rest && Edge(t, n, d) {
      DescendantsShrink(t, n, d);
      x := Bottom(t, rest, d);
    } else {
      x := n;
    }
  }

  /** The members of `rest`, each once and after those it depends on. */
  lemma Linearize(t: Topology, seen: set<string>, rest: set<string>) returns (names: seq<string>)
    requires Acyclic(t) && seen + rest == t.Keys
    ensures forall n :: n in names <==> n in rest
    ensures forall i, j :: 0 <= i < j < |names| ==> names[i] != names[j]
    ensures InOrder(t, seen, names)
    decreases rest
  {
    if rest == {} {
      names := [];
    } else {
      var n :| n in rest;
      var x := Bottom(t, rest, n);
      var tail := Linearize(t, seen + {x}, rest - {x});
      names := [x] + tail;
      assert names[1..] == tail;
    }
  }

  lemma {:induction false} VisitKeeps(t: Topology, m: Marks, n: string, x: string)
    requires n in t && n !in m && x in m && !Visit(t, m, n).cycle
    ensures x in Visit(t, m, n).marks && Visit(t, m, n).marks[x] == m[x]
    decreases Unseen(t, m), 0
  {
    MarkingLowers(t, m, n);
    ScanKeeps(t, m[n := true], n, t[n], x);
  }

  lemma {:induction false} ScanKeeps(t: Topology, m: Marks, n: string, ds: seq<string>, x: string)
    requires x in m && !Scan(t, m, n, ds).cycle
    requires x != n || exists d :: d in ds && d in t && d !in m
    ensures x in Scan(t, m, n, ds).marks && Scan(t, m, n, ds).marks[x] == m[x]
    decreases Unseen(t, m), 1 + |ds|
  {
    if ds == [] {
    } else if ds[0] !in m && ds[0] in t {
      VisitKeeps(t, m, ds[0], x);
    } else {
      assert forall d :: d in ds && d !in m ==> d == ds[0] || d in ds[1..];
      ScanKeeps(t, m, n, ds[1..], x);
    }
  }

  lemma {:induction false} WalkedReached(t: Topology, m: Marks, n: string, x: string)
    requires n in t && n !in m && x in Walked(t, m, n)
    ensures Reaches(t, n, x) && x in t
    decreases Unseen(t, m), 0
  {
    MarkingLowers(t, m, n);
    ReachesSelf(t, n);
    if x != n {
      WalkOnReached(t, m[n := true], n, t[n], x);
    }
  }

  lemma {:induction false} WalkOnReached(t: Topology, m: Marks, n: string, ds: seq<string>, x: string)
    requires n in t && (forall d :: d in ds ==> d in t[n]) && x in WalkOn(t, m, ds)
    ensures Reaches(t, n, x) && x in t
    decreases Unseen(t, m), 1 + |ds|
  {
    if ds[0] !in m && ds[0] in t {
      WalkedReached(t, m, ds[0], x);
      EdgeThenReaches(t, n, ds[0], x);
    } else {
      WalkOnReached(t, m, n, ds[1..], x);
    }
  }

  /** Once `v` is left marked, a later service that depends on it is refused. */
  lemma {:induction false} RefusedLater(t: Topology, m: Marks, names: seq<string>, u: string, v: string)
    requires forall n :: n in names ==> n in t
    requires forall n :: n in m ==> n in t
    requires OnPath(m, v) && Edge(t, u, v) && u in names && u !in m
    requires InOrder(t, m.Keys, names)
    ensures !Accepts(t, m, names)
    decreases |names|
  {
    var n := names[0];
    if n in m {
      assert m.Keys + {n} == m.Keys;
      RefusedLater(t, m, names[1..], u, v);
    } else {
      VisitSeen(t, m, n);
      if !Visit(t, m, n).cycle {
        assert m[n := false].Keys == m.Keys + {n};
        assert !OnPath(m, n) && n != u;
        RefusedLater(t, m[n := false], names[1..], u, v);
      }
    }
  }

  lemma ChainRefused(t: Topology, u: string, v: string, w: string) returns (names: seq<string>)
    requires Acyclic(t) && Edge(t, u, v) && Edge(t, v, w) && w in t
    ensures Orders(t, names) && !Accepts(t, map[], names)
  {
    var tail := Linearize(t, {v}, t.Keys - {v});
    names := [v] + tail;
    assert names[1..] == tail;
    AcyclicEdge(t, u, v);
    AcyclicEdge(t, v, w);
    ReachesSelf(t, v);
    if !Visit(t, map[], v).cycle {
      var m := Visit(t, map[], v).marks;
      assert w in t[v] && w !in map[v := true];
      ScanKeeps(t, map[v := true], v, t[v], v);
      VisitMarks(t, map[], v);
      forall x | x in m
        ensures x in t && x != u
      {
        WalkedReached(t, map[], v, x);
      }
      InOrderMore(t, {v}, m.Keys, tail);
      RefusedLater(t, m, tail, u, v);
    }
  }

  // The exact conditions

  lemma CycleHasChain(t: Topology, a: string, p: seq<string>)
    requires p != [] && Path(t, a, p, a)
    ensures !NoChain(t)
  {
    var b, q := p[0], p[1..];
    assert Edge(t, a, b) && Path(t, b, q, a);
    if q != [] {
      assert Edge(t, b, q[0]) && Path(t, q[0], q[1..], a);
      assert q[0] in t;
    }
  }

  /** For services without a cycle, the check as written is right in every order of the list exactly when
      no managed dependency has a managed dependency itself. (Without such a chain there is no cycle.) */
  lemma AcyclicAlwaysRight(t: Topology)
    ensures Acyclic(t) ==> (AlwaysRight(t) <==> NoChain(t))
    ensures NoChain(t) ==> Acyclic(t) && AlwaysRight(t)
  {
    forall a, p | p != [] && Path(t, a, p, a)
      ensures !NoChain(t)
    {
      CycleHasChain(t, a, p);
    }
    if NoChain(t) {
      forall names | Orders(t, names)
        ensures Accepts(t, map[], names)
      {
        NoChainAccepted(t, map[], names);
      }
    } else if Acyclic(t) {
      var u, v, w :| Edge(t, u, v) && Edge(t, v, w) && w in t;
      var names := ChainRefused(t, u, v, w);
    }
  }

  /** When every cycle shows in the first managed dependencies, the check as written is right in every order
      exactly when there is a cycle, or no managed dependency has a managed dependency itself. */
  lemma FirstsAlwaysRight(t: Topology)
    requires Acyclic(Firsts(t)) ==> Acyclic(t)
    ensures AlwaysRight(t) <==> (Acyclic(t) ==> NoChain(t))
  {
    if Acyclic(t) {
      AcyclicAlwaysRight(t);
    } else {
      forall names | Orders(t, names)
        ensures !Accepts(t, map[], names)
      {
        FirstsCycleRefused(t, names);
      }
    }
  }

  /** That is so for services with at most one managed dependency each. */
  lemma OneDependencyAlwaysRight(t: Topology)
    requires OneDependency(t)
    ensures AlwaysRight(t) <==> (Acyclic(t) ==> NoChain(t))
  {
    OneDependencyFirsts(t);
    FirstsAlwaysRight(t);
  }

  // Distinct first dependencies: acyclic ones are accepted in some order

  /** No service is the first managed dependency of two. */
  ghost predicate DistinctFirsts(t: Topology) {
    forall a, b, d :: Edge(Firsts(t), a, d) && Edge(Firsts(t), b, d) ==> a == b
  }

  /** Managed services only, and none without those whose first managed dependency it is. */
  ghost predicate Upward(t: Topology, seen: set<string>) {
    seen <= t.Keys && forall a, d :: Edge(Firsts(t), a, d) && d in seen ==> a in seen
  }

  /** `after` has, with each service that it has in addition to `seen`, its first managed dependency. */
  ghost predicate Downward(t: Topology, seen: set<string>, after: set<string>) {
    seen <= after && forall a, d :: Edge(Firsts(t), a, d) && a in after && a !in seen ==> d in after
  }

  lemma EnterFirst(t: Topology, seen: set<string>, n: string)
    requires n in t && n !in seen && Upward(t, seen)
    requires forall a :: Edge(Firsts(t), a, n) ==> a in seen
    ensures Upward(t, seen + {n})
    ensures FirstManaged(t, t[n]) == [] ==> Downward(t, seen, seen + {n})
  {
  }

  lemma NextFirst(t: Topology, seen: set<string>, n: string, d: string)
    requires n in t && n !in seen && Upward(t, seen) && Acyclic(Firsts(t)) && DistinctFirsts(t)
    requires FirstManaged(t, t[n]) == [d]
    ensures d in t && d !in seen + {n}
    ensures forall a :: Edge(Firsts(t), a, d) ==> a in seen + {n}
    ensures forall after :: Downward(t, seen + {n}, after) && d in after ==> Downward(t, seen, after)
  {
    hide Acyclic, FirstManaged;
    assert Edge(Firsts(t), n, d) && d in FirstManaged(t, t[n]);
    assert d != n by {
      if d == n {
        AcyclicEdge(Firsts(t), n, n);
        ReachesSelf(Firsts(t), n);
      }
    }
  }

  /** The check follows first dependencies down to a service without any, and looks at nothing else. */
  lemma {:induction false} VisitFirsts(t: Topology, m: Marks, n: string)
    requires n in t && n !in m && Upward(t, m.Keys) && DistinctFirsts(t) && Acyclic(Firsts(t))
    requires forall a :: Edge(Firsts(t), a, n) ==> a in m
    ensures var o := Visit(t, m, n);
            !o.cycle && n in o.marks && Upward(t, o.marks.Keys) && Downward(t, m.Keys, o.marks.Keys)
    decreases Unseen(t, m)
  {
    hide Acyclic, DistinctFirsts, Upward, Downward, Firsts, FirstManaged, Scan;
    var m1: Marks := m[n := true];
    assert m1.Keys == m.Keys + {n};
    MarkingLowers(t, m, n);
    EnterFirst(t, m.Keys, n);
    KeysManaged(t, m1.Keys);
    ScanFirst(t, m1, n, t[n]);
    var f := FirstManaged(t, t[n]);
    if f != [] {
      var d := f[0];
      assert d in f;
      NextFirst(t, m.Keys, n, d);
      VisitFirsts(t, m1, d);
      DownwardKeeps(t, m1.Keys, Visit(t, m1, d).marks.Keys);
    } else {
      assert m1[n := false].Keys == m1.Keys;
    }
  }

  lemma KeysManaged(t: Topology, seen: set<string>)
    ensures Upward(t, seen) ==> seen <= t.Keys
  {
  }

  lemma DownwardKeeps(t: Topology, seen: set<string>, after: set<string>)
    ensures Downward(t, seen, after) ==> seen <= after
  {
  }

  lemma {:induction false} ScanFirst(t: Topology, m: Marks, n: string, ds: seq<string>)
    requires m.Keys <= t.Keys && n in m
    ensures var f := FirstManaged(t, ds);
            if f == [] then Scan(t, m, n, ds) == Outcome(false, m[n := false])
            else f[0] !in m ==> Scan(t, m, n, ds) == Visit(t, m, f[0])
    decreases |ds|
  {
    if ds != [] && ds[0] !in t {
      ScanFirst(t, m, n, ds[1..]);
    }
  }

  lemma Top(t: Topology, m: Marks, n: string) returns (x: string)
    requires Acyclic(Firsts(t)) && n in t && n !in m
    ensures x in t && x !in m && forall a :: Edge(Firsts(t), a, x) ==> a in m
    decreases Ancestors(Firsts(t), n)
  {
    if a :| Edge(Firsts(t), a, n) && a !in m {
      AncestorsShrink(Firsts(t), a, n);
      x := Top(t, m, a);
    } else {
      x := n;
    }
  }

  /** One more service for an order that the check accepts: one seen already, or one that no unseen service
      has as its first managed dependency. */
  lemma NextListed(t: Topology, m: Marks, listed: set<string>) returns (x: string)
    requires DistinctFirsts(t) && Acyclic(Firsts(t)) && t.Keys - listed != {}
    requires Upward(t, m.Keys) && Downward(t, {}, m.Keys) && listed <= m.Keys
    ensures x in t && x !in listed
    ensures x !in m ==>
              var o := Visit(t, m, x);
              !o.cycle && x in o.marks && Upward(t, o.marks.Keys) && Downward(t, {}, o.marks.Keys) &&
              m.Keys <= o.marks.Keys
  {
    hide Acyclic, DistinctFirsts, Upward, Visit, Firsts;
    if y :| y in t && y !in listed && y in m {
      x := y;
    } else {
      var y :| y in t.Keys - listed;
      x := Top(t, m, y);
      VisitFirsts(t, m, x);
    }
  }

  lemma AcceptedOrder(t: Topology, m: Marks, listed: set<string>) returns (names: seq<string>)
    requires DistinctFirsts(t) && Acyclic(Firsts(t))
    requires Upward(t, m.Keys) && Downward(t, {}, m.Keys) && listed <= m.Keys
    ensures forall n :: n in names <==> n in t && n !in listed
    ensures forall i, j :: 0 <= i < j < |names| ==> names[i] != names[j]
    ensures Accepts(t, m, names)
    decreases t.Keys - listed
  {
    hide Acyclic, DistinctFirsts, Upward, Downward, Visit, Firsts;
    if t.Keys - listed == {} {
      names := [];
    } else {
      var x := NextListed(t, m, listed);
      var rest := AcceptedOrder(t, if x in m then m else Visit(t, m, x).marks, listed + {x});
      names := [x] + rest;
      assert names[1..] == rest;
    }
  }

  /** When no service is the first managed dependency of two, some order of the list is accepted exactly when
      the first managed dependencies form no cycle, whatever cycles the others form. */
  lemma DistinctFirstsVerdict(t: Topology)
    requires DistinctFirsts(t)
    ensures (exists names :: Orders(t, names) && Accepts(t, map[], names)) <==> Acyclic(Firsts(t))
    ensures AlwaysRight(t) <==> if Acyclic(t) then NoChain(t) else !Acyclic(Firsts(t))
  {
    if Acyclic(Firsts(t)) {
      var none: Marks := map[];
      assert none.Keys == {};
      var names := AcceptedOrder(t, none, {});
      assert Orders(t, names) && Accepts(t, map[], names);
    } else {
      forall names | Orders(t, names)
        ensures !Accepts(t, map[], names)
      {
        FirstsCycleRefused(t, names);
      }
    }
    if Acyclic(t) {
      AcyclicAlwaysRight(t);
    }
  }

  // Shared first dependencies: only a fully processed one can be passed twice

  /** A run without a cycle leaves fully processed services acyclic and closed under dependencies. */
  lemma {:induction false} VisitSound(t: Topology, m: Marks, n: string)
    requires n in t && n !in m && Sound(t, m) && !Visit(t, m, n).cycle
    ensures Sound(t, Visit(t, m, n).marks)
    decreases Unseen(t, m), 0
  {
    hide Sound, Settled, OnPath;
    MarkingLowers(t, m, n);
    Enter(t, m, n);
    ScanSound(t, m[n := true], n, t[n]);
  }

  /** The dependencies in front of `ds` are fully processed or unmanaged. */
  lemma {:induction false} ScanSound(t: Topology, m: Marks, n: string, ds: seq<string>)
    requires n in t && OnPath(m, n) && Sound(t, m) && !Scan(t, m, n, ds).cycle
    requires forall d :: d in t[n] && d !in ds && d in t ==> d in Settled(t, m)
    ensures Sound(t, Scan(t, m, n, ds).marks)
    decreases Unseen(t, m), 1 + |ds|
  {
    hide Sound;
    if ds == [] {
      Settle(t, m, n);
    } else if ds[0] !in m && ds[0] in t {
      VisitSound(t, m, ds[0]);
    } else {
      ScanSound(t, m, n, ds[1..]);
    }
  }

  /** With each marked service its first managed dependency is marked, that of `n` perhaps excepted. */
  ghost predicate Pursued(t: Topology, m: Marks, n: string) {
    m.Keys <= t.Keys && forall a, d :: Edge(Firsts(t), a, d) && a in m ==> d in m || d == n
  }

  /** What two marked services have as their first managed dependency is fully processed. */
  ghost predicate SharedDone(t: Topology, m: Marks) {
    forall a, b, d :: a != b && Edge(Firsts(t), a, d) && Edge(Firsts(t), b, d) && a in m && b in m ==> d in m && !m[d]
  }

  /** A scan passes its first managed dependency only when that is fully processed. */
  lemma {:induction false} ScanPast(t: Topology, m: Marks, n: string, ds: seq<string>) returns (rest: seq<string>)
    requires m.Keys <= t.Keys && n in m && !Scan(t, m, n, ds).cycle
    requires FirstManaged(t, ds) != [] && FirstManaged(t, ds)[0] in m
    ensures !m[FirstManaged(t, ds)[0]]
    ensures Scan(t, m, n, ds) == Scan(t, m, n, rest)
    decreases |ds|
  {
    if ds[0] in t {
      rest := ds[1..];
    } else {
      rest := ScanPast(t, m, n, ds[1..]);
    }
  }

  /** Marking `n` keeps both, when its first managed dependency is fully processed already. */
  lemma MarkShared(t: Topology, m: Marks, n: string)
    requires n in t && n !in m && Pursued(t, m, n) && SharedDone(t, m)
    requires forall d :: Edge(Firsts(t), n, d) ==> d in m && !m[d]
    ensures Pursued(t, m[n := true], n) && SharedDone(t, m[n := true])
  {
    hide Firsts;
  }

  /** So does marking `n` with its first managed dependency next in turn. */
  lemma MarkPursuing(t: Topology, m: Marks, n: string, d: string)
    requires n in t && n !in m && Pursued(t, m, n) && SharedDone(t, m)
    requires (forall e :: Edge(Firsts(t), n, e) <==> e == d) && d !in m && d != n
    ensures Pursued(t, m[n := true], d) && SharedDone(t, m[n := true])
  {
    hide Firsts, Edge;
    var m1 := m[n := true];
    forall a, b, e | a != b && Edge(Firsts(t), a, e) && Edge(Firsts(t), b, e) && a in m1 && b in m1
      ensures e in m1 && !m1[e]
    {
      assert a in m && b in m;
    }
  }

  lemma {:induction false} VisitShared(t: Topology, m: Marks, n: string)
    requires n in t && n !in m && Pursued(t, m, n) && SharedDone(t, m) && !Visit(t, m, n).cycle
    ensures var o := Visit(t, m, n);
            Pursued(t, o.marks, n) && SharedDone(t, o.marks) && m.Keys + {n} <= o.marks.Keys
    decreases Unseen(t, m), 0
  {
    hide Pursued, SharedDone, FirstManaged, Scan;
    var m1: Marks := m[n := true];
    MarkingLowers(t, m, n);
    MarkedManaged(t, m, n);
    ScanFirst(t, m1, n, t[n]);
    var f := FirstManaged(t, t[n]);
    FirstEdges(t, n);
    if f == [] {
      MarkShared(t, m, n);
      Unmark(t, m1, n);
    } else if f[0] in m1 {
      var rest := ScanPast(t, m1, n, t[n]);
      MarkShared(t, m, n);
      ScanShared(t, m1, n, rest);
    } else {
      assert forall e :: Edge(Firsts(t), n, e) <==> e == f[0];
      MarkPursuing(t, m, n, f[0]);
      VisitShared(t, m1, f[0]);
      PursuedByMore(t, Visit(t, m1, f[0]).marks, f[0], n);
    }
  }

  lemma MarkedManaged(t: Topology, m: Marks, n: string)
    ensures Pursued(t, m, n) && n in t ==> m[n := true].Keys <= t.Keys
  {
  }

  lemma FirstEdges(t: Topology, n: string)
    requires n in t
    ensures forall d :: Edge(Firsts(t), n, d) <==> FirstManaged(t, t[n]) == [d]
  {
    forall d
      ensures Edge(Firsts(t), n, d) <==> FirstManaged(t, t[n]) == [d]
    {
      assert [d][0] == d && d in [d];
    }
  }

  lemma Unmark(t: Topology, m: Marks, n: string)
    requires n in m && Pursued(t, m, n) && SharedDone(t, m)
    ensures Pursued(t, m[n := false], n) && SharedDone(t, m[n := false])
  {
    hide Firsts;
  }

  /** Once the exception is marked it is none. */
  lemma PursuedByMore(t: Topology, m: Marks, d: string, n: string)
    requires Pursued(t, m, d) && d in m
    ensures Pursued(t, m, n)
  {
  }

  lemma {:induction false} ScanShared(t: Topology, m: Marks, n: string, ds: seq<string>)
    requires n in m && Pursued(t, m, n) && SharedDone(t, m) && !Scan(t, m, n, ds).cycle
    ensures var o := Scan(t, m, n, ds);
            Pursued(t, o.marks, n) && SharedDone(t, o.marks) && m.Keys <= o.marks.Keys
    decreases Unseen(t, m), 1 + |ds|
  {
    hide Pursued, SharedDone;
    if ds == [] {
      Unmark(t, m, n);
    } else if ds[0] !in m && ds[0] in t {
      PursuedByMore(t, m, n, ds[0]);
      VisitShared(t, m, ds[0]);
      PursuedByMore(t, Visit(t, m, ds[0]).marks, ds[0], n);
    } else {
      ScanShared(t, m, n, ds[1..]);
    }
  }

  /** The marks after an accepting run. */
  lemma {:induction false} AcceptedMarks(t: Topology, m: Marks, names: seq<string>) returns (m': Marks)
    requires forall n :: n in names ==> n in t
    requires Sound(t, m) && SharedDone(t, m) && (forall n :: Pursued(t, m, n)) && Accepts(t, m, names)
    ensures Sound(t, m') && SharedDone(t, m')
    ensures m.Keys <= m'.Keys && forall n :: n in names ==> n in m'
    decreases |names|
  {
    hide Sound, SharedDone, Pursued, Visit;
    if names == [] {
      m' := m;
    } else if names[0] in m {
      m' := AcceptedMarks(t, m, names[1..]);
    } else {
      var n := names[0];
      VisitSound(t, m, n);
      VisitShared(t, m, n);
      var o := Visit(t, m, n);
      forall x
        ensures Pursued(t, o.marks, x)
      {
        PursuedByMore(t, o.marks, n, x);
      }
      m' := AcceptedMarks(t, o.marks, names[1..]);
    }
  }

  /** The service leads to a cycle. */
  ghost predicate LeadsToCycle(t: Topology, v: string) {
    exists c, p :: Reaches(t, v, c) && p != [] && Path(t, c, p, c)
  }

  lemma SettledLeadsNowhere(t: Topology, m: Marks, v: string)
    requires Sound(t, m) && v in Settled(t, m)
    ensures !LeadsToCycle(t, v)
  {
    if c, p :| Reaches(t, v, c) && p != [] && Path(t, c, p, c) {
      var q :| Path(t, v, q, c);
      assert c in t;
      StaysSettled(t, m, v, q, c);
      StaysSettled(t, m, c, p, c);
    }
  }

  lemma {:induction false} StaysSettled(t: Topology, m: Marks, a: string, p: seq<string>, b: string)
    requires Sound(t, m) && a in Settled(t, m) && b in t && Path(t, a, p, b)
    ensures Path(Settled(t, m), a, p, b) && b in Settled(t, m)
    decreases |p|
  {
    if p != [] {
      assert p[0] in t;
      assert Edge(Settled(t, m), a, p[0]);
      StaysSettled(t, m, p[0], p[1..], b);
    }
  }

  /** When a service that leads to a cycle is the first managed dependency of two, the services are refused in every
      order of the list: the second of the two finds it marked, and it never becomes fully processed. */
  lemma SharedFirstRefused(t: Topology, names: seq<string>, a: string, b: string, v: string)
    requires Lists(t, names) && a != b && Edge(Firsts(t), a, v) && Edge(Firsts(t), b, v) && LeadsToCycle(t, v)
    ensures !Accepts(t, map[], names)
  {
    if Accepts(t, map[], names) {
      assert Settled(t, map[]) == map[];
      assert Acyclic(Settled(t, map[]));
      var m := AcceptedMarks(t, map[], names);
      assert v in t;
      SettledLeadsNowhere(t, m, v);
    }
  }

  /** What the check as written is known to refuse in every order: a cycle of first managed dependencies, or a
      first managed dependency that two services share and that leads to a cycle. */
  lemma AlwaysRefused(t: Topology)
    requires || !Acyclic(Firsts(t))
             || exists a, b, v :: a != b && Edge(Firsts(t), a, v) && Edge(Firsts(t), b, v) && LeadsToCycle(t, v)
    ensures !Acyclic(t) && AlwaysRight(t)
  {
    assert Within(Firsts(t), t);
    if !Acyclic(Firsts(t)) {
      if Acyclic(t) {
        AcyclicWithin(Firsts(t), t);
      }
      forall names | Orders(t, names)
        ensures !Accepts(t, map[], names)
      {
        FirstsCycleRefused(t, names);
      }
    } else {
      var a, b, v :| a != b && Edge(Firsts(t), a, v) && Edge(Firsts(t), b, v) && LeadsToCycle(t, v);
      forall names | Orders(t, names)
        ensures !Accepts(t, map[], names)
      {
        SharedFirstRefused(t, names, a, b, v);
      }
    }
  }

  /** Unless a first managed dependency that two services share leads to no cycle, some order of the list is accepted
      exactly when the first managed dependencies form no cycle and no two services share one. */
  lemma FirstsVerdict(t: Topology)
    requires forall a, b, v :: a != b && Edge(Firsts(t), a, v) && Edge(Firsts(t), b, v) ==> LeadsToCycle(t, v)
    ensures (exists names :: Orders(t, names) && Accepts(t, map[], names)) <==>
            Acyclic(Firsts(t)) && DistinctFirsts(t)
    ensures AlwaysRight(t) <==> if Acyclic(t) then NoChain(t) else !(Acyclic(Firsts(t)) && DistinctFirsts(t))
  {
    hide Acyclic, Accepts, NoChain, Firsts, LeadsToCycle;
    if DistinctFirsts(t) {
      DistinctFirstsVerdict(t);
    } else {
      AlwaysRefused(t);
    }
  }

  // Both directions fail in general

  /** c depends on a, and a on b. */
  function Chain(a: string, b: string, c: string): Topology {
    map[a := [b], c := [a], b := []]
  }

  /** Refused although there is no cycle, when a is listed first; accepted when b is. */
  lemma RefusesAcyclic(a: string, b: string, c: string)
    requires a != b && a != c && b != c
    ensures Acyclic(Chain(a, b, c)) && Orders(Chain(a, b, c), [a, c, b])
    ensures !Accepts(Chain(a, b, c), map[], [a, c, b]) && Accepts(Chain(a, b, c), map[], [b, a, c])
  {
    var t := Chain(a, b, c);
    DependenciesFirstAccepted(t, [b, a, c]);
    var m: Marks := map[a := true, b := false];
    assert Visit(t, map[], a) == Visit(t, map[a := true], b) == Outcome(false, m);
    assert Visit(t, m, c).cycle;
    assert [a, c, b][1..] == [c, b];
  }

  /** Accepted although A and B depend on each other: both have another dependency in front. */
  lemma AcceptsCyclic()
    ensures var t := map["A" := ["X", "B"], "B" := ["Y", "A"], "X" := [], "Y" := []];
            !Acyclic(t) && Orders(t, ["A", "B", "X", "Y"]) && Accepts(t, map[], ["A", "B", "X", "Y"])
  {
    var t: Topology := map["A" := ["X", "B"], "B" := ["Y", "A"], "X" := [], "Y" := []];
    assert Edge(t, "A", "B") && Edge(t, "B", "A");
    EdgeReaches(t, "B", "A");
    if Acyclic(t) {
      AcyclicEdge(t, "A", "B");
    }
    var m1: Marks := map["A" := true, "X" := false];
    var m2 := m1["B" := true]["Y" := false];
    assert Visit(t, map[], "A") == Visit(t, map["A" := true], "X") == Outcome(false, m1);
    assert Visit(t, m1, "B") == Visit(t, m1["B" := true], "Y") == Outcome(false, m2);
    var names := ["A", "B", "X", "Y"];
    assert names[1..][1..] == ["X", "Y"] && ["X", "Y"][1..] == ["Y"] && ["Y"][1..] == [];
    assert Accepts(t, m2, ["X", "Y"]);
  }
}
