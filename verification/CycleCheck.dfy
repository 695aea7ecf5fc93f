/** The cycle check of the services ConfigMap, in two forms. `Visit` follows the code, which returns the
    verdict of the first unexplored dependency without looking at the ones behind it. `Explore` follows
    the comments: it goes on to the next dependency and marks every service as processed on its way back. */
module CycleCheck {
  import opened Basics
  import opened Graph
  import opened ServiceSpec

  /** No entry: not processed yet; true: being processed; false: fully processed. */
  type Marks = map<string, bool>

  datatype Outcome = Outcome(cycle: bool, marks: Marks)

  /** The dependencies of the managed services; for a name listed twice, those listed last. */
  function Dependencies(services: seq<Service>): (t: Topology)
    ensures t.Keys == Names(services)
  {
    if services == [] then map[]
    else
      var s := services[|services| - 1];
      assert services == services[..|services| - 1] + [s];
      Dependencies(services[..|services| - 1])[s.name := s.dependencies]
  }

  function Unseen(t: Topology, m: Marks): nat {
    |t.Keys - m.Keys|
  }

  lemma MarkingLowers(t: Topology, m: Marks, n: string)
    requires n in t && n !in m
    ensures Unseen(t, m[n := true]) < Unseen(t, m)
  {
    assert t.Keys - m[n := true].Keys == (t.Keys - m.Keys) - {n};
  }

  // The check as written

  function Visit(t: Topology, m: Marks, n: string): (o: Outcome)
    requires n in t && n !in m
    decreases Unseen(t, m), 0
  {
    MarkingLowers(t, m, n);
    Scan(t, m[n := true], n, t[n])
  }

  function Scan(t: Topology, m: Marks, n: string, ds: seq<string>): (o: Outcome)
    decreases Unseen(t, m), 1 + |ds|
  {
    if ds == [] then Outcome(false, m[n := false])
    else if ds[0] in m && m[ds[0]] then Outcome(true, m)
    else if ds[0] !in m && ds[0] in t then Visit(t, m, ds[0])
    else Scan(t, m, n, ds[1..])
  }

  function Accepts(t: Topology, m: Marks, names: seq<string>): bool
    requires forall n :: n in names ==> n in t
    decreases |names|
  {
    if names == [] then true
    else if names[0] in m then Accepts(t, m, names[1..])
    else var o := Visit(t, m, names[0]); !o.cycle && Accepts(t, o.marks, names[1..])
  }

  // The check as documented

  function Explore(t: Topology, m: Marks, n: string): (o: Outcome)
    requires n in t && n !in m
    ensures m.Keys <= o.marks.Keys
    decreases Unseen(t, m), 0
  {
    MarkingLowers(t, m, n);
    ExploreAll(t, m[n := true], n, t[n])
  }

  function ExploreAll(t: Topology, m: Marks, n: string, ds: seq<string>): (o: Outcome)
    ensures m.Keys <= o.marks.Keys
    decreases Unseen(t, m), 1 + |ds|
  {
    if ds == [] then Outcome(false, m[n := false])
    else if ds[0] in m && m[ds[0]] then Outcome(true, m)
    else if ds[0] !in m && ds[0] in t then
      var o := Explore(t, m, ds[0]);
      UnseenShrinks(t, m, o.marks);
      if o.cycle then o else ExploreAll(t, o.marks, n, ds[1..])
    else ExploreAll(t, m, n, ds[1..])
  }

  lemma UnseenShrinks(t: Topology, m: Marks, m': Marks)
    requires m.Keys <= m'.Keys
    ensures Unseen(t, m') <= Unseen(t, m)
  {
    SubsetSize(t.Keys - m'.Keys, t.Keys - m.Keys);
  }

  function ExploresAll(t: Topology, m: Marks, names: seq<string>): bool
    requires forall n :: n in names ==> n in t
    decreases |names|
  {
    if names == [] then true
    else if names[0] in m then ExploresAll(t, m, names[1..])
    else var o := Explore(t, m, names[0]); !o.cycle && ExploresAll(t, o.marks, names[1..])
  }

  // The documented check is right

  /** The part of the graph on which the marks have settled. */
  function Settled(t: Topology, m: Marks): Topology {
    map n | n in t && n in m && !m[n] :: t[n]
  }

  /** Settled services depend on settled or unmanaged ones, without a cycle. */
  ghost predicate Sound(t: Topology, m: Marks) {
    && m.Keys <= t.Keys
    && Acyclic(Settled(t, m))
    && (forall n, d :: Edge(Settled(t, m), n, d) && d in t ==> d in Settled(t, m))
  }

  ghost predicate OnPath(m: Marks, n: string) {
    n in m && m[n]
  }

  /** What `Explore` promises for `n`, given marks `m` before and `o` after. */
  ghost predicate Explored(t: Topology, m: Marks, o: Outcome) {
    if o.cycle then !Acyclic(t)
    else
      && Sound(t, o.marks)
      && Settled(t, m).Keys <= Settled(t, o.marks).Keys
      && (forall x :: OnPath(o.marks, x) <==> OnPath(m, x))
  }

  lemma {:induction false} ExploreCorrect(t: Topology, m: Marks, n: string)
    requires n in t && n !in m && Sound(t, m)
    requires forall x :: OnPath(m, x) ==> Reaches(t, x, n)
    ensures Explored(t, m, Explore(t, m, n))
    ensures !Explore(t, m, n).cycle ==> n in Settled(t, Explore(t, m, n).marks)
    decreases Unseen(t, m), 0
  {
    hide Acyclic, Reaches, Sound, Settled, OnPath, ExploreAll;
    MarkingLowers(t, m, n);
    Enter(t, m, n);
    ReachesSelf(t, n);
    ExploreAllCorrect(t, m[n := true], n, t[n]);
  }

  lemma Enter(t: Topology, m: Marks, n: string)
    requires n in t && n !in m && Sound(t, m)
    ensures Sound(t, m[n := true]) && Settled(t, m[n := true]) == Settled(t, m)
    ensures forall x :: OnPath(m[n := true], x) <==> OnPath(m, x) || x == n
    ensures !OnPath(m, n)
  {
    var m' := m[n := true];
    assert Settled(t, m') == Settled(t, m);
    forall x
      ensures OnPath(m', x) <==> OnPath(m, x) || x == n
    {
    }
  }

  /** The dependencies in front of `ds` are settled or unmanaged. */
  lemma {:induction false} ExploreAllCorrect(t: Topology, m: Marks, n: string, ds: seq<string>)
    requires n in t && OnPath(m, n) && Sound(t, m)
    requires forall d :: d in ds ==> d in t[n]
    requires forall x :: OnPath(m, x) ==> Reaches(t, x, n)
    requires forall d :: d in t[n] && d !in ds && d in t ==> d in Settled(t, m)
    ensures var o := ExploreAll(t, m, n, ds);
            if o.cycle then !Acyclic(t)
            else
              && Sound(t, o.marks)
              && Settled(t, m).Keys <= Settled(t, o.marks).Keys
              && n in Settled(t, o.marks)
              && (forall x :: OnPath(o.marks, x) <==> OnPath(m, x) && x != n)
    decreases Unseen(t, m), 1 + |ds|
  {
    if ds == [] {
      Settle(t, m, n);
    } else {
      var d := ds[0];
      if OnPath(m, d) {
        EdgeReaches(t, n, d);
        if Acyclic(t) {
          AcyclicEdge(t, n, d);
        }
      } else if d !in m && d in t {
        forall x | OnPath(m, x)
          ensures Reaches(t, x, d)
        {
          ReachesThenEdge(t, x, n, d);
        }
        ExploreCorrect(t, m, d);
        var o := Explore(t, m, d);
        UnseenShrinks(t, m, o.marks);
        if !o.cycle {
          ExploreAllCorrect(t, o.marks, n, ds[1..]);
        }
      } else {
        ExploreAllCorrect(t, m, n, ds[1..]);
      }
    }
  }

  /** A service whose managed dependencies have settled can be settled itself. */
  lemma Settle(t: Topology, m: Marks, n: string)
    requires n in t && OnPath(m, n) && Sound(t, m)
    requires forall d :: d in t[n] && d in t ==> d in Settled(t, m)
    ensures Sound(t, m[n := false])
    ensures Settled(t, m[n := false]) == Settled(t, m)[n := t[n]]
  {
    var s := Settled(t, m);
    assert Settled(t, m[n := false]) == s[n := t[n]];
    forall d | d in t[n]
      ensures !Reaches(s, d, n)
    {
      SettledCannotReach(t, m, d, n);
    }
    ReplaceKeepsAcyclic(s, n, t[n]);
    var u := s[n := t[n]];
    forall x, d | Edge(u, x, d) && d in t
      ensures d in u
    {
      assert x != n ==> Edge(s, x, d);
    }
  }

  lemma SettledCannotReach(t: Topology, m: Marks, d: string, n: string)
    requires Sound(t, m) && n in t && n !in Settled(t, m) && (d in t ==> d in Settled(t, m))
    ensures !Reaches(Settled(t, m), d, n)
  {
    var s := Settled(t, m);
    var inside := iset x | x in t ==> x in s;
    if Reaches(s, d, n) {
      ReachesStaysIn(s, inside, d, n);
    }
  }

  /** `names` are the managed services, in some order. */
  ghost predicate Lists(t: Topology, names: seq<string>) {
    forall n :: n in names <==> n in t
  }

  lemma {:induction false} ExploresAllCorrect(t: Topology, m: Marks, names: seq<string>)
    requires Sound(t, m) && forall x :: !OnPath(m, x)
    requires forall n :: n in names ==> n in t
    requires forall n :: n in t ==> n in names || n in m
    ensures ExploresAll(t, m, names) <==> Acyclic(t)
    decreases |names|
  {
    if names == [] {
      forall n | n in t
        ensures n in m && !m[n]
      {
        assert !OnPath(m, n);
      }
      assert Settled(t, m) == t;
    } else if names[0] in m {
      ExploresAllCorrect(t, m, names[1..]);
    } else {
      ExploreCorrect(t, m, names[0]);
      var o := Explore(t, m, names[0]);
      if !o.cycle {
        ExploresAllCorrect(t, o.marks, names[1..]);
      }
    }
  }

  /** The documented check accepts a list of services, in whatever order, exactly when their dependencies
      form no cycle. */
  lemma DocumentedCheck(t: Topology, names: seq<string>)
    requires Lists(t, names)
    ensures ExploresAll(t, map[], names) <==> Acyclic(t)
  {
    assert Settled(t, map[]) == map[];
    assert Acyclic(Settled(t, map[]));
    ExploresAllCorrect(t, map[], names);
  }

  // The check as written: what an accepted run has looked at

  /** The dependencies of one service that the check looks at. */
  function Looked(t: Topology, m: Marks, ds: seq<string>): seq<string> {
    if ds == [] then []
    else if ds[0] !in m && ds[0] in t then [ds[0]]
    else [ds[0]] + Looked(t, m, ds[1..])
  }

  /** The dependencies that one call of the check looks at, service by service. */
  function Walked(t: Topology, m: Marks, n: string): Topology
    requires n in t && n !in m
    decreases Unseen(t, m), 0
  {
    MarkingLowers(t, m, n);
    WalkOn(t, m[n := true], t[n])[n := Looked(t, m[n := true], t[n])]
  }

  function WalkOn(t: Topology, m: Marks, ds: seq<string>): Topology
    decreases Unseen(t, m), 1 + |ds|
  {
    if ds == [] then map[]
    else if ds[0] !in m && ds[0] in t then Walked(t, m, ds[0])
    else WalkOn(t, m, ds[1..])
  }

  function Inspected(t: Topology, m: Marks, names: seq<string>): Topology
    requires forall n :: n in names ==> n in t
    decreases |names|
  {
    if names == [] then map[]
    else if names[0] in m then Inspected(t, m, names[1..])
    else Walked(t, m, names[0]) + Inspected(t, Visit(t, m, names[0]).marks, names[1..])
  }

  /** `e` holds what was looked at so far: no cycle, and nothing managed outside of it. */
  ghost predicate Tidy(t: Topology, m: Marks, e: Topology) {
    && Acyclic(e)
    && e.Keys <= t.Keys && e.Keys <= m.Keys
    && (forall n, d :: Edge(e, n, d) && d in t ==> d in e)
    && (forall n :: n in m && !m[n] ==> n in e)
  }

  lemma {:induction false} VisitTidy(t: Topology, m: Marks, n: string, e: Topology)
    requires n in t && n !in m && Tidy(t, m, e)
    requires !Visit(t, m, n).cycle
    ensures Tidy(t, Visit(t, m, n).marks, e + Walked(t, m, n))
    ensures m.Keys + {n} <= Visit(t, m, n).marks.Keys
    ensures n in Walked(t, m, n)
    ensures forall x :: x in Walked(t, m, n) ==> x !in m
    decreases Unseen(t, m), 0
  {
    hide Scan, WalkOn, Looked, Tidy, Acyclic;
    MarkingLowers(t, m, n);
    Begin(t, m, n, e);
    ScanTidy(t, m[n := true], n, t[n], e);
    var w := WalkOn(t, m[n := true], t[n]);
    var ds := Looked(t, m[n := true], t[n]);
    MergeUpdate(e, w, n, ds);
    AddLooked(t, Visit(t, m, n).marks, e + w, n, ds);
  }

  lemma MergeUpdate(e: Topology, w: Topology, n: string, ds: seq<string>)
    ensures e + w[n := ds] == (e + w)[n := ds]
  {
  }

  lemma Begin(t: Topology, m: Marks, n: string, e: Topology)
    requires n in t && n !in m && Tidy(t, m, e)
    ensures Tidy(t, m[n := true], e) && n !in e && OnPath(m[n := true], n)
  {
  }

  lemma AddLooked(t: Topology, m: Marks, e: Topology, n: string, ds: seq<string>)
    requires n in t && n in m && n !in e && Acyclic(e) && e.Keys <= t.Keys && e.Keys <= m.Keys
    requires forall x, d :: Edge(e, x, d) && d in t ==> d in e
    requires forall d :: d in ds && d in t ==> d in e
    requires forall x :: x in m && !m[x] && x != n ==> x in e
    ensures Tidy(t, m, e[n := ds])
  {
    var inside := iset x | x in t ==> x in e;
    forall d | d in ds
      ensures !Reaches(e, d, n)
    {
      if Reaches(e, d, n) {
        ReachesStaysIn(e, inside, d, n);
      }
    }
    ReplaceKeepsAcyclic(e, n, ds);
    var u := e[n := ds];
    forall x, d | Edge(u, x, d) && d in t
      ensures d in u
    {
      assert x != n ==> Edge(e, x, d);
    }
  }

  lemma {:induction false} ScanTidy(t: Topology, m: Marks, n: string, ds: seq<string>, e: Topology)
    requires OnPath(m, n) && n !in e && Tidy(t, m, e)
    requires !Scan(t, m, n, ds).cycle
    ensures var e' := e + WalkOn(t, m, ds);
            var m' := Scan(t, m, n, ds).marks;
            && n !in WalkOn(t, m, ds)
            && m.Keys <= m'.Keys
            && e'.Keys <= t.Keys && e'.Keys <= m'.Keys
            && Acyclic(e')
            && (forall x, d :: Edge(e', x, d) && d in t ==> d in e')
            && (forall d :: d in Looked(t, m, ds) && d in t ==> d in e')
            && (forall x :: x in m' && !m'[x] && x != n ==> x in e')
            && (forall x :: x in WalkOn(t, m, ds) ==> x !in m)
    decreases Unseen(t, m), 1 + |ds|
  {
    if ds == [] {
      assert e + WalkOn(t, m, ds) == e;
    } else if ds[0] !in m && ds[0] in t {
      VisitTidy(t, m, ds[0], e);
    } else {
      ScanTidy(t, m, n, ds[1..], e);
    }
  }

  lemma {:induction false} InspectedTidy(t: Topology, m: Marks, names: seq<string>, e: Topology)
    requires forall n :: n in names ==> n in t
    requires Tidy(t, m, e) && e.Keys == m.Keys && Accepts(t, m, names)
    ensures Acyclic(e + Inspected(t, m, names))
    ensures forall n :: n in names ==> n in e + Inspected(t, m, names)
    ensures (e + Inspected(t, m, names)).Keys <= t.Keys
    decreases |names|
  {
    if names == [] {
      assert e + Inspected(t, m, names) == e;
    } else if names[0] in m {
      InspectedTidy(t, m, names[1..], e);
    } else {
      var n := names[0];
      VisitTidy(t, m, n, e);
      VisitMarks(t, m, n);
      var o := Visit(t, m, n);
      InspectedTidy(t, o.marks, names[1..], e + Walked(t, m, n));
      MergeAssociative(e, Walked(t, m, n), Inspected(t, o.marks, names[1..]));
    }
  }

  lemma MergeAssociative(a: Topology, b: Topology, c: Topology)
    ensures a + (b + c) == (a + b) + c
  {
  }

  /** A call that finds no cycle marks exactly the services it walks over. */
  lemma {:induction false} VisitMarks(t: Topology, m: Marks, n: string)
    requires n in t && n !in m && !Visit(t, m, n).cycle
    ensures Visit(t, m, n).marks.Keys == m.Keys + Walked(t, m, n).Keys
    decreases Unseen(t, m), 0
  {
    hide Scan, WalkOn, Looked;
    MarkingLowers(t, m, n);
    ScanMarks(t, m[n := true], n, t[n]);
  }

  lemma {:induction false} ScanMarks(t: Topology, m: Marks, n: string, ds: seq<string>)
    requires n in m && !Scan(t, m, n, ds).cycle
    ensures Scan(t, m, n, ds).marks.Keys == m.Keys + WalkOn(t, m, ds).Keys
    decreases Unseen(t, m), 1 + |ds|
  {
    if ds == [] {
    } else if ds[0] !in m && ds[0] in t {
      VisitMarks(t, m, ds[0]);
    } else {
      ScanMarks(t, m, n, ds[1..]);
    }
  }

  /** The dependencies that an accepting run has looked at form no cycle, for every list and every order;
      a cycle can only hide behind a dependency that was passed over. */
  lemma AcceptedInspectedAcyclic(t: Topology, names: seq<string>)
    requires Lists(t, names) && Accepts(t, map[], names)
    ensures Inspected(t, map[], names).Keys == t.Keys
    ensures Acyclic(Inspected(t, map[], names))
  {
    InspectedTidy(t, map[], names, map[]);
    assert map[] + Inspected(t, map[], names) == Inspected(t, map[], names);
  }
}
