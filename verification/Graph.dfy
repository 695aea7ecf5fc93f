/** Dependency graphs between named services, with the walks, reachability and acyclicity that the
    service engine and the ConfigMap validation both reason about. */
module Graph {

  /** Each known name with the names it depends on, in order. A dependency need not be a known name. */
  type Topology = map<string, seq<string>>

  predicate Edge(t: Topology, a: string, b: string) {
    a in t && b in t[a]
  }

  /** The walk from `a` through the names in `p`, the last of which is `b`. */
  ghost predicate Path(t: Topology, a: string, p: seq<string>, b: string)
    decreases |p|
  {
    if p == [] then a == b else Edge(t, a, p[0]) && Path(t, p[0], p[1..], b)
  }

  ghost predicate Reaches(t: Topology, a: string, b: string) {
    exists p :: Path(t, a, p, b)
  }

  /** No walk of at least one edge returns to its start. */
  ghost predicate Acyclic(t: Topology) {
    forall a, p :: p != [] ==> !Path(t, a, p, a)
  }

  /** Every edge of `t` is an edge of `u`. */
  ghost predicate Within(t: Topology, u: Topology) {
    forall a, b :: Edge(t, a, b) ==> Edge(u, a, b)
  }

  /** No edge leaves `s`. */
  ghost predicate EdgeClosed(t: Topology, s: iset<string>) {
    forall a, b :: a in s && Edge(t, a, b) ==> b in s
  }

  ghost function Ancestors(t: Topology, s: string): set<string> {
    set n | n in t && Reaches(t, n, s)
  }

  ghost function Descendants(t: Topology, s: string): set<string> {
    set n | n in t && Reaches(t, s, n)
  }

  lemma ReachesSelf(t: Topology, a: string)
    ensures Reaches(t, a, a)
  {
    assert Path(t, a, [], a);
  }

  lemma PathJoin(t: Topology, a: string, p: seq<string>, b: string, q: seq<string>, c: string)
    requires Path(t, a, p, b) && Path(t, b, q, c)
    ensures Path(t, a, p + q, c)
    decreases |p|
  {
    if p == [] {
      assert p + q == q;
    } else {
      PathJoin(t, p[0], p[1..], b, q, c);
      assert (p + q)[1..] == p[1..] + q;
    }
  }

  lemma ReachesTransitive(t: Topology, a: string, b: string, c: string)
    requires Reaches(t, a, b) && Reaches(t, b, c)
    ensures Reaches(t, a, c)
  {
    var p :| Path(t, a, p, b);
    var q :| Path(t, b, q, c);
    PathJoin(t, a, p, b, q, c);
  }

  lemma EdgeReaches(t: Topology, a: string, b: string)
    requires Edge(t, a, b)
    ensures Reaches(t, a, b)
  {
    assert Path(t, a, [b], b);
  }

  lemma EdgeThenReaches(t: Topology, a: string, b: string, c: string)
    requires Edge(t, a, b) && Reaches(t, b, c)
    ensures Reaches(t, a, c)
  {
    EdgeReaches(t, a, b);
    ReachesTransitive(t, a, b, c);
  }

  lemma ReachesThenEdge(t: Topology, a: string, b: string, c: string)
    requires Reaches(t, a, b) && Edge(t, b, c)
    ensures Reaches(t, a, c)
  {
    EdgeReaches(t, b, c);
    ReachesTransitive(t, a, b, c);
  }

  lemma FirstStep(t: Topology, a: string, c: string) returns (b: string)
    requires Reaches(t, a, c) && a != c
    ensures Edge(t, a, b) && Reaches(t, b, c)
  {
    var p :| Path(t, a, p, c);
    b := p[0];
    assert Path(t, b, p[1..], c);
  }

  lemma LastStep(t: Topology, a: string, c: string) returns (b: string)
    requires Reaches(t, a, c) && a != c
    ensures Reaches(t, a, b) && Edge(t, b, c)
  {
    var p :| Path(t, a, p, c);
    b := LastStepOf(t, a, p, c);
  }

  lemma LastStepOf(t: Topology, a: string, p: seq<string>, c: string) returns (b: string)
    requires Path(t, a, p, c) && p != []
    ensures Reaches(t, a, b) && Edge(t, b, c)
    decreases |p|
  {
    if |p| == 1 {
      b := a;
      ReachesSelf(t, a);
    } else {
      b := LastStepOf(t, p[0], p[1..], c);
      EdgeThenReaches(t, a, p[0], b);
    }
  }

  lemma AcyclicEdge(t: Topology, a: string, b: string)
    requires Acyclic(t) && Edge(t, a, b)
    ensures !Reaches(t, b, a)
  {
    if Reaches(t, b, a) {
      var p :| Path(t, b, p, a);
      assert ([b] + p)[1..] == p;
      assert Path(t, a, [b] + p, a);
    }
  }

  /** Acyclicity, one edge at a time. */
  lemma AcyclicByEdges(t: Topology)
    requires forall a, b :: Edge(t, a, b) ==> !Reaches(t, b, a)
    ensures Acyclic(t)
  {
    forall a, p | p != []
      ensures !Path(t, a, p, a)
    {
      assert Path(t, p[0], p[1..], a) ==> Reaches(t, p[0], a);
    }
  }

  lemma PathWithin(t: Topology, u: Topology, a: string, p: seq<string>, b: string)
    requires Within(t, u) && Path(t, a, p, b)
    ensures Path(u, a, p, b)
    decreases |p|
  {
    if p != [] {
      PathWithin(t, u, p[0], p[1..], b);
    }
  }

  lemma ReachesWithin(t: Topology, u: Topology, a: string, b: string)
    requires Within(t, u) && Reaches(t, a, b)
    ensures Reaches(u, a, b)
  {
    var p :| Path(t, a, p, b);
    PathWithin(t, u, a, p, b);
  }

  lemma AcyclicWithin(t: Topology, u: Topology)
    requires Within(t, u) && Acyclic(u)
    ensures Acyclic(t)
  {
    forall a, p | p != []
      ensures !Path(t, a, p, a)
    {
      if Path(t, a, p, a) {
        PathWithin(t, u, a, p, a);
      }
    }
  }

  lemma PathStaysIn(t: Topology, s: iset<string>, a: string, p: seq<string>, b: string)
    requires EdgeClosed(t, s) && a in s && Path(t, a, p, b)
    ensures b in s
    decreases |p|
  {
    if p != [] {
      PathStaysIn(t, s, p[0], p[1..], b);
    }
  }

  lemma ReachesStaysIn(t: Topology, s: iset<string>, a: string, b: string)
    requires EdgeClosed(t, s) && a in s && Reaches(t, a, b)
    ensures b in s
  {
    var p :| Path(t, a, p, b);
    PathStaysIn(t, s, a, p, b);
  }

  /** Following an edge backwards in an acyclic graph leaves strictly fewer ancestors: the measure of
      the cascade that stops dependents. */
  lemma AncestorsShrink(t: Topology, d: string, s: string)
    requires Acyclic(t) && Edge(t, d, s) && s in t
    ensures Ancestors(t, d) < Ancestors(t, s)
  {
    AcyclicEdge(t, d, s);
    ReachesSelf(t, s);
    forall n | n in Ancestors(t, d)
      ensures n in Ancestors(t, s)
    {
      ReachesThenEdge(t, n, d, s);
    }
    assert s in Ancestors(t, s) && s !in Ancestors(t, d);
  }

  /** Following an edge forwards leaves strictly fewer descendants: the measure of the recursion that
      starts dependencies. */
  lemma DescendantsShrink(t: Topology, s: string, d: string)
    requires Acyclic(t) && Edge(t, s, d)
    ensures Descendants(t, d) < Descendants(t, s)
  {
    AcyclicEdge(t, s, d);
    ReachesSelf(t, s);
    forall n | n in Descendants(t, d)
      ensures n in Descendants(t, s)
    {
      EdgeThenReaches(t, s, d, n);
    }
    assert s in Descendants(t, s) && s !in Descendants(t, d);
  }

  lemma AncestorsWithin(t: Topology, u: Topology, s: string)
    requires Within(t, u) && t.Keys <= u.Keys
    ensures Ancestors(t, s) <= Ancestors(u, s)
  {
    forall n | n in Ancestors(t, s)
      ensures n in Ancestors(u, s)
    {
      ReachesWithin(t, u, n, s);
    }
  }

  lemma DescendantsWithin(t: Topology, u: Topology, s: string)
    requires Within(t, u) && t.Keys <= u.Keys
    ensures Descendants(t, s) <= Descendants(u, s)
  {
    forall n | n in Descendants(t, s)
      ensures n in Descendants(u, s)
    {
      ReachesWithin(t, u, s, n);
    }
  }

  /** What can be reached after the dependencies of `v` are replaced by `ds`. */
  lemma ReplacedPath(t: Topology, v: string, ds: seq<string>, a: string, p: seq<string>, b: string)
    requires Path(t[v := ds], a, p, b)
    ensures Reaches(t, a, b) || (Reaches(t, a, v) && exists d :: d in ds && Reaches(t, d, b))
    decreases |p|
  {
    if p == [] {
      ReachesSelf(t, a);
    } else {
      ReplacedPath(t, v, ds, p[0], p[1..], b);
      if a == v {
        ReachesSelf(t, v);
      } else if Reaches(t, p[0], b) {
        EdgeThenReaches(t, a, p[0], b);
      } else {
        EdgeThenReaches(t, a, p[0], v);
      }
    }
  }

  lemma KeptReach(t: Topology, v: string, ds: seq<string>, a: string, p: seq<string>)
    requires Path(t, a, p, v)
    ensures Reaches(t[v := ds], a, v)
    decreases |p|
  {
    if a == v || p == [] {
      ReachesSelf(t[v := ds], v);
    } else {
      KeptReach(t, v, ds, p[0], p[1..]);
      EdgeThenReaches(t[v := ds], a, p[0], v);
    }
  }

  lemma ReplacedEdge(t: Topology, v: string, ds: seq<string>, a: string, b: string)
    requires Acyclic(t) && Edge(t[v := ds], a, b)
    requires forall d :: d in ds ==> !Reaches(t, d, v)
    ensures !Reaches(t[v := ds], b, a)
  {
    if Reaches(t[v := ds], b, a) {
      var p :| Path(t[v := ds], b, p, a);
      ReplacedPath(t, v, ds, b, p, a);
      if a != v {
        AcyclicEdge(t, a, b);
        var d :| d in ds && Reaches(t, d, a);
        EdgeThenReaches(t, a, b, v);
        ReachesTransitive(t, d, a, v);
      }
    }
  }

  /** Replacing the dependencies of one service keeps an acyclic graph acyclic exactly when none of the
      new dependencies already leads back to it. */
  lemma ReplaceKeepsAcyclic(t: Topology, v: string, ds: seq<string>)
    requires Acyclic(t)
    ensures Acyclic(t[v := ds]) <==> forall d :: d in ds ==> !Reaches(t, d, v)
  {
    var u := t[v := ds];
    if forall d :: d in ds ==> !Reaches(t, d, v) {
      forall a, b | Edge(u, a, b)
        ensures !Reaches(u, b, a)
      {
        ReplacedEdge(t, v, ds, a, b);
      }
      AcyclicByEdges(u);
    } else {
      var d :| d in ds && Reaches(t, d, v);
      var p :| Path(t, d, p, v);
      KeptReach(t, v, ds, d, p);
      if Acyclic(u) {
        AcyclicEdge(u, v, d);
      }
    }
  }
}
