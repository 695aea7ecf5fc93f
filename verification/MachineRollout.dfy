/** Replacing the Machines of a MachineSet one by one after the private key changed. */
module MachineRollout {
  import opened Basics

  datatype NodeRef = NoRef | NodeMissing | Present(versioned: bool)

  datatype Machine = Machine(owner: string, running: bool, node: NodeRef, deleting: bool)

  const MAX_UNHEALTHY := 1

  /** The verdict of the health check, or None where the code follows a reference that is not there. */
  datatype Verdict = Healthy | Unhealthy | Crash

  function Health(m: Machine): Verdict {
    if !m.running && m.node.NoRef? then Unhealthy
    else if m.node.NoRef? then Crash
    else if m.node.NodeMissing? then Unhealthy
    else if m.node.versioned then Healthy else Unhealthy
  }

  /** What the comments call healthy: in phase Running, with a node that has a version annotation. */
  function Documented(m: Machine): Verdict {
    if m.running && m.node == Present(true) then Healthy else Unhealthy
  }

  /** The code does not look at the phase of a machine with a node. It agrees with its comments except on a
      versioned node of a machine that is not Running, and on a Running machine without a node reference. */
  lemma HealthAsDocumented(m: Machine)
    ensures Health(m) == Healthy <==> m.node == Present(true)
    ensures Health(m) == Crash <==> m.running && m.node.NoRef?
    ensures Health(m) == Documented(m) <==>
            (m.node == Present(true) ==> m.running) && (m.node.NoRef? ==> !m.running)
  {
  }

  predicate Counts(m: Machine, g: string) {
    m.owner == g && !m.deleting && Health(m) == Healthy
  }

  type Machines = map<string, Machine>

  ghost function HealthyIn(ms: Machines, g: string): set<string> {
    set n | n in ms && Counts(ms[n], g)
  }

  ghost function KeptIn(ms: Machines, g: string): set<string> {
    set n | n in ms && ms[n].owner == g && !ms[n].deleting
  }

  datatype Answer = Yes | No | Failed

  /** The decision as a function of the number of healthy machines. */
  function Decision(replicas: nat, healthy: nat): Answer {
    if replicas == MAX_UNHEALTHY then Yes
    else if replicas - healthy < MAX_UNHEALTHY then Yes else No
  }

  /** The counting loop over the listed machines, in the order in which they are listed. */
  method IsAllowedDeletion(ms: Machines, listed: seq<string>, g: string, replicas: nat) returns (answer: Answer)
    requires forall i, j :: 0 <= i < j < |listed| ==> listed[i] != listed[j]
    requires forall n :: n in listed <==> n in ms
    ensures answer == Failed <==> replicas != 1 && exists n :: n in ms && ms[n].owner == g && ms[n].running && ms[n].node == NoRef
    ensures answer == Yes <==>
            || replicas == 1
            || ((forall n :: n in ms && ms[n].owner == g ==> !(ms[n].running && ms[n].node == NoRef)) &&
                |set n | n in ms && ms[n].owner == g && !ms[n].deleting && ms[n].node == Present(true)| >= replicas)
    ensures answer != Failed ==> answer == Decision(replicas, |HealthyIn(ms, g)|)
  {
    if replicas == MAX_UNHEALTHY {
      return Yes;
    }
    HealthyLiterally(ms, g);
    hide HealthyIn, Health, Tallied, Remaining;
    var totalHealthy := 0;
    ghost var left := ms.Keys;
    AllRemaining(listed, left);
    NoneTallied(ms, g);
    for i := 0 to |listed|
      invariant Remaining(listed, i, left)
      invariant Tallied(ms, g, left, totalHealthy)
    {
      var n := listed[i];
      var m := ms[n];
      NextRemaining(listed, i, left);
      TallyStep(ms, g, left, n, totalHealthy);
      left := left - {n};
      if m.owner == g {
        var h := Health(m);
        if h == Crash {
          return Failed;
        }
        if h == Healthy && !m.deleting {
          totalHealthy := totalHealthy + 1;
        }
      }
    }
    NoneRemaining(listed, left);
    AllTallied(ms, g, totalHealthy);
    answer := if replicas - totalHealthy < MAX_UNHEALTHY then Yes else No;
  }

  lemma HealthyLiterally(ms: Machines, g: string)
    ensures HealthyIn(ms, g) == set n | n in ms && ms[n].owner == g && !ms[n].deleting && ms[n].node == Present(true)
    ensures forall n :: n in ms ==> (Health(ms[n]) == Crash <==> ms[n].running && ms[n].node == NoRef)
  {
  }

  /** `left` are the names listed from `i` on. */
  ghost predicate Remaining(listed: seq<string>, i: nat, left: set<string>)
    requires i <= |listed|
  {
    forall n :: n in left <==> n in listed[i..]
  }

  lemma AllRemaining(listed: seq<string>, left: set<string>)
    requires forall n :: n in left <==> n in listed
    ensures Remaining(listed, 0, left)
  {
    assert listed[0..] == listed;
  }

  lemma NextRemaining(listed: seq<string>, i: nat, left: set<string>)
    requires i < |listed| && Remaining(listed, i, left)
    requires forall k, l :: 0 <= k < l < |listed| ==> listed[k] != listed[l]
    ensures listed[i] in left && Remaining(listed, i + 1, left - {listed[i]})
  {
    assert listed[i..] == [listed[i]] + listed[i + 1..];
  }

  lemma NoneRemaining(listed: seq<string>, left: set<string>)
    requires Remaining(listed, |listed|, left)
    ensures left == {}
  {
  }

  /** `total` of the machines outside `left` count, and none of them fails the check. */
  ghost predicate Tallied(ms: Machines, g: string, left: set<string>, total: nat) {
    && total == |HealthyIn(ms, g) - left|
    && (forall n :: n in ms && n !in left && ms[n].owner == g ==> Health(ms[n]) != Crash)
  }

  lemma NoneTallied(ms: Machines, g: string)
    ensures Tallied(ms, g, ms.Keys, 0)
  {
    assert HealthyIn(ms, g) - ms.Keys == {};
  }

  lemma AllTallied(ms: Machines, g: string, total: nat)
    requires Tallied(ms, g, {}, total)
    ensures total == |HealthyIn(ms, g)|
    ensures forall n :: n in ms && ms[n].owner == g ==> Health(ms[n]) != Crash
  {
    assert HealthyIn(ms, g) - {} == HealthyIn(ms, g);
  }

  lemma TallyStep(ms: Machines, g: string, left: set<string>, n: string, total: nat)
    requires n in left && n in ms && Tallied(ms, g, left, total)
    ensures !(ms[n].owner == g && Health(ms[n]) == Crash) ==>
              Tallied(ms, g, left - {n}, if Counts(ms[n], g) then total + 1 else total)
  {
    hide Health;
    var h := HealthyIn(ms, g);
    if Counts(ms[n], g) {
      assert h - (left - {n}) == (h - left) + {n};
    } else {
      assert h - (left - {n}) == h - left;
    }
  }

  // Runs

  /** The key-rotation branch of the one Machine reconcile that runs at a time. */
  datatype Branch = Idle | Considering(m: string, deleting: bool) | Decided(m: string, deleting: bool)

  /** The machines, the replicas each MachineSet asks for, and the branch. */
  datatype State = State(ms: Machines, replicas: map<string, nat>, branch: Branch)

  datatype Write = Done | Refused | DoneButError

  datatype Event =
    | Create(m: string, owner: string)
    | Progress(m: string, running: bool, node: NodeRef)
    | Gone(m: string)
    | Read(m: string)
    | Decide
    | Delete(w: Write)

  /** A machine with an outdated key whose node carries the version annotation is considered; MachineSets
      fill up to their replicas, under names that are not in use; machines make progress and do not fail. */
  ghost predicate Enabled(s: State, e: Event) {
    match e
    case Create(m, g) => m !in s.ms && (s.branch.Idle? || s.branch.m != m) &&
                         g in s.replicas && |KeptIn(s.ms, g)| < s.replicas[g]
    case Progress(m, running, node) =>
      m in s.ms && (Health(s.ms[m]) == Healthy ==> Health(s.ms[m].(running := running, node := node)) == Healthy)
    case Gone(m) => m in s.ms && s.ms[m].deleting
    case Read(m) => s.branch.Idle? && m in s.ms && s.ms[m].owner in s.replicas && s.ms[m].running && s.ms[m].node == Present(true)
    case Decide => s.branch.Considering?
    case Delete(_) => s.branch.Decided?
  }

  ghost function Next(s: State, e: Event): State
    requires Enabled(s, e)
  {
    match e
    case Create(m, g) => s.(ms := s.ms[m := Machine(g, false, NoRef, false)])
    case Progress(m, running, node) => s.(ms := s.ms[m := s.ms[m].(running := running, node := node)])
    case Gone(m) => s.(ms := s.ms - {m})
    case Read(m) => s.(branch := Considering(m, s.ms[m].deleting))
    case Decide => s.(branch := if Allowed(s, s.branch.m) then Decided(s.branch.m, s.branch.deleting) else Idle)
    case Delete(w) =>
      State(if Deletes(s, w) then s.ms[s.branch.m := s.ms[s.branch.m].(deleting := true)] else s.ms, s.replicas, Idle)
  }

  /** The outcome of the counting loop for the MachineSet of `m`; it fails if the machine is gone. */
  ghost predicate Allowed(s: State, m: string) {
    && m in s.ms && s.ms[m].owner in s.replicas
    && (s.replicas[s.ms[m].owner] == MAX_UNHEALTHY ||
        forall n :: n in s.ms && s.ms[n].owner == s.ms[m].owner ==> Health(s.ms[n]) != Crash)
    && Decision(s.replicas[s.ms[m].owner], |HealthyIn(s.ms, s.ms[m].owner)|) == Yes
  }

  /** The write marks the machine for deletion, unless the machine read was marked already. */
  predicate Deletes(s: State, w: Write)
    requires s.branch.Decided?
  {
    !s.branch.deleting && !w.Refused? && s.branch.m in s.ms
  }

  ghost predicate Run(s: State, es: seq<Event>)
    decreases |es|
  {
    es == [] || (Enabled(s, es[0]) && Run(Next(s, es[0]), es[1..]))
  }

  ghost function After(s: State, es: seq<Event>): State
    requires Run(s, es)
    decreases |es|
  {
    if es == [] then s else After(Next(s, es[0]), es[1..])
  }

  /** No MachineSet keeps more machines than it asks for, and a decided deletion is still allowed. */
  ghost predicate Inv(s: State) {
    && (forall g :: g in s.replicas ==> |KeptIn(s.ms, g)| <= s.replicas[g])
    && (s.branch.Decided? && s.branch.m in s.ms ==> DecidedStill(s, s.branch.m, s.branch.deleting))
    && (s.branch.Considering? && s.branch.m in s.ms ==> ReadStill(s, s.branch.m, s.branch.deleting))
  }

  ghost predicate ReadStill(s: State, m: string, deleting: bool)
    requires m in s.ms
  {
    Health(s.ms[m]) == Healthy && s.ms[m].deleting == deleting && s.ms[m].owner in s.replicas
  }

  ghost predicate DecidedStill(s: State, m: string, deleting: bool)
    requires m in s.ms
  {
    && ReadStill(s, m, deleting)
    && (s.replicas[s.ms[m].owner] >= 2 ==> |HealthyIn(s.ms, s.ms[m].owner)| >= s.replicas[s.ms[m].owner])
  }

  /** How one event changes the machines of a set. */
  lemma CountsNext(s: State, e: Event, g: string)
    requires Enabled(s, e)
    ensures var h, h' := HealthyIn(s.ms, g), HealthyIn(Next(s, e).ms, g);
            if e.Delete? && Deletes(s, e.w) && s.ms[s.branch.m].owner == g then h' == h - {s.branch.m} else h <= h'
    ensures var k, k' := KeptIn(s.ms, g), KeptIn(Next(s, e).ms, g);
            k' <= if e.Create? && e.owner == g then k + {e.m} else k
  {
  }

  lemma KeptNext(s: State, e: Event, g: string)
    requires Inv(s) && Enabled(s, e) && g in s.replicas
    ensures |KeptIn(Next(s, e).ms, g)| <= s.replicas[g]
  {
    var k, k' := KeptIn(s.ms, g), KeptIn(Next(s, e).ms, g);
    CountsNext(s, e, g);
    if e.Create? && e.owner == g {
      SubsetSize(k', k + {e.m});
    } else {
      SubsetSize(k', k);
    }
  }

  lemma BranchNext(s: State, e: Event)
    requires Inv(s) && Enabled(s, e)
    ensures var s' := Next(s, e);
            && (s'.branch.Considering? && s'.branch.m in s'.ms ==> ReadStill(s', s'.branch.m, s'.branch.deleting))
            && (s'.branch.Decided? && s'.branch.m in s'.ms ==> DecidedStill(s', s'.branch.m, s'.branch.deleting))
  {
    hide HealthyIn, KeptIn;
    var s' := Next(s, e);
    if s'.branch.Decided? && s'.branch.m in s'.ms {
      var g := s'.ms[s'.branch.m].owner;
      CountsNext(s, e, g);
      SubsetSize(HealthyIn(s.ms, g), HealthyIn(s'.ms, g));
    }
  }

  lemma InvNext(s: State, e: Event)
    requires Inv(s) && Enabled(s, e)
    ensures Inv(Next(s, e))
  {
    hide HealthyIn, KeptIn, ReadStill, DecidedStill;
    BranchNext(s, e);
    forall g | g in s.replicas
      ensures |KeptIn(Next(s, e).ms, g)| <= s.replicas[g]
    {
      KeptNext(s, e, g);
    }
  }

  /** With at least two replicas, a deletion takes a set from exactly its replicas healthy to one fewer, and no
      other event lowers the number of healthy machines of any set. */
  lemma DeletionStep(s: State, e: Event, g: string)
    requires Inv(s) && Enabled(s, e) && g in s.replicas && s.replicas[g] >= 2
    ensures var h, h' := |HealthyIn(s.ms, g)|, |HealthyIn(Next(s, e).ms, g)|;
            if e.Delete? && Deletes(s, e.w) && s.ms[s.branch.m].owner == g then h == s.replicas[g] && h' == h - 1
            else h' >= h
  {
    CountsNext(s, e, g);
    if e.Delete? && Deletes(s, e.w) && s.ms[s.branch.m].owner == g {
      SubsetSize(HealthyIn(s.ms, g), KeptIn(s.ms, g));
      assert s.branch.m in HealthyIn(s.ms, g);
    } else {
      SubsetSize(HealthyIn(s.ms, g), HealthyIn(Next(s, e).ms, g));
    }
  }

  lemma RunPrefix(s: State, es: seq<Event>, i: nat)
    requires Run(s, es) && i < |es|
    ensures Run(s, es[..i]) && Enabled(After(s, es[..i]), es[i])
    decreases i
  {
    if i > 0 {
      assert es[..i][1..] == es[1..][..i - 1];
      RunPrefix(Next(s, es[0]), es[1..], i - 1);
    }
  }

  lemma {:induction false} InvAlways(s: State, es: seq<Event>)
    requires Inv(s) && Run(s, es)
    ensures Inv(After(s, es)) && After(s, es).replicas == s.replicas
    decreases |es|
  {
    if es != [] {
      InvNext(s, es[0]);
      InvAlways(Next(s, es[0]), es[1..]);
    }
  }

  /** In every run, each deletion from a set of at least two replicas starts with exactly all of them healthy
      and leaves one fewer; each other event leaves at least as many. */
  lemma EveryDeletion(s: State, es: seq<Event>, i: nat, g: string)
    requires Inv(s) && Run(s, es) && i < |es| && g in s.replicas && s.replicas[g] >= 2
    ensures Run(s, es[..i]) && Enabled(After(s, es[..i]), es[i])
    ensures var now := After(s, es[..i]);
            var h, h' := |HealthyIn(now.ms, g)|, |HealthyIn(Next(now, es[i]).ms, g)|;
            if es[i].Delete? && Deletes(now, es[i].w) && now.ms[now.branch.m].owner == g
            then h == s.replicas[g] && h' == h - 1
            else h' >= h
  {
    hide Inv, Run, After, Enabled, HealthyIn;
    RunPrefix(s, es, i);
    InvAlways(s, es[..i]);
    DeletionStep(After(s, es[..i]), es[i], g);
  }

  /** In every run from a state with at most one machine missing, at most one is ever missing. */
  lemma {:induction false} NeverBelow(s: State, es: seq<Event>, g: string)
    requires Inv(s) && Run(s, es) && g in s.replicas && s.replicas[g] >= 2
    requires |HealthyIn(s.ms, g)| >= s.replicas[g] - 1
    ensures |HealthyIn(After(s, es).ms, g)| >= s.replicas[g] - 1
    decreases |es|
  {
    if es != [] {
      InvNext(s, es[0]);
      DeletionStep(s, es[0], g);
      NeverBelow(Next(s, es[0]), es[1..], g);
    }
  }

  // A rollout can be carried out

  /** The MachineSet asks for at least two machines, has exactly those, all of them healthy, and nobody decides. */
  ghost predicate Steady(s: State, g: string) {
    && s.branch.Idle? && g in s.replicas && s.replicas[g] >= 2
    && (forall n :: n in s.ms && s.ms[n].owner == g ==> s.ms[n] == Machine(g, true, Present(true), false))
    && |set n | n in s.ms && s.ms[n].owner == g| == s.replicas[g]
  }

  /** The state with the machine `m` replaced by a new one under the name `m'`. */
  ghost function Replaced(s: State, g: string, m: string, m': string): State {
    s.(ms := (s.ms - {m})[m' := Machine(g, true, Present(true), false)])
  }

  /** Reading an outdated machine, deciding, deleting it, and its replacement coming up. */
  function Replacement(g: string, m: string, m': string): seq<Event> {
    [Read(m), Decide, Delete(Done), Gone(m), Create(m', g), Progress(m', true, Present(true))]
  }

  lemma RunFirst(s: State, e: Event, es: seq<Event>)
    requires Enabled(s, e) && Run(Next(s, e), es)
    ensures Run(s, [e] + es) && After(s, [e] + es) == After(Next(s, e), es)
  {
    assert ([e] + es)[1..] == es;
  }

  lemma {:induction false} RunJoin(s: State, a: seq<Event>, b: seq<Event>)
    requires Run(s, a) && Run(After(s, a), b)
    ensures Run(s, a + b) && After(s, a + b) == After(After(s, a), b)
    decreases |a|
  {
    if a == [] {
      assert a + b == b;
    } else {
      RunJoin(Next(s, a[0]), a[1..], b);
      RunFirst(s, a[0], a[1..] + b);
      assert a + b == [a[0]] + (a[1..] + b);
    }
  }

  lemma SteadyAllows(s: State, g: string, m: string)
    requires Steady(s, g) && m in s.ms && s.ms[m].owner == g
    ensures HealthyIn(s.ms, g) == KeptIn(s.ms, g) == set n | n in s.ms && s.ms[n].owner == g
    ensures Enabled(s, Read(m)) && Allowed(s, m)
  {
    assert HealthyIn(s.ms, g) == set n | n in s.ms && s.ms[n].owner == g;
    assert KeptIn(s.ms, g) == set n | n in s.ms && s.ms[n].owner == g;
  }

  lemma SteadyReplaced(s: State, g: string, m: string, m': string)
    requires Steady(s, g) && m in s.ms && s.ms[m].owner == g && m' !in s.ms
    ensures Steady(Replaced(s, g, m, m'), g)
  {
    var u := Replaced(s, g, m, m');
    assert (set n | n in u.ms && u.ms[n].owner == g) == (set n | n in s.ms && s.ms[n].owner == g) - {m} + {m'};
  }

  lemma FirstHalf(s: State, g: string, m: string)
    requires Steady(s, g) && m in s.ms && s.ms[m].owner == g
    ensures var s1, s2 := s.(branch := Considering(m, false)), s.(branch := Decided(m, false));
            && Enabled(s, Read(m)) && Next(s, Read(m)) == s1
            && Enabled(s1, Decide) && Next(s1, Decide) == s2
            && Enabled(s2, Delete(Done)) && Next(s2, Delete(Done)) == s.(ms := s.ms[m := s.ms[m].(deleting := true)])
  {
    SteadyAllows(s, g, m);
  }

  lemma SecondHalf(s: State, g: string, m: string, m': string)
    requires Steady(s, g) && m in s.ms && s.ms[m].owner == g && m' !in s.ms
    ensures var s3, s4 := s.(ms := s.ms[m := s.ms[m].(deleting := true)]), s.(ms := s.ms - {m});
            var s5 := s.(ms := (s.ms - {m})[m' := Machine(g, false, NoRef, false)]);
            && Enabled(s3, Gone(m)) && Next(s3, Gone(m)) == s4
            && Enabled(s4, Create(m', g)) && Next(s4, Create(m', g)) == s5
            && Enabled(s5, Progress(m', true, Present(true))) &&
               Next(s5, Progress(m', true, Present(true))) == Replaced(s, g, m, m')
  {
    SteadyAllows(s, g, m);
    assert KeptIn((s.ms - {m}), g) == KeptIn(s.ms, g) - {m};
  }

  /** With all machines of a set healthy, the deletion of any of them is allowed and carried out, and the MachineSet
      brings up a new one. */
  lemma MachineReplaced(s: State, g: string, m: string, m': string)
    requires Steady(s, g) && m in s.ms && s.ms[m].owner == g && m' !in s.ms
    ensures var es := Replacement(g, m, m');
            Run(s, es) && After(s, es) == Replaced(s, g, m, m')
    ensures Steady(Replaced(s, g, m, m'), g)
  {
    FirstHalf(s, g, m);
    SecondHalf(s, g, m, m');
    SteadyReplaced(s, g, m, m');
    hide Enabled, Next, Steady;
    var s1 := s.(branch := Considering(m, false));
    var s2 := s.(branch := Decided(m, false));
    var s3 := s.(ms := s.ms[m := s.ms[m].(deleting := true)]);
    var s4 := s.(ms := s.ms - {m});
    var s5 := s.(ms := (s.ms - {m})[m' := Machine(g, false, NoRef, false)]);
    RunFirst(s5, Progress(m', true, Present(true)), []);
    RunFirst(s4, Create(m', g), [Progress(m', true, Present(true))]);
    RunFirst(s3, Gone(m), [Create(m', g), Progress(m', true, Present(true))]);
    RunFirst(s2, Delete(Done), [Gone(m), Create(m', g), Progress(m', true, Present(true))]);
    RunFirst(s1, Decide, [Delete(Done), Gone(m), Create(m', g), Progress(m', true, Present(true))]);
    RunFirst(s, Read(m), [Decide, Delete(Done), Gone(m), Create(m', g), Progress(m', true, Present(true))]);
  }

  /** So the whole set can be replaced, machine by machine, whatever names the new ones get. */
  lemma {:induction false} RolloutCompletes(s: State, g: string, olds: seq<string>, news: seq<string>) returns (es: seq<Event>)
    requires Steady(s, g) && |olds| == |news|
    requires forall i :: 0 <= i < |olds| ==> olds[i] in s.ms && s.ms[olds[i]].owner == g && news[i] !in s.ms
    requires forall i, j :: 0 <= i < j < |olds| ==> olds[i] != olds[j] && news[i] != news[j]
    ensures Run(s, es) && Steady(After(s, es), g)
    ensures After(s, es).ms.Keys == (s.ms.Keys - set n | n in olds) + set n | n in news
    decreases |olds|
  {
    if olds == [] {
      es := [];
      assert s.ms.Keys == (s.ms.Keys - {}) + {};
    } else {
      var m, m' := olds[0], news[0];
      MachineReplaced(s, g, m, m');
      var u := Replaced(s, g, m, m');
      hide Steady, Run, After, Enabled;
      var rest := RolloutCompletes(u, g, olds[1..], news[1..]);
      es := Replacement(g, m, m') + rest;
      RunJoin(s, Replacement(g, m, m'), rest);
      NamesReplaced(s.ms.Keys, olds, news);
    }
  }

  lemma NamesReplaced(names: set<string>, olds: seq<string>, news: seq<string>)
    requires olds != [] && |olds| == |news|
    requires forall i :: 0 <= i < |olds| ==> olds[i] in names && news[i] !in names
    ensures (names - {olds[0]} + {news[0]} - set n | n in olds[1..]) + (set n | n in news[1..]) ==
            (names - set n | n in olds) + set n | n in news
  {
    assert olds == [olds[0]] + olds[1..] && news == [news[0]] + news[1..];
  }
}
