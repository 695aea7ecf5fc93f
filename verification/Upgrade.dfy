/** Upgrading nodes: any number of controllers of the operator, and the daemon on every instance, share
    labels and annotations through an API whose calls may fail, with or without effect. One event is one API
    call or one outcome of remote work, and a run is any interleaving of events. Reads are assumed to see
    earlier writes, and no two controllers work on the same node at a time. */
module Upgrade {
  import opened Basics

  /** One pass of the daemon's Reconcile, for the desired version it read. */
  datatype Daemon =
    | Waiting
    | Fetching(v: string)
    | Checking(v: string)
    | Reconciling(v: string)
    | AwaitingReady(v: string)
    | Annotating(v: string)

  datatype Node = Node(upgrading: bool, version: Option<string>, desired: Option<string>, cordoned: bool, reboot: bool)

  /** What a controller is doing in ensureInstanceIsUpToDate, and for which node. */
  datatype Work =
    | Free
    | Started(node: string, seen: Option<string>)
    | Locked(node: string)
    | Allowed(node: string)
    | Marked(node: string)
    | Drained(node: string)
    | Cleaned(node: string)
    | Configuring(node: string)
    | Bootstrapped(node: string)
    | Serving(node: string)
    | DesiredSet(node: string)
    | Observed(node: string)
    | Uncordoned(node: string)
    | Failing(node: string)

  /** The Node objects, the daemons of the instances where its service is installed, the controllers and
      the lock that they share. */
  datatype State = State(nodes: map<string, Node>, daemons: map<string, Daemon>, works: map<string, Work>,
                         lock: Option<string>)

  /** The version of the running operator, and the cap on parallel upgrades. */
  datatype Operator = Operator(version: string, maxParallel: nat)

  /** The fate of one write: done, refused, or done although an error came back. */
  datatype Write = Done | Refused | DoneButError

  /** What a run of the cleanup command did: whether the daemon's service was removed first, the write of the
      reboot annotation when variables or certificates were removed, and whether the version was removed. */
  datatype Wipe = Wipe(stopped: bool, annotated: Option<Write>, removed: bool)

  /** Registering and deleting the Node object, restarting the instance or the daemon's process, removing the
      reboot annotation, and cleaning up an instance that is to be removed. */
  datatype Change = Register | Unregister | Restarted | RebootCleared(w: Write) | Wiped(r: Wipe)

  /** `annotated` is the write of the reboot annotation, when variables or certificates were changed. */
  datatype DaemonEvent =
    | ReadDesired
    | Fetched(ok: bool)
    | EnvAndCerts(annotated: Option<Write>, ok: bool)
    | ServicesReconciled(ok: bool)
    | NodeReady(ok: bool)
    | WriteVersion(w: Write)

  datatype Action =
    | Begin(node: string)
    | StopUpToDate
    | TakeLock
    | NoUpgrade
    | ListUpgrading(ok: bool)
    | ApplyLabel(w: Write)
    | Drain(cordon: Write, ok: bool)
    | Cleanup(r: Wipe, ok: bool)
    | AwaitReboot(ok: bool)
    | Cordon
    | Abort
    | Bootstrap(r: Wipe, ok: bool)
    | StartDaemon(started: bool, ok: bool)
    | SetDesired(w: Write)
    | Observe
    | Uncordon(w: Write)
    | DropLabel(w: Write)
    | GiveUp(r: Wipe)

  datatype Event =
    | Env(n: string, change: Change)
    | OnNode(n: string, d: DaemonEvent)
    | Act(c: string, a: Action)

  ghost function UpgradingNodes(s: State): set<string> {
    set n | n in s.nodes && s.nodes[n].upgrading
  }

  predicate WorksOn(s: State, c: string, n: string) {
    c in s.works && !s.works[c].Free? && s.works[c].node == n
  }

  predicate Wrote(annotated: Option<Write>) {
    annotated.Some? && !annotated.value.Refused?
  }

  // The cleanup command

  /** The command runs only once the service is gone; an error stops it; it cannot change a missing node. */
  predicate Possible(r: Wipe, present: bool) {
    && (r.annotated.Some? || r.removed ==> r.stopped)
    && (r.removed ==> r.annotated == None || r.annotated == Some(Done))
    && (Wrote(r.annotated) || r.removed ==> present)
  }

  /** Neither the removal of the service nor the annotation came back with an error. */
  predicate Clean(r: Wipe) {
    r.stopped && (r.annotated == None || r.annotated == Some(Done))
  }

  function WipeNode(x: Node, r: Wipe): Node {
    x.(version := if r.removed then None else x.version, reboot := x.reboot || Wrote(r.annotated))
  }

  // The daemon

  predicate DaemonEnabled(d: Daemon, x: Option<Node>, e: DaemonEvent) {
    match e
    case ReadDesired => d.Waiting? && x.Some? && x.value.desired.Some?
    case Fetched(_) => d.Fetching?
    case EnvAndCerts(annotated, _) => d.Checking? && (Wrote(annotated) ==> x.Some?)
    case ServicesReconciled(_) => d.Reconciling?
    case NodeReady(ok) => d.AwaitingReady? && (ok ==> x.Some?)
    case WriteVersion(w) => d.Annotating? && (w.Refused? || x.Some?)
  }

  function DaemonStep(d: Daemon, x: Option<Node>, e: DaemonEvent): Daemon
    requires DaemonEnabled(d, x, e)
  {
    match e
    case ReadDesired => Fetching(x.value.desired.value)
    case Fetched(ok) => if ok then Checking(d.v) else Waiting
    case EnvAndCerts(annotated, ok) => if ok && annotated == None then Reconciling(d.v) else Waiting
    case ServicesReconciled(ok) => if ok then AwaitingReady(d.v) else Waiting
    case NodeReady(ok) => if ok then Annotating(d.v) else Waiting
    case WriteVersion(_) => Waiting
  }

  /** What the daemon does to its Node object. */
  function DaemonWrite(d: Daemon, x: Node, e: DaemonEvent): Node
    requires DaemonEnabled(d, Some(x), e)
  {
    match e
    case EnvAndCerts(annotated, _) => x.(reboot := x.reboot || Wrote(annotated))
    case WriteVersion(w) => if w.Refused? then x else x.(version := Some(d.v))
    case _ => x
  }

  // The controllers

  /** The node carried the operator's own version when it was read. */
  predicate UpToDate(op: Operator, seen: Option<string>) {
    seen == Some(op.version)
  }

  /** It carried some other version; without any, it is only to be configured. */
  predicate UpgradeRequired(op: Operator, seen: Option<string>) {
    !UpToDate(op, seen) && seen.Some?
  }

  /** In the part of Configure after which a failure is followed by another cleanup. */
  predicate Guarded(w: Work) {
    w.Bootstrapped? || w.Serving? || w.DesiredSet? || w.Observed? || w.Uncordoned? || w.Failing?
  }

  ghost predicate ActEnabled(op: Operator, s: State, w: Work, a: Action) {
    match a
    case Begin(n) => w.Free? && forall d :: !WorksOn(s, d, n)
    case StopUpToDate => w.Started? && UpToDate(op, w.seen)
    case TakeLock => w.Started? && UpgradeRequired(op, w.seen) && s.lock == None
    case NoUpgrade => w.Started? && !UpToDate(op, w.seen) && !UpgradeRequired(op, w.seen)
    case ListUpgrading(_) => w.Locked?
    case ApplyLabel(o) => w.Allowed? && (o.Refused? || w.node in s.nodes)
    case Drain(o, _) => w.Marked? && (o.Refused? || w.node in s.nodes)
    case Cleanup(r, ok) => w.Drained? && Possible(r, w.node in s.nodes) && (ok ==> Clean(r))
    case AwaitReboot(ok) => w.Cleaned? && (ok ==> w.node in s.nodes && !s.nodes[w.node].reboot)
    case Cordon => (w.Configuring? || w.Bootstrapped?) && w.node in s.nodes
    case Abort => w.Configuring?
    case Bootstrap(r, ok) => w.Configuring? && Possible(r, w.node in s.nodes) && (ok ==> Clean(r))
    case StartDaemon(started, ok) => w.Bootstrapped? && (ok ==> started)
    case SetDesired(o) => w.Serving? && (o.Refused? || w.node in s.nodes)
    case Observe => w.DesiredSet? && w.node in s.nodes && s.nodes[w.node].desired.Some? &&
                    s.nodes[w.node].version == s.nodes[w.node].desired
    case Uncordon(o) => w.Observed? && (o.Refused? || w.node in s.nodes)
    case DropLabel(_) => w.Uncordoned?
    case GiveUp(r) => Guarded(w) && Possible(r, w.node in s.nodes)
  }

  /** The run of the cleanup command that is part of the action. */
  function WipeOf(a: Action): Option<Wipe> {
    match a
    case Cleanup(r, _) => Some(r)
    case Bootstrap(r, _) => Some(r)
    case GiveUp(r) => Some(r)
    case _ => None
  }

  /** What the action does to the node that the controller works on. */
  function NodeStep(op: Operator, x: Node, a: Action): Node {
    match a
    case ApplyLabel(w) => if w.Refused? then x else x.(upgrading := true)
    case Drain(w, _) => if w.Refused? then x else x.(cordoned := true)
    case Cordon => x.(cordoned := true)
    case SetDesired(w) => if w.Refused? then x else x.(desired := Some(op.version))
    case Uncordon(w) => if w.Refused? then x else x.(cordoned := false)
    case DropLabel(w) => if w.Refused? then x else x.(upgrading := false)
    case _ => if WipeOf(a).Some? then WipeNode(x, WipeOf(a).value) else x
  }

  ghost function WorkStep(op: Operator, s: State, w: Work, a: Action): Work
    requires ActEnabled(op, s, w, a)
  {
    match a
    case Begin(n) => Started(n, if n in s.nodes then s.nodes[n].version else None)
    case StopUpToDate => Free
    case TakeLock => Locked(w.node)
    case NoUpgrade => Configuring(w.node)
    case ListUpgrading(ok) =>
      if !ok then Free
      else if w.node in UpgradingNodes(s) then Marked(w.node)
      else if |UpgradingNodes(s)| >= op.maxParallel then Free
      else Allowed(w.node)
    case ApplyLabel(o) => if o.Done? then Marked(w.node) else Free
    case Drain(o, ok) => if o.Done? && ok then Drained(w.node) else Free
    case Cleanup(_, ok) => if ok then Cleaned(w.node) else Free
    case AwaitReboot(ok) => if ok then Configuring(w.node) else Free
    case Cordon => w
    case Abort => Free
    case Bootstrap(_, ok) => if ok then Bootstrapped(w.node) else Free
    case StartDaemon(_, ok) => if ok then Serving(w.node) else Failing(w.node)
    case SetDesired(o) => if o.Done? then DesiredSet(w.node) else Failing(w.node)
    case Observe => Observed(w.node)
    case Uncordon(o) => if o.Done? then Uncordoned(w.node) else Failing(w.node)
    case DropLabel(o) => if o.Done? then Free else Failing(w.node)
    case GiveUp(_) => Free
  }

  ghost function LockStep(op: Operator, s: State, c: string, a: Action): Option<string>
    requires c in s.works && ActEnabled(op, s, s.works[c], a)
  {
    match a
    case TakeLock => Some(c)
    case ListUpgrading(_) => if WorkStep(op, s, s.works[c], a).Allowed? then s.lock else None
    case ApplyLabel(_) => None
    case _ => s.lock
  }

  // Runs

  function NodeAt(s: State, n: string): Option<Node> {
    if n in s.nodes then Some(s.nodes[n]) else None
  }

  ghost predicate Enabled(op: Operator, s: State, e: Event) {
    match e
    case Env(n, Register) => n !in s.nodes
    case Env(n, Unregister) => n in s.nodes
    case Env(n, Restarted) => n in s.daemons
    case Env(n, RebootCleared(_)) => n in s.nodes
    case Env(n, Wiped(r)) => Possible(r, n in s.nodes)
    case OnNode(n, d) => n in s.daemons && DaemonEnabled(s.daemons[n], NodeAt(s, n), d)
    case Act(c, a) => c in s.works && ActEnabled(op, s, s.works[c], a)
  }

  ghost function Next(op: Operator, s: State, e: Event): State
    requires Enabled(op, s, e)
  {
    match e
    case Env(n, change) => s.(nodes := EnvNodes(s, n, change), daemons := EnvDaemons(s, n, change))
    case OnNode(n, d) =>
      s.(nodes := if n in s.nodes then s.nodes[n := DaemonWrite(s.daemons[n], s.nodes[n], d)] else s.nodes,
         daemons := s.daemons[n := DaemonStep(s.daemons[n], NodeAt(s, n), d)])
    case Act(c, a) =>
      State(ActNodes(op, s, s.works[c], a), ActDaemons(s, s.works[c], a),
            s.works[c := WorkStep(op, s, s.works[c], a)], LockStep(op, s, c, a))
  }

  function EnvNodes(s: State, n: string, change: Change): map<string, Node> {
    match change
    case Register => s.nodes[n := Node(false, None, None, false, false)]
    case Unregister => s.nodes - {n}
    case Restarted => s.nodes
    case RebootCleared(w) => if n in s.nodes && !w.Refused? then s.nodes[n := s.nodes[n].(reboot := false)] else s.nodes
    case Wiped(r) => if n in s.nodes then s.nodes[n := WipeNode(s.nodes[n], r)] else s.nodes
  }

  function EnvDaemons(s: State, n: string, change: Change): map<string, Daemon> {
    match change
    case Restarted => s.daemons[n := Waiting]
    case Wiped(r) => if r.stopped then s.daemons - {n} else s.daemons
    case _ => s.daemons
  }

  function ActNodes(op: Operator, s: State, w: Work, a: Action): map<string, Node> {
    if !w.Free? && w.node in s.nodes then s.nodes[w.node := NodeStep(op, s.nodes[w.node], a)] else s.nodes
  }

  function ActDaemons(s: State, w: Work, a: Action): map<string, Daemon> {
    if w.Free? then s.daemons
    else if WipeOf(a).Some? && WipeOf(a).value.stopped then s.daemons - {w.node}
    else if a.StartDaemon? && a.started then s.daemons[w.node := Waiting]
    else s.daemons
  }

  ghost predicate Run(op: Operator, s: State, es: seq<Event>)
    decreases |es|, 0
  {
    es == [] || (Run(op, s, es[..|es| - 1]) && Enabled(op, After(op, s, es[..|es| - 1]), es[|es| - 1]))
  }

  /** The state after a run. */
  ghost function After(op: Operator, s: State, es: seq<Event>): State
    requires Run(op, s, es)
    decreases |es|, 1
  {
    if es == [] then s else Next(op, After(op, s, es[..|es| - 1]), es[|es| - 1])
  }

  /** No controller at work, and the daemons between passes. */
  ghost predicate Initial(op: Operator, s: State) {
    && (forall c :: c in s.works ==> s.works[c].Free?)
    && s.lock == None
    && |UpgradingNodes(s)| <= op.maxParallel
    && (forall n :: n in s.daemons ==> s.daemons[n].Waiting?)
  }

  lemma {:induction false} RunPrefix(op: Operator, s: State, es: seq<Event>, i: nat)
    requires Run(op, s, es) && i <= |es|
    ensures Run(op, s, es[..i])
    decreases |es|
  {
    if i == |es| {
      assert es[..i] == es;
    } else {
      RunPrefix(op, s, es[..|es| - 1], i);
      assert es[..|es| - 1][..i] == es[..i];
    }
  }

  // The invariant

  ghost predicate Exclusive(s: State) {
    forall c, d, n :: WorksOn(s, c, n) && WorksOn(s, d, n) ==> c == d
  }

  /** The lock is held exactly while somebody counts the upgrading nodes and labels one more. */
  ghost predicate LockHeld(s: State) {
    forall c :: c in s.works && (s.works[c].Locked? || s.works[c].Allowed?) <==> s.lock == Some(c)
  }

  /** The cap, with room for the node about to be labelled. */
  ghost predicate Capped(op: Operator, s: State) {
    && |UpgradingNodes(s)| <= op.maxParallel
    && (forall c :: c in s.works && s.works[c].Allowed? ==> |UpgradingNodes(s)| < op.maxParallel)
  }

  ghost predicate DesiredKept(op: Operator, s: State) {
    forall c :: c in s.works && s.works[c].DesiredSet? && s.works[c].node in s.nodes ==>
                  s.nodes[s.works[c].node].desired in {None, Some(op.version)}
  }

  ghost predicate Inv(op: Operator, s: State) {
    Exclusive(s) && LockHeld(s) && Capped(op, s) && DesiredKept(op, s)
  }

  lemma InvInitially(op: Operator, s: State)
    requires Initial(op, s)
    ensures Inv(op, s)
  {
  }

  /** How the set of upgrading nodes changes in one event. */
  lemma UpgradingStep(op: Operator, s: State, e: Event)
    requires Enabled(op, s, e) && Inv(op, s)
    ensures var before, after := UpgradingNodes(s), UpgradingNodes(Next(op, s, e));
            || after == before
            || (e.Env? && e.change.Unregister? && after == before - {e.n})
            || (e.Act? && e.a.DropLabel? && after == before - {s.works[e.c].node})
            || (e.Act? && e.a.ApplyLabel? && after == before + {s.works[e.c].node})
    ensures e.Act? && e.a.ApplyLabel? && e.a.w.Done? ==> s.works[e.c].node in UpgradingNodes(Next(op, s, e))
    ensures |UpgradingNodes(Next(op, s, e))| <= |UpgradingNodes(s)| + if e.Act? && e.a.ApplyLabel? then 1 else 0
  {
    if e.Act? {
      UpgradingAct(op, s, e.c, e.a);
    } else {
      hide Inv, ActEnabled, WorkStep, NodeStep, LockStep;
      var before, after := UpgradingNodes(s), UpgradingNodes(Next(op, s, e));
      if e.Env? && e.change.Unregister? {
        assert after == before - {e.n};
      } else {
        assert after == before;
      }
    }
  }

  lemma UpgradingAct(op: Operator, s: State, c: string, a: Action)
    requires Enabled(op, s, Act(c, a))
    ensures var before, after := UpgradingNodes(s), UpgradingNodes(Next(op, s, Act(c, a)));
            after == if a.ApplyLabel? && !a.w.Refused? then before + {s.works[c].node}
                     else if a.DropLabel? && !a.w.Refused? then before - {s.works[c].node}
                     else before
  {
    hide WorkStep, LockStep;
  }

  lemma ExclusiveNext(op: Operator, s: State, e: Event)
    requires Enabled(op, s, e) && Inv(op, s)
    ensures Exclusive(Next(op, s, e)) && LockHeld(Next(op, s, e))
  {
    var s' := Next(op, s, e);
    forall d, n | WorksOn(s', d, n)
      ensures WorksOn(s, d, n) || (e == Act(d, Begin(n)) && forall c :: !WorksOn(s, c, n))
    {
    }
  }

  lemma CappedNext(op: Operator, s: State, e: Event)
    requires Enabled(op, s, e) && Inv(op, s)
    ensures Capped(op, Next(op, s, e))
  {
    var s' := Next(op, s, e);
    UpgradingStep(op, s, e);
    forall c | c in s'.works && s'.works[c].Allowed?
      ensures |UpgradingNodes(s')| < op.maxParallel
    {
      assert c in s.works;
    }
  }

  lemma OthersUntouched(op: Operator, s: State, e: Event, c: string)
    requires Enabled(op, s, e) && Inv(op, s) && c in s.works && !s.works[c].Free? && !(e.Act? && e.c == c)
    ensures Next(op, s, e).works[c] == s.works[c]
    ensures e.Act? ==> !WorksOn(s, e.c, s.works[c].node)
  {
    assert WorksOn(s, c, s.works[c].node);
  }

  lemma DesiredNext(op: Operator, s: State, e: Event)
    requires Enabled(op, s, e) && Inv(op, s)
    ensures DesiredKept(op, Next(op, s, e))
  {
    var s' := Next(op, s, e);
    forall c | c in s'.works && s'.works[c].DesiredSet? && s'.works[c].node in s'.nodes
      ensures s'.nodes[s'.works[c].node].desired in {None, Some(op.version)}
    {
      if !(e.Act? && e.c == c) {
        OthersUntouched(op, s, e, c);
      }
    }
  }

  lemma {:induction false} InvAlways(op: Operator, s: State, es: seq<Event>)
    requires Initial(op, s) && Run(op, s, es)
    ensures Inv(op, After(op, s, es))
    decreases |es|
  {
    if es == [] {
      InvInitially(op, s);
    } else {
      var prefix, e := es[..|es| - 1], es[|es| - 1];
      InvAlways(op, s, prefix);
      var now := After(op, s, prefix);
      ExclusiveNext(op, now, e);
      CappedNext(op, now, e);
      DesiredNext(op, now, e);
    }
  }

  // Theorems about every run

  /** The label of a node disappears only when the node does, or in the last step of a Configure. */
  lemma LabelStep(op: Operator, s: State, e: Event, n: string)
    requires Enabled(op, s, e) && Inv(op, s) && n in UpgradingNodes(s)
    ensures || n in UpgradingNodes(Next(op, s, e))
            || e == Env(n, Unregister)
            || (e.Act? && s.works[e.c] == Uncordoned(n) && e.a.DropLabel?)
  {
    UpgradingStep(op, s, e);
  }

  /** The node was unregistered after `c` last asked for leave to upgrade it. */
  ghost predicate UnregisteredSince(es: seq<Event>, c: string, n: string) {
    es != [] &&
    var prefix, e := es[..|es| - 1], es[|es| - 1];
    if e.Act? && e.c == c && (e.a.ListUpgrading? || e.a.ApplyLabel?) then false
    else e == Env(n, Unregister) || UnregisteredSince(prefix, c, n)
  }

  predicate Upgrades(w: Work) {
    w.Marked? || w.Drained?
  }

  lemma {:induction false} LabelledExactly(op: Operator, s: State, es: seq<Event>, c: string)
    requires Initial(op, s) && Run(op, s, es) && c in After(op, s, es).works && Upgrades(After(op, s, es).works[c])
    ensures var n := After(op, s, es).works[c].node;
            n in UpgradingNodes(After(op, s, es)) <==> !UnregisteredSince(es, c, n)
    decreases |es|
  {
    hide Inv, UpgradingNodes, ActEnabled, WorkStep, NodeStep, LockStep, Upgrades;
    if es == [] {
      NobodyUpgrades(op, s, c);
    } else {
      var prefix, e := es[..|es| - 1], es[|es| - 1];
      var now := After(op, s, prefix);
      InvAlways(op, s, prefix);
      if e.Act? && e.c == c {
        LabelledActor(op, now, c, e.a);
        if !e.a.ListUpgrading? && !e.a.ApplyLabel? {
          LabelledExactly(op, s, prefix, c);
        }
      } else {
        OthersKeep(op, now, e, c);
        LabelledExactly(op, s, prefix, c);
        LabelledOthers(op, now, e, c);
      }
    }
  }

  lemma NobodyUpgrades(op: Operator, s: State, c: string)
    requires Initial(op, s) && c in s.works
    ensures !Upgrades(s.works[c])
  {
  }

  lemma OthersKeep(op: Operator, s: State, e: Event, c: string)
    requires Enabled(op, s, e) && c in Next(op, s, e).works && !(e.Act? && e.c == c)
    ensures c in s.works && Next(op, s, e).works[c] == s.works[c]
  {
    hide ActEnabled, WorkStep, NodeStep, LockStep;
  }

  /** How an event of others changes the label of the node that `c` upgrades. */
  lemma LabelledOthers(op: Operator, s: State, e: Event, c: string)
    requires Enabled(op, s, e) && Inv(op, s) && c in s.works && Upgrades(s.works[c]) && !(e.Act? && e.c == c)
    ensures var n := s.works[c].node;
            && Next(op, s, e).works[c] == s.works[c]
            && (n in UpgradingNodes(Next(op, s, e)) <==> n in UpgradingNodes(s) && e != Env(n, Unregister))
  {
    hide Inv, UpgradingNodes, WorkStep, NodeStep, LockStep;
    OthersUntouched(op, s, e, c);
    UpgradingStep(op, s, e);
    if e.Env? && e.change.Unregister? {
      Unlabelled(op, s, e.n);
    }
  }

  lemma Unlabelled(op: Operator, s: State, n: string)
    requires n in s.nodes
    ensures n !in UpgradingNodes(Next(op, s, Env(n, Unregister)))
  {
  }

  /** How the upgrading controller itself leaves the label. */
  lemma LabelledActor(op: Operator, s: State, c: string, a: Action)
    requires Enabled(op, s, Act(c, a)) && Upgrades(Next(op, s, Act(c, a)).works[c])
    ensures var w, n := s.works[c], Next(op, s, Act(c, a)).works[c].node;
            && !w.Free? && w.node == n
            && (if a.ListUpgrading? || a.ApplyLabel? then n in UpgradingNodes(Next(op, s, Act(c, a)))
                else Upgrades(w) && UpgradingNodes(Next(op, s, Act(c, a))) == UpgradingNodes(s))
  {
    UpgradingAct(op, s, c, a);
    hide UpgradingNodes, NodeStep, LockStep;
  }

  /** In every run at most the allowed number of nodes carries the upgrading label. An upgrade's Deconfigure,
      from cordoning to the daemon's cleanup, touches labelled nodes only, except exactly when the node was
      unregistered, and perhaps registered again, after the upgrade had been allowed. */
  lemma UpgradesCapped(op: Operator, s: State, es: seq<Event>)
    requires Initial(op, s) && Run(op, s, es)
    ensures |UpgradingNodes(After(op, s, es))| <= op.maxParallel
    ensures forall c, a :: Enabled(op, After(op, s, es), Act(c, a)) && (a.Drain? || a.Cleanup?) ==>
                             var n := After(op, s, es).works[c].node;
                             n in UpgradingNodes(After(op, s, es)) <==> !UnregisteredSince(es, c, n)
  {
    hide Run, After, UnregisteredSince, UpgradingNodes;
    InvAlways(op, s, es);
    forall c, a | Enabled(op, After(op, s, es), Act(c, a)) && (a.Drain? || a.Cleanup?)
      ensures var n := After(op, s, es).works[c].node;
              n in UpgradingNodes(After(op, s, es)) <==> !UnregisteredSince(es, c, n)
    {
      LabelledExactly(op, s, es, c);
    }
  }

  /** Whatever happens in between, failed attempts to configure the node included: a label present after
      `i` events and gone later was dropped by a Configure that had uncordoned the node, or the node was
      unregistered. */
  lemma {:induction false} LabelSurvives(op: Operator, s: State, es: seq<Event>, i: nat, n: string) returns (k: nat)
    requires Initial(op, s) && Run(op, s, es) && i <= |es|
    requires Run(op, s, es[..i]) && n in UpgradingNodes(After(op, s, es[..i]))
    requires n !in UpgradingNodes(After(op, s, es))
    ensures i <= k < |es| && Run(op, s, es[..k])
    ensures || es[k] == Env(n, Unregister)
            || (es[k].Act? && es[k].a.DropLabel? && es[k].c in After(op, s, es[..k]).works &&
                After(op, s, es[..k]).works[es[k].c] == Uncordoned(n))
    decreases |es|
  {
    hide Next, Inv, Initial, UpgradingNodes, ActEnabled, DaemonEnabled;
    assert i != |es| by { assert es[..|es|] == es; }
    var m := |es| - 1;
    var prefix := es[..m];
    assert prefix[..i] == es[..i];
    if n in UpgradingNodes(After(op, s, prefix)) {
      InvAlways(op, s, prefix);
      LabelStep(op, After(op, s, prefix), es[m], n);
      k := m;
    } else {
      k := LabelSurvives(op, s, prefix, i, n);
      assert prefix[..k] == es[..k];
    }
  }

  // The daemon's side of the handshake

  /** The events of the pass that the daemon on `n` is in, or was in last. */
  ghost function CurrentPass(es: seq<Event>, n: string): seq<DaemonEvent> {
    if es == [] then []
    else
      var prefix, e := es[..|es| - 1], es[|es| - 1];
      if e == OnNode(n, ReadDesired) then [ReadDesired]
      else if e.OnNode? && e.n == n then CurrentPass(prefix, n) + [e.d]
      else CurrentPass(prefix, n)
  }

  /** The desired version at the start of that pass. */
  ghost function VersionRead(op: Operator, s: State, es: seq<Event>, n: string): Option<string>
    requires Run(op, s, es)
    decreases |es|
  {
    if es == [] then None
    else
      var prefix, e := es[..|es| - 1], es[|es| - 1];
      if e == OnNode(n, ReadDesired) then After(op, s, prefix).nodes[n].desired else VersionRead(op, s, prefix, n)
  }

  /** The events that lead to each stage of a pass. */
  function PassTo(d: Daemon): seq<DaemonEvent> {
    match d
    case Waiting => []
    case Fetching(_) => [ReadDesired]
    case Checking(_) => [ReadDesired, Fetched(true)]
    case Reconciling(_) => [ReadDesired, Fetched(true), EnvAndCerts(None, true)]
    case AwaitingReady(_) => [ReadDesired, Fetched(true), EnvAndCerts(None, true), ServicesReconciled(true)]
    case Annotating(_) =>
      [ReadDesired, Fetched(true), EnvAndCerts(None, true), ServicesReconciled(true), NodeReady(true)]
  }

  /** Not installed, or between passes. */
  predicate Idle(s: State, n: string) {
    n !in s.daemons || s.daemons[n].Waiting?
  }

  lemma {:induction false} PassInvariant(op: Operator, s: State, es: seq<Event>, n: string)
    requires Initial(op, s) && Run(op, s, es) && !Idle(After(op, s, es), n)
    ensures var d := After(op, s, es).daemons[n];
            CurrentPass(es, n) == PassTo(d) && VersionRead(op, s, es, n) == Some(d.v)
    decreases |es|
  {
    hide Initial, Enabled, Next, PassTo, DaemonStep, DaemonEnabled;
    if es == [] {
      StartsIdle(op, s, n);
    } else {
      var prefix, e := es[..|es| - 1], es[|es| - 1];
      var now := After(op, s, prefix);
      DaemonNext(op, now, e, n);
      if !Idle(now, n) {
        PassInvariant(op, s, prefix, n);
      }
      if e.OnNode? && e.n == n {
        PassStep(now.daemons[n], NodeAt(now, n), e.d);
      }
    }
  }

  lemma StartsIdle(op: Operator, s: State, n: string)
    requires Initial(op, s)
    ensures Idle(s, n)
  {
  }

  /** What one event does to the daemon on `n`. */
  lemma DaemonNext(op: Operator, s: State, e: Event, n: string)
    requires Enabled(op, s, e)
    ensures e.OnNode? && e.n == n ==>
              n in s.daemons && DaemonEnabled(s.daemons[n], NodeAt(s, n), e.d) && n in Next(op, s, e).daemons &&
              Next(op, s, e).daemons[n] == DaemonStep(s.daemons[n], NodeAt(s, n), e.d)
    ensures !(e.OnNode? && e.n == n) && !Idle(Next(op, s, e), n) ==>
              n in s.daemons && Next(op, s, e).daemons[n] == s.daemons[n]
  {
    hide DaemonEnabled, DaemonStep, DaemonWrite, ActEnabled, WorkStep, LockStep, NodeStep;
  }

  /** One event of a pass extends the events that led to its stage. */
  lemma PassStep(d: Daemon, x: Option<Node>, e: DaemonEvent)
    requires DaemonEnabled(d, x, e)
    ensures var now := DaemonStep(d, x, e);
            !now.Waiting? ==>
              if e.ReadDesired? then PassTo(now) == [e] && x.Some? && x.value.desired == Some(now.v)
              else !d.Waiting? && PassTo(now) == PassTo(d) + [e] && now.v == d.v
  {
  }

  /** A version is written only at the end of a pass that, from start to end, read that desired version,
      found its ConfigMap, had no reason to ask for a reboot, reconciled all services and saw the node ready. */
  lemma WriteFollowsPass(op: Operator, s: State, es: seq<Event>, n: string, w: Write)
    requires Initial(op, s) && Run(op, s, es) && Enabled(op, After(op, s, es), OnNode(n, WriteVersion(w)))
    ensures CurrentPass(es, n) ==
            [ReadDesired, Fetched(true), EnvAndCerts(None, true), ServicesReconciled(true), NodeReady(true)]
    ensures !w.Refused? ==>
              n in After(op, s, es).nodes &&
              Next(op, After(op, s, es), OnNode(n, WriteVersion(w))).nodes[n].version == VersionRead(op, s, es, n)
  {
    PassInvariant(op, s, es, n);
  }

  /** A pass under way began after the daemon was last idle. */
  lemma {:induction false} PassSinceIdle(op: Operator, s: State, es: seq<Event>, n: string, i: nat)
    requires Run(op, s, es) && i <= |es| && Run(op, s, es[..i])
    requires Idle(After(op, s, es[..i]), n) && !Idle(After(op, s, es), n)
    ensures exists k | i <= k < |es| :: es[k] == OnNode(n, ReadDesired)
    decreases |es|
  {
    hide Enabled, Next, DaemonStep, DaemonEnabled;
    assert es[..|es|] == es;
    assert i < |es|;
    var m := |es| - 1;
    var prefix, e := es[..m], es[m];
    assert prefix[..i] == es[..i];
    DaemonNext(op, After(op, s, prefix), e, n);
    if e != OnNode(n, ReadDesired) {
      if e.OnNode? && e.n == n {
        PassStep(After(op, s, prefix).daemons[n], NodeAt(After(op, s, prefix), n), e.d);
      }
      PassSinceIdle(op, s, prefix, n, i);
      var k :| i <= k < m && prefix[k] == OnNode(n, ReadDesired);
      assert es[k] == OnNode(n, ReadDesired);
    }
  }

  // Writes while a reboot is outstanding

  /** The event writes the reboot annotation of `n` with effect: a pass of the daemon, or a cleanup that is part of
      an upgrade, of bootstrapping, of giving up, or of removing the instance. */
  predicate Annotates(s: State, e: Event, n: string) {
    match e
    case Env(m, Wiped(r)) => m == n && Wrote(r.annotated)
    case Env(_, _) => false
    case OnNode(m, d) => m == n && d.EnvAndCerts? && Wrote(d.annotated)
    case Act(c, a) => WorksOn(s, c, n) && WipeOf(a).Some? && Wrote(WipeOf(a).value.annotated)
  }

  /** The annotation is removed, or the Node object is removed or created. */
  predicate Clears(e: Event, n: string) {
    e.Env? && e.n == n &&
    (e.change.Register? || e.change.Unregister? || (e.change.RebootCleared? && !e.change.w.Refused?))
  }

  ghost predicate AnnotatesAt(op: Operator, s: State, es: seq<Event>, n: string, i: nat)
    requires i < |es|
  {
    Run(op, s, es[..i]) && Annotates(After(op, s, es[..i]), es[i], n)
  }

  ghost predicate Uncleared(es: seq<Event>, n: string, i: nat) {
    forall j :: i <= j < |es| ==> !Clears(es[j], n)
  }

  /** A reboot was outstanding from the start, or event `i` asked for it, and nothing has cleared it. */
  ghost predicate Outstanding(op: Operator, s: State, es: seq<Event>, n: string) {
    || (n in s.nodes && s.nodes[n].reboot && Uncleared(es, n, 0))
    || exists i | 0 <= i < |es| :: AnnotatesAt(op, s, es, n, i) && Uncleared(es, n, i + 1)
  }

  lemma OutstandingSnoc(op: Operator, s: State, es: seq<Event>, n: string)
    requires es != []
    ensures var m := |es| - 1;
            Outstanding(op, s, es, n) <==>
            AnnotatesAt(op, s, es, n, m) || (Outstanding(op, s, es[..m], n) && !Clears(es[m], n))
  {
    hide Annotates, Clears, After, Run;
    var m := |es| - 1;
    var front, e := es[..m], es[m];
    forall i | 0 <= i <= m
      ensures Uncleared(es, n, i) <==> Uncleared(front, n, i) && !Clears(e, n)
      ensures i < m ==> (AnnotatesAt(op, s, es, n, i) <==> AnnotatesAt(op, s, front, n, i))
    {
      assert forall j :: 0 <= j < m ==> front[j] == es[j];
      assert front[..i] == es[..i];
    }
    hide AnnotatesAt;
    if AnnotatesAt(op, s, es, n, m) {
      assert Uncleared(es, n, m + 1);
    }
    if i :| 0 <= i < |front| && AnnotatesAt(op, s, front, n, i) && Uncleared(front, n, i + 1) {
      assert AnnotatesAt(op, s, es, n, i);
      assert !Clears(e, n) ==> Uncleared(es, n, i + 1);
    }
    if i :| 0 <= i < |es| && AnnotatesAt(op, s, es, n, i) && Uncleared(es, n, i + 1) && i != m {
      assert AnnotatesAt(op, s, front, n, i) && Uncleared(front, n, i + 1);
    }
  }

  lemma RebootNext(op: Operator, s: State, e: Event, n: string)
    requires Enabled(op, s, e) && n in Next(op, s, e).nodes
    ensures Next(op, s, e).nodes[n].reboot <==>
            Annotates(s, e, n) || (n in s.nodes && s.nodes[n].reboot && !Clears(e, n))
    ensures n !in s.nodes ==> Clears(e, n)
  {
    hide WorkStep, LockStep, DaemonStep;
    match e {
      case Env(_, _) =>
      case OnNode(_, _) =>
      case Act(c, a) => ActReboot(op, s, c, a, n);
    }
  }

  lemma ActReboot(op: Operator, s: State, c: string, a: Action, n: string)
    requires Enabled(op, s, Act(c, a)) && n in ActNodes(op, s, s.works[c], a)
    ensures n in s.nodes
    ensures ActNodes(op, s, s.works[c], a)[n].reboot <==> Annotates(s, Act(c, a), n) || s.nodes[n].reboot
  {
  }

  /** After every run a node has the reboot annotation exactly when a write of it, by the daemon or by a cleanup,
      is newer than the last removal, or it was there all along. */
  lemma {:induction false} RebootExactly(op: Operator, s: State, es: seq<Event>, n: string)
    requires Run(op, s, es) && n in After(op, s, es).nodes
    ensures After(op, s, es).nodes[n].reboot <==> Outstanding(op, s, es, n)
    decreases |es|
  {
    hide Enabled, Next, Annotates, Clears;
    if es == [] {
      assert After(op, s, es) == s;
    } else {
      hide Outstanding;
      var m := |es| - 1;
      var prefix, e := es[..m], es[m];
      var now := After(op, s, prefix);
      OutstandingSnoc(op, s, es, n);
      RebootNext(op, now, e, n);
      if n in now.nodes {
        RebootExactly(op, s, prefix, n);
      }
    }
  }

  /** Whoever writes the annotation leaves the daemon idle. */
  lemma AnnotatesIdle(op: Operator, s: State, e: Event, n: string)
    requires Enabled(op, s, e) && Annotates(s, e, n)
    ensures Idle(Next(op, s, e), n)
  {
    hide WorkStep, LockStep, NodeStep, DaemonWrite;
  }

  /** A version is written with a reboot outstanding exactly when an annotation that nobody has cleared is
      there; every annotation, whoever wrote it, is older than the pass that writes the version. */
  lemma WriteDespiteReboot(op: Operator, s: State, es: seq<Event>, n: string, w: Write)
    requires Initial(op, s) && Run(op, s, es) && Enabled(op, After(op, s, es), OnNode(n, WriteVersion(w)))
    ensures n in After(op, s, es).nodes ==> (After(op, s, es).nodes[n].reboot <==> Outstanding(op, s, es, n))
    ensures forall i :: 0 <= i < |es| && AnnotatesAt(op, s, es, n, i) ==>
                          exists k | i < k < |es| :: es[k] == OnNode(n, ReadDesired)
  {
    hide Initial, Outstanding, Next;
    if n in After(op, s, es).nodes {
      RebootExactly(op, s, es, n);
    }
    forall i | 0 <= i < |es| && AnnotatesAt(op, s, es, n, i)
      ensures exists k | i < k < |es| :: es[k] == OnNode(n, ReadDesired)
    {
      RunPrefix(op, s, es, i + 1);
      assert es[..i + 1][..i] == es[..i];
      AnnotatesIdle(op, After(op, s, es[..i]), es[i], n);
      PassSinceIdle(op, s, es, n, i + 1);
    }
  }

  /** `es` is a run from `s` to `u`. */
  ghost predicate Leads(op: Operator, s: State, es: seq<Event>, u: State) {
    Run(op, s, es) && After(op, s, es) == u
  }

  lemma LeadsNowhere(op: Operator, s: State)
    ensures Leads(op, s, [], s)
  {
  }

  lemma LeadsOn(op: Operator, s: State, es: seq<Event>, u: State, e: Event)
    requires Leads(op, s, es, u) && Enabled(op, u, e)
    ensures Leads(op, s, es + [e], Next(op, u, e))
  {
    hide Enabled, Next;
    assert (es + [e])[..|es + [e]| - 1] == es;
  }

  /** The node `n` and its daemon in place, all else as it was. */
  function With(s: State, n: string, x: Node, d: Daemon): State {
    s.(nodes := s.nodes[n := x], daemons := s.daemons[n := d])
  }

  lemma DaemonLeadsOn(op: Operator, s: State, es: seq<Event>, u: State, n: string, x: Node, d: Daemon, e: DaemonEvent)
    requires Leads(op, s, es, With(u, n, x, d)) && DaemonEnabled(d, Some(x), e)
    ensures Leads(op, s, es + [OnNode(n, e)], With(u, n, DaemonWrite(d, x, e), DaemonStep(d, Some(x), e)))
  {
    hide Leads, DaemonEnabled, DaemonWrite, DaemonStep;
    var now := With(u, n, x, d);
    LeadsOn(op, s, es, now, OnNode(n, e));
    assert Next(op, now, OnNode(n, e)) == With(u, n, DaemonWrite(d, x, e), DaemonStep(d, Some(x), e));
  }

  /** A pass that finds nothing to change. */
  function QuietPass(n: string): seq<Event> {
    [OnNode(n, ReadDesired), OnNode(n, Fetched(true)), OnNode(n, EnvAndCerts(None, true)),
     OnNode(n, ServicesReconciled(true)), OnNode(n, NodeReady(true))]
  }

  lemma QuietPassLeads(op: Operator, s: State, es: seq<Event>, u: State, n: string, x: Node)
    requires Leads(op, s, es, With(u, n, x, Waiting)) && x.desired.Some?
    ensures Leads(op, s, es + QuietPass(n), With(u, n, x, Annotating(x.desired.value)))
  {
    hide Leads;
    var v := x.desired.value;
    DaemonLeadsOn(op, s, es, u, n, x, Waiting, ReadDesired);
    var es1 := es + [OnNode(n, ReadDesired)];
    DaemonLeadsOn(op, s, es1, u, n, x, Fetching(v), Fetched(true));
    var es2 := es1 + [OnNode(n, Fetched(true))];
    DaemonLeadsOn(op, s, es2, u, n, x, Checking(v), EnvAndCerts(None, true));
    var es3 := es2 + [OnNode(n, EnvAndCerts(None, true))];
    DaemonLeadsOn(op, s, es3, u, n, x, Reconciling(v), ServicesReconciled(true));
    var es4 := es3 + [OnNode(n, ServicesReconciled(true))];
    DaemonLeadsOn(op, s, es4, u, n, x, AwaitingReady(v), NodeReady(true));
    assert es4 + [OnNode(n, NodeReady(true))] == es + QuietPass(n);
  }

  /** The version can be written although a reboot is outstanding. */
  ghost predicate WritesDespiteReboot(op: Operator, s: State, es: seq<Event>, n: string, w: Write) {
    && Run(op, s, es)
    && Enabled(op, After(op, s, es), OnNode(n, WriteVersion(w)))
    && n in After(op, s, es).nodes && After(op, s, es).nodes[n].reboot
  }

  /** The daemon never looks at the annotation: from every initial state a pass that asks for a reboot, and one
      that finds nothing left to change, lead to the write of the version with the reboot still outstanding. */
  lemma RebootIgnored(op: Operator, s: State, n: string, w: Write)
    requires Initial(op, s) && n in s.nodes && n in s.daemons && s.nodes[n].desired.Some?
    ensures WritesDespiteReboot(op, s, [OnNode(n, ReadDesired), OnNode(n, Fetched(true)),
                                        OnNode(n, EnvAndCerts(Some(Done), true))] + QuietPass(n), n, w)
  {
    hide Leads;
    var x := s.nodes[n];
    var v := x.desired.value;
    LeadsNowhere(op, s);
    assert s == With(s, n, x, Waiting) by { StartsIdle(op, s, n); }
    DaemonLeadsOn(op, s, [], s, n, x, Waiting, ReadDesired);
    var es1 := [OnNode(n, ReadDesired)];
    assert [] + es1 == es1;
    DaemonLeadsOn(op, s, es1, s, n, x, Fetching(v), Fetched(true));
    var es2 := es1 + [OnNode(n, Fetched(true))];
    DaemonLeadsOn(op, s, es2, s, n, x, Checking(v), EnvAndCerts(Some(Done), true));
    var es3 := es2 + [OnNode(n, EnvAndCerts(Some(Done), true))];
    assert es3 == [OnNode(n, ReadDesired), OnNode(n, Fetched(true)), OnNode(n, EnvAndCerts(Some(Done), true))];
    QuietPassLeads(op, s, es3, s, n, x.(reboot := true));
    Arrived(op, s, es3 + QuietPass(n), s, n, x.(reboot := true), v, w);
  }

  lemma Arrived(op: Operator, s: State, es: seq<Event>, u: State, n: string, x: Node, v: string, w: Write)
    requires Leads(op, s, es, With(u, n, x, Annotating(v))) && x.reboot
    ensures WritesDespiteReboot(op, s, es, n, w)
  {
  }

  // One controller at work on one node

  /** The controller's work, its node, the daemon there, and the lock. */
  datatype Stage = Stage(w: Work, x: Node, d: Option<Daemon>, lock: Option<string>)

  /** All else as in `s`. */
  function At(s: State, c: string, n: string, g: Stage): State {
    State(s.nodes[n := g.x], if g.d.Some? then s.daemons[n := g.d.value] else s.daemons - {n}, s.works[c := g.w], g.lock)
  }

  function DaemonLeft(d: Option<Daemon>, a: Action): Option<Daemon> {
    if WipeOf(a).Some? && WipeOf(a).value.stopped then None
    else if a.StartDaemon? && a.started then Some(Waiting)
    else d
  }

  ghost function ActStage(op: Operator, s: State, c: string, n: string, g: Stage, a: Action): Stage
    requires ActEnabled(op, At(s, c, n, g), g.w, a)
  {
    Stage(WorkStep(op, At(s, c, n, g), g.w, a), NodeStep(op, g.x, a), DaemonLeft(g.d, a), LockStep(op, At(s, c, n, g), c, a))
  }

  lemma ActsAt(op: Operator, s0: State, es: seq<Event>, s: State, c: string, n: string, g: Stage, a: Action)
    requires Leads(op, s0, es, At(s, c, n, g)) && !g.w.Free? && g.w.node == n
    requires ActEnabled(op, At(s, c, n, g), g.w, a)
    ensures Leads(op, s0, es + [Act(c, a)], At(s, c, n, ActStage(op, s, c, n, g, a)))
  {
    hide Leads, ActEnabled, WorkStep, NodeStep, LockStep, WipeOf;
    var u := At(s, c, n, g);
    LeadsOn(op, s0, es, u, Act(c, a));
    ActedNodes(op, s, c, n, g, a);
    ActedDaemons(s, c, n, g, a);
    assert u.works[c := WorkStep(op, u, g.w, a)] == s.works[c := WorkStep(op, u, g.w, a)];
  }

  lemma ActedNodes(op: Operator, s: State, c: string, n: string, g: Stage, a: Action)
    requires !g.w.Free? && g.w.node == n
    ensures ActNodes(op, At(s, c, n, g), g.w, a) == s.nodes[n := NodeStep(op, g.x, a)]
  {
    hide NodeStep;
  }

  lemma ActedDaemons(s: State, c: string, n: string, g: Stage, a: Action)
    requires !g.w.Free? && g.w.node == n
    ensures ActDaemons(At(s, c, n, g), g.w, a) ==
            if DaemonLeft(g.d, a).Some? then s.daemons[n := DaemonLeft(g.d, a).value] else s.daemons - {n}
  {
    hide WipeOf;
  }

  /** The action leads from the one stage to the other. */
  ghost predicate Goes(op: Operator, s: State, c: string, n: string, g: Stage, a: Action, g': Stage) {
    && !g.w.Free? && g.w.node == n
    && ActEnabled(op, At(s, c, n, g), g.w, a)
    && ActStage(op, s, c, n, g, a) == g'
  }

  lemma GoesOn(op: Operator, s0: State, es: seq<Event>, s: State, c: string, n: string, g: Stage, a: Action, g': Stage)
    requires Leads(op, s0, es, At(s, c, n, g)) && Goes(op, s, c, n, g, a, g')
    ensures Leads(op, s0, es + [Act(c, a)], At(s, c, n, g'))
  {
    ActsAt(op, s0, es, s, c, n, g, a);
  }

  lemma DrainGoes(op: Operator, s: State, c: string, n: string, x: Node, d: Option<Daemon>)
    ensures Goes(op, s, c, n, Stage(Marked(n), x, d, None), Drain(Done, true),
                 Stage(Drained(n), x.(cordoned := true), d, None))
  {
  }

  lemma CleanupGoes(op: Operator, s: State, c: string, n: string, x: Node, d: Option<Daemon>)
    ensures Goes(op, s, c, n, Stage(Drained(n), x, d, None), Cleanup(CleanWipe(None), true),
                 Stage(Cleaned(n), x.(version := None), None, None))
  {
  }

  lemma AwaitGoes(op: Operator, s: State, c: string, n: string, x: Node, d: Option<Daemon>)
    requires !x.reboot
    ensures Goes(op, s, c, n, Stage(Cleaned(n), x, d, None), AwaitReboot(true), Stage(Configuring(n), x, d, None))
  {
  }

  lemma CordonGoes(op: Operator, s: State, c: string, n: string, x: Node, d: Option<Daemon>)
    ensures Goes(op, s, c, n, Stage(Configuring(n), x, d, None), Cordon, Stage(Configuring(n), x.(cordoned := true), d, None))
  {
  }

  lemma BootstrapGoes(op: Operator, s: State, c: string, n: string, x: Node, d: Option<Daemon>, annotated: Option<Write>)
    requires annotated == None || annotated == Some(Done)
    ensures Goes(op, s, c, n, Stage(Configuring(n), x, d, None), Bootstrap(CleanWipe(annotated), true),
                 Stage(Bootstrapped(n), x.(version := None, reboot := x.reboot || annotated == Some(Done)), None, None))
  {
  }

  lemma StartGoes(op: Operator, s: State, c: string, n: string, x: Node, d: Option<Daemon>)
    ensures Goes(op, s, c, n, Stage(Bootstrapped(n), x, d, None), StartDaemon(true, true),
                 Stage(Serving(n), x, Some(Waiting), None))
  {
  }

  lemma SetGoes(op: Operator, s: State, c: string, n: string, x: Node, d: Option<Daemon>)
    ensures Goes(op, s, c, n, Stage(Serving(n), x, d, None), SetDesired(Done),
                 Stage(DesiredSet(n), x.(desired := Some(op.version)), d, None))
  {
  }

  lemma ObserveGoes(op: Operator, s: State, c: string, n: string, x: Node, d: Option<Daemon>)
    requires x.desired != None && x.version == x.desired
    ensures Goes(op, s, c, n, Stage(DesiredSet(n), x, d, None), Observe, Stage(Observed(n), x, d, None))
  {
  }

  lemma UncordonGoes(op: Operator, s: State, c: string, n: string, x: Node, d: Option<Daemon>)
    ensures Goes(op, s, c, n, Stage(Observed(n), x, d, None), Uncordon(Done),
                 Stage(Uncordoned(n), x.(cordoned := false), d, None))
  {
  }

  lemma DropGoes(op: Operator, s: State, c: string, n: string, x: Node, d: Option<Daemon>)
    ensures Goes(op, s, c, n, Stage(Uncordoned(n), x, d, None), DropLabel(Done), Stage(Free, x.(upgrading := false), d, None))
  {
  }

  /** Which way an attempt goes is decided by the version annotation that was read, and by nothing else. */
  lemma BranchTaken(op: Operator, s: State, c: string, n: string)
    requires c in s.works && n in s.nodes
    ensures Enabled(op, s, Act(c, Begin(n))) ==> Next(op, s, Act(c, Begin(n))).works[c] == Started(n, s.nodes[n].version)
    ensures forall seen :: s.works[c] == Started(n, seen) ==>
              && (Enabled(op, s, Act(c, StopUpToDate)) <==> seen == Some(op.version))
              && (Enabled(op, s, Act(c, TakeLock)) <==> seen != None && seen != Some(op.version) && s.lock == None)
              && (Enabled(op, s, Act(c, NoUpgrade)) <==> seen == None)
  {
  }

  lemma Begun(op: Operator, s: State, c: string, n: string)
    requires Initial(op, s) && c in s.works && n in s.nodes
    ensures Leads(op, s, [Act(c, Begin(n))], At(s, c, n, BegunStage(s, n)))
  {
    assert forall d :: !WorksOn(s, d, n);
    LeadsNowhere(op, s);
    LeadsOn(op, s, [], s, Act(c, Begin(n)));
    assert [] + [Act(c, Begin(n))] == [Act(c, Begin(n))];
    assert Next(op, s, Act(c, Begin(n))) == At(s, c, n, BegunStage(s, n));
  }

  function BegunStage(s: State, n: string): Stage
    requires n in s.nodes
  {
    Stage(Started(n, s.nodes[n].version), s.nodes[n], if n in s.daemons then Some(s.daemons[n]) else None, None)
  }

  /** A run of the cleanup command without an error: the daemon's service and the version are removed. */
  function CleanWipe(annotated: Option<Write>): Wipe {
    Wipe(true, annotated, true)
  }

  /** The first part of Configure, up to setting the desired version. */
  function PreparingEvents(c: string, annotated: Option<Write>): seq<Event> {
    [Act(c, Cordon), Act(c, Bootstrap(CleanWipe(annotated), true)), Act(c, StartDaemon(true, true)), Act(c, SetDesired(Done))]
  }

  function PreparedNode(op: Operator, x: Node, annotated: Option<Write>): Node {
    Node(x.upgrading, None, Some(op.version), true, x.reboot || annotated == Some(Done))
  }

  lemma Prepares(op: Operator, s0: State, es: seq<Event>, s: State, c: string, n: string, x: Node, d: Option<Daemon>,
                 annotated: Option<Write>)
    requires Leads(op, s0, es, At(s, c, n, Stage(Configuring(n), x, d, None)))
    requires annotated == None || annotated == Some(Done)
    ensures Leads(op, s0, es + PreparingEvents(c, annotated),
                  At(s, c, n, Stage(DesiredSet(n), PreparedNode(op, x, annotated), Some(Waiting), None)))
  {
    hide Leads, At, Goes;
    CordonGoes(op, s, c, n, x, d);
    var g1 := Stage(Configuring(n), x.(cordoned := true), d, None);
    GoesOn(op, s0, es, s, c, n, Stage(Configuring(n), x, d, None), Cordon, g1);
    var es1 := es + [Act(c, Cordon)];
    var r := CleanWipe(annotated);
    BootstrapGoes(op, s, c, n, g1.x, d, annotated);
    var y := g1.x.(version := None, reboot := x.reboot || annotated == Some(Done));
    GoesOn(op, s0, es1, s, c, n, g1, Bootstrap(r, true), Stage(Bootstrapped(n), y, None, None));
    var es2 := es1 + [Act(c, Bootstrap(r, true))];
    StartGoes(op, s, c, n, y, None);
    GoesOn(op, s0, es2, s, c, n, Stage(Bootstrapped(n), y, None, None), StartDaemon(true, true),
           Stage(Serving(n), y, Some(Waiting), None));
    var es3 := es2 + [Act(c, StartDaemon(true, true))];
    SetGoes(op, s, c, n, y, Some(Waiting));
    GoesOn(op, s0, es3, s, c, n, Stage(Serving(n), y, Some(Waiting), None), SetDesired(Done),
           Stage(DesiredSet(n), PreparedNode(op, x, annotated), Some(Waiting), None));
    assert es3 + [Act(c, SetDesired(Done))] == es + PreparingEvents(c, annotated);
  }

  lemma NodeThere(s: State, c: string, n: string, g: Stage)
    ensures n in At(s, c, n, g).nodes && At(s, c, n, g).nodes[n] == g.x && At(s, c, n, g).lock == g.lock
    ensures c in At(s, c, n, g).works && At(s, c, n, g).works[c] == g.w
  {
  }

  /** The daemon's pass for the desired version, while the controller waits. */
  lemma WaitsForPass(op: Operator, s0: State, es: seq<Event>, s: State, c: string, n: string, w: Work, x: Node)
    requires Leads(op, s0, es, At(s, c, n, Stage(w, x, Some(Waiting), None))) && x.desired.Some?
    ensures Leads(op, s0, es + QuietPass(n), At(s, c, n, Stage(w, x, Some(Annotating(x.desired.value)), None)))
  {
    hide Leads;
    var u := s.(works := s.works[c := w], lock := None);
    assert At(s, c, n, Stage(w, x, Some(Waiting), None)) == With(u, n, x, Waiting);
    QuietPassLeads(op, s0, es, u, n, x);
    assert At(s, c, n, Stage(w, x, Some(Annotating(x.desired.value)), None)) == With(u, n, x, Annotating(x.desired.value));
  }

  lemma WritesAt(op: Operator, s0: State, es: seq<Event>, s: State, c: string, n: string, w: Work, x: Node, v: string)
    requires Leads(op, s0, es, At(s, c, n, Stage(w, x, Some(Annotating(v)), None)))
    ensures Leads(op, s0, es + [OnNode(n, WriteVersion(Done))],
                  At(s, c, n, Stage(w, x.(version := Some(v)), Some(Waiting), None)))
  {
    hide Leads;
    var u := s.(works := s.works[c := w], lock := None);
    assert At(s, c, n, Stage(w, x, Some(Annotating(v)), None)) == With(u, n, x, Annotating(v));
    DaemonLeadsOn(op, s0, es, u, n, x, Annotating(v), WriteVersion(Done));
    assert At(s, c, n, Stage(w, x.(version := Some(v)), Some(Waiting), None)) == With(u, n, x.(version := Some(v)), Waiting);
  }

  /** The second part of Configure. */
  function FinishingEvents(c: string, n: string): seq<Event> {
    QuietPass(n) + [OnNode(n, WriteVersion(Done)), Act(c, Observe), Act(c, Uncordon(Done)), Act(c, DropLabel(Done))]
  }

  /** A node configured by this operator, and back in service. */
  function InService(op: Operator, reboot: bool): Node {
    Node(false, Some(op.version), Some(op.version), false, reboot)
  }

  lemma Finishes(op: Operator, s0: State, es: seq<Event>, s: State, c: string, n: string, x: Node)
    requires Leads(op, s0, es, At(s, c, n, Stage(DesiredSet(n), x, Some(Waiting), None))) && x.desired == Some(op.version)
    ensures Leads(op, s0, es + FinishingEvents(c, n), At(s, c, n, Stage(Free, InService(op, x.reboot), Some(Waiting), None)))
  {
    hide Leads, At, Goes;
    WaitsForPass(op, s0, es, s, c, n, DesiredSet(n), x);
    var es1 := es + QuietPass(n);
    WritesAt(op, s0, es1, s, c, n, DesiredSet(n), x, op.version);
    var es2 := es1 + [OnNode(n, WriteVersion(Done))];
    var y, d := x.(version := Some(op.version)), Some(Waiting);
    ObserveGoes(op, s, c, n, y, d);
    GoesOn(op, s0, es2, s, c, n, Stage(DesiredSet(n), y, d, None), Observe, Stage(Observed(n), y, d, None));
    var es3 := es2 + [Act(c, Observe)];
    UncordonGoes(op, s, c, n, y, d);
    var g := Stage(Uncordoned(n), y.(cordoned := false), d, None);
    GoesOn(op, s0, es3, s, c, n, Stage(Observed(n), y, d, None), Uncordon(Done), g);
    var es4 := es3 + [Act(c, Uncordon(Done))];
    DropGoes(op, s, c, n, g.x, d);
    GoesOn(op, s0, es4, s, c, n, g, DropLabel(Done), Stage(Free, InService(op, x.reboot), d, None));
    assert es4 + [Act(c, DropLabel(Done))] == es + FinishingEvents(c, n);
  }

  /** The steps of an upgrade before Configure. */
  function DeconfiguringEvents(c: string, n: string, labelled: bool): seq<Event> {
    [Act(c, TakeLock), Act(c, ListUpgrading(true))] + (if labelled then [] else [Act(c, ApplyLabel(Done))]) +
    [Act(c, Drain(Done, true)), Act(c, Cleanup(CleanWipe(None), true)), Env(n, RebootCleared(Done)), Act(c, AwaitReboot(true))]
  }

  /** There is room for `n` under the cap. */
  ghost predicate Room(op: Operator, s: State, n: string) {
    n in UpgradingNodes(s) || |UpgradingNodes(s)| < op.maxParallel
  }

  lemma MayMark(op: Operator, s0: State, es: seq<Event>, s: State, c: string, n: string, d: Option<Daemon>)
    requires n in s.nodes && Room(op, s, n)
    requires s.nodes[n].version != None && s.nodes[n].version != Some(op.version)
    requires Leads(op, s0, es, At(s, c, n, Stage(Started(n, s.nodes[n].version), s.nodes[n], d, None)))
    ensures var x := s.nodes[n];
            Leads(op, s0, es + [Act(c, TakeLock), Act(c, ListUpgrading(true))] +
                          (if x.upgrading then [] else [Act(c, ApplyLabel(Done))]),
                  At(s, c, n, Stage(Marked(n), x.(upgrading := true), d, None)))
  {
    hide Leads, At, Room, UpgradingNodes;
    var x := s.nodes[n];
    var g := Stage(Started(n, x.version), x, d, None);
    NodeThere(s, c, n, g);
    ActsAt(op, s0, es, s, c, n, g, TakeLock);
    var es1 := es + [Act(c, TakeLock)];
    var g1 := Stage(Locked(n), x, d, Some(c));
    SameLabels(op, s, c, n, g1);
    NodeThere(s, c, n, g1);
    ActsAt(op, s0, es1, s, c, n, g1, ListUpgrading(true));
    var es2 := es1 + [Act(c, ListUpgrading(true))];
    assert es2 == es + [Act(c, TakeLock), Act(c, ListUpgrading(true))];
    if x.upgrading {
      assert es2 + [] == es2;
    } else {
      var g2 := Stage(Allowed(n), x, d, Some(c));
      NodeThere(s, c, n, g2);
      ActsAt(op, s0, es2, s, c, n, g2, ApplyLabel(Done));
    }
  }

  lemma SameLabels(op: Operator, s: State, c: string, n: string, g: Stage)
    requires n in s.nodes && g.x == s.nodes[n] && Room(op, s, n)
    ensures n in UpgradingNodes(At(s, c, n, g)) <==> g.x.upgrading
    ensures !g.x.upgrading ==> |UpgradingNodes(At(s, c, n, g))| < op.maxParallel
  {
    assert UpgradingNodes(At(s, c, n, g)) == UpgradingNodes(s);
  }

  lemma Deconfigures(op: Operator, s0: State, es: seq<Event>, s: State, c: string, n: string, x: Node, d: Option<Daemon>)
    requires Leads(op, s0, es, At(s, c, n, Stage(Marked(n), x, d, None)))
    ensures Leads(op, s0, es + [Act(c, Drain(Done, true)), Act(c, Cleanup(CleanWipe(None), true)), Env(n, RebootCleared(Done)),
                                Act(c, AwaitReboot(true))],
                  At(s, c, n, Stage(Configuring(n), x.(cordoned := true, version := None, reboot := false), None, None)))
  {
    hide Leads, At, Goes;
    DrainGoes(op, s, c, n, x, d);
    var g := Stage(Drained(n), x.(cordoned := true), d, None);
    GoesOn(op, s0, es, s, c, n, Stage(Marked(n), x, d, None), Drain(Done, true), g);
    var es1 := es + [Act(c, Drain(Done, true))];
    CleanupGoes(op, s, c, n, g.x, d);
    var y := x.(cordoned := true, version := None);
    GoesOn(op, s0, es1, s, c, n, g, Cleanup(CleanWipe(None), true), Stage(Cleaned(n), y, None, None));
    var es2 := es1 + [Act(c, Cleanup(CleanWipe(None), true))];
    ClearsAt(op, s0, es2, s, c, n, Stage(Cleaned(n), y, None, None));
    var es3 := es2 + [Env(n, RebootCleared(Done))];
    var z := y.(reboot := false);
    AwaitGoes(op, s, c, n, z, None);
    GoesOn(op, s0, es3, s, c, n, Stage(Cleaned(n), z, None, None), AwaitReboot(true), Stage(Configuring(n), z, None, None));
    assert es3 + [Act(c, AwaitReboot(true))] ==
           es + [Act(c, Drain(Done, true)), Act(c, Cleanup(CleanWipe(None), true)), Env(n, RebootCleared(Done)),
                 Act(c, AwaitReboot(true))];
  }

  lemma ClearsAt(op: Operator, s0: State, es: seq<Event>, s: State, c: string, n: string, g: Stage)
    requires Leads(op, s0, es, At(s, c, n, g))
    ensures Leads(op, s0, es + [Env(n, RebootCleared(Done))], At(s, c, n, g.(x := g.x.(reboot := false))))
  {
    hide Leads;
    LeadsOn(op, s0, es, At(s, c, n, g), Env(n, RebootCleared(Done)));
    assert Next(op, At(s, c, n, g), Env(n, RebootCleared(Done))) == At(s, c, n, g.(x := g.x.(reboot := false)));
  }

  /** From every initial state a node at another version, with room under the cap, can be upgraded: an attempt
      without any failure ends with the operator's version, without the label and the cordon, the daemon in place,
      the lock free, and everything else as it was. */
  lemma UpgradeCompletes(op: Operator, s: State, c: string, n: string)
    requires Initial(op, s) && c in s.works && n in s.nodes && Room(op, s, n)
    requires s.nodes[n].version != None && s.nodes[n].version != Some(op.version)
    ensures Leads(op, s, [Act(c, Begin(n))] + DeconfiguringEvents(c, n, s.nodes[n].upgrading) + PreparingEvents(c, None) +
                         FinishingEvents(c, n),
                  State(s.nodes[n := Node(false, Some(op.version), Some(op.version), false, false)], s.daemons[n := Waiting],
                        s.works[c := Free], None))
  {
    hide Leads, Initial, Room, FinishingEvents, PreparingEvents;
    var x := s.nodes[n];
    var d := BegunStage(s, n).d;
    var es := [Act(c, Begin(n))];
    Begun(op, s, c, n);
    MayMark(op, s, es, s, c, n, d);
    var es1 := es + [Act(c, TakeLock), Act(c, ListUpgrading(true))] + (if x.upgrading then [] else [Act(c, ApplyLabel(Done))]);
    Deconfigures(op, s, es1, s, c, n, x.(upgrading := true), d);
    var es2 := es1 + [Act(c, Drain(Done, true)), Act(c, Cleanup(CleanWipe(None), true)), Env(n, RebootCleared(Done)),
                      Act(c, AwaitReboot(true))];
    assert es2 == es + DeconfiguringEvents(c, n, x.upgrading);
    var y := x.(upgrading := true, cordoned := true, version := None, reboot := false);
    Prepares(op, s, es2, s, c, n, y, None, None);
    Finishes(op, s, es2 + PreparingEvents(c, None), s, c, n, PreparedNode(op, y, None));
  }

  lemma NotUpgraded(op: Operator, s: State, c: string, n: string)
    requires Initial(op, s) && c in s.works && n in s.nodes && s.nodes[n].version == None
    ensures Leads(op, s, [Act(c, Begin(n)), Act(c, NoUpgrade)],
                  At(s, c, n, Stage(Configuring(n), s.nodes[n], BegunStage(s, n).d, None)))
  {
    hide Leads, At, Initial;
    Begun(op, s, c, n);
    var es := [Act(c, Begin(n))];
    NodeThere(s, c, n, BegunStage(s, n));
    ActsAt(op, s, es, s, c, n, BegunStage(s, n), NoUpgrade);
    assert es + [Act(c, NoUpgrade)] == [Act(c, Begin(n)), Act(c, NoUpgrade)];
  }

  /** A node without a version, such as one left by a failed attempt, is configured in the same way, and loses the
      label if it has one. */
  lemma ConfigureCompletes(op: Operator, s: State, c: string, n: string)
    requires Initial(op, s) && c in s.works && n in s.nodes && s.nodes[n].version == None
    ensures Leads(op, s, [Act(c, Begin(n)), Act(c, NoUpgrade)] + PreparingEvents(c, None) + FinishingEvents(c, n),
                  State(s.nodes[n := Node(false, Some(op.version), Some(op.version), false, s.nodes[n].reboot)],
                        s.daemons[n := Waiting], s.works[c := Free], None))
  {
    hide Leads, Initial, FinishingEvents, PreparingEvents;
    NotUpgraded(op, s, c, n);
    var es := [Act(c, Begin(n)), Act(c, NoUpgrade)];
    Prepares(op, s, es, s, c, n, s.nodes[n], BegunStage(s, n).d, None);
    Finishes(op, s, es + PreparingEvents(c, None), s, c, n, PreparedNode(op, s.nodes[n], None));
  }

  /** Configure does not wait for the reboot that its own cleanup asks for: from every initial state in which a node
      has no version, one attempt without any failure leads to the write with the reboot still outstanding. */
  lemma RebootLeftByCleanup(op: Operator, s: State, c: string, n: string, w: Write)
    requires Initial(op, s) && c in s.works && n in s.nodes && s.nodes[n].version == None
    ensures WritesDespiteReboot(op, s, [Act(c, Begin(n)), Act(c, NoUpgrade)] + PreparingEvents(c, Some(Done)) + QuietPass(n), n, w)
  {
    hide Leads, Initial, WritesDespiteReboot, PreparingEvents, QuietPass;
    NotUpgraded(op, s, c, n);
    var es := [Act(c, Begin(n)), Act(c, NoUpgrade)];
    Prepares(op, s, es, s, c, n, s.nodes[n], BegunStage(s, n).d, Some(Done));
    var x := PreparedNode(op, s.nodes[n], Some(Done));
    WaitsForPass(op, s, es + PreparingEvents(c, Some(Done)), s, c, n, DesiredSet(n), x);
    var u := s.(works := s.works[c := DesiredSet(n)], lock := None);
    assert At(s, c, n, Stage(DesiredSet(n), x, Some(Annotating(op.version)), None)) == With(u, n, x, Annotating(op.version));
    Arrived(op, s, es + PreparingEvents(c, Some(Done)) + QuietPass(n), u, n, x, op.version, w);
  }

  /** No other event gives a node a version. */
  lemma OnlyWritesVersions(op: Operator, s: State, e: Event, n: string)
    requires Enabled(op, s, e) && n in Next(op, s, e).nodes
    requires Next(op, s, e).nodes[n].version.Some?
    ensures || (n in s.nodes && s.nodes[n].version == Next(op, s, e).nodes[n].version)
            || (e.OnNode? && e.n == n && e.d.WriteVersion? && !e.d.w.Refused?)
  {
    hide WorkStep, LockStep, DaemonStep, ActEnabled;
  }

  // The operator's side of the handshake

  /** What controller `c` has done since it last began. */
  ghost function CurrentAttempt(es: seq<Event>, c: string): seq<Action> {
    if es == [] then []
    else
      var prefix, e := es[..|es| - 1], es[|es| - 1];
      if e.Act? && e.c == c then (if e.a.Begin? then [e.a] else CurrentAttempt(prefix, c) + [e.a])
      else CurrentAttempt(prefix, c)
  }

  predicate EndsWith(s: seq<Action>, t: seq<Action>) {
    |t| <= |s| && s[|s| - |t|..] == t
  }

  function ConfigureTo(w: Work): seq<Action> {
    match w
    case Serving(_) => [StartDaemon(true, true)]
    case DesiredSet(_) => [StartDaemon(true, true), SetDesired(Done)]
    case Observed(_) => [StartDaemon(true, true), SetDesired(Done), Observe]
    case Uncordoned(_) => [StartDaemon(true, true), SetDesired(Done), Observe, Uncordon(Done)]
    case _ => []
  }

  /** `c` begins, or removes the version of its node. */
  predicate Resets(e: Event, c: string) {
    e.Act? && e.c == c && (e.a.Begin? || (WipeOf(e.a).Some? && WipeOf(e.a).value.removed))
  }

  /** The daemon on `n` has written the operator's own version since `c` began, and since `c` last removed a
      version in this attempt. */
  ghost predicate WrittenSince(op: Operator, s: State, es: seq<Event>, c: string, n: string)
    requires Run(op, s, es)
    decreases |es|
  {
    es != [] &&
    var prefix, e := es[..|es| - 1], es[|es| - 1];
    if Resets(e, c) then false
    else WritesOwn(op, After(op, s, prefix), e, n) || WrittenSince(op, s, prefix, c, n)
  }

  predicate WritesOwn(op: Operator, s: State, e: Event, n: string) {
    e.OnNode? && e.n == n && e.d.WriteVersion? && !e.d.w.Refused? &&
    n in s.daemons && s.daemons[n] == Annotating(op.version)
  }

  lemma AttemptStep(op: Operator, s: State, w: Work, a: Action, attempt: seq<Action>)
    requires ActEnabled(op, s, w, a) && EndsWith(attempt, ConfigureTo(w))
    ensures EndsWith(if a.Begin? then [a] else attempt + [a], ConfigureTo(WorkStep(op, s, w, a)))
  {
    hide EndsWith;
    Extend(attempt, ConfigureTo(w), a);
    var now := WorkStep(op, s, w, a);
    if a.Begin? {
      Extend([], [], a);
      assert [] + [a] == [a];
    } else if now.Serving? || now.DesiredSet? || now.Observed? || now.Uncordoned? {
      if a.StartDaemon? {
        assert [] + [a] == ConfigureTo(now);
      } else {
        assert ConfigureTo(w) + [a] == ConfigureTo(now);
      }
    }
  }

  lemma {:induction false} AttemptInvariant(op: Operator, s: State, es: seq<Event>, c: string)
    requires Run(op, s, es) && c in After(op, s, es).works
    requires Initial(op, s)
    ensures EndsWith(CurrentAttempt(es, c), ConfigureTo(After(op, s, es).works[c]))
    decreases |es|
  {
    hide ConfigureTo, EndsWith, ActEnabled, WorkStep, ActNodes, LockStep, DaemonStep;
    if es == [] {
      NothingToShow(s.works[c]);
    } else {
      var prefix, e := es[..|es| - 1], es[|es| - 1];
      var now := After(op, s, prefix);
      AttemptInvariant(op, s, prefix, c);
      if e.Act? && e.c == c {
        AttemptStep(op, now, now.works[c], e.a, CurrentAttempt(prefix, c));
      }
    }
  }

  lemma NothingToShow(w: Work)
    ensures w.Free? ==> EndsWith([], ConfigureTo(w))
  {
  }

  lemma Extend(s: seq<Action>, t: seq<Action>, a: Action)
    requires EndsWith(s, t)
    ensures EndsWith(s + [a], t + [a]) && EndsWith(s + [a], []) && EndsWith(s + [a], [a])
  {
    assert (s + [a])[|s + [a]| - |t + [a]|..] == t + [a];
  }

  predicate HasVersion(s: State, n: string, v: string) {
    n in s.nodes && s.nodes[n].version == Some(v)
  }

  /** `c` is at work on a node whose own version, if it has it, was not there when `c` began. */
  predicate Pending(op: Operator, w: Work) {
    !w.Free? && !(w.Started? && w.seen == Some(op.version))
  }

  lemma {:induction false} FreshInvariant(op: Operator, s: State, es: seq<Event>, c: string)
    requires Initial(op, s) && Run(op, s, es) && c in After(op, s, es).works
    requires Pending(op, After(op, s, es).works[c])
    ensures var u := After(op, s, es);
            var w := u.works[c];
            HasVersion(u, w.node, op.version) || w.Observed? || w.Uncordoned? ==> WrittenSince(op, s, es, c, w.node)
    decreases |es|
  {
    hide Enabled, Next, Initial, Resets, HasVersion, Pending, WritesOwn;
    if es == [] {
      NobodyWorks(op, s, c);
    } else {
      var prefix, e := es[..|es| - 1], es[|es| - 1];
      var now := After(op, s, prefix);
      FreshNext(op, now, e, c);
      if !Resets(e, c) {
        FreshInvariant(op, s, prefix, c);
        InvAlways(op, s, prefix);
        FreshKept(op, now, e, c);
      }
    }
  }

  lemma NobodyWorks(op: Operator, s: State, c: string)
    requires Initial(op, s) && c in s.works
    ensures !Pending(op, s.works[c])
  {
  }

  /** After a reset the node does not have the operator's version; otherwise the attempt goes on. */
  lemma FreshNext(op: Operator, s: State, e: Event, c: string)
    requires Enabled(op, s, e) && c in Next(op, s, e).works && Pending(op, Next(op, s, e).works[c])
    ensures var u := Next(op, s, e);
            var w := u.works[c];
            && !w.Free?
            && (Resets(e, c) ==> !HasVersion(u, w.node, op.version) && !w.Observed? && !w.Uncordoned?)
            && (!Resets(e, c) ==> c in s.works && Pending(op, s.works[c]) && !s.works[c].Free? && s.works[c].node == w.node)
  {
    hide LockStep, DaemonStep, DaemonWrite, EnvNodes, EnvDaemons, ActDaemons;
  }

  /** The operator's version comes only from the daemon, and is seen only when it is there. */
  lemma FreshKept(op: Operator, s: State, e: Event, c: string)
    requires Enabled(op, s, e) && Inv(op, s) && c in s.works && c in Next(op, s, e).works && !s.works[c].Free?
    requires !Next(op, s, e).works[c].Free? && Next(op, s, e).works[c].node == s.works[c].node
    ensures var u, n := Next(op, s, e), s.works[c].node;
            var w := u.works[c];
            && (HasVersion(u, n, op.version) ==> HasVersion(s, n, op.version) || WritesOwn(op, s, e, n))
            && (w.Observed? || w.Uncordoned? ==>
                  s.works[c].Observed? || s.works[c].Uncordoned? || HasVersion(s, n, op.version))
  {
    SeenThere(op, s, e, c);
    var u, n := Next(op, s, e), s.works[c].node;
    if HasVersion(u, n, op.version) {
      OnlyWritesVersions(op, s, e, n);
    }
  }

  lemma SeenThere(op: Operator, s: State, e: Event, c: string)
    requires Enabled(op, s, e) && Inv(op, s) && c in s.works && c in Next(op, s, e).works && !s.works[c].Free?
    ensures var w := Next(op, s, e).works[c];
            w.Observed? || w.Uncordoned? ==>
              s.works[c].Observed? || s.works[c].Uncordoned? || HasVersion(s, s.works[c].node, op.version)
  {
    hide LockStep, DaemonStep, DaemonWrite, EnvNodes, EnvDaemons, ActDaemons, ActNodes, Exclusive, LockHeld, Capped;
  }

  /** Configure uncordons a node, or drops its label, only after it started the daemon, set the desired version and
      saw the version equal to it, all in the same attempt, and after the daemon wrote that version. */
  lemma UncordonFollowsObservation(op: Operator, s: State, es: seq<Event>, c: string, a: Action)
    requires Initial(op, s) && Run(op, s, es) && Enabled(op, After(op, s, es), Act(c, a))
    requires a.Uncordon? || a.DropLabel?
    ensures EndsWith(CurrentAttempt(es, c),
                     if a.Uncordon? then [StartDaemon(true, true), SetDesired(Done), Observe]
                     else [StartDaemon(true, true), SetDesired(Done), Observe, Uncordon(Done)])
    ensures WrittenSince(op, s, es, c, After(op, s, es).works[c].node)
  {
    hide After, Run, WrittenSince, CurrentAttempt, Initial;
    AttemptInvariant(op, s, es, c);
    FreshInvariant(op, s, es, c);
  }

  /** What is observed is the operator's own version. */
  lemma ObservedIsOwn(op: Operator, s: State, es: seq<Event>, c: string)
    requires Initial(op, s) && Run(op, s, es) && Enabled(op, After(op, s, es), Act(c, Observe))
    ensures var u := After(op, s, es); u.nodes[u.works[c].node].version == Some(op.version)
  {
    InvAlways(op, s, es);
  }

  /** The write that an attempt waited for ends a complete pass for the operator's version, and happened after
      the attempt began, and after it last removed a version. */
  lemma {:induction false} WrittenSinceAt(op: Operator, s: State, es: seq<Event>, c: string, n: string) returns (k: nat)
    requires Initial(op, s) && Run(op, s, es) && WrittenSince(op, s, es, c, n)
    ensures k < |es| && es[k].OnNode? && es[k].n == n && es[k].d.WriteVersion? && !es[k].d.w.Refused?
    ensures forall j :: k <= j < |es| ==> !Resets(es[j], c)
    ensures Run(op, s, es[..k]) && !Idle(After(op, s, es[..k]), n) && VersionRead(op, s, es[..k], n) == Some(op.version)
    ensures CurrentPass(es[..k], n) ==
            [ReadDesired, Fetched(true), EnvAndCerts(None, true), ServicesReconciled(true), NodeReady(true)]
    decreases |es|
  {
    hide Enabled, Next, Initial, Resets;
    var m := |es| - 1;
    var prefix, e := es[..m], es[m];
    if WritesOwn(op, After(op, s, prefix), e, n) {
      k := m;
      PassInvariant(op, s, prefix, n);
    } else {
      k := WrittenSinceAt(op, s, prefix, c, n);
      assert prefix[..k] == es[..k];
      forall j | k <= j < |es|
        ensures !Resets(es[j], c)
      {
        if j < m {
          assert es[j] == prefix[j];
        }
      }
    }
  }

  // The whole attempt

  /** Past its bootstrap, before it gives up. */
  predicate PastBootstrap(w: Work) {
    w.Bootstrapped? || w.Serving? || w.DesiredSet? || w.Observed? || w.Uncordoned?
  }

  lemma PastNext(op: Operator, s: State, e: Event, c: string)
    requires Enabled(op, s, e) && c in Next(op, s, e).works && PastBootstrap(Next(op, s, e).works[c])
    ensures c in s.works && !s.works[c].Free? && Next(op, s, e).works[c].node == s.works[c].node
    ensures || (e.Act? && e.c == c && e.a.Bootstrap? && e.a.ok && s.works[c].node !in Next(op, s, e).daemons)
            || PastBootstrap(s.works[c])
  {
    hide LockStep, DaemonStep, DaemonWrite, EnvNodes, EnvDaemons, ActNodes;
  }

  lemma {:induction false} BootstrapAt(op: Operator, s: State, es: seq<Event>, c: string) returns (i: nat, r: Wipe)
    requires Initial(op, s) && Run(op, s, es) && c in After(op, s, es).works && PastBootstrap(After(op, s, es).works[c])
    ensures i < |es| && es[i] == Act(c, Bootstrap(r, true)) && Run(op, s, es[..i + 1])
    ensures After(op, s, es).works[c].node !in After(op, s, es[..i + 1]).daemons
    decreases |es|
  {
    hide Enabled, Next, Initial;
    SomethingDone(op, s, es, c);
    var m := |es| - 1;
    var prefix, e := es[..m], es[m];
    PastNext(op, After(op, s, prefix), e, c);
    if e.Act? && e.c == c && e.a.Bootstrap? && e.a.ok && After(op, s, es).works[c].node !in After(op, s, es).daemons {
      i, r := m, e.a.r;
      assert es[..i + 1] == es;
    } else {
      i, r := BootstrapAt(op, s, prefix, c);
      assert prefix[..i + 1] == es[..i + 1];
    }
  }

  lemma SomethingDone(op: Operator, s: State, es: seq<Event>, c: string)
    requires Initial(op, s) && Run(op, s, es) && c in After(op, s, es).works && PastBootstrap(After(op, s, es).works[c])
    ensures es != []
  {
  }

  /** When the cleanup at the start of Configure removed the version, a node is uncordoned only after a whole pass of
      the daemon, from reading the desired version to writing it, that took place after that cleanup. */
  lemma UncordonFollowsPass(op: Operator, s: State, es: seq<Event>, c: string, a: Action)
    returns (i: nat, r: Wipe, j: nat, k: nat)
    requires Initial(op, s) && Run(op, s, es) && Enabled(op, After(op, s, es), Act(c, a))
    requires a.Uncordon? || a.DropLabel?
    ensures i < |es| && es[i] == Act(c, Bootstrap(r, true))
    ensures var n := After(op, s, es).works[c].node;
            r.removed ==>
              && i < j < k < |es| && es[j] == OnNode(n, ReadDesired)
              && es[k].OnNode? && es[k].n == n && es[k].d.WriteVersion? && !es[k].d.w.Refused?
              && Run(op, s, es[..k]) && VersionRead(op, s, es[..k], n) == Some(op.version)
              && CurrentPass(es[..k], n) ==
                 [ReadDesired, Fetched(true), EnvAndCerts(None, true), ServicesReconciled(true), NodeReady(true)]
  {
    hide After, Run, WrittenSince, CurrentAttempt, Initial, CurrentPass, VersionRead;
    var n := After(op, s, es).works[c].node;
    i, r := BootstrapAt(op, s, es, c);
    j, k := 0, 0;
    if r.removed {
      FreshInvariant(op, s, es, c);
      k := WrittenSinceAt(op, s, es, c, n);
      assert Resets(es[i], c);
      assert es[..k][..i + 1] == es[..i + 1];
      PassSinceIdle(op, s, es[..k], n, i + 1);
      j :| i + 1 <= j < k && es[..k][j] == OnNode(n, ReadDesired);
    }
  }
}
