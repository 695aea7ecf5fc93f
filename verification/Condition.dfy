/** The Upgradeable condition: which controllers are busy, and what the operator has told OLM. Every call
    holds the lock, so calls do not overlap; any API call inside may fail. */
module Condition {

  const UPGRADEABLE := "Upgradeable"

  datatype Status = True | False | Unknown

  datatype Condition = Condition(conditionType: string, status: Status)

  /** The fate of the API calls of one call: reading the resource, patching it (refused, applied, or applied
      although an error came back), and waiting for the change to be picked up. */
  datatype Faults = Faults(getFails: bool, patch: PatchOutcome, waitFails: bool)
  datatype PatchOutcome = Applied | Refused | AppliedButError

  const NO_FAULTS := Faults(false, Applied, false)

  /** The global state of the package with the conditions stored in the resource. */
  datatype World = World(busy: set<string>, conditions: seq<Condition>)

  datatype Result = Result(world: World, ok: bool)

  /** The status of the first condition of the type is the expected one. */
  function Validate(conditions: seq<Condition>, conditionType: string, expected: Status): bool {
    if conditions == [] then false
    else if conditions[0].conditionType == conditionType then conditions[0].status == expected
    else Validate(conditions[1..], conditionType, expected)
  }

  /** The first condition of the type exists and has the status. */
  ghost predicate FirstIs(conditions: seq<Condition>, conditionType: string, expected: Status) {
    exists i :: 0 <= i < |conditions| && conditions[i] == Condition(conditionType, expected) &&
                forall j :: 0 <= j < i ==> conditions[j].conditionType != conditionType
  }

  lemma {:induction false} ValidateExactly(conditions: seq<Condition>, conditionType: string, expected: Status)
    ensures Validate(conditions, conditionType, expected) <==> FirstIs(conditions, conditionType, expected)
    decreases |conditions|
  {
    if conditions != [] {
      var rest := conditions[1..];
      ValidateExactly(rest, conditionType, expected);
      if conditions[0].conditionType != conditionType {
        if i :| 0 <= i < |rest| && rest[i] == Condition(conditionType, expected) &&
                forall j :: 0 <= j < i ==> rest[j].conditionType != conditionType {
          assert conditions[i + 1] == rest[i];
          assert forall j :: 0 < j < i + 1 ==> conditions[j] == rest[j - 1];
        }
        if i :| 0 <= i < |conditions| && conditions[i] == Condition(conditionType, expected) &&
                forall j :: 0 <= j < i ==> conditions[j].conditionType != conditionType {
          assert rest[i - 1] == conditions[i];
          assert forall j :: 0 <= j < i - 1 ==> rest[j] == conditions[j + 1];
        }
      } else {
        assert conditions[0].conditionType == conditionType;
      }
    }
  }

  function Set(w: World, status: Status, f: Faults): Result {
    Result(
      if f.patch.Refused? then w else w.(conditions := [Condition(UPGRADEABLE, status)]),
      f.patch.Applied? && !f.waitFails)
  }

  function Busy(w: World, controller: string, f: Faults): Result {
    var w' := w.(busy := w.busy + {controller});
    if f.getFails then Result(w', false)
    else if Validate(w.conditions, UPGRADEABLE, False) then Result(w', true)
    else Set(w', False, f)
  }

  function FreeUp(w: World, controller: string, f: Faults): Result {
    var w' := w.(busy := w.busy - {controller});
    if w'.busy != {} then Result(w', true)
    else if f.getFails then Result(w', false)
    else if Validate(w.conditions, UPGRADEABLE, True) then Result(w', true)
    else Set(w', True, f)
  }

  /** The package's variables, changed in place. */
  class Tracker {
    var managed: bool
    var busyControllers: set<string>
    var conditions: seq<Condition>

    constructor (managed: bool, conditions: seq<Condition>)
      ensures this.managed == managed && Now() == World({}, conditions)
    {
      this.managed, busyControllers, this.conditions := managed, {}, conditions;
    }

    function Now(): World
      reads this
    {
      World(busyControllers, conditions)
    }

    /** The read-only loop over the conditions. */
    method CheckCondition(conditionType: string, expected: Status) returns (ok: bool)
      ensures ok == Validate(conditions, conditionType, expected)
      ensures ok <==> exists i :: 0 <= i < |conditions| && conditions[i] == Condition(conditionType, expected) &&
                                  forall j :: 0 <= j < i ==> conditions[j].conditionType != conditionType
    {
      ValidateExactly(conditions, conditionType, expected);
      for i := 0 to |conditions|
        invariant Validate(conditions, conditionType, expected) == Validate(conditions[i..], conditionType, expected)
      {
        if conditions[i].conditionType == conditionType {
          return conditions[i].status == expected;
        }
      }
      return false;
    }

    method SetCondition(status: Status, f: Faults) returns (ok: bool)
      modifies this`conditions
      ensures Result(Now(), ok) == Set(old(Now()), status, f)
      ensures ok <==> f.patch == Applied && !f.waitFails
      ensures conditions == if f.patch == Refused then old(conditions) else [Condition(UPGRADEABLE, status)]
    {
      if f.patch.Refused? {
        return false;
      }
      conditions := [Condition(UPGRADEABLE, status)];
      return f.patch.Applied? && !f.waitFails;
    }

    method MarkAsBusy(controller: string, f: Faults) returns (ok: bool)
      modifies this`busyControllers, this`conditions
      ensures Result(Now(), ok) == if managed then Busy(old(Now()), controller, f) else Result(old(Now()), true)
      ensures managed ==> busyControllers == old(busyControllers) + {controller}
      ensures !ok <==> managed && (f.getFails || (!FirstIs(old(conditions), UPGRADEABLE, False) &&
                                                  (f.patch != Applied || f.waitFails)))
      ensures conditions == if managed && !f.getFails && !FirstIs(old(conditions), UPGRADEABLE, False) && f.patch != Refused
                            then [Condition(UPGRADEABLE, False)] else old(conditions)
    {
      if !managed {
        return true;
      }
      ValidateExactly(conditions, UPGRADEABLE, False);
      busyControllers := busyControllers + {controller};
      if f.getFails {
        return false;
      }
      var blocked := CheckCondition(UPGRADEABLE, False);
      if blocked {
        return true;
      }
      ok := SetCondition(False, f);
    }

    method MarkAsFree(controller: string, f: Faults) returns (ok: bool)
      modifies this`busyControllers, this`conditions
      ensures Result(Now(), ok) == if managed then FreeUp(old(Now()), controller, f) else Result(old(Now()), true)
      ensures managed ==> busyControllers == old(busyControllers) - {controller}
      ensures !ok <==> managed && old(busyControllers) <= {controller} &&
                       (f.getFails || (!FirstIs(old(conditions), UPGRADEABLE, True) && (f.patch != Applied || f.waitFails)))
      ensures conditions == if managed && old(busyControllers) <= {controller} && !f.getFails &&
                               !FirstIs(old(conditions), UPGRADEABLE, True) && f.patch != Refused
                            then [Condition(UPGRADEABLE, True)] else old(conditions)
    {
      if !managed {
        return true;
      }
      ValidateExactly(conditions, UPGRADEABLE, True);
      busyControllers := busyControllers - {controller};
      if busyControllers != {} {
        return true;
      }
      if f.getFails {
        return false;
      }
      var open := CheckCondition(UPGRADEABLE, True);
      if open {
        return true;
      }
      ok := SetCondition(True, f);
    }
  }

  // Runs: one reconcile at a time per controller

  /** `reconciling` are the controllers inside Reconcile; `owing` those that have marked themselves busy with
      success and have not called MarkAsFree since. */
  datatype System = System(world: World, reconciling: set<string>, owing: set<string>)

  datatype Event =
    | Enter(c: string, f: Faults)
    | Leave(c: string, requeue: bool, failed: bool, f: Faults)

  predicate Enabled(s: System, e: Event) {
    match e
    case Enter(c, _) => c !in s.reconciling
    case Leave(c, _, _, _) => c in s.reconciling
  }

  function Next(s: System, e: Event): System {
    match e
    case Enter(c, f) =>
      var r := Busy(s.world, c, f);
      if r.ok then System(r.world, s.reconciling + {c}, s.owing + {c}) else s.(world := r.world)
    case Leave(c, requeue, failed, f) =>
      if requeue || failed then s.(reconciling := s.reconciling - {c})
      else System(FreeUp(s.world, c, f).world, s.reconciling - {c}, s.owing - {c})
  }

  ghost predicate Run(s: System, es: seq<Event>)
    decreases |es|
  {
    es == [] || (Enabled(s, es[0]) && Run(Next(s, es[0]), es[1..]))
  }

  function After(s: System, es: seq<Event>): System
    decreases |es|
  {
    if es == [] then s else After(Next(s, es[0]), es[1..])
  }

  predicate Upgradeable(w: World) {
    Validate(w.conditions, UPGRADEABLE, True)
  }

  ghost predicate Guarded(s: System) {
    && s.owing <= s.world.busy
    && (s.owing != {} ==> !Upgradeable(s.world))
  }

  lemma SetDecides(status: Status, expected: Status)
    ensures Validate([Condition(UPGRADEABLE, status)], UPGRADEABLE, expected) <==> status == expected
  {
  }

  lemma GuardedNext(s: System, e: Event)
    requires Guarded(s) && Enabled(s, e)
    ensures Guarded(Next(s, e))
  {
    SetDecides(True, True);
    SetDecides(False, True);
    FalseIsNotTrue(s.world.conditions);
  }

  lemma {:induction false} FalseIsNotTrue(conditions: seq<Condition>)
    ensures !(Validate(conditions, UPGRADEABLE, False) && Validate(conditions, UPGRADEABLE, True))
    decreases |conditions|
  {
    if conditions != [] {
      FalseIsNotTrue(conditions[1..]);
    }
  }

  /** In every run, with any API failures, Upgradeable is not True while some controller owes its free. */
  lemma {:induction false} NeverUpgradeableWhileOwing(s: System, es: seq<Event>)
    requires s.reconciling == {} && s.owing == {} && Run(s, es)
    ensures After(s, es).owing <= After(s, es).world.busy
    ensures After(s, es).owing != {} ==> !Upgradeable(After(s, es).world)
  {
    GuardedAlways(s, es);
  }

  lemma {:induction false} GuardedAlways(s: System, es: seq<Event>)
    requires Guarded(s) && Run(s, es)
    ensures Guarded(After(s, es))
    decreases |es|
  {
    if es != [] {
      GuardedNext(s, es[0]);
      GuardedAlways(Next(s, es[0]), es[1..]);
    }
  }

  predicate Faultless(e: Event) {
    e.f == NO_FAULTS
  }

  /** Whether the event calls MarkAsBusy or MarkAsFree at all. */
  predicate Calls(e: Event) {
    e.Enter? || (!e.requeue && !e.failed)
  }

  lemma {:induction false} FaultlessExact(s: System, es: seq<Event>, settled: bool)
    requires settled ==> (Upgradeable(s.world) <==> s.world.busy == {})
    requires settled || s.world.busy == {}
    requires Run(s, es) && forall e :: e in es ==> Faultless(e)
    requires settled || exists e :: e in es && Calls(e)
    ensures Upgradeable(After(s, es).world) <==> After(s, es).world.busy == {}
    decreases |es|
  {
    if es != [] {
      SetDecides(True, True);
      SetDecides(False, True);
      FalseIsNotTrue(s.world.conditions);
      var e := es[0];
      assert e.Enter? ==> e.c in Next(s, e).world.busy;
      assert Faultless(e);
      FaultlessExact(Next(s, e), es[1..], settled || Calls(e));
    }
  }

  /** When no API call fails, Upgradeable is True exactly when the busy set is empty, from the first call on. */
  lemma FaultlessUpgradeable(s: System, es: seq<Event>)
    requires s.world.busy == {} && s.reconciling == {} && Run(s, es)
    requires (forall e :: e in es ==> Faultless(e)) && exists e :: e in es && Calls(e)
    ensures Upgradeable(After(s, es).world) <==> After(s, es).world.busy == {}
  {
    FaultlessExact(s, es, false);
  }

  // Busy controllers that nobody waits for

  /** The call never gets to change the resource: reading it fails, or the patch is refused. */
  predicate Dropped(f: Faults) {
    f.getFails || f.patch.Refused?
  }

  /** MarkAsBusy leaves Upgradeable True exactly when it was True and the call is dropped; it then returns an
      error, so the controller does not go on, but stays in the busy set. */
  lemma BusyStaysUpgradeable(w: World, c: string, f: Faults)
    ensures c in Busy(w, c, f).world.busy
    ensures Upgradeable(Busy(w, c, f).world) <==> Upgradeable(w) && Dropped(f)
    ensures Upgradeable(Busy(w, c, f).world) ==> !Busy(w, c, f).ok
  {
    SetDecides(False, True);
    FalseIsNotTrue(w.conditions);
  }

  /** Some controller is in the busy set, and Upgradeable is True all the same. */
  predicate Exposed(w: World) {
    w.busy != {} && Upgradeable(w)
  }

  lemma ExposedNext(s: System, e: Event)
    requires Enabled(s, e)
    ensures var u := Next(s, e).world;
            Exposed(u) <==> u.busy != {} && Upgradeable(s.world) && (e.Enter? ==> Dropped(e.f))
  {
    if e.Enter? {
      BusyStaysUpgradeable(s.world, e.c, e.f);
    }
  }

  lemma {:induction false} AfterSnoc(s: System, es: seq<Event>)
    requires es != []
    ensures var front := es[..|es| - 1];
            && After(s, es) == Next(After(s, front), es[|es| - 1])
            && (Run(s, es) <==> Run(s, front) && Enabled(After(s, front), es[|es| - 1]))
    decreases |es|
  {
    if |es| > 1 {
      var front := es[..|es| - 1];
      assert es[1..][..|es| - 2] == front[1..];
      AfterSnoc(Next(s, es[0]), es[1..]);
    } else {
      assert es[1..] == [] && es[..0] == [];
    }
  }

  /** The event keeps some controller busy, and drops its call if it is a MarkAsBusy. */
  ghost predicate Unnoticed(s: System, es: seq<Event>, j: nat)
    requires j < |es|
  {
    After(s, es[..j + 1]).world.busy != {} && (es[j].Enter? ==> Dropped(es[j].f))
  }

  /** Event `i` makes a first controller busy while Upgradeable is True, and from there on no event is noticed. */
  ghost predicate ExposedFrom(s: System, es: seq<Event>, i: nat)
    requires i < |es|
  {
    && After(s, es[..i]).world.busy == {} && Upgradeable(After(s, es[..i]).world)
    && (forall j | i <= j < |es| :: Unnoticed(s, es, j))
  }

  /** In every run a controller is busy while Upgradeable is True exactly when, since the busy set was last
      empty, with Upgradeable True, every single call of MarkAsBusy was dropped. */
  lemma {:induction false} ExposedExactly(s: System, es: seq<Event>)
    requires s.world.busy == {} && Run(s, es)
    ensures Exposed(After(s, es).world) <==> exists i | 0 <= i < |es| :: ExposedFrom(s, es, i)
    decreases |es|
  {
    if es != [] {
      var m := |es| - 1;
      var front, e := es[..m], es[m];
      var now := After(s, front);
      AfterSnoc(s, es);
      ExposedExactly(s, front);
      ExposedNext(now, e);
      assert es[..m + 1] == es;
      forall i | 0 <= i < m
        ensures ExposedFrom(s, es, i) <==> ExposedFrom(s, front, i) && Unnoticed(s, es, m)
      {
        SameBefore(s, es, m, i);
      }
      if Exposed(After(s, es).world) && now.world.busy == {} {
        assert ExposedFrom(s, es, m);
      }
      if Exposed(After(s, es).world) && now.world.busy != {} {
        var i :| 0 <= i < m && ExposedFrom(s, front, i);
        assert ExposedFrom(s, es, i);
      }
      if i :| 0 <= i < |es| && ExposedFrom(s, es, i) {
        assert Unnoticed(s, es, m);
        assert i < m ==> ExposedFrom(s, front, i);
      }
    }
  }

  lemma SameBefore(s: System, es: seq<Event>, m: nat, i: nat)
    requires i < m < |es| && m == |es| - 1
    ensures ExposedFrom(s, es, i) <==> ExposedFrom(s, es[..m], i) && Unnoticed(s, es, m)
  {
    var front := es[..m];
    assert front[..i] == es[..i];
    forall j | i <= j < m
      ensures Unnoticed(s, es, j) <==> Unnoticed(s, front, j)
    {
      assert front[..j + 1] == es[..j + 1];
    }
    if ExposedFrom(s, front, i) && Unnoticed(s, es, m) {
      forall j | i <= j < |es|
        ensures Unnoticed(s, es, j)
      {
        assert j < m ==> Unnoticed(s, front, j);
      }
    }
    if ExposedFrom(s, es, i) {
      forall j | i <= j < m
        ensures Unnoticed(s, front, j)
      {
        assert Unnoticed(s, es, j);
      }
    }
  }

  predicate Frees(e: Event, c: string) {
    e.Leave? && e.c == c && !e.requeue && !e.failed
  }

  /** Event `i` is a MarkAsBusy of the controller that it has not undone since. */
  ghost predicate LastMarked(es: seq<Event>, c: string, i: nat)
    requires i < |es|
  {
    es[i].Enter? && es[i].c == c && forall j :: i < j < |es| ==> !Frees(es[j], c)
  }

  ghost predicate Succeeds(s: System, es: seq<Event>, i: nat)
    requires i < |es|
  {
    es[i].Enter? && Busy(After(s, es[..i]).world, es[i].c, es[i].f).ok
  }

  /** In every run the busy controllers are those that called MarkAsBusy and not MarkAsFree since, the owing
      ones those of them for which one of these calls succeeded. The others are busy only because failed calls
      leave them in the set. */
  lemma {:induction false} BusyAndOwing(s: System, es: seq<Event>, c: string)
    requires s.world.busy == {} && s.owing == {} && Run(s, es)
    ensures c in After(s, es).world.busy <==> exists i | 0 <= i < |es| :: LastMarked(es, c, i)
    ensures c in After(s, es).owing <==> exists i | 0 <= i < |es| :: LastMarked(es, c, i) && Succeeds(s, es, i)
    decreases |es|
  {
    hide After, Run, LastMarked, Succeeds, Next;
    if es == [] {
      AfterNothing(s);
    } else {
      var m := |es| - 1;
      AfterSnoc(s, es);
      BusyAndOwing(s, es[..m], c);
      BusyNext(After(s, es[..m]), es[m], c);
      assert (exists i | 0 <= i < |es| :: LastMarked(es, c, i)) <==>
             LastMarked(es, c, m) || exists i | 0 <= i < m :: LastMarked(es, c, i);
      assert (exists i | 0 <= i < |es| :: LastMarked(es, c, i) && Succeeds(s, es, i)) <==>
             (LastMarked(es, c, m) && Succeeds(s, es, m)) ||
             exists i | 0 <= i < m :: LastMarked(es, c, i) && Succeeds(s, es, i);
      forall i | 0 <= i <= m
        ensures i < m ==> (LastMarked(es, c, i) <==> LastMarked(es[..m], c, i) && !Frees(es[m], c))
        ensures i < m ==> (Succeeds(s, es, i) <==> Succeeds(s, es[..m], i))
        ensures LastMarked(es, c, m) <==> es[m].Enter? && es[m].c == c
        ensures LastMarked(es, c, m) ==> (Succeeds(s, es, m) <==> Busy(After(s, es[..m]).world, c, es[m].f).ok)
      {
        MarkedSnoc(s, es, c, m, i);
      }
    }
  }

  lemma AfterNothing(s: System)
    ensures After(s, []) == s
  {
  }

  lemma BusyNext(s: System, e: Event, c: string)
    ensures c in Next(s, e).world.busy <==> (c in s.world.busy && !Frees(e, c)) || (e.Enter? && e.c == c)
    ensures c in Next(s, e).owing <==>
            (c in s.owing && !Frees(e, c)) || (e.Enter? && e.c == c && Busy(s.world, c, e.f).ok)
  {
  }

  lemma MarkedSnoc(s: System, es: seq<Event>, c: string, m: nat, i: nat)
    requires i <= m < |es| && m == |es| - 1
    ensures i < m ==> (LastMarked(es, c, i) <==> LastMarked(es[..m], c, i) && !Frees(es[m], c))
    ensures i < m ==> (Succeeds(s, es, i) <==> Succeeds(s, es[..m], i))
    ensures LastMarked(es, c, m) <==> es[m].Enter? && es[m].c == c
    ensures LastMarked(es, c, m) ==> (Succeeds(s, es, m) <==> Busy(After(s, es[..m]).world, c, es[m].f).ok)
  {
    hide After, Busy, Frees;
    if i < m {
      assert es[..m][..i] == es[..i];
      assert LastMarked(es, c, i) ==> !Frees(es[m], c);
    }
  }

  /** An instance: the very first MarkAsBusy is dropped. */
  lemma FailedBusyMayStayUpgradeable(c: string, f: Faults)
    ensures var s := System(World({}, [Condition(UPGRADEABLE, True)]), {}, {});
            var u := Next(s, Enter(c, f));
            (c in u.world.busy && Upgradeable(u.world) <==> Dropped(f)) && (Dropped(f) ==> u.owing == {})
  {
    var w := World({}, [Condition(UPGRADEABLE, True)]);
    SetDecides(True, True);
    BusyStaysUpgradeable(w, c, f);
  }
}
