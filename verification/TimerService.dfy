/** infra/timer/TimerService.cpp and Timer.cpp: a list of armed timers, the cached time of the next
    trigger, whose recomputation is deferred while timers run, and the order in which they run. */
module TimerService {
  import opened Common

  type Id = nat

  /** TimePoint::max(). */
  const MAX := 0x7FFF_FFFF_FFFF_FFFF

  /** A timer is armed when it has an action; `period` is zero for a single shot. */
  datatype Timer<A> = Timer(trigger: int, period: nat, action: Option<A>)

  /** A callback: which timer ran, and for which trigger time. */
  datatype Firing<A> = Firing(id: Id, trigger: int, action: A)

  /** What the body of an action may do to timers: SetNextTriggerTime and Cancel. */
  datatype Command<A> = Arm(id: Id, time: int, action: A) | Disarm(id: Id)

  // ---------------------------------------------------------------------------------------------
  // Specification
  // ---------------------------------------------------------------------------------------------

  /** The list holds exactly the armed timers, each once. */
  predicate ListOk<A>(timers: map<Id, Timer<A>>, scheduled: seq<Id>) {
    && Distinct(scheduled)
    && (forall id :: id in scheduled ==> id in timers && timers[id].action.Some?)
    && (forall id :: id in timers && timers[id].action.Some? ==> id in scheduled)
    && (forall id :: id in timers ==> timers[id].trigger <= MAX)
  }

  /** `m` is the earliest trigger time in the list, or the latest possible time without timers. */
  predicate IsMinimum<A>(m: int, timers: map<Id, Timer<A>>, scheduled: seq<Id>) {
    && (forall id :: id in scheduled && id in timers ==> m <= timers[id].trigger)
    && (if scheduled == [] then m == MAX
        else exists i :: 0 <= i < |scheduled| && scheduled[i] in timers && timers[scheduled[i]].trigger == m)
  }

  /** detail::TimerRepeating::ComputeNextTriggerTime. */
  function NextRepetition(now: int, trigger: int, period: nat): int
    requires period > 0
  {
    var from := if now > trigger then now else trigger;
    from - (from - trigger) % period + period
  }

  /** A repeating timer keeps its phase: the next trigger is the first one after now (or after its last
      trigger) that is a whole number of periods away. */
  lemma RepetitionKeepsPhase(now: int, trigger: int, period: nat)
    requires period > 0
    ensures var next := NextRepetition(now, trigger, period); var from := if now > trigger then now else trigger;
      next == trigger + ((from - trigger) / period + 1) * period && from < next <= from + period
  {
    var from := if now > trigger then now else trigger;
    var d := from - trigger;
    var q := d / period;
    assert d == q * period + d % period;
    assert (q + 1) * period == q * period + period;
  }

  /** What becomes of a timer when its time has come. A single shot is disarmed. A repeating timer keeps
      its action and its phase: it is armed for the first time behind both its trigger and now that is a
      whole number of periods after its trigger. */
  ghost predicate Renewed<A>(t: Timer<A>, t': Timer<A>, now: int) {
    && t'.period == t.period
    && (t.period == 0 ==> t'.action.None?)
    && (t.period > 0 ==>
          && t'.action == t.action && (t'.trigger - t.trigger) % t.period == 0
          && now < t'.trigger && t.trigger < t'.trigger
          && (t'.trigger <= now + t.period || t'.trigger <= t.trigger + t.period))
  }

  lemma RearmedIsRenewed<A>(t: Timer<A>, now: int)
    ensures Renewed(t, Rearmed(t, now), now)
  {
    if t.period > 0 {
      RepetitionKeepsPhase(now, t.trigger, t.period);
      var from := if now > t.trigger then now else t.trigger;
      WholePeriods((from - t.trigger) / t.period + 1, t.period);
    }
  }

  lemma WholePeriods(n: int, period: nat)
    requires period > 0
    ensures (n * period) % period == 0
  {
    var r := (n * period) % period;
    var q := (n * period) / period;
    assert n * period == q * period + r;
    assert (n - q) * period == r;
    MultipleIsFar(n - q, period);
  }

  lemma MultipleIsFar(n: int, period: nat)
    ensures n >= 1 ==> n * period >= period
    ensures n <= -1 ==> n * period <= 0 - period
  {
  }

  /** Two times in the same phase, less than a period apart, are one. */
  lemma PhaseIsUnique(trigger: int, period: nat, a: int, b: int)
    requires period > 0 && (a - trigger) % period == 0 && (b - trigger) % period == 0 && 0 - period < a - b < period
    ensures a == b
  {
    var m, n := (a - trigger) / period, (b - trigger) / period;
    assert a - trigger == m * period && b - trigger == n * period;
    assert a - b == (m - n) * period;
    MultipleIsFar(m - n, period);
  }

  /** There is only one such timer, for a repetition. */
  lemma RenewedIsUnique<A>(t: Timer<A>, a: Timer<A>, b: Timer<A>, now: int)
    requires Renewed(t, a, now) && Renewed(t, b, now) && t.period > 0
    ensures a == b
  {
    PhaseIsUnique(t.trigger, t.period, a.trigger, b.trigger);
  }

  // ---------------------------------------------------------------------------------------------
  // Turns of Progressed
  // ---------------------------------------------------------------------------------------------

  /** The timer in place `e` is due, no due one is earlier, and of those as early it is the first. */
  predicate FirstLeast<A>(timers: map<Id, Timer<A>>, scheduled: seq<Id>, e: nat, time: int) {
    && e < |scheduled| && Due(timers, scheduled[e], time)
    && (forall k :: 0 <= k < |scheduled| && Due(timers, scheduled[k], time) ==>
          timers[scheduled[e]].trigger <= timers[scheduled[k]].trigger)
    && (forall k :: 0 <= k < e && Due(timers, scheduled[k], time) ==>
          timers[scheduled[e]].trigger < timers[scheduled[k]].trigger)
  }

  function Commanded<A>(t: Timer<A>, c: Command<A>): Timer<A> {
    match c
    case Arm(_, time, action) => t.(trigger := time, action := Some(action))
    case Disarm(_) => t.(trigger := 0, action := None)
  }

  /** The timers after the body of an action. */
  function AfterCommands<A>(timers: map<Id, Timer<A>>, commands: seq<Command<A>>): (r: map<Id, Timer<A>>)
    requires forall c :: c in commands ==> c.id in timers
    ensures r.Keys == timers.Keys
  {
    if commands == [] then timers
    else
      var last := commands[|commands| - 1];
      var before := AfterCommands(timers, commands[..|commands| - 1]);
      before[last.id := Commanded(before[last.id], last)]
  }

  /** The last command for a timer. */
  function LastFor<A>(commands: seq<Command<A>>, id: Id): (r: Option<Command<A>>)
    ensures r.None? <==> forall c :: c in commands ==> c.id != id
    ensures r.Some? ==> r.value in commands && r.value.id == id
  {
    if commands == [] then None
    else if commands[|commands| - 1].id == id then Some(commands[|commands| - 1])
    else LastFor(commands[..|commands| - 1], id)
  }

  /** Of the commands for a timer, only the last one counts. */
  lemma {:induction false} LastCommandDecides<A>(timers: map<Id, Timer<A>>, commands: seq<Command<A>>, id: Id)
    requires (forall c :: c in commands ==> c.id in timers) && id in timers
    ensures AfterCommands(timers, commands)[id] ==
      match LastFor(commands, id) case None => timers[id] case Some(c) => Commanded(timers[id], c)
  {
    if commands != [] {
      LastCommandDecides(timers, commands[..|commands| - 1], id);
    }
  }

  /** The firing is that of a due timer, and none that is due has an earlier time. */
  ghost predicate LeastDue<A>(timers: map<Id, Timer<A>>, firing: Firing<A>, time: int) {
    && firing.id in DueIds(timers, time)
    && timers[firing.id].trigger == firing.trigger
    && timers[firing.id].action == Some(firing.action)
    && forall id :: id in DueIds(timers, time) ==> firing.trigger <= timers[id].trigger
  }

  /** A turn in which a least due timer runs: it is first rearmed, and then its action commands. */
  ghost predicate TurnIs<A>(before: map<Id, Timer<A>>, firing: Firing<A>, commands: seq<Command<A>>, after: map<Id,
      Timer<A>>, time: int, now: int) {
    && LeastDue(before, firing, time)
    && (forall c :: c in commands ==> c.id in before)
    && after == AfterCommands(before[firing.id := Rearmed(before[firing.id], now)], commands)
  }

  /** The timers which a turn leaves armed at or before `time`: by the last command for them, or by the
      rearming of the timer that ran. */
  ghost function ArmedDue<A>(before: map<Id, Timer<A>>, id: Id, commands: seq<Command<A>>, time: int,
      now: int): set<Id> {
    set x | x in before && match LastFor(commands, x) {
      case None => x == id && Rearmed(before[x], now).action.Some? && Rearmed(before[x], now).trigger <= time
      case Some(c) => c.Arm? && c.time <= time
    }
  }

  /** What a turn arms at or before the time is due after it; if no other timer was due before it, then
      nothing else is. */
  lemma DueAfterTurn<A>(before: map<Id, Timer<A>>, firing: Firing<A>, commands: seq<Command<A>>, after: map<Id,
      Timer<A>>, time: int, now: int)
    requires TurnIs(before, firing, commands, after, time, now)
    ensures ArmedDue(before, firing.id, commands, time, now) <= DueIds(after, time)
    ensures DueIds(before, time) == {firing.id} ==>
              DueIds(after, time) == ArmedDue(before, firing.id, commands, time, now)
  {
    var rearmed := before[firing.id := Rearmed(before[firing.id], now)];
    forall x | x in before
      ensures x in ArmedDue(before, firing.id, commands, time, now) ==> x in DueIds(after, time)
      ensures x in DueIds(after, time) && DueIds(before, time) == {firing.id} ==>
                x in ArmedDue(before, firing.id, commands, time, now)
    {
      LastCommandDecides(rearmed, commands, x);
      assert x in DueIds(before, time) && DueIds(before, time) == {firing.id} ==> x == firing.id;
    }
  }

  /** At or after the time that is reported, a turn leaves nothing armed exactly if each command that
      arms a timer at or before that time is followed by another one for the same timer. */
  lemma NothingArmedDue<A>(before: map<Id, Timer<A>>, id: Id, commands: seq<Command<A>>, time: int, now: int)
    requires id in before && time <= now && forall c :: c in commands ==> c.id in before
    ensures ArmedDue(before, id, commands, time, now) == {} <==>
      forall i :: 0 <= i < |commands| && commands[i].Arm? && commands[i].time <= time ==> Superseded(commands, i)
  {
    RearmedNotDue(before[id], time, now);
    forall i | 0 <= i < |commands| && !Superseded(commands, i)
      ensures LastFor(commands, commands[i].id) == Some(commands[i])
    {
      LastIsLast(commands, i);
    }
    forall x | x in ArmedDue(before, id, commands, time, now)
      ensures exists i ::
                && 0 <= i < |commands| && commands[i].Arm? && commands[i].time <= time
                && !Superseded(commands, i)
    {
      var i := LastPlace(commands, x);
    }
    if i :| 0 <= i < |commands| && commands[i].Arm? && commands[i].time <= time && !Superseded(commands, i) {
      assert commands[i] in commands;
      assert commands[i].id in ArmedDue(before, id, commands, time, now);
    }
  }

  /** A later command is for the same timer. */
  ghost predicate Superseded<A>(commands: seq<Command<A>>, i: nat)
    requires i < |commands|
  {
    exists j :: i < j < |commands| && commands[j].id == commands[i].id
  }

  lemma {:induction false} LastIsLast<A>(commands: seq<Command<A>>, i: nat)
    requires i < |commands| && !Superseded(commands, i)
    ensures LastFor(commands, commands[i].id) == Some(commands[i])
  {
    var last := |commands| - 1;
    if i < last {
      assert commands[last].id != commands[i].id;
      assert !Superseded(commands[..last], i);
      LastIsLast(commands[..last], i);
    }
  }

  lemma {:induction false} LastPlace<A>(commands: seq<Command<A>>, id: Id) returns (i: nat)
    requires LastFor(commands, id).Some?
    ensures i < |commands| && LastFor(commands, id) == Some(commands[i]) && !Superseded(commands, i)
  {
    i := |commands| - 1;
    if commands[i].id != id {
      var last := i;
      i := LastPlace(commands[..last], id);
      assert forall j :: i < j < last ==> commands[..last][j] == commands[j];
    }
  }

  /** The turns of a Progressed: the timers before each, and what ran in it. */
  ghost predicate Turns<A(!new)>(states: seq<map<Id, Timer<A>>>, ran: seq<Firing<A>>, log: seq<Firing<A>>,
      effect: seq<Firing<A>> -> seq<Command<A>>, time: int, now: int) {
    && |states| == |ran| + 1
    && (forall k :: 0 <= k < |ran| ==> TurnIs(states[k], ran[k], effect(log + ran[..k + 1]), states[k + 1], time, now))
    && (forall k :: 0 <= k < |ran| - 1 ==> DueIds(states[k], time) != {ran[k].id})
  }

  /** What the last turn, if any, armed at or before the time. */
  ghost function LeftDue<A>(states: seq<map<Id, Timer<A>>>, ran: seq<Firing<A>>, commands: seq<Command<A>>, time: int,
      now: int): set<Id>
    requires |states| == |ran| + 1
  {
    if ran == [] then {} else ArmedDue(states[|ran| - 1], ran[|ran| - 1].id, commands, time, now)
  }

  lemma TurnsExtend<A(!new)>(states: seq<map<Id, Timer<A>>>, ran: seq<Firing<A>>, log: seq<Firing<A>>,
      effect: seq<Firing<A>> -> seq<Command<A>>, time: int, now: int, firing: Firing<A>, after: map<Id, Timer<A>>)
    requires Turns(states, ran, log, effect, time, now)
    requires TurnIs(states[|ran|], firing, effect(log + (ran + [firing])), after, time, now)
    requires ran != [] ==> DueIds(states[|ran| - 1], time) != {ran[|ran| - 1].id}
    ensures Turns(states + [after], ran + [firing], log, effect, time, now)
  {
    hide TurnIs, DueIds;
    var ran' := ran + [firing];
    forall k | 0 <= k < |ran'|
      ensures TurnIs((states + [after])[k], ran'[k], effect(log + ran'[..k + 1]), (states + [after])[k + 1], time, now)
    {
      if k < |ran| {
        assert ran'[..k + 1] == ran[..k + 1];
      } else {
        assert ran'[..k + 1] == ran';
      }
    }
  }

  /** What the last turn armed is due after it. */
  lemma LastTurnArmed<A(!new)>(states: seq<map<Id, Timer<A>>>, ran: seq<Firing<A>>, log: seq<Firing<A>>,
      effect: seq<Firing<A>> -> seq<Command<A>>, time: int, now: int)
    requires Turns(states, ran, log, effect, time, now)
    ensures LeftDue(states, ran, effect(log + ran), time, now) <= DueIds(states[|ran|], time)
  {
    hide ArmedDue, AfterCommands;
    if ran != [] {
      var k := |ran| - 1;
      assert ran[..k + 1] == ran;
      DueAfterTurn(states[k], ran[k], effect(log + ran), states[k + 1], time, now);
    }
  }

  lemma SameFrameTrans<A>(a: map<Id, Timer<A>>, b: map<Id, Timer<A>>, c: map<Id, Timer<A>>)
    requires SameFrame(a, b) && SameFrame(b, c)
    ensures SameFrame(a, c)
  {
  }

  lemma RearmedFrame<A>(timers: map<Id, Timer<A>>, id: Id, now: int)
    requires id in timers
    ensures SameFrame(timers, timers[id := Rearmed(timers[id], now)])
  {
  }

  lemma FrameKeeps<A(!new)>(a: map<Id, Timer<A>>, b: map<Id, Timer<A>>, effect: seq<Firing<A>> -> seq<Command<A>>,
      time: int, now: int)
    requires EffectOk(a, effect) && PeriodsFit(a, time, now) && (a == b || SameFrame(a, b))
    ensures SameFrame(a, b) && EffectOk(b, effect) && PeriodsFit(b, time, now)
  {
  }

  lemma NoneDue<A>(timers: map<Id, Timer<A>>, scheduled: seq<Id>, time: int)
    requires ListOk(timers, scheduled) && forall id :: id in scheduled ==> !Due(timers, id, time)
    ensures DueIds(timers, time) == {}
  {
    DueListed(timers, scheduled, time);
  }

  /** The timer that the search finds, in terms of what is due. */
  lemma FoundIsLeast<A>(timers: map<Id, Timer<A>>, scheduled: seq<Id>, time: int, e: nat, more: bool)
    requires ListOk(timers, scheduled) && FirstLeast(timers, scheduled, e, time)
    requires more <==> exists id :: id in scheduled && Due(timers, id, time) && id != scheduled[e]
    ensures scheduled[e] in timers && timers[scheduled[e]].action.Some? && timers[scheduled[e]].trigger <= time
    ensures DueIds(timers, time) != {}
    ensures LeastDue(timers, Firing(scheduled[e], timers[scheduled[e]].trigger, timers[scheduled[e]].action.value),
                     time)
    ensures more <==> DueIds(timers, time) != {scheduled[e]}
  {
    DueListed(timers, scheduled, time);
    if !more {
      assert DueIds(timers, time) == {scheduled[e]};
    }
  }

  lemma DueListed<A>(timers: map<Id, Timer<A>>, scheduled: seq<Id>, time: int)
    requires ListOk(timers, scheduled)
    ensures forall id :: id in DueIds(timers, time) <==> id in scheduled && Due(timers, id, time)
  {
  }

  // ---------------------------------------------------------------------------------------------
  // The minimum under changes of the list
  // ---------------------------------------------------------------------------------------------

  lemma MinimumAfterInsert<A>(m: int, timers: map<Id, Timer<A>>, scheduled: seq<Id>, id: Id, t: Timer<A>)
    requires ListOk(timers, scheduled) && IsMinimum(m, timers, scheduled) && id !in scheduled && t.trigger <= MAX
    ensures IsMinimum(if t.trigger < m then t.trigger else m, timers[id := t], [id] + scheduled)
  {
    var timers', scheduled' := timers[id := t], [id] + scheduled;
    if t.trigger < m || scheduled == [] {
      assert scheduled'[0] == id;
    } else {
      var i :| 0 <= i < |scheduled| && timers[scheduled[i]].trigger == m;
      assert scheduled'[i + 1] == scheduled[i];
    }
  }

  lemma MinimumAfterRemove<A>(m: int, timers: map<Id, Timer<A>>, scheduled: seq<Id>, id: Id, t: Timer<A>)
    requires ListOk(timers, scheduled) && IsMinimum(m, timers, scheduled) && id in scheduled && timers[id].trigger != m
    ensures IsMinimum(m, timers[id := t], Without(scheduled, id))
  {
    var i :| 0 <= i < |scheduled| && timers[scheduled[i]].trigger == m;
    assert scheduled[i] in Without(scheduled, id);
  }

  lemma MinimumAfterChange<A>(m: int, timers: map<Id, Timer<A>>, scheduled: seq<Id>, id: Id, t: Timer<A>)
    requires ListOk(timers, scheduled) && IsMinimum(m, timers, scheduled) && id in scheduled
    requires timers[id].trigger != m && m <= t.trigger
    ensures IsMinimum(m, timers[id := t], scheduled)
  {
    var i :| 0 <= i < |scheduled| && timers[scheduled[i]].trigger == m;
    assert timers[id := t][scheduled[i]].trigger == m;
  }

  // ---------------------------------------------------------------------------------------------
  // The service
  // ---------------------------------------------------------------------------------------------

  class Service<A(!new)> {
    var timers: map<Id, Timer<A>>
    var scheduled: seq<Id>
    var nextTrigger: int
    var holdUpdate: bool
    var updateNeeded: bool
    var fired: seq<Firing<A>>

    /** The list is right, and the cached time is the earliest trigger or an update is recorded as
        needed, which happens only while updates are held. */
    ghost predicate Valid()
      reads this
    {
      && ListOk(timers, scheduled)
      && (updateNeeded ==> holdUpdate)
      && (updateNeeded || IsMinimum(nextTrigger, timers, scheduled))
    }

    constructor (timers: map<Id, Timer<A>>)
      requires forall id :: id in timers ==> timers[id].action.None? && timers[id].trigger <= MAX
      ensures Valid() && !holdUpdate && this.timers == timers && scheduled == [] && fired == []
    {
      this.timers := timers;
      scheduled, nextTrigger, holdUpdate, updateNeeded, fired := [], MAX, false, false, [];
    }

    method ComputeNextTrigger()
      requires ListOk(timers, scheduled)
      modifies this`nextTrigger, this`updateNeeded
      ensures updateNeeded == holdUpdate
      ensures if holdUpdate then nextTrigger == old(nextTrigger) else IsMinimum(nextTrigger, timers, scheduled)
    {
      if !holdUpdate {
        updateNeeded := false;
        nextTrigger := MAX;
        for i := 0 to |scheduled|
          invariant !updateNeeded && IsMinimum(nextTrigger, timers, scheduled[..i])
        {
          var trigger := timers[scheduled[i]].trigger;
          ghost var before := scheduled[..i];
          ghost var m := nextTrigger;
          assert scheduled[..i + 1] == before + [scheduled[i]];
          nextTrigger := if trigger < nextTrigger then trigger else nextTrigger;
          if trigger < m || i == 0 {
            assert scheduled[..i + 1][i] == scheduled[i];
          } else {
            var k :| 0 <= k < |before| && timers[before[k]].trigger == m;
            assert scheduled[..i + 1][k] == before[k];
          }
        }
        assert scheduled[..|scheduled|] == scheduled;
      } else {
        updateNeeded := true;
      }
    }

    /** Timer::SetNextTriggerTime, with RegisterTimer or UpdateTriggerTime of the service. */
    method SetNextTriggerTime(id: Id, time: int, action: A)
      requires Valid() && id in timers && time <= MAX
      modifies this`timers, this`scheduled, this`nextTrigger, this`updateNeeded
      ensures Valid() && timers == old(timers)[id := old(timers)[id].(trigger := time, action := Some(action))]
      ensures scheduled == if old(timers)[id].action.Some? then old(scheduled) else [id] + old(scheduled)
      ensures old(updateNeeded) ==> updateNeeded
    {
      var before := timers[id];
      ghost var timers0 := timers;
      ghost var m := nextTrigger;
      var after := before.(trigger := time, action := Some(action));
      timers := timers[id := after];
      if before.action.None? {
        if !updateNeeded { MinimumAfterInsert(m, timers0, scheduled, id, after); }
        scheduled := [id] + scheduled;
        if time < nextTrigger {
          nextTrigger := time;
        }
      } else if nextTrigger == before.trigger || time < nextTrigger {
        ComputeNextTrigger();
      } else if !updateNeeded {
        MinimumAfterChange(m, timers0, scheduled, id, after);
      }
    }

    /** Timer::Cancel, with UnregisterTimer of the service. */
    method Cancel(id: Id)
      requires Valid() && id in timers
      modifies this`timers, this`scheduled, this`nextTrigger, this`updateNeeded
      ensures Valid() && timers == old(timers)[id := old(timers)[id].(trigger := 0, action := None)]
      ensures scheduled == Without(old(scheduled), id)
      ensures old(updateNeeded) ==> updateNeeded
    {
      var before := timers[id];
      ghost var timers0 := timers;
      ghost var m := nextTrigger;
      var after := before.(trigger := 0, action := None);
      WithoutDistinct(scheduled, id);
      if before.action.Some? {
        if !updateNeeded && before.trigger != m { MinimumAfterRemove(m, timers0, scheduled, id, after); }
        timers := timers[id := after];
        scheduled := Without(scheduled, id);
        if before.trigger == nextTrigger {
          ComputeNextTrigger();
        }
      } else {
        WithoutAbsent(scheduled, id);
        timers := timers[id := after];
        assert IsMinimum(m, timers0, scheduled) ==> IsMinimum(m, timers, scheduled) by {
          if IsMinimum(m, timers0, scheduled) && scheduled != [] {
            var k :| 0 <= k < |scheduled| && timers0[scheduled[k]].trigger == m;
            assert timers[scheduled[k]].trigger == m;
          }
        }
      }
    }

    /** The search loop of Progressed: a due timer with the earliest trigger, the first such in the
        list, and whether more than one is due. */
    method FindEarliest(time: int) returns (earliest: Option<Id>, more: bool)
      requires ListOk(timers, scheduled)
      ensures earliest.None? ==> !more && forall id :: id in scheduled ==> !Due(timers, id, time)
      ensures earliest.Some? ==>
                exists e ::
                  && 0 <= e < |scheduled| && scheduled[e] == earliest.value
                  && FirstLeast(timers, scheduled, e, time)
      ensures earliest.Some? ==>
                (more <==> exists id :: id in scheduled && Due(timers, id, time) && id != earliest.value)
    {
      earliest, more := None, false;
      ghost var e, other := 0, 0;
      for i := 0 to |scheduled|
        invariant earliest.None? ==> !more && forall k :: 0 <= k < i ==> !Due(timers, scheduled[k], time)
        invariant earliest.Some? ==>
                  e < i && scheduled[e] == earliest.value && FirstLeast(timers, scheduled[..i], e, time)
        invariant more ==> earliest.Some? && other < i && Due(timers, scheduled[other], time) && other != e
        invariant earliest.Some? && !more ==> forall k :: 0 <= k < i && Due(timers, scheduled[k], time) ==> k == e
      {
        var current := scheduled[i];
        assert scheduled[..i + 1] == scheduled[..i] + [current];
        if timers[current].trigger <= time {
          if earliest.None? {
            earliest, e := Some(current), i;
          } else {
            more := true;
            if timers[earliest.value].trigger > timers[current].trigger {
              earliest, e, other := Some(current), i, e;
            } else {
              other := i;
            }
          }
        }
      }
      assert scheduled[..|scheduled|] == scheduled;
      if more { assert scheduled[other] in scheduled; }
    }

    /** TimerSingleShot and TimerRepeating, when their time has come. */
    method ComputeNextTriggerTime(id: Id, now: int)
      requires Valid() && id in timers && timers[id].action.Some? && now + timers[id].period <= MAX
      requires timers[id].trigger + timers[id].period <= MAX
      modifies this`timers, this`scheduled, this`nextTrigger, this`updateNeeded
      ensures Valid() && timers == old(timers)[id := Rearmed(old(timers)[id], now)]
      ensures Renewed(old(timers)[id], timers[id], now)
      ensures old(updateNeeded) ==> updateNeeded
    {
      RearmedIsRenewed(timers[id], now);
      if timers[id].period == 0 {
        Cancel(id);
      } else {
        RepetitionKeepsPhase(now, timers[id].trigger, timers[id].period);
        SetNextTriggerTime(id, NextRepetition(now, timers[id].trigger, timers[id].period), timers[id].action.value);
      }
    }

    /** The body of an action: any arming and cancelling of timers, also of those that are due. */
    method Execute(commands: seq<Command<A>>)
      requires Valid() && forall c :: c in commands ==> c.id in timers && (c.Arm? ==> c.time <= MAX)
      modifies this`timers, this`scheduled, this`nextTrigger, this`updateNeeded
      ensures Valid() && SameFrame(old(timers), timers) && timers == AfterCommands(old(timers), commands)
    {
      hide Valid;
      for i := 0 to |commands|
        invariant Valid() && SameFrame(old(timers), timers) && timers == AfterCommands(old(timers), commands[..i])
      {
        var c := commands[i];
        assert c in commands;
        assert commands[..i + 1][..i] == commands[..i];
        match c {
          case Arm(id, time, action) => SetNextTriggerTime(id, time, action);
          case Disarm(id) => Cancel(id);
        }
      }
      assert commands[..|commands|] == commands;
    }

    /** The end of Progressed and of Jumped. */
    method Hold()
      requires Valid()
      modifies this`holdUpdate
      ensures Valid() && holdUpdate
    {
      hide IsMinimum, ListOk;
      holdUpdate := true;
    }

    method Release()
      requires Valid()
      modifies this`holdUpdate, this`nextTrigger, this`updateNeeded
      ensures Valid() && !holdUpdate && IsMinimum(nextTrigger, timers, scheduled)
    {
      hide IsMinimum;
      holdUpdate := false;
      if updateNeeded {
        ComputeNextTrigger();
      }
    }

    /** One turn of the outer loop of Progressed. `effect` is what the action does, given everything
        that has run so far. */
    method Turn(time: int, now: int, effect: seq<Firing<A>> -> seq<Command<A>>) returns (more: bool)
      requires Valid() && holdUpdate && EffectOk(timers, effect) && PeriodsFit(timers, time, now)
      modifies this
      ensures Valid() && holdUpdate && SameFrame(old(timers), timers) && EffectOk(timers, effect)
      ensures PeriodsFit(timers, time, now)
      ensures if DueIds(old(timers), time) == {} then !more && timers == old(timers) && fired == old(fired)
        else
          && |fired| == |old(fired)| + 1 && fired[..|old(fired)|] == old(fired)
          && TurnIs(old(timers), fired[|old(fired)|], effect(fired), timers, time, now)
          && (more <==> DueIds(old(timers), time) != {fired[|old(fired)|].id})
    {
      hide IsMinimum, Rearmed, AfterCommands, EffectOk, SameFrame, DueIds, LeastDue, FirstLeast, Due;
      var earliest;
      earliest, more := FindEarliest(time);
      if earliest.None? {
        NoneDue(timers, scheduled, time);
        FrameKeeps(timers, timers, effect, time, now);
      } else {
        ghost var e :| 0 <= e < |scheduled| && scheduled[e] == earliest.value && FirstLeast(timers, scheduled, e, time);
        FoundIsLeast(timers, scheduled, time, e, more);
        RunAction(earliest.value, time, now, effect);
        FrameKeeps(old(timers), timers, effect, time, now);
      }
    }

    /** The end of a turn: the timer that was found is rearmed or disarmed, and then its action runs. */
    method RunAction(id: Id, time: int, now: int, effect: seq<Firing<A>> -> seq<Command<A>>)
      requires Valid() && holdUpdate && EffectOk(timers, effect) && PeriodsFit(timers, time, now)
      requires id in timers && timers[id].action.Some? && timers[id].trigger <= time
      modifies this
      ensures Valid() && holdUpdate && SameFrame(old(timers), timers)
      ensures fired == old(fired) + [Firing(id, old(timers)[id].trigger, old(timers)[id].action.value)]
      ensures forall c :: c in effect(fired) ==> c.id in old(timers)
      ensures timers == AfterCommands(old(timers)[id := Rearmed(old(timers)[id], now)], effect(fired))
    {
      hide ListOk, IsMinimum, AfterCommands, Rearmed, SameFrame;
      RearmedFrame(timers, id, now);
      fired := fired + [Firing(id, timers[id].trigger, timers[id].action.value)];
      ComputeNextTriggerTime(id, now);
      ghost var rearmed := timers;
      Execute(effect(fired));
      SameFrameTrans(old(timers), rearmed, timers);
    }

    /** Progressed, whatever the actions do to timers. They may keep the loop going for ever, so it is
        followed for at most `limit` turns. Each timer that runs is a least due one at its turn. At the
        end the cached time is right, and exactly those timers are due which the last turn armed at or
        before `time`. */
    method Progressed(time: int, now: int, effect: seq<Firing<A>> -> seq<Command<A>>, limit: nat)
        returns (finished: bool, ghost ran: seq<Firing<A>>, ghost states: seq<map<Id, Timer<A>>>)
      requires Valid() && !holdUpdate && EffectOk(timers, effect) && PeriodsFit(timers, time, now)
      modifies this
      ensures Valid() && SameFrame(old(timers), timers)
      ensures holdUpdate == !finished
      ensures finished ==> IsMinimum(nextTrigger, timers, scheduled)
      ensures fired == old(fired) + ran && Turns(states, ran, old(fired), effect, time, now)
      ensures states[0] == old(timers) && states[|ran|] == timers
      ensures finished ==> DueIds(timers, time) == LeftDue(states, ran, effect(fired), time, now)
      ensures if finished then |ran| <= limit
        else |ran| == limit && (ran != [] ==> DueIds(states[|ran| - 1], time) != {ran[|ran| - 1].id})
    {
      hide Valid, IsMinimum, EffectOk, PeriodsFit, DueIds, TurnIs, ArmedDue;
      Hold();
      ran, states := [], [timers];
      var more, turns := true, 0;
      while more && turns < limit
        invariant Valid() && holdUpdate && SameFrame(old(timers), timers) && EffectOk(timers, effect)
        invariant PeriodsFit(timers, time, now)
        invariant fired == old(fired) + ran && Turns(states, ran, old(fired), effect, time, now)
        invariant states[0] == old(timers) && states[|ran|] == timers
        invariant |ran| <= turns <= limit && (more ==> |ran| == turns)
        invariant !more ==> DueIds(timers, time) == LeftDue(states, ran, effect(fired), time, now)
        invariant more && ran != [] ==> DueIds(states[|ran| - 1], time) != {ran[|ran| - 1].id}
        decreases limit - turns
      {
        ghost var before, log := timers, fired;
        more := Turn(time, now, effect);
        SameFrameTrans(old(timers), before, timers);
        turns := turns + 1;
        if DueIds(before, time) == {} {
          LastTurnArmed(states, ran, old(fired), effect, time, now);
        } else {
          var firing := fired[|log|];
          assert fired == old(fired) + (ran + [firing]);
          TurnsExtend(states, ran, old(fired), effect, time, now, firing, timers);
          DueAfterTurn(before, firing, effect(fired), timers, time, now);
          ran, states := ran + [firing], states + [timers];
        }
      }
      finished := !more;
      if finished {
        Release();
      }
    }

    /** Progressed when the actions leave timers alone, at or after the time they are due: exactly the
        due timers run, once each, in the order of their trigger times; single shots are then disarmed,
        repeating timers armed for the first time after now in their phase, and the rest is as before. */
    method ProgressedAlone(time: int, now: int) returns (ghost ran: seq<Firing<A>>)
      requires Valid() && !holdUpdate && PeriodsFit(timers, time, now) && time <= now
      modifies this
      ensures Valid() && !holdUpdate && IsMinimum(nextTrigger, timers, scheduled)
      ensures fired == old(fired) + ran && RanAll(ran, old(timers), timers, time, now)
      ensures forall id :: id in scheduled ==> !Due(timers, id, time)
      ensures timers.Keys == old(timers).Keys && forall id :: id in timers ==>
                if id in DueIds(old(timers), time) then Renewed(old(timers)[id], timers[id], now)
                else timers[id] == old(timers)[id]
    {
      hide Partly, Valid, Ids, DueIds, RanAll, Due, ListOk, IsMinimum, PeriodsFit;
      ran := [];
      ghost var start := timers;
      Hold();
      var more := true;
      PartlyStart(start, time, now);
      while more
        invariant Valid() && holdUpdate && Partly(ran, start, timers, time, now) && fired == old(fired) + ran
        invariant !more ==> Ids(ran) == DueIds(start, time)
        decreases more, DueIds(start, time) - Ids(ran)
      {
        more, ran := TurnAlone(time, now, ran, start);
      }
      Release();
      ValidList();
      AllRan(ran, start, timers, scheduled, time, now);
      RanAllRenews(ran, start, timers, time, now);
    }

    lemma ValidList()
      requires Valid()
      ensures ListOk(timers, scheduled)
    {
    }

    method TurnAlone(time: int, now: int, ghost ran: seq<Firing<A>>, ghost start: map<Id, Timer<A>>)
        returns (more: bool, ghost ran': seq<Firing<A>>)
      requires Valid() && holdUpdate && Partly(ran, start, timers, time, now)
      modifies this
      ensures Valid() && holdUpdate && Partly(ran', start, timers, time, now)
      ensures ran <= ran' && fired == old(fired) + ran'[|ran|..]
      ensures !more ==> Ids(ran') == DueIds(start, time)
      ensures more ==> DueIds(start, time) - Ids(ran') < DueIds(start, time) - Ids(ran)
    {
      hide IsMinimum, Rearmed, Ids, DueIds, Ordered;
      ran' := ran;
      var earliest;
      earliest, more := FindEarliest(time);
      if earliest.Some? {
        var id := earliest.value;
        var firing := Firing(id, timers[id].trigger, timers[id].action.value);
        EarliestIsNew(ran, start, timers, scheduled, time, now, firing, more);
        fired := fired + [firing];
        ComputeNextTriggerTime(id, now);
        ran' := ran + [firing];
        ShrinkBy(DueIds(start, time), Ids(ran), id);
      } else {
        NothingDue(ran, start, timers, scheduled, time, now);
      }
    }

    /** Jumped: every armed timer moves by the jump, and the cached time is right again. */
    method Jumped(from: int, to: int)
      requires Valid() && !holdUpdate && JumpFits(timers, to - from)
      modifies this
      ensures Valid() && !holdUpdate && IsMinimum(nextTrigger, timers, scheduled) && scheduled == old(scheduled)
      ensures fired == old(fired)
      ensures Shifted(old(timers), timers, to - from, old(scheduled))
    {
      hide Valid, Shifted, JumpFits, ListOk, IsMinimum;
      Hold();
      ghost var start := timers;
      ShiftedStart(start, to - from, scheduled[..0]);
      for i := 0 to |scheduled|
        invariant Valid() && holdUpdate && scheduled == old(scheduled) && fired == old(fired)
        invariant Shifted(start, timers, to - from, scheduled[..i])
      {
        var id := scheduled[i];
        ValidList();
        ShiftedNext(start, timers, to - from, scheduled, i);
        SetNextTriggerTime(id, timers[id].trigger + (to - from), timers[id].action.value);
      }
      assert scheduled[..|scheduled|] == scheduled;
      Release();
    }
  }

  lemma PartlyStart<A>(start: map<Id, Timer<A>>, time: int, now: int)
    requires PeriodsFit(start, time, now) && time <= now
    ensures Partly([], start, start, time, now)
  {
  }

  lemma ShiftedStart<A>(start: map<Id, Timer<A>>, delta: int, none: seq<Id>)
    requires none == []
    ensures Shifted(start, start, delta, none)
  {
  }

  predicate JumpFits<A>(timers: map<Id, Timer<A>>, delta: int) {
    forall id :: id in timers && timers[id].action.Some? ==> timers[id].trigger + delta <= MAX
  }

  lemma ShiftedNext<A>(start: map<Id, Timer<A>>, timers: map<Id, Timer<A>>, delta: int, scheduled: seq<Id>, i: nat)
    requires i < |scheduled| && ListOk(timers, scheduled) && Shifted(start, timers, delta, scheduled[..i])
    requires JumpFits(start, delta)
    ensures var id := scheduled[i];
      && id in timers
      && timers[id].trigger + delta <= MAX
      && timers[id].action.Some?
      && id in start
      && timers[id] == start[id]
      && var moved := timers[id].(trigger := timers[id].trigger + delta, action := Some(timers[id].action.value));
      Shifted(start, timers[id := moved], delta, scheduled[..i + 1])
  {
    var id := scheduled[i];
    assert id in scheduled;
    assert id !in scheduled[..i];
    assert scheduled[..i + 1] == scheduled[..i] + [id];
  }

  /** The timers in `moved` are `delta` later, the others unchanged. */
  ghost predicate Shifted<A>(start: map<Id, Timer<A>>, timers: map<Id, Timer<A>>, delta: int, moved: seq<Id>) {
    && timers.Keys == start.Keys
    && forall id :: id in start ==>
         timers[id] == if id in moved then start[id].(trigger := start[id].trigger + delta) else start[id]
  }

  lemma ShrinkBy(all: set<Id>, some: set<Id>, id: Id)
    requires id in all - some
    ensures all - (some + {id}) < all - some
  {
    assert id !in all - (some + {id});
  }

  ghost function Ids<A>(ran: seq<Firing<A>>): set<Id> { set i | 0 <= i < |ran| :: ran[i].id }

  ghost function DueIds<A>(timers: map<Id, Timer<A>>, time: int): set<Id> {
    set id | id in timers && timers[id].action.Some? && timers[id].trigger <= time
  }

  /** Each due timer at most once, with its own time and action, in the order of the times. */
  ghost predicate Ordered<A>(ran: seq<Firing<A>>, timers: map<Id, Timer<A>>, time: int) {
    && (forall i :: 0 <= i < |ran| ==>
          && ran[i].id in DueIds(timers, time) && ran[i].trigger == timers[ran[i].id].trigger
          && Some(ran[i].action) == timers[ran[i].id].action)
    && (forall i, j :: 0 <= i < j < |ran| ==> ran[i].id != ran[j].id && ran[i].trigger <= ran[j].trigger)
  }

  /** Between two turns: the timers that ran are rearmed, the others untouched and not earlier. */
  ghost predicate Partly<A>(ran: seq<Firing<A>>, start: map<Id, Timer<A>>, timers: map<Id, Timer<A>>, time: int,
      now: int) {
    && time <= now && PeriodsFit(start, time, now) && PeriodsFit(timers, time, now)
    && Ordered(ran, start, time) && timers.Keys == start.Keys
    && (forall id :: id in start ==> timers[id] == if id in Ids(ran) then Rearmed(start[id], now) else start[id])
    && (forall i, id :: 0 <= i < |ran| && id in DueIds(start, time) && id !in Ids(ran) ==>
          ran[i].trigger <= start[id].trigger)
  }

  /** A whole Progressed: exactly the due timers ran, in order, and all are as they should be. */
  ghost predicate RanAll<A>(ran: seq<Firing<A>>, start: map<Id, Timer<A>>, timers: map<Id, Timer<A>>, time: int,
      now: int) {
    && Ordered(ran, start, time) && Ids(ran) == DueIds(start, time) && timers.Keys == start.Keys
    && forall id :: id in timers ==>
         timers[id] == if id in DueIds(start, time) then Rearmed(start[id], now) else start[id]
  }

  /** After a whole Progressed each timer that was due is renewed and the others are as they were. */
  lemma RanAllRenews<A>(ran: seq<Firing<A>>, start: map<Id, Timer<A>>, timers: map<Id, Timer<A>>, time: int, now: int)
    requires RanAll(ran, start, timers, time, now)
    ensures timers.Keys == start.Keys && forall id :: id in timers ==>
              if id in DueIds(start, time) then Renewed(start[id], timers[id], now) else timers[id] == start[id]
  {
    hide Rearmed, Renewed, Ordered, DueIds;
    forall id | id in timers && id in DueIds(start, time) ensures Renewed(start[id], timers[id], now) {
      RearmedIsRenewed(start[id], now);
    }
  }

  /** A turn renews the timer that ran, unless its action commands that timer, and leaves all timers alone
      that its action does not command. */
  lemma TurnRenews<A>(before: map<Id, Timer<A>>, firing: Firing<A>, commands: seq<Command<A>>,
      after: map<Id, Timer<A>>, time: int, now: int)
    requires TurnIs(before, firing, commands, after, time, now)
    ensures after.Keys == before.Keys && forall id :: id in after && LastFor(commands, id).None? ==>
              if id == firing.id then Renewed(before[id], after[id], now) else after[id] == before[id]
  {
    hide Rearmed, Renewed, AfterCommands;
    RearmedIsRenewed(before[firing.id], now);
    var rearmed := before[firing.id := Rearmed(before[firing.id], now)];
    forall id | id in after && LastFor(commands, id).None?
      ensures if id == firing.id then Renewed(before[id], after[id], now) else after[id] == before[id]
    {
      LastCommandDecides(rearmed, commands, id);
    }
  }

  /** A timer of period 10 that was due at 10 and runs at 13 is armed for 20. */
  lemma RenewedAtTwenty(t: Timer<nat>, t': Timer<nat>)
    requires t == Timer(10, 10, Some(0)) && Renewed(t, t', 13)
    ensures t'.trigger == 20
  {
  }

  lemma AllRan<A>(ran: seq<Firing<A>>, start: map<Id, Timer<A>>, timers: map<Id, Timer<A>>, scheduled: seq<Id>,
      time: int, now: int)
    requires Partly(ran, start, timers, time, now) && ListOk(timers, scheduled) && Ids(ran) == DueIds(start, time)
    ensures RanAll(ran, start, timers, time, now)
    ensures forall id :: id in scheduled ==> !Due(timers, id, time)
  {
    forall id | id in scheduled ensures !Due(timers, id, time) {
      DueIsNew(ran, start, timers, scheduled, time, now, id);
    }
  }

  lemma RearmedNotDue<A>(t: Timer<A>, time: int, now: int)
    requires time <= now
    ensures Rearmed(t, now).action.None? || Rearmed(t, now).trigger > time
  {
    if t.period > 0 { RepetitionKeepsPhase(now, t.trigger, t.period); }
  }

  /** A timer of the list that is due has not run in this Progressed. */
  lemma DueIsNew<A>(ran: seq<Firing<A>>, start: map<Id, Timer<A>>, timers: map<Id, Timer<A>>, scheduled: seq<Id>,
      time: int, now: int, id: Id)
    requires Partly(ran, start, timers, time, now) && ListOk(timers, scheduled)
    ensures id in scheduled && Due(timers, id, time) <==> id in DueIds(start, time) && id !in Ids(ran)
  {
    if id in start { RearmedNotDue(start[id], time, now); }
  }

  lemma NothingDue<A>(ran: seq<Firing<A>>, start: map<Id, Timer<A>>, timers: map<Id, Timer<A>>, scheduled: seq<Id>,
      time: int, now: int)
    requires Partly(ran, start, timers, time, now) && ListOk(timers, scheduled)
    requires forall id :: id in scheduled ==> !Due(timers, id, time)
    ensures Ids(ran) == DueIds(start, time)
  {
    forall id ensures id in Ids(ran) <==> id in DueIds(start, time) {
      DueIsNew(ran, start, timers, scheduled, time, now, id);
    }
  }

  /** Running the earliest due timer keeps the order. */
  lemma EarliestIsNew<A>(ran: seq<Firing<A>>, start: map<Id, Timer<A>>, timers: map<Id, Timer<A>>, scheduled: seq<Id>,
      time: int, now: int, firing: Firing<A>, more: bool)
    requires Partly(ran, start, timers, time, now) && ListOk(timers, scheduled)
    requires firing.id in scheduled && Due(timers, firing.id, time)
    requires firing.trigger == timers[firing.id].trigger && Some(firing.action) == timers[firing.id].action
    requires forall id :: id in scheduled && Due(timers, id, time) ==> firing.trigger <= timers[id].trigger
    requires !more ==> forall id :: id in scheduled && Due(timers, id, time) ==> id == firing.id
    ensures Ids(ran + [firing]) == Ids(ran) + {firing.id} && firing.id in DueIds(start, time) - Ids(ran)
    ensures Partly(ran + [firing], start, timers[firing.id := Rearmed(timers[firing.id], now)], time, now)
    ensures !more ==> Ids(ran + [firing]) == DueIds(start, time)
  {
    var ran' := ran + [firing];
    DueIsNew(ran, start, timers, scheduled, time, now, firing.id);
    IdsAppend(ran, firing);
    forall id | id in DueIds(start, time) && id !in Ids(ran)
      ensures id in scheduled && Due(timers, id, time) && timers[id] == start[id]
    {
      DueIsNew(ran, start, timers, scheduled, time, now, id);
    }
    hide Ids, DueIds, Rearmed, ListOk;
    assert forall i :: 0 <= i < |ran| ==> ran[i].id in Ids(ran) by { IdsContain(ran); }
  }

  lemma IdsContain<A>(ran: seq<Firing<A>>)
    ensures forall i :: 0 <= i < |ran| ==> ran[i].id in Ids(ran)
  {
  }

  lemma IdsAppend<A>(ran: seq<Firing<A>>, firing: Firing<A>)
    ensures Ids(ran + [firing]) == Ids(ran) + {firing.id}
  {
    var ran' := ran + [firing];
    forall id ensures id in Ids(ran') <==> id in Ids(ran) || id == firing.id {
      if id in Ids(ran) {
        var i :| 0 <= i < |ran| && ran[i].id == id;
        assert ran'[i].id == id;
      }
      assert ran'[|ran|].id == firing.id;
    }
  }

  predicate Due<A>(timers: map<Id, Timer<A>>, id: Id, time: int) { id in timers && timers[id].trigger <= time }

  function Rearmed<A>(t: Timer<A>, now: int): Timer<A> {
    if t.period == 0 then t.(trigger := 0, action := None) else t.(trigger := NextRepetition(now, t.trigger, t.period))
  }

  /** The same timers, of the same kinds. */
  predicate SameFrame<A>(a: map<Id, Timer<A>>, b: map<Id, Timer<A>>) {
    a.Keys == b.Keys && forall id :: id in a ==> id in b && a[id].period == b[id].period
  }

  /** Actions use timers of this service, and times that exist. */
  ghost predicate EffectOk<A(!new)>(timers: map<Id, Timer<A>>, effect: seq<Firing<A>> -> seq<Command<A>>) {
    forall log, c :: c in effect(log) ==> c.id in timers && (c.Arm? ==> c.time <= MAX)
  }

  /** No repetition overflows the time type. */
  predicate PeriodsFit<A>(timers: map<Id, Timer<A>>, time: int, now: int) {
    forall id :: id in timers ==> now + timers[id].period <= MAX && time + timers[id].period <= MAX
  }

  /** Progressed may end with a timer due: the only due one, when it runs, arms another in the past. */
  method EndsWithTimerDue() returns (service: Service<nat>, finished: bool)
    ensures service.Valid() && finished && !service.holdUpdate
    ensures DueIds(service.timers, 5) == {1} && service.nextTrigger == 3
  {
    hide DueIds, ArmedDue, TurnIs, ListOk, Rearmed;
    var idle := Timer(0, 0, None);
    service := new Service(map[0 := idle, 1 := idle]);
    service.SetNextTriggerTime(0, 5, 0);
    ghost var start := service.timers;
    var effect := (log: seq<Firing<nat>>) => [Arm(1, 3, 0)];
    ghost var ran, states;
    finished, ran, states := service.Progressed(5, 5, effect, 1);
    OneIsDue(start);
    if ran != [] {
      ArmsInThePast(start, ran[0], service.timers, service.nextTrigger, service.scheduled);
    }
  }

  lemma OneIsDue(start: map<Id, Timer<nat>>)
    requires start == map[0 := Timer(5, 0, Some(0)), 1 := Timer(0, 0, None)]
    ensures DueIds(start, 5) == {0}
  {
  }

  lemma ArmsInThePast(start: map<Id, Timer<nat>>, firing: Firing<nat>, after: map<Id, Timer<nat>>, next: int,
      scheduled: seq<Id>)
    requires start == map[0 := Timer(5, 0, Some(0)), 1 := Timer(0, 0, None)]
    requires TurnIs(start, firing, [Arm(1, 3, 0)], after, 5, 5)
    ensures firing.id == 0
    ensures ArmedDue(start, firing.id, [Arm(1, 3, 0)], 5, 5) == {1}
    ensures ListOk(after, scheduled) && IsMinimum(next, after, scheduled) ==> next == 3
  {
    var commands: seq<Command<nat>> := [Arm(1, 3, 0)];
    OneIsDue(start);
    assert commands[..0] == [];
    assert LastFor(commands, 0) == None && LastFor(commands, 1) == Some(commands[0]);
    var rearmed := start[firing.id := Rearmed(start[firing.id], 5)];
    assert AfterCommands(rearmed, commands[..0]) == rearmed;
    assert after[0] == Timer(0, 0, None) && after[1] == Timer(3, 0, Some(0));
    if ListOk(after, scheduled) {
      assert 1 in scheduled && forall x :: x in scheduled ==> x == 1;
    }
  }
}
