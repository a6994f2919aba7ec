/** infra/timer/TickOnInterruptTimerService.cpp: a tick interrupt counts, and the event it schedules
    turns counted ticks into time. Steps are the single loads and stores of both sides. */
module TickTimer {
  import opened Common

  const CAP := 0x7FFF_FFFF

  datatype Interrupt =
    | NoTick
    | Counted    // ticksProgressed is incremented
    | Reached    // it was found to have reached ticksNextNotification
    | Claimed    // notificationScheduled was clear and is now set, the event is not scheduled yet

  datatype Main =
    | Outside                        // not in ProcessTicks
    | Taken(ticks: nat)              // ticksProgressed is exchanged for zero
    | Progressing                    // systemTime is advanced, timers are running
    | Recalculated                   // ticksNextNotification fits the new time
    | Decided(reschedule: bool)      // the comparison is made, its result not yet stored
    | Rescheduling                   // the flag is stored as set, the event not yet scheduled

  /** `total` counts all ticks ever, `processed` those that are part of systemTime; `wrapped` records
      that the 32-bit tick counter overflowed. No next trigger is None. */
  datatype Service = Service(
    resolution: int, start: int, systemTime: int, nextTrigger: Option<int>,
    ticksProgressed: nat, ticksNextNotification: nat, notificationScheduled: bool, events: nat,
    interrupt: Interrupt, main: Main, total: nat, processed: nat, wrapped: bool)

  datatype Action =
    | Tick | CompareTicks | ExchangeFlag | ScheduleFromInterrupt
    | StartProcessing | AdvanceTime | ChangeTrigger(trigger: Option<int>) | Recalculate
    | Decide | StoreFlag | Reschedule

  /** CalculateNextTrigger: the ticks until the next trigger, rounded up, cut to 32 bits, capped. */
  function Threshold(nextTrigger: Option<int>, systemTime: int, resolution: int): nat
    requires resolution > 0
  {
    match nextTrigger
    case None => CAP
    case Some(trigger) =>
      var duration := if trigger > systemTime then trigger - systemTime else 0;
      var ticks := ((duration + resolution - 1) / resolution) % UINT32;
      if ticks < CAP then ticks else CAP
  }

  function Initial(resolution: int, start: int): Service
    requires resolution > 0
  {
    Service(resolution, start, start, None, 0, CAP, false, 0, NoTick, Outside, 0, 0, false)
  }

  function Calculated(s: Service): Service
    requires s.resolution > 0
  {
    s.(ticksNextNotification := Threshold(s.nextTrigger, s.systemTime, s.resolution))
  }

  /** One step; an action that is not enabled leaves the service alone. */
  function Step(s: Service, a: Action): Service
    requires s.resolution > 0
  {
    match a
    case Tick =>
      if s.interrupt.NoTick? then
        s.(ticksProgressed := (s.ticksProgressed + 1) % UINT32, total := s.total + 1,
           wrapped := s.wrapped || s.ticksProgressed + 1 >= UINT32, interrupt := Counted)
      else s
    case CompareTicks =>
      if s.interrupt.Counted? then
        s.(interrupt := if s.ticksProgressed >= s.ticksNextNotification then Reached else NoTick)
      else s
    case ExchangeFlag =>
      if s.interrupt.Reached? then
        s.(interrupt := if s.notificationScheduled then NoTick else Claimed, notificationScheduled := true)
      else s
    case ScheduleFromInterrupt =>
      if s.interrupt.Claimed? then s.(events := s.events + 1, interrupt := NoTick) else s
    case StartProcessing =>
      if s.main.Outside? && s.events > 0 then
        s.(events := s.events - 1, main := Taken(s.ticksProgressed), ticksProgressed := 0)
      else s
    case AdvanceTime =>
      if s.main.Taken? then
        s.(systemTime := s.systemTime + s.main.ticks * s.resolution, processed := s.processed + s.main.ticks,
           main := Progressing)
      else s
    case ChangeTrigger(trigger) =>
      if s.main.Outside? || s.main.Progressing? then Calculated(s.(nextTrigger := trigger)) else s
    case Recalculate =>
      if s.main.Progressing? then Calculated(s.(main := Recalculated)) else s
    case Decide =>
      if s.main.Recalculated? then s.(main := Decided(s.ticksProgressed >= s.ticksNextNotification)) else s
    case StoreFlag =>
      if s.main.Decided? then
        s.(notificationScheduled := s.main.reschedule, main := if s.main.reschedule then Rescheduling else Outside)
      else s
    case Reschedule =>
      if s.main.Rescheduling? then s.(events := s.events + 1, main := Outside) else s
  }

  function Run(s: Service, actions: seq<Action>): Service
    requires s.resolution > 0
    decreases |actions|
  {
    if actions == [] then s else Run(Step(s, actions[0]), actions[1..])
  }

  /** What Now() returns. */
  function Now(s: Service): int { s.systemTime + s.ticksProgressed * s.resolution }

  // ---------------------------------------------------------------------------------------------
  // Invariant
  // ---------------------------------------------------------------------------------------------

  /** Every tick is in systemTime, on its way there, or still counted. */
  predicate TicksOk(s: Service) {
    && s.systemTime == s.start + s.processed * s.resolution
    && s.ticksProgressed < UINT32
    && (!s.wrapped ==> s.total == s.processed + (if s.main.Taken? then s.main.ticks else 0) + s.ticksProgressed)
  }

  function Claims(s: Service): nat {
    s.events
    + (if s.interrupt.Claimed? then 1 else 0)
    + (if s.main.Taken? || s.main.Progressing? || s.main.Recalculated? || s.main.Decided? then 1 else 0)
    + (if s.main.Rescheduling? then 1 else 0)
  }

  /** The flag stands for one event: pending, about to be scheduled, or being processed. */
  predicate FlagOk(s: Service) { Claims(s) == if s.notificationScheduled then 1 else 0 }

  predicate ThresholdOk(s: Service)
    requires s.resolution > 0
  {
    !s.main.Taken? && !s.main.Progressing? ==>
         s.ticksNextNotification == Threshold(s.nextTrigger, s.systemTime, s.resolution)
  }

  predicate Inv(s: Service) {
    s.resolution > 0 && TicksOk(s) && FlagOk(s) && ThresholdOk(s)
  }

  lemma AdvanceDistributes(processed: nat, ticks: nat, resolution: int)
    ensures processed * resolution + ticks * resolution == (processed + ticks) * resolution
  {
  }

  lemma StepKeepsInv(s: Service, a: Action)
    requires Inv(s)
    ensures Inv(Step(s, a)) && Step(s, a).resolution == s.resolution && Step(s, a).start == s.start
  {
    hide Threshold;
    if s.main.Taken? { AdvanceDistributes(s.processed, s.main.ticks, s.resolution); }
  }

  lemma {:induction false} RunKeepsInv(s: Service, actions: seq<Action>)
    requires Inv(s)
    ensures Inv(Run(s, actions)) && Run(s, actions).resolution == s.resolution && Run(s, actions).start == s.start
    decreases |actions|
  {
    if actions != [] {
      StepKeepsInv(s, actions[0]);
      hide Step, Inv;
      RunKeepsInv(Step(s, actions[0]), actions[1..]);
    }
  }

  /** In every interleaving: at most one event is pending; while the 32-bit counter has not overflowed,
      time outside ProcessTicks is the start time plus all ticks, none lost and none counted twice. */
  lemma TimeIsTicks(resolution: int, start: int, actions: seq<Action>)
    requires resolution > 0
    ensures var s := Run(Initial(resolution, start), actions);
      && s.events <= 1
      && (!s.wrapped && !s.main.Taken? ==> Now(s) == start + s.total * resolution)
  {
    RunKeepsInv(Initial(resolution, start), actions);
    var s := Run(Initial(resolution, start), actions);
    AdvanceDistributes(s.processed, s.ticksProgressed, resolution);
  }

  /** The ticks of a run: every interrupt that comes when no other is being handled. */
  function TicksIn(s: Service, actions: seq<Action>): nat
    requires s.resolution > 0
    decreases |actions|
  {
    if actions == [] then 0
    else (if actions[0].Tick? && s.interrupt.NoTick? then 1 else 0) + TicksIn(Step(s, actions[0]), actions[1..])
  }

  /** Every tick is counted, whatever the processing is doing at that time. */
  lemma {:induction false} EveryTickCounts(s: Service, actions: seq<Action>)
    requires s.resolution > 0
    ensures Run(s, actions).total == s.total + TicksIn(s, actions)
    decreases |actions|
  {
    if actions != [] { EveryTickCounts(Step(s, actions[0]), actions[1..]); }
  }

  /** The counter overflows only with a tick at its largest value. */
  lemma WrapIsReal(s: Service, a: Action)
    requires s.resolution > 0 && TicksOk(s) && !s.wrapped && Step(s, a).wrapped
    ensures a.Tick? && s.ticksProgressed == UINT32 - 1
  {
  }

  /** Outside of ProcessTicks, and while timers run in it, a new trigger time is taken over at once. */
  lemma TriggerIsTaken(s: Service, trigger: Option<int>)
    requires Inv(s) && (s.main.Outside? || s.main.Progressing?)
    ensures var s' := Step(s, ChangeTrigger(trigger));
      s' == s.(nextTrigger := trigger, ticksNextNotification := Threshold(trigger, s.systemTime, s.resolution))
  {
  }

  /** The interrupt handler run to its end. */
  function WholeInterrupt(s: Service): Service
    requires s.resolution > 0
  {
    Step(Step(Step(Step(s, Tick), CompareTicks), ExchangeFlag), ScheduleFromInterrupt)
  }

  /** A tick at any moment is counted and handled to its end. Outside ProcessTicks, finding the threshold
      reached leaves exactly one event pending, also when an earlier tick was missed between the
      comparison and the store of the flag; in ProcessTicks it leaves that to its final comparison. */
  lemma TickSchedules(s: Service)
    requires Inv(s) && s.interrupt.NoTick?
    ensures var s' := WholeInterrupt(s);
      && Inv(s') && s'.interrupt.NoTick? && s'.main == s.main
      && s'.total == s.total + 1 && s'.ticksProgressed == (s.ticksProgressed + 1) % UINT32
      && s'.systemTime == s.systemTime && s'.nextTrigger == s.nextTrigger
      && s'.events == if s.main.Outside? && s'.ticksProgressed >= s'.ticksNextNotification then 1 else s.events
  {
    hide Threshold;
    StepKeepsInv(s, Tick);
    StepKeepsInv(Step(s, Tick), CompareTicks);
    StepKeepsInv(Step(Step(s, Tick), CompareTicks), ExchangeFlag);
    StepKeepsInv(Step(Step(Step(s, Tick), CompareTicks), ExchangeFlag), ScheduleFromInterrupt);
  }

  /** ProcessTicks run without interruption always ends with the event pending exactly when the
      threshold is reached. */
  function WholeProcessing(s: Service): Service
    requires s.resolution > 0
  {
    Step(Step(Step(Step(Step(Step(s, StartProcessing), AdvanceTime), Recalculate), Decide), StoreFlag), Reschedule)
  }

  lemma ProcessingDecides(s: Service)
    requires Inv(s) && s.main.Outside? && s.interrupt.NoTick? && s.events == 1
    ensures var s' := WholeProcessing(s);
      && Inv(s') && s'.main.Outside? && s'.ticksProgressed == 0 && s'.processed == s.processed + s.ticksProgressed
      && (s'.events == 1 <==> s'.ticksNextNotification == 0)
  {
    hide Threshold;
    var s1 := Step(s, StartProcessing);
    var s2 := Step(s1, AdvanceTime);
    var s3 := Step(s2, Recalculate);
    var s4 := Step(s3, Decide);
    var s5 := Step(s4, StoreFlag);
    StepKeepsInv(s, StartProcessing);
    StepKeepsInv(s1, AdvanceTime);
    StepKeepsInv(s2, Recalculate);
    StepKeepsInv(s3, Decide);
    StepKeepsInv(s4, StoreFlag);
    StepKeepsInv(s5, Reschedule);
  }

  // ---------------------------------------------------------------------------------------------
  // The threshold
  // ---------------------------------------------------------------------------------------------

  /** A timer is never announced late: one tick before the threshold its time has not come yet. */
  lemma ThresholdIsNeverLate(trigger: int, systemTime: int, resolution: int, ticks: nat)
    requires resolution > 0 && ticks < Threshold(Some(trigger), systemTime, resolution)
    ensures systemTime + ticks * resolution < trigger
  {
    var duration := if trigger > systemTime then trigger - systemTime else 0;
    var quotient := (duration + resolution - 1) / resolution;
    ModuloIsSmaller(quotient);
    assert ticks + 1 <= quotient;
    MultiplyMonotone(ticks + 1, quotient, resolution);
    DivideBounds(duration + resolution - 1, resolution);
    AdvanceDistributes(ticks, 1, resolution);
  }

  /** When the duration fits the counter, the threshold is exact: at that tick the time has come. */
  lemma ThresholdIsExact(trigger: int, systemTime: int, resolution: int)
    requires resolution > 0 && trigger - systemTime <= CAP * resolution
    ensures systemTime + Threshold(Some(trigger), systemTime, resolution) * resolution >= trigger
  {
    var duration := if trigger > systemTime then trigger - systemTime else 0;
    var quotient := (duration + resolution - 1) / resolution;
    DivideBounds(duration + resolution - 1, resolution);
    AdvanceDistributes(CAP, 1, resolution);
    if quotient > CAP {
      MultiplyMonotone(CAP + 1, quotient, resolution);
      assert false;
    }
    assert Threshold(Some(trigger), systemTime, resolution) == quotient;
  }

  /** From end to end: a tick outside of ProcessTicks leaves an event pending if the next trigger time has
      come, and changes nothing about events if it has not. */
  lemma TickAnnounces(s: Service, trigger: int)
    requires Inv(s) && s.main.Outside? && s.interrupt.NoTick? && s.nextTrigger == Some(trigger)
    requires trigger - s.systemTime <= CAP * s.resolution
    ensures var s' := WholeInterrupt(s);
      if Now(s') >= trigger then s'.events == 1 else s'.events == s.events
  {
    TickSchedules(s);
    var s' := WholeInterrupt(s);
    hide Step, Threshold, WholeInterrupt;
    var threshold := Threshold(Some(trigger), s.systemTime, s.resolution);
    ThresholdIsExact(trigger, s.systemTime, s.resolution);
    if s'.ticksProgressed < threshold {
      ThresholdIsNeverLate(trigger, s.systemTime, s.resolution, s'.ticksProgressed);
    } else {
      MultiplyMonotone(threshold, s'.ticksProgressed, s.resolution);
    }
  }

  /** From end to end: ProcessTicks in which the timers change the next trigger, but without interruption,
      loses no time, and leaves an event pending exactly if that trigger has come already. */
  lemma ProcessingAnnounces(s: Service, trigger: int)
    requires Inv(s) && s.main.Outside? && s.interrupt.NoTick? && s.events == 1
    requires trigger - Now(s) <= CAP * s.resolution
    ensures var s' := ProcessingWith(s, trigger);
      && Inv(s') && s'.main.Outside? && Now(s') == Now(s) && s'.nextTrigger == Some(trigger)
      && (s'.events == 1 <==> trigger <= Now(s')) && (s'.events == 0 <==> trigger > Now(s'))
  {
    hide Threshold;
    var s1 := Step(s, StartProcessing);
    var s2 := Step(s1, AdvanceTime);
    var s3 := Step(s2, ChangeTrigger(Some(trigger)));
    var s4 := Step(s3, Recalculate);
    var s5 := Step(s4, Decide);
    var s6 := Step(s5, StoreFlag);
    StepKeepsInv(s, StartProcessing);
    StepKeepsInv(s1, AdvanceTime);
    StepKeepsInv(s2, ChangeTrigger(Some(trigger)));
    StepKeepsInv(s3, Recalculate);
    StepKeepsInv(s4, Decide);
    StepKeepsInv(s5, StoreFlag);
    StepKeepsInv(s6, Reschedule);
    ThresholdIsExact(trigger, Now(s), s.resolution);
    if Threshold(Some(trigger), Now(s), s.resolution) > 0 { ThresholdIsNeverLate(trigger, Now(s), s.resolution, 0); }
  }

  function ProcessingWith(s: Service, trigger: int): Service
    requires s.resolution > 0
  {
    var running := Step(Step(Step(s, StartProcessing), AdvanceTime), ChangeTrigger(Some(trigger)));
    Step(Step(Step(Step(running, Recalculate), Decide), StoreFlag), Reschedule)
  }

  lemma ModuloIsSmaller(n: nat)
    ensures n % UINT32 <= n
  {
  }

  lemma MultiplyMonotone(a: nat, b: nat, r: int)
    requires a <= b && r > 0
    ensures a * r <= b * r
  {
  }

  lemma DivideBounds(n: nat, d: int)
    requires d > 0
    ensures 0 <= n / d && (n / d) * d <= n < (n / d) * d + d
  {
  }
}
