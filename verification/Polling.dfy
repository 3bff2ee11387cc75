/**
 The polling primitive as an event-driven state machine. A tick is split where it awaits its task;
 timers, tasks and visibility changes come in any order, and a visibility event may lag behind the
 change it reports.
 */
module Polling {
  import opened Options

  datatype Config = Config(initialInterval: real, maxInterval: real, maxAttempts: nat)

  // `inFlight` holds the unsettled ticks, each with whether its signal was aborted; `timer` the delay of
  // the armed timer; `eventsDue` the visibility changes whose event has not been delivered.
  datatype State = State(
    polling: bool, exhausted: bool, attempts: nat,
    timer: Option<real>, controller: Option<nat>, currentInterval: real, hiddenPaused: bool,
    hidden: bool, eventsDue: nat, inFlight: map<nat, bool>, nextTick: nat)

  // What onTick does, and what isDone does; an error they raise may be marked as a cancellation.
  datatype Effect = Quiet | CallsStop | Raises(isCanceled: bool)

  datatype Verdict = Says(done: bool) | Throws(isCanceled: bool)

  datatype Outcome =
    | Resolved(onTick: Effect, isDone: Verdict)
    | Rejected(isCanceled: bool)

  datatype Event =
    | Start
    | Stop
    | TimerFires
    | Settle(id: nat, outcome: Outcome)
    | VisibilityChanges
    | VisibilityEvent

  predicate Enabled(s: State, e: Event) {
    match e
    case TimerFires => s.timer.Some?
    case Settle(id, _) => id in s.inFlight
    case VisibilityEvent => s.eventsDue > 0
    case _ => true
  }

  function Stopped(s: State): State {
    var inFlight :=
      if s.controller.Some? && s.controller.value in s.inFlight then s.inFlight[s.controller.value := true]
      else s.inFlight;
    s.(polling := false, timer := None, controller := None, inFlight := inFlight)
  }

  // tick up to its await.
  function Ticked(c: Config, s: State): State {
    var s := s.(timer := None);
    if !s.polling then s
    else if s.attempts >= c.maxAttempts then s.(polling := false, exhausted := true)
    else
      s.(attempts := s.attempts + 1, controller := Some(s.nextTick),
         inFlight := s.inFlight[s.nextTick := false], nextTick := s.nextTick + 1)
  }

  function Scheduled(s: State): State {
    if !s.polling then s
    else if s.hidden then s.(hiddenPaused := true)
    else s.(timer := Some(s.currentInterval))
  }

  function Min(a: real, b: real): real {
    if a <= b then a else b
  }

  function Backoff(c: Config, s: State): State {
    Scheduled(s.(currentInterval := Min(s.currentInterval * 1.5, c.maxInterval)))
  }

  // Whether a tick that settles this way goes on to back off and reschedule.
  predicate Reschedules(s: State, outcome: Outcome) {
    s.polling &&
    match outcome
    case Rejected(isCanceled) => !isCanceled
    case Resolved(onTick, isDone) =>
      if onTick.Raises? then !onTick.isCanceled
      else if isDone.Throws? then !isDone.isCanceled && onTick != CallsStop
      else !isDone.done
  }

  // The tick ends with an error marked as a cancellation, from its task or from a callback, and without a stop.
  predicate Canceled(outcome: Outcome) {
    match outcome
    case Rejected(isCanceled) => isCanceled
    case Resolved(onTick, isDone) => onTick == Raises(true) || (onTick == Quiet && isDone == Throws(true))
  }

  // tick from its await on.
  function Settled(c: Config, s: State, id: nat, outcome: Outcome): State {
    var effect :=
      if s.polling && outcome.Resolved? && outcome.onTick == CallsStop then Stopped(s) else s;
    var finished := effect.(controller := None, inFlight := effect.inFlight - {id});
    if Reschedules(s, outcome) then Backoff(c, finished)
    else if s.polling && outcome.Resolved? && !outcome.onTick.Raises? && outcome.isDone == Says(true) then
      finished.(polling := false)
    else finished
  }

  function Restarted(c: Config, s: State): State {
    Stopped(s).(polling := true, exhausted := false, attempts := 0,
                currentInterval := c.initialInterval, hiddenPaused := false)
  }

  function Noticed(s: State): State {
    if s.hidden then
      if s.timer.Some? then s.(timer := None, hiddenPaused := true) else s
    else if s.hiddenPaused && s.polling then Scheduled(s.(hiddenPaused := false))
    else s
  }

  function Next(c: Config, s: State, e: Event): State
    requires Enabled(s, e)
  {
    match e
    case Start => Ticked(c, Restarted(c, s))
    case Stop => Stopped(s)
    case TimerFires => Ticked(c, s)
    case Settle(id, outcome) => Settled(c, s, id, outcome)
    case VisibilityChanges => s.(hidden := !s.hidden, eventsDue := s.eventsDue + 1)
    case VisibilityEvent => Noticed(s.(eventsDue := s.eventsDue - 1))
  }

  function Initial(c: Config, hidden: bool): State {
    State(false, false, 0, None, None, c.initialInterval, false, hidden, 0, map[], 0)
  }

  ghost predicate IsRun(c: Config, ss: seq<State>, es: seq<Event>) {
    && |ss| == |es| + 1
    && (ss[0] == Initial(c, false) || ss[0] == Initial(c, true))
    && forall i :: 0 <= i < |es| ==> Enabled(ss[i], es[i]) && ss[i + 1] == Next(c, ss[i], es[i])
  }

  // `start` is not called while a tick is unsettled, and a cancellation is reported only after the tick's
  // signal was aborted.
  ghost predicate WellUsed(s: State, e: Event) {
    match e
    case Start => s.inFlight == map[]
    case Settle(id, outcome) => id in s.inFlight && (Canceled(outcome) ==> s.inFlight[id])
    case _ => true
  }

  predicate Paused(s: State) {
    s.hiddenPaused && (s.hidden || s.eventsDue > 0)
  }

  // While polling, exactly one thing will wake it up: the timer, the tick in flight, or the visibility
  // event that ends a pause.
  predicate OneWakeUp(s: State) {
    || (s.timer.Some? && s.inFlight == map[] && !s.hiddenPaused)
    || (s.timer == None && s.inFlight != map[] && !s.hiddenPaused)
    || (s.timer == None && s.inFlight == map[] && Paused(s))
  }

  ghost predicate Valid(c: Config, s: State) {
    && (s.polling ==> OneWakeUp(s))
    && (!s.polling ==> s.timer == None)
    && (forall i, j :: i in s.inFlight && j in s.inFlight ==> i == j)
    && (forall i :: i in s.inFlight ==>
          i < s.nextTick && (s.inFlight[i] <==> !s.polling) && (s.controller == if s.polling then Some(i) else None))
    && (s.inFlight == map[] ==> s.controller == None)
    && (s.timer.Some? ==> s.timer == Some(s.currentInterval))
    && s.attempts <= c.maxAttempts
  }

  lemma SettleKeepsValid(c: Config, s: State, id: nat, outcome: Outcome)
    requires Valid(c, s) && id in s.inFlight && WellUsed(s, Settle(id, outcome))
    ensures Valid(c, Settled(c, s, id, outcome))
  {
    assert forall i :: i in s.inFlight ==> i == id;
    assert s.inFlight - {id} == map[];
    assert Stopped(s).inFlight - {id} == map[];
  }

  lemma StopKeepsValid(c: Config, s: State)
    requires Valid(c, s)
    ensures Valid(c, Stopped(s))
  {
  }

  lemma StartKeepsValid(c: Config, s: State)
    requires Valid(c, s) && s.inFlight == map[]
    ensures Valid(c, Ticked(c, Restarted(c, s)))
  {
  }

  lemma TickKeepsValid(c: Config, s: State)
    requires Valid(c, s) && s.timer.Some?
    ensures Valid(c, Ticked(c, s))
  {
  }

  lemma VisibilityKeepsValid(c: Config, s: State, e: Event)
    requires Valid(c, s) && Enabled(s, e) && (e.VisibilityChanges? || e.VisibilityEvent?)
    ensures Valid(c, Next(c, s, e))
  {
  }

  lemma StepKeepsValid(c: Config, s: State, e: Event)
    requires Valid(c, s) && Enabled(s, e) && WellUsed(s, e)
    ensures Valid(c, Next(c, s, e))
  {
    match e {
      case Start => StartKeepsValid(c, s);
      case Stop => StopKeepsValid(c, s);
      case TimerFires => TickKeepsValid(c, s);
      case Settle(id, outcome) => SettleKeepsValid(c, s, id, outcome);
      case _ => VisibilityKeepsValid(c, s, e);
    }
  }

  // In every well-used run there is never a lost or a second wake-up, nor more attempts than allowed.
  lemma {:induction false} RunsStayValid(c: Config, ss: seq<State>, es: seq<Event>, n: nat)
    requires IsRun(c, ss, es) && n <= |es|
    requires forall i :: 0 <= i < n ==> WellUsed(ss[i], es[i])
    ensures Valid(c, ss[n])
  {
    if n > 0 {
      RunsStayValid(c, ss, es, n - 1);
      StepKeepsValid(c, ss[n - 1], es[n - 1]);
    }
  }

  // ------------------------------------------------------------------ what wakes it, and what ends it

  // The outcome of a tick ends the polling: a callback stopped it, or it is done.
  predicate Ends(outcome: Outcome) {
    outcome.Resolved? && (outcome.onTick == CallsStop || (outcome.onTick == Quiet && outcome.isDone == Says(true)))
  }

  // When a tick settles, a polling primitive stops exactly if the outcome ends it; otherwise it arms its timer,
  // or marks a pause while hidden, exactly if the outcome is no cancellation.
  lemma SettlesExactly(c: Config, s: State, id: nat, outcome: Outcome)
    requires Valid(c, s) && id in s.inFlight
    ensures var t := Next(c, s, Settle(id, outcome));
      && (t.polling <==> s.polling && !Ends(outcome))
      && (t.polling && s.hidden ==> t.timer == None && (t.hiddenPaused <==> !Canceled(outcome)))
      && (t.polling && !s.hidden ==> !t.hiddenPaused && (t.timer.Some? <==> !Canceled(outcome)))
      && t.inFlight == map[] && t.attempts == s.attempts && t.exhausted == s.exhausted
  {
    assert forall i :: i in s.inFlight ==> i == id;
    assert s.inFlight - {id} == map[] && Stopped(s).inFlight - {id} == map[];
  }

  // In every run, well used or not: a timer is never armed while the page is known to be hidden.
  lemma {:induction false} HiddenPagesRest(c: Config, ss: seq<State>, es: seq<Event>, n: nat)
    requires IsRun(c, ss, es) && n <= |es|
    ensures ss[n].hidden && ss[n].eventsDue == 0 ==> ss[n].timer == None
  {
    if n > 0 {
      HiddenPagesRest(c, ss, es, n - 1);
      assert ss[n] == Next(c, ss[n - 1], es[n - 1]);
    }
  }

  // Event i puts a tick in flight: its task is called.
  ghost predicate CallsTask(ss: seq<State>, i: nat) {
    i + 1 < |ss| && exists id :: id in ss[i + 1].inFlight && id !in ss[i].inFlight
  }

  // How often its task was called since the last start, among the first n events.
  ghost function TasksCalled(ss: seq<State>, es: seq<Event>, n: nat): nat
    requires n <= |es|
  {
    if n == 0 then 0
    else
      var here := if CallsTask(ss, n - 1) then 1 else 0;
      if es[n - 1] == Start then here else TasksCalled(ss, es, n - 1) + here
  }

  // Since the last start, a wake-up came when the attempts were used up.
  ghost predicate RanOut(c: Config, ss: seq<State>, es: seq<Event>, n: nat)
    requires n <= |es|
    decreases n
  {
    n > 0 &&
    if es[n - 1] == Start then c.maxAttempts == 0
    else
      || (es[n - 1] == TimerFires && n - 1 < |ss| && ss[n - 1].polling && ss[n - 1].attempts >= c.maxAttempts)
      || RanOut(c, ss, es, n - 1)
  }

  lemma {:induction false} TicksAreNew(c: Config, ss: seq<State>, es: seq<Event>, n: nat)
    requires IsRun(c, ss, es) && n <= |es|
    ensures forall id :: id in ss[n].inFlight ==> id < ss[n].nextTick
  {
    if n > 0 {
      TicksAreNew(c, ss, es, n - 1);
      assert ss[n] == Next(c, ss[n - 1], es[n - 1]);
    }
  }

  lemma TaskCalledAt(c: Config, ss: seq<State>, es: seq<Event>, i: nat)
    requires IsRun(c, ss, es) && i < |es|
    ensures CallsTask(ss, i) <==>
      || (es[i] == Start && c.maxAttempts > 0)
      || (es[i] == TimerFires && ss[i].polling && ss[i].attempts < c.maxAttempts)
  {
    TicksAreNew(c, ss, es, i);
    assert ss[i + 1] == Next(c, ss[i], es[i]);
    if es[i] == Start || es[i] == TimerFires {
      assert ss[i].nextTick !in ss[i].inFlight;
      assert ss[i].nextTick in ss[i + 1].inFlight ==> CallsTask(ss, i);
    }
  }

  // In every run the attempts are the calls of its task since the last start, and the primitive reports
  // exhaustion exactly when a wake-up found them used up.
  lemma {:induction false} AttemptsCount(c: Config, ss: seq<State>, es: seq<Event>, n: nat)
    requires IsRun(c, ss, es) && n <= |es|
    ensures ss[n].attempts == TasksCalled(ss, es, n) <= c.maxAttempts
    ensures ss[n].exhausted <==> RanOut(c, ss, es, n)
  {
    if n > 0 {
      AttemptsCount(c, ss, es, n - 1);
      TaskCalledAt(c, ss, es, n - 1);
      assert ss[n] == Next(c, ss[n - 1], es[n - 1]);
    }
  }

  // A start polls at once if an attempt is allowed, and aborts what was in flight.
  lemma StartsAtOnce(c: Config, s: State)
    requires Valid(c, s)
    ensures var t := Next(c, s, Start);
      && (t.polling <==> c.maxAttempts > 0) && (c.maxAttempts > 0 ==> t.inFlight.Keys == s.inFlight.Keys + {s.nextTick})
      && t.currentInterval == c.initialInterval && t.timer == None
      && forall id :: id in s.inFlight && id != s.nextTick ==> t.inFlight[id]
  {
  }

  // A start under an unsettled tick puts a second tick in flight: it keeps the primitive sound exactly
  // when no tick is unsettled, or no attempt is allowed at all.
  lemma StartsDuringATickDuplicate(c: Config, s: State)
    requires Valid(c, s)
    ensures Valid(c, Next(c, s, Start)) <==> s.inFlight == map[] || c.maxAttempts == 0
  {
    if s.inFlight == map[] {
      StartKeepsValid(c, s);
    } else if c.maxAttempts > 0 {
      var tick :| tick in s.inFlight;
      var t := Next(c, s, Start);
      assert tick in t.inFlight && s.nextTick in t.inFlight && tick != s.nextTick;
    }
  }

  // A tick that ends in a cancellation strands a polling primitive exactly when it was not aborted.
  lemma UnprovokedCancellationsStrand(c: Config, s: State, id: nat, outcome: Outcome)
    requires Valid(c, s) && id in s.inFlight && Canceled(outcome)
    ensures Valid(c, Next(c, s, Settle(id, outcome))) <==> s.inFlight[id]
  {
    if s.inFlight[id] {
      SettleKeepsValid(c, s, id, outcome);
    } else {
      assert forall i :: i in s.inFlight ==> i == id;
      assert s.inFlight - {id} == map[];
    }
  }

  // Both arise in a well-used run: after a first start a tick is in flight, and neither a second start nor
  // a cancellation nobody asked for leaves the primitive sound.
  lemma TicksInFlightAreReachable(c: Config, hidden: bool, outcome: Outcome) returns (ss: seq<State>, es: seq<Event>)
    requires c.maxAttempts > 0 && Canceled(outcome)
    ensures IsRun(c, ss, es) && (forall i :: 0 <= i < |es| ==> WellUsed(ss[i], es[i]))
    ensures var s := ss[|es|];
      && Valid(c, s) && s.inFlight == map[0 := false]
      && !Valid(c, Next(c, s, Start)) && !Valid(c, Next(c, s, Settle(0, outcome)))
  {
    var s0 := Initial(c, hidden);
    var s1 := Next(c, s0, Start);
    ss, es := [s0, s1], [Start];
    StartKeepsValid(c, s0);
    StartsDuringATickDuplicate(c, s1);
    UnprovokedCancellationsStrand(c, s1, 0, outcome);
  }

  // ------------------------------------------------------------------ the back-off

  function Pow(k: nat): real {
    if k == 0 then 1.0 else 1.5 * Pow(k - 1)
  }

  // The reschedulings since the last start.
  ghost function Rescheduled(c: Config, ss: seq<State>, es: seq<Event>, n: nat): nat
    requires IsRun(c, ss, es) && n <= |es|
  {
    if n == 0 || es[n - 1] == Start then 0
    else if es[n - 1].Settle? && Reschedules(ss[n - 1], es[n - 1].outcome) then Rescheduled(c, ss, es, n - 1) + 1
    else Rescheduled(c, ss, es, n - 1)
  }

  lemma {:induction false} PowIsPositive(k: nat)
    ensures Pow(k) > 0.0
  {
    if k > 0 {
      PowIsPositive(k - 1);
    }
  }

  lemma IntervalStep(c: Config, s: State, e: Event)
    requires Enabled(s, e)
    ensures Next(c, s, e).currentInterval ==
      if e == Start then c.initialInterval
      else if e.Settle? && Reschedules(s, e.outcome) then Min(s.currentInterval * 1.5, c.maxInterval)
      else s.currentInterval
  {
  }

  // The initial interval grown by half k times, up to the maximum.
  function Interval(c: Config, k: nat): real {
    if k == 0 then c.initialInterval else Min(c.initialInterval * Pow(k), c.maxInterval)
  }

  // After k reschedulings since the last start, the interval has backed off k times.
  lemma {:induction false} IntervalsBackOff(c: Config, ss: seq<State>, es: seq<Event>, n: nat)
    requires IsRun(c, ss, es) && n <= |es| && c.initialInterval >= 0.0 && c.maxInterval >= 0.0
    ensures ss[n].currentInterval == Interval(c, Rescheduled(c, ss, es, n))
  {
    if n > 0 {
      IntervalsBackOff(c, ss, es, n - 1);
      assert ss[n] == Next(c, ss[n - 1], es[n - 1]);
      IntervalStep(c, ss[n - 1], es[n - 1]);
      BackoffStep(c, Rescheduled(c, ss, es, n - 1));
    }
  }

  lemma BackoffStep(c: Config, k: nat)
    requires c.initialInterval >= 0.0 && c.maxInterval >= 0.0
    ensures Min(Interval(c, k) * 1.5, c.maxInterval) == Interval(c, k + 1)
  {
    var a, p, q := c.initialInterval, Pow(k), Pow(k + 1);
    PowIsPositive(k);
    assert q == 1.5 * p;
    Regroup(a, p);
    if k == 0 {
      assert a * p == a;
    } else {
      MinStep(a * p, c.maxInterval);
    }
  }

  lemma MinStep(p: real, m: real)
    requires p >= 0.0 && m >= 0.0
    ensures Min(Min(p, m) * 1.5, m) == Min(p * 1.5, m)
  {
  }

  lemma Regroup(a: real, p: real)
    requires a >= 0.0 && p > 0.0
    ensures a * (1.5 * p) == (a * p) * 1.5 && a * p >= 0.0
  {
  }

  // ------------------------------------------------------------------ the primitive

  class Poller {
    const config: Config
    var polling: bool
    var exhausted: bool
    var attempts: nat
    var timer: Option<real>
    var controller: Option<nat>
    var currentInterval: real
    var hiddenPaused: bool
    // The world the primitive runs in: the document, the undelivered events and the unsettled tasks.
    var hidden: bool
    var eventsDue: nat
    var inFlight: map<nat, bool>
    var nextTick: nat

    constructor (config: Config, hidden: bool)
      ensures this.config == config && View() == Initial(config, hidden) && Valid(config, View())
    {
      this.config := config;
      this.hidden := hidden;
      polling, exhausted, attempts := false, false, 0;
      timer, controller, currentInterval, hiddenPaused := None, None, config.initialInterval, false;
      eventsDue, inFlight, nextTick := 0, map[], 0;
    }

    function View(): State
      reads this
    {
      State(polling, exhausted, attempts, timer, controller, currentInterval, hiddenPaused,
            hidden, eventsDue, inFlight, nextTick)
    }

    method Stop()
      modifies this
      ensures View() == Next(config, old(View()), Event.Stop)
    {
      polling := false;
      if timer.Some? {
        timer := None;
      }
      if controller.Some? {
        if controller.value in inFlight {
          inFlight := inFlight[controller.value := true];
        }
        controller := None;
      }
    }

    method Schedule()
      modifies this
      ensures View() == Scheduled(old(View()))
    {
      if !polling {
        return;
      }
      if hidden {
        hiddenPaused := true;
        return;
      }
      timer := Some(currentInterval);
    }

    // tick up to its await.
    method Tick()
      modifies this
      ensures View() == Ticked(config, old(View()))
    {
      timer := None;
      if !polling {
        return;
      }
      if attempts >= config.maxAttempts {
        polling := false;
        exhausted := true;
        return;
      }
      attempts := attempts + 1;
      controller := Some(nextTick);
      inFlight := inFlight[nextTick := false];
      nextTick := nextTick + 1;
    }

    // tick from its await on, with the outcome of its task and of its callbacks.
    method Settle(id: nat, outcome: Outcome)
      requires id in inFlight
      modifies this
      ensures View() == Next(config, old(View()), Event.Settle(id, outcome))
    {
      var goOn := false;
      if outcome.Resolved? {
        if polling {
          if outcome.onTick.Raises? {
            goOn := !outcome.onTick.isCanceled;
          } else {
            if outcome.onTick == CallsStop {
              Stop();
            }
            if outcome.isDone.Throws? {
              goOn := !outcome.isDone.isCanceled && polling;
            } else if outcome.isDone.done {
              polling := false;
            } else {
              goOn := true;
            }
          }
        }
      } else {
        goOn := !outcome.isCanceled && polling;
      }
      controller := None;
      inFlight := inFlight - {id};
      if goOn {
        currentInterval := Min(currentInterval * 1.5, config.maxInterval);
        Schedule();
      }
    }

    method Start()
      modifies this
      ensures View() == Next(config, old(View()), Event.Start)
    {
      Stop();
      polling := true;
      exhausted := false;
      attempts := 0;
      currentInterval := config.initialInterval;
      hiddenPaused := false;
      Tick();
    }

    method OnVisibilityChange()
      requires eventsDue > 0
      modifies this
      ensures View() == Next(config, old(View()), VisibilityEvent)
    {
      eventsDue := eventsDue - 1;
      if hidden {
        if timer.Some? {
          timer := None;
          hiddenPaused := true;
        }
      } else if hiddenPaused && polling {
        hiddenPaused := false;
        Schedule();
      }
    }
  }
}
