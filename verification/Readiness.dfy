/**
 The readiness endpoint: each request is a probe with a pending count over its dependency answers and a
 deadline; the controller keeps one hysteresis state for all of them.
 */
module Readiness {
  const FAILURE_THRESHOLD := 3

  datatype Dependency = Db | Redis

  datatype Event =
    | Begin(probe: nat, hasDb: bool, hasRedis: bool)
    | Answer(probe: nat, dependency: Dependency, ok: bool)
    | Deadline(probe: nat)

  // A probe's shared state, the queries still out, and whether its deadline has fired.
  datatype Probe = Probe(pending: int, failed: seq<string>, dbOut: bool, redisOut: bool, done: bool)

  datatype State = State(probes: map<nat, Probe>, consecutiveFailures: int, lastReady: bool)

  const START := State(map[], 0, false)

  function Begun(hasDb: bool, hasRedis: bool): Probe {
    var pending := if hasRedis then 2 else 1;
    Probe(if hasDb then pending else pending - 1, if hasDb then [] else ["db"], hasDb, hasRedis, false)
  }

  function Answered(p: Probe, d: Dependency, ok: bool): Probe {
    p.(pending := p.pending - 1,
       failed := if ok then p.failed else p.failed + [if d.Db? then "db" else "redis"],
       dbOut := p.dbOut && d != Db, redisOut := p.redisOut && d != Redis)
  }

  function TimedOut(p: Probe): Probe {
    p.(failed := if p.pending > 0 then p.failed + ["timeout"] else p.failed, done := true)
  }

  // A client gives each query exactly one of its two callbacks, at most once; a deadline fires once.
  predicate Possible(s: State, e: Event) {
    match e
    case Begin(p, _, _) => p !in s.probes
    case Answer(p, d, _) => p in s.probes && (if d.Db? then s.probes[p].dbOut else s.probes[p].redisOut)
    case Deadline(p) => p in s.probes && !s.probes[p].done
  }

  function Next(s: State, e: Event): State
    requires Possible(s, e)
  {
    match e
    case Begin(p, hasDb, hasRedis) => s.(probes := s.probes[p := Begun(hasDb, hasRedis)])
    case Answer(p, d, ok) => s.(probes := s.probes[p := Answered(s.probes[p], d, ok)])
    case Deadline(p) =>
      var probe := TimedOut(s.probes[p]);
      var failures := if probe.failed == [] then 0 else s.consecutiveFailures + 1;
      State(s.probes[p := probe], failures,
            probe.failed == [] || (s.lastReady && failures < FAILURE_THRESHOLD))
  }

  datatype Report = Ready | NotReady(failed: seq<string>)

  // What the deadline of a probe answers to its caller.
  function ReportAt(s: State, p: nat): Report
    requires Possible(s, Deadline(p))
  {
    var after := Next(s, Deadline(p));
    if after.lastReady then Ready else NotReady(after.probes[p].failed)
  }

  predicate IsRun(events: seq<Event>)
    decreases |events|, 0
  {
    events == [] || (IsRun(Before(events)) && Possible(After(Before(events)), Last(events)))
  }

  function After(events: seq<Event>): State
    requires IsRun(events)
    decreases |events|, 1
  {
    if events == [] then START else Next(After(Before(events)), Last(events))
  }

  function Before(events: seq<Event>): seq<Event>
    requires events != []
  {
    events[..|events| - 1]
  }

  function Last(events: seq<Event>): Event
    requires events != []
  {
    events[|events| - 1]
  }

  class HealthCheckController {
    var probes: map<nat, Probe>
    var consecutiveFailures: int
    var lastReadyState: bool

    function View(): State
      reads this
    {
      State(probes, consecutiveFailures, lastReadyState)
    }

    constructor ()
      ensures View() == START
    {
      probes, consecutiveFailures, lastReadyState := map[], 0, false;
    }

    // readyz: sets up the probe; a missing database client fails it at once.
    method Readyz(p: nat, hasDb: bool, hasRedis: bool)
      requires Possible(View(), Begin(p, hasDb, hasRedis))
      modifies this
      ensures View() == Next(old(View()), Begin(p, hasDb, hasRedis))
    {
      var state := Probe(2, [], hasDb, hasRedis, false);
      if !hasRedis {
        state := state.(pending := 1);
      }
      if !hasDb {
        state := state.(failed := state.failed + ["db"]);
        assert state.failed == ["db"];
        state := state.(pending := state.pending - 1);
      }
      probes := probes[p := state];
    }

    method OnAnswer(p: nat, d: Dependency, ok: bool)
      requires Possible(View(), Answer(p, d, ok))
      modifies this
      ensures View() == Next(old(View()), Answer(p, d, ok))
    {
      var state := probes[p];
      if !ok {
        state := state.(failed := state.failed + [if d.Db? then "db" else "redis"]);
      }
      state := state.(pending := state.pending - 1);
      state := if d.Db? then state.(dbOut := false) else state.(redisOut := false);
      probes := probes[p := state];
    }

    method OnDeadline(p: nat) returns (report: Report)
      requires Possible(View(), Deadline(p))
      modifies this
      ensures View() == Next(old(View()), Deadline(p)) && report == old(ReportAt(View(), p))
    {
      var state := probes[p].(done := true);
      if state.pending > 0 {
        state := state.(failed := state.failed + ["timeout"]);
      }
      probes := probes[p := state];
      if state.failed == [] {
        consecutiveFailures := 0;
        lastReadyState := true;
      } else {
        consecutiveFailures := consecutiveFailures + 1;
        if consecutiveFailures >= FAILURE_THRESHOLD {
          lastReadyState := false;
        }
      }
      report := if lastReadyState then Ready else NotReady(state.failed);
    }
  }

  // ------------------------------------------------------------------ what a probe's success is

  // By its deadline the database has answered without error, and so has Redis if it is configured.
  predicate Succeeds(before: seq<Event>, p: nat) {
    && Answer(p, Db, true) in before
    && (Begin(p, true, true) in before ==> Answer(p, Redis, true) in before)
  }

  predicate Asked(events: seq<Event>, p: nat, hasDb: bool, hasRedis: bool) {
    Begin(p, hasDb, hasRedis) in events
  }

  predicate Errs(events: seq<Event>, p: nat) {
    Answer(p, Db, false) in events || Answer(p, Redis, false) in events
  }

  // How a probe's state follows from the events so far.
  predicate Tracks(events: seq<Event>, p: nat, probe: Probe) {
    exists hasDb, hasRedis :: TracksAs(events, p, probe, hasDb, hasRedis)
  }

  predicate TracksAs(events: seq<Event>, p: nat, probe: Probe, hasDb: bool, hasRedis: bool) {
    && (forall d, r :: Asked(events, p, d, r) <==> d == hasDb && r == hasRedis)
    && (probe.dbOut <==> hasDb && Answer(p, Db, true) !in events && Answer(p, Db, false) !in events)
    && (probe.redisOut <==> hasRedis && Answer(p, Redis, true) !in events && Answer(p, Redis, false) !in events)
    && (Answer(p, Db, true) in events ==> hasDb && Answer(p, Db, false) !in events)
    && (Answer(p, Redis, true) in events ==> hasRedis && Answer(p, Redis, false) !in events)
    && (Answer(p, Db, false) in events ==> hasDb) && (Answer(p, Redis, false) in events ==> hasRedis)
    && probe.pending == (if probe.dbOut then 1 else 0) + (if probe.redisOut then 1 else 0)
    && (!probe.done ==> (probe.failed == [] <==> hasDb && !Errs(events, p)))
  }

  lemma InOneMore(events: seq<Event>, e: Event)
    requires events != []
    ensures e in events <==> e in Before(events) || e == Last(events)
  {
    assert events == Before(events) + [Last(events)];
  }

  // An event about one probe is no news about another.
  lemma OthersKeepTrack(events: seq<Event>, p: nat, probe: Probe)
    requires events != [] && Last(events).probe != p
    ensures Tracks(Before(events), p, probe) ==> Tracks(events, p, probe)
    ensures (forall d, r :: !Asked(Before(events), p, d, r)) ==> forall d, r :: !Asked(events, p, d, r)
  {
    forall e: Event | e.probe == p
      ensures e in events <==> e in Before(events)
    {
      InOneMore(events, e);
    }
    assert forall d, r :: Begin(p, d, r).probe == p && (Asked(events, p, d, r) <==> Asked(Before(events), p, d, r));
    assert forall d, ok ::
      Answer(p, d, ok).probe == p && (Answer(p, d, ok) in events <==> Answer(p, d, ok) in Before(events));
    assert Errs(events, p) <==> Errs(Before(events), p);
    if hasDb, hasRedis :| TracksAs(Before(events), p, probe, hasDb, hasRedis) {
      assert TracksAs(events, p, probe, hasDb, hasRedis);
    }
  }

  lemma {:induction false} ProbesTrack(events: seq<Event>, p: nat)
    requires IsRun(events)
    ensures p in After(events).probes ==> Tracks(events, p, After(events).probes[p])
    ensures p !in After(events).probes ==>
      forall e :: e in events ==> e.probe != p
    decreases |events|
  {
    if events != [] {
      var before, e := Before(events), Last(events);
      ProbesTrack(before, p);
      forall x: Event
        ensures x in events <==> x in before || x == e
      {
        InOneMore(events, x);
      }
      if e.probe != p {
        OthersKeepTrack(events, p, if p in After(before).probes then After(before).probes[p] else Begun(true, true));
      } else {
        ProbeTracksOn(events, p);
      }
    }
  }

  lemma ProbeTracksOn(events: seq<Event>, p: nat)
    requires events != [] && IsRun(events) && Last(events).probe == p
    requires p in After(Before(events)).probes ==> Tracks(Before(events), p, After(Before(events)).probes[p])
    requires p !in After(Before(events)).probes ==> forall e :: e in Before(events) ==> e.probe != p
    ensures p in After(events).probes && Tracks(events, p, After(events).probes[p])
  {
    var before, e := Before(events), Last(events);
    forall x: Event
      ensures x in events <==> x in before || x == e
    {
      InOneMore(events, x);
    }
    var probe := After(events).probes[p];
    if e.Begin? {
      assert TracksAs(events, p, probe, e.hasDb, e.hasRedis);
    } else {
      var was := After(before).probes[p];
      var hasDb, hasRedis :| TracksAs(before, p, was, hasDb, hasRedis);
      assert forall d, r :: Asked(events, p, d, r) <==> Asked(before, p, d, r);
      assert TracksAs(events, p, probe, hasDb, hasRedis);
    }
  }

  // Under every interleaving of the answers with the deadline, the deadline finds the probe without a
  // failure exactly when every dependency it asked has answered without error.
  lemma DeadlineSeesSuccess(before: seq<Event>, p: nat)
    requires IsRun(before) && Possible(After(before), Deadline(p))
    ensures TimedOut(After(before).probes[p]).failed == [] <==> Succeeds(before, p)
  {
    ProbesTrack(before, p);
    var probe := After(before).probes[p];
    var hasDb, hasRedis :| TracksAs(before, p, probe, hasDb, hasRedis);
    assert Asked(before, p, true, true) <==> hasDb && hasRedis;
    assert |probe.failed + ["timeout"]| > 0;
    assert TimedOut(probe).failed == [] <==> probe.failed == [] && !probe.dbOut && !probe.redisOut;
    assert probe.failed == [] <==> hasDb && !Errs(before, p);
  }

  // ------------------------------------------------------------------ the names it reports

  // The names on a probe's list: the database if it has no client or answered with an error, Redis if it
  // answered with an error, and before the deadline nothing else.
  predicate Names(events: seq<Event>, p: nat, probe: Probe) {
    && ("db" in probe.failed <==>
          Begin(p, false, false) in events || Begin(p, false, true) in events || Answer(p, Db, false) in events)
    && ("redis" in probe.failed <==> Answer(p, Redis, false) in events)
    && (forall name :: name in probe.failed ==> name == "db" || name == "redis" || (probe.done && name == "timeout"))
  }

  lemma AppendedName(failed: seq<string>, last: string, name: string)
    ensures name in failed + [last] <==> name in failed || name == last
  {
  }

  lemma OthersKeepNames(events: seq<Event>, p: nat, probe: Probe)
    requires events != [] && Last(events).probe != p && Names(Before(events), p, probe)
    ensures Names(events, p, probe)
  {
    InOneMore(events, Begin(p, false, false));
    InOneMore(events, Begin(p, false, true));
    InOneMore(events, Answer(p, Db, false));
    InOneMore(events, Answer(p, Redis, false));
  }

  lemma NamesBegun(events: seq<Event>, p: nat)
    requires events != [] && IsRun(events) && Last(events).probe == p && Last(events).Begin?
    requires forall e :: e in Before(events) ==> e.probe != p
    ensures Names(events, p, After(events).probes[p])
  {
    InOneMore(events, Begin(p, false, false));
    InOneMore(events, Begin(p, false, true));
    InOneMore(events, Answer(p, Db, false));
    InOneMore(events, Answer(p, Redis, false));
  }

  lemma NamesGrow(events: seq<Event>, p: nat)
    requires events != [] && IsRun(events) && Last(events).probe == p && !Last(events).Begin?
    requires p in After(Before(events)).probes && Names(Before(events), p, After(Before(events)).probes[p])
    ensures Names(events, p, After(events).probes[p])
  {
    InOneMore(events, Begin(p, false, false));
    InOneMore(events, Begin(p, false, true));
    InOneMore(events, Answer(p, Db, false));
    InOneMore(events, Answer(p, Redis, false));
    var failed := After(Before(events)).probes[p].failed;
    forall last, name
      ensures name in failed + [last] <==> name in failed || name == last
    {
      AppendedName(failed, last, name);
    }
  }

  lemma {:induction false} NamesTrack(events: seq<Event>, p: nat)
    requires IsRun(events) && p in After(events).probes
    ensures Names(events, p, After(events).probes[p])
    decreases |events|
  {
    var before := Before(events);
    ProbesTrack(before, p);
    if p !in After(before).probes {
      NamesBegun(events, p);
    } else {
      NamesTrack(before, p);
      if Last(events).probe == p {
        NamesGrow(events, p);
      } else {
        OthersKeepNames(events, p, After(before).probes[p]);
      }
    }
  }

  // What the caller is told when the report is not ready: the names of what failed, and "timeout" exactly when
  // a dependency that was asked has not answered by the deadline.
  lemma ReportsName(before: seq<Event>, p: nat)
    requires IsRun(before) && Possible(After(before), Deadline(p)) && ReportAt(After(before), p).NotReady?
    ensures var names := ReportAt(After(before), p).failed;
      && ("db" in names <==>
            Begin(p, false, false) in before || Begin(p, false, true) in before || Answer(p, Db, false) in before)
      && ("redis" in names <==> Answer(p, Redis, false) in before)
      && ("timeout" in names <==> Unanswered(before, p, Db) || Unanswered(before, p, Redis))
      && forall name :: name in names ==> name == "db" || name == "redis" || name == "timeout"
  {
    NamesTrack(before, p);
    ProbesTrack(before, p);
    var probe := After(before).probes[p];
    var hasDb, hasRedis :| TracksAs(before, p, probe, hasDb, hasRedis);
    assert Asked(before, p, hasDb, hasRedis);
    assert probe.dbOut <==> Unanswered(before, p, Db) by {
      assert Asked(before, p, true, true) <==> hasDb && hasRedis;
      assert Asked(before, p, true, false) <==> hasDb && !hasRedis;
    }
    assert probe.redisOut <==> Unanswered(before, p, Redis) by {
      assert Asked(before, p, true, true) <==> hasDb && hasRedis;
      assert Asked(before, p, false, true) <==> !hasDb && hasRedis;
    }
    forall name
      ensures name in probe.failed + ["timeout"] <==> name in probe.failed || name == "timeout"
    {
      AppendedName(probe.failed, "timeout", name);
    }
  }

  // The probe asked this dependency, and no answer of it has come.
  predicate Unanswered(events: seq<Event>, p: nat, d: Dependency) {
    && (Begin(p, true, true) in events || Begin(p, d.Db?, d.Redis?) in events)
    && Answer(p, d, true) !in events && Answer(p, d, false) !in events
  }

  // ------------------------------------------------------------------ hysteresis

  // Whether each completed probe succeeded, in the order of their deadlines.
  function Outcomes(events: seq<Event>): seq<bool> {
    if events == [] then []
    else if Last(events).Deadline? then
      Outcomes(Before(events)) + [Succeeds(Before(events), Last(events).probe)]
    else Outcomes(Before(events))
  }

  predicate LastThree(outcomes: seq<bool>) {
    exists i :: |outcomes| - FAILURE_THRESHOLD <= i < |outcomes| && 0 <= i && outcomes[i]
  }

  // The failures since the last success.
  function Trailing(outcomes: seq<bool>): (n: nat)
    ensures n <= |outcomes| && forall i :: |outcomes| - n <= i < |outcomes| ==> !outcomes[i]
    ensures n < |outcomes| ==> outcomes[|outcomes| - n - 1]
  {
    if outcomes == [] || outcomes[|outcomes| - 1] then 0 else 1 + Trailing(outcomes[..|outcomes| - 1])
  }

  lemma OneMoreOutcome(was: seq<bool>, outcome: bool)
    ensures var now := was + [outcome];
      && Trailing(now) == (if outcome then 0 else Trailing(was) + 1)
      && (LastThree(now) <==> outcome || (LastThree(was) && Trailing(was) + 1 < FAILURE_THRESHOLD))
  {
    var now := was + [outcome];
    assert now[..|now| - 1] == was;
    LastThreeByTrailing(was);
    LastThreeByTrailing(now);
  }

  lemma {:induction false} CountsTrailing(events: seq<Event>)
    requires IsRun(events)
    ensures After(events).consecutiveFailures == Trailing(Outcomes(events))
    ensures After(events).lastReady <==> LastThree(Outcomes(events))
    decreases |events|
  {
    if events != [] {
      var before, e := Before(events), Last(events);
      CountsTrailing(before);
      if e.Deadline? {
        DeadlineSeesSuccess(before, e.probe);
        OneMoreOutcome(Outcomes(before), Succeeds(before, e.probe));
      } else {
        assert Outcomes(events) == Outcomes(before);
      }
    }
  }

  lemma LastThreeByTrailing(outcomes: seq<bool>)
    ensures LastThree(outcomes) <==> Trailing(outcomes) < FAILURE_THRESHOLD && Trailing(outcomes) < |outcomes|
  {
    var n := Trailing(outcomes);
    if n < FAILURE_THRESHOLD && n < |outcomes| {
      assert outcomes[|outcomes| - n - 1];
    }
  }

  // At every deadline of every run, the caller is told "ready" exactly when this probe or one of the two
  // completed before it succeeded.
  lemma ReadyIsOneOfLastThree(before: seq<Event>, p: nat)
    requires IsRun(before) && Possible(After(before), Deadline(p))
    ensures ReportAt(After(before), p).Ready? <==> LastThree(Outcomes(before) + [Succeeds(before, p)])
  {
    var events := before + [Deadline(p)];
    assert Before(events) == before && Last(events) == Deadline(p);
    CountsTrailing(events);
  }

  // One bad probe, or two in a row, never take a service out of rotation; three in a row always do.
  lemma FlapsAreDamped(before: seq<Event>, p: nat)
    requires IsRun(before) && Possible(After(before), Deadline(p)) && !Succeeds(before, p)
    ensures var outcomes := Outcomes(before);
      ReportAt(After(before), p).NotReady? <==>
        (|outcomes| < 1 || !outcomes[|outcomes| - 1]) && (|outcomes| < 2 || !outcomes[|outcomes| - 2])
  {
    ReadyIsOneOfLastThree(before, p);
    var outcomes := Outcomes(before);
    var now := outcomes + [false];
    assert forall i :: 0 <= i < |outcomes| ==> now[i] == outcomes[i];
  }
}
