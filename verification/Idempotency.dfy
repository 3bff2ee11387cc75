/**
 The idempotency reservation protocol: many clients share one table, a check is two separate
 statements, and updates, clears and purges run between them.

 `State` is the table plus the calls in flight, `Next` the effect of one atomic event, and a run a
 sequence of states joined by events. The class at the end performs the same events step by step.
 */
module Idempotency {
  import opened Options

  type Time = int  // microseconds since the epoch

  const MICROS_PER_SECOND := 1_000_000

  datatype Json = Null | Value(text: string)

  // What the response_snapshot column holds once it is not NULL: the stored response, or text the
  // JSON reader refuses.
  datatype Snapshot = Cached(response: Json) | Unreadable

  datatype Row = Row(hash: string, snapshot: Option<Snapshot>, expireAt: Option<Time>)

  type Table = map<string, Row>

  datatype Verdict = Started | Replay(response: Json) | InProgress | Conflict | Error

  // One call of checkDatabase. `expiresAt` is computed when the call begins, `now` when the SELECT
  // is built; both come from the client's clock.
  datatype Call =
    | Reserving(key: string, hash: string, expiresAt: Time)
    | Taken(key: string, hash: string, expiresAt: Time)
    | Selecting(key: string, hash: string, expiresAt: Time, now: Time)
    | Decided(key: string, hash: string, expiresAt: Time, verdict: Verdict)

  datatype State = State(table: Table, calls: map<nat, Call>)

  datatype Event =
    | Begin(id: nat, key: string, hash: string, clock: Time)
    | Reserve(id: nat)
    | ReserveFails(id: nat)
    | Lookup(id: nat, clock: Time)
    | LookupFails(id: nat)
    | Select(id: nat)
    | SelectFails(id: nat)
    | Update(key: string, hash: string, response: Json)
    | Clear(key: string, hash: string)
    | Purge(dbClock: Time)
    | StatementFails

  // The TTL filter of the SELECT, on the client's clock.
  predicate Live(row: Row, now: Time) {
    row.expireAt == None || row.expireAt.value > now
  }

  // The WHERE clause of the purge, on the database's clock.
  predicate Purgeable(row: Row, dbClock: Time) {
    row.expireAt.Some? && row.expireAt.value < dbClock
  }

  predicate Answered(row: Row) {
    row.snapshot.Some? && row.snapshot.value.Cached? && row.snapshot.value.response != Null
  }

  // What the row found under `key` means for a request with this hash.
  function Read(table: Table, key: string, hash: string, now: Time): Verdict {
    if key !in table || !Live(table[key], now) then Error
    else if table[key].hash != hash then Conflict
    else if Answered(table[key]) then Replay(table[key].snapshot.value.response)
    else InProgress
  }

  function Filled(row: Row, response: Json): Row {
    row.(snapshot := Some(Cached(response)))
  }

  predicate Fills(table: Table, key: string, hash: string) {
    key in table && table[key].hash == hash
  }

  predicate Clears(table: Table, key: string, hash: string) {
    key != "" && Fills(table, key, hash) && table[key].snapshot == None
  }

  predicate Enabled(s: State, e: Event) {
    match e
    case Begin(id, _, _, _) => id !in s.calls
    case Reserve(id) => id in s.calls && s.calls[id].Reserving?
    case ReserveFails(id) => id in s.calls && s.calls[id].Reserving?
    case Lookup(id, _) => id in s.calls && s.calls[id].Taken?
    case LookupFails(id) => id in s.calls && s.calls[id].Taken?
    case Select(id) => id in s.calls && s.calls[id].Selecting?
    case SelectFails(id) => id in s.calls && s.calls[id].Selecting?
    case _ => true
  }

  function Decide(s: State, id: nat, verdict: Verdict): State
    requires id in s.calls
  {
    var c := s.calls[id];
    s.(calls := s.calls[id := Decided(c.key, c.hash, c.expiresAt, verdict)])
  }

  function Next(ttl: int, s: State, e: Event): State
    requires Enabled(s, e)
  {
    match e
    case Begin(id, key, hash, clock) =>
      var expiresAt := clock + ttl * MICROS_PER_SECOND;
      var call := if key == "" then Decided(key, hash, expiresAt, Started) else Reserving(key, hash, expiresAt);
      s.(calls := s.calls[id := call])
    case Reserve(id) =>
      var c := s.calls[id];
      if c.key in s.table then s.(calls := s.calls[id := Taken(c.key, c.hash, c.expiresAt)])
      else Decide(s.(table := s.table[c.key := Row(c.hash, None, Some(c.expiresAt))]), id, Started)
    case Lookup(id, clock) =>
      var c := s.calls[id];
      s.(calls := s.calls[id := Selecting(c.key, c.hash, c.expiresAt, clock)])
    case Select(id) =>
      var c := s.calls[id];
      Decide(s, id, Read(s.table, c.key, c.hash, c.now))
    case ReserveFails(id) => Decide(s, id, Error)
    case LookupFails(id) => Decide(s, id, Error)
    case SelectFails(id) => Decide(s, id, Error)
    case Update(key, hash, response) =>
      if Fills(s.table, key, hash) then s.(table := s.table[key := Filled(s.table[key], response)]) else s
    case Clear(key, hash) =>
      if Clears(s.table, key, hash) then s.(table := s.table - {key}) else s
    case Purge(dbClock) =>
      s.(table := map key | key in s.table && !Purgeable(s.table[key], dbClock) :: s.table[key])
    case StatementFails => s
  }

  ghost predicate IsRun(ttl: int, ss: seq<State>, es: seq<Event>) {
    && |ss| == |es| + 1
    && ss[0].calls == map[]
    && forall i :: 0 <= i < |es| ==> Enabled(ss[i], es[i]) && ss[i + 1] == Next(ttl, ss[i], es[i])
  }

  // ------------------------------------------------------------------ linearizability

  // The id and verdict of the call that event `e` answers, if it answers one.
  function Answer(s: State, e: Event): Option<(nat, Verdict)>
    requires Enabled(s, e)
  {
    match e
    case Begin(id, key, _, _) => if key == "" then Some((id, Started)) else None
    case Reserve(id) => if s.calls[id].key in s.table then None else Some((id, Started))
    case ReserveFails(id) => Some((id, Error))
    case LookupFails(id) => Some((id, Error))
    case Select(id) => Some((id, Read(s.table, s.calls[id].key, s.calls[id].hash, s.calls[id].now)))
    case SelectFails(id) => Some((id, Error))
    case _ => None
  }

  // The response that a stored snapshot holds, Null when it holds none.
  function ResponseIn(snapshot: Option<Snapshot>): Json {
    match snapshot
    case Some(Cached(response)) => response
    case _ => Null
  }

  // The verdict that a row bearing `owner` and holding `response` has for a request with this hash.
  function VerdictFor(owner: string, response: Json, expireAt: Option<Time>, hash: string, now: Time): Verdict {
    if expireAt.Some? && expireAt.value <= now then Error
    else if owner != hash then Conflict
    else match response case Null => InProgress case Value(_) => Replay(response)
  }

  // The check as one indivisible step: reserve a free key, or report on the row that holds it.
  function AtomicCheck(table: Table, key: string, hash: string, expiresAt: Time, now: Time): (Table, Verdict) {
    if key == "" then (table, Started)
    else if key !in table then (table[key := Row(hash, None, Some(expiresAt))], Started)
    else
      var row := table[key];
      (table, VerdictFor(row.hash, ResponseIn(row.snapshot), row.expireAt, hash, now))
  }

  datatype Op =
    | Check(key: string, hash: string, expiresAt: Time, now: Time, verdict: Verdict)
    | Write(e: Event)
    | Skip

  // The atomic machine: checks are indivisible, the other statements are as before.
  ghost predicate AtomicStep(ttl: int, t: Table, op: Op, t': Table) {
    match op
    case Check(key, hash, expiresAt, now, verdict) => (t', verdict) == AtomicCheck(t, key, hash, expiresAt, now)
    case Write(e) => (e.Update? || e.Clear? || e.Purge?) && t' == Next(ttl, State(t, map[]), e).table
    case Skip => t' == t
  }

  // Where each event of the two-statement protocol takes effect in the atomic machine.
  function Linearized(ttl: int, s: State, e: Event): Op
    requires Enabled(s, e)
  {
    match Answer(s, e)
    case Some((id, verdict)) =>
      if verdict == Error then Skip
      else
        var c := Next(ttl, s, e).calls[id];
        Check(c.key, c.hash, c.expiresAt, if e.Select? then s.calls[id].now else 0, verdict)
    case None => if e.Update? || e.Clear? || e.Purge? then Write(e) else Skip
  }

  // Call `id` was begun by event `b` with the values its record still carries.
  ghost predicate BegunAt(ttl: int, es: seq<Event>, b: nat, id: nat, c: Call) {
    b < |es| &&
    exists clock :: es[b] == Begin(id, c.key, c.hash, clock) && c.expiresAt == clock + ttl * MICROS_PER_SECOND
  }

  lemma {:induction false} CallsWereBegun(ttl: int, ss: seq<State>, es: seq<Event>, n: nat, id: nat) returns (b: nat)
    requires IsRun(ttl, ss, es) && n <= |es| && id in ss[n].calls
    ensures b < n && BegunAt(ttl, es, b, id, ss[n].calls[id])
  {
    assert ss[n] == Next(ttl, ss[n - 1], es[n - 1]);
    if id in ss[n - 1].calls {
      b := CallsWereBegun(ttl, ss, es, n - 1, id);
    } else {
      b := n - 1;
    }
  }

  // The SELECT of call `id` was built by a Lookup after the call began, with the clock it read then.
  lemma {:induction false} ClocksWereRead(ttl: int, ss: seq<State>, es: seq<Event>, b: nat, n: nat, id: nat)
    returns (r: nat)
    requires IsRun(ttl, ss, es) && b < n <= |es| && es[b].Begin? && es[b].id == id
    requires id in ss[n].calls && ss[n].calls[id].Selecting?
    ensures b < r < n && es[r] == Lookup(id, ss[n].calls[id].now)
  {
    assert ss[n] == Next(ttl, ss[n - 1], es[n - 1]);
    if es[n - 1].Lookup? && es[n - 1].id == id {
      r := n - 1;
      assert id !in ss[b].calls;
    } else {
      r := ClocksWereRead(ttl, ss, es, b, n - 1, id);
    }
  }

  lemma {:induction false} DecidedStays(ttl: int, ss: seq<State>, es: seq<Event>, i: nat, n: nat, id: nat)
    requires IsRun(ttl, ss, es) && i <= n <= |es|
    requires id in ss[i].calls && ss[i].calls[id].Decided?
    ensures id in ss[n].calls && ss[n].calls[id] == ss[i].calls[id]
    decreases n - i
  {
    if i < n {
      assert ss[i + 1] == Next(ttl, ss[i], es[i]);
      DecidedStays(ttl, ss, es, i + 1, n, id);
    }
  }

  lemma {:induction false} KeyNotEmpty(ttl: int, ss: seq<State>, es: seq<Event>, n: nat, id: nat)
    requires IsRun(ttl, ss, es) && n <= |es| && id in ss[n].calls && !ss[n].calls[id].Decided?
    ensures ss[n].calls[id].key != ""
  {
    assert ss[n] == Next(ttl, ss[n - 1], es[n - 1]);
    if id in ss[n - 1].calls && !ss[n - 1].calls[id].Decided? {
      KeyNotEmpty(ttl, ss, es, n - 1, id);
    }
  }

  // Every interleaved run is, event by event, a run of the atomic machine over the same tables.
  lemma RefinesAtomicChecks(ttl: int, ss: seq<State>, es: seq<Event>)
    requires IsRun(ttl, ss, es)
    ensures forall i :: 0 <= i < |es| ==>
      AtomicStep(ttl, ss[i].table, Linearized(ttl, ss[i], es[i]), ss[i + 1].table)
  {
    forall i | 0 <= i < |es|
      ensures AtomicStep(ttl, ss[i].table, Linearized(ttl, ss[i], es[i]), ss[i + 1].table)
    {
      assert ss[i + 1] == Next(ttl, ss[i], es[i]);
      if es[i].Reserve? || es[i].Select? {
        KeyNotEmpty(ttl, ss, es, i, es[i].id);
      }
    }
  }

  // An event answers a call exactly when it puts the verdict on the call's record, for the first time.
  lemma AnswersAreDelivered(ttl: int, ss: seq<State>, es: seq<Event>, i: nat, id: nat, v: Verdict)
    requires IsRun(ttl, ss, es) && i < |es|
    ensures Answer(ss[i], es[i]) == Some((id, v))
      <==> && id in ss[i + 1].calls && ss[i + 1].calls[id].Decided? && ss[i + 1].calls[id].verdict == v
           && !(id in ss[i].calls && ss[i].calls[id].Decided?)
  {
    assert ss[i + 1] == Next(ttl, ss[i], es[i]);
  }

  // A verdict other than Error is the verdict of one atomic check of the values the call was begun
  // with, run at the deciding statement; that statement lies inside the call, and a SELECT judges
  // expiry by a clock read inside the call. Error is the verdict exactly when a statement fails or the
  // SELECT finds no live row. No call is answered twice.
  lemma VerdictsAreAtomic(ttl: int, ss: seq<State>, es: seq<Event>, i: nat, id: nat, v: Verdict)
    returns (b: nat, clock: Time, c: Call)
    requires IsRun(ttl, ss, es) && i < |es| && Answer(ss[i], es[i]) == Some((id, v))
    ensures b <= i && es[b] == Begin(id, c.key, c.hash, clock) && c.expiresAt == clock + ttl * MICROS_PER_SECOND
    ensures v == Started ==> forall now ::
      AtomicCheck(ss[i].table, c.key, c.hash, c.expiresAt, now) == (ss[i + 1].table, v)
    ensures v != Started && v != Error ==> exists r, now ::
      && b < r < i && es[r] == Lookup(id, now)
      && AtomicCheck(ss[i].table, c.key, c.hash, c.expiresAt, now) == (ss[i + 1].table, v)
    ensures v != Error ==> exists now :: Linearized(ttl, ss[i], es[i]) == Check(c.key, c.hash, c.expiresAt, now, v)
    ensures v == Error <==>
      || es[i] == ReserveFails(id) || es[i] == LookupFails(id) || es[i] == SelectFails(id)
      || (es[i] == Select(id) && exists r, now ::
            && b < r < i && es[r] == Lookup(id, now) && ss[i].calls[id].now == now
            && (c.key in ss[i].table ==>
                  ss[i].table[c.key].expireAt.Some? && ss[i].table[c.key].expireAt.value <= now))
    ensures forall j, w :: 0 <= j < |es| && Answer(ss[j], es[j]) == Some((id, w)) ==> j == i
  {
    assert ss[i + 1] == Next(ttl, ss[i], es[i]);
    RefinesAtomicChecks(ttl, ss, es);
    c := ss[i + 1].calls[id];
    b := CallsWereBegun(ttl, ss, es, i + 1, id);
    clock := c.expiresAt - ttl * MICROS_PER_SECOND;
    if !es[i].Begin? {
      KeyNotEmpty(ttl, ss, es, i, id);
    }
    if es[i].Select? {
      var r := ClocksWereRead(ttl, ss, es, b, i, id);
      assert es[r] == Lookup(id, ss[i].calls[id].now);
    }
    forall j, w | 0 <= j < |es| && Answer(ss[j], es[j]) == Some((id, w)) ensures j == i {
      assert ss[j + 1] == Next(ttl, ss[j], es[j]);
      if j < i {
        DecidedStays(ttl, ss, es, j + 1, i, id);
      } else if i < j {
        DecidedStays(ttl, ss, es, i + 1, j, id);
      }
    }
  }

  // ------------------------------------------------------------------ conservation

  function Ticks(flag: bool): nat {
    if flag then 1 else 0
  }

  predicate StartsAt(ttl: int, s: State, e: Event, key: string)
    requires Enabled(s, e)
  {
    match Answer(s, e)
    case Some((id, verdict)) => verdict == Started && Next(ttl, s, e).calls[id].key == key
    case None => false
  }

  // The Started verdicts on `key` among the first n events.
  ghost function Starts(ttl: int, ss: seq<State>, es: seq<Event>, key: string, n: nat): nat
    requires IsRun(ttl, ss, es) && n <= |es|
  {
    if n == 0 then 0
    else Starts(ttl, ss, es, key, n - 1) + Ticks(StartsAt(ttl, ss[n - 1], es[n - 1], key))
  }

  // The rows of `key` removed by the first n events.
  ghost function Deletions(ttl: int, ss: seq<State>, es: seq<Event>, key: string, n: nat): nat
    requires IsRun(ttl, ss, es) && n <= |es|
  {
    if n == 0 then 0
    else Deletions(ttl, ss, es, key, n - 1) + Ticks(key in ss[n - 1].table && key !in ss[n].table)
  }

  lemma {:induction false} ReservationsAreConserved(ttl: int, ss: seq<State>, es: seq<Event>, key: string, n: nat)
    requires IsRun(ttl, ss, es) && n <= |es| && key != ""
    ensures Starts(ttl, ss, es, key, n) + Ticks(key in ss[0].table)
         == Deletions(ttl, ss, es, key, n) + Ticks(key in ss[n].table)
  {
    if n > 0 {
      ReservationsAreConserved(ttl, ss, es, key, n - 1);
      assert ss[n] == Next(ttl, ss[n - 1], es[n - 1]);
    }
  }

  // The only two ways a row leaves the table.
  predicate Removes(s: State, e: Event, key: string) {
    && key in s.table
    && var row := s.table[key];
       || (e == Clear(key, row.hash) && key != "" && row.snapshot == None)
       || (e.Purge? && row.expireAt.Some? && row.expireAt.value < e.dbClock)
  }

  // And each of them removes it.
  lemma RemovesExactly(ttl: int, ss: seq<State>, es: seq<Event>, i: nat, key: string)
    requires IsRun(ttl, ss, es) && i < |es| && key in ss[i].table
    ensures key !in ss[i + 1].table <==> Removes(ss[i], es[i], key)
  {
    assert ss[i + 1] == Next(ttl, ss[i], es[i]);
  }

  lemma {:induction false} RowsLeaveByClearOrPurge(
    ttl: int, ss: seq<State>, es: seq<Event>, key: string, i: nat, j: nat)
    returns (d: nat)
    requires IsRun(ttl, ss, es) && i <= j <= |es| && key in ss[i].table && key !in ss[j].table
    ensures i <= d < j && Removes(ss[d], es[d], key) && key !in ss[d + 1].table
  {
    assert ss[j] == Next(ttl, ss[j - 1], es[j - 1]);
    if key in ss[j - 1].table {
      d := j - 1;
    } else {
      d := RowsLeaveByClearOrPurge(ttl, ss, es, key, i, j - 1);
    }
  }

  // Two Started verdicts on one key have a clear of an unanswered row, or a purge of an expired
  // one, between them.
  lemma StartsAreSeparated(ttl: int, ss: seq<State>, es: seq<Event>, key: string, i: nat, j: nat) returns (d: nat)
    requires IsRun(ttl, ss, es) && key != "" && i < j < |es|
    requires StartsAt(ttl, ss[i], es[i], key) && StartsAt(ttl, ss[j], es[j], key)
    ensures i < d < j && Removes(ss[d], es[d], key)
  {
    assert ss[i + 1] == Next(ttl, ss[i], es[i]) && ss[j + 1] == Next(ttl, ss[j], es[j]);
    d := RowsLeaveByClearOrPurge(ttl, ss, es, key, i + 1, j);
  }

  // ------------------------------------------------------------------ replays

  // Event j stored `response` in the row of `key` and `hash`, and up to n that row was neither
  // deleted nor stored into again.
  ghost predicate LatestStore(
    ss: seq<State>, es: seq<Event>, j: nat, n: nat, key: string, hash: string, response: Json)
  {
    && j < n <= |es| < |ss|
    && es[j] == Update(key, hash, response) && Fills(ss[j].table, key, hash)
    && (forall k :: j <= k <= n ==> key in ss[k].table)
    && (forall k :: j < k < n ==> !(es[k].Update? && es[k].key == key && es[k].hash == hash))
  }

  // The row of `key` is the one the run began with, and nothing was stored into it.
  ghost predicate Untouched(ss: seq<State>, n: nat, key: string) {
    n < |ss| && key in ss[0].table &&
    forall k :: 0 <= k <= n ==> key in ss[k].table && ss[k].table[key] == ss[0].table[key]
  }

  lemma {:induction false} SnapshotsWereStored(ttl: int, ss: seq<State>, es: seq<Event>, n: nat, key: string)
    requires IsRun(ttl, ss, es) && n <= |es| && key in ss[n].table && ss[n].table[key].snapshot.Some?
    ensures || Untouched(ss, n, key)
            || (ss[n].table[key].snapshot.value.Cached? &&
                var row := ss[n].table[key];
                exists j :: LatestStore(ss, es, j, n, key, row.hash, row.snapshot.value.response))
  {
    if n > 0 {
      var e := es[n - 1];
      assert ss[n] == Next(ttl, ss[n - 1], e);
      var row := ss[n].table[key];
      if e.Update? && e.key == key && Fills(ss[n - 1].table, key, e.hash) {
        assert LatestStore(ss, es, n - 1, n, key, row.hash, row.snapshot.value.response);
      } else {
        assert key in ss[n - 1].table && ss[n - 1].table[key] == row;
        SnapshotsWereStored(ttl, ss, es, n - 1, key);
        if !Untouched(ss, n - 1, key) {
          var j :| LatestStore(ss, es, j, n - 1, key, row.hash, row.snapshot.value.response);
          assert LatestStore(ss, es, j, n, key, row.hash, row.snapshot.value.response);
        }
      }
    }
  }

  // A replay returns the latest response stored under the same key and hash into the current row.
  lemma ReplaysAreLatestStored(ttl: int, ss: seq<State>, es: seq<Event>, i: nat, id: nat, response: Json)
    requires IsRun(ttl, ss, es) && i < |es| && Answer(ss[i], es[i]) == Some((id, Replay(response)))
    ensures response != Null
    ensures id in ss[i].calls && var c := ss[i].calls[id];
      || (exists j :: LatestStore(ss, es, j, i, c.key, c.hash, response))
      || (Untouched(ss, i, c.key) && ss[0].table[c.key].hash == c.hash &&
          ss[0].table[c.key].snapshot == Some(Cached(response)))
  {
    SnapshotsWereStored(ttl, ss, es, i, ss[i].calls[id].key);
  }

  // What an update of (key, hash) among the first n events from a on stored last; r0 if none did.
  ghost function LastStored(es: seq<Event>, a: nat, n: nat, key: string, hash: string, r0: Json): Json
    requires a <= n <= |es|
    decreases n - a
  {
    if n == a then r0
    else
      var e := es[n - 1];
      if e.Update? && e.key == key && e.hash == hash then e.response
      else LastStored(es, a, n - 1, key, hash, r0)
  }

  // A row that stays from a to n keeps its hash and expiry, and holds what was last stored under its key and
  // hash.
  lemma {:induction false} RowsFollowUpdates(ttl: int, ss: seq<State>, es: seq<Event>, a: nat, n: nat, key: string)
    requires IsRun(ttl, ss, es) && a <= n <= |es| && forall k :: a <= k <= n ==> key in ss[k].table
    ensures var row, later := ss[a].table[key], ss[n].table[key];
      && later.hash == row.hash && later.expireAt == row.expireAt
      && ResponseIn(later.snapshot) == LastStored(es, a, n, key, row.hash, ResponseIn(row.snapshot))
    decreases n - a
  {
    if a < n {
      RowsFollowUpdates(ttl, ss, es, a, n - 1, key);
      assert ss[n] == Next(ttl, ss[n - 1], es[n - 1]);
    }
  }

  // A row is there since the run began, or since a call begun with its key and hash reserved it, unanswered
  // and with the expiry counted from the call's own clock.
  lemma {:induction false} RowsWereReserved(ttl: int, ss: seq<State>, es: seq<Event>, n: nat, key: string)
    returns (j: nat, b: nat, hash: string, clock: Time)
    requires IsRun(ttl, ss, es) && n <= |es| && key in ss[n].table
    ensures j <= n && forall k :: j <= k <= n ==> key in ss[k].table
    ensures j > 0 ==>
      && b < j - 1 && es[j - 1].Reserve? && es[b] == Begin(es[j - 1].id, key, hash, clock)
      && key !in ss[j - 1].table
      && ss[j].table[key] == Row(hash, None, Some(clock + ttl * MICROS_PER_SECOND))
  {
    j, b, hash, clock := 0, 0, "", 0;
    if n > 0 {
      var e := es[n - 1];
      assert ss[n] == Next(ttl, ss[n - 1], e);
      if key in ss[n - 1].table {
        j, b, hash, clock := RowsWereReserved(ttl, ss, es, n - 1, key);
      } else {
        b := CallsWereBegun(ttl, ss, es, n - 1, e.id);
        j, hash, clock := n, es[b].hash, es[b].clock;
      }
    }
  }

  // A call keeps what it was begun with, and its SELECT the clock that was read for it.
  lemma {:induction false} CallsKeepTheirValues(
    ttl: int, ss: seq<State>, es: seq<Event>, b: nat, n: nat, id: nat, key: string, hash: string, clock: Time)
    requires IsRun(ttl, ss, es) && b < n <= |es| && es[b] == Begin(id, key, hash, clock)
    ensures id in ss[n].calls
    ensures var c := ss[n].calls[id];
      c.key == key && c.hash == hash && c.expiresAt == clock + ttl * MICROS_PER_SECOND
    decreases n - b
  {
    assert ss[n] == Next(ttl, ss[n - 1], es[n - 1]);
    if b < n - 1 {
      CallsKeepTheirValues(ttl, ss, es, b, n - 1, id, key, hash, clock);
    }
  }

  lemma {:induction false} ClocksAreKept(
    ttl: int, ss: seq<State>, es: seq<Event>, r: nat, n: nat, id: nat, now: Time)
    requires IsRun(ttl, ss, es) && r < n <= |es| && es[r] == Lookup(id, now)
    ensures id in ss[n].calls
    ensures var c := ss[n].calls[id]; c.Decided? || (c.Selecting? && c.now == now)
    decreases n - r
  {
    assert ss[n] == Next(ttl, ss[n - 1], es[n - 1]);
    if r < n - 1 {
      ClocksAreKept(ttl, ss, es, r, n - 1, id, now);
    }
  }

  // The verdict of a SELECT on a row that is there since a: by the hash its own call was begun with, the
  // clock it read, and what was stored under the row's hash.
  lemma SelectsFollowHistory(
    ttl: int, ss: seq<State>, es: seq<Event>, a: nat, i: nat, key: string,
    b: nat, r: nat, id: nat, hash: string, clock: Time, now: Time)
    requires IsRun(ttl, ss, es) && a <= i < |es| && forall k :: a <= k <= i ==> key in ss[k].table
    requires b < r < i && es[b] == Begin(id, key, hash, clock) && es[r] == Lookup(id, now) && es[i] == Select(id)
    ensures id in ss[i + 1].calls && ss[i + 1].calls[id].Decided?
    ensures var row := ss[a].table[key];
      ss[i + 1].calls[id].verdict
      == VerdictFor(
           row.hash, LastStored(es, a, i, key, row.hash, ResponseIn(row.snapshot)), row.expireAt, hash, now)
  {
    assert ss[i + 1] == Next(ttl, ss[i], es[i]);
    RowsFollowUpdates(ttl, ss, es, a, i, key);
    CallsKeepTheirValues(ttl, ss, es, b, i, id, key, hash, clock);
    ClocksAreKept(ttl, ss, es, r, i, id, now);
  }

  // While the row that a call begun with `hash` reserved is there and unexpired, every other call is told by
  // the hash it was begun with: a different one conflicts, the same one is in progress until a response is
  // stored and then gets the latest.
  lemma ReservedKeysAnswer(
    ttl: int, ss: seq<State>, es: seq<Event>, b0: nat, j: nat, i: nat, key: string, owner: string, clock0: Time,
    b: nat, r: nat, id: nat, hash: string, clock: Time, now: Time)
    requires IsRun(ttl, ss, es) && b0 < j < i < |es|
    requires es[j].Reserve? && es[b0] == Begin(es[j].id, key, owner, clock0) && key !in ss[j].table
    requires forall k :: j < k <= i ==> key in ss[k].table
    requires b < r < i && es[b] == Begin(id, key, hash, clock) && es[r] == Lookup(id, now) && es[i] == Select(id)
    requires now < clock0 + ttl * MICROS_PER_SECOND
    ensures id in ss[i + 1].calls && ss[i + 1].calls[id].Decided?
    ensures var v, last := ss[i + 1].calls[id].verdict, LastStored(es, j + 1, i, key, owner, Null);
      && (v == Conflict <==> hash != owner)
      && (v == InProgress <==> hash == owner && last == Null)
      && (v == Replay(last) <==> hash == owner && last != Null)
  {
    assert ss[j + 1] == Next(ttl, ss[j], es[j]);
    CallsKeepTheirValues(ttl, ss, es, b0, j, es[j].id, key, owner, clock0);
    SelectsFollowHistory(ttl, ss, es, j + 1, i, key, b, r, id, hash, clock, now);
  }

  // From a to n the database's clock does not pass the row's expiry at a purge, and no null
  // response is stored under its key and hash.
  ghost predicate Quiet(es: seq<Event>, a: nat, n: nat, key: string, row: Row) {
    && a <= n <= |es|
    && forall k :: a <= k < n ==>
      && (es[k].Purge? && row.expireAt.Some? ==> es[k].dbClock <= row.expireAt.value)
      && (es[k].Update? && es[k].key == key && es[k].hash == row.hash ==> es[k].response != Null)
  }

  lemma {:induction false} AnsweredRowsStay(ttl: int, ss: seq<State>, es: seq<Event>, a: nat, n: nat, key: string)
    requires IsRun(ttl, ss, es) && a <= n <= |es| && key in ss[a].table && ResponseIn(ss[a].table[key].snapshot) != Null
    requires Quiet(es, a, n, key, ss[a].table[key])
    ensures key in ss[n].table
    ensures var row := ss[a].table[key];
      var last := LastStored(es, a, n, key, row.hash, ResponseIn(row.snapshot));
      last != Null && ss[n].table[key] == Filled(row, last)
    decreases n - a
  {
    if a < n {
      AnsweredRowsStay(ttl, ss, es, a, n - 1, key);
      assert ss[n] == Next(ttl, ss[n - 1], es[n - 1]);
    }
  }

  // Once a non-null response is stored, and until the row's expiry passes on either clock, a request
  // with the same hash is answered with the latest stored response, one with another hash conflicts,
  // and none starts; clears have no effect.
  lemma AnsweredKeysReplay(ttl: int, ss: seq<State>, es: seq<Event>, a: nat, i: nat, key: string, id: nat, v: Verdict)
    requires IsRun(ttl, ss, es) && a <= i < |es| && key in ss[a].table && ResponseIn(ss[a].table[key].snapshot) != Null
    requires Quiet(es, a, i, key, ss[a].table[key])
    requires Answer(ss[i], es[i]) == Some((id, v)) && id in ss[i].calls && ss[i].calls[id].key == key
    requires es[i].Select? ==>
      var row := ss[a].table[key]; row.expireAt.Some? ==> ss[i].calls[id].now < row.expireAt.value
    ensures es[i].Select? || v == Error
    ensures es[i].Select? ==>
      var row := ss[a].table[key];
      v == if ss[i].calls[id].hash == row.hash
           then Replay(LastStored(es, a, i, key, row.hash, ResponseIn(row.snapshot)))
           else Conflict
  {
    AnsweredRowsStay(ttl, ss, es, a, i, key);
  }

  lemma {:induction false} RowsKeepTheirExpiry(ttl: int, ss: seq<State>, es: seq<Event>, a: nat, n: nat, key: string)
    requires IsRun(ttl, ss, es) && a <= n <= |es|
    requires forall k :: a <= k <= n ==> key in ss[k].table
    ensures ss[n].table[key].expireAt == ss[a].table[key].expireAt && ss[n].table[key].hash == ss[a].table[key].hash
    decreases n - a
  {
    if a < n {
      RowsKeepTheirExpiry(ttl, ss, es, a, n - 1, key);
      assert ss[n] == Next(ttl, ss[n - 1], es[n - 1]);
    }
  }

  // While an expired row waits for the purge, every check whose SELECT reads the clock past the
  // expiry is answered Error: it neither replays nor starts afresh.
  lemma ExpiredKeysError(ttl: int, ss: seq<State>, es: seq<Event>, a: nat, i: nat, key: string, id: nat, v: Verdict)
    requires IsRun(ttl, ss, es) && a <= i < |es|
    requires forall k :: a <= k <= i ==> key in ss[k].table
    requires Answer(ss[i], es[i]) == Some((id, v)) && id in ss[i].calls && ss[i].calls[id].key == key
    requires es[i].Select? ==>
      var row := ss[a].table[key]; row.expireAt.Some? && row.expireAt.value <= ss[i].calls[id].now
    ensures v == Error
  {
    RowsKeepTheirExpiry(ttl, ss, es, a, i, key);
  }

  // ------------------------------------------------------------------ the service

  /**
   The service's table and its calls in flight. Each method is one event: a request arriving, a
   statement taking effect, or an answer reaching the client.
   */
  class IdempotencyService {
    const ttlSeconds: int
    var table: Table
    var calls: map<nat, Call>

    constructor (ttlSeconds: int, table: Table)
      ensures this.ttlSeconds == ttlSeconds && View() == State(table, map[])
    {
      this.ttlSeconds := ttlSeconds;
      this.table := table;
      this.calls := map[];
    }

    function View(): State
      reads this
    {
      State(table, calls)
    }

    // Records the verdict of call `id`, which its callback receives.
    method Deliver(id: nat, verdict: Verdict)
      requires id in calls
      modifies this`calls
      ensures View() == Decide(old(View()), id, verdict)
    {
      var c := calls[id];
      calls := calls[id := Decided(c.key, c.hash, c.expiresAt, verdict)];
    }

    method CheckDatabase(id: nat, key: string, hash: string, clock: Time)
      requires Enabled(View(), Begin(id, key, hash, clock))
      modifies this`calls
      ensures View() == Next(ttlSeconds, old(View()), Begin(id, key, hash, clock))
    {
      var expiresAt := clock + ttlSeconds * MICROS_PER_SECOND;
      if key == "" {
        calls := calls[id := Decided(key, hash, expiresAt, Started)];
        return;
      }
      calls := calls[id := Reserving(key, hash, expiresAt)];
    }

    // The INSERT ... ON CONFLICT DO NOTHING and the branch on its affected-row count.
    method OnReserve(id: nat)
      requires Enabled(View(), Reserve(id))
      modifies this
      ensures View() == Next(ttlSeconds, old(View()), Reserve(id))
    {
      var c := calls[id];
      var affectedRows := 0;
      if c.key !in table {
        table := table[c.key := Row(c.hash, None, Some(c.expiresAt))];
        affectedRows := 1;
      }
      if affectedRows > 0 {
        Deliver(id, Started);
        return;
      }
      calls := calls[id := Taken(c.key, c.hash, c.expiresAt)];
    }

    method OnTaken(id: nat, clock: Time)
      requires Enabled(View(), Lookup(id, clock))
      modifies this`calls
      ensures View() == Next(ttlSeconds, old(View()), Lookup(id, clock))
    {
      var c := calls[id];
      calls := calls[id := Selecting(c.key, c.hash, c.expiresAt, clock)];
    }

    // The filtered SELECT and the verdict on its rows.
    method OnSelect(id: nat)
      requires Enabled(View(), Select(id))
      modifies this`calls
      ensures View() == Next(ttlSeconds, old(View()), Select(id))
    {
      var c := calls[id];
      var rows: seq<Row> := [];
      if c.key in table && (table[c.key].expireAt == None || table[c.key].expireAt.value > c.now) {
        rows := [table[c.key]];
      }
      if rows != [] {
        if rows[0].hash == c.hash {
          if rows[0].snapshot == None {
            Deliver(id, InProgress);
            return;
          }
          var parsed := rows[0].snapshot.value;
          if parsed.Unreadable? || parsed.response == Null {
            Deliver(id, InProgress);
            return;
          }
          Deliver(id, Replay(parsed.response));
        } else {
          Deliver(id, Conflict);
        }
        return;
      }
      Deliver(id, Error);
    }

    method OnFailure(id: nat, e: Event)
      requires e == ReserveFails(id) || e == LookupFails(id) || e == SelectFails(id)
      requires Enabled(View(), e)
      modifies this`calls
      ensures View() == Next(ttlSeconds, old(View()), e)
    {
      Deliver(id, Error);
    }

    method UpdateResult(key: string, hash: string, response: Json) returns (ok: bool)
      modifies this`table
      ensures View() == Next(ttlSeconds, old(View()), Update(key, hash, response))
      ensures ok <==> key in old(table) && old(table)[key].hash == hash
    {
      if key in table && table[key].hash == hash {
        table := table[key := Row(table[key].hash, Some(Cached(response)), table[key].expireAt)];
        ok := true;
      } else {
        ok := false;
      }
    }

    method ClearReservation(key: string, hash: string) returns (ok: bool)
      modifies this`table
      ensures View() == Next(ttlSeconds, old(View()), Clear(key, hash))
      ensures ok <==> key != ""
    {
      if key == "" {
        return false;
      }
      if key in table && table[key].hash == hash && table[key].snapshot == None {
        table := map k | k in table && k != key :: table[k];
      }
      ok := true;
    }

    method PurgeExpired(dbClock: Time)
      modifies this`table
      ensures View() == Next(ttlSeconds, old(View()), Purge(dbClock))
    {
      var expired := set k | k in table && table[k].expireAt.Some? && table[k].expireAt.value < dbClock;
      table := table - expired;
    }
  }
}
