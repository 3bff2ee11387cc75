/**
 The exception barrier around every route: one shared flag decides which of a request's answers, from the
 handler, its asynchronous completions or the barrier's own fault path, reaches the client.
 */
module OnceOnly {
  datatype Response = FromHandler(id: nat) | Fault

  // Where the barrier itself stands: the handler runs; it threw; the flag was read, and read false, so that
  // the fault answer follows; done.
  datatype Barrier = Running | Caught | Faulting | Finished(threw: bool)

  datatype State = State(answered: bool, barrier: Barrier, claimed: seq<Response>, sent: seq<Response>)

  const START := State(false, Running, [], [])

  // Exchange is one call of the shared callback up to its compare-exchange, by the handler or by a
  // completion on any thread, at any time; Send is the client callback of a call that won.
  datatype Event = Exchange(id: nat) | Send | Throw | Return | Load | ExchangeFault

  predicate Possible(s: State, e: Event) {
    match e
    case Exchange(_) => true
    case Send => |s.sent| < |s.claimed|
    case Throw => s.barrier == Running
    case Return => s.barrier == Running
    case Load => s.barrier == Caught
    case ExchangeFault => s.barrier == Faulting
  }

  // onceCb's compare_exchange_strong(false, true).
  function Exchanged(s: State, r: Response): State {
    if s.answered then s else s.(answered := true, claimed := s.claimed + [r])
  }

  function Next(s: State, e: Event): State
    requires Possible(s, e)
  {
    match e
    case Exchange(id) => Exchanged(s, FromHandler(id))
    case Send => s.(sent := s.sent + [s.claimed[|s.sent|]])
    case Throw => s.(barrier := Caught)
    case Return => s.(barrier := Finished(false))
    case Load => s.(barrier := if s.answered then Finished(true) else Faulting)
    case ExchangeFault => Exchanged(s, Fault).(barrier := Finished(true))
  }

  function Before(events: seq<Event>): seq<Event>
    requires events != []
  {
    events[..|events| - 1]
  }

  predicate IsRun(events: seq<Event>)
    decreases |events|, 0
  {
    events == [] || (IsRun(Before(events)) && Possible(After(Before(events)), events[|events| - 1]))
  }

  function After(events: seq<Event>): State
    requires IsRun(events)
    decreases |events|, 1
  {
    if events == [] then START else Next(After(Before(events)), events[|events| - 1])
  }

  // The flag and the barrier of one request, as the source keeps them; `claimed` and `sent` are the answers
  // in the order in which they won and reached the client.
  class Request {
    var answered: bool
    var barrier: Barrier
    var claimed: seq<Response>
    var sent: seq<Response>

    function View(): State
      reads this
    {
      State(answered, barrier, claimed, sent)
    }

    constructor ()
      ensures View() == START
    {
      answered, barrier, claimed, sent := false, Running, [], [];
    }

    // The call of the shared callback up to its exchange; `won` says that the client callback follows.
    method CompareExchange(r: Response) returns (won: bool)
      modifies this
      ensures View() == Exchanged(old(View()), r) && won == !old(answered)
    {
      won := !answered;
      if won {
        answered := true;
        claimed := claimed + [r];
      }
    }

    // A call of the shared callback by the handler or by one of its completions.
    method Complete(id: nat) returns (won: bool)
      modifies this
      ensures View() == Next(old(View()), Exchange(id)) && won == !old(answered)
    {
      won := CompareExchange(FromHandler(id));
    }

    method Deliver()
      requires Possible(View(), Send)
      modifies this
      ensures View() == Next(old(View()), Send)
    {
      sent := sent + [claimed[|sent|]];
    }

    // The catch block's load.
    method CatchBlock()
      requires Possible(View(), Load)
      modifies this
      ensures View() == Next(old(View()), Load)
    {
      barrier := if !answered then Faulting else Finished(true);
    }

    method FaultPath() returns (won: bool)
      requires Possible(View(), ExchangeFault)
      modifies this
      ensures View() == Next(old(View()), ExchangeFault) && won == !old(answered)
    {
      won := CompareExchange(Fault);
      barrier := Finished(true);
    }
  }

  // ------------------------------------------------------------------ the answers of a run

  // The answers put to the flag, in order, whoever won.
  function Offered(events: seq<Event>): seq<Response> {
    if events == [] then []
    else match events[|events| - 1]
      case Exchange(id) => Offered(Before(events)) + [FromHandler(id)]
      case ExchangeFault => Offered(Before(events)) + [Fault]
      case _ => Offered(Before(events))
  }

  // Only the first answer offered is ever claimed, and only a claimed one is sent.
  lemma {:induction false} FirstOfferWins(events: seq<Event>)
    requires IsRun(events)
    ensures var s, offered := After(events), Offered(events);
      && s.claimed == (if offered == [] then [] else [offered[0]])
      && (s.answered <==> offered != [])
      && s.sent <= s.claimed
    decreases |events|
  {
    if events != [] {
      FirstOfferWins(Before(events));
    }
  }

  // In every interleaving the client callback runs at most once, and with the first answer offered.
  lemma ClientHearsOnce(events: seq<Event>)
    requires IsRun(events)
    ensures var s := After(events);
      |s.sent| <= 1 && |s.claimed| <= 1 && s.sent <= s.claimed <= Offered(events)
  {
    FirstOfferWins(events);
  }

  lemma {:induction false} FinishedThrewAnswers(events: seq<Event>)
    requires IsRun(events)
    ensures var s := After(events);
      && (s.barrier == Finished(true) ==> s.answered)
      && (s.barrier == Running || s.barrier == Finished(false) <==> Throw !in events)
      && (Fault in Offered(events) <==> ExchangeFault in events)
      && (ExchangeFault in events ==> s.barrier == Finished(true))
    decreases |events|
  {
    if events != [] {
      var before, e := Before(events), events[|events| - 1];
      FinishedThrewAnswers(before);
      assert events == before + [e];
      assert forall x :: x in events <==> x in before || x == e;
      FirstOfferWins(before);
    }
  }

  // A handler that throws leaves exactly one answer claimed when its barrier is done, even when another
  // thread answers between the barrier's load and its exchange.
  lemma ThrowersAreAnsweredOnce(events: seq<Event>)
    requires IsRun(events) && Throw in events && After(events).barrier.Finished?
    ensures |After(events).claimed| == 1
  {
    FinishedThrewAnswers(events);
    FirstOfferWins(events);
  }

  // The client gets the barrier's 500 exactly when the handler threw and nothing had been answered when the
  // barrier made its exchange.
  lemma FaultsAreUnanswered(before: seq<Event>)
    requires IsRun(before) && Possible(After(before), ExchangeFault)
    ensures var after := before + [ExchangeFault];
      IsRun(after) && (After(after).claimed == [Fault] <==> Offered(before) == [])
    ensures Throw in before
  {
    var after := before + [ExchangeFault];
    assert Before(after) == before;
    FirstOfferWins(before);
    FinishedThrewAnswers(before);
    if Offered(before) != [] {
      assert ExchangeFault !in before;
      FaultIsOffered(before);
    }
  }

  lemma FaultIsOffered(events: seq<Event>)
    requires IsRun(events) && Offered(events) != [] && ExchangeFault !in events
    ensures Offered(events)[0] != Fault
  {
    FinishedThrewAnswers(events);
    assert Offered(events)[0] in Offered(events);
  }

  // After a throw the barrier goes on to its fault answer exactly if nothing has been offered by its load.
  lemma LoadsDecide(before: seq<Event>)
    requires IsRun(before) && Possible(After(before), Load)
    ensures var after := before + [Load];
      IsRun(after) && After(after).barrier == if Offered(before) == [] then Faulting else Finished(true)
  {
    var after := before + [Load];
    assert Before(after) == before;
    FirstOfferWins(before);
  }

  // A handler that returns is never answered by the barrier.
  lemma ReturnersAreNotFaulted(events: seq<Event>)
    requires IsRun(events) && After(events).barrier == Finished(false)
    ensures Fault !in Offered(events) && Fault !in After(events).sent
  {
    FinishedThrewAnswers(events);
    FirstOfferWins(events);
    assert forall r :: r in After(events).sent ==> r in Offered(events);
  }
}
