/** The two-racer dial of src/net/dial.go (section 4 of RFC 6555).  dialParallel
    races the primary addresses against the fallback addresses; the timer, the
    racers and the caller's loop run concurrently. */
module DialParallel {
  import opened Common

  /** What dialSerial returns: a connection, or an error. */
  datatype Outcome = Conn(id: nat) | Fail(err: nat)

  /** A racer: not started, inside dialSerial, in its select with an outcome, or
      finished after its outcome was received or after it saw `returned`. */
  datatype Racer =
    | Idle
    | Dialing
    | Offering(outcome: Outcome)
    | Received(outcome: Outcome)
    | Withdrawn(outcome: Outcome)

  /** The caller: in the select, about to stop the timer, about to reset it,
      running its deferred calls (timer, then `returned`), or back. */
  datatype MainPc =
    | Select
    | StopTimer
    | ResetTimer
    | Leaving(result: Outcome)
    | Closing(result: Outcome)
    | Returned(result: Outcome)

  /** timerActive is what Timer.Stop reports; timerFull says that a tick waits in
      the timer's channel.  primary and fallback are the results the loop has
      recorded.  closed lists the connections that racers closed, ids the
      connections obtained so far, starts the fallback racers started. */
  datatype State = State(
    pc: MainPc, primaryRacer: Racer, fallbackRacer: Racer,
    timerActive: bool, timerFull: bool, returned: bool,
    primary: Option<Outcome>, fallback: Option<Outcome>,
    closed: set<nat>, ids: set<nat>, starts: nat)

  /** dial.go:453-488: the primary racer and the timer have been started. */
  const Init := State(Select, Dialing, Idle, true, false, false, None, None, {}, {}, 0)

  datatype Action =
    | Finish(isPrimary: bool, outcome: Outcome)  // dialSerial returns
    | Tick                                       // the timer fires
    | TakeTick                                   // case <-fallbackTimer.C
    | TakeResult(isPrimary: bool)                // case res := <-results
    | SeeReturned(isPrimary: bool)               // case <-returned
    | Main                                       // the caller's own next step

  function RacerOf(s: State, isPrimary: bool): Racer {
    if isPrimary then s.primaryRacer else s.fallbackRacer
  }

  function SetRacer(s: State, isPrimary: bool, r: Racer): State {
    if isPrimary then s.(primaryRacer := r) else s.(fallbackRacer := r)
  }

  /** dial.go:497-515, up to the timer. */
  function Receive(s: State, isPrimary: bool, o: Outcome): State {
    if o.Conn? then s.(pc := Leaving(o))
    else
      var s' := if isPrimary then s.(primary := Some(o)) else s.(fallback := Some(o));
      if s'.primary.Some? && s'.fallback.Some? then s'.(pc := Leaving(s'.primary.value))
      else if isPrimary then s'.(pc := StopTimer)
      else s'
  }

  function Step(s: State, a: Action): Option<State> {
    match a
    case Finish(p, o) =>
      if RacerOf(s, p).Dialing? && (o.Conn? ==> o.id !in s.ids)
      then Some(SetRacer(s, p, Offering(o)).(ids := if o.Conn? then s.ids + {o.id} else s.ids))
      else None
    case Tick =>
      if s.timerActive then Some(s.(timerActive := false, timerFull := true)) else None
    case TakeTick =>
      if s.pc.Select? && s.timerFull
      then Some(s.(timerFull := false, fallbackRacer := Dialing, starts := s.starts + 1))
      else None
    case TakeResult(p) =>
      if s.pc.Select? && RacerOf(s, p).Offering?
      then var o := RacerOf(s, p).outcome; Some(Receive(SetRacer(s, p, Received(o)), p, o))
      else None
    case SeeReturned(p) =>
      if s.returned && RacerOf(s, p).Offering?
      then
        var o := RacerOf(s, p).outcome;
        Some(SetRacer(s, p, Withdrawn(o)).(closed := if o.Conn? then s.closed + {o.id} else s.closed))
      else None
    case Main =>
      match s.pc
      case Select => None
      case StopTimer => Some(s.(timerActive := false, pc := if s.timerActive then ResetTimer else Select))
      case ResetTimer => Some(s.(timerActive := true, pc := Select))
      case Leaving(r) => Some(s.(timerActive := false, pc := Closing(r)))
      case Closing(r) => Some(s.(returned := true, pc := Returned(r)))
      case Returned(_) => None
  }

  // ----- invariant

  function ResultOf(pc: MainPc): Option<Outcome> {
    match pc
    case Leaving(r) => Some(r)
    case Closing(r) => Some(r)
    case Returned(r) => Some(r)
    case _ => None
  }

  predicate HasOutcome(r: Racer) { r.Offering? || r.Received? || r.Withdrawn? }

  /** The racer's connection is in its hands, with the caller, or closed. */
  predicate RacerOk(s: State, isPrimary: bool) {
    var r := RacerOf(s, isPrimary);
    && (HasOutcome(r) && r.outcome.Conn? ==>
          && r.outcome.id in s.ids
          && (r.outcome.id in s.closed <==> r.Withdrawn?))
    && (r.Received? && r.outcome.Conn? ==> ResultOf(s.pc) == Some(r.outcome))
    && (r.Received? && r.outcome.Fail? ==>
          (if isPrimary then s.primary else s.fallback) == Some(r.outcome))
    && (!r.Received? ==> (if isPrimary then s.primary else s.fallback).None?)
    && (r.Received? && r.outcome.Conn? ==> (if isPrimary then s.primary else s.fallback).None?)
    && (r.Withdrawn? ==> s.returned)
  }

  /** Two racers never have the same connection. */
  predicate DistinctConns(s: State) {
    HasOutcome(s.primaryRacer) && HasOutcome(s.fallbackRacer)
    && s.primaryRacer.outcome.Conn? && s.fallbackRacer.outcome.Conn? ==>
      s.primaryRacer.outcome.id != s.fallbackRacer.outcome.id
  }

  /** The fallback racer is still to be started exactly while a tick is due. */
  predicate TimerOk(s: State) {
    && s.starts == (if s.fallbackRacer.Idle? then 0 else 1)
    && (s.timerActive || s.timerFull || s.pc.ResetTimer? ==> s.fallbackRacer.Idle?)
    && !(s.timerActive && s.timerFull)
    && (s.pc.ResetTimer? ==> !s.timerActive && !s.timerFull)
    && (ResultOf(s.pc).None? && s.fallbackRacer.Idle? ==> s.timerActive || s.timerFull || s.pc.ResetTimer?)
  }

  predicate ResultOk(s: State) {
    match ResultOf(s.pc)
    case None => !(s.primary.Some? && s.fallback.Some?) && !s.returned
    case Some(Conn(c)) =>
      || s.primaryRacer == Received(Conn(c))
      || s.fallbackRacer == Received(Conn(c))
    case Some(Fail(e)) =>
      s.primaryRacer == Received(Fail(e)) && s.fallbackRacer.Received? && s.fallbackRacer.outcome.Fail?
  }

  predicate Inv(s: State) {
    && RacerOk(s, true) && RacerOk(s, false)
    && DistinctConns(s) && TimerOk(s) && ResultOk(s)
    && !s.primaryRacer.Idle?
    && (s.returned <==> s.pc.Returned?)
    && (s.pc.StopTimer? || s.pc.ResetTimer? ==> s.primary.Some?)
    && s.closed <= s.ids
  }

  lemma StepKeepsInv(s: State, a: Action, s': State)
    requires Inv(s) && Step(s, a) == Some(s')
    ensures Inv(s')
  {
    match a
    case Finish(p, o) => FinishKeepsInv(s, p, o, s');
    case TakeResult(p) => TakeResultKeepsInv(s, p, s');
    case _ =>
  }

  lemma FinishKeepsInv(s: State, p: bool, o: Outcome, s': State)
    requires Inv(s) && Step(s, Finish(p, o)) == Some(s')
    ensures Inv(s')
  {
  }

  lemma TakeResultKeepsInv(s: State, p: bool, s': State)
    requires Inv(s) && Step(s, TakeResult(p)) == Some(s')
    ensures Inv(s')
  {
  }

  ghost predicate StepsTo(s: State, s': State) {
    exists a :: Step(s, a) == Some(s')
  }

  function Last(run: seq<State>): State
    requires run != []
  {
    run[|run| - 1]
  }

  ghost predicate IsRun(run: seq<State>) {
    if |run| <= 1 then run == [Init]
    else IsRun(run[..|run| - 1]) && StepsTo(Last(run[..|run| - 1]), Last(run))
  }

  lemma {:induction false} RunInv(run: seq<State>)
    requires IsRun(run)
    ensures Inv(Last(run))
  {
    if |run| > 1 {
      RunInv(run[..|run| - 1]);
      var a :| Step(Last(run[..|run| - 1]), a) == Some(Last(run));
      StepKeepsInv(Last(run[..|run| - 1]), a, Last(run));
    }
  }

  // ----- over every run

  predicate Finished(r: Racer) { r.Received? || r.Withdrawn? }

  /** A connection that a finished racer obtained is either the one that
      dialParallel returns, and open, or it has been closed; and the other
      racer's connection is never returned as well. */
  lemma ConnectionsAccountedFor(run: seq<State>, isPrimary: bool)
    requires IsRun(run)
    ensures var s, r := Last(run), RacerOf(Last(run), isPrimary);
      Finished(r) && r.outcome.Conn? ==>
        (r.outcome.id in s.closed <==> ResultOf(s.pc) != Some(r.outcome))
  {
    RunInv(run);
  }

  /** A returned connection is open and came from one racer. */
  lemma ReturnedConnection(run: seq<State>, c: nat)
    requires IsRun(run) && ResultOf(Last(run).pc) == Some(Conn(c))
    ensures var s := Last(run);
      && c !in s.closed
      && (s.primaryRacer == Received(Conn(c)) <==> s.fallbackRacer != Received(Conn(c)))
  {
    RunInv(run);
  }

  /** The fallback racer is started at most once. */
  lemma FallbackStartsOnce(run: seq<State>)
    requires IsRun(run)
    ensures Last(run).starts <= 1
  {
    RunInv(run);
  }

  /** Failure is returned only after both racers have failed, with the error of
      the primary. */
  lemma FailureIsPrimarys(run: seq<State>, e: nat)
    requires IsRun(run) && ResultOf(Last(run).pc) == Some(Fail(e))
    ensures var s := Last(run);
      && s.primaryRacer == Received(Fail(e))
      && s.fallbackRacer.Received? && s.fallbackRacer.outcome.Fail?
  {
    RunInv(run);
  }

  // ----- nobody hangs

  predicate Enabled(s: State, a: Action) { Step(s, a).Some? }

  /** The caller comes back: until it has, it can step itself, or a racer is
      still dialling or offers a result, or the timer will start the fallback. */
  lemma CallerMakesProgress(run: seq<State>) returns (a: Action)
    requires IsRun(run) && !Last(run).pc.Returned?
    ensures Enabled(Last(run), a) && !a.SeeReturned?
  {
    RunInv(run);
    var s := Last(run);
    if !s.pc.Select? {
      a := Main;
    } else if s.primaryRacer.Offering? {
      a := TakeResult(true);
    } else if s.primaryRacer.Dialing? {
      a := Finish(true, Fail(0));
    } else if s.fallbackRacer.Offering? {
      a := TakeResult(false);
    } else if s.fallbackRacer.Dialing? {
      a := Finish(false, Fail(0));
    } else if s.timerFull {
      a := TakeTick;
    } else {
      a := Tick;
    }
  }

  /** Each of these steps brings the end nearer: the caller cannot wait forever. */
  function Remaining(s: State): nat {
    var racer := (r: Racer) => if r.Idle? then 3 else if r.Dialing? then 2 else if r.Offering? then 1 else 0;
    6 * (racer(s.primaryRacer) + racer(s.fallbackRacer))
    + (match s.pc
       case StopTimer => 6
       case ResetTimer => 5
       case Select => 3
       case Leaving(_) => 2
       case Closing(_) => 1
       case Returned(_) => 0)
    + (if s.timerActive then 1 else 0)
  }

  /** Every step uses up work, so dialParallel returns after boundedly many. */
  lemma StepsAreBounded(run: seq<State>, a: Action, s': State)
    requires IsRun(run) && Step(Last(run), a) == Some(s')
    ensures Remaining(s') < Remaining(Last(run))
  {
    RunInv(run);
  }

  /** No racer is left behind: after the caller has returned, a racer with an
      outcome can always finish. */
  lemma RacersFinish(run: seq<State>, isPrimary: bool)
    requires IsRun(run) && Last(run).pc.Returned? && RacerOf(Last(run), isPrimary).Offering?
    ensures Enabled(Last(run), SeeReturned(isPrimary))
  {
    RunInv(run);
  }
}
