/** dialSerial and partialDeadline of src/net/dial.go. */
module DialSerial {
  import opened Common

  /** Deadlines in nanoseconds; the zero Time means that there is none. */
  datatype Time = Zero | At(ns: int)

  datatype Error = Timeout | Canceled | MissingAddress | Dial(address: nat)

  datatype Outcome = Conn(id: nat) | Fail(err: Error)

  const SANE_MINIMUM: int := 2_000_000_000

  /** partialDeadline (dial.go:138-158).  Its division truncates, and is only
      reached with a positive dividend. */
  function PartialDeadline(now: int, deadline: Time, addrsRemaining: nat): (r: Option<Time>)
    requires addrsRemaining > 0
  {
    if deadline.Zero? then Some(deadline)
    else
      var timeRemaining := deadline.ns - now;
      if timeRemaining <= 0 then None
      else
        var timeout := timeRemaining / addrsRemaining;
        var allowed := if timeout >= SANE_MINIMUM then timeout
                       else if timeRemaining < SANE_MINIMUM then timeRemaining else SANE_MINIMUM;
        Some(At(now + allowed))
  }

  /** The time given to one address ends after now and no later than the
      deadline, is at least two seconds and an equal share if that much is left, no
      more than the larger of the two, and all of it for the last address.  It fails
      exactly when no time is left.  Without a deadline there is none for the address. */
  lemma PartialDeadlineIsFair(now: int, deadline: int, addrsRemaining: nat)
    requires addrsRemaining > 0
    ensures var r := PartialDeadline(now, At(deadline), addrsRemaining);
      && (r.None? <==> deadline <= now)
      && (r.Some? ==>
            && r.value.At? && now < r.value.ns <= deadline
            && (r.value.ns == deadline || r.value.ns >= now + SANE_MINIMUM)
            && (addrsRemaining == 1 ==> r.value.ns == deadline)
            && r.value.ns - now >= (deadline - now) / addrsRemaining
            && (r.value.ns - now <= (deadline - now) / addrsRemaining || r.value.ns - now <= SANE_MINIMUM))
    ensures PartialDeadline(now, Zero, addrsRemaining) == Some(Zero)
  {
    if deadline > now { ShareBounds(deadline - now, addrsRemaining); }
  }

  lemma ShareBounds(left: int, n: nat)
    requires left > 0 && n > 0
    ensures 0 <= left / n <= left && left / 1 == left
  {
    var t := left / n;
    assert left == t * n + left % n;
    if t > left { MulLe(left + 1, t, n); MulLe(1, n, left + 1); }
  }

  lemma MulLe(a: int, b: int, n: int)
    requires a <= b && n >= 0
    ensures a * n <= b * n && n * a <= n * b
  {
  }

  /** What the environment does when the loop reaches an address: whether the
      context is done, the time, and how the dial of that address ends. */
  datatype Attempt = Attempt(ctxDone: bool, now: int, outcome: Outcome)

  /** The attempt that ends the loop before its address is dialled, or succeeds. */
  predicate Ends(attempts: seq<Attempt>, deadline: Time, i: nat)
    requires i < |attempts|
  {
    attempts[i].ctxDone
    || PartialDeadline(attempts[i].now, deadline, |attempts| - i).None?
    || attempts[i].outcome.Conn?
  }

  /** dialSerial (dial.go:522-562): the connection of the first address that
      could be dialled, or the error of the first address.  Only a context that
      is done hides that error behind its own. */
  method DialAll(attempts: seq<Attempt>, deadline: Time) returns (r: Outcome, ghost last: nat)
    ensures last <= |attempts|
    ensures forall i :: 0 <= i < last ==> !Ends(attempts, deadline, i)
    ensures last < |attempts| ==> Ends(attempts, deadline, last)
    ensures r.Conn? <==> last < |attempts| && !attempts[last].ctxDone
                         && PartialDeadline(attempts[last].now, deadline, |attempts| - last).Some?
    ensures r.Conn? ==> r == attempts[last].outcome
    ensures r.Fail? ==>
      if last < |attempts| && attempts[last].ctxDone then r == Fail(Canceled)
      else if last > 0 then r == attempts[0].outcome
      else r == Fail(if |attempts| == 0 then MissingAddress else Timeout)
  {
    var firstErr: Option<Error> := None;
    last := 0;
    for i := 0 to |attempts|
      invariant last == i
      invariant forall j :: 0 <= j < i ==> !Ends(attempts, deadline, j)
      invariant firstErr.None? <==> i == 0
      invariant i > 0 ==> attempts[0].outcome == Fail(firstErr.value)
    {
      if attempts[i].ctxDone {
        return Fail(Canceled), i;
      }
      if PartialDeadline(attempts[i].now, deadline, |attempts| - i).None? {
        if firstErr.None? {
          firstErr := Some(Timeout);
        }
        return Fail(firstErr.value), i;
      }
      match attempts[i].outcome {
        case Conn(_) => return attempts[i].outcome, i;
        case Fail(e) =>
          if firstErr.None? {
            firstErr := Some(e);
          }
      }
      last := i + 1;
    }
    if firstErr.None? {
      firstErr := Some(MissingAddress);
    }
    return Fail(firstErr.value), |attempts|;
  }
}
