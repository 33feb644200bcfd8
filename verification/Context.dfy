/** The cancellation tree of src/context/context.go as a step system: any
    number of goroutines run WithCancel, WithDeadline, CancelFuncs, timers and
    Done.  A section that holds a mutex without calling out is one step;
    cancel and propagateCancel, which call child.cancel while they hold a
    mutex, keep it over many steps in which the other goroutines run. */
module Context {
  import opened Common

  datatype Error = Canceled | DeadlineExceeded

  /** The done field: not yet made, a channel of its own, or closedchan. */
  datatype Done = NoChan | Own(closed: bool) | Shared

  /** The mutex of a node: free, held by the loop of cancel on that node, or
      held by propagateCancel while it cancels a child of that node; and the
      frame of which goroutine holds it. */
  datatype Lock =
    | Free
    | InCancel(thread: nat, frame: nat)
    | InAttach(thread: nat, frame: nat)

  /** A cancelCtx, or the cancelCtx inside a timerCtx.  parent is the nearest
      enclosing cancelCtx, looked up through value contexts.  closes counts
      the calls of close on the node's channels; linked and published record
      that propagateCancel has settled the node and that WithCancel or
      WithDeadline has returned it. */
  datatype Node = Node(
    parent: Option<nat>, timer: bool, done: Done, err: Option<Error>, children: set<nat>,
    lock: Lock, armed: bool, closes: nat, linked: bool, published: bool)

  /** Where an activation of cancel stands: before its critical section, in the
      loop over the children that are still to be cancelled, in the three
      critical sections of removeChild, or before stopping the timer. */
  datatype CancelPc = Entry | Looping(pending: set<nat>) | RemoveDone | RemoveCompare | RemoveDelete | StopTimer

  /** Where propagateCancel, and the rest of WithDeadline, stand. */
  datatype AttachPc =
    | AtDone | AtSelect | AtErr | AtLookup | AtCompare | AtInsert | AtUnlock | AtFinish | AtReturn
    | AtWatcher

  datatype Frame =
    | Cancel(node: nat, remove: bool, err: Error, pc: CancelPc)
    | Attach(node: nat, at: AttachPc)

  datatype State = State(nodes: seq<Node>, threads: seq<seq<Frame>>)

  /** What happens next: a goroutine takes a step (picking a child if its cancel
      is in the loop), or a new call begins. */
  datatype Action =
    | Advance(thread: nat, pick: nat, expired: bool)
    | CallCancel(target: nat, removeFromParent: bool)
    | FireTimer(timerNode: nat)
    | CallWith(under: Option<nat>, deadline: bool)
    | CallDone(ctx: nat)

  const Init := State([], [])

  // ----- one step

  function Top(s: State, t: nat): Frame
    requires t < |s.threads| && s.threads[t] != []
  {
    s.threads[t][|s.threads[t]| - 1]
  }

  function Below(s: State, t: nat): seq<Frame>
    requires t < |s.threads| && s.threads[t] != []
  {
    s.threads[t][..|s.threads[t]| - 1]
  }

  function Pop(s: State, t: nat): State
    requires t < |s.threads| && s.threads[t] != []
  {
    s.(threads := s.threads[t := Below(s, t)])
  }

  /** Replace the running frame. */
  function Goto(s: State, t: nat, f: Frame): State
    requires t < |s.threads| && s.threads[t] != []
  {
    s.(threads := s.threads[t := Below(s, t) + [f]])
  }

  /** Replace the running frame and call cancel(false, err) or cancel(true, err) above it. */
  function Call(s: State, t: nat, f: Frame, g: Frame): State
    requires t < |s.threads| && s.threads[t] != []
  {
    s.(threads := s.threads[t := Below(s, t) + [f, g]])
  }

  function Put(s: State, c: nat, n: Node): State
    requires c < |s.nodes|
  {
    s.(nodes := s.nodes[c := n])
  }

  /** c.done after Done(): the channel is made on first use. */
  function MadeDone(d: Done): Done { if d.NoChan? then Own(false) else d }

  predicate Closed(d: Done) { d.Shared? || d == Own(true) }

  /** context.go:401-405; a second close would panic, and is counted. */
  function CloseDone(n: Node): Node {
    match n.done
    case NoChan => n.(done := Shared)
    case Own(_) => n.(done := Own(true), closes := n.closes + 1)
    case Shared => n.(closes := n.closes + 1)
  }

  /** What follows the critical section of cancel: removal from the parent, the
      timer of a timerCtx, or the return. */
  function AfterCancel(s: State, t: nat, f: Frame, remove: bool): State
    requires t < |s.threads| && s.threads[t] != [] && f.Cancel? && f.node < |s.nodes|
  {
    if remove then Goto(s, t, f.(pc := RemoveDone))
    else if s.nodes[f.node].timer then Goto(s, t, f.(pc := StopTimer))
    else Pop(s, t)
  }

  function AdvanceCancel(s: State, t: nat, pick: nat): Option<State>
    requires t < |s.threads| && s.threads[t] != []
    requires Top(s, t).Cancel? && Top(s, t).node < |s.nodes|
    requires s.nodes[Top(s, t).node].parent.Some? ==> s.nodes[Top(s, t).node].parent.value < |s.nodes|
  {
    var f := Top(s, t);
    var c, n := f.node, s.nodes[f.node];
    match f.pc
    case Entry =>
      if n.lock != Free then None
      else if n.err.Some? then
        Some(if n.timer then AfterCancel(s, t, f, f.remove) else Pop(s, t))
      else
        var n' := CloseDone(n.(err := Some(f.err), lock := InCancel(t, |s.threads[t]| - 1)));
        Some(Goto(Put(s, c, n'), t, f.(pc := Looping(n.children))))
    case Looping(pending) =>
      if pick in pending then
        Some(Call(s, t, f.(pc := Looping(pending - {pick})), Cancel(pick, false, f.err, Entry)))
      else if pending == {} then
        Some(AfterCancel(Put(s, c, n.(children := {}, lock := Free)), t, f, f.remove))
      else None
    case RemoveDone =>
      if n.parent.None? then Some(AfterCancel(s, t, f, false))
      else
        var p, pn := n.parent.value, s.nodes[n.parent.value];
        if pn.lock != Free then None
        else
          var s' := Put(s, p, pn.(done := MadeDone(pn.done)));
          Some(if pn.done.Shared? then AfterCancel(s', t, f, false)
               else Goto(s', t, f.(pc := RemoveCompare)))
    case RemoveCompare =>
      if n.parent.None? then Some(AfterCancel(s, t, f, false))
      else if s.nodes[n.parent.value].lock != Free then None
      else Some(if s.nodes[n.parent.value].done.Own? then Goto(s, t, f.(pc := RemoveDelete))
                else AfterCancel(s, t, f, false))
    case RemoveDelete =>
      if n.parent.None? then Some(AfterCancel(s, t, f, false))
      else
        var p, pn := n.parent.value, s.nodes[n.parent.value];
        if pn.lock != Free then None
        else Some(AfterCancel(Put(s, p, pn.(children := pn.children - {c})), t, f, false))
    case StopTimer =>
      if n.lock != Free then None
      else Some(Pop(Put(s, c, n.(armed := false)), t))
  }

  function AdvanceAttach(s: State, t: nat, expired: bool): Option<State>
    requires t < |s.threads| && s.threads[t] != []
    requires Top(s, t).Attach? && Top(s, t).node < |s.nodes|
    requires s.nodes[Top(s, t).node].parent.Some? ==> s.nodes[Top(s, t).node].parent.value < |s.nodes|
  {
    var f := Top(s, t);
    var c, n := f.node, s.nodes[f.node];
    if f.at.AtFinish? then
      var s' := Put(s, c, n.(linked := true));
      if !n.timer then Some(Goto(s', t, f.(at := AtReturn)))
      else if expired then
        Some(Call(s', t, f.(at := AtReturn), Cancel(c, true, DeadlineExceeded, Entry)))
      else if n.lock != Free then None
      else
        Some(Goto(Put(s, c, n.(linked := true, armed := n.armed || n.err.None?)), t, f.(at := AtReturn)))
    else if f.at.AtReturn? then
      Some(Pop(Put(s, c, n.(published := true)), t))
    else if f.at.AtWatcher? then None
    else if n.parent.None? then Some(Goto(s, t, f.(at := AtFinish)))  // never cancelled from above
    else
      var p, pn := n.parent.value, s.nodes[n.parent.value];
      match f.at
      case AtDone =>
        if pn.lock != Free then None
        else Some(Goto(Put(s, p, pn.(done := MadeDone(pn.done))), t, f.(at := AtSelect)))
      case AtSelect =>
        Some(Goto(s, t, f.(at := if Closed(pn.done) then AtErr else AtLookup)))
      case AtErr =>
        if pn.lock != Free || pn.err.None? then None
        else Some(Call(s, t, f.(at := AtFinish), Cancel(c, false, pn.err.value, Entry)))
      case AtLookup =>
        if pn.lock != Free then None
        else Some(Goto(s, t, f.(at := if pn.done.Own? then AtCompare else AtWatcher)))
      case AtCompare =>
        if pn.lock != Free then None
        else Some(Goto(s, t, f.(at := if pn.done.Own? then AtInsert else AtWatcher)))
      case AtInsert =>
        if pn.lock != Free then None
        else if pn.err.Some? then
          var s' := Put(s, p, pn.(lock := InAttach(t, |s.threads[t]| - 1)));
          Some(Call(s', t, f.(at := AtUnlock), Cancel(c, false, pn.err.value, Entry)))
        else
          Some(Goto(Put(Put(s, c, n.(linked := true)), p, pn.(children := pn.children + {c})),
                    t, f.(at := AtFinish)))
      case AtUnlock =>
        Some(Goto(Put(s, p, pn.(lock := Free)), t, f.(at := AtFinish)))
      case _ => None
  }

  /** The running frame and its parent refer to existing nodes; this is so in
      every reachable state. */
  predicate TopExists(s: State, t: nat) {
    && t < |s.threads| && s.threads[t] != []
    && Top(s, t).node < |s.nodes|
    && ParentExists(s, Top(s, t).node)
  }

  predicate ParentExists(s: State, c: nat) {
    c < |s.nodes| && (s.nodes[c].parent.Some? ==> s.nodes[c].parent.value < c)
  }

  function Spawn(s: State, f: Frame): State {
    s.(threads := s.threads + [[f]])
  }

  function Step(s: State, a: Action): Option<State> {
    if a.Advance? then
      if !TopExists(s, a.thread) then None
      else if Top(s, a.thread).Cancel? then AdvanceCancel(s, a.thread, a.pick)
      else AdvanceAttach(s, a.thread, a.expired)
    else if a.CallCancel? then
      // The CancelFunc of a context whose deadline had passed at the start, and only that
      // one, does not ask for removal (context.go:439-440).
      if a.target < |s.nodes| && s.nodes[a.target].published && (a.removeFromParent || s.nodes[a.target].err.Some?)
      then Some(Spawn(s, Cancel(a.target, a.removeFromParent, Canceled, Entry))) else None
    else if a.FireTimer? then
      if a.timerNode < |s.nodes| && s.nodes[a.timerNode].armed
      then Some(Spawn(s, Cancel(a.timerNode, true, DeadlineExceeded, Entry))) else None
    else if a.CallWith? then
      if a.under.Some? && !(a.under.value < |s.nodes| && s.nodes[a.under.value].published) then None
      else Some(Spawn(s.(nodes := s.nodes + [NewNode(a.under, a.deadline)]), Attach(|s.nodes|, AtDone)))
    else
      if a.ctx < |s.nodes| && s.nodes[a.ctx].lock.Free?
      then Some(Put(s, a.ctx, s.nodes[a.ctx].(done := MadeDone(s.nodes[a.ctx].done)))) else None
  }

  function NewNode(under: Option<nat>, deadline: bool): Node {
    Node(under, deadline, NoChan, None, {}, Free, false, 0, false, false)
  }
}
