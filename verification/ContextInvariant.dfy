/** What every reachable state of the cancellation tree satisfies. */
module ContextInvariant {
  import opened Common
  import opened Context

  /** The mutex that a frame holds while it is on the stack. */
  function Held(s: State, f: Frame): Option<nat> {
    if f.Cancel? then (if f.pc.Looping? then Some(f.node) else None)
    else if f.at.AtUnlock? && f.node < |s.nodes| then s.nodes[f.node].parent
    else None
  }

  function LockBy(f: Frame, t: nat, i: nat): Lock {
    if f.Cancel? then InCancel(t, i) else InAttach(t, i)
  }

  /** A frame that waits for the call of cancel above it. */
  predicate Suspended(f: Frame) {
    if f.Cancel? then f.pc.Looping? else f.at.AtUnlock? || f.at.AtFinish? || f.at.AtReturn?
  }

  /** g is a call of cancel that f makes: on a child, or by propagateCancel and
      WithDeadline on the new node itself. */
  predicate Calls(s: State, f: Frame, g: Frame) {
    && g.Cancel? && g.node < |s.nodes|
    && if f.Cancel? then !g.remove && s.nodes[g.node].parent == Some(f.node)
       else g.node == f.node && (g.remove ==> f.at.AtReturn?)
  }

  /** The node is cancelled and the critical section that did it is over. */
  predicate Complete(n: Node) {
    n.err.Some? && !n.lock.InCancel?
  }

  predicate CompleteAt(s: State, c: nat) {
    c < |s.nodes| && Complete(s.nodes[c])
  }

  predicate IsChild(s: State, p: nat, c: nat) {
    c < |s.nodes| && s.nodes[c].parent == Some(p)
  }

  predicate Holds(s: State, t: nat, i: nat, c: nat) {
    && t < |s.threads| && i < |s.threads[t]|
    && Held(s, s.threads[t][i]) == Some(c)
    && c < |s.nodes| && s.nodes[c].lock == LockBy(s.threads[t][i], t, i)
  }

  predicate NodeOk(s: State, c: nat) {
    && c < |s.nodes|
    && var n := s.nodes[c];
    && (n.parent.Some? ==> n.parent.value < c)
    && (n.err.Some? <==> Closed(n.done))
    && n.closes == (if n.done == Own(true) then 1 else 0)
    && (forall k :: k in n.children ==> IsChild(s, c, k))
    && (!n.lock.Free? ==> Holds(s, n.lock.thread, n.lock.frame, c))
    && (n.published ==> n.linked)
  }

  /** The frame in position i of goroutine t. */
  predicate FrameOk(s: State, t: nat, i: nat) {
    && t < |s.threads| && i < |s.threads[t]|
    && var st := s.threads[t];
    && var f := st[i];
    && f.node < |s.nodes|
    && (i > 0 ==> Suspended(st[i - 1]) && Calls(s, st[i - 1], f))
    && (Held(s, f).Some? ==> Holds(s, t, i, Held(s, f).value))
    && if f.Cancel? then CancelOk(s, f) else AttachOk(s, f, i == |st| - 1)
  }

  predicate ParentOwn(s: State, c: nat) {
    && c < |s.nodes| && s.nodes[c].parent.Some?
    && s.nodes[c].parent.value < |s.nodes| && s.nodes[s.nodes[c].parent.value].done.Own?
  }

  predicate CancelOk(s: State, f: Frame)
    requires f.Cancel? && f.node < |s.nodes|
  {
    match f.pc
    case Entry => true
    case Looping(pending) => s.nodes[f.node].err.Some? && pending <= s.nodes[f.node].children
    case RemoveDone => CompleteAt(s, f.node) && f.remove
    case RemoveCompare => CompleteAt(s, f.node) && f.remove && ParentOwn(s, f.node)
    case RemoveDelete => CompleteAt(s, f.node) && f.remove && ParentOwn(s, f.node)
    case StopTimer => CompleteAt(s, f.node) && s.nodes[f.node].timer
  }

  predicate AttachOk(s: State, f: Frame, top: bool)
    requires f.Attach? && f.node < |s.nodes|
  {
    var n := s.nodes[f.node];
    match f.at
    case AtDone => true
    case AtSelect => n.parent.Some? && n.parent.value < |s.nodes| && !s.nodes[n.parent.value].done.NoChan?
    case AtErr => n.parent.Some? && n.parent.value < |s.nodes| && s.nodes[n.parent.value].err.Some?
    case AtLookup => ParentOwn(s, f.node)
    case AtCompare => ParentOwn(s, f.node)
    case AtInsert => ParentOwn(s, f.node)
    case AtUnlock => n.parent.Some? && (top ==> Complete(n))
    case AtFinish => top ==> n.parent.None? || n.linked || Complete(n)
    case AtReturn => n.linked
    case AtWatcher => false
  }

  /** The loop that has cancelled p still has c to do, or is doing it. */
  predicate Covered(s: State, p: nat, c: nat) {
    && p < |s.nodes| && s.nodes[p].lock.InCancel?
    && var t, i := s.nodes[p].lock.thread, s.nodes[p].lock.frame;
    && t < |s.threads| && i < |s.threads[t]|
    && CoveredBy(s.threads[t], i, c)
  }

  predicate CoveredBy(st: seq<Frame>, i: nat, c: nat)
    requires i < |st|
  {
    && st[i].Cancel? && st[i].pc.Looping?
    && (c in st[i].pc.pending || (i + 1 < |st| && st[i + 1].node == c))
  }

  /** A settled node that is not cancelled yet is where its parent will find it. */
  predicate LinkOk(s: State, c: nat) {
    && c < |s.nodes|
    && var n := s.nodes[c];
    n.linked && n.parent.Some? && !Complete(n) ==>
      && n.parent.value < |s.nodes|
      && if s.nodes[n.parent.value].err.None? then c in s.nodes[n.parent.value].children
         else Covered(s, n.parent.value, c)
  }

  ghost predicate Inv(s: State) {
    && (forall c: nat :: c < |s.nodes| ==> NodeOk(s, c))
    && (forall t: nat, i: nat :: t < |s.threads| && i < |s.threads[t]| ==> FrameOk(s, t, i))
    && (forall c: nat :: c < |s.nodes| ==> LinkOk(s, c))
  }
}
