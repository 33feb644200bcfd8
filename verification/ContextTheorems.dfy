/** The guarantees of the cancellation tree, over every run. */
module ContextTheorems {
  import opened Common
  import opened Context
  import opened ContextInvariant
  import opened ContextSteps

  ghost predicate StepsTo(s: State, s': State) {
    exists a :: Step(s, a) == Some(s')
  }

  function Last(run: seq<State>): State
    requires run != []
  {
    run[|run| - 1]
  }

  /** A run starts without contexts and interleaves any calls in any order. */
  ghost predicate IsRun(run: seq<State>) {
    if |run| <= 1 then run == [Init]
    else IsRun(run[..|run| - 1]) && StepsTo(Last(run[..|run| - 1]), Last(run))
  }

  lemma StepsToKeepsInv(s: State, s': State)
    requires Inv(s) && StepsTo(s, s')
    ensures Inv(s')
  {
    var a :| Step(s, a) == Some(s');
    StepKeepsInv(s, a, s');
  }

  lemma InitInv()
    ensures Inv(Init)
  {
  }

  lemma {:induction false} RunInv(run: seq<State>, i: nat)
    requires IsRun(run) && i < |run|
    ensures Inv(run[i])
    decreases |run|
  {
    if |run| <= 1 {
      InitInv();
    } else {
      var k := |run| - 1;
      if i < k {
        RunInv(run[..k], i);
      } else {
        RunInv(run[..k], k - 1);
        StepsToKeepsInv(Last(run[..k]), Last(run));
      }
    }
  }

  // ----- done and err

  /** In every reachable state Done is closed exactly when Err is set, and no
      channel has been closed twice. */
  lemma DoneIffErr(run: seq<State>, i: nat, c: nat)
    requires IsRun(run) && i < |run| && c < |run[i].nodes|
    ensures run[i].nodes[c].err.Some? <==> Closed(run[i].nodes[c].done)
    ensures run[i].nodes[c].closes <= 1
  {
    RunInv(run, i);
    assert NodeOk(run[i], c);
  }

  /** What a step may do to a node's err and done. */
  predicate Later(n: Node, n': Node) {
    && n'.parent == n.parent
    && (n.err.Some? ==> n'.err == n.err)
    && (n.done.Own? ==> n'.done.Own?) && (n.done.Shared? ==> n'.done.Shared?)
    && (Closed(n.done) ==> Closed(n'.done))
    && (Complete(n) ==> Complete(n'))
    && (n.published ==> n'.published)
  }

  lemma CancelStepIsLater(s: State, t: nat, pick: nat, s': State, c: nat)
    requires TopExists(s, t) && Top(s, t).Cancel? && AdvanceCancel(s, t, pick) == Some(s') && c < |s.nodes|
    ensures c < |s'.nodes| && Later(s.nodes[c], s'.nodes[c])
  {
    var x := Top(s, t).node;
    match Top(s, t).pc
    case Entry => assert Later(s.nodes[x], s'.nodes[x]);
    case _ =>
  }

  lemma AttachStepIsLater(s: State, t: nat, expired: bool, s': State, c: nat)
    requires TopExists(s, t) && Top(s, t).Attach? && AdvanceAttach(s, t, expired) == Some(s') && c < |s.nodes|
    ensures c < |s'.nodes| && Later(s.nodes[c], s'.nodes[c])
  {
    if Top(s, t).at.AtInsert? {
      InsertStepIsLater(s, t, expired, s', c);
    }
  }

  lemma InsertStepIsLater(s: State, t: nat, expired: bool, s': State, c: nat)
    requires TopExists(s, t) && Top(s, t).Attach? && Top(s, t).at.AtInsert?
    requires AdvanceAttach(s, t, expired) == Some(s') && c < |s.nodes|
    ensures c < |s'.nodes| && Later(s.nodes[c], s'.nodes[c])
  {
  }

  lemma StepIsLater(s: State, s': State, c: nat)
    requires StepsTo(s, s') && c < |s.nodes|
    ensures c < |s'.nodes| && Later(s.nodes[c], s'.nodes[c])
  {
    var a :| Step(s, a) == Some(s');
    if !a.Advance? {
      CallIsLater(s, a, s', c);
    } else if Top(s, a.thread).Cancel? {
      CancelStepIsLater(s, a.thread, a.pick, s', c);
    } else {
      AttachStepIsLater(s, a.thread, a.expired, s', c);
    }
  }

  lemma CallIsLater(s: State, a: Action, s': State, c: nat)
    requires !a.Advance? && Step(s, a) == Some(s') && c < |s.nodes|
    ensures c < |s'.nodes| && Later(s.nodes[c], s'.nodes[c])
  {
  }

  /** Once set, err never changes, Done keeps returning the same channel, and a
      closed channel stays closed. */
  lemma {:induction false} ErrIsForever(run: seq<State>, i: nat, j: nat, c: nat)
    requires IsRun(run) && i <= j < |run| && c < |run[i].nodes|
    ensures c < |run[j].nodes| && Later(run[i].nodes[c], run[j].nodes[c])
    decreases |run|
  {
    hide StepsTo;
    var k := |run| - 1;
    if j < k {
      ErrIsForever(run[..k], i, j, c);
    } else if i < j {
      ErrIsForever(run[..k], i, j - 1, c);
      StepIsLater(Last(run[..k]), Last(run), c);
      LaterTransitive(run[i].nodes[c], run[j - 1].nodes[c], run[j].nodes[c]);
    }
  }

  lemma LaterTransitive(a: Node, b: Node, c: Node)
    requires Later(a, b) && Later(b, c)
    ensures Later(a, c)
  {
  }

  // ----- cancellation reaches every descendant

  /** path leads from a context down through settled descendants. */
  predicate Descends(s: State, path: seq<nat>) {
    && path != [] && path[0] < |s.nodes|
    && forall i: nat :: 0 < i < |path| ==> SettledChild(s, path, i)
  }

  predicate SettledChild(s: State, path: seq<nat>, i: nat)
    requires 0 < i < |path|
  {
    IsChild(s, path[i - 1], path[i]) && s.nodes[path[i]].linked
  }

  lemma {:induction false} CompleteBelow(s: State, path: seq<nat>, i: nat)
    requires Inv(s) && Descends(s, path) && i < |path|
    requires Complete(s.nodes[path[0]])
    ensures path[i] < |s.nodes| && Complete(s.nodes[path[i]])
  {
    if i > 0 {
      CompleteBelow(s, path, i - 1);
      assert SettledChild(s, path, i) && LinkOk(s, path[i]);
    }
  }

  /** A cancelled context whose mutex is free has no settled descendant that is
      still uncancelled, however the cancellations have interleaved. */
  lemma NoUncancelledDescendant(run: seq<State>, i: nat, path: seq<nat>)
    requires IsRun(run) && i < |run| && Descends(run[i], path)
    requires run[i].nodes[path[0]].err.Some? && run[i].nodes[path[0]].lock.Free?
    ensures path[|path| - 1] < |run[i].nodes| && run[i].nodes[path[|path| - 1]].err.Some?
  {
    RunInv(run, i);
    CompleteBelow(run[i], path, |path| - 1);
  }

  // ----- what a CancelFunc promises to its caller

  /** Goroutine t runs a call of cancel on c that was not made by another one. */
  predicate Cancels(s: State, t: nat, c: nat) {
    t < |s.threads| && s.threads[t] != [] && s.threads[t][0].Cancel? && s.threads[t][0].node == c
  }

  /** That call goes on, or it has returned and c is cancelled. */
  predicate CancelsOrDone(s: State, t: nat, c: nat) {
    t < |s.threads| && (Cancels(s, t, c) || (s.threads[t] == [] && CompleteAt(s, c)))
  }

  /** The call returns only when its cancellation, or an earlier one, is complete. */
  lemma CancelGoesOn(s: State, t: nat, pick: nat, s': State, c: nat)
    requires Inv(s) && Cancels(s, t, c) && Top(s, t).Cancel? && Top(s, t).node < |s.nodes|
    requires ParentExists(s, Top(s, t).node) && AdvanceCancel(s, t, pick) == Some(s')
    ensures CancelsOrDone(s', t, c)
  {
    hide Inv, LinkOk, NodeOk;
    AboutTop(s, t);
    if |s.threads[t]| > 1 {
      assert s'.threads[t][0] == s.threads[t][0] by { BottomStays(s, t, pick, s'); }
    }
  }

  lemma BottomStays(s: State, t: nat, pick: nat, s': State)
    requires Running(s, t) && |s.threads[t]| > 1 && Top(s, t).Cancel? && Top(s, t).node < |s.nodes|
    requires ParentExists(s, Top(s, t).node) && AdvanceCancel(s, t, pick) == Some(s')
    ensures |s'.threads| == |s.threads| && s'.threads[t] != [] && s'.threads[t][0] == s.threads[t][0]
  {
  }

  lemma StepCancels(s: State, s': State, t: nat, c: nat)
    requires Inv(s) && StepsTo(s, s') && CancelsOrDone(s, t, c)
    ensures CancelsOrDone(s', t, c)
  {
    hide Inv, AdvanceCancel, AdvanceAttach;
    var a :| Step(s, a) == Some(s');
    if c < |s.nodes| {
      StepIsLater(s, s', c);
    }
    if a.Advance? && a.thread == t {
      AboutTop(s, t);
      CancelGoesOn(s, t, a.pick, s', c);
    } else {
      OthersStay(s, a, s', t);
    }
  }

  /** The other goroutines keep their stacks. */
  lemma OthersStay(s: State, a: Action, s': State, t: nat)
    requires Step(s, a) == Some(s') && t < |s.threads| && !(a.Advance? && a.thread == t)
    ensures t < |s'.threads| && s'.threads[t] == s.threads[t]
  {
    hide AdvanceCancel, AdvanceAttach;
    if a.Advance? {
      if Top(s, a.thread).Cancel? {
        CancelLeavesOthers(s, a.thread, a.pick, s', t);
      } else {
        AttachLeavesOthers(s, a.thread, a.expired, s', t);
      }
    }
  }

  lemma CancelLeavesOthers(s: State, u: nat, pick: nat, s': State, t: nat)
    requires TopExists(s, u) && Top(s, u).Cancel? && AdvanceCancel(s, u, pick) == Some(s')
    requires t < |s.threads| && t != u
    ensures t < |s'.threads| && s'.threads[t] == s.threads[t]
  {
    hide CloseDone, MadeDone;
  }

  lemma AttachLeavesOthers(s: State, u: nat, expired: bool, s': State, t: nat)
    requires TopExists(s, u) && Top(s, u).Attach? && AdvanceAttach(s, u, expired) == Some(s')
    requires t < |s.threads| && t != u
    ensures t < |s'.threads| && s'.threads[t] == s.threads[t]
  {
    hide MadeDone, Closed;
  }

  lemma {:induction false} CancelsThroughout(run: seq<State>, i: nat, j: nat, t: nat, c: nat)
    requires IsRun(run) && i <= j < |run| && Cancels(run[i], t, c)
    ensures CancelsOrDone(run[j], t, c)
    decreases |run|
  {
    hide StepsTo;
    var k := |run| - 1;
    if j < k {
      CancelsThroughout(run[..k], i, j, t, c);
    } else if i < j {
      CancelsThroughout(run[..k], i, j - 1, t, c);
      RunInv(run[..k], j - 1);
      StepCancels(Last(run[..k]), Last(run), t, c);
    }
  }

  /** When a call of a CancelFunc, or of cancel by a timer, has returned, its context
      and every settled descendant is cancelled, in that state and in every later one,
      whoever cancelled them. */
  lemma CancelReturned(run: seq<State>, i: nat, j: nat, t: nat, path: seq<nat>)
    requires IsRun(run) && i <= j < |run| && Descends(run[j], path)
    requires Cancels(run[i], t, path[0]) && t < |run[j].threads| && run[j].threads[t] == []
    ensures path[|path| - 1] < |run[j].nodes|
    ensures run[j].nodes[path[0]].err.Some? && run[j].nodes[path[|path| - 1]].err.Some?
  {
    CancelsThroughout(run, i, j, t, path[0]);
    RunInv(run, j);
    CompleteBelow(run[j], path, |path| - 1);
  }

  /** Every context that WithCancel or WithDeadline has returned is settled, so
      the theorem above covers it. */
  lemma ReturnedIsSettled(run: seq<State>, i: nat, c: nat)
    requires IsRun(run) && i < |run| && c < |run[i].nodes| && run[i].nodes[c].published
    ensures run[i].nodes[c].linked
    ensures run[i].nodes[c].parent.Some? ==> run[i].nodes[c].parent.value < c
  {
    RunInv(run, i);
    assert NodeOk(run[i], c);
  }

  /** With built-in contexts only, propagateCancel never starts a goroutine that
      watches the parent. */
  lemma NoWatcher(run: seq<State>, i: nat, t: nat, k: nat)
    requires IsRun(run) && i < |run| && t < |run[i].threads| && k < |run[i].threads[t]|
    ensures !(run[i].threads[t][k].Attach? && run[i].threads[t][k].at.AtWatcher?)
  {
    RunInv(run, i);
    assert FrameOk(run[i], t, k);
  }

  // ----- no deadlock

  /** The mutex that the next step of goroutine t has to take. */
  function Needs(s: State, t: nat, expired: bool): Option<nat>
    requires Running(s, t)
  {
    var f := Top(s, t);
    if f.node >= |s.nodes| then None
    else
      var n := s.nodes[f.node];
      if f.Cancel? then
        match f.pc
        case Entry => Some(f.node)
        case StopTimer => Some(f.node)
        case Looping(_) => None
        case _ => n.parent
      else if f.at.AtFinish? then (if n.timer && !expired then Some(f.node) else None)
      else if f.at.AtReturn? || f.at.AtSelect? || f.at.AtUnlock? then None
      else n.parent
  }

  predicate Enabled(s: State, a: Action) {
    Step(s, a).Some?
  }

  /** Some goroutine can take a step, whether or not a deadline has passed. */
  ghost predicate SomeoneCanMove(s: State, expired: bool) {
    exists a: Action :: a.Advance? && a.expired == expired && Enabled(s, a)
  }

  lemma AdvanceIfFree(s: State, t: nat, expired: bool)
    requires Inv(s) && Running(s, t)
    requires Needs(s, t, expired).Some? ==>
      Needs(s, t, expired).value < |s.nodes| && s.nodes[Needs(s, t, expired).value].lock.Free?
    ensures SomeoneCanMove(s, expired)
  {
    AboutTop(s, t);
    var f := Top(s, t);
    var pick: nat := 0;
    if f.Cancel? && f.pc.Looping? && f.pc.pending != {} {
      var c :| c in f.pc.pending;
      pick := c;
    }
    assert Enabled(s, Advance(t, pick, expired));
  }

  /** Above the holder of a mutex, calls go only to younger contexts. */
  lemma {:induction false} YoungerAbove(s: State, t: nat, i: nat, j: nat, x: nat)
    requires Inv(s) && t < |s.threads| && i < j < |s.threads[t]| && Holds(s, t, i, x)
    ensures s.threads[t][j].Cancel? && !s.threads[t][j].remove
    ensures x < s.threads[t][j].node < |s.nodes|
    decreases j
  {
    assert FrameOk(s, t, j) && FrameOk(s, t, j - 1) && FrameOk(s, t, i);
    assert NodeOk(s, s.threads[t][j].node);
    if j > i + 1 { YoungerAbove(s, t, i, j - 1, x); }
  }

  /** If a mutex is held, some goroutine can move: each holder waits, if at all,
      for a younger context. */
  lemma {:induction false} HolderCanMove(s: State, x: nat, expired: bool)
    requires Inv(s) && x < |s.nodes| && !s.nodes[x].lock.Free?
    ensures SomeoneCanMove(s, expired)
    decreases |s.nodes| - x
  {
    assert NodeOk(s, x);
    var t, i := s.nodes[x].lock.thread, s.nodes[x].lock.frame;
    var top := |s.threads[t]| - 1;
    assert Holds(s, t, i, x);
    assert FrameOk(s, t, top);
    if i < top { YoungerAbove(s, t, i, top, x); }
    var need := Needs(s, t, expired);
    if need.Some? && !s.nodes[need.value].lock.Free? {
      HolderCanMove(s, need.value, expired);
    } else {
      AdvanceIfFree(s, t, expired);
    }
  }

  /** No deadlock: while any call is in progress, some goroutine can take a step. */
  lemma NoDeadlock(run: seq<State>, i: nat, t: nat, expired: bool)
    requires IsRun(run) && i < |run| && Running(run[i], t)
    ensures SomeoneCanMove(run[i], expired)
  {
    RunInv(run, i);
    var s := run[i];
    AboutTop(s, t);
    var need := Needs(s, t, expired);
    if need.Some? && !s.nodes[need.value].lock.Free? {
      HolderCanMove(s, need.value, expired);
    } else {
      AdvanceIfFree(s, t, expired);
    }
  }

  // ----- termination

  /** What a frame may still do; a call costs 6. */
  function FrameWeight(f: Frame): nat {
    if f.Cancel? then
      match f.pc
      case Entry => 5
      case Looping(pending) => 5 + 6 * |pending|
      case RemoveDone => 4
      case RemoveCompare => 3
      case RemoveDelete => 2
      case StopTimer => 1
    else
      match f.at
      case AtDone => 18
      case AtSelect => 17
      case AtLookup => 16
      case AtCompare => 15
      case AtInsert => 14
      case AtErr => 13
      case AtUnlock => 8
      case AtFinish => 7
      case AtReturn => 1
      case AtWatcher => 0
  }

  /** A context that is not cancelled yet owes one loop over its children. */
  function NodeWeight(n: Node): nat {
    if n.err.None? then 1 + 6 * |n.children| else 0
  }

  function StackWeight(st: seq<Frame>): nat {
    if st == [] then 0 else StackWeight(st[..|st| - 1]) + FrameWeight(st[|st| - 1])
  }

  function ThreadsWeight(ts: seq<seq<Frame>>): nat {
    if ts == [] then 0 else ThreadsWeight(ts[..|ts| - 1]) + StackWeight(ts[|ts| - 1])
  }

  function NodesWeight(ns: seq<Node>): nat {
    if ns == [] then 0 else NodesWeight(ns[..|ns| - 1]) + NodeWeight(ns[|ns| - 1])
  }

  /** A bound on the steps that the calls in progress can still take. */
  function Remaining(s: State): nat {
    ThreadsWeight(s.threads) + NodesWeight(s.nodes)
  }

  lemma {:induction false} ThreadsWeightUpdate(ts: seq<seq<Frame>>, t: nat, st: seq<Frame>)
    requires t < |ts|
    ensures ThreadsWeight(ts[t := st]) == ThreadsWeight(ts) - StackWeight(ts[t]) + StackWeight(st)
  {
    var k := |ts| - 1;
    if t < k {
      ThreadsWeightUpdate(ts[..k], t, st);
      assert ts[t := st][..k] == ts[..k][t := st];
    } else {
      assert ts[t := st][..k] == ts[..k];
    }
  }

  lemma {:induction false} NodesWeightUpdate(ns: seq<Node>, c: nat, n: Node)
    requires c < |ns|
    ensures NodesWeight(ns[c := n]) == NodesWeight(ns) - NodeWeight(ns[c]) + NodeWeight(n)
  {
    var k := |ns| - 1;
    if c < k {
      NodesWeightUpdate(ns[..k], c, n);
      assert ns[c := n][..k] == ns[..k][c := n];
    } else {
      assert ns[c := n][..k] == ns[..k];
    }
  }

  lemma TopWeight(below: seq<Frame>, top: seq<Frame>)
    requires |top| <= 2
    ensures StackWeight(below + top) == StackWeight(below)
      + (if |top| >= 1 then FrameWeight(top[0]) else 0) + (if |top| == 2 then FrameWeight(top[1]) else 0)
  {
    if |top| == 0 {
      assert below + top == below;
    } else if |top| == 1 {
      assert (below + top)[..|below|] == below;
    } else {
      assert (below + top)[..|below| + 1] == below + [top[0]];
      assert (below + [top[0]])[..|below|] == below;
    }
  }

  /** The effect on the weight of replacing the running frame by `top`. */
  lemma StackChange(s: State, s': State, t: nat, top: seq<Frame>)
    requires Running(s, t) && |top| <= 2 && s'.threads == s.threads[t := Below(s, t) + top]
    ensures ThreadsWeight(s'.threads) == ThreadsWeight(s.threads) - FrameWeight(Top(s, t))
      + (if |top| >= 1 then FrameWeight(top[0]) else 0) + (if |top| == 2 then FrameWeight(top[1]) else 0)
  {
    ThreadsWeightUpdate(s.threads, t, Below(s, t) + top);
    TopWeight(Below(s, t), top);
    TopWeight(Below(s, t), [Top(s, t)]);
    assert Below(s, t) + [Top(s, t)] == s.threads[t];
  }

  /** Changing node c changes the total by the change of its own weight. */
  lemma NodeChange(s: State, s': State, c: nat, n: Node)
    requires c < |s.nodes| && s'.nodes == s.nodes[c := n] && NodeWeight(n) <= NodeWeight(s.nodes[c])
    ensures NodesWeight(s'.nodes) <= NodesWeight(s.nodes)
    ensures NodesWeight(s'.nodes) == NodesWeight(s.nodes) - NodeWeight(s.nodes[c]) + NodeWeight(n)
  {
    NodesWeightUpdate(s.nodes, c, n);
  }

  lemma AfterCancelDecreases(s: State, s1: State, t: nat, x: nat, remove: bool)
    requires TopExists(s, t) && Top(s, t).Cancel? && s1.threads == s.threads
    requires x < |s.nodes| == |s1.nodes| && s1.nodes == s.nodes[x := s1.nodes[x]]
      && NodeWeight(s1.nodes[x]) <= NodeWeight(s.nodes[x])
    requires FrameWeight(Top(s, t)) > (if remove then 4 else 1)
    ensures Remaining(AfterCancel(s1, t, Top(s, t), remove)) < Remaining(s)
  {
    var s' := AfterCancel(s1, t, Top(s, t), remove);
    var top := s'.threads[t][|s.threads[t]| - 1..];
    assert s'.threads[t] == Below(s, t) + top;
    StackChange(s, s', t, top);
    NodeChange(s, s', x, s1.nodes[x]);
  }

  lemma SmallerSet(a: set<nat>, x: nat)
    requires x in a
    ensures |a - {x}| == |a| - 1
  {
  }

  lemma CancelDecreases(s: State, t: nat, pick: nat, s': State)
    requires TopExists(s, t) && Top(s, t).Cancel? && AdvanceCancel(s, t, pick) == Some(s')
    ensures Remaining(s') < Remaining(s)
  {
    var f := Top(s, t);
    var c, n, k := f.node, s.nodes[f.node], |s.threads[t]| - 1;
    assert s.nodes[c := n] == s.nodes;
    match f.pc
    case Entry => EntryDecreases(s, t, pick, s');
    case Looping(pending) =>
      if pick in pending {
        StackChange(s, s', t, [f.(pc := Looping(pending - {pick})), Cancel(pick, false, f.err, Entry)]);
        SmallerSet(pending, pick);
      } else {
        AfterCancelDecreases(s, Put(s, c, n.(children := {}, lock := Free)), t, c, f.remove);
      }
    case StopTimer =>
      assert Below(s, t) + [] == Below(s, t);
      StackChange(s, s', t, []);
      NodeChange(s, s', c, s'.nodes[c]);
    case _ => RemoveDecreases(s, t, pick, s');
  }

  lemma EntryDecreases(s: State, t: nat, pick: nat, s': State)
    requires TopExists(s, t) && Top(s, t).Cancel? && Top(s, t).pc.Entry?
    requires AdvanceCancel(s, t, pick) == Some(s')
    ensures Remaining(s') < Remaining(s)
  {
    var f := Top(s, t);
    var c, n := f.node, s.nodes[f.node];
    if n.err.Some? && n.timer {
      assert s.nodes[c := n] == s.nodes;
      AfterCancelDecreases(s, s, t, c, f.remove);
    } else if n.err.Some? {
      assert Below(s, t) + [] == Below(s, t);
      StackChange(s, s', t, []);
    } else {
      StackChange(s, s', t, [f.(pc := Looping(n.children))]);
      NodeChange(s, s', c, s'.nodes[c]);
    }
  }

  lemma RemoveDecreases(s: State, t: nat, pick: nat, s': State)
    requires TopExists(s, t) && Top(s, t).Cancel? && AdvanceCancel(s, t, pick) == Some(s')
    requires Top(s, t).pc.RemoveDone? || Top(s, t).pc.RemoveCompare? || Top(s, t).pc.RemoveDelete?
    ensures Remaining(s') < Remaining(s)
  {
    var f := Top(s, t);
    var c, n := f.node, s.nodes[f.node];
    assert s.nodes[c := n] == s.nodes;
    if n.parent.None? {
      AfterCancelDecreases(s, s, t, c, false);
    } else {
      var p, pn := n.parent.value, s.nodes[n.parent.value];
      match f.pc
      case RemoveDone =>
        var s1 := Put(s, p, pn.(done := MadeDone(pn.done)));
        if pn.done.Shared? {
          AfterCancelDecreases(s, s1, t, p, false);
        } else {
          StackChange(s, s', t, [f.(pc := RemoveCompare)]);
          NodeChange(s, s', p, s'.nodes[p]);
        }
      case RemoveCompare =>
        if pn.done.Own? {
          StackChange(s, s', t, [f.(pc := RemoveDelete)]);
        } else {
          AfterCancelDecreases(s, s, t, c, false);
        }
      case RemoveDelete =>
        FewerChildren(pn.children, c);
        AfterCancelDecreases(s, Put(s, p, pn.(children := pn.children - {c})), t, p, false);
    }
  }

  lemma FewerChildren(a: set<nat>, x: nat)
    ensures |a - {x}| <= |a| && |a + {x}| <= |a| + 1
  {
    if x in a { SmallerSet(a, x); assert a + {x} == a; } else { assert a - {x} == a; }
  }

  lemma FinishDecreases(s: State, t: nat, expired: bool, s': State)
    requires TopExists(s, t) && Top(s, t).Attach? && AdvanceAttach(s, t, expired) == Some(s')
    requires Top(s, t).at.AtFinish? || Top(s, t).at.AtReturn?
    ensures Remaining(s') < Remaining(s)
  {
    var f, k := Top(s, t), |s.threads[t]| - 1;
    var top := s'.threads[t][k..];
    assert s'.threads[t] == Below(s, t) + top;
    StackChange(s, s', t, top);
    NodeChange(s, s', f.node, s'.nodes[f.node]);
  }

  lemma InsertDecreases(s: State, t: nat, s': State)
    requires TopExists(s, t) && Top(s, t).Attach? && AdvanceAttach(s, t, false) == Some(s')
    requires Top(s, t).at.AtInsert? && s.nodes[Top(s, t).node].parent.Some?
    requires s.nodes[s.nodes[Top(s, t).node].parent.value].err.None?
    ensures Remaining(s') < Remaining(s)
  {
    var f := Top(s, t);
    var c, n := f.node, s.nodes[f.node];
    var p, pn := n.parent.value, s.nodes[n.parent.value];
    StackChange(s, s', t, [f.(at := AtFinish)]);
    var s1 := Put(s, c, n.(linked := true));
    NodeChange(s, s1, c, s1.nodes[c]);
    NodesWeightUpdate(s1.nodes, p, s'.nodes[p]);
    FewerChildren(pn.children, c);
  }

  lemma AttachDecreases(s: State, t: nat, expired: bool, s': State)
    requires TopExists(s, t) && Top(s, t).Attach? && AdvanceAttach(s, t, expired) == Some(s')
    ensures Remaining(s') < Remaining(s)
  {
    var f, k := Top(s, t), |s.threads[t]| - 1;
    var n := s.nodes[f.node];
    if f.at.AtFinish? || f.at.AtReturn? {
      FinishDecreases(s, t, expired, s');
    } else if n.parent.None? {
      StackChange(s, s', t, [f.(at := AtFinish)]);
    } else if f.at.AtInsert? && s.nodes[n.parent.value].err.None? {
      InsertDecreases(s, t, s');
    } else {
      LookupDecreases(s, t, n.parent.value, s');
    }
  }

  lemma LookupDecreases(s: State, t: nat, p: nat, s': State)
    requires TopExists(s, t) && Top(s, t).Attach? && AdvanceAttach(s, t, false) == Some(s')
    requires !Top(s, t).at.AtFinish? && !Top(s, t).at.AtReturn?
    requires s.nodes[Top(s, t).node].parent == Some(p)
    requires !(Top(s, t).at.AtInsert? && s.nodes[p].err.None?)
    ensures Remaining(s') < Remaining(s)
  {
    var top := s'.threads[t][|s.threads[t]| - 1..];
    assert s'.threads[t] == Below(s, t) + top;
    StackChange(s, s', t, top);
    assert s.nodes[p := s'.nodes[p]] == s'.nodes;
    NodeChange(s, s', p, s'.nodes[p]);
  }

  /** Termination of cancel and of every other call: each step uses up some of
      the work that was left, and only a new call adds any. */
  lemma StepsAreBounded(s: State, a: Action, s': State)
    requires a.Advance? && Step(s, a) == Some(s')
    ensures Remaining(s') < Remaining(s)
  {
    if Top(s, a.thread).Cancel? {
      CancelDecreases(s, a.thread, a.pick, s');
    } else {
      AttachDecreases(s, a.thread, a.expired, s');
    }
  }
}
