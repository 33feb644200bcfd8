/** A step is described by what it may do to the nodes and to the top of one
    stack; every step so described keeps the invariant. */
module ContextSteps {
  import opened Common
  import opened Context
  import opened ContextInvariant

  predicate Running(s: State, t: nat) {
    t < |s.threads| && s.threads[t] != []
  }

  predicate OwnedBy(l: Lock, t: nat, k: nat) {
    l == InCancel(t, k) || l == InAttach(t, k)
  }

  /** Node y before and after a step of the frame k on top of goroutine t. */
  predicate NodeStep(s: State, s': State, t: nat, k: nat, y: nat) {
    && y < |s.nodes| == |s'.nodes|
    && var n, n' := s.nodes[y], s'.nodes[y];
    && n'.parent == n.parent && n'.timer == n.timer
    && (n.err.Some? ==> n'.err == n.err)
    && (n'.err.Some? <==> Closed(n'.done))
    && n'.closes == (if n'.done == Own(true) then 1 else 0)
    && (n.done.Own? ==> n'.done.Own?) && (!n.done.NoChan? ==> !n'.done.NoChan?)
    && (n.linked ==> n'.linked) && (n'.published ==> n'.linked)
    && (n'.lock == n.lock || (n.lock.Free? && OwnedBy(n'.lock, t, k))
        || (OwnedBy(n.lock, t, k) && n'.lock.Free?))
    && (Complete(n) ==> Complete(n'))
    && ChildrenStep(s, n, n', t, k, y)
  }

  /** Children come and go only under the mutex of their parent, and go only
      when they are cancelled or their parent is. */
  predicate ChildrenStep(s: State, n: Node, n': Node, t: nat, k: nat, y: nat) {
    && (forall z :: z in n'.children ==> IsChild(s, y, z))
    && (!n.lock.Free? && !OwnedBy(n.lock, t, k) ==> n'.children == n.children)
    && (forall z :: z in n.children && z !in n'.children ==> CompleteAt(s, z) || n'.err.Some?)
  }

  /** The frame on top of goroutine t becomes `top`: nothing (it returns), itself
      at another point, or itself with a call above it. */
  predicate StackStep(s: State, s': State, t: nat, top: seq<Frame>) {
    && Running(s, t) && |top| <= 2
    && s'.threads == s.threads[t := Below(s, t) + top]
    && var f := Top(s, t);
    && (top == [] ==> CompleteAt(s', f.node) || f.Attach?)
    && (top != [] ==>
          && top[0].node == f.node && top[0].Cancel? == f.Cancel?
          && (f.Cancel? ==> top[0].remove == f.remove))
  }

  predicate LocksOfTop(s': State, t: nat, k: nat, y: nat) {
    y < |s'.nodes| && OwnedBy(s'.nodes[y].lock, t, k) ==> Holds(s', t, k, y)
  }

  /** A cancellation starts in the frame that loops over all the children, and
      the loop drops a child only to cancel it. */
  predicate LoopStep(s: State, s': State, t: nat, top: seq<Frame>)
    requires Running(s, t)
  {
    var f := Top(s, t);
    && (forall y :: 0 <= y < |s.nodes| == |s'.nodes| && s.nodes[y].err.None? && s'.nodes[y].err.Some? ==>
          && s'.nodes[y].lock == InCancel(t, |s.threads[t]| - 1)
          && top != [] && top[0].Cancel? && top[0].pc == Looping(s.nodes[y].children))
    && (f.Cancel? && f.pc.Looping? ==>
          forall z :: z in f.pc.pending ==>
            top != [] && top[0].Cancel? && top[0].pc.Looping?
            && (z in top[0].pc.pending || (|top| == 2 && top[1].node == z)))
  }

  ghost predicate GoodStep(s: State, s': State, t: nat, top: seq<Frame>) {
    && StackStep(s, s', t, top)
    && var k := |s.threads[t]| - 1;
    && |s'.nodes| == |s.nodes|
    && (forall y: nat :: y < |s.nodes| ==> NodeStep(s, s', t, k, y))
    && (forall y: nat :: y < |s'.nodes| ==> LocksOfTop(s', t, k, y))
    && LoopStep(s, s', t, top)
    && (top != [] ==> FrameOk(s', t, k))
    && (|top| == 2 ==> FrameOk(s', t, k + 1))
    && (forall y: nat :: y < |s.nodes| && !s.nodes[y].linked && s'.nodes[y].linked ==> LinkOk(s', y))
  }

  lemma GoodStepKeepsInv(s: State, s': State, t: nat, top: seq<Frame>)
    requires Inv(s) && GoodStep(s, s', t, top)
    ensures Inv(s')
  {
    forall y: nat | y < |s'.nodes| ensures NodeOk(s', y) {
      NodeKept(s, s', t, top, y);
    }
    forall u: nat, i: nat | u < |s'.threads| && i < |s'.threads[u]| ensures FrameOk(s', u, i) {
      if u != t || i < |s.threads[t]| - 1 {
        FrameKept(s, s', t, top, u, i);
      }
    }
    forall y: nat | y < |s'.nodes| ensures LinkOk(s', y) {
      if s.nodes[y].linked { LinkKept(s, s', t, top, y); }
    }
  }

  lemma NodeKept(s: State, s': State, t: nat, top: seq<Frame>, y: nat)
    requires Inv(s) && GoodStep(s, s', t, top) && y < |s'.nodes|
    ensures NodeOk(s', y)
  {
    var k := |s.threads[t]| - 1;
    assert NodeOk(s, y) && NodeStep(s, s', t, k, y) && LocksOfTop(s', t, k, y);
    var n' := s'.nodes[y];
    forall z | z in n'.children ensures IsChild(s', y, z) {
      assert IsChild(s, y, z) && NodeStep(s, s', t, k, z);
    }
    if !n'.lock.Free? && !OwnedBy(n'.lock, t, k) {
      LockKept(s, s', t, top, y);
    }
  }

  lemma LockKept(s: State, s': State, t: nat, top: seq<Frame>, y: nat)
    requires Inv(s) && GoodStep(s, s', t, top) && y < |s'.nodes|
    requires var l := s'.nodes[y].lock; !l.Free? && !OwnedBy(l, t, |s.threads[t]| - 1)
    ensures Holds(s', s'.nodes[y].lock.thread, s'.nodes[y].lock.frame, y)
  {
    var k, l := |s.threads[t]| - 1, s'.nodes[y].lock;
    assert NodeOk(s, y) && NodeStep(s, s', t, k, y);
    assert Holds(s, l.thread, l.frame, y);
    assert FrameOk(s, l.thread, l.frame);
    var f := s.threads[l.thread][l.frame];
    assert NodeStep(s, s', t, k, f.node);
    assert s'.threads[l.thread][l.frame] == f;
  }

  /** A frame other than the running one is untouched, and what it relies on
      is never undone. */
  lemma FrameKept(s: State, s': State, t: nat, top: seq<Frame>, u: nat, i: nat)
    requires Inv(s) && GoodStep(s, s', t, top)
    requires u < |s'.threads| && i < |s'.threads[u]| && (u != t || i < |s.threads[t]| - 1)
    ensures FrameOk(s', u, i)
  {
    var k := |s.threads[t]| - 1;
    var f := s.threads[u][i];
    assert FrameOk(s, u, i) && s'.threads[u][i] == f && NodeStep(s, s', t, k, f.node);
    if i > 0 { assert s'.threads[u][i - 1] == s.threads[u][i - 1]; }
    if Held(s, f).Some? { HeldKept(s, s', t, top, u, i); }
    if f.Cancel? {
      CancelKept(s, s', t, top, u, i);
    } else {
      AttachKept(s, s', t, top, u, i);
    }
  }

  lemma HeldKept(s: State, s': State, t: nat, top: seq<Frame>, u: nat, i: nat)
    requires Inv(s) && GoodStep(s, s', t, top)
    requires u < |s'.threads| && i < |s'.threads[u]| && (u != t || i < |s.threads[t]| - 1)
    requires Held(s, s.threads[u][i]).Some?
    ensures Held(s', s.threads[u][i]) == Held(s, s.threads[u][i])
    ensures Holds(s', u, i, Held(s, s.threads[u][i]).value)
  {
    var f, c := s.threads[u][i], Held(s, s.threads[u][i]).value;
    assert FrameOk(s, u, i);
    assert NodeStep(s, s', t, |s.threads[t]| - 1, f.node);
    assert NodeStep(s, s', t, |s.threads[t]| - 1, c);
  }

  lemma CancelKept(s: State, s': State, t: nat, top: seq<Frame>, u: nat, i: nat)
    requires Inv(s) && GoodStep(s, s', t, top)
    requires u < |s'.threads| && i < |s'.threads[u]| && (u != t || i < |s.threads[t]| - 1)
    requires s.threads[u][i].Cancel?
    ensures s.threads[u][i].node < |s'.nodes| && CancelOk(s', s.threads[u][i])
  {
    var f := s.threads[u][i];
    assert FrameOk(s, u, i);
    assert NodeStep(s, s', t, |s.threads[t]| - 1, f.node);
    if ParentOwn(s, f.node) {
      assert NodeStep(s, s', t, |s.threads[t]| - 1, s.nodes[f.node].parent.value);
    }
    if f.pc.Looping? { assert Holds(s, u, i, f.node); }
  }

  lemma AttachKept(s: State, s': State, t: nat, top: seq<Frame>, u: nat, i: nat)
    requires Inv(s) && GoodStep(s, s', t, top)
    requires u < |s'.threads| && i < |s'.threads[u]| && (u != t || i < |s.threads[t]| - 1)
    requires s.threads[u][i].Attach?
    ensures s.threads[u][i].node < |s'.nodes|
    ensures AttachOk(s', s.threads[u][i], i == |s'.threads[u]| - 1)
  {
    var f := s.threads[u][i];
    assert FrameOk(s, u, i);
    assert NodeStep(s, s', t, |s.threads[t]| - 1, f.node);
    if s.nodes[f.node].parent.Some? && s.nodes[f.node].parent.value < |s.nodes| {
      assert NodeStep(s, s', t, |s.threads[t]| - 1, s.nodes[f.node].parent.value);
    }
    if u == t && i == |s.threads[t]| - 2 {
      assert FrameOk(s, u, i + 1);
    }
  }

  lemma LinkKept(s: State, s': State, t: nat, top: seq<Frame>, y: nat)
    requires Inv(s) && GoodStep(s, s', t, top) && y < |s'.nodes| && s.nodes[y].linked
    ensures LinkOk(s', y)
  {
    var k, n := |s.threads[t]| - 1, s.nodes[y];
    assert LinkOk(s, y) && NodeOk(s, y) && NodeStep(s, s', t, k, y);
    if n.parent.Some? && !Complete(s'.nodes[y]) {
      var p := n.parent.value;
      assert NodeOk(s, p) && NodeStep(s, s', t, k, p);
      if s.nodes[p].err.Some? {
        CoveredKept(s, s', t, top, p, y);
      } else if s'.nodes[p].err.Some? {
        assert LocksOfTop(s', t, k, p);
      }
    }
  }

  lemma CoveredKept(s: State, s': State, t: nat, top: seq<Frame>, p: nat, y: nat)
    requires Inv(s) && GoodStep(s, s', t, top)
    requires y < |s'.nodes| && !Complete(s'.nodes[y]) && Covered(s, p, y)
    ensures Covered(s', p, y)
  {
    var k := |s.threads[t]| - 1;
    var u, i := s.nodes[p].lock.thread, s.nodes[p].lock.frame;
    assert NodeStep(s, s', t, k, p) && NodeOk(s, p);
    assert Holds(s, u, i, p);
    if u == t && i == k {
      assert LocksOfTop(s', t, k, p);
    } else {
      assert s'.threads[u][i] == s.threads[u][i];
      assert FrameOk(s, t, k);
    }
  }

  // ----- the steps of cancel

  /** What is known about the running frame and its node. */
  lemma AboutTop(s: State, t: nat)
    requires Inv(s) && Running(s, t)
    ensures FrameOk(s, t, |s.threads[t]| - 1)
    ensures NodeOk(s, Top(s, t).node)
    ensures s.nodes[Top(s, t).node].parent.Some? ==> NodeOk(s, s.nodes[Top(s, t).node].parent.value)
    ensures |s.threads[t]| > 1 ==> Top(s, t).Cancel?
  {
    assert FrameOk(s, t, |s.threads[t]| - 1);
    assert NodeOk(s, Top(s, t).node);
  }

  /** A running frame that is not in a critical section owns no mutex. */
  lemma OwnsNothing(s: State, t: nat, y: nat)
    requires Inv(s) && Running(s, t) && Held(s, Top(s, t)).None? && y < |s.nodes|
    ensures !OwnedBy(s.nodes[y].lock, t, |s.threads[t]| - 1)
  {
    assert NodeOk(s, y);
  }

  lemma OwnsOnly(s: State, t: nat, y: nat)
    requires Inv(s) && Running(s, t) && y < |s.nodes| && Held(s, Top(s, t)) != Some(y)
    ensures !OwnedBy(s.nodes[y].lock, t, |s.threads[t]| - 1)
  {
    assert NodeOk(s, y);
  }

  /** A step that leaves all nodes but x alone, and x's mutex too. */
  lemma QuietStep(s: State, s': State, t: nat, top: seq<Frame>, x: nat)
    requires Inv(s) && Running(s, t) && Held(s, Top(s, t)).None?
    requires x < |s.nodes| == |s'.nodes| && s'.nodes == s.nodes[x := s'.nodes[x]]
    requires NodeStep(s, s', t, |s.threads[t]| - 1, x) && s'.nodes[x].lock == s.nodes[x].lock
    requires s'.nodes[x].err == s.nodes[x].err
    requires StackStep(s, s', t, top)
    requires top != [] ==> FrameOk(s', t, |s.threads[t]| - 1)
    requires |top| == 2 ==> FrameOk(s', t, |s.threads[t]|)
    requires !s.nodes[x].linked && s'.nodes[x].linked ==> LinkOk(s', x)
    ensures Inv(s')
  {
    var k := |s.threads[t]| - 1;
    forall y: nat | y < |s.nodes| ensures NodeStep(s, s', t, k, y) {
      assert NodeOk(s, y);
    }
    forall y: nat | y < |s'.nodes| ensures LocksOfTop(s', t, k, y) {
      OwnsNothing(s, t, y);
    }
    GoodStepKeepsInv(s, s', t, top);
  }

  lemma SameNodesStep(s: State, s1: State, s': State, t: nat, k: nat, x: nat)
    requires NodeStep(s, s1, t, k, x) && s'.nodes == s1.nodes
    ensures NodeStep(s, s', t, k, x)
  {
  }

  /** The frame in which a cancellation goes on. */
  lemma AfterCancelFrame(s: State, s1: State, t: nat, f': Frame)
    requires Running(s, t) && FrameOk(s, t, |s.threads[t]| - 1) && Top(s, t).Cancel?
    requires s1.threads == s.threads && |s1.nodes| == |s.nodes|
    requires Top(s, t).node < |s.nodes|
    requires s1.nodes[Top(s, t).node].parent == s.nodes[Top(s, t).node].parent
    requires f'.Cancel? && f' == Top(s, t).(pc := f'.pc) && CancelOk(s1, f') && !f'.pc.Looping?
    ensures FrameOk(Goto(s1, t, f'), t, |s.threads[t]| - 1)
  {
    var s', k := Goto(s1, t, f'), |s.threads[t]| - 1;
    assert s'.threads[t][k] == f';
    if k > 0 { assert s'.threads[t][k - 1] == s.threads[t][k - 1]; }
  }

  /** After its critical section, a complete cancellation goes on to removal, to
      its timer, or returns. */
  lemma AfterCancelKeepsInv(s: State, s1: State, t: nat, x: nat, remove: bool)
    requires Inv(s) && Running(s, t) && Top(s, t).Cancel? && Held(s, Top(s, t)).None?
    requires x < |s.nodes| == |s1.nodes| && s1.nodes == s.nodes[x := s1.nodes[x]] && s1.threads == s.threads
    requires NodeStep(s, s1, t, |s.threads[t]| - 1, x)
    requires s1.nodes[x].lock == s.nodes[x].lock && s1.nodes[x].err == s.nodes[x].err
    requires s1.nodes[x].linked == s.nodes[x].linked
    requires CompleteAt(s1, Top(s, t).node) && (remove ==> Top(s, t).remove)
    ensures Inv(AfterCancel(s1, t, Top(s, t), remove))
  {
    hide Inv, FrameOk, NodeOk, LinkOk, ChildrenStep;
    AboutTop(s, t);
    var f, s' := Top(s, t), AfterCancel(s1, t, Top(s, t), remove);
    SameNodesStep(s, s1, s', t, |s.threads[t]| - 1, x);
    if remove {
      AfterCancelFrame(s, s1, t, f.(pc := RemoveDone));
      QuietStep(s, s', t, [f.(pc := RemoveDone)], x);
    } else if s1.nodes[f.node].timer {
      AfterCancelFrame(s, s1, t, f.(pc := StopTimer));
      QuietStep(s, s', t, [f.(pc := StopTimer)], x);
    } else {
      assert Below(s, t) + [] == Below(s, t);
      QuietStep(s, s', t, [], x);
    }
  }

  lemma EntryKeepsInv(s: State, t: nat, pick: nat, s': State)
    requires Inv(s) && Running(s, t) && Top(s, t).Cancel? && Top(s, t).pc.Entry?
    requires Top(s, t).node < |s.nodes| && ParentExists(s, Top(s, t).node)
    requires AdvanceCancel(s, t, pick) == Some(s')
    ensures Inv(s')
  {
    AboutTop(s, t);
    var f := Top(s, t);
    var c, n, k := f.node, s.nodes[f.node], |s.threads[t]| - 1;
    if n.err.Some? {
      if n.timer {
        AfterCancelKeepsInv(s, s, t, c, f.remove);
      } else {
        assert Below(s, t) + [] == Below(s, t);
        QuietStep(s, s', t, [], c);
      }
    } else {
      LockKeepsInv(s, t);
    }
  }

  /** The first cancellation of a node: it takes the mutex and starts the loop. */
  function Lock(s: State, t: nat): State
    requires Running(s, t) && Top(s, t).Cancel? && Top(s, t).node < |s.nodes|
  {
    var f, n := Top(s, t), s.nodes[Top(s, t).node];
    Goto(Put(s, f.node, CloseDone(n.(err := Some(f.err), lock := InCancel(t, |s.threads[t]| - 1)))),
         t, f.(pc := Looping(n.children)))
  }

  lemma LockIsNodeStep(s: State, t: nat, y: nat)
    requires Inv(s) && Running(s, t) && Top(s, t).Cancel? && Top(s, t).pc.Entry? && Top(s, t).node < |s.nodes|
    requires s.nodes[Top(s, t).node].lock.Free? && s.nodes[Top(s, t).node].err.None? && y < |s.nodes|
    ensures NodeStep(s, Lock(s, t), t, |s.threads[t]| - 1, y)
    ensures LocksOfTop(Lock(s, t), t, |s.threads[t]| - 1, y)
  {
    hide Inv, FrameOk, LinkOk;
    AboutNode(s, y);
    OwnsNothing(s, t, y);
  }

  lemma AboutNode(s: State, y: nat)
    requires Inv(s) && y < |s.nodes|
    ensures NodeOk(s, y)
  {
  }

  lemma LockKeepsInv(s: State, t: nat)
    requires Inv(s) && Running(s, t) && Top(s, t).Cancel? && Top(s, t).pc.Entry? && Top(s, t).node < |s.nodes|
    requires s.nodes[Top(s, t).node].lock.Free? && s.nodes[Top(s, t).node].err.None?
    ensures Inv(Lock(s, t))
  {
    hide Inv, NodeStep, LinkOk;
    AboutTop(s, t);
    var f, k, s' := Top(s, t), |s.threads[t]| - 1, Lock(s, t);
    var top := [f.(pc := Looping(s.nodes[f.node].children))];
    assert s'.threads[t][k] == top[0];
    forall y: nat | y < |s.nodes| ensures NodeStep(s, s', t, k, y) && LocksOfTop(s', t, k, y) {
      LockIsNodeStep(s, t, y);
    }
    GoodStepKeepsInv(s, s', t, top);
  }

  lemma LoopCallKeepsInv(s: State, t: nat, pick: nat, s': State)
    requires Inv(s) && Running(s, t) && Top(s, t).Cancel? && Top(s, t).pc.Looping?
    requires pick in Top(s, t).pc.pending
    requires var f := Top(s, t);
      s' == Call(s, t, f.(pc := Looping(f.pc.pending - {pick})), Cancel(pick, false, f.err, Entry))
    ensures Inv(s')
  {
    AboutTop(s, t);
    var f, k := Top(s, t), |s.threads[t]| - 1;
    var top := [f.(pc := Looping(f.pc.pending - {pick})), Cancel(pick, false, f.err, Entry)];
    assert s'.threads[t][k] == top[0] && s'.threads[t][k + 1] == top[1];
    assert Holds(s, t, k, f.node) && IsChild(s, f.node, pick);
    forall y: nat | y < |s.nodes| ensures NodeStep(s, s', t, k, y) {
      assert NodeOk(s, y);
    }
    forall y: nat | y < |s'.nodes| ensures LocksOfTop(s', t, k, y) {
      if y != f.node { OwnsOnly(s, t, y); }
    }
    GoodStepKeepsInv(s, s', t, top);
  }

  lemma LoopEndKeepsInv(s: State, t: nat, s': State)
    requires Inv(s) && Running(s, t) && Top(s, t).Cancel? && Top(s, t).pc == Looping({})
    requires Top(s, t).node < |s.nodes|
    requires var f := Top(s, t);
      s' == AfterCancel(Put(s, f.node, s.nodes[f.node].(children := {}, lock := Free)), t, f, f.remove)
    ensures Inv(s')
  {
    AboutTop(s, t);
    var f, k := Top(s, t), |s.threads[t]| - 1;
    var top := s'.threads[t][k..];
    assert s'.threads[t] == Below(s, t) + top;
    assert Holds(s, t, k, f.node);
    forall y: nat | y < |s.nodes| ensures NodeStep(s, s', t, k, y) {
      assert NodeOk(s, y);
    }
    forall y: nat | y < |s'.nodes| ensures LocksOfTop(s', t, k, y) {
      if y != f.node { OwnsOnly(s, t, y); }
    }
    GoodStepKeepsInv(s, s', t, top);
  }

  /** removeChild asks for the context that holds the child (context.go:314). */
  lemma RemoveDoneKeepsInv(s: State, t: nat, p: nat)
    requires Inv(s) && Running(s, t) && Top(s, t).Cancel? && Top(s, t).pc.RemoveDone?
    requires p < |s.nodes| && IsChild(s, p, Top(s, t).node)
    ensures var s1 := Put(s, p, s.nodes[p].(done := MadeDone(s.nodes[p].done)));
      Inv(if s.nodes[p].done.Shared? then AfterCancel(s1, t, Top(s, t), false)
          else Goto(s1, t, Top(s, t).(pc := RemoveCompare)))
  {
    hide Inv, LinkOk, AfterCancel;
    AboutTop(s, t);
    var f, s1 := Top(s, t), Put(s, p, s.nodes[p].(done := MadeDone(s.nodes[p].done)));
    if s.nodes[p].done.Shared? {
      AfterCancelKeepsInv(s, s1, t, p, false);
    } else {
      AfterCancelFrame(s, s1, t, f.(pc := RemoveCompare));
      QuietStep(s, Goto(s1, t, f.(pc := RemoveCompare)), t, [f.(pc := RemoveCompare)], p);
    }
  }

  lemma RemoveKeepsInv(s: State, t: nat, pick: nat, s': State)
    requires Inv(s) && Running(s, t) && Top(s, t).Cancel?
    requires Top(s, t).pc.RemoveDone? || Top(s, t).pc.RemoveCompare? || Top(s, t).pc.RemoveDelete?
    requires Top(s, t).node < |s.nodes| && ParentExists(s, Top(s, t).node)
    requires AdvanceCancel(s, t, pick) == Some(s')
    ensures Inv(s')
  {
    hide Inv, LinkOk, AfterCancel;
    AboutTop(s, t);
    var f := Top(s, t);
    var c, n, k := f.node, s.nodes[f.node], |s.threads[t]| - 1;
    if n.parent.None? {
      AfterCancelKeepsInv(s, s, t, c, false);
    } else {
      var p, pn := n.parent.value, s.nodes[n.parent.value];
      match f.pc
      case RemoveDone =>
        RemoveDoneKeepsInv(s, t, p);
      case RemoveCompare =>
        AfterCancelFrame(s, s, t, f.(pc := RemoveDelete));
        QuietStep(s, s', t, [f.(pc := RemoveDelete)], p);
      case RemoveDelete =>
        AfterCancelKeepsInv(s, Put(s, p, pn.(children := pn.children - {c})), t, p, false);
    }
  }

  lemma CancelStepKeepsInv(s: State, t: nat, pick: nat, s': State)
    requires Inv(s) && Running(s, t) && Top(s, t).Cancel?
    requires Top(s, t).node < |s.nodes| && ParentExists(s, Top(s, t).node)
    requires AdvanceCancel(s, t, pick) == Some(s')
    ensures Inv(s')
  {
    var f := Top(s, t);
    match f.pc
    case Entry => EntryKeepsInv(s, t, pick, s');
    case Looping(pending) =>
      if pick in pending {
        LoopCallKeepsInv(s, t, pick, s');
      } else {
        LoopEndKeepsInv(s, t, s');
      }
    case RemoveDone => RemoveKeepsInv(s, t, pick, s');
    case RemoveCompare => RemoveKeepsInv(s, t, pick, s');
    case RemoveDelete => RemoveKeepsInv(s, t, pick, s');
    case StopTimer =>
      AboutTop(s, t);
      assert Below(s, t) + [] == Below(s, t);
      QuietStep(s, s', t, [], f.node);
  }

  // ----- the steps of propagateCancel and WithDeadline

  lemma FinishKeepsInv(s: State, t: nat, expired: bool, s': State)
    requires Inv(s) && Running(s, t) && Top(s, t).Attach?
    requires Top(s, t).at.AtFinish? || Top(s, t).at.AtReturn?
    requires Top(s, t).node < |s.nodes| && ParentExists(s, Top(s, t).node)
    requires AdvanceAttach(s, t, expired) == Some(s')
    ensures Inv(s')
  {
    AboutTop(s, t);
    var k := |s.threads[t]| - 1;
    var top := s'.threads[t][k..];
    assert s'.threads[t] == Below(s, t) + top;
    QuietStep(s, s', t, top, Top(s, t).node);
  }

  /** propagateCancel finds its parent cancelled and keeps the parent's mutex
      while it cancels the child. */
  lemma HoldParentKeepsInv(s: State, t: nat, p: nat, s': State)
    requires Inv(s) && Running(s, t) && Top(s, t).Attach? && Top(s, t).at.AtInsert?
    requires IsChild(s, p, Top(s, t).node) && p < |s.nodes|
    requires s.nodes[p].err.Some? && s.nodes[p].lock.Free?
    requires var f, k, pn := Top(s, t), |s.threads[t]| - 1, s.nodes[p];
      s' == Call(Put(s, p, pn.(lock := InAttach(t, k))), t, f.(at := AtUnlock),
                 Cancel(f.node, false, pn.err.value, Entry))
    ensures Inv(s')
  {
    AboutTop(s, t);
    var f, k := Top(s, t), |s.threads[t]| - 1;
    var top := [f.(at := AtUnlock), Cancel(f.node, false, s.nodes[p].err.value, Entry)];
    assert s'.threads[t][k] == top[0] && s'.threads[t][k + 1] == top[1];
    forall y: nat | y < |s.nodes| ensures NodeStep(s, s', t, k, y) {
      assert NodeOk(s, y);
    }
    forall y: nat | y < |s'.nodes| ensures LocksOfTop(s', t, k, y) {
      if y != p { OwnsOnly(s, t, y); }
    }
    GoodStepKeepsInv(s, s', t, top);
  }

  /** ... and gives it back afterwards. */
  lemma ReleaseParentKeepsInv(s: State, t: nat, p: nat, s': State)
    requires Inv(s) && Running(s, t) && Top(s, t).Attach? && Top(s, t).at.AtUnlock?
    requires IsChild(s, p, Top(s, t).node) && p < |s.nodes|
    requires s' == Goto(Put(s, p, s.nodes[p].(lock := Free)), t, Top(s, t).(at := AtFinish))
    ensures Inv(s')
  {
    AboutTop(s, t);
    var f, k := Top(s, t), |s.threads[t]| - 1;
    assert Held(s, f) == Some(p) && Holds(s, t, k, p);
    var top := [f.(at := AtFinish)];
    assert s'.threads[t][k] == top[0];
    forall y: nat | y < |s.nodes| ensures NodeStep(s, s', t, k, y) {
      assert NodeOk(s, y);
    }
    forall y: nat | y < |s'.nodes| ensures LocksOfTop(s', t, k, y) {
      if y != p { OwnsOnly(s, t, y); }
    }
    GoodStepKeepsInv(s, s', t, top);
  }

  /** The child enters the children of a parent that is not cancelled. */
  lemma InsertKeepsInv(s: State, t: nat, s': State)
    requires Inv(s) && Running(s, t) && Top(s, t).Attach? && Top(s, t).at.AtInsert?
    requires Top(s, t).node < |s.nodes| && ParentExists(s, Top(s, t).node) && s.nodes[Top(s, t).node].parent.Some?
    requires var pn := s.nodes[s.nodes[Top(s, t).node].parent.value]; pn.err.None? && pn.lock.Free?
    requires AdvanceAttach(s, t, false) == Some(s')
    ensures Inv(s')
  {
    AboutTop(s, t);
    var f, k := Top(s, t), |s.threads[t]| - 1;
    var top := [f.(at := AtFinish)];
    assert s'.threads[t][k] == top[0];
    forall y: nat | y < |s.nodes| ensures NodeStep(s, s', t, k, y) {
      assert NodeOk(s, y);
    }
    forall y: nat | y < |s'.nodes| ensures LocksOfTop(s', t, k, y) {
      OwnsNothing(s, t, y);
    }
    GoodStepKeepsInv(s, s', t, top);
  }

  /** The steps that only look at the parent, or make its channel. */
  lemma LookupKeepsInv(s: State, t: nat, p: nat, s': State)
    requires Inv(s) && Running(s, t) && Top(s, t).Attach?
    requires Top(s, t).at.AtDone? || Top(s, t).at.AtSelect? || Top(s, t).at.AtLookup? || Top(s, t).at.AtCompare?
    requires Top(s, t).node < |s.nodes| && ParentExists(s, Top(s, t).node) && s.nodes[Top(s, t).node].parent == Some(p)
    requires AdvanceAttach(s, t, false) == Some(s')
    ensures Inv(s')
  {
    AboutTop(s, t);
    assert NodeOk(s, p);
    QuietStep(s, s', t, [s'.threads[t][|s.threads[t]| - 1]], p);
  }

  lemma AttachStepKeepsInv(s: State, t: nat, expired: bool, s': State)
    requires Inv(s) && Running(s, t) && Top(s, t).Attach?
    requires Top(s, t).node < |s.nodes| && ParentExists(s, Top(s, t).node)
    requires AdvanceAttach(s, t, expired) == Some(s')
    ensures Inv(s')
  {
    AboutTop(s, t);
    var f := Top(s, t);
    var c, n := f.node, s.nodes[f.node];
    if f.at.AtFinish? || f.at.AtReturn? {
      FinishKeepsInv(s, t, expired, s');
    } else if n.parent.None? {
      QuietStep(s, s', t, [f.(at := AtFinish)], c);
    } else {
      var p, pn := n.parent.value, s.nodes[n.parent.value];
      match f.at
      case AtInsert =>
        if pn.err.Some? {
          HoldParentKeepsInv(s, t, p, s');
        } else {
          InsertKeepsInv(s, t, s');
        }
      case AtUnlock => ReleaseParentKeepsInv(s, t, p, s');
      case AtErr =>
        QuietStep(s, s', t, [f.(at := AtFinish), Cancel(c, false, pn.err.value, Entry)], c);
      case _ => LookupKeepsInv(s, t, p, s');
    }
  }

  // ----- new calls

  lemma DoneKeepsInv(s: State, c: nat, s': State)
    requires Inv(s) && c < |s.nodes|
    requires s' == Put(s, c, s.nodes[c].(done := MadeDone(s.nodes[c].done)))
    ensures Inv(s')
  {
    forall y: nat | y < |s'.nodes| ensures NodeOk(s', y) {
      assert NodeOk(s, y);
      NewNodeOk(s, s', y);
    }
    forall u: nat, i: nat | u < |s'.threads| && i < |s'.threads[u]| ensures FrameOk(s', u, i) {
      assert FrameOk(s, u, i);
    }
    forall y: nat | y < |s'.nodes| ensures LinkOk(s', y) {
      assert LinkOk(s, y);
    }
  }

  lemma NewNodeOk(s: State, s': State, y: nat)
    requires NodeOk(s, y) && |s'.nodes| >= |s.nodes|
    requires forall z :: 0 <= z < |s.nodes| ==>
      s'.nodes[z] == s.nodes[z].(done := s'.nodes[z].done)
    requires Closed(s'.nodes[y].done) == Closed(s.nodes[y].done)
    requires s'.nodes[y].done == Own(true) <==> s.nodes[y].done == Own(true)
    requires s'.threads == s.threads || (|s'.threads| > |s.threads| && s'.threads[..|s.threads|] == s.threads)
    ensures NodeOk(s', y)
  {
    forall z | z in s'.nodes[y].children ensures IsChild(s', y, z) {
      assert IsChild(s, y, z);
    }
    var l := s.nodes[y].lock;
    if !l.Free? {
      assert s'.threads[l.thread] == s.threads[l.thread];
    }
  }

  /** A call begins in a goroutine of its own, on an existing or a new node. */
  lemma SpawnKeepsInv(s: State, s': State, f: Frame)
    requires Inv(s) && s'.threads == s.threads + [[f]]
    requires s'.nodes == s.nodes || (|s'.nodes| == |s.nodes| + 1 && s'.nodes[..|s.nodes|] == s.nodes)
    requires |s'.nodes| > |s.nodes| ==>
      var n := s'.nodes[|s.nodes|];
      && (n.parent.Some? ==> n.parent.value < |s.nodes|)
      && n == Node(n.parent, n.timer, NoChan, None, {}, Free, false, 0, false, false)
    requires f.node < |s'.nodes| && (f.Cancel? ==> f.pc.Entry?) && (f.Attach? ==> f.at.AtDone?)
    ensures Inv(s')
  {
    forall y: nat | y < |s'.nodes| ensures NodeOk(s', y) {
      if y < |s.nodes| {
        assert NodeOk(s, y);
        NewNodeOk(s, s', y);
      }
    }
    forall u: nat, i: nat | u < |s'.threads| && i < |s'.threads[u]| ensures FrameOk(s', u, i) {
      if u < |s.threads| {
        assert FrameOk(s, u, i);
        assert s'.threads[u] == s.threads[u];
        AtOldNode(s, s', s.threads[u][i].node);
      }
    }
    forall y: nat | y < |s'.nodes| ensures LinkOk(s', y) {
      if y < |s.nodes| {
        assert LinkOk(s, y);
        AtOldNode(s, s', y);
      }
    }
  }

  lemma AtOldNode(s: State, s': State, c: nat)
    requires c < |s.nodes|
    requires s'.nodes == s.nodes || (|s'.nodes| == |s.nodes| + 1 && s'.nodes[..|s.nodes|] == s.nodes)
    ensures s'.nodes[c] == s.nodes[c]
    ensures s.nodes[c].parent.Some? && s.nodes[c].parent.value < |s.nodes| ==>
      s'.nodes[s.nodes[c].parent.value] == s.nodes[s.nodes[c].parent.value]
  {
  }

  /** Every step of every goroutine keeps the invariant. */
  lemma StepKeepsInv(s: State, a: Action, s': State)
    requires Inv(s) && Step(s, a) == Some(s')
    ensures Inv(s')
  {
    match a
    case Advance(t, pick, expired) =>
      if Top(s, t).Cancel? {
        CancelStepKeepsInv(s, t, pick, s');
      } else {
        AttachStepKeepsInv(s, t, expired, s');
      }
    case CallCancel(c, remove) => SpawnKeepsInv(s, s', Cancel(c, remove, Canceled, Entry));
    case FireTimer(c) => SpawnKeepsInv(s, s', Cancel(c, true, DeadlineExceeded, Entry));
    case CallWith(_, _) => SpawnKeepsInv(s, s', Attach(|s.nodes|, AtDone));
    case CallDone(c) =>
      assert NodeOk(s, c);
      DoneKeepsInv(s, c, s');
  }
}
