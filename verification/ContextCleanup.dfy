/** What cancellation leaves behind: nothing.  Once its calls have returned, a cancelled
    context is not among its parent's children and its timer is stopped; and a context
    whose deadline is to come has its timer running. */
module ContextCleanup {
  import opened Common
  import opened Context
  import opened ContextInvariant
  import opened ContextSteps
  import opened ContextTheorems

  /** A frame that will take c off its parent's children. */
  predicate Removes(f: Frame, c: nat) {
    f.Cancel? && f.node == c && f.remove && !f.pc.Entry? && !f.pc.StopTimer?
  }

  /** A frame that will stop c's timer. */
  predicate Stops(f: Frame, c: nat) {
    f.Cancel? && f.node == c && !f.pc.Entry?
  }

  ghost predicate Removing(s: State, c: nat) {
    exists t: nat, i: nat :: t < |s.threads| && i < |s.threads[t]| && Removes(s.threads[t][i], c)
  }

  ghost predicate Stopping(s: State, c: nat) {
    exists t: nat, i: nat :: t < |s.threads| && i < |s.threads[t]| && Stops(s.threads[t][i], c)
  }

  /** propagateCancel has not settled the node yet. */
  predicate Early(at: AttachPc) {
    at.AtDone? || at.AtSelect? || at.AtErr? || at.AtLookup? || at.AtCompare? || at.AtInsert?
  }

  predicate Untouched(n: Node) {
    n.err.None? && !n.linked && !n.armed && !n.published
  }

  ghost predicate NoCancelOn(s: State, c: nat) {
    forall t: nat, i: nat :: t < |s.threads| && i < |s.threads[t]| ==> NotOn(s.threads[t][i], c)
  }

  predicate NotOn(f: Frame, c: nat) {
    f.Cancel? ==> f.node != c
  }

  predicate NodeClean(s: State, c: nat) {
    && c < |s.nodes|
    && var n := s.nodes[c];
    && (Complete(n) ==> n.children == {})
    && (forall z :: z in n.children ==> z < |s.nodes| && s.nodes[z].linked)
    && (n.armed ==> n.timer)
    && (n.published && n.timer && n.err.None? ==> n.armed)
  }

  /** c is where a cancellation of its parent would find it. */
  predicate Listed(s: State, c: nat) {
    && c < |s.nodes| && s.nodes[c].parent.Some? && s.nodes[c].parent.value < |s.nodes|
    && c in s.nodes[s.nodes[c].parent.value].children
  }

  ghost predicate ChildClean(s: State, c: nat) {
    Listed(s, c) && s.nodes[c].err.Some? && s.nodes[s.nodes[c].parent.value].err.None? ==> Removing(s, c)
  }

  ghost predicate TimerClean(s: State, c: nat) {
    c < |s.nodes| && s.nodes[c].armed && s.nodes[c].err.Some? ==> Stopping(s, c)
  }

  ghost predicate FrameClean(s: State, t: nat, i: nat) {
    && t < |s.threads| && i < |s.threads[t]|
    && var st := s.threads[t];
    && var f := st[i];
    if f.Cancel? then
      !f.remove ==>
        if i == 0 then f.node < |s.nodes| && s.nodes[f.node].err.Some?
        else st[i - 1].Attach? ==> !st[i - 1].at.AtReturn?
    else AttachClean(s, f, i == |st| - 1)
  }

  ghost predicate AttachClean(s: State, f: Frame, top: bool)
    requires f.Attach?
  {
    && f.node < |s.nodes|
    && (Early(f.at) ==> Untouched(s.nodes[f.node]) && NoCancelOn(s, f.node))
    && ((f.at.AtUnlock? || f.at.AtFinish?) && !top ==> !s.nodes[f.node].linked)
    && (f.at.AtReturn? && top ==> !s.nodes[f.node].timer || s.nodes[f.node].err.Some? || s.nodes[f.node].armed)
  }

  /** One call of WithCancel or WithDeadline makes each node. */
  ghost predicate OneMaker(s: State) {
    forall t: nat, i: nat, u: nat, j: nat ::
      t < |s.threads| && i < |s.threads[t]| && u < |s.threads| && j < |s.threads[u]|
      && s.threads[t][i].Attach? && s.threads[u][j].Attach? && s.threads[t][i].node == s.threads[u][j].node ==>
        t == u && i == j
  }

  ghost predicate Clean(s: State) {
    && (forall c: nat :: c < |s.nodes| ==> NodeClean(s, c))
    && (forall c: nat :: c < |s.nodes| ==> ChildClean(s, c))
    && (forall c: nat :: c < |s.nodes| ==> TimerClean(s, c))
    && (forall t: nat, i: nat :: t < |s.threads| && i < |s.threads[t]| ==> FrameClean(s, t, i))
    && OneMaker(s)
  }

  // ----- the steps of cancel

  /** What a step of cancel on node x may do to node y. */
  predicate CancelNode(s: State, s': State, f: Frame, y: nat)
    requires f.Cancel?
  {
    && y < |s.nodes| == |s'.nodes|
    && var n, n' := s.nodes[y], s'.nodes[y];
    && n'.parent == n.parent && n'.timer == n.timer && n'.linked == n.linked && n'.published == n.published
    && n'.children <= n.children
    && (n'.err != n.err ==> y == f.node && n.err.None? && f.pc.Entry? && n'.err == Some(f.err) && n'.lock.InCancel?)
    && (n'.armed != n.armed ==> y == f.node && f.pc.StopTimer? && !n'.armed)
    && (Complete(n') && !Complete(n) ==> n'.children == {})
  }

  lemma CancelNodes(s: State, t: nat, pick: nat, s': State, y: nat)
    requires TopExists(s, t) && Top(s, t).Cancel? && AdvanceCancel(s, t, pick) == Some(s') && y < |s.nodes|
    ensures CancelNode(s, s', Top(s, t), y)
  {
    match Top(s, t).pc
    case Entry => EntryNode(s, t, pick, s', y);
    case Looping(_) => LoopingNode(s, t, pick, s', y);
    case StopTimer => StopNode(s, t, pick, s', y);
    case RemoveDone => RemoveDoneNode(s, t, pick, s', y);
    case _ => RemoveNode(s, t, pick, s', y);
  }

  lemma EntryNode(s: State, t: nat, pick: nat, s': State, y: nat)
    requires TopExists(s, t) && Top(s, t).Cancel? && AdvanceCancel(s, t, pick) == Some(s') && y < |s.nodes|
    requires Top(s, t).pc.Entry?
    ensures CancelNode(s, s', Top(s, t), y)
  {
  }

  lemma LoopingNode(s: State, t: nat, pick: nat, s': State, y: nat)
    requires TopExists(s, t) && Top(s, t).Cancel? && AdvanceCancel(s, t, pick) == Some(s') && y < |s.nodes|
    requires Top(s, t).pc.Looping?
    ensures CancelNode(s, s', Top(s, t), y)
  {
  }

  lemma StopNode(s: State, t: nat, pick: nat, s': State, y: nat)
    requires TopExists(s, t) && Top(s, t).Cancel? && AdvanceCancel(s, t, pick) == Some(s') && y < |s.nodes|
    requires Top(s, t).pc.StopTimer?
    ensures CancelNode(s, s', Top(s, t), y)
  {
  }

  lemma RemoveDoneNode(s: State, t: nat, pick: nat, s': State, y: nat)
    requires TopExists(s, t) && Top(s, t).Cancel? && AdvanceCancel(s, t, pick) == Some(s') && y < |s.nodes|
    requires Top(s, t).pc.RemoveDone?
    ensures CancelNode(s, s', Top(s, t), y)
  {
  }

  lemma RemoveNode(s: State, t: nat, pick: nat, s': State, y: nat)
    requires TopExists(s, t) && Top(s, t).Cancel? && AdvanceCancel(s, t, pick) == Some(s') && y < |s.nodes|
    requires Top(s, t).pc.RemoveCompare? || Top(s, t).pc.RemoveDelete?
    ensures CancelNode(s, s', Top(s, t), y)
  {
  }

  /** The stacks after a step of cancel: the frame moves on, returns, or calls cancel
      on one of the children. */
  predicate CancelStack(s: State, s': State, t: nat, pick: nat)
    requires Running(s, t) && Top(s, t).Cancel?
  {
    var k, f, st := |s.threads[t]| - 1, Top(s, t), s'.threads;
    && |st| == |s.threads| && (forall u :: 0 <= u < |st| && u != t ==> st[u] == s.threads[u])
    && k <= |st[t]| <= k + 2 && st[t][..k] == s.threads[t][..k]
    && (|st[t]| > k ==> st[t][k].Cancel? && st[t][k] == f.(pc := st[t][k].pc) && !st[t][k].pc.Entry?)
    && (|st[t]| == k + 2 ==>
          f.pc.Looping? && pick in f.pc.pending && st[t][k + 1] == Cancel(pick, false, f.err, Entry))
  }

  lemma CancelStacks(s: State, t: nat, pick: nat, s': State)
    requires TopExists(s, t) && Top(s, t).Cancel? && AdvanceCancel(s, t, pick) == Some(s')
    ensures CancelStack(s, s', t, pick)
  {
    if Top(s, t).pc.Looping? || Top(s, t).pc.Entry? {
      LoopStacks(s, t, pick, s');
    } else {
      AfterStacks(s, t, pick, s');
    }
  }

  lemma LoopStacks(s: State, t: nat, pick: nat, s': State)
    requires TopExists(s, t) && Top(s, t).Cancel? && AdvanceCancel(s, t, pick) == Some(s')
    requires Top(s, t).pc.Looping? || Top(s, t).pc.Entry?
    ensures CancelStack(s, s', t, pick)
  {
    hide CloseDone, MadeDone;
  }

  lemma AfterStacks(s: State, t: nat, pick: nat, s': State)
    requires TopExists(s, t) && Top(s, t).Cancel? && AdvanceCancel(s, t, pick) == Some(s')
    requires !Top(s, t).pc.Looping? && !Top(s, t).pc.Entry?
    ensures CancelStack(s, s', t, pick)
  {
    hide CloseDone, MadeDone;
  }

  /** The frames below the top of the running goroutine, and all the others, stay. */
  lemma CancelStays(s: State, s': State, t: nat, pick: nat, u: nat, i: nat)
    requires Running(s, t) && Top(s, t).Cancel? && CancelStack(s, s', t, pick)
    requires u < |s.threads| && i < |s.threads[u]| && (u != t || i < |s.threads[t]| - 1)
    ensures u < |s'.threads| && i < |s'.threads[u]| && s'.threads[u][i] == s.threads[u][i]
  {
    var k := |s.threads[t]| - 1;
    if u == t {
      assert s'.threads[t][..k][i] == s.threads[t][..k][i];
    }
  }

  /** When a cancellation that is to take the node off its parent's children leaves
      that part, the node is not there, or the parent is cancelled itself. */
  lemma RemovalDone(s: State, t: nat, pick: nat, s': State)
    requires Inv(s) && Clean(s) && TopExists(s, t) && Top(s, t).Cancel? && AdvanceCancel(s, t, pick) == Some(s')
    requires Removes(Top(s, t), Top(s, t).node)
    requires |s'.threads[t]| >= |s.threads[t]| ==> !Removes(s'.threads[t][|s.threads[t]| - 1], Top(s, t).node)
    ensures Listed(s', Top(s, t).node) ==> s'.nodes[s'.nodes[Top(s, t).node].parent.value].err.Some?
  {
    hide Inv, Clean, FrameOk, NodeOk, LinkOk;
    var f := Top(s, t);
    assert CancelOk(s, f) by { AboutTop(s, t); TopCancelOk(s, t); }
    if s.nodes[f.node].parent.Some? {
      var p := s.nodes[f.node].parent.value;
      SharedIsCancelled(s, p);
    }
  }

  lemma TopCancelOk(s: State, t: nat)
    requires Running(s, t) && FrameOk(s, t, |s.threads[t]| - 1) && Top(s, t).Cancel?
    ensures Top(s, t).node < |s.nodes| && CancelOk(s, Top(s, t))
  {
  }

  lemma SharedIsCancelled(s: State, p: nat)
    requires Inv(s) && p < |s.nodes|
    ensures s.nodes[p].done.Shared? ==> s.nodes[p].err.Some?
  {
    assert NodeOk(s, p);
  }

  /** A step of cancel as the predicates above describe it. */
  ghost predicate CancelStep(s: State, s': State, t: nat, pick: nat) {
    && Inv(s) && Clean(s) && TopExists(s, t) && Top(s, t).Cancel? && AdvanceCancel(s, t, pick) == Some(s')
    && CancelOk(s, Top(s, t)) && CancelStack(s, s', t, pick)
    && forall y: nat :: y < |s.nodes| ==> CancelNode(s, s', Top(s, t), y)
  }

  lemma CancelNodeClean(s: State, s': State, t: nat, pick: nat, y: nat)
    requires CancelStep(s, s', t, pick) && y < |s.nodes|
    ensures NodeClean(s', y)
  {
    hide Inv, AdvanceCancel, CancelStack, ChildClean, TimerClean, FrameClean, OneMaker;
    assert NodeClean(s, y) && CancelNode(s, s', Top(s, t), y);
    forall z | z in s'.nodes[y].children ensures z < |s'.nodes| && s'.nodes[z].linked {
      assert CancelNode(s, s', Top(s, t), z);
    }
  }

  lemma CancelChildClean(s: State, s': State, t: nat, pick: nat, c: nat)
    requires CancelStep(s, s', t, pick) && c < |s.nodes|
    ensures ChildClean(s', c)
  {
    if Listed(s', c) && s'.nodes[c].err.Some? && s'.nodes[s'.nodes[c].parent.value].err.None? {
      hide Inv, AdvanceCancel, CancelStack, TimerClean, NodeClean, OneMaker;
      var k, f := |s.threads[t]| - 1, Top(s, t);
      var p := s.nodes[c].parent.value;
      assert CancelNode(s, s', f, c) && CancelNode(s, s', f, p);
      assert Listed(s, c) && ChildClean(s, c);
      if s.nodes[c].err.None? {
        EnteredRemoves(s, s', t, pick, c);
      } else {
        var u: nat, j: nat :| u < |s.threads| && j < |s.threads[u]| && Removes(s.threads[u][j], c);
        if u != t || j < k {
          CancelStays(s, s', t, pick, u, j);
        } else if |s'.threads[t]| > k && Removes(s'.threads[t][k], c) {
        } else {
          RemovalDone(s, t, pick, s');
        }
      }
    }
  }

  /** A child that is not cancelled by its parent's loop is cancelled with removal. */
  lemma EnteredRemoves(s: State, s': State, t: nat, pick: nat, c: nat)
    requires CancelStep(s, s', t, pick) && Listed(s, c) && s.nodes[c].err.None? && s'.nodes[c].err.Some?
    requires s.nodes[s.nodes[c].parent.value].err.None?
    ensures Removing(s', c)
  {
    var k, f := |s.threads[t]| - 1, Top(s, t);
    assert CancelNode(s, s', f, c);
    EnteredStays(s, s', t, pick);
    if !f.remove {
      NotRemoving(s, t, c);
    }
    assert Removes(s'.threads[t][k], c);
  }

  lemma EnteredStays(s: State, s': State, t: nat, pick: nat)
    requires TopExists(s, t) && Top(s, t).Cancel? && AdvanceCancel(s, t, pick) == Some(s')
    requires Top(s, t).pc.Entry? && s.nodes[Top(s, t).node].err.None?
    ensures t < |s'.threads| && |s'.threads[t]| == |s.threads[t]|
    ensures var f' := s'.threads[t][|s.threads[t]| - 1]; f'.Cancel? && f' == Top(s, t).(pc := f'.pc) && f'.pc.Looping?
  {
    hide CloseDone;
  }

  /** cancel(false) is called by the loop on the parent, or on a node that is not a child
      of its parent. */
  lemma NotRemoving(s: State, t: nat, c: nat)
    requires Inv(s) && Clean(s) && Running(s, t) && Top(s, t).Cancel? && Top(s, t).node == c && !Top(s, t).remove
    requires Listed(s, c) && s.nodes[c].err.None?
    ensures s.nodes[s.nodes[c].parent.value].err.Some?
  {
    hide LinkOk, ChildClean, TimerClean, OneMaker;
    var k, p := |s.threads[t]| - 1, s.nodes[c].parent.value;
    assert FrameClean(s, t, k) && FrameOk(s, t, k) && FrameOk(s, t, k - 1);
    if s.threads[t][k - 1].Attach? {
      MadeIsUnlisted(s, t, c);
    }
  }

  lemma MadeIsUnlisted(s: State, t: nat, c: nat)
    requires Clean(s) && Listed(s, c) && Running(s, t) && |s.threads[t]| > 1
    requires var f := s.threads[t][|s.threads[t]| - 2]; f.Attach? && f.node == c
    ensures s.threads[t][|s.threads[t]| - 2].at.AtReturn? || !Suspended(s.threads[t][|s.threads[t]| - 2])
  {
    hide ChildClean, TimerClean, OneMaker;
    assert FrameClean(s, t, |s.threads[t]| - 2) && NodeClean(s, s.nodes[c].parent.value);
  }

  lemma CancelTimerClean(s: State, s': State, t: nat, pick: nat, c: nat)
    requires CancelStep(s, s', t, pick) && c < |s.nodes|
    ensures TimerClean(s', c)
  {
    if s'.nodes[c].armed && s'.nodes[c].err.Some? {
      hide Inv, AdvanceCancel, CancelStack, ChildClean, OneMaker, FrameClean;
      var k, f := |s.threads[t]| - 1, Top(s, t);
      assert CancelNode(s, s', f, c) && TimerClean(s, c) && NodeClean(s, c);
      if s.nodes[c].err.None? {
        EnteredStays(s, s', t, pick);
        assert Stops(s'.threads[t][k], c);
      } else {
        var u: nat, j: nat :| u < |s.threads| && j < |s.threads[u]| && Stops(s.threads[u][j], c);
        if u != t || j < k {
          CancelStays(s, s', t, pick, u, j);
          assert Stops(s'.threads[u][j], c);
        } else {
          TimerStops(s, s', t, pick);
          assert Stops(s'.threads[t][k], c);
        }
      }
    }
  }

  /** A cancellation returns to its caller only when the timer has been stopped. */
  lemma TimerStops(s: State, s': State, t: nat, pick: nat)
    requires TopExists(s, t) && Top(s, t).Cancel? && AdvanceCancel(s, t, pick) == Some(s') && !Top(s, t).pc.Entry?
    requires s.nodes[Top(s, t).node].timer && s'.nodes[Top(s, t).node].armed
    ensures t < |s'.threads| && |s'.threads[t]| >= |s.threads[t]|
    ensures Stops(s'.threads[t][|s.threads[t]| - 1], Top(s, t).node)
  {
    hide MadeDone;
  }

  /** A new call of cancel is on a child, and no maker of it is still at work. */
  lemma CancelAttachClean(s: State, s': State, t: nat, pick: nat, u: nat, i: nat)
    requires CancelStep(s, s', t, pick) && u < |s.threads| && i < |s.threads[u]| && s.threads[u][i].Attach?
    requires Early(s.threads[u][i].at)
    ensures s.threads[u][i].node < |s'.nodes|
    ensures Untouched(s'.nodes[s.threads[u][i].node]) && NoCancelOn(s', s.threads[u][i].node)
  {
    hide Inv, AdvanceCancel, ChildClean, TimerClean, OneMaker, CancelStack;
    var k, f, c := |s.threads[t]| - 1, Top(s, t), s.threads[u][i].node;
    assert FrameClean(s, u, i);
    assert NotOn(s.threads[t][k], c);
    assert CancelNode(s, s', f, c);
    forall v: nat, j: nat | v < |s'.threads| && j < |s'.threads[v]| ensures NotOn(s'.threads[v][j], c) {
      CancelNotOn(s, s', t, pick, c, v, j);
    }
  }

  lemma CancelNotOn(s: State, s': State, t: nat, pick: nat, c: nat, v: nat, j: nat)
    requires CancelStep(s, s', t, pick) && c < |s.nodes| && !s.nodes[c].linked && NoCancelOn(s, c)
    requires v < |s'.threads| && j < |s'.threads[v]|
    ensures NotOn(s'.threads[v][j], c)
  {
    hide Inv, AdvanceCancel, ChildClean, TimerClean, OneMaker, FrameClean;
    var k, f := |s.threads[t]| - 1, Top(s, t);
    assert NotOn(s.threads[t][k], c);
    if v != t || j < k {
      assert s'.threads[v][j] == s.threads[v][j] by {
        if v == t { assert s'.threads[t][..k][j] == s.threads[t][..k][j]; }
      }
      assert NotOn(s.threads[v][j], c);
    } else if j == k + 1 {
      PendingIsLinked(s, t, pick);
    }
  }

  lemma PendingIsLinked(s: State, t: nat, pick: nat)
    requires Inv(s) && Clean(s) && Running(s, t) && Top(s, t).Cancel? && Top(s, t).pc.Looping?
    requires pick in Top(s, t).pc.pending
    ensures pick < |s.nodes| && s.nodes[pick].linked
  {
    hide LinkOk, ChildClean, TimerClean, OneMaker, FrameClean, NodeOk;
    assert FrameOk(s, t, |s.threads[t]| - 1) && NodeClean(s, Top(s, t).node);
  }

  lemma CancelFrameClean(s: State, s': State, t: nat, pick: nat, u: nat, i: nat)
    requires CancelStep(s, s', t, pick) && u < |s'.threads| && i < |s'.threads[u]|
    ensures FrameClean(s', u, i)
  {
    hide Inv, AdvanceCancel, ChildClean, TimerClean, OneMaker;
    var k, f := |s.threads[t]| - 1, Top(s, t);
    assert FrameClean(s, t, k) && CancelNode(s, s', f, f.node);
    if u != t || i < k {
      CancelStays(s, s', t, pick, u, i);
      assert FrameClean(s, u, i);
      if i > 0 { CancelStays(s, s', t, pick, u, i - 1); }
      if s.threads[u][i].node < |s.nodes| { assert CancelNode(s, s', f, s.threads[u][i].node); }
      if s.threads[u][i].Attach? {
        if Early(s.threads[u][i].at) {
          CancelAttachClean(s, s', t, pick, u, i);
        }
        if u == t && i == k - 1 && |s'.threads[t]| == k && s.threads[u][i].at.AtReturn? {
          ReturnedComplete(s, s', t, pick);
        }
      }
    } else {
      if i > 0 && i == k { CancelStays(s, s', t, pick, u, i - 1); }
    }
  }

  /** A call of cancel that WithDeadline makes on its new node returns when it is cancelled. */
  lemma ReturnedComplete(s: State, s': State, t: nat, pick: nat)
    requires Inv(s) && TopExists(s, t) && Top(s, t).Cancel? && AdvanceCancel(s, t, pick) == Some(s')
    requires |s.threads[t]| > 1 && |s'.threads[t]| == |s.threads[t]| - 1 && s.threads[t][|s.threads[t]| - 2].Attach?
    ensures s.threads[t][|s.threads[t]| - 2].node == Top(s, t).node
    ensures Top(s, t).node < |s'.nodes| && s'.nodes[Top(s, t).node].err.Some?
  {
    hide NodeOk, LinkOk;
    assert FrameOk(s, t, |s.threads[t]| - 1);
    hide FrameOk;
    ReturnsComplete(s, s', t, pick);
  }

  lemma ReturnsComplete(s: State, s': State, t: nat, pick: nat)
    requires TopExists(s, t) && Top(s, t).Cancel? && AdvanceCancel(s, t, pick) == Some(s')
    requires CancelOk(s, Top(s, t)) && |s'.threads[t]| == |s.threads[t]| - 1
    ensures Top(s, t).node < |s'.nodes| && s'.nodes[Top(s, t).node].err.Some?
  {
    hide MadeDone;
  }

  lemma CancelOneMaker(s: State, s': State, t: nat, pick: nat)
    requires CancelStep(s, s', t, pick)
    ensures OneMaker(s')
  {
    hide Inv, AdvanceCancel, ChildClean, TimerClean, FrameClean, NodeClean;
    var k := |s.threads[t]| - 1;
    forall v: nat, j: nat | v < |s'.threads| && j < |s'.threads[v]| && s'.threads[v][j].Attach?
      ensures v < |s.threads| && j < |s.threads[v]| && s.threads[v][j] == s'.threads[v][j]
    {
      if v == t && j < k { assert s'.threads[t][..k][j] == s.threads[t][..k][j]; }
    }
  }

  lemma CancelKeepsClean(s: State, t: nat, pick: nat, s': State)
    requires Inv(s) && Clean(s) && TopExists(s, t) && Top(s, t).Cancel? && AdvanceCancel(s, t, pick) == Some(s')
    ensures Clean(s')
  {
    hide Inv, AdvanceCancel, CancelStack, CancelNode, NodeClean, ChildClean, TimerClean, FrameClean, OneMaker;
    CancelStacks(s, t, pick, s');
    forall y: nat | y < |s.nodes| ensures CancelNode(s, s', Top(s, t), y) { CancelNodes(s, t, pick, s', y); }
    NodeCount(s, t, pick, s');
    AboutTop(s, t);
    TopCancelOk(s, t);
    assert CancelStep(s, s', t, pick);
    forall c: nat | c < |s'.nodes| ensures NodeClean(s', c) && ChildClean(s', c) && TimerClean(s', c) {
      CancelNodeClean(s, s', t, pick, c);
      CancelChildClean(s, s', t, pick, c);
      CancelTimerClean(s, s', t, pick, c);
    }
    forall u: nat, i: nat | u < |s'.threads| && i < |s'.threads[u]| ensures FrameClean(s', u, i) {
      CancelFrameClean(s, s', t, pick, u, i);
    }
    CancelOneMaker(s, s', t, pick);
  }

  lemma NodeCount(s: State, t: nat, pick: nat, s': State)
    requires TopExists(s, t) && Top(s, t).Cancel? && AdvanceCancel(s, t, pick) == Some(s')
    ensures |s'.nodes| == |s.nodes|
  {
    hide MadeDone, CloseDone;
  }

  // ----- the steps of propagateCancel and WithDeadline

  /** What a step of the maker of node x may do to node y. */
  predicate AttachNode(s: State, s': State, f: Frame, y: nat)
    requires f.Attach?
  {
    && y < |s.nodes| == |s'.nodes| && f.node < |s.nodes|
    && var n, n' := s.nodes[y], s'.nodes[y];
    && n'.parent == n.parent && n'.timer == n.timer && n'.err == n.err && (Complete(n') <==> Complete(n))
    && (n'.linked != n.linked ==> y == f.node && n'.linked && (f.at.AtInsert? || f.at.AtFinish?))
    && (n'.published != n.published ==> y == f.node && n'.published && f.at.AtReturn?)
    && (n'.armed != n.armed ==> y == f.node && n'.armed && n.err.None? && n.timer && f.at.AtFinish?)
    && (n'.children != n.children ==>
          && f.at.AtInsert? && s.nodes[f.node].parent == Some(y) && n.err.None?
          && n'.children == n.children + {f.node} && s'.nodes[f.node].linked)
  }

  lemma AttachNodes(s: State, t: nat, expired: bool, s': State, y: nat)
    requires Inv(s) && TopExists(s, t) && Top(s, t).Attach? && AdvanceAttach(s, t, expired) == Some(s') && y < |s.nodes|
    ensures AttachNode(s, s', Top(s, t), y)
  {
    var at := Top(s, t).at;
    if at.AtInsert? {
      InsertNode(s, t, expired, s', y);
    } else if at.AtFinish? || at.AtReturn? {
      OwnNode(s, t, expired, s', y);
    } else {
      UnlocksOwn(s, t);
      OtherNode(s, t, expired, s', y);
    }
  }

  lemma UnlocksOwn(s: State, t: nat)
    requires Inv(s) && TopExists(s, t) && Top(s, t).Attach?
    ensures Top(s, t).at.AtUnlock? && s.nodes[Top(s, t).node].parent.Some? ==>
      !s.nodes[s.nodes[Top(s, t).node].parent.value].lock.InCancel?
  {
    hide LinkOk, NodeOk;
    assert FrameOk(s, t, |s.threads[t]| - 1);
  }

  lemma InsertNode(s: State, t: nat, expired: bool, s': State, y: nat)
    requires TopExists(s, t) && Top(s, t).Attach? && AdvanceAttach(s, t, expired) == Some(s') && y < |s.nodes|
    requires Top(s, t).at.AtInsert?
    ensures AttachNode(s, s', Top(s, t), y)
  {
  }

  lemma OwnNode(s: State, t: nat, expired: bool, s': State, y: nat)
    requires TopExists(s, t) && Top(s, t).Attach? && AdvanceAttach(s, t, expired) == Some(s') && y < |s.nodes|
    requires Top(s, t).at.AtFinish? || Top(s, t).at.AtReturn?
    ensures AttachNode(s, s', Top(s, t), y)
  {
  }

  /** Only AtUnlock gives up a lock, and it is its own, not one of cancel. */
  lemma OtherNode(s: State, t: nat, expired: bool, s': State, y: nat)
    requires TopExists(s, t) && Top(s, t).Attach? && AdvanceAttach(s, t, expired) == Some(s') && y < |s.nodes|
    requires !Top(s, t).at.AtInsert? && !Top(s, t).at.AtFinish? && !Top(s, t).at.AtReturn?
    requires Top(s, t).at.AtUnlock? && s.nodes[Top(s, t).node].parent.Some? ==>
      !s.nodes[s.nodes[Top(s, t).node].parent.value].lock.InCancel?
    ensures AttachNode(s, s', Top(s, t), y)
  {
  }

  predicate AttachStack(s: State, s': State, t: nat, a: Frame)
    requires Running(s, t) && Top(s, t).Attach?
  {
    var k, st := |s.threads[t]| - 1, s'.threads;
    && |st| == |s.threads| && (forall u :: 0 <= u < |st| && u != t ==> st[u] == s.threads[u])
    && k <= |st[t]| <= k + 2 && st[t][..k] == s.threads[t][..k]
    && (|st[t]| > k ==> st[t][k] == a && a.Attach? && a.node == Top(s, t).node)
    && (|st[t]| > k && Early(a.at) ==> Early(Top(s, t).at) && !Top(s, t).at.AtInsert? && |st[t]| == k + 1)
    && (|st[t]| == k + 2 ==>
          && (a.at.AtUnlock? || a.at.AtFinish? || a.at.AtReturn?) && (!a.at.AtReturn? ==> Early(Top(s, t).at))
          && st[t][k + 1].Cancel? && st[t][k + 1].pc.Entry? && st[t][k + 1].node == a.node
          && (st[t][k + 1].remove <==> a.at.AtReturn?))
    && (|st[t]| == k + 1 && a.at.AtReturn? && a.node < |s'.nodes| ==>
          var n := s'.nodes[a.node]; !n.timer || n.err.Some? || n.armed)
    && (|st[t]| == k ==> Top(s, t).at.AtReturn?)
    && (Early(Top(s, t).at) && |st[t]| > k && !Early(a.at) && |st[t]| == k + 2 ==>
          a.node < |s.nodes| && a.node < |s'.nodes| && s'.nodes[a.node].linked == s.nodes[a.node].linked)
  }

  lemma AttachStacks(s: State, t: nat, expired: bool, s': State) returns (a: Frame)
    requires TopExists(s, t) && Top(s, t).Attach? && AdvanceAttach(s, t, expired) == Some(s')
    ensures AttachStack(s, s', t, a)
  {
    if Early(Top(s, t).at) {
      a := EarlyStacks(s, t, expired, s');
    } else {
      a := LateStacks(s, t, expired, s');
    }
  }

  lemma EarlyStacks(s: State, t: nat, expired: bool, s': State) returns (a: Frame)
    requires TopExists(s, t) && Top(s, t).Attach? && AdvanceAttach(s, t, expired) == Some(s')
    requires Early(Top(s, t).at)
    ensures AttachStack(s, s', t, a)
  {
    hide MadeDone, Closed;
    var k := |s.threads[t]| - 1;
    a := s'.threads[t][k];
  }

  lemma LateStacks(s: State, t: nat, expired: bool, s': State) returns (a: Frame)
    requires TopExists(s, t) && Top(s, t).Attach? && AdvanceAttach(s, t, expired) == Some(s')
    requires !Early(Top(s, t).at)
    ensures AttachStack(s, s', t, a)
  {
    hide MadeDone, Closed;
    var k := |s.threads[t]| - 1;
    a := if |s'.threads[t]| > k then s'.threads[t][k] else Top(s, t);
  }

  ghost predicate AttachStep(s: State, s': State, t: nat, a: Frame) {
    && Clean(s) && TopExists(s, t) && Top(s, t).Attach? && AttachStack(s, s', t, a)
    && |s'.nodes| == |s.nodes| && |s.threads[t]| == 1
    && forall y: nat :: y < |s.nodes| ==> AttachNode(s, s', Top(s, t), y)
  }

  lemma AttachStays(s: State, s': State, t: nat, a: Frame, u: nat, i: nat)
    requires Running(s, t) && Top(s, t).Attach? && AttachStack(s, s', t, a)
    requires u < |s.threads| && i < |s.threads[u]| && (u != t || i < |s.threads[t]| - 1)
    ensures u < |s'.threads| && i < |s'.threads[u]| && s'.threads[u][i] == s.threads[u][i]
  {
    var k := |s.threads[t]| - 1;
    if u == t {
      assert s'.threads[t][..k][i] == s.threads[t][..k][i];
    }
  }

  /** What is known about a node that is still being made. */
  lemma MakerClean(s: State, t: nat)
    requires Clean(s) && Running(s, t) && Top(s, t).Attach?
    ensures AttachClean(s, Top(s, t), true)
  {
    hide NodeClean, ChildClean, TimerClean, OneMaker;
    assert FrameClean(s, t, |s.threads[t]| - 1);
  }

  lemma AttachNodeClean(s: State, s': State, t: nat, a: Frame, y: nat)
    requires AttachStep(s, s', t, a) && y < |s.nodes|
    ensures NodeClean(s', y)
  {
    MakerClean(s, t);
    hide AttachStack, ChildClean, TimerClean, FrameClean, OneMaker;
    assert NodeClean(s, y) && AttachNode(s, s', Top(s, t), y);
    forall z | z in s'.nodes[y].children ensures z < |s'.nodes| && s'.nodes[z].linked {
      if z in s.nodes[y].children { assert AttachNode(s, s', Top(s, t), z); }
    }
  }

  lemma AttachChildClean(s: State, s': State, t: nat, a: Frame, c: nat)
    requires AttachStep(s, s', t, a) && c < |s.nodes|
    ensures ChildClean(s', c) && TimerClean(s', c)
  {
    MakerClean(s, t);
    hide AttachStack, NodeClean, FrameClean, OneMaker, Complete;
    var k, f := |s.threads[t]| - 1, Top(s, t);
    assert ChildClean(s, c) && TimerClean(s, c) && AttachNode(s, s', f, c);
    if Listed(s', c) && s'.nodes[c].err.Some? && s'.nodes[s'.nodes[c].parent.value].err.None? {
      assert AttachNode(s, s', f, s.nodes[c].parent.value);
      assert Listed(s, c);
      var u: nat, j: nat :| u < |s.threads| && j < |s.threads[u]| && Removes(s.threads[u][j], c);
      AttachStays(s, s', t, a, u, j);
      assert Removes(s'.threads[u][j], c);
    }
    if s'.nodes[c].armed && s'.nodes[c].err.Some? {
      var u: nat, j: nat :| u < |s.threads| && j < |s.threads[u]| && Stops(s.threads[u][j], c);
      AttachStays(s, s', t, a, u, j);
      assert Stops(s'.threads[u][j], c);
    }
  }

  lemma OtherMaker(s: State, t: nat, u: nat, i: nat)
    requires Clean(s) && Running(s, t) && Top(s, t).Attach?
    requires u < |s.threads| && i < |s.threads[u]| && s.threads[u][i].Attach? && (u != t || i < |s.threads[t]| - 1)
    ensures s.threads[u][i].node != Top(s, t).node
  {
    hide NodeClean, ChildClean, TimerClean, FrameClean;
  }

  /** No call of cancel begins on the node of another maker. */
  lemma AttachNotOn(s: State, s': State, t: nat, a: Frame, c: nat)
    requires AttachStep(s, s', t, a) && NoCancelOn(s, c)
    requires c != a.node || |s'.threads[t]| != |s.threads[t]| + 1
    ensures NoCancelOn(s', c)
  {
    hide Clean, AttachNode;
    var k := |s.threads[t]| - 1;
    forall v: nat, j: nat | v < |s'.threads| && j < |s'.threads[v]| ensures NotOn(s'.threads[v][j], c) {
      if v != t { assert NotOn(s.threads[v][j], c); }
    }
  }

  lemma AttachFrameClean(s: State, s': State, t: nat, a: Frame, u: nat, i: nat)
    requires AttachStep(s, s', t, a) && u < |s'.threads| && i < |s'.threads[u]|
    ensures FrameClean(s', u, i)
  {
    hide ChildClean, TimerClean, OneMaker, NodeClean, NoCancelOn;
    var k, f := |s.threads[t]| - 1, Top(s, t);
    MakerClean(s, t);
    assert AttachNode(s, s', f, f.node);
    if u != t || i < k {
      AttachStays(s, s', t, a, u, i);
      assert FrameClean(s, u, i);
      if i > 0 { AttachStays(s, s', t, a, u, i - 1); }
      if s.threads[u][i].node < |s.nodes| { assert AttachNode(s, s', f, s.threads[u][i].node); }
      if s.threads[u][i].Attach? {
        OtherMaker(s, t, u, i);
        if Early(s.threads[u][i].at) {
          AttachNotOn(s, s', t, a, s.threads[u][i].node);
        }
      }
    } else if i == k {
      if Early(a.at) {
        AttachNotOn(s, s', t, a, a.node);
      }
    }
  }

  lemma AttachOneMaker(s: State, s': State, t: nat, a: Frame)
    requires AttachStep(s, s', t, a)
    ensures OneMaker(s')
  {
    hide ChildClean, TimerClean, FrameClean, NodeClean, AttachNode;
    var k := |s.threads[t]| - 1;
    forall v: nat, j: nat | v < |s'.threads| && j < |s'.threads[v]| && s'.threads[v][j].Attach?
      ensures v < |s.threads| && j < |s.threads[v]| && s.threads[v][j].Attach?
      ensures s.threads[v][j].node == s'.threads[v][j].node
    {
    }
  }

  lemma AttachKeepsClean(s: State, t: nat, expired: bool, s': State)
    requires Inv(s) && Clean(s) && TopExists(s, t) && Top(s, t).Attach? && AdvanceAttach(s, t, expired) == Some(s')
    ensures Clean(s')
  {
    hide Inv, AdvanceAttach, AttachStack, AttachNode, NodeClean, ChildClean, TimerClean, FrameClean, OneMaker;
    var a := AttachStacks(s, t, expired, s');
    forall y: nat | y < |s.nodes| ensures AttachNode(s, s', Top(s, t), y) { AttachNodes(s, t, expired, s', y); }
    AttachCount(s, t, expired, s');
    AboutTop(s, t);
    assert AttachStep(s, s', t, a);
    forall c: nat | c < |s'.nodes| ensures NodeClean(s', c) && ChildClean(s', c) && TimerClean(s', c) {
      AttachNodeClean(s, s', t, a, c);
      AttachChildClean(s, s', t, a, c);
    }
    forall u: nat, i: nat | u < |s'.threads| && i < |s'.threads[u]| ensures FrameClean(s', u, i) {
      AttachFrameClean(s, s', t, a, u, i);
    }
    AttachOneMaker(s, s', t, a);
  }

  lemma AttachCount(s: State, t: nat, expired: bool, s': State)
    requires TopExists(s, t) && Top(s, t).Attach? && AdvanceAttach(s, t, expired) == Some(s')
    ensures |s'.nodes| == |s.nodes|
  {
    hide MadeDone, Closed;
  }

  // ----- calls

  /** A call begins in a goroutine of its own. */
  ghost predicate Begins(s: State, s': State, f: Frame) {
    && s'.threads == s.threads + [[f]]
    && (if f.Attach? then
          && f.at.AtDone? && f.node == |s.nodes| && |s'.nodes| == |s.nodes| + 1 && s'.nodes[..|s.nodes|] == s.nodes
          && Untouched(s'.nodes[f.node]) && s'.nodes[f.node].children == {}
        else
          && s'.nodes == s.nodes && f.node < |s.nodes| && (f.remove || s.nodes[f.node].err.Some?)
          && (s.nodes[f.node].published || s.nodes[f.node].armed))
  }

  lemma BeginNodes(s: State, s': State, f: Frame, c: nat)
    requires Inv(s) && Clean(s) && Begins(s, s', f) && c < |s'.nodes|
    ensures NodeClean(s', c) && ChildClean(s', c) && TimerClean(s', c)
  {
    hide FrameClean, OneMaker, NodeOk, FrameOk, LinkOk;
    if c < |s.nodes| {
      assert s'.nodes[c] == s.nodes[c] by { if f.Attach? { assert s'.nodes[..|s.nodes|][c] == s.nodes[c]; } }
      assert NodeClean(s, c) && ChildClean(s, c) && TimerClean(s, c);
      forall z | z in s'.nodes[c].children ensures z < |s'.nodes| && s'.nodes[z].linked {
        assert f.Attach? ==> s'.nodes[..|s.nodes|][z] == s.nodes[z];
      }
      ParentKnown(s, c);
      if s.nodes[c].parent.Some? && f.Attach? {
        assert s'.nodes[..|s.nodes|][s.nodes[c].parent.value] == s.nodes[s.nodes[c].parent.value];
      }
      if Removing(s, c) {
        var u: nat, j: nat :| u < |s.threads| && j < |s.threads[u]| && Removes(s.threads[u][j], c);
        assert s'.threads[u] == s.threads[u] && Removes(s'.threads[u][j], c);
      }
      if Stopping(s, c) {
        var u: nat, j: nat :| u < |s.threads| && j < |s.threads[u]| && Stops(s.threads[u][j], c);
        assert s'.threads[u] == s.threads[u] && Stops(s'.threads[u][j], c);
      }
    }
  }

  lemma ParentKnown(s: State, c: nat)
    requires Inv(s) && c < |s.nodes|
    ensures s.nodes[c].parent.Some? ==> s.nodes[c].parent.value < |s.nodes|
  {
    assert NodeOk(s, c);
  }

  lemma BeginFrames(s: State, s': State, f: Frame, u: nat, i: nat)
    requires Inv(s) && Clean(s) && Begins(s, s', f) && u < |s'.threads| && i < |s'.threads[u]|
    ensures FrameClean(s', u, i)
  {
    hide NodeClean, ChildClean, TimerClean, OneMaker, NodeOk, LinkOk;
    if u < |s.threads| {
      assert s'.threads[u] == s.threads[u] && FrameClean(s, u, i);
      var g := s.threads[u][i];
      if g.Attach? {
        assert s'.nodes[g.node] == s.nodes[g.node] by {
          if f.Attach? { assert s'.nodes[..|s.nodes|][g.node] == s.nodes[g.node]; }
        }
        if Early(g.at) { BeginNotOn(s, s', f, g.node); }
      }
    } else if f.Attach? {
      NewNotOn(s, s', f);
    }
  }

  lemma BeginNotOn(s: State, s': State, f: Frame, c: nat)
    requires Begins(s, s', f) && c < |s.nodes| && Untouched(s.nodes[c]) && NoCancelOn(s, c)
    ensures NoCancelOn(s', c)
  {
    forall v: nat, j: nat | v < |s'.threads| && j < |s'.threads[v]| ensures NotOn(s'.threads[v][j], c) {
      if v < |s.threads| { assert s'.threads[v] == s.threads[v] && NotOn(s.threads[v][j], c); }
    }
  }

  lemma NewNotOn(s: State, s': State, f: Frame)
    requires Inv(s) && Begins(s, s', f) && f.Attach?
    ensures NoCancelOn(s', f.node)
  {
    hide NodeOk, LinkOk;
    forall v: nat, j: nat | v < |s'.threads| && j < |s'.threads[v]| ensures NotOn(s'.threads[v][j], f.node) {
      if v < |s.threads| { assert s'.threads[v] == s.threads[v] && FrameOk(s, v, j); }
    }
  }

  lemma BeginOneMaker(s: State, s': State, f: Frame)
    requires Inv(s) && Clean(s) && Begins(s, s', f)
    ensures OneMaker(s')
  {
    hide NodeClean, ChildClean, TimerClean, FrameClean, NodeOk, LinkOk;
    forall v: nat, j: nat | v < |s.threads| && j < |s.threads[v]|
      ensures s'.threads[v] == s.threads[v] && s.threads[v][j].node < |s.nodes|
    {
      assert FrameOk(s, v, j);
    }
  }

  lemma BeginKeepsClean(s: State, s': State, f: Frame)
    requires Inv(s) && Clean(s) && Begins(s, s', f)
    ensures Clean(s')
  {
    hide Inv, Begins, NodeClean, ChildClean, TimerClean, FrameClean, OneMaker;
    forall c: nat | c < |s'.nodes| ensures NodeClean(s', c) && ChildClean(s', c) && TimerClean(s', c) {
      BeginNodes(s, s', f, c);
    }
    forall u: nat, i: nat | u < |s'.threads| && i < |s'.threads[u]| ensures FrameClean(s', u, i) {
      BeginFrames(s, s', f, u, i);
    }
    BeginOneMaker(s, s', f);
  }

  /** Done makes at most a channel. */
  lemma DoneKeepsClean(s: State, c: nat, d: Done, s': State)
    requires Clean(s) && c < |s.nodes| && s' == Put(s, c, s.nodes[c].(done := d))
    ensures Clean(s')
  {
    hide OneMaker;
    assert OneMaker(s') by { SameStacks(s, s'); }
    forall y: nat | y < |s'.nodes| ensures NodeClean(s', y) && ChildClean(s', y) && TimerClean(s', y) {
      assert NodeClean(s, y) && ChildClean(s, y) && TimerClean(s, y);
      DoneAtNode(s, s', c, y);
    }
    forall u: nat, i: nat | u < |s'.threads| && i < |s'.threads[u]| ensures FrameClean(s', u, i) {
      assert FrameClean(s, u, i);
      DoneAtFrame(s, s', c, u, i);
    }
  }

  lemma SameStacks(s: State, s': State)
    requires OneMaker(s) && s'.threads == s.threads
    ensures OneMaker(s')
  {
  }

  lemma DoneAtNode(s: State, s': State, c: nat, y: nat)
    requires c < |s.nodes| && |s'.nodes| == |s.nodes| && s' == Put(s, c, s.nodes[c].(done := s'.nodes[c].done))
    requires NodeClean(s, y) && ChildClean(s, y) && TimerClean(s, y)
    ensures NodeClean(s', y) && ChildClean(s', y) && TimerClean(s', y)
  {
  }

  lemma DoneAtFrame(s: State, s': State, c: nat, u: nat, i: nat)
    requires c < |s.nodes| && |s'.nodes| == |s.nodes| && s' == Put(s, c, s.nodes[c].(done := s'.nodes[c].done))
    requires FrameClean(s, u, i)
    ensures FrameClean(s', u, i)
  {
  }

  // ----- runs

  lemma StepKeepsClean(s: State, a: Action, s': State)
    requires Inv(s) && Clean(s) && Step(s, a) == Some(s')
    ensures Clean(s')
  {
    hide Inv, Clean, AdvanceCancel, AdvanceAttach;
    match a
    case Advance(t, pick, expired) =>
      if Top(s, t).Cancel? {
        CancelKeepsClean(s, t, pick, s');
      } else {
        AttachKeepsClean(s, t, expired, s');
      }
    case CallCancel(c, remove) => BeginKeepsClean(s, s', Cancel(c, remove, Canceled, Entry));
    case FireTimer(c) => BeginKeepsClean(s, s', Cancel(c, true, DeadlineExceeded, Entry));
    case CallWith(_, _) => BeginKeepsClean(s, s', Attach(|s.nodes|, AtDone));
    case CallDone(c) => DoneKeepsClean(s, c, s'.nodes[c].done, s');
  }

  lemma InitIsClean()
    ensures Clean(Init)
  {
  }

  lemma {:induction false} RunIsClean(run: seq<State>, i: nat)
    requires IsRun(run) && i < |run|
    ensures Clean(run[i])
    decreases |run|
  {
    hide Inv, Clean, Step;
    var k := |run| - 1;
    if k == 0 {
      InitIsClean();
    } else if i < k {
      RunIsClean(run[..k], i);
    } else {
      RunIsClean(run[..k], k - 1);
      RunInv(run[..k], k - 1);
      var a :| Step(Last(run[..k]), a) == Some(Last(run));
      StepKeepsClean(Last(run[..k]), a, Last(run));
    }
  }

  /** Once every call that works on a cancelled context has returned, nothing refers to
      it any more: its timer is stopped, it has no children, and it is not among the
      children of its parent, unless the parent is just being cancelled and lets all
      of them go. */
  lemma NothingLeft(run: seq<State>, i: nat, c: nat)
    requires IsRun(run) && i < |run| && c < |run[i].nodes| && run[i].nodes[c].err.Some? && NoCancelOn(run[i], c)
    ensures var s := run[i];
      && !s.nodes[c].armed && s.nodes[c].children == {}
      && (s.nodes[c].parent.Some? && s.nodes[c].parent.value < |s.nodes| ==>
            var p := s.nodes[s.nodes[c].parent.value];
            c in p.children ==> p.err.Some? && p.lock.InCancel?)
  {
    var s := run[i];
    RunIsClean(run, i);
    RunInv(run, i);
    hide FrameOk, LinkOk, FrameClean, OneMaker;
    assert NodeClean(s, c) && ChildClean(s, c) && TimerClean(s, c) && NodeOk(s, c);
    NotLocked(s, c);
    NothingAtWork(s, c);
    if s.nodes[c].parent.Some? && s.nodes[c].parent.value < |s.nodes| {
      assert NodeClean(s, s.nodes[c].parent.value);
    }
  }

  lemma NothingAtWork(s: State, c: nat)
    requires NoCancelOn(s, c)
    ensures !Removing(s, c) && !Stopping(s, c)
  {
    forall t: nat, i: nat | t < |s.threads| && i < |s.threads[t]|
      ensures !Removes(s.threads[t][i], c) && !Stops(s.threads[t][i], c)
    {
      assert NotOn(s.threads[t][i], c);
    }
  }

  lemma NotLocked(s: State, c: nat)
    requires NodeOk(s, c) && NoCancelOn(s, c)
    ensures !s.nodes[c].lock.InCancel?
  {
  }

  /** A context that WithDeadline has returned and that is not cancelled has its timer
      running. */
  lemma DeadlineIsArmed(run: seq<State>, i: nat, c: nat)
    requires IsRun(run) && i < |run| && c < |run[i].nodes|
    requires run[i].nodes[c].published && run[i].nodes[c].timer && run[i].nodes[c].err.None?
    ensures run[i].nodes[c].armed && Step(run[i], FireTimer(c)).Some?
  {
    RunIsClean(run, i);
    hide ChildClean, TimerClean, FrameClean, OneMaker;
    assert NodeClean(run[i], c);
  }
}
