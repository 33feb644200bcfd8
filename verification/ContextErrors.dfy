/** Which error a cancelled context reports: the one of a cancellation of its own,
    or the one of its parent. */
module ContextErrors {
  import opened Common
  import opened Context
  import opened ContextInvariant
  import opened ContextSteps
  import opened ContextTheorems

  /** A run together with the actions that were taken. */
  ghost predicate IsTrace(run: seq<State>, actions: seq<Action>) {
    && |run| == |actions| + 1
    && if actions == [] then run == [Init]
       else
         var k := |actions|;
         IsTrace(run[..k], actions[..k - 1]) && Step(Last(run[..k]), actions[k - 1]) == Some(Last(run))
  }

  lemma {:induction false} TraceIsRun(run: seq<State>, actions: seq<Action>)
    requires IsTrace(run, actions)
    ensures IsRun(run)
    decreases |actions|
  {
    hide Step;
    var k := |actions|;
    if k > 0 {
      TraceIsRun(run[..k], actions[..k - 1]);
      assert Step(Last(run[..k]), actions[k - 1]) == Some(Last(run));
      assert StepsTo(Last(run[..k]), Last(run));
    }
  }

  // ----- what cancels a context on its own account

  /** The deadline of a new context c has passed before WithDeadline returns. */
  predicate Expires(s: State, a: Action, c: nat) {
    && a.Advance? && a.expired && TopExists(s, a.thread) && Top(s, a.thread) == Attach(c, AtFinish)
    && s.nodes[c].timer
  }

  /** A call of c's CancelFunc. */
  predicate IsCancelCall(a: Action, c: nat) {
    a.CallCancel? && a.target == c
  }

  /** c's timer fires, or its deadline has passed at the start. */
  predicate IsDeadline(s: State, a: Action, c: nat) {
    (a.FireTimer? && a.timerNode == c) || Expires(s, a, c)
  }

  /** One of the actions has cancelled c on its own account, with error e. */
  ghost predicate Owned(run: seq<State>, actions: seq<Action>, c: nat, e: Error) {
    exists k :: 0 <= k < |actions| && |actions| < |run| && OwnStep(run[k], actions[k], c, e)
  }

  predicate OwnStep(s: State, a: Action, c: nat, e: Error) {
    match e
    case Canceled => IsCancelCall(a, c)
    case DeadlineExceeded => IsDeadline(s, a, c)
  }

  /** The parent of c reports e. */
  predicate Inherited(s: State, c: nat, e: Error) {
    && c < |s.nodes| && s.nodes[c].parent.Some?
    && s.nodes[c].parent.value < |s.nodes| && s.nodes[s.nodes[c].parent.value].err == Some(e)
  }

  /** A frame that cancels c does so with an error of its own (in own) or with the
      parent's. */
  predicate FrameCaused(s: State, f: Frame, c: nat, own: set<Error>) {
    f.Cancel? && f.node == c ==> f.err in own || Inherited(s, c, f.err)
  }

  /** A frame in the loop over the children passes on the error of its node. */
  predicate LoopErr(s: State, f: Frame) {
    f.Cancel? && f.pc.Looping? ==> f.node < |s.nodes| && s.nodes[f.node].err == Some(f.err)
  }

  ghost predicate LoopsPassOn(s: State) {
    forall t: nat, i: nat :: t < |s.threads| && i < |s.threads[t]| ==> LoopErr(s, s.threads[t][i])
  }

  ghost predicate Caused(s: State, c: nat, own: set<Error>) {
    && (c < |s.nodes| && s.nodes[c].err.Some? ==>
          s.nodes[c].err.value in own || Inherited(s, c, s.nodes[c].err.value))
    && (forall t: nat, i: nat :: t < |s.threads| && i < |s.threads[t]| ==>
          FrameCaused(s, s.threads[t][i], c, own))
  }

  // ----- one step

  /** g is a call that was there as f, or no call of cancel. */
  predicate SameCall(f: Frame, g: Frame) {
    g.Cancel? ==> f.Cancel? && f.node == g.node && f.err == g.err
  }

  predicate FrameStep(s: State, s': State, u: nat, i: nat, c: nat, own: set<Error>)
    requires u < |s'.threads| && i < |s'.threads[u]|
  {
    || (u < |s.threads| && i < |s.threads[u]| && SameCall(s.threads[u][i], s'.threads[u][i]))
    || FrameCaused(s', s'.threads[u][i], c, own)
  }

  predicate ErrStep(s: State, s': State, y: nat) {
    && y < |s.nodes| && y < |s'.nodes|
    && s'.nodes[y].parent == s.nodes[y].parent
    && (s.nodes[y].err.Some? ==> s'.nodes[y].err == s.nodes[y].err)
  }

  /** A new error of c comes from a frame that cancels c. */
  predicate Entered(s: State, s': State, c: nat) {
    c < |s'.nodes| && s'.nodes[c].err.Some? && (c < |s.nodes| ==> s.nodes[c].err.None?) ==>
      exists t: nat, i: nat ::
        t < |s.threads| && i < |s.threads[t]| && Enters(s.threads[t][i], c, s'.nodes[c].err.value)
  }

  predicate Enters(f: Frame, c: nat, e: Error) {
    f.Cancel? && f.node == c && f.err == e
  }

  lemma InheritedKept(s: State, s': State, c: nat, e: Error)
    requires Inherited(s, c, e) && forall y: nat :: y < |s.nodes| ==> ErrStep(s, s', y)
    ensures Inherited(s', c, e)
  {
    assert ErrStep(s, s', c) && ErrStep(s, s', s.nodes[c].parent.value);
  }

  lemma CausedKept(s: State, s': State, c: nat, own: set<Error>, own': set<Error>)
    requires Caused(s, c, own) && own <= own' && Entered(s, s', c)
    requires forall y: nat :: y < |s.nodes| ==> ErrStep(s, s', y)
    requires forall u: nat, i: nat :: u < |s'.threads| && i < |s'.threads[u]| ==> FrameStep(s, s', u, i, c, own')
    ensures Caused(s', c, own')
  {
    forall e | Inherited(s, c, e) ensures Inherited(s', c, e) { InheritedKept(s, s', c, e); }
    if c < |s'.nodes| && s'.nodes[c].err.Some? {
      var e := s'.nodes[c].err.value;
      if c < |s.nodes| && s.nodes[c].err.Some? {
        assert ErrStep(s, s', c);
      } else {
        var t: nat, i: nat :| t < |s.threads| && i < |s.threads[t]| && Enters(s.threads[t][i], c, e);
        assert FrameCaused(s, s.threads[t][i], c, own);
      }
    }
    forall u: nat, i: nat | u < |s'.threads| && i < |s'.threads[u]| ensures FrameCaused(s', s'.threads[u][i], c, own') {
      assert FrameStep(s, s', u, i, c, own');
      if u < |s.threads| && i < |s.threads[u]| && SameCall(s.threads[u][i], s'.threads[u][i]) {
        assert FrameCaused(s, s.threads[u][i], c, own);
      }
    }
  }

  /** What a step of cancel does to the stacks and the errors. */
  lemma CancelEffect(s: State, t: nat, pick: nat, s': State)
    requires TopExists(s, t) && Top(s, t).Cancel? && AdvanceCancel(s, t, pick) == Some(s')
    ensures var k, f, st := |s.threads[t]| - 1, Top(s, t), s'.threads;
      && |st| == |s.threads| && (forall u :: 0 <= u < |st| && u != t ==> st[u] == s.threads[u])
      && k <= |st[t]| <= k + 2 && st[t][..k] == s.threads[t][..k]
      && (|st[t]| > k ==> st[t][k].Cancel? && st[t][k] == f.(pc := st[t][k].pc))
      && (|st[t]| == k + 2 ==>
            f.pc.Looping? && pick in f.pc.pending && st[t][k + 1] == Cancel(pick, false, f.err, Entry))
  {
    hide CloseDone, MadeDone;
  }

  /** A frame that enters the loop has just set its error. */
  lemma LoopStarts(s: State, t: nat, pick: nat, s': State)
    requires TopExists(s, t) && Top(s, t).Cancel? && AdvanceCancel(s, t, pick) == Some(s') && !Top(s, t).pc.Looping?
    requires s'.threads[t] != [] && Top(s', t).Cancel? && Top(s', t).pc.Looping? && |s'.threads[t]| == |s.threads[t]|
    ensures Top(s, t).pc.Entry? && s'.nodes[Top(s, t).node].err == Some(Top(s, t).err)
  {
    hide MadeDone;
  }

  lemma CancelErrs(s: State, t: nat, pick: nat, s': State)
    requires TopExists(s, t) && Top(s, t).Cancel? && AdvanceCancel(s, t, pick) == Some(s')
    ensures forall y: nat :: y < |s.nodes| ==> ErrStep(s, s', y)
    ensures |s'.nodes| == |s.nodes|
    ensures forall y :: 0 <= y < |s.nodes| && s'.nodes[y].err != s.nodes[y].err ==>
      y == Top(s, t).node && s'.nodes[y].err == Some(Top(s, t).err)
  {
    hide AfterCancel;
    match Top(s, t).pc
    case Entry => EntryErrs(s, t, pick, s');
    case Looping(_) => LoopingErrs(s, t, pick, s');
    case _ => AfterErrs(s, t, pick, s');
  }

  /** The nodes after a step, if only node x has changed, and not its parent and error. */
  predicate OnlyNode(s: State, s': State, x: nat) {
    && x < |s.nodes| == |s'.nodes| && s'.nodes == s.nodes[x := s'.nodes[x]]
    && s'.nodes[x].parent == s.nodes[x].parent
  }

  lemma EntryErrs(s: State, t: nat, pick: nat, s': State)
    requires TopExists(s, t) && Top(s, t).Cancel? && AdvanceCancel(s, t, pick) == Some(s') && Top(s, t).pc.Entry?
    ensures var f := Top(s, t);
      && OnlyNode(s, s', f.node)
      && (s'.nodes[f.node].err == s.nodes[f.node].err
          || (s.nodes[f.node].err.None? && s'.nodes[f.node].err == Some(f.err)))
  {
  }

  lemma LoopingErrs(s: State, t: nat, pick: nat, s': State)
    requires TopExists(s, t) && Top(s, t).Cancel? && AdvanceCancel(s, t, pick) == Some(s') && Top(s, t).pc.Looping?
    ensures OnlyNode(s, s', Top(s, t).node) && s'.nodes[Top(s, t).node].err == s.nodes[Top(s, t).node].err
  {
  }

  lemma AfterErrs(s: State, t: nat, pick: nat, s': State)
    requires TopExists(s, t) && Top(s, t).Cancel? && AdvanceCancel(s, t, pick) == Some(s')
    requires !Top(s, t).pc.Entry? && !Top(s, t).pc.Looping?
    ensures |s'.nodes| == |s.nodes|
    ensures forall y :: 0 <= y < |s.nodes| ==>
      s'.nodes[y].parent == s.nodes[y].parent && s'.nodes[y].err == s.nodes[y].err
  {
    hide MadeDone;
  }

  lemma CancelStepCaused(s: State, t: nat, pick: nat, s': State, c: nat, own: set<Error>)
    requires Inv(s) && TopExists(s, t) && Top(s, t).Cancel? && AdvanceCancel(s, t, pick) == Some(s')
    requires LoopsPassOn(s) && Caused(s, c, own)
    ensures LoopsPassOn(s') && Caused(s', c, own)
  {
    hide AdvanceCancel, Inv;
    var k, f, st := |s.threads[t]| - 1, Top(s, t), s'.threads;
    CancelEffect(s, t, pick, s');
    CancelErrs(s, t, pick, s');
    assert LoopErr(s, s.threads[t][k]) && ErrStep(s, s', f.node);
    if |s'.threads[t]| == k + 1 && Top(s', t).pc.Looping? && !f.pc.Looping? {
      LoopStarts(s, t, pick, s');
    }
    if |st[t]| == k + 2 {
      PickIsChild(s, t, pick);
      assert ErrStep(s, s', pick);
    }
    forall u: nat, i: nat | u < |st| && i < |st[u]|
      ensures LoopErr(s', st[u][i]) && FrameStep(s, s', u, i, c, own)
    {
      if u != t || i < k {
        assert st[u][i] == s.threads[u][i] by { if u == t { assert st[t][..k][i] == s.threads[t][..k][i]; } }
        assert LoopErr(s, s.threads[u][i]);
        if s.threads[u][i].node < |s.nodes| { assert ErrStep(s, s', s.threads[u][i].node); }
      } else if i == k + 1 {
        assert Inherited(s', pick, f.err);
      }
    }
    assert Entered(s, s', c) by {
      if c < |s'.nodes| && s'.nodes[c].err.Some? && s.nodes[c].err.None? {
        assert Enters(s.threads[t][k], c, s'.nodes[c].err.value);
      }
    }
    CausedKept(s, s', c, own, own);
  }

  /** The loop of cancel takes children of its node. */
  lemma PickIsChild(s: State, t: nat, pick: nat)
    requires Inv(s) && TopExists(s, t) && Top(s, t).Cancel? && Top(s, t).pc.Looping? && pick in Top(s, t).pc.pending
    ensures IsChild(s, Top(s, t).node, pick)
  {
    hide LinkOk;
    assert FrameOk(s, t, |s.threads[t]| - 1) && NodeOk(s, Top(s, t).node);
  }

  lemma AttachEffect(s: State, t: nat, expired: bool, s': State)
    requires TopExists(s, t) && Top(s, t).Attach? && AdvanceAttach(s, t, expired) == Some(s')
    ensures var k, f, st := |s.threads[t]| - 1, Top(s, t), s'.threads;
      && |st| == |s.threads| && (forall u :: 0 <= u < |st| && u != t ==> st[u] == s.threads[u])
      && k <= |st[t]| <= k + 2 && st[t][..k] == s.threads[t][..k]
      && (|st[t]| > k ==> st[t][k].Attach?)
      && (|st[t]| == k + 2 ==>
            && st[t][k + 1].Cancel? && st[t][k + 1].pc.Entry? && st[t][k + 1].node == f.node
            && if f.at.AtFinish? then expired && s.nodes[f.node].timer && st[t][k + 1].err == DeadlineExceeded
               else Inherited(s, f.node, st[t][k + 1].err))
  {
    hide MadeDone;
  }

  lemma AttachErrs(s: State, t: nat, expired: bool, s': State)
    requires TopExists(s, t) && Top(s, t).Attach? && AdvanceAttach(s, t, expired) == Some(s')
    ensures |s'.nodes| == |s.nodes|
    ensures forall y: nat :: y < |s.nodes| ==> ErrStep(s, s', y) && s'.nodes[y].err == s.nodes[y].err
  {
    hide Closed;
  }

  /** The errors that an action brings to c on its own account. */
  function OwnErrors(s: State, a: Action, c: nat): set<Error> {
    (if IsCancelCall(a, c) then {Canceled} else {}) + (if IsDeadline(s, a, c) then {DeadlineExceeded} else {})
  }

  lemma AttachStepCaused(s: State, a: Action, s': State, c: nat, own: set<Error>)
    requires a.Advance? && TopExists(s, a.thread) && Top(s, a.thread).Attach?
    requires AdvanceAttach(s, a.thread, a.expired) == Some(s') && LoopsPassOn(s) && Caused(s, c, own)
    ensures LoopsPassOn(s') && Caused(s', c, own + OwnErrors(s, a, c))
  {
    hide AdvanceAttach;
    var t, own' := a.thread, own + OwnErrors(s, a, c);
    var k, f, st := |s.threads[t]| - 1, Top(s, t), s'.threads;
    AttachEffect(s, t, a.expired, s');
    AttachErrs(s, t, a.expired, s');
    forall u: nat, i: nat | u < |st| && i < |st[u]|
      ensures LoopErr(s', st[u][i]) && FrameStep(s, s', u, i, c, own')
    {
      if u != t || i < k {
        assert st[u][i] == s.threads[u][i] by { if u == t { assert st[t][..k][i] == s.threads[t][..k][i]; } }
        assert LoopErr(s, s.threads[u][i]);
        if s.threads[u][i].node < |s.nodes| { assert ErrStep(s, s', s.threads[u][i].node); }
      } else if i == k + 1 {
        if f.at.AtFinish? {
          assert f.node == c ==> IsDeadline(s, a, c);
        } else {
          InheritedKept(s, s', f.node, st[u][i].err);
        }
      }
    }
    assert ErrStep(s, s', f.node);
    CausedKept(s, s', c, own, own');
  }

  /** A call begins. */
  lemma CallStepCaused(s: State, a: Action, s': State, c: nat, own: set<Error>)
    requires !a.Advance? && Step(s, a) == Some(s') && LoopsPassOn(s) && Caused(s, c, own)
    ensures LoopsPassOn(s') && Caused(s', c, own + OwnErrors(s, a, c))
  {
    var own' := own + OwnErrors(s, a, c);
    forall u: nat, i: nat | u < |s'.threads| && i < |s'.threads[u]|
      ensures LoopErr(s', s'.threads[u][i]) && FrameStep(s, s', u, i, c, own')
    {
      if u < |s.threads| {
        assert s'.threads[u] == s.threads[u];
        assert LoopErr(s, s.threads[u][i]);
      }
    }
    CausedKept(s, s', c, own, own');
  }

  lemma StepCaused(s: State, a: Action, s': State, c: nat, own: set<Error>)
    requires Inv(s) && Step(s, a) == Some(s') && LoopsPassOn(s) && Caused(s, c, own)
    ensures LoopsPassOn(s') && Caused(s', c, own + OwnErrors(s, a, c))
  {
    hide Caused, LoopsPassOn, AdvanceCancel, AdvanceAttach, Inv;
    if !a.Advance? {
      CallStepCaused(s, a, s', c, own);
    } else if Top(s, a.thread).Cancel? {
      CancelStepCaused(s, a.thread, a.pick, s', c, own);
      assert own + OwnErrors(s, a, c) == own;
    } else {
      AttachStepCaused(s, a, s', c, own);
    }
  }

  // ----- runs

  /** The errors of all the cancellations of c on its own account. */
  function AllOwn(run: seq<State>, actions: seq<Action>, c: nat): set<Error>
    requires |run| == |actions| + 1
  {
    if actions == [] then {}
    else
      var k := |actions|;
      AllOwn(run[..k], actions[..k - 1], c) + OwnErrors(run[k - 1], actions[k - 1], c)
  }

  lemma {:induction false} TraceCaused(run: seq<State>, actions: seq<Action>, c: nat)
    requires IsTrace(run, actions)
    ensures LoopsPassOn(Last(run)) && Caused(Last(run), c, AllOwn(run, actions, c))
    decreases |actions|
  {
    hide Step, Caused, LoopsPassOn, OwnErrors;
    var k := |actions|;
    if k == 0 {
      NothingCaused(c);
    } else {
      TraceCaused(run[..k], actions[..k - 1], c);
      TraceIsRun(run[..k], actions[..k - 1]);
      RunInv(run[..k], k - 1);
      StepCaused(Last(run[..k]), actions[k - 1], Last(run), c, AllOwn(run[..k], actions[..k - 1], c));
    }
  }

  lemma NothingCaused(c: nat)
    ensures LoopsPassOn(Init) && Caused(Init, c, {})
  {
  }

  lemma {:induction false} AllOwnAreOwned(run: seq<State>, actions: seq<Action>, c: nat, e: Error)
    requires |run| == |actions| + 1 && e in AllOwn(run, actions, c)
    ensures Owned(run, actions, c, e)
    decreases |actions|
  {
    var k := |actions|;
    if e in OwnErrors(run[k - 1], actions[k - 1], c) {
      assert OwnStep(run[k - 1], actions[k - 1], c, e);
    } else {
      AllOwnAreOwned(run[..k], actions[..k - 1], c, e);
      var j :| 0 <= j < k - 1 && OwnStep(run[..k][j], actions[..k - 1][j], c, e);
      assert OwnStep(run[j], actions[j], c, e);
    }
  }

  /** The error of a cancelled context is that of a cancellation of its own, Canceled
      for a CancelFunc and DeadlineExceeded for a deadline, or its parent's. */
  lemma ErrHasCause(run: seq<State>, actions: seq<Action>, c: nat, e: Error)
    requires IsTrace(run, actions) && c < |Last(run).nodes| && Last(run).nodes[c].err == Some(e)
    ensures Owned(run, actions, c, e) || Inherited(Last(run), c, e)
  {
    hide Owned;
    TraceCaused(run, actions, c);
    if e in AllOwn(run, actions, c) {
      AllOwnAreOwned(run, actions, c, e);
    }
  }

  /** A context that nobody cancelled on its own account has its parent's error. */
  lemma CancelledByParent(run: seq<State>, actions: seq<Action>, c: nat)
    requires IsTrace(run, actions) && c < |Last(run).nodes| && Last(run).nodes[c].err.Some?
    requires forall k :: 0 <= k < |actions| ==> !IsCancelCall(actions[k], c) && !IsDeadline(run[k], actions[k], c)
    ensures Last(run).nodes[c].parent.Some? && Last(run).nodes[c].parent.value < c
    ensures Last(run).nodes[Last(run).nodes[c].parent.value].err == Last(run).nodes[c].err
  {
    ErrHasCause(run, actions, c, Last(run).nodes[c].err.value);
    TraceIsRun(run, actions);
    RunInv(run, |run| - 1);
    assert NodeOk(Last(run), c);
  }

  /** Without a call of any CancelFunc no context reports Canceled. */
  lemma {:induction false} NeverCanceled(run: seq<State>, actions: seq<Action>, c: nat)
    requires IsTrace(run, actions) && c < |Last(run).nodes|
    requires forall k :: 0 <= k < |actions| ==> !actions[k].CallCancel?
    ensures Last(run).nodes[c].err != Some(Canceled)
    decreases c
  {
    if Last(run).nodes[c].err == Some(Canceled) {
      ErrHasCause(run, actions, c, Canceled);
      ParentIsOlder(run, actions, c);
      NeverCanceled(run, actions, Last(run).nodes[c].parent.value);
    }
  }

  lemma ParentIsOlder(run: seq<State>, actions: seq<Action>, c: nat)
    requires IsTrace(run, actions) && c < |Last(run).nodes|
    ensures Last(run).nodes[c].parent.Some? ==> Last(run).nodes[c].parent.value < c
  {
    TraceIsRun(run, actions);
    RunInv(run, |run| - 1);
    assert NodeOk(Last(run), c);
  }

  /** Without a deadline there is no timer. */
  predicate NoTimers(s: State) {
    forall y: nat :: y < |s.nodes| ==> !s.nodes[y].timer && !s.nodes[y].armed
  }

  lemma StepNoTimers(s: State, a: Action, s': State)
    requires NoTimers(s) && Step(s, a) == Some(s') && !(a.CallWith? && a.deadline)
    ensures NoTimers(s')
  {
    hide AdvanceCancel, AdvanceAttach;
    if a.Advance? {
      if Top(s, a.thread).Cancel? {
        CancelNoTimers(s, a.thread, a.pick, s');
      } else {
        AttachNoTimers(s, a.thread, a.expired, s');
      }
    }
  }

  lemma CancelNoTimers(s: State, t: nat, pick: nat, s': State)
    requires NoTimers(s) && TopExists(s, t) && Top(s, t).Cancel? && AdvanceCancel(s, t, pick) == Some(s')
    ensures NoTimers(s')
  {
  }

  lemma AttachNoTimers(s: State, t: nat, expired: bool, s': State)
    requires NoTimers(s) && TopExists(s, t) && Top(s, t).Attach? && AdvanceAttach(s, t, expired) == Some(s')
    ensures NoTimers(s')
  {
  }

  lemma {:induction false} TraceNoTimers(run: seq<State>, actions: seq<Action>, i: nat)
    requires IsTrace(run, actions) && i < |run|
    requires forall k :: 0 <= k < |actions| ==> !(actions[k].CallWith? && actions[k].deadline)
    ensures NoTimers(run[i])
    decreases |actions|
  {
    hide Step, NoTimers;
    var k := |actions|;
    if k == 0 {
      assert NoTimers(Init) by { InitHasNoTimers(); }
    } else if i < k {
      TraceNoTimers(run[..k], actions[..k - 1], i);
    } else {
      TraceNoTimers(run[..k], actions[..k - 1], k - 1);
      StepNoTimers(Last(run[..k]), actions[k - 1], Last(run));
    }
  }

  lemma InitHasNoTimers()
    ensures NoTimers(Init)
  {
  }

  /** Without a context with a deadline every cancelled context reports Canceled. */
  lemma {:induction false} OnlyCanceled(run: seq<State>, actions: seq<Action>, c: nat)
    requires IsTrace(run, actions) && c < |Last(run).nodes|
    requires forall k :: 0 <= k < |actions| ==> !(actions[k].CallWith? && actions[k].deadline)
    ensures Last(run).nodes[c].err.Some? ==> Last(run).nodes[c].err == Some(Canceled)
    decreases c
  {
    if Last(run).nodes[c].err.Some? && Last(run).nodes[c].err.value.DeadlineExceeded? {
      ErrHasCause(run, actions, c, DeadlineExceeded);
      if Owned(run, actions, c, DeadlineExceeded) {
        var k :| 0 <= k < |actions| && OwnStep(run[k], actions[k], c, DeadlineExceeded);
        TraceNoTimers(run, actions, k);
        TraceStep(run, actions, k);
        NoDeadline(run[k], actions[k], run[k + 1], c);
      } else {
        ParentIsOlder(run, actions, c);
        OnlyCanceled(run, actions, Last(run).nodes[c].parent.value);
      }
    }
  }

  lemma NoDeadline(s: State, a: Action, s': State, c: nat)
    requires NoTimers(s) && Step(s, a) == Some(s')
    ensures !IsDeadline(s, a, c)
  {
    hide AdvanceCancel, AdvanceAttach;
  }

  lemma {:induction false} TraceStep(run: seq<State>, actions: seq<Action>, k: nat)
    requires IsTrace(run, actions) && k < |actions|
    ensures Step(run[k], actions[k]) == Some(run[k + 1])
    decreases |actions|
  {
    hide Step;
    if k < |actions| - 1 {
      TraceStep(run[..|actions|], actions[..|actions| - 1], k);
    }
  }
}
