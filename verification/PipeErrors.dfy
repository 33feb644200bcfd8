/** Which error a call on a closed pipe reports (src/io/pipe.go:67-122), by the
    arguments of the calls that closed it. */
module PipeErrors {
  import opened Common
  import opened Pipe

  /** A close call stores its argument; without one CloseWrite stores EOF and
      CloseRead stores ErrClosedPipe. */
  predicate Means(x: Closer, e: Error) {
    if x.arg.Some? then x.arg.value == e
    else if x.side.WriteSide? then e == EOF
    else e == ErrClosedPipe
  }

  predicate HasStored(s: State, c: nat, side: Side) {
    c < |s.closers| && s.closers[c].side == side && !s.closers[c].pc.CloseStore?
  }

  function Stored(s: State, side: Side): Option<Error> {
    if side.ReadSide? then s.rerr else s.werr
  }

  /** The stored error is that of a close call on that side. */
  ghost predicate FromCloser(s: State, side: Side) {
    Stored(s, side).Some? ==> exists c: nat :: HasStored(s, c, side) && s.closers[c].err == Stored(s, side).value
  }

  ghost predicate ErrorsOk(s: State) {
    && (forall c: nat :: c < |s.closers| ==> Means(s.closers[c], s.closers[c].err))
    && FromCloser(s, ReadSide) && FromCloser(s, WriteSide)
    && (forall r: nat :: r < |s.readers| ==> ReadErrOk(s, s.readers[r]))
    && (forall w: nat :: w < |s.writers| ==> WriteErrOk(s, s.writers[w]))
  }

  /** A failed call reports ErrClosedPipe or the error of the other side. */
  predicate ReadErrOk(s: State, x: Reader) {
    x.pc.ReadReturn? && x.pc.err.Some? ==> x.pc.err.value == ErrClosedPipe || s.werr == x.pc.err
  }

  predicate WriteErrOk(s: State, x: Writer) {
    && (x.pc.WriteUnlock? && x.pc.err.Some? ==> x.pc.err.value == ErrClosedPipe || s.rerr == x.pc.err)
    && (x.pc.WriteReturn? && x.pc.err.Some? ==> x.pc.err.value == ErrClosedPipe || s.rerr == x.pc.err)
  }

  // ----- one step

  /** No step of a call other than a close touches the errors. */
  lemma ErrorsUntouched(s: State, a: Action, s': State)
    requires Step(s, a) == Some(s') && !a.StepCloser?
    ensures s'.rerr == s.rerr && s'.werr == s.werr
    ensures if a.CallClose? then |s'.closers| == |s.closers| + 1 && s'.closers[..|s.closers|] == s.closers
            else s'.closers == s.closers
  {
  }

  lemma FromCloserKept(s: State, a: Action, s': State, side: Side)
    requires Step(s, a) == Some(s') && FromCloser(s, side)
    ensures FromCloser(s', side)
  {
    if a.StepCloser? {
      CloserStores(s, a.c, s', side);
    } else {
      ErrorsUntouched(s, a, s');
      hide Step;
      if Stored(s, side).Some? {
        var c: nat :| HasStored(s, c, side) && s.closers[c].err == Stored(s, side).value;
        assert s'.closers[c] == s.closers[c] by {
          if a.CallClose? { assert s'.closers[..|s.closers|][c] == s.closers[c]; }
        }
        assert HasStored(s', c, side);
      }
    }
  }

  lemma CloserStores(s: State, c: nat, s': State, side: Side)
    requires c < |s.closers| && AdvanceCloser(s, c) == Some(s') && FromCloser(s, side)
    ensures FromCloser(s', side)
  {
    if Stored(s, side).Some? {
      var d: nat :| HasStored(s, d, side) && s.closers[d].err == Stored(s, side).value;
      assert HasStored(s', d, side);
    } else if Stored(s', side).Some? {
      assert HasStored(s', c, side);
    }
  }

  lemma MeaningKept(s: State, a: Action, s': State)
    requires Step(s, a) == Some(s') && forall c: nat :: c < |s.closers| ==> Means(s.closers[c], s.closers[c].err)
    ensures forall c: nat :: c < |s'.closers| ==> Means(s'.closers[c], s'.closers[c].err)
  {
    hide AdvanceReader, AdvanceWriter, DoHandoff, DoAck;
    if !a.StepCloser? {
      ErrorsUntouched(s, a, s');
    }
  }

  lemma ReadErrKept(s: State, a: Action, s': State, r: nat)
    requires ErrorsOk(s) && Step(s, a) == Some(s') && r < |s'.readers|
    ensures ReadErrOk(s', s'.readers[r])
  {
    hide FromCloser, AdvanceWriter;
    if r < |s.readers| { assert ReadErrOk(s, s.readers[r]); }
    if a.StepWriter? { WriterLeavesReaders(s, a.w, s'); }
  }

  lemma WriterLeavesReaders(s: State, w: nat, s': State)
    requires w < |s.writers| && AdvanceWriter(s, w) == Some(s')
    ensures s'.readers == s.readers && s'.werr == s.werr && s'.rerr == s.rerr
  {
  }

  lemma WriteErrKept(s: State, a: Action, s': State, w: nat)
    requires ErrorsOk(s) && Step(s, a) == Some(s') && w < |s'.writers|
    ensures WriteErrOk(s', s'.writers[w])
  {
    hide FromCloser, AdvanceReader;
    if w < |s.writers| { assert WriteErrOk(s, s.writers[w]); }
    if a.StepReader? { ReaderLeavesWriters(s, a.r, s'); }
  }

  lemma ReaderLeavesWriters(s: State, r: nat, s': State)
    requires r < |s.readers| && AdvanceReader(s, r) == Some(s')
    ensures s'.writers == s.writers && s'.werr == s.werr && s'.rerr == s.rerr
  {
  }

  lemma StepKeepsErrors(s: State, a: Action, s': State)
    requires ErrorsOk(s) && Step(s, a) == Some(s')
    ensures ErrorsOk(s')
  {
    hide Step, FromCloser, ReadErrOk, WriteErrOk, Means;
    FromCloserKept(s, a, s', ReadSide);
    FromCloserKept(s, a, s', WriteSide);
    MeaningKept(s, a, s');
    forall r: nat | r < |s'.readers| ensures ReadErrOk(s', s'.readers[r]) { ReadErrKept(s, a, s', r); }
    forall w: nat | w < |s'.writers| ensures WriteErrOk(s', s'.writers[w]) { WriteErrKept(s, a, s', w); }
  }

  lemma {:induction false} RunErrors(run: seq<State>)
    requires IsRun(run)
    ensures ErrorsOk(Last(run))
  {
    hide Step;
    if |run| > 1 {
      RunErrors(run[..|run| - 1]);
      var a :| Step(Last(run[..|run| - 1]), a) == Some(Last(run));
      StepKeepsErrors(Last(run[..|run| - 1]), a, Last(run));
    }
  }

  lemma {:induction false} PrefixIsRun(run: seq<State>, i: nat)
    requires IsRun(run) && i < |run|
    ensures IsRun(run[..i + 1]) && Last(run[..i + 1]) == run[i]
    decreases |run|
  {
    hide StepsTo;
    if i == |run| - 1 {
      assert run[..i + 1] == run;
    } else {
      PrefixIsRun(run[..|run| - 1], i);
      assert run[..|run| - 1][..i + 1] == run[..i + 1];
    }
  }

  // ----- the first close decides

  lemma {:induction false} StoredStays(run: seq<State>, i: nat, side: Side)
    requires IsRun(run) && i < |run| && Stored(run[i], side).Some?
    ensures Stored(Last(run), side) == Stored(run[i], side)
    decreases |run|
  {
    hide Step;
    if i < |run| - 1 {
      StoredStays(run[..|run| - 1], i, side);
      var a :| Step(Last(run[..|run| - 1]), a) == Some(Last(run));
      FirstErrorStays(Last(run[..|run| - 1]), a, Last(run));
    }
  }

  /** Closer c, and no other on its side, has stored its error in this state. */
  ghost predicate FirstOnItsSide(s: State, c: nat) {
    && c < |s.closers| && HasStored(s, c, s.closers[c].side)
    && forall d: nat :: HasStored(s, d, s.closers[c].side) ==> d == c
  }

  lemma FirstStored(run: seq<State>, i: nat, c: nat)
    requires IsRun(run) && i < |run| && FirstOnItsSide(run[i], c)
    ensures Stored(Last(run), run[i].closers[c].side).Some?
    ensures Means(run[i].closers[c], Stored(Last(run), run[i].closers[c].side).value)
  {
    hide IsRun;
    PrefixIsRun(run, i);
    RunErrors(run[..i + 1]);
    Pipe.RunInv(run[..i + 1]);
    assert CloserOk(run[i], c);
    var side := run[i].closers[c].side;
    assert FromCloser(run[i], side);
    StoredStays(run, i, side);
  }

  /** If the first CloseWrite had an error, a Read that fails reports that error, and
      EOF if it had none, as long as the reading side has not been closed. */
  lemma ReadReportsFirstClose(run: seq<State>, i: nat, c: nat, r: nat)
    requires IsRun(run) && i < |run| && FirstOnItsSide(run[i], c) && run[i].closers[c].side.WriteSide?
    requires Last(run).rerr.None? && r < |Last(run).readers|
    requires Last(run).readers[r].pc.ReadReturn? && Last(run).readers[r].pc.err.Some?
    ensures Last(run).readers[r].pc.err
         == if run[i].closers[c].arg.Some? then run[i].closers[c].arg else Some(EOF)
  {
    hide IsRun;
    FirstStored(run, i, c);
    ReportedErrors(run, 0, r);
  }

  /** The same for a Write after CloseRead, which without an error stands for
      ErrClosedPipe. */
  lemma WriteReportsFirstClose(run: seq<State>, i: nat, c: nat, w: nat)
    requires IsRun(run) && i < |run| && FirstOnItsSide(run[i], c) && run[i].closers[c].side.ReadSide?
    requires Last(run).werr.None? && w < |Last(run).writers|
    requires Last(run).writers[w].pc.WriteReturn? && Last(run).writers[w].pc.err.Some?
    ensures Last(run).writers[w].pc.err
         == if run[i].closers[c].arg.Some? then run[i].closers[c].arg else Some(ErrClosedPipe)
  {
    hide IsRun;
    FirstStored(run, i, c);
    ReportedErrors(run, w, 0);
  }

  /** A pipe that was closed only by CloseWrite(nil): every Read that fails returns EOF,
      and every Write that fails ErrClosedPipe. */
  lemma OnlyCloseWrite(run: seq<State>)
    requires IsRun(run)
    requires forall c :: c in Last(run).closers ==> c.side.WriteSide? && c.arg.None?
    ensures forall x :: x in Last(run).readers && x.pc.ReadReturn? && x.pc.err.Some? ==> x.pc.err == Some(EOF)
    ensures forall x :: x in Last(run).writers && x.pc.WriteReturn? && x.pc.err.Some? ==>
      x.pc.err == Some(ErrClosedPipe)
  {
    hide Step;
    var s := Last(run);
    RunErrors(run);
    Pipe.RunInv(run);
    assert FromCloser(s, ReadSide) && FromCloser(s, WriteSide);
    assert s.rerr.None?;
    forall r: nat | r < |s.readers| && s.readers[r].pc.ReadReturn? && s.readers[r].pc.err.Some?
      ensures s.readers[r].pc.err == Some(EOF)
    {
      ReportedErrors(run, 0, r);
      assert ReaderOk(s, r);
    }
    forall w: nat | w < |s.writers| && s.writers[w].pc.WriteReturn? && s.writers[w].pc.err.Some?
      ensures s.writers[w].pc.err == Some(ErrClosedPipe)
    {
      assert WriteErrOk(s, s.writers[w]);
    }
  }

  /** A pipe that was closed only by CloseRead(nil): every call that fails returns
      ErrClosedPipe. */
  lemma OnlyCloseRead(run: seq<State>)
    requires IsRun(run)
    requires forall c :: c in Last(run).closers ==> c.side.ReadSide? && c.arg.None?
    ensures forall x :: x in Last(run).readers && x.pc.ReadReturn? && x.pc.err.Some? ==>
      x.pc.err == Some(ErrClosedPipe)
    ensures forall x :: x in Last(run).writers && x.pc.WriteReturn? && x.pc.err.Some? ==>
      x.pc.err == Some(ErrClosedPipe)
  {
    hide Step;
    var s := Last(run);
    RunErrors(run);
    Pipe.RunInv(run);
    assert FromCloser(s, ReadSide) && FromCloser(s, WriteSide);
    assert s.werr.None?;
    forall r: nat | r < |s.readers| && s.readers[r].pc.ReadReturn? && s.readers[r].pc.err.Some?
      ensures s.readers[r].pc.err == Some(ErrClosedPipe)
    {
      assert ReadErrOk(s, s.readers[r]);
    }
    forall w: nat | w < |s.writers| && s.writers[w].pc.WriteReturn? && s.writers[w].pc.err.Some?
      ensures s.writers[w].pc.err == Some(ErrClosedPipe)
    {
      ReportedErrors(run, w, 0);
      assert WriterOk(s, w);
    }
  }

  // ----- a call on a side that has been closed itself

  /** Reader r has not yet looked at its own side's error, or found one. */
  predicate ReadsOwn(s: State, r: nat) {
    s.rerr.Some? && (r < |s.readers| ==>
      match s.readers[r].pc
      case ReadLoadW(rerr) => rerr.Some?
      case ReadReturn(err) => err.None? || err.value == ErrClosedPipe
      case _ => true)
  }

  predicate WritesOwn(s: State, w: nat) {
    s.werr.Some? && (w < |s.writers| ==>
      match s.writers[w].pc
      case WriteLoadR(_, werr) => werr.Some?
      case WriteUnlock(err) => err.None? || err.value == ErrClosedPipe
      case WriteReturn(err) => err.None? || err.value == ErrClosedPipe
      case _ => true)
  }

  lemma ReadsOwnKept(s: State, a: Action, s': State, r: nat)
    requires Step(s, a) == Some(s') && ReadsOwn(s, r)
    ensures ReadsOwn(s', r)
  {
    hide AdvanceWriter;
    if a.StepWriter? { WriterLeavesReaders(s, a.w, s'); }
  }

  lemma WritesOwnKept(s: State, a: Action, s': State, w: nat)
    requires Step(s, a) == Some(s') && WritesOwn(s, w)
    ensures WritesOwn(s', w)
  {
    hide AdvanceReader;
    if a.StepReader? { ReaderLeavesWriters(s, a.r, s'); }
  }

  lemma {:induction false} ReadsOwnStays(run: seq<State>, i: nat, r: nat)
    requires IsRun(run) && i < |run| && ReadsOwn(run[i], r)
    ensures ReadsOwn(Last(run), r)
    decreases |run|
  {
    hide Step, ReadsOwn;
    if i < |run| - 1 {
      ReadsOwnStays(run[..|run| - 1], i, r);
      var a :| Step(Last(run[..|run| - 1]), a) == Some(Last(run));
      ReadsOwnKept(Last(run[..|run| - 1]), a, Last(run), r);
    }
  }

  lemma {:induction false} WritesOwnStays(run: seq<State>, i: nat, w: nat)
    requires IsRun(run) && i < |run| && WritesOwn(run[i], w)
    ensures WritesOwn(Last(run), w)
    decreases |run|
  {
    hide Step, WritesOwn;
    if i < |run| - 1 {
      WritesOwnStays(run[..|run| - 1], i, w);
      var a :| Step(Last(run[..|run| - 1]), a) == Some(Last(run));
      WritesOwnKept(Last(run[..|run| - 1]), a, Last(run), w);
    }
  }

  /** A Read that looks at the errors only after its own side has been closed fails
      with ErrClosedPipe, also when the other side has been closed too. */
  lemma OwnSideClosedRead(run: seq<State>, i: nat, r: nat)
    requires IsRun(run) && i < |run| && run[i].rerr.Some?
    requires r < |run[i].readers| ==> !run[i].readers[r].pc.ReadLoadW? && !run[i].readers[r].pc.ReadReturn?
    requires r < |Last(run).readers| && Last(run).readers[r].pc.ReadReturn? && Last(run).readers[r].pc.err.Some?
    ensures Last(run).readers[r].pc.err == Some(ErrClosedPipe)
  {
    ReadsOwnStays(run, i, r);
  }

  /** So does a Write. */
  lemma OwnSideClosedWrite(run: seq<State>, i: nat, w: nat)
    requires IsRun(run) && i < |run| && run[i].werr.Some?
    requires w < |run[i].writers| ==>
      var pc := run[i].writers[w].pc; !pc.WriteLoadR? && !pc.WriteUnlock? && !pc.WriteReturn?
    requires w < |Last(run).writers| && Last(run).writers[w].pc.WriteReturn? && Last(run).writers[w].pc.err.Some?
    ensures Last(run).writers[w].pc.err == Some(ErrClosedPipe)
  {
    WritesOwnStays(run, i, w);
  }
}
