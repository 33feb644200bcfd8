/** The synchronous pipe of src/io/pipe.go as a step system: any number of
    Read, Write, CloseRead and CloseWrite calls run at once.  Every channel
    rendezvous, mutex operation and load or store of a onceError is a step. */
module Pipe {
  import opened Common

  datatype Error = ErrClosedPipe | EOF | Custom(code: nat)

  /** A Read call: the length of its buffer, where it stands, and the bytes it
      has copied. */
  datatype Reader = Reader(size: nat, pc: ReaderPc, got: seq<byte>)

  datatype ReaderPc =
    | ReadStart | ReadSelect
    | ReadAck(writer: nat)                  // sending the count on rdCh
    | ReadLoadR | ReadLoadW(rerr: Option<Error>)
    | ReadReturn(err: Option<Error>)

  /** A Write call: b is data[n..].  taken counts the bytes that readers have
      copied, which n learns of through rdCh. */
  datatype Writer = Writer(data: seq<byte>, n: nat, taken: nat, pc: WriterPc)

  datatype WriterPc =
    | WriteStart | WriteLock | WriteSelect
    | WriteWait(reader: nat)                // receiving the count from rdCh
    | WriteLoadW(locked: bool) | WriteLoadR(locked: bool, werr: Option<Error>)
    | WriteUnlock(err: Option<Error>)
    | WriteReturn(err: Option<Error>)

  /** A CloseRead or CloseWrite call with its argument: it stores err, then closes done. */
  datatype Closer = Closer(side: Side, arg: Option<Error>, err: Error, pc: CloserPc)
  datatype Side = ReadSide | WriteSide
  datatype CloserPc = CloseStore | CloseOnce | CloseReturn

  /** closes counts the calls of close(done).  order lists the writers in the
      order in which they took wrMu, handoffs the readers in the order in which
      they took a chunk. */
  datatype State = State(
    readers: seq<Reader>, writers: seq<Writer>, closers: seq<Closer>,
    mutex: Option<nat>, done: bool, closes: nat,
    rerr: Option<Error>, werr: Option<Error>,
    order: seq<nat>, handoffs: seq<nat>)

  const Init := State([], [], [], None, false, 0, None, None, [], [])

  datatype Action =
    | CallRead(size: nat)
    | CallWrite(data: seq<byte>)
    | CallClose(side: Side, err: Option<Error>)
    | StepReader(r: nat)
    | StepWriter(w: nat)
    | StepCloser(c: nat)
    | Handoff(w: nat, r: nat)   // rendezvous on wrCh
    | Ack(w: nat, r: nat)       // rendezvous on rdCh

  function Min(a: nat, b: nat): nat { if a < b then a else b }

  function SetReader(s: State, r: nat, x: Reader): State
    requires r < |s.readers|
  {
    s.(readers := s.readers[r := x])
  }

  function SetWriter(s: State, w: nat, x: Writer): State
    requires w < |s.writers|
  {
    s.(writers := s.writers[w := x])
  }

  /** onceError.Store keeps the first error. */
  function Store(first: Option<Error>, err: Error): Option<Error> {
    if first.Some? then first else Some(err)
  }

  /** The common shape of readCloseError and writeCloseError. */
  function CloseError(mine: Option<Error>, other: Option<Error>): Error {
    if mine.None? && other.Some? then other.value else ErrClosedPipe
  }

  /** A step that a Read takes on its own. */
  function AdvanceReader(s: State, r: nat): Option<State>
    requires r < |s.readers|
  {
    var x := s.readers[r];
    if x.pc.ReadStart? then Some(SetReader(s, r, x.(pc := if s.done then ReadLoadR else ReadSelect)))
    else if x.pc.ReadSelect? then (if s.done then Some(SetReader(s, r, x.(pc := ReadLoadR))) else None)
    else if x.pc.ReadLoadR? then Some(SetReader(s, r, x.(pc := ReadLoadW(s.rerr))))
    else if x.pc.ReadLoadW? then
      Some(SetReader(s, r, x.(pc := ReadReturn(Some(CloseError(x.pc.rerr, s.werr))))))
    else None
  }

  /** A step that a Write takes on its own. */
  function AdvanceWriter(s: State, w: nat): Option<State>
    requires w < |s.writers|
  {
    var x := s.writers[w];
    if x.pc.WriteStart? then
      Some(SetWriter(s, w, x.(pc := if s.done then WriteLoadW(false) else WriteLock)))
    else if x.pc.WriteLock? then
      if s.mutex.Some? then None
      else Some(SetWriter(s, w, x.(pc := WriteSelect)).(mutex := Some(w), order := s.order + [w]))
    else if x.pc.WriteSelect? then
      if s.done then Some(SetWriter(s, w, x.(pc := WriteLoadW(true)))) else None
    else if x.pc.WriteLoadW? then
      Some(SetWriter(s, w, x.(pc := WriteLoadR(x.pc.locked, s.werr))))
    else if x.pc.WriteLoadR? then
      var e := Some(CloseError(x.pc.werr, s.rerr));
      Some(SetWriter(s, w, x.(pc := if x.pc.locked then WriteUnlock(e) else WriteReturn(e))))
    else if x.pc.WriteUnlock? then
      Some(SetWriter(s, w, x.(pc := WriteReturn(x.pc.err))).(mutex := None))
    else None
  }

  function AdvanceCloser(s: State, c: nat): Option<State>
    requires c < |s.closers|
  {
    var x := s.closers[c];
    if x.pc.CloseStore? then
      var s' := s.(closers := s.closers[c := x.(pc := CloseOnce)]);
      Some(if x.side.ReadSide? then s'.(rerr := Store(s.rerr, x.err)) else s'.(werr := Store(s.werr, x.err)))
    else if x.pc.CloseOnce? then
      Some(s.(closers := s.closers[c := x.(pc := CloseReturn)],
              closes := if s.done then s.closes else s.closes + 1, done := true))
    else None
  }

  /** p.wrCh <- b meets bw := <-p.wrCh: the reader copies what fits. */
  function DoHandoff(s: State, w: nat, r: nat): Option<State> {
    if w < |s.writers| && r < |s.readers| && s.writers[w].pc.WriteSelect? && s.readers[r].pc.ReadSelect?
       && s.writers[w].n <= |s.writers[w].data|
    then
      var x, y := s.writers[w], s.readers[r];
      var b := x.data[x.n..];
      var got := b[..Min(y.size, |b|)];
      Some(SetReader(SetWriter(s, w, x.(taken := x.taken + |got|, pc := WriteWait(r))),
                     r, y.(pc := ReadAck(w), got := got))
           .(handoffs := s.handoffs + [r]))
    else None
  }

  /** p.rdCh <- nr meets nw := <-p.rdCh: any such pair may meet.  The writer
      goes round its loop, or returns if b is used up. */
  function DoAck(s: State, w: nat, r: nat): Option<State> {
    if w < |s.writers| && r < |s.readers| && s.writers[w].pc.WriteWait? && s.readers[r].pc.ReadAck?
    then
      var x, y := s.writers[w], s.readers[r];
      var n := x.n + |y.got|;
      Some(SetReader(SetWriter(s, w, x.(n := n, pc := if n < |x.data| then WriteSelect else WriteUnlock(None))),
                     r, y.(pc := ReadReturn(None))))
    else None
  }

  function Step(s: State, a: Action): Option<State> {
    if a.CallRead? then Some(s.(readers := s.readers + [Reader(a.size, ReadStart, [])]))
    else if a.CallWrite? then Some(s.(writers := s.writers + [Writer(a.data, 0, 0, WriteStart)]))
    else if a.CallClose? then
      var e := if a.err.Some? then a.err.value else if a.side.ReadSide? then ErrClosedPipe else EOF;
      Some(s.(closers := s.closers + [Closer(a.side, a.err, e, CloseStore)]))
    else if a.StepReader? then (if a.r < |s.readers| then AdvanceReader(s, a.r) else None)
    else if a.StepWriter? then (if a.w < |s.writers| then AdvanceWriter(s, a.w) else None)
    else if a.StepCloser? then (if a.c < |s.closers| then AdvanceCloser(s, a.c) else None)
    else if a.Handoff? then DoHandoff(s, a.w, a.r)
    else DoAck(s, a.w, a.r)
  }

  // ----- invariant

  /** The writer is between Lock and Unlock. */
  predicate InSection(pc: WriterPc) {
    pc.WriteSelect? || pc.WriteWait? || pc.WriteUnlock?
    || (pc.WriteLoadW? && pc.locked) || (pc.WriteLoadR? && pc.locked)
  }

  predicate WriterOk(s: State, w: nat) {
    && w < |s.writers|
    && var x := s.writers[w];
    && x.n <= x.taken <= |x.data|
    && (InSection(x.pc) <==> s.mutex == Some(w))
    && (x.pc.WriteStart? || x.pc.WriteLock? ==> w !in s.order)
    && (InSection(x.pc) || x.taken > 0 ==> w in s.order)
    && (x.pc.WriteWait? ==>
          && x.pc.reader < |s.readers|
          && s.readers[x.pc.reader].pc == ReadAck(w)
          && x.taken == x.n + |s.readers[x.pc.reader].got|)
    && (!x.pc.WriteWait? ==> x.taken == x.n)
    && WriterErrOk(s, x)
  }

  /** Errors are reported only from a closed pipe, success only for all of b. */
  predicate WriterErrOk(s: State, x: Writer) {
    && (x.pc.WriteLoadW? || x.pc.WriteLoadR? ==> s.done)
    && (x.pc.WriteLoadR? && x.pc.werr.Some? ==> s.werr.Some?)
    && (x.pc.WriteUnlock? || x.pc.WriteReturn? ==>
          && (x.pc.err.None? ==> x.n == |x.data|)
          && (x.pc.err.Some? ==> s.done && (s.werr.None? ==> s.rerr == x.pc.err)))
  }

  predicate ReaderOk(s: State, r: nat) {
    && r < |s.readers|
    && var x := s.readers[r];
    && (x.pc.ReadAck? ==> x.pc.writer < |s.writers| && s.writers[x.pc.writer].pc == WriteWait(r))
    && (x.pc.ReadAck? || x.pc == ReadReturn(None) <==> r in s.handoffs)
    && |x.got| <= x.size
    && (x.pc.ReadLoadR? || x.pc.ReadLoadW? ==> s.done)
    && (x.pc.ReadLoadW? && x.pc.rerr.Some? ==> s.rerr.Some?)
    && (x.pc.ReadReturn? && x.pc.err.Some? ==>
          s.done && x.got == [] && (s.rerr.None? ==> s.werr == x.pc.err))
    && (!x.pc.ReadAck? && !x.pc.ReadReturn? ==> x.got == [])
  }

  predicate CloserOk(s: State, c: nat) {
    && c < |s.closers|
    && (!s.closers[c].pc.CloseStore? ==> if s.closers[c].side.ReadSide? then s.rerr.Some? else s.werr.Some?)
  }

  /** What the writers have given up, in the order in which they got the mutex. */
  function Taken(s: State, order: seq<nat>): seq<byte> {
    if order == [] then []
    else
      var w := order[|order| - 1];
      Taken(s, order[..|order| - 1])
      + (if w < |s.writers| && s.writers[w].taken <= |s.writers[w].data|
         then s.writers[w].data[..s.writers[w].taken] else [])
  }

  /** What the readers have copied, in the order of the handoffs. */
  function Received(s: State, handoffs: seq<nat>): seq<byte> {
    if handoffs == [] then []
    else
      var r := handoffs[|handoffs| - 1];
      Received(s, handoffs[..|handoffs| - 1]) + (if r < |s.readers| then s.readers[r].got else [])
  }

  predicate Distinct(a: seq<nat>, n: nat) {
    && (forall i, j :: 0 <= i < j < |a| ==> a[i] != a[j])
    && (forall i :: 0 <= i < |a| ==> a[i] < n)
  }

  predicate OrderOk(s: State) {
    && Distinct(s.order, |s.writers|)
    && Distinct(s.handoffs, |s.readers|)
    && (s.mutex.Some? ==> s.order != [] && s.order[|s.order| - 1] == s.mutex.value)
  }

  ghost predicate Inv(s: State) {
    && (forall w: nat :: w < |s.writers| ==> WriterOk(s, w))
    && (forall r: nat :: r < |s.readers| ==> ReaderOk(s, r))
    && (forall c: nat :: c < |s.closers| ==> CloserOk(s, c))
    && OrderOk(s)
    && Received(s, s.handoffs) == Taken(s, s.order)
    && (s.done ==> s.rerr.Some? || s.werr.Some?)
    && s.closes == (if s.done then 1 else 0)
    && (s.mutex.Some? ==> s.mutex.value < |s.writers|)
  }

  // ----- every step keeps the invariant

  /** Taken looks only at the listed writers' data and counts. */
  lemma {:induction false} TakenSame(s: State, s': State, order: seq<nat>)
    requires |s.writers| <= |s'.writers|
    requires forall i :: 0 <= i < |order| ==> order[i] < |s.writers|
    requires forall i :: 0 <= i < |order| ==>
      s'.writers[order[i]].data == s.writers[order[i]].data && s'.writers[order[i]].taken == s.writers[order[i]].taken
    ensures Taken(s', order) == Taken(s, order)
  {
    if order != [] { TakenSame(s, s', order[..|order| - 1]); }
  }

  /** Received looks only at the listed readers' bytes. */
  lemma {:induction false} ReceivedSame(s: State, s': State, handoffs: seq<nat>)
    requires |s.readers| <= |s'.readers|
    requires forall i :: 0 <= i < |handoffs| ==> handoffs[i] < |s.readers|
    requires forall i :: 0 <= i < |handoffs| ==> s'.readers[handoffs[i]].got == s.readers[handoffs[i]].got
    ensures Received(s', handoffs) == Received(s, handoffs)
  {
    if handoffs != [] { ReceivedSame(s, s', handoffs[..|handoffs| - 1]); }
  }

  lemma CallKeepsInv(s: State, a: Action, s': State)
    requires Inv(s) && Step(s, a) == Some(s') && (a.CallRead? || a.CallWrite? || a.CallClose?)
    ensures Inv(s')
  {
    TakenSame(s, s', s.order);
    ReceivedSame(s, s', s.handoffs);
    forall w: nat | w < |s'.writers| ensures WriterOk(s', w) {
      if w < |s.writers| { assert WriterOk(s, w); }
    }
    forall r: nat | r < |s'.readers| ensures ReaderOk(s', r) {
      if r < |s.readers| { assert ReaderOk(s, r); }
    }
    forall c: nat | c < |s'.closers| ensures CloserOk(s', c) {
      if c < |s.closers| { assert CloserOk(s, c); }
    }
  }

  lemma ReaderKeepsInv(s: State, r: nat, s': State)
    requires Inv(s) && r < |s.readers| && AdvanceReader(s, r) == Some(s')
    ensures Inv(s')
  {
    ReaderStepOk(s, r, s');
    TakenSame(s, s', s.order);
    ReceivedSame(s, s', s.handoffs);
    forall w: nat | w < |s'.writers| ensures WriterOk(s', w) { assert WriterOk(s, w); }
    forall q: nat | q < |s'.readers| ensures ReaderOk(s', q) { assert ReaderOk(s, q); }
    forall c: nat | c < |s'.closers| ensures CloserOk(s', c) { assert CloserOk(s, c); }
  }

  lemma ReaderStepOk(s: State, r: nat, s': State)
    requires Inv(s) && r < |s.readers| && AdvanceReader(s, r) == Some(s')
    ensures ReaderOk(s', r) && !s.readers[r].pc.ReadAck? && !s'.readers[r].pc.ReadAck?
    ensures s'.readers[r].got == s.readers[r].got && s' == SetReader(s, r, s'.readers[r])
  {
    assert ReaderOk(s, r);
  }

  /** A closer changes only the errors and done, and only from nothing to something. */
  lemma CloserStepOk(s: State, c: nat, s': State)
    requires c < |s.closers| && CloserOk(s, c) && AdvanceCloser(s, c) == Some(s')
    ensures s' == s.(closers := s'.closers, rerr := s'.rerr, werr := s'.werr, done := s'.done, closes := s'.closes)
    ensures |s'.closers| == |s.closers| && s'.closers == s.closers[c := s'.closers[c]] && CloserOk(s', c)
    ensures (s.rerr.Some? ==> s'.rerr == s.rerr) && (s.werr.Some? ==> s'.werr == s.werr)
    ensures if s'.done == s.done then s'.closes == s.closes else s'.done && s'.closes == s.closes + 1
    ensures s'.done != s.done ==> s'.rerr.Some? || s'.werr.Some?
  {
  }

  lemma CloserKeepsInv(s: State, c: nat, s': State)
    requires Inv(s) && c < |s.closers| && AdvanceCloser(s, c) == Some(s')
    ensures Inv(s')
  {
    hide AdvanceCloser, Taken, Received;
    CloserStepOk(s, c, s');
    TakenSame(s, s', s.order);
    ReceivedSame(s, s', s.handoffs);
    forall w: nat | w < |s'.writers| ensures WriterOk(s', w) { assert WriterOk(s, w); }
    forall r: nat | r < |s'.readers| ensures ReaderOk(s', r) { assert ReaderOk(s, r); }
    forall d: nat | d < |s'.closers| ensures CloserOk(s', d) { assert CloserOk(s, d); }
  }

  /** A writer's own steps leave the counts alone; taking wrMu adds it to the order. */
  lemma WriterKeepsInv(s: State, w: nat, s': State)
    requires Inv(s) && w < |s.writers| && AdvanceWriter(s, w) == Some(s')
    ensures Inv(s')
  {
    hide AdvanceWriter, Taken, Received;
    WriterStepOk(s, w, s');
    forall v: nat | v < |s'.writers| ensures WriterOk(s', v) { assert WriterOk(s, v); }
    forall r: nat | r < |s'.readers| ensures ReaderOk(s', r) { assert ReaderOk(s, r); }
    forall c: nat | c < |s'.closers| ensures CloserOk(s', c) { assert CloserOk(s, c); }
    OrderStep(s, w, s');
  }

  lemma WriterStepOk(s: State, w: nat, s': State)
    requires Inv(s) && w < |s.writers| && AdvanceWriter(s, w) == Some(s')
    ensures WriterOk(s', w) && !s.writers[w].pc.WriteWait? && !s'.writers[w].pc.WriteWait?
    ensures s'.writers == s.writers[w := s'.writers[w]] && |s'.writers| == |s.writers|
    ensures s' == s.(writers := s'.writers, mutex := s'.mutex, order := s'.order)
    ensures (s'.mutex == s.mutex && s'.order == s.order)
         || (s.mutex.None? && s'.mutex == Some(w) && s'.order == s.order + [w])
         || (s.mutex == Some(w) && s'.mutex.None? && s'.order == s.order)
    ensures s'.writers[w].data == s.writers[w].data && s'.writers[w].taken == s.writers[w].taken
    ensures s'.order != s.order ==> w !in s.order && s.writers[w].taken == 0
  {
    assert WriterOk(s, w);
  }

  lemma OrderStep(s: State, w: nat, s': State)
    requires Inv(s) && w < |s.writers| && |s'.writers| == |s.writers|
    requires s'.writers == s.writers[w := s'.writers[w]] && s'.readers == s.readers && s'.handoffs == s.handoffs
    requires s'.writers[w].data == s.writers[w].data && s'.writers[w].taken == s.writers[w].taken
    requires s'.order == s.order || s'.order == s.order + [w]
    requires s'.order != s.order ==> w !in s.order && s.writers[w].taken == 0
    ensures Received(s', s'.handoffs) == Taken(s', s'.order)
    ensures Distinct(s'.order, |s'.writers|)
  {
    TakenSame(s, s', s.order);
    ReceivedSame(s, s', s.handoffs);
    if s'.order != s.order {
      assert s'.order[..|s'.order| - 1] == s.order;
      assert s'.writers[w].data[..0] == [];
    }
  }

  /** The bytes that the reader copies are the next ones of the writer that
      holds wrMu, which is the last in the order. */
  lemma HandoffExtends(s: State, w: nat, r: nat, s': State)
    requires Inv(s) && DoHandoff(s, w, r) == Some(s')
    ensures Received(s', s'.handoffs) == Taken(s', s'.order)
  {
    assert WriterOk(s, w) && ReaderOk(s, r);
    ReceivedSame(s, s', s.handoffs);
    assert s'.handoffs[..|s'.handoffs| - 1] == s.handoffs;
    var x, got := s.writers[w], s'.readers[r].got;
    NextBytes(x.data, x.taken, got, s.readers[r].size);
    assert s'.writers[w].data == x.data && s'.writers[w].taken == x.taken + |got|;
    LastTaken(s, s', w, got);
  }

  lemma NextBytes(data: seq<byte>, n: nat, got: seq<byte>, size: nat)
    requires n <= |data| && got == data[n..][..Min(size, |data| - n)]
    ensures n + |got| <= |data| && data[..n] + got == data[..n + |got|]
  {
  }

  lemma LastTaken(s: State, s': State, w: nat, got: seq<byte>)
    requires OrderOk(s) && s.order != [] && s.order[|s.order| - 1] == w && s'.order == s.order
    requires w < |s.writers| == |s'.writers| && s'.writers == s.writers[w := s'.writers[w]]
    requires s.writers[w].taken <= |s.writers[w].data|
    requires s'.writers[w].data == s.writers[w].data
    requires s'.writers[w].taken == s.writers[w].taken + |got| <= |s.writers[w].data|
    requires s.writers[w].data[..s.writers[w].taken] + got == s.writers[w].data[..s'.writers[w].taken]
    ensures Taken(s', s'.order) == Taken(s, s.order) + got
  {
    var prefix := s.order[..|s.order| - 1];
    TakenSame(s, s', prefix);
  }

  lemma HandoffKeepsInv(s: State, w: nat, r: nat, s': State)
    requires Inv(s) && DoHandoff(s, w, r) == Some(s')
    ensures Inv(s')
  {
    HandoffExtends(s, w, r, s');
    assert WriterOk(s, w) && ReaderOk(s, r);
    forall v: nat | v < |s'.writers| ensures WriterOk(s', v) { assert WriterOk(s, v); }
    forall q: nat | q < |s'.readers| ensures ReaderOk(s', q) { assert ReaderOk(s, q); }
    forall c: nat | c < |s'.closers| ensures CloserOk(s', c) { assert CloserOk(s, c); }
  }

  /** The two sides of a meeting on rdCh always belong together. */
  lemma AckKeepsInv(s: State, w: nat, r: nat, s': State)
    requires Inv(s) && DoAck(s, w, r) == Some(s')
    ensures Inv(s')
    ensures s.writers[w].pc == WriteWait(r) && s.readers[r].pc == ReadAck(w)
  {
    assert WriterOk(s, w) && ReaderOk(s, r);
    assert WriterOk(s, s.readers[r].pc.writer);
    TakenSame(s, s', s.order);
    ReceivedSame(s, s', s.handoffs);
    forall v: nat | v < |s'.writers| ensures WriterOk(s', v) { assert WriterOk(s, v); }
    forall q: nat | q < |s'.readers| ensures ReaderOk(s', q) { assert ReaderOk(s, q); }
    forall c: nat | c < |s'.closers| ensures CloserOk(s', c) { assert CloserOk(s, c); }
  }

  lemma StepKeepsInv(s: State, a: Action, s': State)
    requires Inv(s) && Step(s, a) == Some(s')
    ensures Inv(s')
  {
    match a
    case StepReader(r) => ReaderKeepsInv(s, r, s');
    case StepWriter(w) => WriterKeepsInv(s, w, s');
    case StepCloser(c) => CloserKeepsInv(s, c, s');
    case Handoff(w, r) => HandoffKeepsInv(s, w, r, s');
    case Ack(w, r) => AckKeepsInv(s, w, r, s');
    case _ => CallKeepsInv(s, a, s');
  }

  // ----- over every run

  ghost predicate StepsTo(s: State, s': State) {
    exists a :: Step(s, a) == Some(s')
  }

  function Last(run: seq<State>): State
    requires run != []
  {
    run[|run| - 1]
  }

  /** A run interleaves any number of calls in any order. */
  ghost predicate IsRun(run: seq<State>) {
    if |run| <= 1 then run == [Init]
    else IsRun(run[..|run| - 1]) && StepsTo(Last(run[..|run| - 1]), Last(run))
  }

  lemma {:induction false} RunInv(run: seq<State>)
    requires IsRun(run)
    ensures Inv(Last(run))
  {
    if |run| > 1 {
      RunInv(run[..|run| - 1]);
      var a :| Step(Last(run[..|run| - 1]), a) == Some(Last(run));
      StepKeepsInv(Last(run[..|run| - 1]), a, Last(run));
    }
  }

  /** Conservation: what the readers got, in handoff order, is what the writers
      gave up, in lock order. */
  lemma Conservation(run: seq<State>)
    requires IsRun(run)
    ensures Received(Last(run), Last(run).handoffs) == Taken(Last(run), Last(run).order)
    ensures Distinct(Last(run).order, |Last(run).writers|)
    ensures Distinct(Last(run).handoffs, |Last(run).readers|)
  {
    RunInv(run);
  }

  /** A Write returns the number of bytes that its readers took, with a nil
      error only if that is all of them and with an error only on a closed pipe. */
  lemma WriteResult(run: seq<State>, w: nat)
    requires IsRun(run) && w < |Last(run).writers| && Last(run).writers[w].pc.WriteReturn?
    ensures var x := Last(run).writers[w];
      && x.n == x.taken <= |x.data|
      && (x.taken > 0 ==> w in Last(run).order)
      && (x.pc.err.None? ==> x.n == |x.data|)
      && (x.pc.err.Some? ==> Last(run).done)
  {
    RunInv(run);
    assert WriterOk(Last(run), w);
  }

  /** A Read returns its chunk without error, or no bytes and an error from a
      closed pipe. */
  lemma ReadResult(run: seq<State>, r: nat)
    requires IsRun(run) && r < |Last(run).readers| && Last(run).readers[r].pc.ReadReturn?
    ensures var x := Last(run).readers[r];
      && |x.got| <= x.size
      && (x.pc.err.None? <==> r in Last(run).handoffs)
      && (x.pc.err.Some? ==> x.got == [] && Last(run).done)
  {
    RunInv(run);
    assert ReaderOk(Last(run), r);
  }

  /** A reader that has taken a chunk finds its own writer waiting on rdCh, and
      no other writer is waiting there, whether or not the pipe is closed. */
  lemma OwnWriterWaits(run: seq<State>, r: nat, v: nat)
    requires IsRun(run) && r < |Last(run).readers| && Last(run).readers[r].pc.ReadAck?
    ensures var s, w := Last(run), Last(run).readers[r].pc.writer;
      && Step(s, Ack(w, r)).Some?
      && (v < |s.writers| && s.writers[v].pc.WriteWait? ==> v == w)
  {
    RunInv(run);
    var s := Last(run);
    assert ReaderOk(s, r) && WriterOk(s, s.readers[r].pc.writer);
    if v < |s.writers| { assert WriterOk(s, v); }
  }

  /** done is closed at most once, and only after an error was stored. */
  lemma ClosedOnce(run: seq<State>)
    requires IsRun(run)
    ensures Last(run).closes <= 1
    ensures Last(run).done ==> Last(run).rerr.Some? || Last(run).werr.Some?
  {
    RunInv(run);
  }

  /** If only the other side was closed, its first error is the one reported. */
  lemma ReportedErrors(run: seq<State>, w: nat, r: nat)
    requires IsRun(run)
    ensures var s := Last(run);
      && (r < |s.readers| && s.readers[r].pc.ReadReturn? && s.readers[r].pc.err.Some? && s.rerr.None? ==>
            s.werr == s.readers[r].pc.err)
      && (w < |s.writers| && s.writers[w].pc.WriteReturn? && s.writers[w].pc.err.Some? && s.werr.None? ==>
            s.rerr == s.writers[w].pc.err)
  {
    RunInv(run);
    if r < |Last(run).readers| { assert ReaderOk(Last(run), r); }
    if w < |Last(run).writers| { assert WriterOk(Last(run), w); }
  }

  /** The first stored error of each side stays. */
  lemma FirstErrorStays(s: State, a: Action, s': State)
    requires Step(s, a) == Some(s')
    ensures s.rerr.Some? ==> s'.rerr == s.rerr
    ensures s.werr.Some? ==> s'.werr == s.werr
    ensures s.done ==> s'.done
  {
  }

  // ----- closing frees everybody

  predicate Enabled(s: State, a: Action) {
    Step(s, a).Some? && !a.CallRead? && !a.CallWrite? && !a.CallClose?
  }

  predicate Returned(s: State) {
    && (forall r :: 0 <= r < |s.readers| ==> s.readers[r].pc.ReadReturn?)
    && (forall w :: 0 <= w < |s.writers| ==> s.writers[w].pc.WriteReturn?)
    && (forall c :: 0 <= c < |s.closers| ==> s.closers[c].pc.CloseReturn?)
  }

  /** A writer inside its critical section of a closed pipe can move. */
  lemma HolderMoves(s: State, w: nat) returns (a: Action)
    requires Inv(s) && s.done && w < |s.writers| && InSection(s.writers[w].pc)
    ensures Enabled(s, a)
  {
    assert WriterOk(s, w);
    if s.writers[w].pc.WriteWait? {
      assert ReaderOk(s, s.writers[w].pc.reader);
      a := Ack(w, s.writers[w].pc.reader);
    } else {
      a := StepWriter(w);
    }
  }

  /** On a closed pipe nobody is stuck: until all calls have returned, one of
      them can take a step. */
  lemma ClosedPipeMoves(run: seq<State>) returns (a: Action)
    requires IsRun(run) && Last(run).done && !Returned(Last(run))
    ensures Enabled(Last(run), a)
  {
    RunInv(run);
    var s := Last(run);
    if r :| 0 <= r < |s.readers| && !s.readers[r].pc.ReadReturn? {
      assert ReaderOk(s, r);
      a := if s.readers[r].pc.ReadAck? then Ack(s.readers[r].pc.writer, r) else StepReader(r);
    } else if w :| 0 <= w < |s.writers| && !s.writers[w].pc.WriteReturn? {
      assert WriterOk(s, w);
      if s.writers[w].pc.WriteLock? && s.mutex.Some? {
        assert WriterOk(s, s.mutex.value);
        a := HolderMoves(s, s.mutex.value);
      } else if InSection(s.writers[w].pc) {
        a := HolderMoves(s, w);
      } else {
        a := StepWriter(w);
      }
    } else {
      var c :| 0 <= c < |s.closers| && !s.closers[c].pc.CloseReturn?;
      a := StepCloser(c);
    }
  }

  function ReaderWeight(x: Reader): nat {
    match x.pc
    case ReadStart => 12
    case ReadSelect => 11
    case ReadAck(_) => 5
    case ReadLoadR => 2
    case ReadLoadW(_) => 1
    case ReadReturn(_) => 0
  }

  function WriterWeight(x: Writer): nat {
    match x.pc
    case WriteStart => 20
    case WriteLock => 11
    case WriteWait(_) => 10
    case WriteSelect => 9
    case WriteLoadW(_) => 8
    case WriteLoadR(_, _) => 7
    case WriteUnlock(_) => 6
    case WriteReturn(_) => 0
  }

  function CloserWeight(x: Closer): nat {
    match x.pc
    case CloseStore => 2
    case CloseOnce => 1
    case CloseReturn => 0
  }

  function ReadersWeight(a: seq<Reader>): nat {
    if a == [] then 0 else ReadersWeight(a[..|a| - 1]) + ReaderWeight(a[|a| - 1])
  }

  function WritersWeight(a: seq<Writer>): nat {
    if a == [] then 0 else WritersWeight(a[..|a| - 1]) + WriterWeight(a[|a| - 1])
  }

  function ClosersWeight(a: seq<Closer>): nat {
    if a == [] then 0 else ClosersWeight(a[..|a| - 1]) + CloserWeight(a[|a| - 1])
  }

  lemma {:induction false} ReadersWeightUpdate(a: seq<Reader>, i: nat, x: Reader)
    requires i < |a|
    ensures ReadersWeight(a[i := x]) == ReadersWeight(a) - ReaderWeight(a[i]) + ReaderWeight(x)
  {
    var k := |a| - 1;
    if i < k {
      ReadersWeightUpdate(a[..k], i, x);
      assert a[i := x][..k] == a[..k][i := x];
    } else {
      assert a[i := x][..k] == a[..k];
    }
  }

  lemma {:induction false} WritersWeightUpdate(a: seq<Writer>, i: nat, x: Writer)
    requires i < |a|
    ensures WritersWeight(a[i := x]) == WritersWeight(a) - WriterWeight(a[i]) + WriterWeight(x)
  {
    var k := |a| - 1;
    if i < k {
      WritersWeightUpdate(a[..k], i, x);
      assert a[i := x][..k] == a[..k][i := x];
    } else {
      assert a[i := x][..k] == a[..k];
    }
  }

  lemma {:induction false} ClosersWeightUpdate(a: seq<Closer>, i: nat, x: Closer)
    requires i < |a|
    ensures ClosersWeight(a[i := x]) == ClosersWeight(a) - CloserWeight(a[i]) + CloserWeight(x)
  {
    var k := |a| - 1;
    if i < k {
      ClosersWeightUpdate(a[..k], i, x);
      assert a[i := x][..k] == a[..k][i := x];
    } else {
      assert a[i := x][..k] == a[..k];
    }
  }

  /** A bound on the steps that the calls in progress can still take. */
  function Remaining(s: State): nat {
    ReadersWeight(s.readers) + WritersWeight(s.writers) + ClosersWeight(s.closers)
  }

  /** Every step of a call in progress uses up work; with ClosedPipeMoves, all
      calls on a closed pipe return. */
  lemma StepsAreBounded(s: State, a: Action, s': State)
    requires Enabled(s, a) && Step(s, a) == Some(s')
    ensures Remaining(s') < Remaining(s)
  {
    match a
    case StepReader(r) => ReaderDecreases(s, r, s');
    case StepWriter(w) => WriterDecreases(s, w, s');
    case StepCloser(c) => CloserDecreases(s, c, s');
    case Handoff(w, r) => MeetingDecreases(s, w, r, s');
    case Ack(w, r) => MeetingDecreases(s, w, r, s');
  }

  lemma ReaderDecreases(s: State, r: nat, s': State)
    requires r < |s.readers| && AdvanceReader(s, r) == Some(s')
    ensures Remaining(s') < Remaining(s)
  {
    ReadersWeightUpdate(s.readers, r, s'.readers[r]);
  }

  lemma WriterDecreases(s: State, w: nat, s': State)
    requires w < |s.writers| && AdvanceWriter(s, w) == Some(s')
    ensures Remaining(s') < Remaining(s)
  {
    WritersWeightUpdate(s.writers, w, s'.writers[w]);
  }

  lemma CloserDecreases(s: State, c: nat, s': State)
    requires c < |s.closers| && AdvanceCloser(s, c) == Some(s')
    ensures Remaining(s') < Remaining(s)
  {
    ClosersWeightUpdate(s.closers, c, s'.closers[c]);
  }

  lemma MeetingDecreases(s: State, w: nat, r: nat, s': State)
    requires DoHandoff(s, w, r) == Some(s') || DoAck(s, w, r) == Some(s')
    ensures Remaining(s') < Remaining(s)
  {
    ReadersWeightUpdate(s.readers, r, s'.readers[r]);
    WritersWeightUpdate(s.writers, w, s'.writers[w]);
  }
}
