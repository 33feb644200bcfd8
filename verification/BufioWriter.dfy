/** bufio.Writer of src/bufio/bufio.go, over a writer that may take fewer bytes
    than it is given, with or without an error. */
module BufioWriter {
  import opened Common
  import opened Streams
  import opened ByteIndex

  /** How the underlying writer treats one Write: it takes at most limit bytes. */
  datatype Response = Response(limit: nat, err: Option<Error>)

  /** One Write as it was: what was offered, how much of it was taken, and the error. */
  datatype Call = Call(data: seq<byte>, count: nat, err: Option<Error>)

  /** How the k-th Write of a script is answered; after the script every Write takes
      all it is given. */
  function Answer(script: seq<Response>, k: nat, data: seq<byte>): (c: Call)
    ensures c.data == data && c.count <= |data|
  {
    if k >= |script| then Call(data, |data|, None)
    else Call(data, if script[k].limit < |data| then script[k].limit else |data|, script[k].err)
  }

  /** The bytes that the Writes have taken. */
  function Sent(calls: seq<Call>): seq<byte> {
    if calls == [] then []
    else
      var c := calls[|calls| - 1];
      Sent(calls[..|calls| - 1]) + if c.count <= |c.data| then c.data[..c.count] else c.data
  }

  class ScriptWriter {
    var calls: seq<Call>
    const script: seq<Response>

    constructor (script: seq<Response>)
      ensures this.script == script && calls == [] && Honest()
    {
      this.script := script;
      calls := [];
    }

    /** Every Write so far was answered as the script says. */
    ghost predicate Honest()
      reads this
    {
      forall k :: 0 <= k < |calls| ==> calls[k] == Answer(script, k, calls[k].data)
    }

    /** The answers that the script still has. */
    ghost function Left(): nat
      reads this
    {
      if |calls| < |script| then |script| - |calls| else 0
    }

    /** Write(p) */
    method Write(p: seq<byte>) returns (n: nat, err: Option<Error>)
      requires Honest()
      modifies this
      ensures Honest() && n <= |p| && calls == old(calls) + [Call(p, n, err)]
      ensures Sent(calls) == old(Sent(calls)) + p[..n]
      ensures old(Left()) > 0 ==> Left() < old(Left())
      ensures old(Left()) == 0 ==> Left() == 0 && n == |p| && err.None?
    {
      var c := Answer(script, |calls|, p);
      n, err := c.count, c.err;
      calls := calls + [c];
      assert calls[..|calls| - 1] == old(calls);
    }
  }

  /** The error that a Write below leaves with a buffer of this size: its own, or
      ErrShortWrite if it took less than a Flush offered.  A Write that goes past the
      buffer, with more than fits in there, may fall short without an error. */
  function Failure(c: Call, size: nat): Option<Error> {
    if c.err.Some? then c.err
    else if c.count < |c.data| <= size then Some(ShortWrite)
    else None
  }

  /** What the Writes below have to do with the error: there is one if and only if one
      of them failed.  That one is the last, and its error stays. */
  ghost predicate Explained(was: seq<Call>, now: seq<Call>, size: nat, err: Option<Error>, err': Option<Error>) {
    && was <= now
    && (err.Some? ==> err' == err && now == was)
    && (forall k :: |was| <= k < |now| - 1 ==> Failure(now[k], size).None?)
    && (err.None? ==> err' == if |was| < |now| then Failure(now[|now| - 1], size) else None)
  }

  lemma ExplainedAgain(a: seq<Call>, b: seq<Call>, c: seq<Call>, size: nat, err: Option<Error>, err': Option<Error>,
                       err'': Option<Error>)
    requires Explained(a, b, size, err, err') && Explained(b, c, size, err', err'')
    ensures Explained(a, c, size, err, err'')
  {
    forall k | |a| <= k < |c| - 1 ensures Failure(c[k], size).None? {
      assert k < |b| ==> c[k] == b[k];
    }
  }

  lemma ExplainedAlready(calls: seq<Call>, size: nat, err: Option<Error>)
    ensures Explained(calls, calls, size, err, err)
  {
  }

  class Writer {
    var err: Option<Error>
    var buf: array<byte>
    var n: nat
    const wr: ScriptWriter

    ghost predicate Valid()
      reads this, buf, wr
    {
      n <= buf.Length && 0 < buf.Length && wr.Honest()
    }

    /** Everything accepted so far: what the underlying writer took, and what is
        still in the buffer. */
    ghost function Accepted(): seq<byte>
      reads this, buf, wr
      requires Valid()
    {
      Sent(wr.calls) + buf[..n]
    }

    /** NewWriterSize */
    constructor (wr: ScriptWriter, size: int)
      requires wr.Honest()
      ensures Valid() && fresh(buf) && this.wr == wr && err.None?
      ensures Accepted() == Sent(wr.calls)
    {
      var m := if size <= 0 then 4096 else size;
      this.wr := wr;
      buf := new byte[m](_ => 0);
      n, err := 0, None;
    }

    function Available(): nat
      reads this, buf
      requires n <= buf.Length
    {
      buf.Length - n
    }

    /** Append data to the buffer. */
    method Put(data: seq<byte>)
      requires Valid() && |data| <= Available()
      modifies this`n, buf
      ensures Valid() && n == old(n) + |data|
      ensures Accepted() == old(Accepted()) + data
    {
      CopyInto(buf, n, data);
      n := n + |data|;
      assert buf[..n] == old(buf[..n]) + data;
      Associate(Sent(wr.calls), old(buf[..n]), data);
    }

    /** Flush (bufio.go:584-605): nothing is lost, also when the underlying writer
        takes only a part. */
    method Flush() returns (e: Option<Error>)
      requires Valid()
      modifies this, buf, wr
      ensures Valid() && buf == old(buf) && Accepted() == old(Accepted())
      ensures e == err
      ensures old(err).Some? ==> n == old(n) && wr.calls == old(wr.calls)
      ensures Explained(old(wr.calls), wr.calls, buf.Length, old(err), err)
      ensures err.None? ==> n == 0
      ensures n <= old(n)
    {
      if err.Some? {
        return err;
      }
      if n == 0 {
        return None;
      }
      var m: nat;
      m, e := wr.Write(buf[..n]);
      SentAndKept(old(Sent(wr.calls)), old(buf[..n]), m);
      if m < n && e.None? {
        e := Some(ShortWrite);
      }
      if e.Some? {
        if 0 < m < n {
          forall i | 0 <= i < n - m {
            buf[i] := buf[m + i];
          }
        }
        n := n - m;
        assert buf[..n] == old(buf[..n])[m..];
        err := e;
        return e;
      }
      n := 0;
      assert buf[..n] == [];
    }

    /** A Write that goes past the empty buffer (bufio.go:622-625). */
    method WritePast(q: seq<byte>) returns (m: nat)
      requires Valid() && n == 0 && |q| > buf.Length && err.None?
      modifies this`err, wr
      ensures Valid() && m <= |q| && Accepted() == old(Accepted()) + q[..m]
      ensures Explained(old(wr.calls), wr.calls, buf.Length, None, err)
      ensures err.None? && m < |q| ==> wr.Left() < old(wr.Left())
      ensures wr.Left() <= old(wr.Left())
    {
      ghost var before := Sent(wr.calls);
      m, err := wr.Write(q);
      assert buf[..0] == [] && before + [] == before;
    }

    /** Write (bufio.go:617-639): nn bytes of p are accepted, all of them unless an
        error stops it. */
    method Write(p: seq<byte>) returns (nn: nat, e: Option<Error>)
      requires Valid()
      modifies this, buf, wr
      ensures Valid() && buf == old(buf)
      ensures nn <= |p| && Accepted() == old(Accepted()) + p[..nn]
      ensures e == err && (e.None? ==> nn == |p|)
      ensures old(err).Some? ==> nn == 0
      ensures Explained(old(wr.calls), wr.calls, buf.Length, old(err), err)
    {
      hide Explained, Sent;
      ExplainedAlready(wr.calls, buf.Length, err);
      nn := 0;
      var q := p;
      while |q| > Available() && err.None?
        invariant Valid() && buf == old(buf)
        invariant nn <= |p| && q == p[nn..] && Accepted() == old(Accepted()) + p[..nn]
        invariant old(err).Some? ==> nn == 0 && err.Some?
        invariant Explained(old(wr.calls), wr.calls, buf.Length, old(err), err)
        decreases |q|, wr.Left(), if err.None? then 1 else 0, n
      {
        ghost var calls := wr.calls;
        var m: nat;
        if n == 0 {
          m := WritePast(q);
        } else {
          m := Available();
          Put(q[..m]);
          var _ := Flush();
        }
        ExplainedAgain(old(wr.calls), calls, wr.calls, buf.Length, old(err), None, err);
        Extend(p, nn, m, old(Accepted()));
        nn := nn + m;
        q := q[m..];
      }
      if err.Some? {
        return nn, err;
      }
      Put(q);
      Extend(p, nn, |q|, old(Accepted()));
      nn := nn + |q|;
      e := None;
    }

    /** WriteByte (bufio.go:642-652) */
    method WriteByte(c: byte) returns (e: Option<Error>)
      requires Valid()
      modifies this, buf, wr
      ensures Valid() && buf == old(buf) && e == err
      ensures Accepted() == if e.None? then old(Accepted()) + [c] else old(Accepted())
      ensures Explained(old(wr.calls), wr.calls, buf.Length, old(err), err)
    {
      if err.Some? {
        return err;
      }
      if Available() <= 0 {
        e := Flush();
        if e.Some? {
          return err;
        }
      }
      Put([c]);
      e := None;
    }

    /** WriteString (bufio.go:687-703): like Write, but always through the buffer. */
    method WriteString(p: seq<byte>) returns (nn: nat, e: Option<Error>)
      requires Valid()
      modifies this, buf, wr
      ensures Valid() && buf == old(buf)
      ensures nn <= |p| && Accepted() == old(Accepted()) + p[..nn]
      ensures e == err && (e.None? ==> nn == |p|)
      ensures old(err).Some? ==> nn == 0
      ensures Explained(old(wr.calls), wr.calls, buf.Length, old(err), err)
    {
      hide Explained, Sent;
      ExplainedAlready(wr.calls, buf.Length, err);
      nn := 0;
      var q := p;
      while |q| > Available() && err.None?
        invariant Valid() && buf == old(buf)
        invariant nn <= |p| && q == p[nn..] && Accepted() == old(Accepted()) + p[..nn]
        invariant old(err).Some? ==> nn == 0 && err.Some?
        invariant Explained(old(wr.calls), wr.calls, buf.Length, old(err), err)
        decreases |q|, if err.None? then 1 else 0, n
      {
        var m := Available();
        Put(q[..m]);
        Extend(p, nn, m, old(Accepted()));
        nn := nn + m;
        q := q[m..];
        ghost var calls := wr.calls;
        var _ := Flush();
        ExplainedAgain(old(wr.calls), calls, wr.calls, buf.Length, old(err), None, err);
      }
      if err.Some? {
        return nn, err;
      }
      Put(q);
      Extend(p, nn, |q|, old(Accepted()));
      nn := nn + |q|;
      e := None;
    }

    /** ReadFrom (bufio.go:708-752) without the io.ReaderFrom shortcut.  What it
        reports as read, it has accepted; unless the writer fails, that is all
        that r delivers, whatever the chunks and the buffer size. */
    method ReadFrom(r: ScriptReader) returns (count: nat, e: Option<Error>)
      requires Valid()
      modifies this, buf, wr, r
      ensures Valid() && buf == old(buf)
      ensures var d := old(Deliver(r.script, 0, MAX_EMPTY_READS));
        && count <= |d.bytes| && Accepted() == old(Accepted()) + d.bytes[..count]
        && (err.None? ==> count == |d.bytes| && e == if d.err == EOF then None else Some(d.err))
        && (err.Some? ==> e == err)
      ensures old(err).Some? ==> count == 0
      ensures Explained(old(wr.calls), wr.calls, buf.Length, old(err), err)
    {
      hide Deliver, Explained, Sent;
      ExplainedAlready(wr.calls, buf.Length, err);
      if err.Some? {
        return 0, err;
      }
      ghost var d := Deliver(r.script, 0, MAX_EMPTY_READS);
      count := 0;
      while true
        invariant Valid() && buf == old(buf) && err.None?
        invariant Explained(old(wr.calls), wr.calls, buf.Length, old(err), err)
        invariant count <= |d.bytes| && Accepted() == old(Accepted()) + d.bytes[..count]
        invariant Deliver(r.script, 0, MAX_EMPTY_READS) == d.(bytes := d.bytes[count..])
        decreases |d.bytes| - count
      {
        ghost var calls := wr.calls;
        e := FlushFull();
        ExplainedAgain(old(wr.calls), calls, wr.calls, buf.Length, None, None, err);
        if e.Some? {
          return count, e;
        }
        var data;
        data, e := ReadSome(r);
        if e == Some(NoProgress) && data == [] {
          return count, e;
        }
        ghost var later := if e.Some? then [] else Deliver(r.script, 0, MAX_EMPTY_READS).bytes;
        NextData(old(Accepted()), d.bytes, count, data, later);
        Put(data);
        count := count + |data|;
        if e.Some? {
          break;
        }
      }
      if e == Some(EOF) {
        // A buffer that is just full is sent on.
        ghost var calls := wr.calls;
        e := FlushFull();
        ExplainedAgain(old(wr.calls), calls, wr.calls, buf.Length, None, None, err);
      }
    }

    /** A full buffer is flushed (bufio.go:721-725, 744-748). */
    method FlushFull() returns (e: Option<Error>)
      requires Valid() && err.None?
      modifies this, buf, wr
      ensures Valid() && buf == old(buf) && Accepted() == old(Accepted())
      ensures e == err && (err.None? ==> Available() > 0)
      ensures Explained(old(wr.calls), wr.calls, buf.Length, None, err)
    {
      e := None;
      if Available() == 0 {
        e := Flush();
      }
    }

    /** The retry loop of ReadFrom (bufio.go:726-736): a result that is not empty,
        or the 100th empty one, which counts as ErrNoProgress. */
    method ReadSome(r: ScriptReader) returns (data: seq<byte>, e: Option<Error>)
      requires Valid() && Available() > 0
      modifies r
      ensures |data| <= Available() && (e.Some? || data != [])
      ensures var d, d' := old(Deliver(r.script, 0, MAX_EMPTY_READS)), Deliver(r.script, 0, MAX_EMPTY_READS);
        if e.Some? then d == Delivery(data, e.value, r.script)
        else d == d'.(bytes := data + d'.bytes)
    {
      ghost var d := Deliver(r.script, 0, MAX_EMPTY_READS);
      var nr := 0;
      while nr < MAX_EMPTY_READS
        invariant nr <= MAX_EMPTY_READS
        invariant nr < MAX_EMPTY_READS ==> d == Deliver(r.script, nr, MAX_EMPTY_READS)
        invariant nr == MAX_EMPTY_READS ==> d == Delivery([], NoProgress, r.script)
      {
        ReadDelivers(r.script, Available(), nr, MAX_EMPTY_READS);
        data, e := r.Read(Available());
        if data != [] || e.Some? {
          return;
        }
        nr := nr + 1;
      }
      data, e := [], Some(NoProgress);
    }
  }

  lemma Extend(p: seq<byte>, nn: nat, m: nat, before: seq<byte>)
    requires nn + m <= |p|
    ensures before + p[..nn] + p[nn..][..m] == before + p[..nn + m]
  {
    assert p[..nn] + p[nn..][..m] == p[..nn + m];
  }

  /** The data just read are the next bytes of the delivery. */
  lemma NextData(before: seq<byte>, all: seq<byte>, count: nat, data: seq<byte>, later: seq<byte>)
    requires count <= |all| && all[count..] == data + later
    ensures count + |data| <= |all| && all[count + |data|..] == later
    ensures before + all[..count] + data == before + all[..count + |data|]
  {
    assert all[..count] + all[count..] == all;
    assert all[..count] + data == all[..count + |data|];
    assert all[count + |data|..] == all[count..][|data|..];
  }

  lemma SentAndKept(taken: seq<byte>, b: seq<byte>, m: nat)
    requires m <= |b|
    ensures taken + b[..m] + b[m..] == taken + b
  {
    assert b[..m] + b[m..] == b;
  }

  // ---------------------------------------------------------------------------
  // Runs
  // ---------------------------------------------------------------------------

  datatype Op =
    | OpWrite(p: seq<byte>) | OpWriteString(p: seq<byte>) | OpWriteByte(c: byte)
    | OpReadFrom(script: seq<Result>) | OpFlush

  /** The bytes that a call offers. */
  function Offered(op: Op): seq<byte> {
    match op
    case OpWrite(p) => p
    case OpWriteString(p) => p
    case OpWriteByte(c) => [c]
    case OpReadFrom(script) => Deliver(script, 0, MAX_EMPTY_READS).bytes
    case OpFlush => []
  }

  /** One call: how many of the bytes offered it reports as accepted. */
  method Step(w: Writer, op: Op) returns (count: nat)
    requires w.Valid()
    modifies w, w.buf, w.wr
    ensures w.Valid() && w.buf == old(w.buf) && count <= |Offered(op)|
    ensures w.Accepted() == old(w.Accepted()) + Offered(op)[..count]
    ensures w.err.None? ==> count == |Offered(op)|
    ensures old(w.err).Some? ==> count == 0
    ensures Explained(old(w.wr.calls), w.wr.calls, w.buf.Length, old(w.err), w.err)
  {
    match op
    case OpWrite(p) =>
      var e;
      count, e := w.Write(p);
    case OpWriteString(p) =>
      var e;
      count, e := w.WriteString(p);
    case OpWriteByte(c) =>
      var e := w.WriteByte(c);
      count := if e.None? then 1 else 0;
      assert Offered(op)[..1] == [c] && Offered(op)[..0] == [];
    case OpReadFrom(script) =>
      var r := new ScriptReader(script);
      var e;
      count, e := w.ReadFrom(r);
    case OpFlush =>
      var e := w.Flush();
      count := 0;
      assert w.Accepted() + [] == w.Accepted();
  }

  /** counts are possible for the first calls of a run: everything offered before
      the call that failed, nothing after it. */
  predicate Stops(ops: seq<Op>, counts: seq<nat>, failed: nat) {
    && |counts| <= |ops| && failed <= |counts|
    && (forall i :: 0 <= i < |counts| ==> counts[i] <= |Offered(ops[i])|)
    && (forall i :: 0 <= i < failed ==> counts[i] == |Offered(ops[i])|)
    && (forall i :: failed < i < |counts| ==> counts[i] == 0)
  }

  /** The bytes that the calls of a run report as accepted, one call after the other. */
  function Reported(ops: seq<Op>, counts: seq<nat>): seq<byte>
    requires |counts| <= |ops|
  {
    if counts == [] then []
    else
      var k := |counts| - 1;
      var offered := Offered(ops[k]);
      Reported(ops, counts[..k]) + if counts[k] <= |offered| then offered[..counts[k]] else offered
  }

  lemma ReportedMore(ops: seq<Op>, counts: seq<nat>, c: nat, before: seq<byte>)
    requires |counts| < |ops| && c <= |Offered(ops[|counts|])|
    ensures before + Reported(ops, counts + [c]) == before + Reported(ops, counts) + Offered(ops[|counts|])[..c]
  {
    assert (counts + [c])[..|counts|] == counts;
  }

  lemma StopsMore(ops: seq<Op>, counts: seq<nat>, c: nat, failed: nat)
    requires Stops(ops, counts, failed) && |counts| < |ops| && c <= |Offered(ops[|counts|])|
    ensures failed == |counts| && c == |Offered(ops[|counts|])| ==> Stops(ops, counts + [c], failed + 1)
    ensures failed == |counts| || c == 0 ==> Stops(ops, counts + [c], failed)
  {
    hide Offered;
  }

  /** Over any run of calls, what the underlying writer has taken followed by what
      is in the buffer is exactly what the calls reported as accepted.  Without an
      error that is everything; after the first call that fails, nothing more.  There
      is an error if and only if a Write below failed. */
  method Run(w: Writer, ops: seq<Op>) returns (counts: seq<nat>, failed: nat)
    requires w.Valid()
    modifies w, w.buf, w.wr
    ensures w.Valid() && |counts| == |ops| && Stops(ops, counts, failed)
    ensures w.Accepted() == old(w.Accepted()) + Reported(ops, counts)
    ensures w.err.None? ==> failed == |ops|
    ensures Explained(old(w.wr.calls), w.wr.calls, w.buf.Length, old(w.err), w.err)
  {
    counts, failed := [], 0;
    ghost var before := w.Accepted();
    assert before + [] == before;
    for k := 0 to |ops|
      invariant w.Valid() && w.buf == old(w.buf)
      invariant |counts| == k && Stops(ops, counts, failed) && (w.err.None? ==> failed == k)
      invariant w.Accepted() == before + Reported(ops, counts)
      invariant Explained(old(w.wr.calls), w.wr.calls, w.buf.Length, old(w.err), w.err)
    {
      ghost var calls, err := w.wr.calls, w.err;
      var c := Step(w, ops[k]);
      ReportedMore(ops, counts, c, before);
      ExplainedAgain(old(w.wr.calls), calls, w.wr.calls, w.buf.Length, old(w.err), err, w.err);
      StopsMore(ops, counts, c, failed);
      counts := counts + [c];
      if w.err.None? {
        failed := k + 1;
      }
    }
  }
}
