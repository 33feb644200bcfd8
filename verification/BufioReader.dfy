/** bufio.Reader of src/bufio/bufio.go, over an arbitrary script of reads. */
module BufioReader {
  import opened Common
  import opened Streams
  import opened ByteIndex

  const MIN_READ_BUFFER_SIZE: nat := 16

  /** What the underlying reader owes when i more empty results are tolerated. */
  ghost function Owed(script: seq<Result>, i: nat): Delivery
    requires i <= MAX_EMPTY_READS
  {
    if i > 0 then Deliver(script, MAX_EMPTY_READS - i, MAX_EMPTY_READS) else Delivery([], NoProgress, script)
  }

  class Reader {
    var buf: array<byte>
    var r: nat
    var w: nat
    var err: Option<Error>
    var lastByte: int
    const rd: ScriptReader

    ghost predicate Valid()
      reads this, buf
    {
      r <= w <= buf.Length && 0 < buf.Length && -1 <= lastByte < 256
    }

    ghost function Unread(): seq<byte>
      reads this, buf
      requires Valid()
    {
      buf[r..w]
    }

    /** Everything still to be read: the buffered bytes, then the pending error
        or what the underlying reader will deliver. */
    ghost function View(): Delivery
      reads this, buf, rd
      requires Valid()
    {
      ViewOf(Unread(), err, rd.script, MAX_EMPTY_READS)
    }

    /** A measure of the work left, for termination. */
    ghost function Left(): nat
      reads this, rd
      requires r <= w
    {
      Size(rd.script) + (w - r) + (if err.Some? then 1 else 0)
    }

    /** NewReaderSize */
    constructor (rd: ScriptReader, size: int)
      ensures Valid() && fresh(buf) && this.rd == rd
      ensures View() == Deliver(rd.script, 0, MAX_EMPTY_READS)
    {
      var n := if size < MIN_READ_BUFFER_SIZE then MIN_READ_BUFFER_SIZE else size;
      this.rd := rd;
      buf := new byte[n](_ => 0);
      r, w, err, lastByte := 0, 0, None, -1;
    }

    /** The unread bytes slide to the front (bufio.go:87-92). */
    method Slide()
      requires Valid()
      modifies this, buf
      ensures Valid() && buf == old(buf) && r == 0 && lastByte == old(lastByte) && err == old(err)
      ensures Unread() == old(Unread())
    {
      if r > 0 {
        forall i | 0 <= i < w - r {
          buf[i] := buf[r + i];
        }
        w := w - r;
        r := 0;
      }
    }

    /** A chunk from the underlying reader goes behind the unread bytes. */
    method Take(data: seq<byte>)
      requires Valid() && r == 0 && w + |data| <= buf.Length
      modifies this`w, buf
      ensures Valid() && Unread() == old(Unread()) + data && w == old(w) + |data|
    {
      CopyInto(buf, w, data);
      w := w + |data|;
    }

    /** One Read of fill, with i > 0 of them left.  d0 is what the underlying reader
        owed when fill started.  Afterwards there is a new byte or an error (done),
        or the Read was an empty one. */
    method FillOnce(i: nat, ghost d0: Delivery) returns (done: bool)
      requires Valid() && r == 0 && w < buf.Length && err.None?
      requires 0 < i <= MAX_EMPTY_READS && d0 == Owed(rd.script, i)
      modifies this`w, this`err, buf, rd
      ensures Valid() && old(Unread()) <= Unread()
      ensures done ==> View() == Delivery(old(Unread()) + d0.bytes, d0.err, d0.rest)
      ensures done ==> err.Some? || |Unread()| > |old(Unread())|
      ensures done && err != Some(EOF) ==> Left() <= old(Left())
      ensures !done ==> Unread() == old(Unread()) && w == old(w) && err.None? && d0 == Owed(rd.script, i - 1)
      ensures !done ==> Left() < old(Left())
    {
      hide Deliver, Size;
      ghost var script := rd.script;
      ReadDelivers(script, buf.Length - w, MAX_EMPTY_READS - i, MAX_EMPTY_READS);
      NextReadShrinks(script, buf.Length - w);
      var data, e := rd.Read(buf.Length - w);
      Take(data);
      err := e;
      done := e.Some? || data != [];
      if e.None? && data != [] {
        ViewAfterData(old(Unread()), data, d0, rd.script, MAX_EMPTY_READS);
      }
    }

    /** fill (bufio.go:86-114): slides the unread bytes down and reads until there
        is a new byte or an error. */
    method Fill()
      requires Valid() && w - r < buf.Length && err.None?
      modifies this, buf, rd
      ensures Valid() && buf == old(buf) && r == 0 && lastByte == old(lastByte)
      ensures View() == old(View())
      ensures old(Unread()) <= Unread()
      ensures err.Some? || |Unread()| > |old(Unread())|
      ensures err != Some(EOF) ==> Left() <= old(Left())
    {
      hide Deliver, Size;
      Slide();
      ghost var unread, d0 := Unread(), Deliver(rd.script, 0, MAX_EMPTY_READS);
      var i := MAX_EMPTY_READS;
      while i > 0
        invariant 0 <= i <= MAX_EMPTY_READS && Valid() && r == 0 && w < buf.Length && buf == old(buf)
        invariant Unread() == unread && err.None? && lastByte == old(lastByte)
        invariant d0 == Owed(rd.script, i)
        invariant Left() + (MAX_EMPTY_READS - i) <= old(Left())
      {
        var done := FillOnce(i, d0);
        if done {
          return;
        }
        i := i - 1;
      }
      err := Some(NoProgress);
      assert unread + [] == unread;
    }

    /** readErr */
    method ReadErr() returns (e: Option<Error>)
      modifies this`err
      ensures e == old(err) && err.None?
    {
      e := err;
      err := None;
    }

    /** The next k buffered bytes. */
    method Consume(k: nat) returns (line: seq<byte>)
      requires Valid() && k <= w - r
      modifies this`r
      ensures Valid() && line == old(Unread())[..k] == old(View()).bytes[..k]
      ensures View() == old(View()).(bytes := old(View()).bytes[k..])
      ensures Left() == old(Left()) - k
    {
      SplitView(Unread(), k, err, rd.script);
      line := buf[r..r + k];
      r := r + k;
    }

    /** All that is buffered, and the pending error. */
    method ConsumeAll() returns (line: seq<byte>, e: Option<Error>)
      requires Valid() && err.Some?
      modifies this`r, this`err
      ensures Valid() && line == old(Unread()) == old(View()).bytes && e == Some(old(View()).err)
      ensures View() == Deliver(old(View()).rest, 0, MAX_EMPTY_READS)
      ensures Left() < old(Left())
    {
      line := buf[r..w];
      r := w;
      e := ReadErr();
      assert Unread() == [];
    }

    /** The buffered bytes through a delimiter found in the part not yet scanned. */
    method ConsumeThrough(delim: byte, s: nat, i: nat) returns (line: seq<byte>)
      requires Valid() && s <= i < w - r && delim !in Unread()[..s]
      requires IndexByte(Unread()[s..], delim) == i - s
      modifies this`r
      ensures Valid() && SliceOf(delim, buf.Length, old(View()), line, None, false, View())
    {
      FoundInBuffer(Unread(), View().bytes, delim, s, i);
      line := Consume(i + 1);
    }

    /** The search loop of ReadSlice (bufio.go:331-360).  full says that it ended
        because the buffer was full. */
    method SearchSlice(delim: byte) returns (line: seq<byte>, e: Option<Error>, ghost full: bool)
      requires Valid()
      modifies this, buf, rd
      ensures Valid() && buf == old(buf) && lastByte == old(lastByte)
      ensures SliceOf(delim, buf.Length, old(View()), line, e, full, View())
      ensures e == Some(BufferFull) ==> Left() < old(Left())
    {
      var s: nat := 0;  // how much of the unread bytes has been searched
      while true
        invariant Valid() && buf == old(buf) && s <= w - r && lastByte == old(lastByte)
        invariant View() == old(View()) && delim !in Unread()[..s]
        invariant err != Some(EOF) ==> Left() <= old(Left())
        decreases buf.Length - (w - r), if err.Some? then 0 else 1
      {
        ghost var unread := Unread();
        assert buf[r + s..w] == unread[s..];
        var i := IndexByte(buf[r + s..w], delim);
        if i >= 0 {
          line := ConsumeThrough(delim, s, i + s);
          return line, None, false;
        }
        NotInBuffer(unread, delim, s);
        if err.Some? {
          line, e := ConsumeAll();
          return line, e, false;
        }
        if w - r >= buf.Length {
          line := Consume(w - r);
          return line, Some(BufferFull), true;
        }
        s := w - r;
        Fill();
        assert Unread()[..s] == unread;
      }
    }

    /** ReadSlice (bufio.go:330-369); the slice is returned as the bytes it holds. */
    method ReadSlice(delim: byte) returns (line: seq<byte>, e: Option<Error>, ghost full: bool)
      requires Valid()
      modifies this, buf, rd
      ensures Valid() && buf == old(buf)
      ensures SliceOf(delim, buf.Length, old(View()), line, e, full, View())
      ensures e == Some(BufferFull) ==> Left() < old(Left())
      ensures lastByte == if line != [] then line[|line| - 1] else old(lastByte)
    {
      line, e, full := SearchSlice(delim);
      if |line| > 0 {
        lastByte := line[|line| - 1];
      }
    }

    /** ReadBytes (bufio.go:429-465): all through the first delimiter, or all that
        is left and the error that ends it. */
    method ReadBytes(delim: byte) returns (line: array<byte>, err: Option<Error>)
      requires Valid()
      modifies this, buf, rd
      ensures Valid() && buf == old(buf) && fresh(line)
      ensures old(View()).err != BufferFull ==> BytesOf(delim, old(View()), line[..], err, View())
    {
      ghost var v := View();
      var frag: seq<byte> := [];
      var full: seq<seq<byte>> := [];
      ghost var done := [];
      err := None;
      var n := 0;
      while true
        invariant Valid() && buf == old(buf) && Concat(full) == done && n == |done| && err.None?
        invariant v.err != BufferFull ==>
          done <= v.bytes && delim !in done && View() == v.(bytes := v.bytes[|done|..])
        decreases Left()
      {
        ghost var v1 := View();
        var e;
        ghost var isFull;
        frag, e, isFull := ReadSlice(delim);
        if v.err != BufferFull {
          PiecesSoFar(delim, buf.Length, v, done, v1, frag, e, isFull, View());
        }
        if e.None? {
          break;
        }
        if e != Some(BufferFull) {
          err := e;
          break;
        }
        full := full + [frag];
        assert full[..|full| - 1] + [frag] == full;
        done := done + frag;
        n := n + |frag|;
      }
      n := n + |frag|;
      line := Assemble(full, frag, n);
    }

    /** ReadByte (bufio.go:246-258) */
    method ReadByte() returns (c: byte, e: Option<Error>)
      requires Valid()
      modifies this, buf, rd
      ensures Valid() && buf == old(buf)
      ensures e.None? <==> old(View()).bytes != []
      ensures e.None? ==>
        && c == old(View()).bytes[0] && View() == old(View()).(bytes := old(View()).bytes[1..])
        && lastByte == c && r > 0
      ensures e.Some? ==> e == Some(old(View()).err) && View() == Deliver(old(View()).rest, 0, MAX_EMPTY_READS)
    {
      while r == w
        invariant Valid() && buf == old(buf) && View() == old(View())
        decreases r == w, err.None?
      {
        if err.Some? {
          var rest;
          rest, e := ConsumeAll();
          return 0, e;
        }
        Fill();
      }
      var line := Consume(1);
      c := line[0];
      lastByte := c;
      e := None;
    }

    /** UnreadByte (bufio.go:265-280) puts the last byte read back, or reports
        that it cannot and changes nothing. */
    method UnreadByte() returns (e: Option<Error>)
      requires Valid()
      modifies this, buf
      ensures Valid() && buf == old(buf)
      ensures e == if old(lastByte < 0 || (r == 0 && w > 0)) then Some(InvalidUnread) else None
      ensures e.Some? ==> View() == old(View()) && lastByte == old(lastByte)
      ensures e.None? ==> View() == old(View()).(bytes := [old(lastByte) as byte] + old(View()).bytes) && lastByte == -1
    {
      if lastByte < 0 || (r == 0 && w > 0) {
        return Some(InvalidUnread);
      }
      ghost var unread := Unread();
      if r > 0 {
        r := r - 1;
      } else {
        w := 1;
      }
      buf[r] := lastByte;
      assert Unread() == [old(lastByte) as byte] + unread;
      assert err.None? ==> [old(lastByte) as byte] + (unread + Deliver(rd.script, 0, MAX_EMPTY_READS).bytes)
                           == [old(lastByte) as byte] + unread + Deliver(rd.script, 0, MAX_EMPTY_READS).bytes;
      lastByte := -1;
      e := None;
    }
  }

  /** Reading a byte and putting it back is as if nothing had been read. */
  method ReadThenUnread(b: Reader) returns (c: byte, e: Option<Error>)
    requires b.Valid()
    modifies b, b.buf, b.rd
    ensures b.Valid()
    ensures e.None? ==> b.View() == old(b.View())
  {
    c, e := b.ReadByte();
    if e.None? {
      ghost var v := b.View();
      var e' := b.UnreadByte();
      assert e'.None?;
    }
  }

  /** The final copying of ReadBytes (bufio.go:456-463). */
  method Assemble(full: seq<seq<byte>>, frag: seq<byte>, n: nat) returns (line: array<byte>)
    requires n == |Concat(full)| + |frag|
    ensures fresh(line) && line[..] == Concat(full) + frag
  {
    line := new byte[n](_ => 0);
    var m := 0;
    for i := 0 to |full|
      invariant line.Length == n && m == |Concat(full[..i])| <= n && line[..m] == Concat(full[..i])
    {
      assert full[..i + 1][..i] == full[..i];
      ConcatPrefix(full, i + 1);
      ConcatPrefix(full, i);
      CopyInto(line, m, full[i]);
      m := m + |full[i]|;
    }
    assert full[..|full|] == full;
    CopyInto(line, m, frag);
    assert line[..] == Concat(full) + frag;
  }

  lemma {:induction false} ConcatPrefix(parts: seq<seq<byte>>, k: nat)
    requires k <= |parts|
    ensures |Concat(parts[..k])| <= |Concat(parts)|
  {
    var n := |parts| - 1;
    if k <= n {
      ConcatPrefix(parts[..n], k);
      assert parts[..n][..k] == parts[..k];
    } else {
      assert parts[..k] == parts;
    }
  }

  /** What ReadBytes owes. */
  ghost predicate BytesOf(delim: byte, v: Delivery, line: seq<byte>, e: Option<Error>, v': Delivery) {
    if delim in v.bytes then
      var i := IndexByte(v.bytes, delim);
      line == v.bytes[..i + 1] && e.None? && v' == v.(bytes := v.bytes[i + 1..])
    else
      line == v.bytes && e == Some(v.err) && v' == Deliver(v.rest, 0, MAX_EMPTY_READS)
  }

  /** One more slice: either it completes what ReadBytes owes, or the pieces
      taken so far are a prefix without a delimiter. */
  lemma PiecesSoFar(delim: byte, size: nat, v: Delivery, done: seq<byte>, v1: Delivery,
                    frag: seq<byte>, e: Option<Error>, full: bool, v2: Delivery)
    requires done <= v.bytes && delim !in done && v1 == v.(bytes := v.bytes[|done|..])
    requires SliceOf(delim, size, v1, frag, e, full, v2) && v.err != BufferFull
    ensures e == Some(BufferFull) ==>
      done + frag <= v.bytes && delim !in done + frag && v2 == v.(bytes := v.bytes[|done + frag|..])
    ensures e != Some(BufferFull) ==> BytesOf(delim, v, done + frag, e, v2)
  {
    hide Deliver, IndexByte;
    assert v.bytes == done + v1.bytes;
    if e.None? {
      LastPiece(delim, done, v1.bytes, v.bytes);
      assert v.bytes[|done|..][|frag|..] == v.bytes[|done + frag|..];
    } else if full {
      assert v.bytes[|done|..][|frag|..] == v.bytes[|done + frag|..];
    }
  }

  lemma LastPiece(delim: byte, done: seq<byte>, rest: seq<byte>, all: seq<byte>)
    requires all == done + rest && delim !in done && delim in rest
    ensures IndexByte(all, delim) == |done| + IndexByte(rest, delim)
    ensures all[..IndexByte(all, delim) + 1] == done + rest[..IndexByte(rest, delim) + 1]
  {
    var i := IndexByte(rest, delim);
    assert all[|done| + i] == delim;
    assert all[..|done| + i] == done + rest[..i];
    IndexByteUnique(all, delim, |done| + i);
  }

  /** What ReadSlice owes for what was to be read before (v) and is after (v'):
      the bytes through the first delimiter; or all of them, without a
      delimiter, and the pending error; or a full buffer without a delimiter. */
  ghost predicate SliceOf(delim: byte, size: nat, v: Delivery, line: seq<byte>, e: Option<Error>,
                          full: bool, v': Delivery) {
    && (e.None? ==>
          && !full && delim in v.bytes
          && line == v.bytes[..IndexByte(v.bytes, delim) + 1]
          && v' == v.(bytes := v.bytes[|line|..]))
    && (e.Some? && !full ==>
          && delim !in v.bytes && line == v.bytes && e == Some(v.err)
          && v' == Deliver(v.rest, 0, MAX_EMPTY_READS))
    && (full ==>
          && e == Some(BufferFull) && size <= |v.bytes|
          && line == v.bytes[..size] && delim !in line
          && v' == v.(bytes := v.bytes[size..]))
  }

  /** A delimiter found from position s on is the first one of the whole view. */
  lemma FoundInBuffer(b: seq<byte>, all: seq<byte>, delim: byte, s: nat, i: nat)
    requires s <= i < |b| && b <= all
    requires delim !in b[..s] && IndexByte(b[s..], delim) == i - s
    ensures IndexByte(all, delim) == i && delim in all
    ensures b[..i + 1] == all[..i + 1]
  {
    assert b[s..][i - s] == delim;
    assert all[..i] == b[..s] + b[s..][..i - s];
    IndexByteUnique(all, delim, i);
  }

  lemma NotInBuffer(b: seq<byte>, delim: byte, s: nat)
    requires s <= |b| && delim !in b[..s] && delim !in b[s..]
    ensures delim !in b
  {
    assert b == b[..s] + b[s..];
  }

  /** Reading k buffered bytes takes k bytes off the view. */
  lemma SplitView(unread: seq<byte>, k: nat, err: Option<Error>, script: seq<Result>)
    requires k <= |unread|
    ensures var v := ViewOf(unread, err, script, MAX_EMPTY_READS);
      && unread[..k] == v.bytes[..k]
      && ViewOf(unread[k..], err, script, MAX_EMPTY_READS) == v.(bytes := v.bytes[k..])
  {
    if err.None? {
      var d := Deliver(script, 0, MAX_EMPTY_READS);
      assert (unread + d.bytes)[k..] == unread[k..] + d.bytes;
    }
  }
}
