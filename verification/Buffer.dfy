/** bytes.Buffer of src/bytes/buffer.go. */
module Buffer {
  import opened Common
  import opened ByteIndex
  import Streams
  import Utf8

  const SMALL_BUFFER_SIZE: nat := 64
  const MIN_READ: nat := 512

  /** readOp: a positive value is the size of the rune that was read. */
  const OP_READ: int := -1
  const OP_INVALID: int := 0

  /** The bytes that a reader gives before its first error, that error, and what
      the reader has left. */
  datatype Drained = Drained(bytes: seq<byte>, err: Streams.Error, rest: seq<Streams.Result>)

  function Drain(script: seq<Streams.Result>): Drained {
    if script == [] then Drained([], Streams.EOF, [])
    else
      var head := script[0];
      if head.err.Some? then Drained(head.chunk, head.err.value, script[1..])
      else
        var d := Drain(script[1..]);
        d.(bytes := head.chunk + d.bytes)
  }

  /** A Read that returned data and err took the front of what is to come. */
  ghost predicate Drains(script: seq<Streams.Result>, data: seq<byte>,
                         err: Option<Streams.Error>, script': seq<Streams.Result>) {
    && (err.Some? ==> Drain(script) == Drained(data, err.value, script'))
    && (err.None? ==> Drain(script) == Drain(script').(bytes := data + Drain(script').bytes))
    && (err.None? ==> Streams.Size(script') < Streams.Size(script))
  }

  /** However long its buffer is. */
  lemma ReadDrains(script: seq<Streams.Result>, n: nat)
    requires n > 0
    ensures var (data, err, script') := Streams.NextRead(script, n); Drains(script, data, err, script')
  {
    var (data, err, script') := Streams.NextRead(script, n);
    if script != [] && |script[0].chunk| > n {
      var head := script[0];
      assert script'[0] == head.(chunk := head.chunk[n..]) && script'[1..] == script[1..];
      assert head.chunk == head.chunk[..n] + head.chunk[n..];
      if head.err.None? {
        var later := Drain(script[1..]).bytes;
        assert head.chunk + later == head.chunk[..n] + (head.chunk[n..] + later);
      }
    }
    Streams.NextReadShrinks(script, n);
  }

  lemma DrainMore(before: seq<byte>, read: seq<byte>, data: seq<byte>, script: seq<Streams.Result>,
                  err: Option<Streams.Error>, script': seq<Streams.Result>, d: Drained)
    requires Drains(script, data, err, script') && d == Drain(script).(bytes := read + Drain(script).bytes)
    ensures before + read + data == before + (read + data)
    ensures err.Some? ==> d == Drained(read + data, err.value, script')
    ensures err.None? ==> d == Drain(script').(bytes := read + data + Drain(script').bytes)
  {
    if err.None? {
      assert read + (data + Drain(script').bytes) == read + data + Drain(script').bytes;
    }
  }

  /** A rune is a 32-bit integer. */
  type rune = x: int | -0x8000_0000 <= x < 0x8000_0000

  /** What WriteRune appends: anything below 0x80 as one byte. */
  function RuneText(r: rune): seq<byte> {
    if r < Utf8.RUNE_SELF then [r % 256] else Utf8.EncodeRune(r)
  }

  /** The room that it asks for. */
  function RuneRoom(r: rune): nat {
    if r < Utf8.RUNE_SELF then 1 else Utf8.UTF_MAX
  }

  class Buffer {
    var mem: array?<byte>
    var len: nat
    var off: nat
    var lastRead: int

    function Cap(): nat
      reads this
    {
      if mem == null then 0 else mem.Length
    }

    ghost predicate Valid()
      reads this
    {
      off <= len <= Cap() && -1 <= lastRead <= 4
    }

    /** The unread bytes, first in first out. */
    ghost function Contents(): seq<byte>
      reads this, mem
      requires Valid()
    {
      if mem == null then [] else mem[off..len]
    }

    /** new(Buffer), and NewBuffer of a slice. */
    constructor (buf: array?<byte>, length: nat)
      requires length <= if buf == null then 0 else buf.Length
      ensures Valid() && mem == buf && lastRead == OP_INVALID
      ensures Contents() == if buf == null then [] else buf[..length]
    {
      mem, len, off, lastRead := buf, length, 0, OP_INVALID;
    }

    function Len(): nat
      reads this
      requires Valid()
    {
      len - off
    }

    /** Whether n more bytes can be had: there is room, or the first small array or
        sliding makes room, or twice the capacity and n fit into an int. */
    predicate CanGrow(n: nat)
      reads this
      requires Valid()
    {
      || n <= Cap() - (if Len() == 0 then 0 else len)
      || (mem == null && n <= SMALL_BUFFER_SIZE)
      || n <= Cap() / 2 - Len()
      || 2 * Cap() + n <= MAX_INT
    }

    /** Reset (buffer.go:97-101) */
    method Reset()
      requires Valid()
      modifies this`len, this`off, this`lastRead
      ensures Valid() && Contents() == [] && off == 0 && lastRead == OP_INVALID
    {
      len, off, lastRead := 0, 0, OP_INVALID;
    }

    /** Truncate (buffer.go:82-92); the result says whether n was in range. */
    method Truncate(n: int) returns (ok: bool)
      requires Valid()
      modifies this`len, this`off, this`lastRead
      ensures Valid() && ok == (0 <= n <= old(Len())) && lastRead == OP_INVALID
      ensures Contents() == if ok then old(Contents())[..n] else old(Contents())
    {
      if n == 0 {
        Reset();
        return true;
      }
      lastRead := OP_INVALID;
      if n < 0 || n > Len() {
        return false;
      }
      len := off + n;
      return true;
    }

    /** The unread bytes stay in front of position i, and n more bytes follow it. */
    ghost predicate Grown(unread: seq<byte>, i: nat, n: nat)
      reads this, mem
    {
      && Valid() && off <= i && i + n == len
      && (mem == null ==> unread == []) && (mem != null ==> mem[off..i] == unread)
    }

    /** tryGrowByReslice (buffer.go:106-112) */
    method TryGrowByReslice(n: nat) returns (i: nat, ok: bool)
      requires Valid()
      modifies this`len
      ensures ok == (n <= Cap() - old(len))
      ensures ok ==> Grown(old(Contents()), i, n)
      ensures !ok ==> len == old(len)
    {
      if n <= Cap() - len {
        i, ok := len, true;
        len := len + n;
      } else {
        i, ok := 0, false;
      }
    }

    /** Slide the unread bytes down (buffer.go:137, 147-149). */
    method Slide(n: nat) returns (i: nat)
      requires Valid() && n <= Cap() / 2 - Len()
      modifies this`len, this`off, mem
      ensures Grown(old(Contents()), i, n)
    {
      i := Len();
      if mem != null {
        forall k | 0 <= k < i {
          mem[k] := mem[off + k];
        }
      }
      off := 0;
      len := i + n;
    }

    /** Move the unread bytes to a larger array (buffer.go:142-149). */
    method Reallocate(n: nat) returns (i: nat)
      requires Valid() && 2 * Cap() + n <= MAX_INT
      modifies this`mem, this`len, this`off
      ensures Grown(old(Contents()), i, n) && mem != null && fresh(mem)
    {
      i := Len();
      var buf := new byte[2 * Cap() + n](_ => 0);
      if mem != null {
        CopyInto(buf, 0, mem[off..len]);
      }
      mem := buf;
      off := 0;
      len := i + n;
    }

    /** grow (buffer.go:117-150): on every path the unread bytes are kept and the
        index returned is where the next byte goes.  It is refused exactly if there
        is no room and the larger size would not fit into an int. */
    method GrowBy(n: nat) returns (i: nat, ok: bool)
      requires Valid()
      modifies this, mem
      ensures mem == old(mem) || fresh(mem)
      ensures ok == old(CanGrow(n))
      ensures ok ==> Grown(old(Contents()), i, n)
      ensures !ok ==> Valid() && Contents() == old(Contents()) && mem == old(mem) && !CanGrow(n)
      ensures lastRead == old(lastRead) || lastRead == OP_INVALID
    {
      var m := Len();
      if m == 0 && off != 0 {
        Reset();
      }
      i, ok := TryGrowByReslice(n);
      if ok {
        return;
      }
      if mem == null && n <= SMALL_BUFFER_SIZE {
        mem := new byte[SMALL_BUFFER_SIZE](_ => 0);
        len := n;
        return 0, true;
      }
      var c := Cap();
      if n <= c / 2 - m {
        i := Slide(n);
      } else if c > MAX_INT - c - n {
        return 0, false;
      } else {
        i := Reallocate(n);
      }
      ok := true;
    }

    /** Grow (buffer.go:157-163) for a count that is not negative. */
    method Grow(n: nat) returns (ok: bool)
      requires Valid()
      modifies this, mem
      ensures Valid() && Contents() == old(Contents()) && (mem == old(mem) || fresh(mem))
      ensures ok == old(CanGrow(n))
      ensures if ok then n <= Cap() - len else !CanGrow(n)
    {
      var m;
      m, ok := GrowBy(n);
      if ok {
        len := m;
      }
    }

    /** The index to write n bytes at (buffer.go:170-173). */
    method MakeRoom(n: nat) returns (m: nat, ok: bool)
      requires Valid()
      modifies this, mem
      ensures mem == old(mem) || fresh(mem)
      ensures ok == old(CanGrow(n))
      ensures ok ==> Grown(old(Contents()), m, n)
      ensures !ok ==> Valid() && Contents() == old(Contents()) && !CanGrow(n)
      ensures lastRead == old(lastRead) || lastRead == OP_INVALID
    {
      m, ok := TryGrowByReslice(n);
      if !ok {
        m, ok := GrowBy(n);
      }
    }

    /** The bytes that were made room for are written. */
    method Fill(ghost unread: seq<byte>, m: nat, p: seq<byte>)
      requires Grown(unread, m, |p|)
      modifies mem
      ensures Valid() && Contents() == unread + p
    {
      if mem != null {
        CopyInto(mem, m, p);
        assert mem[off..len] == unread + p;
      }
    }

    /** Write (buffer.go:168-175) and WriteString (buffer.go:180-187) */
    method Write(p: seq<byte>) returns (ok: bool)
      requires Valid()
      modifies this, mem
      ensures Valid() && lastRead == OP_INVALID && (mem == old(mem) || fresh(mem))
      ensures Contents() == if ok then old(Contents()) + p else old(Contents())
      ensures ok == old(CanGrow(|p|)) && (!ok ==> !CanGrow(|p|))
    {
      ghost var unread := Contents();
      lastRead := OP_INVALID;
      var m;
      m, ok := MakeRoom(|p|);
      if ok {
        Fill(unread, m, p);
      }
    }

    /** WriteByte (buffer.go:263-271) */
    method WriteByte(c: byte) returns (ok: bool)
      requires Valid()
      modifies this, mem
      ensures Valid() && lastRead == OP_INVALID && (mem == old(mem) || fresh(mem))
      ensures Contents() == if ok then old(Contents()) + [c] else old(Contents())
      ensures ok == old(CanGrow(1)) && (!ok ==> !CanGrow(1))
    {
      ghost var unread := Contents();
      lastRead := OP_INVALID;
      var m;
      m, ok := MakeRoom(1);
      if ok {
        Fill(unread, m, [c]);
      }
    }

    /** WriteRune (buffer.go:277-290): room for four bytes, of which the encoding
        uses some. */
    method WriteRune(r: rune) returns (n: nat, ok: bool)
      requires Valid()
      modifies this, mem
      ensures Valid() && lastRead == OP_INVALID && (mem == old(mem) || fresh(mem))
      ensures Contents() == if ok then old(Contents()) + RuneText(r) else old(Contents())
      ensures ok ==> n == |RuneText(r)|
      ensures ok == old(CanGrow(RuneRoom(r))) && (!ok ==> !CanGrow(RuneRoom(r)))
    {
      if r < Utf8.RUNE_SELF {
        ok := WriteByte(r % 256);
        return 1, ok;
      }
      ghost var unread := Contents();
      lastRead := OP_INVALID;
      n := 0;
      var m;
      m, ok := MakeRoom(Utf8.UTF_MAX);
      if ok {
        var text := Utf8.EncodeRune(r);
        n := |text|;
        len := m + n;
        Fill(unread, m, text);
      }
    }

    /** ReadFrom (buffer.go:199-218): the bytes up to the reader's first error are
        appended; EOF is no error. */
    method ReadFrom(r: Streams.ScriptReader) returns (n: nat, err: Option<Streams.Error>, ok: bool)
      requires Valid()
      modifies this, mem, r
      ensures Valid() && lastRead == OP_INVALID && (mem == old(mem) || fresh(mem))
      ensures ok ==> var d := Drain(old(r.script));
        && Contents() == old(Contents()) + d.bytes && n == |d.bytes| && r.script == d.rest
        && err == if d.err == Streams.EOF then None else Some(d.err)
      ensures !ok ==> old(Contents()) <= Contents() && Contents()[|old(Contents())|..] <= Drain(old(r.script)).bytes
      ensures !ok ==> !CanGrow(MIN_READ)
    {
      lastRead := OP_INVALID;
      ghost var before, d, read: seq<byte> := Contents(), Drain(r.script), [];
      n := 0;
      assert before + read == before;
      while true
        invariant Valid() && lastRead == OP_INVALID && (mem == old(mem) || fresh(mem))
        invariant Contents() == before + read && n == |read|
        invariant d == Drain(r.script).(bytes := read + Drain(r.script).bytes)
        decreases Streams.Size(r.script)
      {
        ghost var script := r.script;
        var data, e;
        data, e, ok := ReadOnce(r);
        if !ok {
          return n, None, false;
        }
        DrainMore(before, read, data, script, e, r.script, d);
        read := read + data;
        n := n + |data|;
        if e == Some(Streams.EOF) {
          return n, None, true;
        }
        if e.Some? {
          return n, e, true;
        }
      }
    }

    /** One Read into at least MinRead bytes of room (buffer.go:202-210). */
    method ReadOnce(r: Streams.ScriptReader) returns (data: seq<byte>, e: Option<Streams.Error>, ok: bool)
      requires Valid() && lastRead == OP_INVALID
      modifies this, mem, r
      ensures Valid() && lastRead == OP_INVALID && (mem == old(mem) || fresh(mem))
      ensures ok ==> Contents() == old(Contents()) + data && Drains(old(r.script), data, e, r.script)
      ensures !ok ==> Contents() == old(Contents()) && r.script == old(r.script) && !CanGrow(MIN_READ)
    {
      ghost var unread := Contents();
      var m;
      m, ok := GrowBy(MIN_READ);
      if !ok {
        return [], None, false;
      }
      len := m;
      ReadDrains(r.script, Cap() - m);
      data, e := r.Read(Cap() - m);
      len := m + |data|;
      Fill(unread, m, data);
    }

    /** Read (buffer.go:296-312) into a slice of length n. */
    method Read(n: nat) returns (data: seq<byte>, eof: bool)
      requires Valid()
      modifies this`len, this`off, this`lastRead
      ensures Valid() && data + Contents() == old(Contents())
      ensures |data| == if n <= |old(Contents())| then n else |old(Contents())|
      ensures eof == (old(Contents()) == [] && n > 0)
      ensures lastRead == if data == [] then OP_INVALID else OP_READ
      ensures data != [] ==> off == old(off) + |data|
    {
      lastRead := OP_INVALID;
      if len <= off {
        Reset();
        return [], n != 0;
      }
      var k := if n <= len - off then n else len - off;
      data := mem[off..off + k];
      off := off + k;
      if k > 0 {
        lastRead := OP_READ;
      }
      return data, false;
    }

    /** Next (buffer.go:318-330) for a count that is not negative. */
    method Next(n: nat) returns (data: seq<byte>)
      requires Valid()
      modifies this`off, this`lastRead
      ensures Valid() && data + Contents() == old(Contents())
      ensures |data| == if n <= |old(Contents())| then n else |old(Contents())|
      ensures lastRead == if data == [] then OP_INVALID else OP_READ
      ensures off == old(off) + |data|
    {
      lastRead := OP_INVALID;
      var m := Len();
      var k := if n > m then m else n;
      data := if mem == null then [] else mem[off..off + k];
      off := off + k;
      if k > 0 {
        lastRead := OP_READ;
      }
    }

    /** ReadByte (buffer.go:334-344) */
    method ReadByte() returns (c: byte, eof: bool)
      requires Valid()
      modifies this`len, this`off, this`lastRead
      ensures Valid() && eof == (old(Contents()) == [])
      ensures eof ==> Contents() == [] && lastRead == OP_INVALID
      ensures !eof ==> [c] + Contents() == old(Contents()) && lastRead == OP_READ && off == old(off) + 1
    {
      if len <= off {
        Reset();
        return 0, true;
      }
      c := mem[off];
      off := off + 1;
      lastRead := OP_READ;
      return c, false;
    }

    /** ReadRune (buffer.go:351-367) */
    method ReadRune() returns (r: int, size: nat, eof: bool)
      requires Valid()
      modifies this`len, this`off, this`lastRead
      ensures Valid() && eof == (old(Contents()) == [])
      ensures eof ==> Contents() == [] && lastRead == OP_INVALID
      ensures !eof ==> (r, size) == Utf8.DecodeRune(old(Contents())) && Contents() == old(Contents())[size..]
      ensures !eof ==> lastRead == size && off == old(off) + size
    {
      if len <= off {
        Reset();
        return 0, 0, true;
      }
      var c := mem[off];
      assert Contents()[0] == c;
      if c < Utf8.RUNE_SELF {
        off := off + 1;
        lastRead := 1;
        return c, 1, false;
      }
      var d := Utf8.DecodeRune(mem[off..len]);
      off := off + d.1;
      lastRead := d.1;
      return d.0, d.1, false;
    }

    /** ReadBytes (buffer.go:408-428) */
    method ReadBytes(delim: byte) returns (line: seq<byte>, eof: bool)
      requires Valid()
      modifies this`off, this`lastRead
      ensures Valid() && line + Contents() == old(Contents()) && lastRead == OP_READ
      ensures eof == (delim !in old(Contents()))
      ensures eof ==> Contents() == []
      ensures !eof ==> line != [] && line[|line| - 1] == delim && delim !in line[..|line| - 1]
      ensures off == old(off) + |line|
    {
      var unread := if mem == null then [] else mem[off..len];
      var i := IndexByte(unread, delim);
      var end := off + i + 1;
      eof := false;
      if i < 0 {
        end := len;
        eof := true;
      }
      line := unread[..end - off];
      off := end;
      lastRead := OP_READ;
      assert !eof ==> line[..|line| - 1] == unread[..i];
    }

    /** UnreadByte (buffer.go:391-400) */
    method UnreadByte() returns (ok: bool)
      requires Valid()
      modifies this`off, this`lastRead
      ensures Valid() && ok == (old(lastRead) != OP_INVALID) && lastRead == OP_INVALID
      ensures ok && old(off) > 0 ==> off == old(off) - 1 && mem != null && Contents() == [mem[off]] + old(Contents())
      ensures !ok || old(off) == 0 ==> off == old(off) && Contents() == old(Contents())
    {
      if lastRead == OP_INVALID {
        return false;
      }
      lastRead := OP_INVALID;
      if off > 0 {
        off := off - 1;
      }
      return true;
    }

    /** UnreadRune (buffer.go:374-383) */
    method UnreadRune() returns (ok: bool)
      requires Valid()
      modifies this`off, this`lastRead
      ensures Valid() && ok == (old(lastRead) > OP_INVALID) && (ok ==> lastRead == OP_INVALID)
      ensures !ok ==> Contents() == old(Contents()) && lastRead == old(lastRead)
      ensures ok && old(off) >= old(lastRead) ==>
        off == old(off) - old(lastRead) && mem != null && Contents() == mem[off..old(off)] + old(Contents())
      ensures !ok || old(off) < old(lastRead) ==> off == old(off)
    {
      if lastRead <= OP_INVALID {
        return false;
      }
      if off >= lastRead {
        off := off - lastRead;
      }
      lastRead := OP_INVALID;
      return true;
    }
  }

  // ---------------------------------------------------------------------------
  // Unreading
  // ---------------------------------------------------------------------------

  /** A byte read and unread is as if nothing had been read. */
  method ReadByteThenUnread(b: Buffer) returns (c: byte, ok: bool)
    requires b.Valid() && b.Contents() != []
    modifies b
    ensures b.Valid() && ok && b.Contents() == old(b.Contents()) && c == old(b.Contents())[0]
  {
    var eof;
    c, eof := b.ReadByte();
    ok := b.UnreadByte();
  }

  /** A rune read and unread is as if nothing had been read. */
  method ReadRuneThenUnread(b: Buffer) returns (r: int, ok: bool)
    requires b.Valid() && b.Contents() != []
    modifies b
    ensures b.Valid() && ok && b.Contents() == old(b.Contents())
    ensures r == Utf8.DecodeRune(old(b.Contents())).0
  {
    var size, eof;
    ghost var unread := b.Contents();
    r, size, eof := b.ReadRune();
    ok := b.UnreadRune();
    assert b.mem[b.off..b.off + size] == unread[..size];
  }

  /** Unreading after a Read of some bytes gives back the last of them. */
  method ReadThenUnread(b: Buffer, n: nat) returns (data: seq<byte>, ok: bool)
    requires b.Valid() && b.Contents() != [] && n > 0
    modifies b
    ensures b.Valid() && ok && data != [] && b.Contents() != []
    ensures data + b.Contents()[1..] == old(b.Contents()) && b.Contents()[0] == data[|data| - 1]
  {
    var eof;
    ghost var unread := b.Contents();
    data, eof := b.Read(n);
    ghost var rest, k := b.Contents(), |data| - 1;
    assert unread[k] == data[k] == b.mem[b.off - 1];
    ok := b.UnreadByte();
    assert b.Contents() == [data[k]] + rest;
    assert b.Contents()[1..] == rest;
  }

  /** What the documentation (buffer.go:387-390) says of UnreadByte after a read
      that returned line, with an error or without: an error if that read had one or
      read nothing, and otherwise the last byte is unread. */
  ghost predicate UnreadAsDocumented(line: seq<byte>, readErr: bool, ok: bool, rest: seq<byte>, after: seq<byte>) {
    && ok == (!readErr && line != [])
    && after == if ok then [line[|line| - 1]] + rest else rest
  }

  /** After a ReadBytes, UnreadByte does as its documentation says if and only if the
      delimiter was there; otherwise it succeeds where an error is promised. */
  method ReadBytesThenUnread(b: Buffer, delim: byte) returns (line: seq<byte>, eof: bool, ok: bool)
    requires b.Valid()
    modifies b
    ensures b.Valid() && line <= old(b.Contents())
    ensures UnreadAsDocumented(line, eof, ok, old(b.Contents())[|line|..], b.Contents()) <==> delim in old(b.Contents())
  {
    ghost var unread := b.Contents();
    line, eof := b.ReadBytes(delim);
    assert unread[|line|..] == b.Contents() && unread[..|line|] == line;
    assert line != [] ==> b.mem != null && b.mem[b.off - 1] == unread[|line| - 1];
    ok := b.UnreadByte();
  }

  /** The boundary: after a ReadBytes on an empty buffer UnreadByte succeeds, and a
      byte that had been read before is unread. */
  method EmptyReadBytesThenUnread(b: Buffer, delim: byte) returns (line: seq<byte>, ok: bool)
    requires b.Valid() && b.Contents() == []
    modifies b
    ensures b.Valid() && line == [] && ok
    ensures |b.Contents()| == if old(b.off) > 0 then 1 else 0
  {
    var eof;
    line, eof := b.ReadBytes(delim);
    ok := b.UnreadByte();
  }

  // ---------------------------------------------------------------------------
  // Runs
  // ---------------------------------------------------------------------------

  datatype Op =
    | OpWrite(p: seq<byte>) | OpWriteByte(c: byte) | OpWriteRune(r: rune) | OpReadFrom(script: seq<Streams.Result>)
    | OpRead(n: nat) | OpNext(n: nat) | OpReadByte | OpReadRune | OpReadBytes(delim: byte)
    | OpTruncate(k: int) | OpReset | OpGrow(g: nat)

  predicate Grows(op: Op) {
    op.OpWrite? || op.OpWriteByte? || op.OpWriteRune? || op.OpReadFrom? || op.OpGrow?
  }

  /** The room that such a call asks for; ReadFrom asks for it again and again. */
  function Room(op: Op): nat
    requires Grows(op)
  {
    match op
    case OpWrite(p) => |p|
    case OpWriteByte(_) => 1
    case OpWriteRune(r) => RuneRoom(r)
    case OpReadFrom(_) => MIN_READ
    case OpGrow(g) => g
  }

  /** What a call returns: bytes, a rune, a count, whether it was refused, and an
      error of the reader that it read from. */
  datatype Reply = Reply(data: seq<byte>, rune: int, size: nat, refused: bool, err: Option<Streams.Error>)

  const DONE := Reply([], 0, 0, false, None)

  /** A queue of bytes: what the calls do if there is no array behind it. */
  function QueueStep(q: seq<byte>, op: Op): (seq<byte>, Reply) {
    match op
    case OpWrite(p) => (q + p, DONE)
    case OpWriteByte(c) => (q + [c], DONE)
    case OpWriteRune(r) => (q + RuneText(r), DONE.(size := |RuneText(r)|))
    case OpReadFrom(script) =>
      var d := Drain(script);
      (q + d.bytes, DONE.(size := |d.bytes|, err := if d.err == Streams.EOF then None else Some(d.err)))
    case OpRead(n) =>
      var k := if n <= |q| then n else |q|;
      (q[k..], DONE.(data := q[..k], refused := q == [] && n > 0))
    case OpNext(n) =>
      var k := if n <= |q| then n else |q|;
      (q[k..], DONE.(data := q[..k]))
    case OpReadByte => if q == [] then (q, DONE.(refused := true)) else (q[1..], DONE.(data := [q[0]]))
    case OpReadRune =>
      if q == [] then (q, DONE.(refused := true))
      else
        var d := Utf8.DecodeRune(q);
        (q[d.1..], DONE.(rune := d.0, size := d.1))
    case OpReadBytes(delim) =>
      var i := IndexByte(q, delim);
      if i < 0 then ([], DONE.(data := q, refused := true)) else (q[i + 1..], DONE.(data := q[..i + 1]))
    case OpTruncate(k) => if 0 <= k <= |q| then (q[..k], DONE) else (q, DONE.(refused := true))
    case OpReset => ([], DONE)
    case OpGrow(_) => (q, DONE)
  }

  /** The replies of a queue to a run of calls, and the queue at the end. */
  function QueueRun(q: seq<byte>, ops: seq<Op>): (seq<byte>, seq<Reply>) {
    if ops == [] then (q, [])
    else
      var before := QueueRun(q, ops[..|ops| - 1]);
      var last := QueueStep(before.0, ops[|ops| - 1]);
      (last.0, before.1 + [last.1])
  }

  lemma LineOf(q: seq<byte>, delim: byte, line: seq<byte>, rest: seq<byte>, eof: bool)
    requires line + rest == q && eof == (delim !in q) && (eof ==> rest == [])
    requires !eof ==> line != [] && line[|line| - 1] == delim && delim !in line[..|line| - 1]
    ensures (rest, DONE.(data := line, refused := eof)) == QueueStep(q, OpReadBytes(delim))
  {
    if eof {
      assert line == q;
    } else {
      var i := |line| - 1;
      assert q[..i] == line[..i] && q[i] == line[i];
      IndexByteUnique(q, delim, i);
      assert q[..i + 1] == line && q[i + 1..] == rest;
    }
  }

  lemma FrontOf(q: seq<byte>, data: seq<byte>, rest: seq<byte>)
    requires data + rest == q
    ensures q[..|data|] == data && q[|data|..] == rest
  {
  }

  /** One call that reads or cuts does what it does to a queue. */
  method ReadStep(b: Buffer, op: Op) returns (reply: Reply)
    requires b.Valid() && !Grows(op)
    modifies b
    ensures b.Valid() && b.mem == old(b.mem) && (b.Contents(), reply) == QueueStep(old(b.Contents()), op)
  {
    reply := DONE;
    ghost var q := b.Contents();
    match op
    case OpRead(n) =>
      var data, eof := b.Read(n);
      FrontOf(q, data, b.Contents());
      reply := DONE.(data := data, refused := eof);
    case OpNext(n) =>
      var data := b.Next(n);
      FrontOf(q, data, b.Contents());
      reply := DONE.(data := data);
    case OpReadByte =>
      var c, eof := b.ReadByte();
      if eof {
        reply := DONE.(refused := true);
      } else {
        FrontOf(q, [c], b.Contents());
        reply := DONE.(data := [c]);
      }
    case OpReadRune =>
      var r, size, eof := b.ReadRune();
      reply := if eof then DONE.(refused := true) else DONE.(rune := r, size := size);
    case OpReadBytes(delim) =>
      var line, eof := b.ReadBytes(delim);
      LineOf(q, delim, line, b.Contents(), eof);
      reply := DONE.(data := line, refused := eof);
    case OpTruncate(k) =>
      var inRange := b.Truncate(k);
      reply := DONE.(refused := !inRange);
    case OpReset => b.Reset();
  }

  /** What a refused call leaves: the queue as it was, or with a part of what ReadFrom
      was to append. */
  ghost predicate Refused(q: seq<byte>, op: Op, after: seq<byte>) {
    after == q || (op.OpReadFrom? && q <= after && after[|q|..] <= Drain(op.script).bytes)
  }

  /** One call that may have to grow the buffer. */
  method GrowStep(b: Buffer, op: Op) returns (reply: Reply, ok: bool)
    requires b.Valid() && Grows(op)
    modifies b, b.mem
    ensures b.Valid() && (b.mem == old(b.mem) || fresh(b.mem))
    ensures ok ==> (b.Contents(), reply) == QueueStep(old(b.Contents()), op)
    ensures !ok ==> !b.CanGrow(Room(op)) && Refused(old(b.Contents()), op, b.Contents())
    ensures !op.OpReadFrom? ==> ok == old(b.CanGrow(Room(op)))
  {
    reply := DONE;
    match op
    case OpWrite(p) => ok := b.Write(p);
    case OpWriteByte(c) => ok := b.WriteByte(c);
    case OpWriteRune(r) =>
      var n;
      n, ok := b.WriteRune(r);
      reply := DONE.(size := n);
    case OpReadFrom(script) =>
      var r := new Streams.ScriptReader(script);
      var n, err;
      n, err, ok := b.ReadFrom(r);
      reply := DONE.(size := n, err := err);
    case OpGrow(g) => ok := b.Grow(g);
  }

  /** One call does what it does to a queue.  It is refused only if the buffer would
      become too large. */
  method Step(b: Buffer, op: Op) returns (reply: Reply, ok: bool)
    requires b.Valid()
    modifies b, b.mem
    ensures b.Valid() && (b.mem == old(b.mem) || fresh(b.mem))
    ensures ok ==> (b.Contents(), reply) == QueueStep(old(b.Contents()), op)
    ensures !ok ==> Grows(op) && !b.CanGrow(Room(op)) && Refused(old(b.Contents()), op, b.Contents())
  {
    if Grows(op) {
      reply, ok := GrowStep(b, op);
    } else {
      reply := ReadStep(b, op);
      ok := true;
    }
  }

  /** A run of calls in any order and on any array behaves as on a queue of bytes:
      no reply depends on how the buffer grew.  All the calls are made, unless one
      asks for room that twice the capacity and an int cannot give. */
  method Run(b: Buffer, ops: seq<Op>) returns (replies: seq<Reply>, done: nat)
    requires b.Valid()
    modifies b, b.mem
    ensures b.Valid() && done <= |ops|
    ensures replies == QueueRun(old(b.Contents()), ops[..done]).1
    ensures done == |ops| ==> b.Contents() == QueueRun(old(b.Contents()), ops).0
    ensures done < |ops| ==>
      && Grows(ops[done]) && !b.CanGrow(Room(ops[done])) && 2 * b.Cap() + Room(ops[done]) > MAX_INT
      && Refused(QueueRun(old(b.Contents()), ops[..done]).0, ops[done], b.Contents())
  {
    hide QueueStep, Utf8.DecodeRune, Drain;
    replies, done := [], 0;
    ghost var q := b.Contents();
    while done < |ops|
      invariant done <= |ops| && b.Valid() && (b.mem == old(b.mem) || fresh(b.mem))
      invariant (b.Contents(), replies) == QueueRun(q, ops[..done])
    {
      var reply, ok := Step(b, ops[done]);
      if !ok {
        return;
      }
      assert ops[..done + 1][..done] == ops[..done];
      replies := replies + [reply];
      done := done + 1;
    }
    assert ops[..|ops|] == ops;
  }
}
