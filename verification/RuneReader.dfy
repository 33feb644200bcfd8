/** The readRune of src/fmt/scan.go, which reads runes from an io.Reader. */
module RuneReader {
  import opened Common
  import opened Streams
  import opened Utf8

  /** io.ReadFull of one byte: Reads that give neither a byte nor an error are
      repeated, and an error that comes with the byte is dropped. */
  function NextByte(script: seq<Result>): (r: (Option<byte>, Error, seq<Result>))
    ensures |r.2| <= |script|
  {
    if script == [] then (None, EOF, [])
    else
      var head := script[0];
      if head.chunk == [] then
        if head.err.Some? then (None, head.err.value, script[1..]) else NextByte(script[1..])
      else if |head.chunk| == 1 then (Some(head.chunk[0]), EOF, script[1..])
      else (Some(head.chunk[0]), EOF, [head.(chunk := head.chunk[1..])] + script[1..])
  }

  /** The bytes that reading one by one gives, if they end in EOF and nothing
      comes after it. */
  function StreamOf(script: seq<Result>): Option<seq<byte>> {
    if script == [] then Some([])
    else
      var head, rest := script[0], StreamOf(script[1..]);
      if rest.None? then None
      else if head.chunk == [] && head.err.Some? then
        if head.err == Some(EOF) && rest.value == [] then Some([]) else None
      else Some(head.chunk + rest.value)
  }

  lemma {:induction false} NextOfStream(script: seq<Result>)
    requires StreamOf(script).Some?
    ensures var (b, err, script') := NextByte(script);
      var bytes := StreamOf(script).value;
      if bytes == [] then b == None && err == EOF && StreamOf(script') == Some([])
      else b == Some(bytes[0]) && StreamOf(script') == Some(bytes[1..])
    decreases script
  {
    if script != [] {
      var head := script[0];
      if head.chunk == [] {
        if head.err.None? {
          NextOfStream(script[1..]);
          assert [] + StreamOf(script[1..]).value == StreamOf(script[1..]).value;
        }
      } else {
        var rest := StreamOf(script[1..]).value;
        var script' := NextByte(script).2;
        if |head.chunk| == 1 {
          assert (head.chunk + rest)[1..] == rest;
        } else {
          assert script'[0] == head.(chunk := head.chunk[1..]) && script'[1..] == script[1..];
          assert (head.chunk + rest)[1..] == head.chunk[1..] + rest;
        }
      }
    }
  }

  class RuneReader {
    const reader: ScriptReader
    const buf: array<byte>
    const pendBuf: array<byte>
    var pending: nat
    var peekRune: int

    /** The rune that ReadRune returned last, if it has not been unread, and whether
        anything has been read or unread at all. */
    ghost var last: Option<int>
    ghost var started: bool

    /** At most three bytes are left over, and only the last of them can start a
        rune. */
    ghost predicate Valid()
      reads this, pendBuf
    {
      && buf.Length == UTF_MAX && pendBuf.Length == UTF_MAX && buf != pendBuf
      && pending <= 3 && (forall i :: 0 <= i < pending - 1 ==> IsTail(pendBuf[i]))
      && last == (if started && peekRune < 0 then Some(-peekRune - 1) else None)
      && (!started ==> peekRune == -1)
    }

    ghost predicate EndsInEOF()
      reads reader
    {
      StreamOf(reader.script).Some?
    }

    /** The bytes still to be decoded. */
    ghost function Bytes(): seq<byte>
      reads this, pendBuf, reader
      requires Valid() && EndsInEOF()
    {
      pendBuf[..pending] + StreamOf(reader.script).value
    }

    /** The runes still to be read. */
    ghost function RunesLeft(): seq<int>
      reads this, pendBuf, reader
      requires Valid() && EndsInEOF()
    {
      if peekRune >= 0 then [peekRune] + Runes(Bytes()) else Runes(Bytes())
    }

    /** &readRune{reader: r, peekRune: -1} (scan.go:388) */
    constructor (r: ScriptReader)
      ensures Valid() && reader == r && pending == 0 && peekRune == -1 && !started
      ensures fresh(buf) && fresh(pendBuf)
    {
      reader := r;
      pending, peekRune, last, started := 0, -1, None, false;
      buf := new byte[4](_ => 0);
      pendBuf := new byte[4](_ => 0);
      new;
    }

    /** The byte that readByte takes from the reader. */
    method ReadFull() returns (b: Option<byte>, err: Error)
      modifies reader
      ensures (b, err, reader.script) == NextByte(old(reader.script))
    {
      ghost var script := reader.script;
      while true
        invariant NextByte(reader.script) == NextByte(script)
        decreases |reader.script|
      {
        if reader.script == [] {
          return None, EOF;
        }
        var data, e := reader.Read(1);
        if data != [] {
          return Some(data[0]), EOF;
        }
        if e.Some? {
          return None, e.value;
        }
      }
    }

    /** readByte (scan.go:314-326) */
    method ReadByte() returns (b: byte, err: Option<Error>)
      requires Valid()
      modifies this`pending, pendBuf, reader
      ensures Valid() && pending == if old(pending) > 0 then old(pending) - 1 else 0
      ensures old(pending) > 1 ==> err.None? && IsTail(b)
      ensures old(EndsInEOF()) ==> EndsInEOF() && (if old(Bytes()) == [] then err == Some(EOF) && Bytes() == []
                                                   else err.None? && [b] + Bytes() == old(Bytes()))
    {
      if pending > 0 {
        ghost var left := pendBuf[..pending];
        b := pendBuf[0];
        forall i | 0 <= i < 3 {
          pendBuf[i] := pendBuf[i + 1];
        }
        pending := pending - 1;
        assert pendBuf[..pending] == left[1..];
        return b, None;
      }
      if StreamOf(reader.script).Some? {
        NextOfStream(reader.script);
      }
      var r, e := ReadFull();
      if r.None? {
        return 0, Some(e);
      }
      pendBuf[0] := r.value;
      return pendBuf[0], None;
    }

    /** The bytes of the next rune (scan.go:348-358): n of them in buf, full or up
        to the end of the input. */
    method FillBuf() returns (n: nat, err: Option<Error>)
      requires Valid() && (pending == 0 || FullRune(buf[..1]))
      modifies this`pending, buf, pendBuf, reader
      ensures Valid() && 1 <= n <= 4 && buf[0] == old(buf[0])
      ensures n > 1 ==> pending == 0 && !FullRune(buf[..n - 1])
      ensures old(EndsInEOF()) ==> EndsInEOF() && err.None? && buf[..n] + Bytes() == [buf[0]] + old(Bytes())
      ensures old(EndsInEOF()) ==> FullRune(buf[..n]) || (Bytes() == [] && pending == 0)
    {
      n := 1;
      while !FullRune(buf[..n])
        invariant Valid() && 1 <= n <= 4 && buf[0] == old(buf[0])
        invariant (n > 1 ==> pending == 0 && !FullRune(buf[..n - 1])) && (n == 1 ==> pending == old(pending))
        invariant old(EndsInEOF()) ==> EndsInEOF() && buf[..n] + Bytes() == [buf[0]] + old(Bytes())
        decreases 4 - n
      {
        PartialRune(buf[..n]);
        ghost var read := buf[..n];
        var b;
        b, err := ReadByte();
        if err.Some? {
          if err == Some(EOF) {
            err := None;
            break;
          }
          return;
        }
        buf[n] := b;
        assert buf[..n + 1] == read + [b];
        n := n + 1;
        assert buf[..n - 1] == read;
      }
      err := None;
    }

    /** The bytes of buf behind the rune are kept for the next read (scan.go:360-363). */
    method PushBack(size: nat, n: nat)
      requires Valid() && 1 <= size <= n <= 4
      requires size < n ==> pending == 0 && forall i :: 1 <= i < n - 1 ==> IsTail(buf[i])
      modifies this`pending, pendBuf
      ensures Valid() && (size == n ==> pending == old(pending))
      ensures EndsInEOF() ==> Bytes() == buf[size..n] + old(if EndsInEOF() then Bytes() else [])
    {
      if size < n {
        forall i | 0 <= i < n - size {
          pendBuf[pending + i] := buf[size + i];
        }
        pending := pending + (n - size);
        assert pendBuf[..pending] == buf[size..n];
      }
    }

    /** ReadRune (scan.go:330-367) */
    method ReadRune() returns (rr: int, size: int, err: Option<Error>)
      requires Valid()
      modifies this`pending, this`peekRune, this`last, this`started, buf, pendBuf, reader
      ensures Valid() && (err.None? ==> peekRune == -rr - 1 && rr >= 0 && started)
      ensures old(EndsInEOF()) ==> EndsInEOF() && Next(old(RunesLeft()), rr, err, RunesLeft())
      ensures old(peekRune) >= 0 ==> err.None? && rr == old(peekRune) && size == RuneLen(rr)
      ensures old(EndsInEOF()) && err.None? && old(peekRune) < 0 ==> size == DecodeRune(old(Bytes())).1
    {
      if peekRune >= 0 {
        rr := peekRune;
        peekRune := -peekRune - 1;
        last := Some(rr);
        size := RuneLen(rr);
        return rr, size, None;
      }
      rr, size, err := DecodeNext();
      if err.None? {
        // A negative peekRune tells UnreadRune what to give back.
        peekRune := -rr - 1;
        last, started := Some(rr), true;
      }
    }

    /** The next rune from the bytes (scan.go:337-363). */
    method DecodeNext() returns (rr: int, size: int, err: Option<Error>)
      requires Valid()
      modifies this`pending, buf, pendBuf, reader
      ensures Valid() && (err.None? ==> rr >= 0)
      ensures old(EndsInEOF()) ==> EndsInEOF() && Taken(old(Bytes()), rr, size, err, Bytes())
    {
      ghost var known := EndsInEOF();
      ghost var all := if known then Bytes() else [];
      var b;
      b, err := ReadByte();
      if err.Some? {
        return 0, 0, err;
      }
      buf[0] := b;
      if b < RUNE_SELF {
        return b, 1, None;
      }
      var n;
      n, err := FillBuf();
      if err.Some? {
        return 0, 0, err;
      }
      rr, size := Split(n, known, if known then Bytes() else [], all);
    }

    /** The rune at the front of buf, and the bytes behind it left over
        (scan.go:359-363). */
    method Split(n: nat, ghost known: bool, ghost rest: seq<byte>, ghost all: seq<byte>) returns (rr: int, size: nat)
      requires Valid() && 1 <= n <= 4 && (n > 1 ==> pending == 0 && !FullRune(buf[..n - 1]))
      requires known ==> EndsInEOF() && rest == Bytes() && all == buf[..n] + rest && (FullRune(buf[..n]) || rest == [])
      modifies this`pending, pendBuf
      ensures Valid() && rr >= 0
      ensures known ==> EndsInEOF() && DecodeRune(all) == (rr, size) && Bytes() == all[size..]
    {
      ghost var read := buf[..n];
      var decoded := DecodeRune(buf[..n]);
      rr, size := decoded.0, decoded.1;
      FirstRune(read, rest, all);
      if n > 1 {
        PartialRune(buf[..n - 1]);
      }
      PushBack(size, n);
      assert buf[size..n] == read[size..];
    }

    /** UnreadRune (scan.go:369-376) */
    method UnreadRune() returns (ok: bool)
      requires Valid()
      modifies this`peekRune, this`last, this`started
      ensures Valid() && ok == (old(peekRune) < 0)
      ensures ok ==> peekRune == -old(peekRune) - 1
      ensures ok && EndsInEOF() ==> RunesLeft() == [peekRune] + old(if EndsInEOF() then RunesLeft() else [])
      ensures !ok ==> peekRune == old(peekRune)
      // It is refused exactly if there is no rune to give back, except at the very start.
      ensures (ok <==> old(last).Some?) <==> old(started)
    {
      if peekRune >= 0 {
        return false;
      }
      last, started := None, true;
      peekRune := -peekRune - 1;
      return true;
    }
  }

  /** What a successful or failing ReadRune does to the runes still to be read. */
  ghost predicate Next(before: seq<int>, rr: int, err: Option<Error>, after: seq<int>) {
    if before == [] then err == Some(EOF) && after == []
    else err.None? && rr == before[0] && after == before[1..]
  }

  /** The same for the bytes. */
  ghost predicate Taken(before: seq<byte>, rr: int, size: int, err: Option<Error>, after: seq<byte>) {
    if before == [] then err == Some(EOF) && after == []
    else err.None? && DecodeRune(before) == (rr, size) && after == before[size..]
  }

  /** Enough bytes have been read to know the first rune of all. */
  lemma FirstRune(read: seq<byte>, rest: seq<byte>, all: seq<byte>)
    requires read != []
    ensures DecodeRune(read).0 >= 0
    ensures all == read + rest && (FullRune(read) || rest == []) ==>
      DecodeRune(all) == DecodeRune(read) && all[DecodeRune(read).1..] == read[DecodeRune(read).1..] + rest
  {
    if all == read + rest && (FullRune(read) || rest == []) {
      if rest == [] {
        assert read + rest == read;
      } else {
        FullRuneIsFinal(read, rest);
      }
    }
  }

  /** The size of a rune is the length of its encoding, unless it stands for a bad
      byte. */
  lemma SizeOfRune(p: seq<byte>)
    requires p != []
    ensures var (r, size) := DecodeRune(p);
      size == RuneLen(r) <==> !(r == RUNE_ERROR && size == 1)
  {
    if StartsRune(p) {
      EncodeDecode(p);
    }
  }

  /** Reading a rune, unreading it and reading again gives the same rune twice, and
      the rest is as after the first reading.  The two sizes agree if and only if the
      rune did not stand for a bad byte. */
  method ReadUnreadRead(r: RuneReader) returns (first: int, size: int, second: int, sizeAgain: int)
    requires r.Valid() && r.EndsInEOF() && r.RunesLeft() != []
    modifies r, r.buf, r.pendBuf, r.reader
    ensures r.Valid() && r.EndsInEOF() && first == second == old(r.RunesLeft())[0]
    ensures r.RunesLeft() == old(r.RunesLeft())[1..]
    ensures sizeAgain == size <==> !(first == RUNE_ERROR && size == 1)
  {
    hide StreamOf;
    var err, ok;
    ghost var decoded, bytes := r.peekRune < 0, r.Bytes();
    first, size, err := r.ReadRune();
    FirstSize(decoded, bytes, first, size);
    ok := r.UnreadRune();
    second, sizeAgain, err := r.ReadRune();
  }

  lemma FirstSize(decoded: bool, bytes: seq<byte>, r: int, size: int)
    requires if decoded then bytes != [] && DecodeRune(bytes) == (r, size) else size == RuneLen(r)
    ensures size == RuneLen(r) <==> !(r == RUNE_ERROR && size == 1)
  {
    if decoded {
      SizeOfRune(bytes);
    } else {
      assert |Encode(0xFFFD)| == 3;
    }
  }

  /** UnreadRune on a new reader succeeds, and then a rune 0 is read that was never
      there. */
  method UnreadFirst(reader: ScriptReader) returns (ok: bool, rr: int, err: Option<Error>)
    modifies reader
    ensures ok && rr == 0 && err.None?
  {
    var r := new RuneReader(reader);
    ok := r.UnreadRune();
    var size;
    rr, size, err := r.ReadRune();
  }

  /** Reading to the end yields the decoding of all the bytes, U+FFFD for each one
      that belongs to no character. */
  method ReadAll(r: RuneReader) returns (runes: seq<int>)
    requires r.Valid() && r.EndsInEOF()
    modifies r, r.buf, r.pendBuf, r.reader
    ensures r.Valid() && runes == old(r.RunesLeft())
  {
    hide Runes, StreamOf, DecodeRune;
    runes := [];
    ghost var all := r.RunesLeft();
    ghost var left := all;
    while true
      invariant r.Valid() && r.EndsInEOF() && left == r.RunesLeft() && runes + left == all
      decreases |left|
    {
      var rr, size, err := r.ReadRune();
      if err.Some? {
        return;
      }
      assert runes + left == (runes + [left[0]]) + left[1..];
      runes := runes + [rr];
      left := left[1..];
    }
  }
}
