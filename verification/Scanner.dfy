/** bufio.Scanner of src/bufio/scan.go with its default split function. */
module Scanner {
  import opened Common
  import opened Streams
  import opened ByteIndex

  const NEWLINE: byte := 10
  const RETURN: byte := 13
  const START_BUF_SIZE: nat := 4096

  /** The read loop gives up after more than maxConsecutiveEmptyReads. */
  const EMPTY_LIMIT: nat := MAX_EMPTY_READS + 1

  /** dropCR (scan.go:332-337) */
  function DropCR(data: seq<byte>): seq<byte> {
    if |data| > 0 && data[|data| - 1] == RETURN then data[..|data| - 1] else data
  }

  /** ScanLines (scan.go:345-359): how far to advance, and the token if there is one. */
  function ScanLines(data: seq<byte>, atEOF: bool): (int, Option<seq<byte>>) {
    if atEOF && |data| == 0 then (0, None)
    else
      var i := IndexByte(data, NEWLINE);
      if i >= 0 then (i + 1, Some(DropCR(data[..i])))
      else if atEOF then (|data|, Some(DropCR(data)))
      else (0, None)
  }

  /** The lines of a text: split after every newline, an optional carriage return
      dropped, the last line kept if it is not empty. */
  function Lines(text: seq<byte>): seq<seq<byte>> {
    if text == [] then []
    else
      var i := IndexByte(text, NEWLINE);
      if i < 0 then [DropCR(text)]
      else [DropCR(text[..i])] + Lines(text[i + 1..])
  }

  class Scanner {
    const r: ScriptReader
    const maxTokenSize: int
    var token: seq<byte>
    var buf: array<byte>
    var start: nat
    var end: nat
    var err: Option<Error>
    var empties: nat

    ghost predicate Valid()
      reads this, buf
    {
      start <= end <= buf.Length && empties == 0
    }

    ghost function Unscanned(): seq<byte>
      reads this, buf
      requires Valid()
    {
      buf[start..end]
    }

    /** The text still to be scanned, and the error that ends it. */
    ghost function View(): Delivery
      reads this, buf, r
      requires Valid()
    {
      ViewOf(Unscanned(), err, r.script, EMPTY_LIMIT)
    }

    /** NewScanner, or NewScanner followed by Buffer. */
    constructor (r: ScriptReader, buf: array<byte>, maxTokenSize: int)
      ensures Valid() && this.r == r && this.buf == buf && this.maxTokenSize == maxTokenSize
      ensures View() == Deliver(r.script, 0, EMPTY_LIMIT) && err.None?
    {
      this.r := r;
      this.buf := buf;
      this.maxTokenSize := maxTokenSize;
      start, end, err, empties, token := 0, 0, None, 0, [];
    }

    /** setErr (scan.go:247-251) */
    method SetErr(e: Error)
      modifies this`err
      ensures err == if old(err).None? || old(err) == Some(EOF) then Some(e) else old(err)
    {
      if err.None? || err == Some(EOF) {
        err := Some(e);
      }
    }

    /** advance (scan.go:233-244) for an advance that ScanLines can ask for. */
    method Advance(n: nat)
      requires Valid() && n <= end - start
      modifies this`start
      ensures Valid() && Unscanned() == old(Unscanned())[n..] && start == old(start) + n
    {
      start := start + n;
    }

    /** One call of the split function (scan.go:144-171): found says that token is
        set.  The check against tokens that do not advance never fires. */
    method Split() returns (found: bool)
      requires Valid() && (end > start || err.Some?)
      modifies this`start, this`token
      ensures Valid()
      ensures found ==> TokenOf(old(View()), token, View())
      ensures !found ==> View() == old(View()) && start == old(start) && NEWLINE !in Unscanned()
      ensures !found && err.Some? ==> Unscanned() == []
    {
      var (advance, token') := ScanLines(buf[start..end], err.Some?);
      ghost var unscanned := Unscanned();
      Advance(advance);
      if token'.None? {
        return false;
      }
      token := token'.value;
      if !(err.None? || advance > 0) {
        assert false;  // tokens that do not advance at the end of the input
      }
      FirstLine(unscanned, err, r.script);
      return true;
    }

    /** Shift and resize (scan.go:183-208): afterwards there is room to read, or
        the buffer has reached its limit. */
    method MakeRoom() returns (ok: bool)
      requires Valid()
      modifies this`buf, this`start, this`end, buf
      ensures Valid() && Unscanned() == old(Unscanned())
      ensures buf == old(buf) || fresh(buf)
      ensures ok ==> end < buf.Length
      ensures !ok ==> |Unscanned()| == buf.Length && (buf.Length >= maxTokenSize || buf.Length > MAX_INT / 2)
    {
      if start > 0 && (end == buf.Length || start > buf.Length / 2) {
        forall i | 0 <= i < end - start {
          buf[i] := buf[start + i];
        }
        end := end - start;
        start := 0;
      }
      if end == buf.Length {
        if buf.Length >= maxTokenSize || buf.Length > MAX_INT / 2 {
          return false;
        }
        var newSize := buf.Length * 2;
        if newSize == 0 {
          newSize := START_BUF_SIZE;
        }
        if newSize > maxTokenSize {
          newSize := maxTokenSize;
        }
        var newBuf := new byte[newSize](_ => 0);
        CopyInto(newBuf, 0, buf[start..end]);
        buf := newBuf;
        end := end - start;
        start := 0;
      }
      ok := true;
    }

    /** The bytes of a Read go behind the unscanned ones. */
    method Take(data: seq<byte>)
      requires Valid() && end + |data| <= buf.Length
      modifies this`end, buf
      ensures Valid() && Unscanned() == old(Unscanned()) + data && end == old(end) + |data|
    {
      CopyInto(buf, end, data);
      end := end + |data|;
    }

    /** The read loop (scan.go:212-228). */
    method ReadMore()
      requires Valid() && end < buf.Length && err.None?
      modifies this`end, this`err, this`empties, buf, r
      ensures Valid() && View() == old(View())
      ensures err.Some? || Size(r.script) < old(Size(r.script))
    {
      ghost var unscanned, d0 := Unscanned(), Deliver(r.script, 0, EMPTY_LIMIT);
      var loop := 0;
      while true
        invariant loop < EMPTY_LIMIT && Valid() && end < buf.Length && err.None?
        invariant Unscanned() == unscanned && start == old(start)
        invariant d0 == Deliver(r.script, loop, EMPTY_LIMIT)
        invariant Size(r.script) <= old(Size(r.script))
        decreases EMPTY_LIMIT - loop
      {
        ReadDelivers(r.script, buf.Length - end, loop, EMPTY_LIMIT);
        NextReadShrinks(r.script, buf.Length - end);
        var data, e := r.Read(buf.Length - end);
        Take(data);
        if e.Some? {
          SetErr(e.value);
          return;
        }
        if |data| > 0 {
          ViewAfterData(unscanned, data, d0, r.script, EMPTY_LIMIT);
          empties := 0;
          return;
        }
        assert unscanned + [] == unscanned;
        loop := loop + 1;
        if loop > MAX_EMPTY_READS {
          SetErr(NoProgress);
          return;
        }
      }
    }

    /** The end of a scan (scan.go:174-179). */
    method ShutDown()
      requires Valid() && err.Some? && Unscanned() == []
      modifies this`start, this`end
      ensures Valid() && View() == old(View()) && View().bytes == [] && Some(View().err) == err
    {
      start := 0;
      end := 0;
      assert Unscanned() == [];
    }

    /** Scan (scan.go:134-230): the next line, or false at the end of the text; or
        false because the line does not fit into the largest buffer allowed. */
    method Scan() returns (found: bool)
      requires Valid()
      modifies this, buf, r
      ensures Valid() && (buf == old(buf) || fresh(buf))
      ensures found ==> TokenOf(old(View()), token, View())
      ensures !found && err != Some(TooLong) ==>
        old(View()).bytes == [] && View() == old(View()) && err == Some(old(View()).err)
      ensures !found && err == Some(TooLong) && old(View()).err != TooLong ==>
        LineTooLong(old(View()).bytes, maxTokenSize)
    {
      ghost var v := View();
      while true
        invariant Valid() && View() == v && (buf == old(buf) || fresh(buf))
        decreases if err.None? then 1 else 0, Size(r.script)
      {
        if end > start || err.Some? {
          found := Split();
          if found {
            return true;
          }
        }
        if err.Some? {
          ShutDown();
          return false;
        }
        var ok := MakeRoom();
        if !ok {
          NoLine(Unscanned(), v.bytes, maxTokenSize);
          SetErr(TooLong);
          return false;
        }
        ReadMore();
      }
    }
  }

  /** The token is the first line of the text, and the text goes on after it. */
  ghost predicate TokenOf(v: Delivery, token: seq<byte>, v': Delivery) {
    && Lines(v.bytes) != [] && token == Lines(v.bytes)[0]
    && Lines(v'.bytes) == Lines(v.bytes)[1..]
    && |v'.bytes| < |v.bytes|
    && v' == v.(bytes := v.bytes[|v.bytes| - |v'.bytes|..])
  }

  /** No newline among the first bytes that the largest buffer can hold. */
  predicate LineTooLong(text: seq<byte>, maxTokenSize: int) {
    exists n :: 0 <= n <= |text| && (n >= maxTokenSize || n > MAX_INT / 2) && NEWLINE !in text[..n]
  }

  /** The first line of the buffer is the first line of the whole text, unless
      more text could still belong to it. */
  lemma FirstLine(unscanned: seq<byte>, err: Option<Error>, script: seq<Result>)
    requires ScanLines(unscanned, err.Some?).1.Some?
    ensures var (advance, token) := ScanLines(unscanned, err.Some?);
      && 0 < advance <= |unscanned|
      && TokenOf(ViewOf(unscanned, err, script, EMPTY_LIMIT), token.value,
                 ViewOf(unscanned[advance..], err, script, EMPTY_LIMIT))
  {
    var i := IndexByte(unscanned, NEWLINE);
    var all := ViewOf(unscanned, err, script, EMPTY_LIMIT).bytes;
    if i >= 0 {
      assert all[..i] == unscanned[..i];
      IndexByteUnique(all, NEWLINE, i);
      assert ViewOf(unscanned[i + 1..], err, script, EMPTY_LIMIT).bytes == all[i + 1..];
    }
  }

  lemma NoLine(unscanned: seq<byte>, text: seq<byte>, maxTokenSize: int)
    requires unscanned <= text && NEWLINE !in unscanned
    requires |unscanned| >= maxTokenSize || |unscanned| > MAX_INT / 2
    ensures LineTooLong(text, maxTokenSize)
  {
    assert text[..|unscanned|] == unscanned;
  }

  /** A token moves the scan on by one line of the whole text. */
  lemma NextToken(whole: Delivery, k: nat, tokens: seq<seq<byte>>, v: Delivery, token: seq<byte>, v': Delivery)
    requires k <= |whole.bytes| && v == whole.(bytes := whole.bytes[k..])
    requires tokens + Lines(v.bytes) == Lines(whole.bytes)
    requires TokenOf(v, token, v')
    ensures |v'.bytes| < |whole.bytes| - k
    ensures v' == whole.(bytes := whole.bytes[|whole.bytes| - |v'.bytes|..])
    ensures tokens + [token] + Lines(v'.bytes) == Lines(whole.bytes)
  {
    var lines := Lines(v.bytes);
    assert lines == [token] + Lines(v'.bytes);
    assert tokens + [token] + Lines(v'.bytes) == tokens + lines;
  }

  /** The tokens so far are the first lines of the whole text, and v is the rest. */
  ghost predicate Scanned(whole: Delivery, k: nat, tokens: seq<seq<byte>>, v: Delivery) {
    && k <= |whole.bytes| && v == whole.(bytes := whole.bytes[k..])
    && tokens + Lines(v.bytes) == Lines(whole.bytes)
  }

  /** The lines that follow the tokens start with one that is too long. */
  ghost predicate TooLongAfter(tokens: seq<seq<byte>>, text: seq<byte>, maxTokenSize: int) {
    exists k: nat :: k <= |text| && LineTooLong(text[k..], maxTokenSize) && tokens + Lines(text[k..]) == Lines(text)
  }

  /** How a scan ends: with all the lines and the reader's error, or in front of a
      line that is too long. */
  ghost predicate ScanEnds(whole: Delivery, tokens: seq<seq<byte>>, err: Option<Error>, maxTokenSize: int) {
    && (err != Some(TooLong) ==> tokens == Lines(whole.bytes) && err == Some(whole.err))
    && (err == Some(TooLong) && whole.err != TooLong ==> TooLongAfter(tokens, whole.bytes, maxTokenSize))
  }

  lemma NoMoreTokens(whole: Delivery, k: nat, tokens: seq<seq<byte>>, v: Delivery, err: Option<Error>,
                     maxTokenSize: int)
    requires Scanned(whole, k, tokens, v)
    requires err != Some(TooLong) ==> v.bytes == [] && err == Some(v.err)
    requires err == Some(TooLong) && v.err != TooLong ==> LineTooLong(v.bytes, maxTokenSize)
    ensures ScanEnds(whole, tokens, err, maxTokenSize)
  {
    if err != Some(TooLong) {
      assert Lines(v.bytes) == [];
      assert tokens + [] == tokens;
    }
  }

  /** One round of a loop over Scan. */
  method ScanNext(s: Scanner, tokens: seq<seq<byte>>, ghost whole: Delivery, ghost k: nat, ghost v: Delivery)
    returns (found: bool, tokens': seq<seq<byte>>, ghost k': nat, ghost v': Delivery)
    requires s.Valid() && v == s.View() && Scanned(whole, k, tokens, v)
    modifies s, s.buf, s.r
    ensures s.Valid() && (s.buf == old(s.buf) || fresh(s.buf))
    ensures found ==> v' == s.View() && Scanned(whole, k', tokens', v') && k < k'
    ensures !found ==> tokens' == tokens && ScanEnds(whole, tokens, s.err, s.maxTokenSize)
  {
    found := s.Scan();
    v', k', tokens' := s.View(), k, tokens;
    if found {
      NextToken(whole, k, tokens, v, s.token, v');
      k' := |whole.bytes| - |v'.bytes|;
      tokens' := tokens + [s.token];
    } else {
      NoMoreTokens(whole, k, tokens, v, s.err, s.maxTokenSize);
    }
  }

  /** Scanning to the end yields exactly the lines of what the reader delivers,
      whatever the chunks and the buffer; unless a line is too long, and then
      the lines before that one. */
  method ScanAll(s: Scanner) returns (tokens: seq<seq<byte>>)
    requires s.Valid()
    modifies s, s.buf, s.r
    ensures s.Valid() && ScanEnds(old(s.View()), tokens, s.err, s.maxTokenSize)
  {
    ghost var whole := s.View();
    ghost var v, k: nat := whole, 0;
    tokens := [];
    assert whole.bytes[0..] == whole.bytes;
    assert [] + Lines(v.bytes) == Lines(v.bytes);
    var found := true;
    while true
      invariant s.Valid() && (s.buf == old(s.buf) || fresh(s.buf))
      invariant v == s.View() && Scanned(whole, k, tokens, v)
      decreases |whole.bytes| - k
    {
      found, tokens, k, v := ScanNext(s, tokens, whole, k, v);
      if !found {
        return;
      }
    }
  }
}
