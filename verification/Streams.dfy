/** The io.Reader that bufio and bytes read from: an arbitrary finite script of
    (chunk, error) results, after which every Read reports EOF. */
module Streams {
  import opened Common

  datatype Error = EOF | NoProgress | BufferFull | TooLong | ShortWrite | InvalidUnread | Foreign(code: nat)

  datatype Result = Result(chunk: seq<byte>, err: Option<Error>)

  /** maxConsecutiveEmptyReads (bufio.go:41) */
  const MAX_EMPTY_READS: nat := 100

  class ScriptReader {
    var script: seq<Result>

    constructor (script: seq<Result>)
      ensures this.script == script
    {
      this.script := script;
    }

    /** Read(p) with len(p) == n.  A chunk longer than p is delivered in parts. */
    method Read(n: nat) returns (data: seq<byte>, err: Option<Error>)
      modifies this
      ensures (data, err, script) == NextRead(old(script), n)
    {
      if script == [] {
        return [], Some(EOF);
      }
      var head := script[0];
      if |head.chunk| <= n {
        data, err := head.chunk, head.err;
        script := script[1..];
      } else {
        data, err := head.chunk[..n], None;
        script := [head.(chunk := head.chunk[n..])] + script[1..];
      }
    }
  }

  function NextRead(script: seq<Result>, n: nat): (r: (seq<byte>, Option<Error>, seq<Result>))
    ensures |r.0| <= n
  {
    if script == [] then ([], Some(EOF), [])
    else if |script[0].chunk| <= n then (script[0].chunk, script[0].err, script[1..])
    else (script[0].chunk[..n], None, [script[0].(chunk := script[0].chunk[n..])] + script[1..])
  }

  /** How much a script can still deliver; every useful Read uses some up. */
  function Size(script: seq<Result>): nat {
    if script == [] then 0 else 1 + |script[0].chunk| + Size(script[1..])
  }

  lemma NextReadShrinks(script: seq<Result>, n: nat)
    requires n > 0
    ensures Size(NextRead(script, n).2) + |NextRead(script, n).0| <= Size(script)
    ensures script != [] && (NextRead(script, n).1.Some? || NextRead(script, n).0 == []) ==>
      Size(NextRead(script, n).2) + |NextRead(script, n).0| < Size(script)
  {
  }

  /** What a reader of the script gets to see: the bytes up to the first error,
      that error, and the script after it.  A run of `limit` empty results
      counts as the error ErrNoProgress; `empties` of them have been seen already. */
  datatype Delivery = Delivery(bytes: seq<byte>, err: Error, rest: seq<Result>)

  function Deliver(script: seq<Result>, empties: nat, limit: nat): Delivery {
    if script == [] then Delivery([], EOF, [])
    else
      var head := script[0];
      if head.err.Some? then Delivery(head.chunk, head.err.value, script[1..])
      else if head.chunk != [] then
        var d := Deliver(script[1..], 0, limit);
        d.(bytes := head.chunk + d.bytes)
      else if empties + 1 >= limit then Delivery([], NoProgress, script[1..])
      else Deliver(script[1..], empties + 1, limit)
  }

  /** One Read takes a prefix of what is to be delivered, whatever the length of
      its buffer. */
  lemma ReadDelivers(script: seq<Result>, n: nat, empties: nat, limit: nat)
    requires n > 0
    ensures var (data, err, script') := NextRead(script, n);
      var d := Deliver(script, empties, limit);
      && (err.Some? ==> d == Delivery(data, err.value, script'))
      && (err.None? && data != [] ==>
            var d' := Deliver(script', 0, limit);
            d == Delivery(data + d'.bytes, d'.err, d'.rest))
      && (err.None? && data == [] ==>
            d == if empties + 1 >= limit then Delivery([], NoProgress, script')
                 else Deliver(script', empties + 1, limit))
  {
    if script != [] && |script[0].chunk| > n {
      var head := script[0];
      var script' := NextRead(script, n).2;
      assert script'[0] == head.(chunk := head.chunk[n..]) && script'[1..] == script[1..];
      assert head.chunk == head.chunk[..n] + head.chunk[n..];
      if head.err.None? {
        var d := Deliver(script[1..], 0, limit);
        assert head.chunk + d.bytes == head.chunk[..n] + (head.chunk[n..] + d.bytes);
      }
    }
  }

  /** What a reader with these unread bytes and this pending error still has to give. */
  ghost function ViewOf(unread: seq<byte>, err: Option<Error>, script: seq<Result>, limit: nat): Delivery {
    if err.Some? then Delivery(unread, err.value, script)
    else
      var d := Deliver(script, 0, limit);
      Delivery(unread + d.bytes, d.err, d.rest)
  }

  /** Data that a Read returned go behind the unread bytes. */
  lemma ViewAfterData(unread: seq<byte>, data: seq<byte>, d0: Delivery, script': seq<Result>, limit: nat)
    requires var d := Deliver(script', 0, limit); d0 == Delivery(data + d.bytes, d.err, d.rest)
    ensures Delivery(unread + d0.bytes, d0.err, d0.rest) == ViewOf(unread + data, None, script', limit)
  {
    Associate(unread, data, Deliver(script', 0, limit).bytes);
  }
}
