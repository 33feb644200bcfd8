/** The lines of a text that was written line by line: what bufio.Scanner's tokens
    are (src/bufio/scan.go:332-359). */
module ScannerLines {
  import opened Common
  import opened ByteIndex
  import opened Scanner

  /** A line as it is written: its content, and whether a carriage return stands in
      front of its newline. */
  datatype Line = Line(content: seq<byte>, withReturn: bool)

  function Ending(line: Line): seq<byte> {
    if line.withReturn then [13, 10] else [10]
  }

  /** No newline inside, and a carriage return at the end only in front of another. */
  predicate IsLine(line: Line) {
    && 10 !in line.content
    && (!line.withReturn ==> line.content == [] || line.content[|line.content| - 1] != 13)
  }

  function Written(lines: seq<Line>): seq<byte> {
    if lines == [] then [] else lines[0].content + Ending(lines[0]) + Written(lines[1..])
  }

  function Contents(lines: seq<Line>): seq<seq<byte>> {
    if lines == [] then [] else [lines[0].content] + Contents(lines[1..])
  }

  lemma LineFirst(line: Line, rest: seq<byte>)
    requires IsLine(line)
    ensures Lines(line.content + Ending(line) + rest) == [line.content] + Lines(rest)
  {
    var text := line.content + Ending(line) + rest;
    var i := if line.withReturn then |line.content| + 1 else |line.content|;
    assert text[i] == 10;
    var front := if line.withReturn then line.content + [13] else line.content;
    assert text[..i] == front && text[i + 1..] == rest;
    IndexByteUnique(text, NEWLINE, i);
    if line.withReturn {
      assert front[..|front| - 1] == line.content;
    }
  }

  lemma LastLine(last: seq<byte>)
    requires 10 !in last
    ensures Lines(last)
         == if last == [] then [] else if last[|last| - 1] == 13 then [last[..|last| - 1]] else [last]
  {
  }

  /** Whatever the line ends are, the tokens of written lines are their contents; a
      last line without a newline counts if it is not empty, and a carriage return at
      its end is dropped too. */
  lemma {:induction false} LinesAsWritten(lines: seq<Line>, last: seq<byte>)
    requires (forall k :: 0 <= k < |lines| ==> IsLine(lines[k])) && 10 !in last
    ensures Lines(Written(lines) + last)
         == Contents(lines) + if last == [] then [] else if last[|last| - 1] == 13 then [last[..|last| - 1]] else [last]
    decreases lines
  {
    hide Lines, IsLine, Ending;
    if lines == [] {
      assert [] + last == last;
      LastLine(last);
    } else {
      var line := lines[0];
      LinesAsWritten(lines[1..], last);
      LineFirst(line, Written(lines[1..]) + last);
      assert Written(lines) + last == line.content + Ending(line) + (Written(lines[1..]) + last);
    }
  }

  /** Every text has been written in this way. */
  lemma {:induction false} EveryTextIsWritten(text: seq<byte>) returns (lines: seq<Line>, last: seq<byte>)
    ensures (forall k :: 0 <= k < |lines| ==> IsLine(lines[k])) && 10 !in last && text == Written(lines) + last
    decreases |text|
  {
    var i := IndexByte(text, NEWLINE);
    if i < 0 {
      lines, last := [], text;
    } else {
      var front := text[..i];
      var withReturn := i > 0 && front[i - 1] == 13;
      var line := Line(if withReturn then front[..i - 1] else front, withReturn);
      assert line.content + Ending(line) == text[..i + 1];
      var later;
      later, last := EveryTextIsWritten(text[i + 1..]);
      lines := [line] + later;
      assert lines[1..] == later;
      assert text == text[..i + 1] + (Written(later) + last);
      assert text[..i + 1] + (Written(later) + last) == text[..i + 1] + Written(later) + last;
    }
  }
}
